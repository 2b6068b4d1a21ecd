/** The group and class merge rules of the builder: `formatGroupClass`,
    `formatGroupPrefix` and `mergeGroup` (static members of Builder). */
module Groups {
  import opened Php
  import opened Urls

  const ClassKey: Key := Name("class")

  /** The class tokens of an attribute array as `formatGroupClass` sees them:
      the trimmed class string split on single spaces; none when it is empty. */
  function ClassTokens(a: PArray): seq<string>
  {
    Tokens(Trim(ToStr(Get(a, ClassKey)), Blanks))
  }

  function Tokens(s: string): seq<string>
  {
    if s == "" then [] else Explode(' ', s)
  }

  /** `Builder::formatGroupClass($new, $old)`, with `inner` for `$new` and `outer` for `$old`. */
  function FormatGroupClass(inner: PArray, outer: PArray): Value
  {
    if IsSet(inner, ClassKey) then
      var classes := Trim(Trim(ToStr(Get(outer, ClassKey)), Blanks) + " " + Trim(ToStr(Get(inner, ClassKey)), Blanks), Blanks);
      Str(Implode(" ", Unique(Explode(' ', classes))))
    else
      Get(outer, ClassKey)
  }

  lemma {:induction false} ExplodeJoin(x: string, y: string)
    ensures Explode(' ', x + " " + y) == Explode(' ', x) + Explode(' ', y)
  {
    var s := x + " " + y;
    if |x| == 0 {
      assert s[0] == ' ' && s[1..] == y;
      assert Explode(' ', s) == [""] + Explode(' ', y);
    } else {
      assert s[0] == x[0] && s[1..] == x[1..] + " " + y;
      ExplodeJoin(x[1..], y);
      ExplodeFirst(s);
      ExplodeFirst(x);
      PushCharAppend(x[0], Explode(' ', x[1..]), Explode(' ', y));
    }
  }

  /** How `Explode` extends its result by one leading character. */
  function PushChar(c: char, r: seq<string>): seq<string>
    requires |r| >= 1
  {
    if c == ' ' then [""] + r else [[c] + r[0]] + r[1..]
  }

  lemma ExplodeFirst(s: string)
    requires |s| > 0
    ensures Explode(' ', s) == PushChar(s[0], Explode(' ', s[1..]))
  {
  }

  lemma PushCharAppend(c: char, a: seq<string>, b: seq<string>)
    requires |a| >= 1
    ensures PushChar(c, a + b) == PushChar(c, a) + b
  {
    if c != ' ' {
      assert (a + b)[0] == a[0] && (a + b)[1..] == a[1..] + b;
    }
  }

  lemma TrimmedEnds(s: string)
    ensures TrimmedBlanks(Trim(s, Blanks))
  {
    var l := TrimLeft(s, Blanks);
    var t := TrimRight(l, Blanks);
    if |t| > 0 {
      TrimRightPrefix(l, Blanks);
      assert t == l[..|t|];
    }
  }

  lemma TrimClean(s: string)
    requires TrimmedBlanks(s)
    ensures Trim(s, Blanks) == s
  {
  }

  lemma TrimSpaceLeft(n: string)
    requires TrimmedBlanks(n)
    ensures Trim(" " + n, Blanks) == n
  {
    assert TrimLeft(" " + n, Blanks) == TrimLeft(n, Blanks) by {
      assert (" " + n)[1..] == n;
    }
  }

  lemma TrimSpaceRight(o: string)
    requires TrimmedBlanks(o)
    ensures Trim(o + " ", Blanks) == o
  {
    var s := o + " ";
    assert ' ' in Blanks;
    if |o| == 0 {
      assert s[1..] == "";
      assert TrimLeft(s, Blanks) == TrimLeft("", Blanks);
    } else {
      assert s[0] == o[0];
      assert TrimLeft(s, Blanks) == s;
      assert s[..|s| - 1] == o;
      assert TrimRight(s, Blanks) == TrimRight(o, Blanks);
      assert TrimRight(o, Blanks) == o;
    }
  }

  predicate TrimmedBlanks(s: string)
  {
    |s| > 0 ==> s[0] !in Blanks && s[|s| - 1] !in Blanks
  }

  /** The string `formatGroupClass` splits, in terms of the two trimmed classes. */
  lemma JoinedClasses(o: string, n: string)
    requires TrimmedBlanks(o) && TrimmedBlanks(n)
    ensures Implode(" ", Unique(Explode(' ', Trim(o + " " + n, Blanks)))) == Implode(" ", Unique(Tokens(o) + Tokens(n)))
  {
    if o == "" && n == "" {
      assert o + " " + n == "" + " ";
      TrimSpaceRight("");
      assert Explode(' ', "") == [""];
      assert Unique([""]) == [""] by {
        assert [""][..0] == [];
      }
      assert Tokens(o) + Tokens(n) == [];
    } else if o == "" {
      assert o + " " + n == " " + n;
      TrimSpaceLeft(n);
      assert Tokens(o) + Tokens(n) == Explode(' ', n);
    } else if n == "" {
      assert o + " " + n == o + " ";
      TrimSpaceRight(o);
      assert Tokens(o) + Tokens(n) == Explode(' ', o);
    } else {
      var j := o + " " + n;
      assert j[0] == o[0] && j[|j| - 1] == n[|n| - 1];
      TrimClean(j);
      ExplodeJoin(o, n);
    }
  }

  /** With a class in `inner`, the result lists the tokens of the outer class
      and then those of the inner one, each distinct token once, at its first
      occurrence; without one, the outer class is returned unchanged. */
  lemma FormatGroupClassTokens(inner: PArray, outer: PArray)
    ensures !IsSet(inner, ClassKey) ==> FormatGroupClass(inner, outer) == Get(outer, ClassKey)
    ensures IsSet(inner, ClassKey) ==>
      FormatGroupClass(inner, outer) == Str(Implode(" ", Unique(ClassTokens(outer) + ClassTokens(inner))))
  {
    if IsSet(inner, ClassKey) {
      TrimmedEnds(ToStr(Get(outer, ClassKey)));
      TrimmedEnds(ToStr(Get(inner, ClassKey)));
      JoinedClasses(Trim(ToStr(Get(outer, ClassKey)), Blanks), Trim(ToStr(Get(inner, ClassKey)), Blanks));
    }
  }

  /** Every token of either class occurs in the merged class, exactly once. */
  lemma FormatGroupClassUnion(inner: PArray, outer: PArray, t: string)
    requires IsSet(inner, ClassKey)
    ensures var r := Unique(ClassTokens(outer) + ClassTokens(inner));
            FormatGroupClass(inner, outer) == Str(Implode(" ", r)) &&
            (t in r <==> t in ClassTokens(outer) || t in ClassTokens(inner)) &&
            forall i, j :: 0 <= i < j < |r| ==> r[i] != r[j]
  {
    FormatGroupClassTokens(inner, outer);
  }

  /** `Builder::formatGroupPrefix($new, $old)`. What it gives on nested
      groups is stated by `NestedPrefix`, `PrefixSlashes`, `PushedPrefix`
      and `NoPrefixGroup`. */
  function FormatGroupPrefix(inner: PArray, outer: PArray): Value
  {
    if IsSet(inner, PrefixKey) then
      Str(Trim(ToStr(Get(outer, PrefixKey)), {'/'}) + "/" + Trim(ToStr(Get(inner, PrefixKey)), {'/'}))
    else
      Get(outer, PrefixKey)
  }

  /** `getLastGroupPrefix()` on the stack: the top group's prefix (`''`
      when it has none), null outside any group. */
  function TopPrefix(stack: seq<PArray>): Value
  {
    if |stack| > 0 then
      var top := stack[|stack| - 1];
      if HasKey(top, PrefixKey) then Get(top, PrefixKey) else Str("")
    else Null
  }

  /** `updateGroupStack($attributes)` on the stack: the attributes pushed,
      merged with the top group when there is one. */
  function Pushed(stack: seq<PArray>, attrs: PArray): seq<PArray>
  {
    stack + [if |stack| > 0 then MergeGroup(attrs, stack[|stack| - 1]) else attrs]
  }

  /** `Builder::mergeGroup($new, $old)`. */
  function MergeGroup(inner: PArray, outer: PArray): PArray
  {
    var merged := Put(Put(inner, PrefixKey, FormatGroupPrefix(inner, outer)), ClassKey, FormatGroupClass(inner, outer));
    Merge(Except(outer, {"prefix", "class"}), merged)
  }

  /** The merged group has the merged prefix and class, and for every other
      string key the inner value when `inner` has the key, else the outer one. */
  lemma MergeGroupGet(inner: PArray, outer: PArray, n: string)
    ensures Get(MergeGroup(inner, outer), PrefixKey) == FormatGroupPrefix(inner, outer)
    ensures Get(MergeGroup(inner, outer), ClassKey) == FormatGroupClass(inner, outer)
    ensures n != "prefix" && n != "class" ==>
      Get(MergeGroup(inner, outer), Name(n)) == if HasKey(inner, Name(n)) then Get(inner, Name(n)) else Get(outer, Name(n))
  {
    var p := FormatGroupPrefix(inner, outer);
    var c := FormatGroupClass(inner, outer);
    var n1 := Put(inner, PrefixKey, p);
    var n2 := Put(n1, ClassKey, c);
    var e := Except(outer, {"prefix", "class"});
    MergeGet(e, n2, "prefix");
    MergeGet(e, n2, "class");
    MergeGet(e, n2, n);
    PutGet(inner, PrefixKey, p, PrefixKey);
    PutGet(n1, ClassKey, c, PrefixKey);
    PutGet(n1, ClassKey, c, ClassKey);
    PutGet(inner, PrefixKey, p, Name(n));
    PutGet(n1, ClassKey, c, Name(n));
    ExceptGet(outer, {"prefix", "class"}, Name(n));
    if n != "prefix" && n != "class" && !HasKey(inner, Name(n)) {
      assert !HasKey(n2, Name(n));
    }
  }

  /** Nested groups: the prefix of an inner group is the outer prefix and the
      inner one, each stripped of slashes, joined by one slash. */
  lemma NestedPrefix(outer: string, inner: string)
    ensures var o := [(PrefixKey, Str(outer))];
            var i := [(PrefixKey, Str(inner))];
            Get(MergeGroup(i, o), PrefixKey) == Str(Trim(outer, {'/'}) + "/" + Trim(inner, {'/'}))
  {
    var o: PArray := [(PrefixKey, Str(outer))];
    var i: PArray := [(PrefixKey, Str(inner))];
    MergeGroupGet(i, o, "prefix");
    GetAt(o, 0);
    GetAt(i, 0);
  }

  /** After a push, the last group prefix is the merged prefix of the new
      attributes and the old top group; on an empty stack it is the new
      attributes' own prefix. */
  lemma PushedPrefix(stack: seq<PArray>, attrs: PArray)
    ensures TopPrefix(Pushed(stack, attrs)) ==
      if |stack| > 0 then FormatGroupPrefix(attrs, stack[|stack| - 1])
      else if HasKey(attrs, PrefixKey) then Get(attrs, PrefixKey) else Str("")
  {
    if |stack| > 0 {
      var outer := stack[|stack| - 1];
      var p := FormatGroupPrefix(attrs, outer);
      var n1 := Put(attrs, PrefixKey, p);
      var n2 := Put(n1, ClassKey, FormatGroupClass(attrs, outer));
      PutGet(attrs, PrefixKey, p, PrefixKey);
      PutGet(n1, ClassKey, FormatGroupClass(attrs, outer), PrefixKey);
      assert HasKey(n2, PrefixKey);
      MergeGet(Except(outer, {"prefix", "class"}), n2, "prefix");
      MergeGroupGet(attrs, outer, "prefix");
    }
  }

  /** A string without the trimmed characters is its own trim. */
  lemma TrimNothing(s: string, cs: set<char>)
    requires forall j :: 0 <= j < |s| ==> s[j] !in cs
    ensures Trim(s, cs) == s
  {
  }

  /** `group(['prefix' => a], fn () => group(['prefix' => b], ...))`: inside
      the inner group the last prefix is `a/b`. */
  lemma NestedGroupPrefix(a: string, b: string)
    requires forall j :: 0 <= j < |a| ==> a[j] != '/'
    requires forall j :: 0 <= j < |b| ==> b[j] != '/'
    ensures TopPrefix(Pushed(Pushed([], [(PrefixKey, Str(a))]), [(PrefixKey, Str(b))])) == Str(a + "/" + b)
  {
    var o: PArray := [(PrefixKey, Str(a))];
    var i: PArray := [(PrefixKey, Str(b))];
    assert Pushed([], o) == [o];
    PushedPrefix([o], i);
    GetAt(o, 0);
    GetAt(i, 0);
    TrimNothing(a, {'/'});
    TrimNothing(b, {'/'});
  }

  /** A group without a prefix inside a group with prefix `a` keeps `a` as
      the last prefix; at the top level it gives the empty prefix. */
  lemma NoPrefixGroup(a: string, attrs: PArray)
    requires !HasKey(attrs, PrefixKey)
    ensures TopPrefix(Pushed([], attrs)) == Str("")
    ensures TopPrefix(Pushed([[(PrefixKey, Str(a))]], attrs)) == Str(a)
  {
    var o: PArray := [(PrefixKey, Str(a))];
    PushedPrefix([o], attrs);
    GetAt(o, 0);
  }

  /** Slashes around either prefix do not show in the merged prefix, and an
      outer group without a prefix leaves a leading slash. */
  lemma PrefixSlashes(a: string, b: string)
    requires forall j :: 0 <= j < |a| ==> a[j] != '/'
    requires forall j :: 0 <= j < |b| ==> b[j] != '/'
    ensures FormatGroupPrefix([(PrefixKey, Str("/" + b + "/"))], [(PrefixKey, Str("/" + a + "/"))]) == Str(a + "/" + b)
    ensures FormatGroupPrefix([(PrefixKey, Str(b))], [(ClassKey, Str(a))]) == Str("/" + b)
  {
    SlashedPrefixes(a, b);
    BarePrefix(a, b);
  }

  lemma SlashedPrefixes(a: string, b: string)
    requires forall j :: 0 <= j < |a| ==> a[j] != '/'
    requires forall j :: 0 <= j < |b| ==> b[j] != '/'
    ensures FormatGroupPrefix([(PrefixKey, Str("/" + b + "/"))], [(PrefixKey, Str("/" + a + "/"))]) == Str(a + "/" + b)
  {
    var o: PArray := [(PrefixKey, Str("/" + a + "/"))];
    var i: PArray := [(PrefixKey, Str("/" + b + "/"))];
    GetAt(o, 0);
    GetAt(i, 0);
    SlashedTrim(a);
    SlashedTrim(b);
  }

  lemma BarePrefix(a: string, b: string)
    requires forall j :: 0 <= j < |b| ==> b[j] != '/'
    ensures FormatGroupPrefix([(PrefixKey, Str(b))], [(ClassKey, Str(a))]) == Str("/" + b)
  {
    var i: PArray := [(PrefixKey, Str(b))];
    GetAt(i, 0);
    TrimNothing(b, {'/'});
    assert Get([(ClassKey, Str(a))], PrefixKey) == Null;
    assert Trim("", {'/'}) == "";
  }

  lemma SlashedTrim(a: string)
    requires forall j :: 0 <= j < |a| ==> a[j] != '/'
    ensures Trim("/" + a + "/", {'/'}) == a
  {
    var s := "/" + a + "/";
    assert s[1..] == a + "/";
    assert TrimLeft(s, {'/'}) == TrimLeft(a + "/", {'/'});
    if |a| > 0 {
      assert TrimLeft(a + "/", {'/'}) == a + "/";
    } else {
      assert a + "/" == "/" && TrimLeft("/", {'/'}) == TrimLeft("", {'/'});
    }
    assert (a + "/")[..|a + "/"| - 1] == a;
    TrimNothing(a, {'/'});
  }

  /** True for a class string made of non-empty tokens without blanks,
      separated by single spaces (what the merge produces from such inputs). */
  predicate PlainTokens(ts: seq<string>)
  {
    forall j :: 0 <= j < |ts| ==> ts[j] != "" && forall c :: c in ts[j] ==> c !in Blanks
  }

  lemma UniquePlain(ts: seq<string>)
    requires PlainTokens(ts)
    ensures PlainTokens(Unique(ts))
  {
    var u := Unique(ts);
    forall j | 0 <= j < |u| ensures u[j] != "" && forall c :: c in u[j] ==> c !in Blanks {
      assert u[j] in u;
      assert u[j] in ts;
    }
  }

  lemma {:induction false} UniqueOfDistinct(xs: seq<string>)
    requires forall i, j :: 0 <= i < j < |xs| ==> xs[i] != xs[j]
    ensures Unique(xs) == xs
    decreases |xs|
  {
    if |xs| > 0 {
      var init := xs[..|xs| - 1];
      UniqueOfDistinct(init);
      assert xs[|xs| - 1] !in init;
      assert xs == init + [xs[|xs| - 1]];
    }
  }

  lemma {:induction false} UniqueAfterSeen(seen: seq<string>, ys: seq<string>)
    requires forall y :: y in ys ==> y in seen
    ensures UniqueAfter(seen, ys) == seen
    decreases |ys|
  {
    if |ys| > 0 {
      UniqueAfterSeen(seen, ys[..|ys| - 1]);
      assert ys[|ys| - 1] in ys;
    }
  }

  lemma TokensOfPlain(ts: seq<string>)
    requires PlainTokens(ts)
    ensures Tokens(Trim(Implode(" ", ts), Blanks)) == ts
  {
    if |ts| == 0 {
    } else {
      var s := Implode(" ", ts);
      ImplodeEnds(ts);
      TrimClean(s);
      forall j | 0 <= j < |ts| ensures ' ' !in ts[j] {
        assert ' ' in Blanks;
      }
      ExplodeImplode(' ', ts);
    }
  }

  lemma {:induction false} ImplodeEnds(ts: seq<string>)
    requires |ts| > 0 && PlainTokens(ts)
    ensures var s := Implode(" ", ts); |s| > 0 && s[0] == ts[0][0] && s[|s| - 1] == ts[|ts| - 1][|ts[|ts| - 1]| - 1]
  {
    if |ts| > 1 {
      ImplodeEnds(ts[1..]);
      var s := Implode(" ", ts);
      assert s == ts[0] + " " + Implode(" ", ts[1..]);
    }
  }

  /** Appending strings that already occur changes nothing once duplicates are removed. */
  lemma UniqueAbsorb(xs: seq<string>, ys: seq<string>)
    requires forall y :: y in ys ==> y in xs
    ensures Unique(Unique(xs) + ys) == Unique(xs)
  {
    var u := Unique(xs);
    UniqueAppend(u, ys);
    UniqueOfDistinct(u);
    UniqueAfterSeen(u, ys);
  }

  /** Merging a class that is already present changes nothing, for class
      strings made of plain tokens. */
  lemma FormatGroupClassAgain(inner: PArray, outer: PArray)
    requires IsSet(inner, ClassKey)
    requires PlainTokens(ClassTokens(outer)) && PlainTokens(ClassTokens(inner))
    ensures var once := Put(outer, ClassKey, FormatGroupClass(inner, outer));
            FormatGroupClass(inner, once) == FormatGroupClass(inner, outer)
  {
    var all := ClassTokens(outer) + ClassTokens(inner);
    var u := Unique(all);
    var v := Str(Implode(" ", u));
    assert FormatGroupClass(inner, outer) == v by {
      FormatGroupClassTokens(inner, outer);
    }
    var once := Put(outer, ClassKey, v);
    assert ClassTokens(once) == u by {
      PutGet(outer, ClassKey, v, ClassKey);
      assert PlainTokens(all);
      UniquePlain(all);
      TokensOfPlain(u);
    }
    assert FormatGroupClass(inner, once) == Str(Implode(" ", Unique(u + ClassTokens(inner)))) by {
      FormatGroupClassTokens(inner, once);
    }
    UniqueAbsorb(all, ClassTokens(inner));
  }

  /** The class of a lone `divider` token. */
  lemma DividerTokens()
    ensures ClassTokens([(ClassKey, Str("divider"))]) == ["divider"]
  {
    var d: PArray := [(ClassKey, Str("divider"))];
    assert Get(d, ClassKey) == Str("divider");
    TrimClean("divider");
    ExplodeFree(' ', "divider");
  }

  /** The two divider rules: `Builder::divide` lists the given tokens and
      then `divider`; `Item::divide` lists `divider` and then the given
      tokens, and keeps `divider` alone when no class is given. */
  lemma DividerClasses(attrs: PArray)
    ensures FormatGroupClass([(ClassKey, Str("divider"))], attrs) ==
      Str(Implode(" ", Unique(ClassTokens(attrs) + ["divider"])))
    ensures IsSet(attrs, ClassKey) ==>
      FormatGroupClass(attrs, [(ClassKey, Str("divider"))]) == Str(Implode(" ", Unique(["divider"] + ClassTokens(attrs))))
    ensures !IsSet(attrs, ClassKey) ==> FormatGroupClass(attrs, [(ClassKey, Str("divider"))]) == Str("divider")
  {
    var d: PArray := [(ClassKey, Str("divider"))];
    DividerTokens();
    assert IsSet(d, ClassKey) && Get(d, ClassKey) == Str("divider");
    FormatGroupClassTokens(d, attrs);
    FormatGroupClassTokens(attrs, d);
  }
}
