/** PHP values as the menu library sees them: scalars, lists, ordered
    associative arrays, loose comparison, truthiness and the string
    functions the library calls (trim, explode, implode, array_unique,
    strtolower, is_numeric). */
module Php {

  datatype Option<T> = None | Some(value: T)

  /** A PHP value. Integers are unbounded; floats and objects are not modelled. */
  datatype Value = Null | Bool(b: bool) | Int(i: int) | Str(s: string) | List(elems: seq<Value>)

  /** A PHP array key: a string key or an integer key. */
  datatype Key = Name(name: string) | Index(n: int)

  type Entry = (Key, Value)

  predicate UniqueKeys(a: seq<Entry>)
  {
    forall i, j :: 0 <= i < j < |a| ==> a[i].0 != a[j].0
  }

  /** A PHP array: entries in insertion order, every key at most once. */
  type PArray = a: seq<Entry> | UniqueKeys(a) witness []

  // ---------------------------------------------------------------------
  // Array access

  function Lookup(a: PArray, k: Key): (r: Option<Value>)
    ensures r.Some? <==> exists j :: 0 <= j < |a| && a[j].0 == k
    ensures r.Some? ==> exists j :: 0 <= j < |a| && a[j] == (k, r.value)
  {
    if |a| == 0 then None
    else if a[0].0 == k then Some(a[0].1)
    else Lookup(a[1..], k)
  }

  predicate HasKey(a: PArray, k: Key)
  {
    Lookup(a, k).Some?
  }

  /** `$a[$k] ?? null`, and `Arr::get($a, $k)` without a default. */
  function Get(a: PArray, k: Key): Value
  {
    match Lookup(a, k)
    case None => Null
    case Some(v) => v
  }

  /** `isset($a[$k])`: the key is present and its value is not null. */
  predicate IsSet(a: PArray, k: Key)
  {
    Get(a, k) != Null
  }

  lemma GetAt(a: PArray, j: nat)
    requires j < |a|
    ensures Get(a, a[j].0) == a[j].1
  {
    if j > 0 && a[0].0 != a[j].0 {
      assert UniqueKeys(a[1..]) by {
        forall p, q | 0 <= p < q < |a[1..]| ensures a[1..][p].0 != a[1..][q].0 {
          assert a[1..][p] == a[p + 1] && a[1..][q] == a[q + 1];
        }
      }
      GetAt(a[1..], j - 1);
    }
  }

  /** `$a[$k] = $v`: an existing key keeps its place, a new key goes last. */
  function Put(a: PArray, k: Key, v: Value): (r: PArray)
    ensures HasKey(a, k) ==> |r| == |a| && forall j :: 0 <= j < |a| ==> r[j] == (if a[j].0 == k then (k, v) else a[j])
    ensures !HasKey(a, k) ==> r == a + [(k, v)]
  {
    if HasKey(a, k) then
      var r := seq(|a|, j requires 0 <= j < |a| => if a[j].0 == k then (k, v) else a[j]);
      assert UniqueKeys(r) by {
        forall p, q | 0 <= p < q < |r| ensures r[p].0 != r[q].0 {
          assert r[p].0 == a[p].0 && r[q].0 == a[q].0;
        }
      }
      r
    else
      a + [(k, v)]
  }

  lemma {:induction false} PutGet(a: PArray, k: Key, v: Value, k': Key)
    ensures Get(Put(a, k, v), k') == if k' == k then v else Get(a, k')
    ensures HasKey(Put(a, k, v), k') <==> k' == k || HasKey(a, k')
  {
    var r := Put(a, k, v);
    if HasKey(a, k) {
      if HasKey(a, k') {
        var j :| 0 <= j < |a| && a[j].0 == k';
        GetAt(a, j);
        GetAt(r, j);
      } else if k' == k {
        assert false;
      } else {
        assert forall j :: 0 <= j < |r| ==> r[j].0 == a[j].0;
      }
    } else {
      if k' == k {
        GetAt(r, |a|);
      } else if HasKey(a, k') {
        var j :| 0 <= j < |a| && a[j].0 == k';
        GetAt(a, j);
        GetAt(r, j);
      } else {
        assert forall j :: 0 <= j < |r| ==> r[j].0 == (a + [(k, v)])[j].0;
      }
    }
  }

  /** `Arr::except($a, $names)`: drop the string keys listed, keep the order. */
  function Except(a: PArray, names: set<string>): (r: PArray)
    ensures forall e :: e in r <==> e in a && !(e.0.Name? && e.0.name in names)
    ensures |r| <= |a|
  {
    if |a| == 0 then []
    else
      var rest := Except(a[1..], names);
      if a[0].0.Name? && a[0].0.name in names then rest
      else
        assert forall e :: e in rest ==> e in a[1..];
        [a[0]] + rest
  }

  /** `Arr::only($a, $names)`: keep just the string keys listed, in the order of `$a`. */
  function Only(a: PArray, names: set<string>): (r: PArray)
    ensures forall e :: e in r <==> e in a && e.0.Name? && e.0.name in names
  {
    if |a| == 0 then []
    else
      var rest := Only(a[1..], names);
      if a[0].0.Name? && a[0].0.name in names then
        assert forall e :: e in rest ==> e in a[1..];
        [a[0]] + rest
      else rest
  }

  lemma ExceptGet(a: PArray, names: set<string>, k: Key)
    ensures Get(Except(a, names), k) == if k.Name? && k.name in names then Null else Get(a, k)
  {
    var r := Except(a, names);
    if k.Name? && k.name in names {
      forall j | 0 <= j < |r| ensures r[j].0 != k {
        assert r[j] in r;
      }
    } else if HasKey(a, k) {
      var i :| 0 <= i < |a| && a[i].0 == k;
      assert a[i] in r;
      var j :| 0 <= j < |r| && r[j] == a[i];
      GetAt(r, j);
      GetAt(a, i);
    } else {
      forall j | 0 <= j < |r| ensures r[j].0 != k {
        assert r[j] in a;
      }
    }
  }

  lemma OnlyGet(a: PArray, names: set<string>, k: Key)
    ensures Get(Only(a, names), k) == if k.Name? && k.name in names then Get(a, k) else Null
  {
    var r := Only(a, names);
    if !(k.Name? && k.name in names) {
      forall j | 0 <= j < |r| ensures r[j].0 != k {
        assert r[j] in r;
      }
    } else if HasKey(a, k) {
      var i :| 0 <= i < |a| && a[i].0 == k;
      assert a[i] in r;
      var j :| 0 <= j < |r| && r[j] == a[i];
      GetAt(r, j);
      GetAt(a, i);
    } else {
      forall j | 0 <= j < |r| ensures r[j].0 != k {
        assert r[j] in a;
      }
    }
  }

  lemma TailUnique(a: PArray)
    requires |a| > 0
    ensures UniqueKeys(a[1..])
  {
    forall p, q | 0 <= p < q < |a[1..]| ensures a[1..][p].0 != a[1..][q].0 {
      assert a[1..][p] == a[p + 1] && a[1..][q] == a[q + 1];
    }
  }

  lemma InitUnique(a: PArray)
    requires |a| > 0
    ensures UniqueKeys(a[..|a| - 1])
  {
    var init := a[..|a| - 1];
    forall p, q | 0 <= p < q < |init| ensures init[p].0 != init[q].0 {
      assert init[p] == a[p] && init[q] == a[q];
    }
  }

  /** A key absent from an array is absent from its tail, and a key of the
      tail other than the head's is the tail's value. */
  lemma TailGet(a: PArray, k: Key)
    requires |a| > 0 && k != a[0].0
    ensures UniqueKeys(a[1..]) && Get(a[1..], k) == Get(a, k) && (HasKey(a[1..], k) <==> HasKey(a, k))
  {
    TailUnique(a);
  }

  /** The PHP array union `$a + $b`: the keys of `$a` with their values, then
      the keys of `$b` that `$a` lacks. */
  function Union(a: PArray, b: PArray): (r: PArray)
    ensures forall k :: Get(r, k) == if HasKey(a, k) then Get(a, k) else Get(b, k)
    decreases |b|
  {
    if |b| == 0 then
      a
    else
      var a' := if HasKey(a, b[0].0) then a else Put(a, b[0].0, b[0].1);
      TailUnique(b);
      var r := Union(a', b[1..]);
      assert forall k :: Get(r, k) == if HasKey(a, k) then Get(a, k) else Get(b, k) by {
        forall k ensures Get(r, k) == if HasKey(a, k) then Get(a, k) else Get(b, k) {
          PutGet(a, b[0].0, b[0].1, k);
          GetAt(b, 0);
          if k != b[0].0 {
            TailGet(b, k);
          }
        }
      }
      r
  }

  /** State of `array_merge`: the array built so far and the next integer key. */
  predicate IndexKeysBelow(a: PArray, next: int)
  {
    forall j :: 0 <= j < |a| && a[j].0.Index? ==> a[j].0.n < next
  }

  function MergeStep(acc: PArray, next: int, es: PArray): (r: (PArray, int))
    requires IndexKeysBelow(acc, next)
    ensures IndexKeysBelow(r.0, r.1) && r.1 >= next
    decreases |es|
  {
    if |es| == 0 then (acc, next)
    else
      var e := es[0];
      var acc' := if e.0.Index? then Put(acc, Index(next), e.1) else Put(acc, e.0, e.1);
      var next' := if e.0.Index? then next + 1 else next;
      assert IndexKeysBelow(acc', next') by {
        if e.0.Index? {
          assert !HasKey(acc, Index(next));
        } else if HasKey(acc, e.0) {
          assert forall j :: 0 <= j < |acc'| ==> acc'[j].0 == acc[j].0;
        }
      }
      TailUnique(es);
      MergeStep(acc', next', es[1..])
  }

  /** `array_merge($a, $b)`: string keys of `$b` override those of `$a` in
      place, integer keys of both are renumbered from 0 and appended. */
  function Merge(a: PArray, b: PArray): PArray
  {
    var s := MergeStep([], 0, a);
    MergeStep(s.0, s.1, b).0
  }

  lemma {:induction false} MergeStepName(acc: PArray, next: int, es: PArray, n: string)
    requires IndexKeysBelow(acc, next)
    ensures Get(MergeStep(acc, next, es).0, Name(n)) ==
            if HasKey(es, Name(n)) then Get(es, Name(n)) else Get(acc, Name(n))
    ensures HasKey(MergeStep(acc, next, es).0, Name(n)) <==> HasKey(es, Name(n)) || HasKey(acc, Name(n))
    decreases |es|
  {
    if |es| > 0 {
      var e := es[0];
      var acc' := if e.0.Index? then Put(acc, Index(next), e.1) else Put(acc, e.0, e.1);
      var next' := if e.0.Index? then next + 1 else next;
      PutGet(acc, if e.0.Index? then Index(next) else e.0, e.1, Name(n));
      TailUnique(es);
      MergeStepName(acc', next', es[1..], n);
      GetAt(es, 0);
      if e.0 != Name(n) {
        TailGet(es, Name(n));
      } else {
        forall j | 0 <= j < |es[1..]| ensures es[1..][j].0 != Name(n) {
          assert es[1..][j] == es[j + 1];
        }
      }
    }
  }

  /** For every string key, `array_merge` takes the value of `$b` when `$b`
      has the key and the value of `$a` otherwise. */
  lemma MergeGet(a: PArray, b: PArray, n: string)
    ensures Get(Merge(a, b), Name(n)) == if HasKey(b, Name(n)) then Get(b, Name(n)) else Get(a, Name(n))
    ensures HasKey(Merge(a, b), Name(n)) <==> HasKey(b, Name(n)) || HasKey(a, Name(n))
  {
    var s := MergeStep([], 0, a);
    MergeStepName([], 0, a, n);
    MergeStepName(s.0, s.1, b, n);
  }

  /** `array_change_key_case($a)`: string keys lower-cased; of two keys that
      collide, the later value wins at the earlier place. */
  function LowerKeys(a: PArray): PArray
    decreases |a|
  {
    if |a| == 0 then []
    else
      var last := a[|a| - 1];
      InitUnique(a);
      Put(LowerKeys(a[..|a| - 1]), LowerKey(last.0), last.1)
  }

  function LowerKey(k: Key): Key
  {
    match k
    case Name(n) => Name(Lower(n))
    case Index(i) => Index(i)
  }

  // ---------------------------------------------------------------------
  // Conversions and comparison

  function Digit(d: nat): char
    requires d < 10
  {
    "0123456789"[d]
  }

  /** The decimal digits of `n`. */
  function NatToString(n: nat): (r: string)
    ensures |r| > 0
  {
    if n < 10 then [Digit(n)] else NatToString(n / 10) + [Digit(n % 10)]
  }

  /** Different numbers print differently. */
  lemma {:induction false} NatToStringInjective(n: nat, m: nat)
    requires NatToString(n) == NatToString(m)
    ensures n == m
    decreases n
  {
    var s, t := NatToString(n), NatToString(m);
    if n >= 10 && m >= 10 {
      assert s[..|s| - 1] == NatToString(n / 10);
      assert t[..|t| - 1] == NatToString(m / 10);
      assert Digit(n % 10) == s[|s| - 1] == t[|t| - 1] == Digit(m % 10);
      NatToStringInjective(n / 10, m / 10);
    }
  }

  function IntToString(i: int): string
  {
    if i < 0 then "-" + NatToString(-i) else NatToString(i)
  }

  /** PHP's string conversion `(string) $v` (arrays give "Array"). */
  function ToStr(v: Value): string
  {
    match v
    case Null => ""
    case Bool(b) => if b then "1" else ""
    case Int(i) => IntToString(i)
    case Str(s) => s
    case List(_) => "Array"
  }

  /** PHP truthiness: `(bool) $v`. */
  predicate Truthy(v: Value)
  {
    match v
    case Null => false
    case Bool(b) => b
    case Int(i) => i != 0
    case Str(s) => s != "" && s != "0"
    case List(xs) => |xs| > 0
  }

  /** PHP loose equality `==` (PHP 8 rules), with numeric strings compared as
      text. */
  predicate LooseEq(x: Value, y: Value)
    decreases x, y
  {
    match (x, y)
    case (Bool(b), _) => b == Truthy(y)
    case (_, Bool(b)) => b == Truthy(x)
    case (Null, Null) => true
    case (Null, Int(i)) => i == 0
    case (Int(i), Null) => i == 0
    case (Null, Str(s)) => s == ""
    case (Str(s), Null) => s == ""
    case (Null, List(ys)) => |ys| == 0
    case (List(xs), Null) => |xs| == 0
    case (Int(i), Int(j)) => i == j
    case (Int(i), Str(s)) => s == IntToString(i)
    case (Str(s), Int(i)) => s == IntToString(i)
    case (Str(s), Str(t)) => s == t
    case (List(xs), List(ys)) =>
      |xs| == |ys| && forall j :: 0 <= j < |xs| ==> LooseEq(xs[j], ys[j])
    case _ => false
  }

  lemma LooseEqSymmetric(x: Value, y: Value)
    ensures LooseEq(x, y) == LooseEq(y, x)
  {
    match (x, y)
    case (List(xs), List(ys)) =>
      forall j | 0 <= j < |xs| && j < |ys| ensures LooseEq(xs[j], ys[j]) == LooseEq(ys[j], xs[j]) {
        LooseEqSymmetric(xs[j], ys[j]);
      }
    case _ =>
  }

  /** Every value is loosely equal to itself. */
  lemma LooseEqReflexive(x: Value)
    ensures LooseEq(x, x)
  {
    match x
    case List(xs) =>
      forall j | 0 <= j < |xs| ensures LooseEq(xs[j], xs[j]) {
        LooseEqReflexive(xs[j]);
      }
    case _ =>
  }

  lemma LooseEqStrings(s: string, t: string)
    ensures LooseEq(Str(s), Str(t)) <==> s == t
  {
  }

  /** The keys of an array. */
  function KeySet(a: PArray): set<Key>
  {
    set j | 0 <= j < |a| :: a[j].0
  }

  /** An array has as many keys as entries. */
  lemma {:induction false} KeySetSize(a: PArray)
    ensures |KeySet(a)| == |a|
    decreases |a|
  {
    if |a| > 0 {
      TailUnique(a);
      var rest: PArray := a[1..];
      KeySetSize(rest);
      forall k | k in KeySet(a) ensures k == a[0].0 || k in KeySet(rest) {
        var j :| 0 <= j < |a| && a[j].0 == k;
        if j > 0 {
          assert rest[j - 1] == a[j];
        }
      }
      forall k | k in KeySet(rest) ensures k in KeySet(a) {
        var j :| 0 <= j < |rest| && rest[j].0 == k;
        assert rest[j] == a[j + 1];
      }
      assert KeySet(a) == {a[0].0} + KeySet(rest);
      forall j | 0 <= j < |rest| ensures rest[j].0 != a[0].0 {
        assert rest[j] == a[j + 1];
      }
      assert a[0].0 !in KeySet(rest);
    }
  }

  /** PHP `==` between two arrays: as many entries, and every key of the
      first is a key of the second with a loosely equal value. The order of
      the entries does not matter. */
  predicate ArrayLooseEq(a: PArray, b: PArray)
  {
    |a| == |b| && forall j :: 0 <= j < |a| ==> HasKey(b, a[j].0) && LooseEq(a[j].1, Get(b, a[j].0))
  }

  /** Array `==` is symmetric: equal counts and distinct keys make the two
      key sets the same. */
  lemma ArrayLooseEqSymmetric(a: PArray, b: PArray)
    ensures ArrayLooseEq(a, b) == ArrayLooseEq(b, a)
  {
    if ArrayLooseEq(a, b) {
      ArrayLooseEqFlip(a, b);
    }
    if ArrayLooseEq(b, a) {
      ArrayLooseEqFlip(b, a);
    }
  }

  lemma ArrayLooseEqFlip(a: PArray, b: PArray)
    requires ArrayLooseEq(a, b)
    ensures ArrayLooseEq(b, a)
  {
    SameKeySets(a, b);
    forall j | 0 <= j < |b| ensures HasKey(a, b[j].0) && LooseEq(b[j].1, Get(a, b[j].0)) {
      FlipEntry(a, b, j);
    }
  }

  lemma SameKeySets(a: PArray, b: PArray)
    requires ArrayLooseEq(a, b)
    ensures KeySet(a) == KeySet(b)
  {
    KeysInto(a, b);
    KeySetSize(a);
    KeySetSize(b);
    SubsetSameSize(KeySet(a), KeySet(b));
  }

  lemma KeysInto(a: PArray, b: PArray)
    requires ArrayLooseEq(a, b)
    ensures KeySet(a) <= KeySet(b)
  {
    forall k | k in KeySet(a) ensures k in KeySet(b) {
      var i :| 0 <= i < |a| && a[i].0 == k;
      assert HasKey(b, k);
      var j :| 0 <= j < |b| && b[j].0 == k;
    }
  }

  /** A subset as large as its superset is the superset. */
  lemma SubsetSameSize<T>(x: set<T>, y: set<T>)
    requires x <= y && |x| == |y|
    ensures x == y
  {
    assert y == x + (y - x);
    assert |y| == |x| + |y - x|;
  }

  lemma FlipEntry(a: PArray, b: PArray, j: nat)
    requires ArrayLooseEq(a, b) && KeySet(a) == KeySet(b) && j < |b|
    ensures HasKey(a, b[j].0) && LooseEq(b[j].1, Get(a, b[j].0))
  {
    GetAt(b, j);
    assert b[j].0 in KeySet(a);
    var i :| 0 <= i < |a| && a[i].0 == b[j].0;
    assert HasKey(a, b[j].0);
    GetAt(a, i);
    LooseEqSymmetric(a[i].1, b[j].1);
  }

  // ---------------------------------------------------------------------
  // Strings

  function LowerChar(c: char): char
  {
    if 'A' <= c <= 'Z' then (c as int + 32) as char else c
  }

  /** `strtolower`, ASCII letters only. */
  function Lower(s: string): (r: string)
    ensures |r| == |s|
    ensures forall j :: 0 <= j < |s| ==> r[j] == LowerChar(s[j])
  {
    seq(|s|, j requires 0 <= j < |s| => LowerChar(s[j]))
  }

  lemma LowerIdempotent(s: string)
    ensures Lower(Lower(s)) == Lower(s)
  {
  }

  const Blanks: set<char> := {' ', '\t', '\n', '\r', 0 as char, 11 as char}

  function TrimLeft(s: string, cs: set<char>): (r: string)
    ensures |r| <= |s|
    ensures |r| > 0 ==> r[0] !in cs
    ensures forall j :: 0 <= j < |s| - |r| ==> s[j] in cs
  {
    if |s| > 0 && s[0] in cs then TrimLeft(s[1..], cs) else s
  }

  function TrimRight(s: string, cs: set<char>): (r: string)
    ensures |r| <= |s|
    ensures |r| > 0 ==> r[|r| - 1] !in cs
    ensures forall j :: |r| <= j < |s| ==> s[j] in cs
  {
    if |s| > 0 && s[|s| - 1] in cs then TrimRight(s[..|s| - 1], cs) else s
  }

  /** What `TrimLeft` keeps is a suffix of its input. */
  lemma {:induction false} TrimLeftSuffix(s: string, cs: set<char>)
    ensures TrimLeft(s, cs) == s[|s| - |TrimLeft(s, cs)|..]
  {
    if |s| > 0 && s[0] in cs {
      TrimLeftSuffix(s[1..], cs);
    }
  }

  /** What `TrimRight` keeps is a prefix of its input. */
  lemma {:induction false} TrimRightPrefix(s: string, cs: set<char>)
    ensures TrimRight(s, cs) == s[..|TrimRight(s, cs)|]
  {
    if |s| > 0 && s[|s| - 1] in cs {
      TrimRightPrefix(s[..|s| - 1], cs);
    }
  }

  /** `trim($s, $chars)`. */
  function Trim(s: string, cs: set<char>): string
  {
    TrimRight(TrimLeft(s, cs), cs)
  }

  // ---------------------------------------------------------------------
  // Numeric strings (`is_numeric`, PHP 8)

  /** The blanks a numeric string may start and end with. */
  const NumericBlanks: set<char> := {' ', '\t', '\n', '\r', 11 as char, 12 as char}

  predicate IsDigit(c: char)
  {
    '0' <= c <= '9'
  }

  /** Zero or more decimal digits. */
  predicate Digits(s: string)
  {
    forall j :: 0 <= j < |s| ==> IsDigit(s[j])
  }

  /** An unsigned decimal without exponent: digits with at most one point,
      and at least one digit (`1`, `1.`, `.5`, `1.5`). */
  predicate Decimal(s: string)
  {
    (|s| > 0 && Digits(s)) ||
    (|s| > 1 && exists k :: 0 <= k < |s| && s[k] == '.' && Digits(s[..k]) && Digits(s[k + 1..]))
  }

  /** The digits of an exponent, with an optional sign. */
  predicate ExponentDigits(t: string)
  {
    (|t| > 0 && Digits(t)) || (|t| > 1 && (t[0] == '+' || t[0] == '-') && Digits(t[1..]))
  }

  /** An unsigned decimal with an optional exponent `e` or `E`. */
  predicate Unsigned(s: string)
  {
    Decimal(s) ||
    exists k :: 0 < k < |s| && (s[k] == 'e' || s[k] == 'E') && Decimal(s[..k]) && ExponentDigits(s[k + 1..])
  }

  /** `is_numeric($s)` on a string: after the surrounding blanks, an
      optional sign and an unsigned decimal with an optional exponent. */
  predicate IsNumeric(s: string)
  {
    var t := Trim(s, NumericBlanks);
    Unsigned(t) || (|t| > 0 && (t[0] == '+' || t[0] == '-') && Unsigned(t[1..]))
  }

  /** A string that neither starts nor ends with a blank is its own trim. */
  lemma TrimNoBlanks(s: string)
    requires |s| > 0 && s[0] !in NumericBlanks && s[|s| - 1] !in NumericBlanks
    ensures Trim(s, NumericBlanks) == s
  {
  }

  /** Leading zeros: `is_numeric('05')`. */
  lemma NumericLeadingZero()
    ensures IsNumeric("05")
  {
    TrimNoBlanks("05");
  }

  /** A fraction: `is_numeric('1.5')`. */
  lemma NumericFraction()
    ensures IsNumeric("1.5")
  {
    TrimNoBlanks("1.5");
    assert "1.5"[1] == '.' && Digits("1.5"[..1]) && Digits("1.5"[2..]);
  }

  /** An exponent: `is_numeric('1e3')`. */
  lemma NumericExponent()
    ensures IsNumeric("1e3")
  {
    TrimNoBlanks("1e3");
    assert Decimal("1e3"[..1]) && ExponentDigits("1e3"[2..]);
    assert "1e3"[1] == 'e';
  }

  /** Blanks around, and a sign: `is_numeric(' 5')` and `is_numeric('-2 ')`. */
  lemma NumericBlanksAround()
    ensures IsNumeric(" 5") && IsNumeric("-2 ")
  {
    assert " 5"[1..] == "5" && TrimLeft(" 5", NumericBlanks) == "5";
    assert "-2 "[..2] == "-2" && TrimRight("-2 ", NumericBlanks) == "-2";
    assert TrimLeft("-2 ", NumericBlanks) == "-2 ";
    assert "-2"[1..] == "2";
  }

  /** A word is not numeric: `is_numeric('class')` is false. */
  lemma NotNumericWord()
    ensures !IsNumeric("class")
  {
    TrimNoBlanks("class");
    assert !IsDigit("class"[0]);
    assert forall k :: 0 <= k < 5 ==> "class"[k] != '.' && "class"[k] != 'e' && "class"[k] != 'E';
  }

  /** Neither a lone point, the empty string, an exponent without digits
      nor hexadecimal is numeric. */
  lemma NotNumericFragments()
    ensures !IsNumeric(".") && !IsNumeric("") && !IsNumeric("1e") && !IsNumeric("0x1A")
  {
    TrimNoBlanks(".");
    TrimNoBlanks("1e");
    TrimNoBlanks("0x1A");
    assert "1e"[2..] == [] && !ExponentDigits([]);
    assert !IsDigit("1e"[1]) && "1e"[0] != '.' && "1e"[1] != '.';
    assert !IsDigit("0x1A"[1]);
    assert forall k :: 0 <= k < 4 ==> "0x1A"[k] != '.' && "0x1A"[k] != 'e' && "0x1A"[k] != 'E';
  }

  /** `explode($sep, $s)`: the pieces between the occurrences of `sep`. */
  function Explode(sep: char, s: string): (r: seq<string>)
    ensures |r| >= 1
    ensures forall j :: 0 <= j < |r| ==> sep !in r[j]
  {
    if |s| == 0 then [""]
    else
      var rest := Explode(sep, s[1..]);
      if s[0] == sep then [""] + rest else [[s[0]] + rest[0]] + rest[1..]
  }

  /** `implode($sep, $parts)`. */
  function Implode(sep: string, parts: seq<string>): string
  {
    if |parts| == 0 then ""
    else if |parts| == 1 then parts[0]
    else parts[0] + sep + Implode(sep, parts[1..])
  }

  /** Joining the pieces of `explode` gives the string back. */
  lemma {:induction false} ImplodeExplode(sep: char, s: string)
    ensures Implode([sep], Explode(sep, s)) == s
  {
    if |s| > 0 {
      var rest := Explode(sep, s[1..]);
      ImplodeExplode(sep, s[1..]);
      if s[0] == sep {
        assert Explode(sep, s) == [""] + rest;
        assert Implode([sep], [""] + rest) == "" + [sep] + Implode([sep], rest);
      } else {
        var r := [[s[0]] + rest[0]] + rest[1..];
        if |rest| == 1 {
        } else {
          assert rest == [rest[0]] + rest[1..];
          assert Implode([sep], rest) == rest[0] + [sep] + Implode([sep], rest[1..]);
          assert r[1..] == rest[1..];
        }
      }
    }
  }

  /** Splitting a join of separator-free pieces gives the pieces back. */
  lemma {:induction false} ExplodeImplode(sep: char, parts: seq<string>)
    requires |parts| >= 1
    requires forall j :: 0 <= j < |parts| ==> sep !in parts[j]
    ensures Explode(sep, Implode([sep], parts)) == parts
    decreases |parts|, |parts[0]|
  {
    if |parts| == 1 {
      ExplodeFree(sep, parts[0]);
    } else if |parts[0]| == 0 {
      var s := Implode([sep], parts);
      assert s == [sep] + Implode([sep], parts[1..]);
      assert s[1..] == Implode([sep], parts[1..]);
      ExplodeImplode(sep, parts[1..]);
      assert parts == [""] + parts[1..];
    } else {
      var s := Implode([sep], parts);
      var p0 := parts[0];
      var parts' := [p0[1..]] + parts[1..];
      assert s == [p0[0]] + Implode([sep], parts');
      assert s[1..] == Implode([sep], parts');
      ExplodeImplode(sep, parts');
      assert [p0[0]] + p0[1..] == p0;
      assert parts == [p0] + parts'[1..];
    }
  }

  lemma {:induction false} ExplodeFree(sep: char, s: string)
    requires sep !in s
    ensures Explode(sep, s) == [s]
  {
    if |s| > 0 {
      ExplodeFree(sep, s[1..]);
      assert [s[0]] + s[1..] == s;
    }
  }

  /** `array_unique` followed by iteration: the first occurrence of every
      string, in the order of first occurrence. */
  function Unique(xs: seq<string>): (r: seq<string>)
    ensures forall x :: x in r <==> x in xs
    ensures forall i, j :: 0 <= i < j < |r| ==> r[i] != r[j]
    decreases |xs|
  {
    if |xs| == 0 then []
    else
      var init := Unique(xs[..|xs| - 1]);
      assert xs == xs[..|xs| - 1] + [xs[|xs| - 1]];
      if xs[|xs| - 1] in init then init else init + [xs[|xs| - 1]]
  }

  /** Unique keeps the first occurrence: appending strings already seen changes nothing. */
  lemma {:induction false} UniqueAppend(xs: seq<string>, ys: seq<string>)
    ensures Unique(xs + ys) == UniqueAfter(Unique(xs), ys)
    decreases |ys|
  {
    if |ys| > 0 {
      var init := xs + ys[..|ys| - 1];
      assert (xs + ys)[..|xs + ys| - 1] == init;
      UniqueAppend(xs, ys[..|ys| - 1]);
    } else {
      assert xs + ys == xs;
    }
  }

  /** Strings of `ys` not in `seen` (nor earlier in `ys`), appended to `seen`. */
  function UniqueAfter(seen: seq<string>, ys: seq<string>): seq<string>
    decreases |ys|
  {
    if |ys| == 0 then seen
    else
      var init := UniqueAfter(seen, ys[..|ys| - 1]);
      if ys[|ys| - 1] in init then init else init + [ys[|ys| - 1]]
  }
}
