/** The objects of the menu: `Link`, `Item`, `Builder` and the broadcasts of
    `Collection`. An item refers to the builder that created it and the
    builder holds the item list, so the three classes share one module.

    A builder's item list is the field `items`; `Collection` objects are
    modelled as sequences of items. Functions that read the heap name the
    fields they read, and methods name the fields they change. */
module Nodes {
  import opened Php
  import opened Groups
  import opened Html
  import opened Urls
  import opened Tree
  import opened Sorting

  // ---------------------------------------------------------------------
  // Arguments of the variadic `attr(...)` and `data(...)`

  /** A PHP argument: an associative array, or any other value. */
  datatype Arg = Plain(v: Value) | Arr(a: PArray)

  /** A list as a PHP array with the keys 0, 1, ... */
  function ListArray(es: seq<Value>): (r: PArray)
    ensures |r| == |es|
    ensures forall j :: 0 <= j < |es| ==> r[j] == (Index(j), es[j])
  {
    var r := seq(|es|, j requires 0 <= j < |es| => (Index(j), es[j]));
    assert UniqueKeys(r) by {
      forall p, q | 0 <= p < q < |r| ensures r[p].0 != r[q].0 {
        assert r[p].0 == Index(p) && r[q].0 == Index(q);
      }
    }
    r
  }

  /** `is_array($x)`, with the array it holds. */
  function AsArray(x: Arg): (r: Option<PArray>)
    ensures r.None? <==> x.Plain? && !x.v.List?
  {
    match x
    case Arr(a) => Some(a)
    case Plain(v) => if v.List? then Some(ListArray(v.elems)) else None
  }

  /** The array key a scalar argument names (`$a[$k]`). */
  function KeyOf(v: Value): Key
  {
    match v
    case Int(i) => Index(i)
    case Bool(b) => Index(if b then 1 else 0)
    case Str(s) => Name(s)
    case _ => Name("")
  }

  /** The key `$d[strtolower($k)] = ...` writes. `strtolower` first turns its
      argument into a string: `false` becomes '' and `true` becomes '1', which
      PHP then stores under the integer key 1; an integer keeps its value. */
  function DataKey(v: Value): Key
  {
    match v
    case Bool(b) => if b then Index(1) else Name("")
    case _ => LowerKey(KeyOf(v))
  }

  /** The arguments of one call of `attr` or `data`. */
  datatype Call = NoArgs | One(x: Arg) | Two(x: Arg, y: Value)

  /** What `attr` and `data` return: the object itself (for chaining), a
      looked-up value, or the whole array. */
  datatype Reply = Chained | Got(v: Value) | Whole(a: PArray)

  /** The branch of the overload that a call takes: an array first argument
      merges; a set first and second argument writes; a set first argument
      alone reads; anything else returns the array. */
  datatype Branch = MergeArg(a: PArray) | SetArg(k: Key, v: Value) | GetArg(k: Key) | AllArgs

  function FirstScalar(c: Call): Value
  {
    match c
    case NoArgs => Null
    case One(x) => if x.Plain? then x.v else Null
    case Two(x, _) => if x.Plain? then x.v else Null
  }

  function BranchOf(c: Call): (b: Branch)
    ensures b.MergeArg? <==> (c.One? || c.Two?) && AsArray(c.x).Some?
  {
    if (c.One? || c.Two?) && AsArray(c.x).Some? then MergeArg(AsArray(c.x).value)
    else
      var k := FirstScalar(c);
      if k != Null && c.Two? && c.y != Null then SetArg(KeyOf(k), c.y)
      else if k != Null then GetArg(KeyOf(k))
      else AllArgs
  }

  /** The new attribute array after `attr(...)` (Item.php:220-237, Link.php:97-114). */
  function AttrEffect(a: PArray, c: Call): PArray
  {
    match BranchOf(c)
    case MergeArg(m) => Merge(a, m)
    case SetArg(k, v) => Put(a, k, v)
    case _ => a
  }

  /** The new data array after `data(...)`: keys are lower-cased on write (Item.php:486-513). */
  function DataEffect(d: PArray, c: Call): PArray
  {
    match BranchOf(c)
    case MergeArg(m) => Merge(d, LowerKeys(m))
    case SetArg(_, v) => Put(d, DataKey(FirstScalar(c)), v)
    case _ => d
  }

  /** Whether the call writes (and so, for `data`, cascades). */
  predicate Writes(c: Call)
  {
    BranchOf(c).MergeArg? || BranchOf(c).SetArg?
  }

  /** What `attr(...)` and `data(...)` return; the read does not lower-case the key. */
  function Answer(a: PArray, c: Call): Reply
  {
    match BranchOf(c)
    case GetArg(k) => Got(Get(a, k))
    case AllArgs => Whole(a)
    case _ => Chained
  }

  /** A scalar key argument (what `isset($args[0])` accepts that is not an array). */
  predicate ScalarKey(k: Value)
  {
    k != Null && !k.List?
  }

  /** `attr()` returns the array and changes nothing. */
  lemma AttrNoArgs(a: PArray)
    ensures AttrEffect(a, NoArgs) == a && Answer(a, NoArgs) == Whole(a)
    ensures AttrEffect(a, One(Plain(Null))) == a && Answer(a, One(Plain(Null))) == Whole(a)
  {
  }

  /** `attr(k, v)` with a non-null `v`, then `attr(k)`, yields `v`; the write
      answers with the object itself. */
  lemma AttrSetThenGet(a: PArray, k: Value, v: Value)
    requires ScalarKey(k) && v != Null
    ensures Answer(a, Two(Plain(k), v)) == Chained
    ensures Answer(AttrEffect(a, Two(Plain(k), v)), One(Plain(k))) == Got(v)
  {
    assert AsArray(Plain(k)).None?;
    assert BranchOf(Two(Plain(k), v)) == SetArg(KeyOf(k), v);
    assert BranchOf(One(Plain(k))) == GetArg(KeyOf(k));
    PutGet(a, KeyOf(k), v, KeyOf(k));
  }

  /** `attr(k, null)` is a read: it changes nothing. */
  lemma AttrNullValue(a: PArray, k: Value)
    requires ScalarKey(k)
    ensures AttrEffect(a, Two(Plain(k), Null)) == a
    ensures Answer(a, Two(Plain(k), Null)) == Got(Get(a, KeyOf(k)))
  {
  }

  /** `attr(array)` merges: a string key takes the new value when the
      argument has it and keeps the old one otherwise. */
  lemma AttrMergeWins(a: PArray, m: PArray, n: string)
    ensures Get(AttrEffect(a, One(Arr(m))), Name(n)) == if HasKey(m, Name(n)) then Get(m, Name(n)) else Get(a, Name(n))
    ensures Answer(a, One(Arr(m))) == Chained
  {
    MergeGet(a, m, n);
  }

  /** `attr(k)` on a missing key is null. */
  lemma AttrMissing(a: PArray, k: Value)
    requires ScalarKey(k) && !HasKey(a, KeyOf(k))
    ensures AttrEffect(a, One(Plain(k))) == a && Answer(a, One(Plain(k))) == Got(Null)
  {
  }

  /** `data(k, v)` stores under the lower-cased key, so `data(strtolower(k))` yields `v`. */
  lemma DataSetThenGet(d: PArray, k: string, v: Value)
    requires v != Null
    ensures Answer(DataEffect(d, Two(Plain(Str(k)), v)), One(Plain(Str(Lower(k))))) == Got(v)
  {
    DataSetEffect(d, k, v);
    assert BranchOf(One(Plain(Str(Lower(k))))) == GetArg(Name(Lower(k)));
    PutGet(d, Name(Lower(k)), v, Name(Lower(k)));
  }

  /** The read does not lower-case: after `data(k, v)` with a key that has
      upper-case letters, `data(k)` still answers what was under `k` before. */
  lemma DataReadIsCaseSensitive(d: PArray, k: string, v: Value)
    requires v != Null && Lower(k) != k && k != ""
    ensures Answer(DataEffect(d, Two(Plain(Str(k)), v)), One(Plain(Str(k)))) == Answer(d, One(Plain(Str(k))))
  {
    DataSetEffect(d, k, v);
    assert BranchOf(One(Plain(Str(k)))) == GetArg(Name(k));
    PutGet(d, Name(Lower(k)), v, Name(k));
  }

  /** `data(k, v)` with a string key writes under the lower-cased key. */
  lemma DataSetEffect(d: PArray, k: string, v: Value)
    requires v != Null
    ensures DataEffect(d, Two(Plain(Str(k)), v)) == Put(d, Name(Lower(k)), v)
  {
    assert AsArray(Plain(Str(k))).None?;
    assert BranchOf(Two(Plain(Str(k)), v)) == SetArg(Name(k), v);
  }

  /** Writing the same key twice is writing it once. */
  lemma DataSetTwice(d: PArray, k: Value, v: Value)
    requires ScalarKey(k) && v != Null
    ensures DataEffect(DataEffect(d, Two(Plain(k), v)), Two(Plain(k), v)) == DataEffect(d, Two(Plain(k), v))
  {
    var key := DataKey(k);
    PutPut(d, key, v);
  }

  /** `data(false, v)` stores under '' (what `strtolower(false)` gives), so
      `data('')` yields `v`, while `data(false)` reads the integer key 0. */
  lemma DataFalseKey(d: PArray, v: Value)
    requires v != Null
    ensures DataEffect(d, Two(Plain(Bool(false)), v)) == Put(d, Name(""), v)
    ensures Answer(DataEffect(d, Two(Plain(Bool(false)), v)), One(Plain(Str("")))) == Got(v)
    ensures Answer(DataEffect(d, Two(Plain(Bool(false)), v)), One(Plain(Bool(false)))) == Got(Get(d, Index(0)))
  {
    assert BranchOf(Two(Plain(Bool(false)), v)) == SetArg(Index(0), v);
    assert BranchOf(One(Plain(Str("")))) == GetArg(Name(""));
    assert BranchOf(One(Plain(Bool(false)))) == GetArg(Index(0));
    PutGet(d, Name(""), v, Name(""));
    PutGet(d, Name(""), v, Index(0));
  }

  /** `data(true, v)` and `data(1, v)` write the same entry: '1' is stored
      under the integer key 1. */
  lemma DataTrueKey(d: PArray, v: Value)
    requires v != Null
    ensures DataEffect(d, Two(Plain(Bool(true)), v)) == Put(d, Index(1), v)
    ensures DataEffect(d, Two(Plain(Bool(true)), v)) == DataEffect(d, Two(Plain(Int(1)), v))
  {
    assert BranchOf(Two(Plain(Bool(true)), v)) == SetArg(Index(1), v);
    assert BranchOf(Two(Plain(Int(1)), v)) == SetArg(Index(1), v);
  }

  /** `$a[$k] = $v` twice is the same as once. */
  lemma PutPut(a: PArray, k: Key, v: Value)
    ensures Put(Put(a, k, v), k, v) == Put(a, k, v)
  {
    var once := Put(a, k, v);
    PutGet(a, k, v, k);
    assert HasKey(once, k);
    var twice := Put(once, k, v);
    assert |twice| == |once|;
    forall j | 0 <= j < |once| ensures twice[j] == once[j] {
      if HasKey(a, k) {
        assert once[j] == (if a[j].0 == k then (k, v) else a[j]);
      } else {
        assert once == a + [(k, v)];
        assert forall i :: 0 <= i < |a| ==> a[i].0 != k;
      }
    }
  }

  /** `n` writes of a call, one after the other. */
  function Marked(a: PArray, cls: Value, n: nat): PArray
  {
    if n == 0 then a else AddClass(Marked(a, cls, n - 1), cls)
  }

  /** One more `active()` on attributes marked `c` times. */
  lemma MarkStep(a: PArray, cls: Value, c: nat, prev: PArray, now: PArray)
    requires prev == Marked(a, cls, c) && now == AddClass(prev, cls)
    ensures now == Marked(a, cls, c + 1)
  {
  }

  lemma MarkedSucc(a: PArray, cls: Value, n: nat)
    ensures Marked(a, cls, n + 1) == AddClass(Marked(a, cls, n), cls)
  {
  }

  /** The class attribute after `active()`: `formatGroupClass(['class' => cls], $attributes)`. */
  function AddClass(a: PArray, cls: Value): PArray
  {
    Put(a, ClassKey, FormatGroupClass([(ClassKey, cls)], a))
  }

  /** `n` applications of `f`, the first one first. */
  function Iterate<T>(f: T -> T, x: T, n: nat): T
    decreases n
  {
    if n == 0 then x else Iterate(f, f(x), n - 1)
  }

  /** One application and then `n` more make `n + 1`. */
  lemma IterateStep<T>(f: T -> T, x: T, n: nat)
    ensures Iterate(f, x, 1 + n) == Iterate(f, f(x), n)
  {
  }

  /** `a` applications and then `rest` more make `a + rest` applications. */
  lemma {:induction false} IterateCompose<T>(f: T -> T, x0: T, x1: T, a: nat, rest: nat, total: nat)
    requires x1 == Iterate(f, x0, a) && total == a + rest
    ensures Iterate(f, x1, rest) == Iterate(f, x0, total)
    decreases a
  {
    if a > 0 {
      IterateCompose(f, f(x0), x1, a - 1, rest, total - 1);
    }
  }

  /** The write of `data(...)` with the call `c`, as a function of the data. */
  function Writer(c: Call): PArray -> PArray
  {
    d => DataEffect(d, c)
  }

  /** `w` is the write of `c`, for every data array that is written. */
  ghost predicate WriteOf(w: PArray -> PArray, c: Call)
  {
    forall d {:trigger DataEffect(d, c)} :: w(d) == DataEffect(d, c)
  }

  /** The data after `n` writes with the same call. */
  function DataTimes(d: PArray, c: Call, n: nat): PArray
  {
    Iterate(Writer(c), d, n)
  }

  /** A key write reached several times (an item reached twice by the
      cascade) has the effect of one write. */
  lemma {:induction false} DataTimesSet(d: PArray, k: Value, v: Value, n: nat)
    requires ScalarKey(k) && v != Null && n >= 1
    ensures DataTimes(d, Two(Plain(k), v), n) == DataEffect(d, Two(Plain(k), v))
    decreases n
  {
    var c := Two(Plain(k), v);
    if n > 1 {
      DataSetTwice(d, k, v);
      DataTimesSet(DataEffect(d, c), k, v, n - 1);
      assert Writer(c)(d) == DataEffect(d, c);
    }
  }

  /** `active()` adds the active class to the class tokens, once: the tokens
      of the result are the old ones and then the class, each once. */
  lemma AddClassTokens(a: PArray, cls: string, t: string)
    requires cls != ""
    ensures var r := Unique(ClassTokens(a) + ClassTokens([(ClassKey, Str(cls))]));
            Get(AddClass(a, Str(cls)), ClassKey) == Str(Implode(" ", r)) &&
            (t in r <==> t in ClassTokens(a) || t in ClassTokens([(ClassKey, Str(cls))])) &&
            forall i, j :: 0 <= i < j < |r| ==> r[i] != r[j]
  {
    var inner: PArray := [(ClassKey, Str(cls))];
    GetAt(inner, 0);
    FormatGroupClassUnion(inner, a, t);
    PutGet(a, ClassKey, FormatGroupClass(inner, a), ClassKey);
  }

  /** Repeating `active()` leaves the class string unchanged, for class
      strings of plain tokens. */
  lemma AddClassAgain(a: PArray, cls: string)
    requires cls != ""
    requires PlainTokens(ClassTokens(a)) && PlainTokens(ClassTokens([(ClassKey, Str(cls))]))
    ensures AddClass(AddClass(a, Str(cls)), Str(cls)) == AddClass(a, Str(cls))
  {
    var inner: PArray := [(ClassKey, Str(cls))];
    GetAt(inner, 0);
    FormatGroupClassAgain(inner, a);
    PutPut(a, ClassKey, FormatGroupClass(inner, a));
  }

  /** Under the same conditions, marking any positive number of times is marking once. */
  lemma {:induction false} MarkedOnce(a: PArray, cls: string, n: nat)
    requires cls != "" && n >= 1
    requires PlainTokens(ClassTokens(a)) && PlainTokens(ClassTokens([(ClassKey, Str(cls))]))
    ensures Marked(a, Str(cls), n) == AddClass(a, Str(cls))
    decreases n
  {
    if n > 1 {
      MarkedOnce(a, cls, n - 1);
      AddClassAgain(a, cls);
    }
  }

  // ---------------------------------------------------------------------
  // Sequences of objects

  /** How many times `x` occurs in `s`. */
  function Count(s: seq<Item>, x: Item): nat
  {
    if |s| == 0 then 0 else (if s[0] == x then 1 else 0) + Count(s[1..], x)
  }

  lemma {:induction false} CountIn(s: seq<Item>, x: Item)
    ensures Count(s, x) > 0 <==> x in s
  {
    if |s| > 0 {
      CountIn(s[1..], x);
      assert s == [s[0]] + s[1..];
    }
  }

  lemma CountCons(x: Item, s: seq<Item>, o: Item)
    ensures Count([x] + s, o) == (if x == o then 1 else 0) + Count(s, o)
  {
    assert ([x] + s)[1..] == s;
  }

  /** An object put first is counted once more; the others as before. */
  lemma CountFirst(x: Item, s: seq<Item>)
    ensures Count([x] + s, x) == 1 + Count(s, x)
    ensures forall o {:trigger Count([x] + s, o)} :: o != x ==> Count([x] + s, o) == Count(s, o)
  {
    assert ([x] + s)[1..] == s;
  }

  lemma {:induction false} CountAppend(a: seq<Item>, b: seq<Item>, x: Item)
    ensures Count(a + b, x) == Count(a, x) + Count(b, x)
  {
    if |a| == 0 {
      assert a + b == b;
    } else {
      assert (a + b)[1..] == a[1..] + b;
      CountAppend(a[1..], b, x);
    }
  }

  function Objs(xs: seq<Item>): set<Item>
  {
    set x | x in xs
  }

  function LinkObjs(xs: seq<Item>): set<Link>
  {
    set x | x in xs && x.link != null :: x.link
  }

  /** The items at the positions `idx`. */
  function ItemsAt<T>(xs: seq<T>, idx: seq<nat>): (r: seq<T>)
    requires forall k :: 0 <= k < |idx| ==> idx[k] < |xs|
    ensures |r| == |idx|
    ensures forall k :: 0 <= k < |idx| ==> r[k] == xs[idx[k]]
  {
    seq(|idx|, k requires 0 <= k < |idx| => xs[idx[k]])
  }

  /** The builders that created the items. */
  function BuildersOf(xs: seq<Item>): set<Builder>
  {
    set x | x in xs :: x.builder
  }

  /** The items held by the builders that created the items. */
  function Kin(xs: seq<Item>): set<Item>
    reads BuildersOf(xs)`items
  {
    set b, y | b in BuildersOf(xs) && y in b.items :: y
  }

  /** Each item's `hasChildren()`, asked of the builder that created it. */
  function KidFlags(xs: seq<Item>): (r: seq<bool>)
    reads Objs(xs)`id, BuildersOf(xs)`items, Kin(xs)`id
    ensures |r| == |xs|
    ensures forall j :: 0 <= j < |xs| ==> r[j] == xs[j].HasChildren()
  {
    if |xs| == 0 then [] else [xs[0].HasChildren()] + KidFlags(xs[1..])
  }

  /** The ids and parent ids of the items, in list order. */
  function NodesOf(xs: seq<Item>): (ns: seq<Node>)
    reads Objs(xs)`id
    ensures |ns| == |xs|
    ensures forall j :: 0 <= j < |xs| ==> ns[j] == Node(xs[j].id, xs[j].parent)
  {
    if |xs| == 0 then [] else [Node(xs[0].id, xs[0].parent)] + NodesOf(xs[1..])
  }

  /** The items' fields as values, in list order. */
  function Views(xs: seq<Item>): (vs: seq<ItemView>)
    reads Objs(xs), LinkObjs(xs)
    ensures |vs| == |xs|
    ensures forall j :: 0 <= j < |xs| ==> vs[j] == xs[j].View()
  {
    if |xs| == 0 then [] else [xs[0].View()] + Views(xs[1..])
  }

  lemma ShapeOfViews(xs: seq<Item>)
    ensures Shape(Views(xs)) == NodesOf(xs)
  {
  }

  /** The length of the prefix of items that have a link. */
  function Linked(ts: seq<Item>): (k: nat)
    ensures k <= |ts|
    ensures forall j :: 0 <= j < k ==> ts[j].link != null
    ensures k < |ts| ==> ts[k].link == null
  {
    if |ts| == 0 || ts[0].link == null then 0 else 1 + Linked(ts[1..])
  }
  /** Each item paired with its property `name` (`$item->$name`), the key
      that `sortBy` compares. */
  function Keyed(xs: seq<Item>, name: string): (r: seq<(Item, Prop)>)
    reads Objs(xs), LinkObjs(xs)
    ensures |r| == |xs|
    ensures forall k :: 0 <= k < |xs| ==> r[k] == (xs[k], PropOf(xs[k].View(), name))
  {
    seq(|xs|, k requires 0 <= k < |xs| reads Objs(xs), LinkObjs(xs) => (xs[k], PropOf(xs[k].View(), name)))
  }

  /** The result of a `sortBy` callback: an array of items, or one value
      that the builder wraps in an array. */
  datatype SortResult = ItemList(xs: seq<Item>) | Single(x: Item)

  /** Pairs taken from `Keyed(xs, name)`, in any order, are keyed by the
      same property. */
  lemma KeyedOfSorted(ps: seq<(Item, Prop)>, r: seq<(Item, Prop)>, xs: seq<Item>, name: string)
    requires ps == Keyed(xs, name) && multiset(r) == multiset(ps)
    requires multiset(Firsts(r)) == multiset(Firsts(ps))
    ensures multiset(Firsts(r)) == multiset(xs)
    ensures Keyed(Firsts(r), name) == r
  {
    assert Firsts(ps) == xs;
    var ys := Firsts(r);
    forall k | 0 <= k < |r| ensures Keyed(ys, name)[k] == r[k] {
      assert r[k] in multiset(ps);
      var j :| 0 <= j < |ps| && ps[j] == r[k];
    }
  }

  /** The items sorted by their property `name`. */
  method SortItems(xs: seq<Item>, name: string, asc: bool, less: (Prop, Prop) -> bool) returns (ys: seq<Item>)
    requires Asymmetric(less)
    ensures multiset(ys) == multiset(xs)
    ensures Ordered(Keyed(ys, name), asc, less)
  {
    var ps := Keyed(xs, name);
    var r := SortPairs(ps, asc, less);
    KeyedOfSorted(ps, r, xs, name);
    ys := Firsts(r);
  }

  /** The items for which the `filter` callback, given the item, holds, in
      list order. */
  function Filtered(xs: seq<Item>, keep: ItemView -> bool): seq<Item>
    reads Objs(xs), LinkObjs(xs)
  {
    if |xs| == 0 then [] else (if keep(xs[0].View()) then [xs[0]] else []) + Filtered(xs[1..], keep)
  }

  /** An item occurs in the filtered list as often as in the list when the
      callback keeps it, and not at all otherwise. */
  lemma {:induction false} FilteredCount(xs: seq<Item>, keep: ItemView -> bool, y: Item)
    ensures Count(Filtered(xs, keep), y) == if keep(y.View()) then Count(xs, y) else 0
  {
    if |xs| > 0 {
      FilteredCount(xs[1..], keep, y);
      CountAppend(if keep(xs[0].View()) then [xs[0]] else [], Filtered(xs[1..], keep), y);
      assert Count([xs[0]], y) == if xs[0] == y then 1 else 0 by {
        assert [xs[0]][1..] == [];
      }
    }
  }

  /** Filtering keeps the order: the filter of a concatenation is the
      concatenation of the filters. */
  lemma {:induction false} FilteredAppend(a: seq<Item>, b: seq<Item>, keep: ItemView -> bool)
    ensures Filtered(a + b, keep) == Filtered(a, keep) + Filtered(b, keep)
  {
    if |a| == 0 {
      assert a + b == b;
    } else {
      assert (a + b)[1..] == a[1..] + b;
      FilteredAppend(a[1..], b, keep);
    }
  }

  /** The title and the URL of each item: what the derived menus add. */
  function Entries(xs: seq<Item>): (r: seq<(string, Value)>)
    reads Objs(xs)`title, LinkObjs(xs)`href, LinkObjs(xs)`path
    ensures |r| == |xs|
    ensures forall k :: 0 <= k < |xs| ==> r[k] == (xs[k].title, xs[k].Url())
  {
    if |xs| == 0 then [] else [(xs[0].title, xs[0].Url())] + Entries(xs[1..])
  }

  lemma TakeSnoc<T>(s: seq<T>, i: nat)
    requires i < |s|
    ensures s[..i + 1] == s[..i] + [s[i]]
  {
  }

  lemma EntriesSnoc(xs: seq<Item>, x: Item)
    ensures Entries(xs + [x]) == Entries(xs) + [(x.title, x.Url())]
  {
  }

  /** The entries of some of the items are those items' entries. */
  lemma EntriesAt(xs: seq<Item>, idx: seq<nat>)
    requires forall k :: 0 <= k < |idx| ==> idx[k] < |xs|
    ensures Entries(ItemsAt(xs, idx)) == ItemsAt(Entries(xs), idx)
  {
  }

  /** The `while ($item->hasParent())` loop of `crumbMenu` from the item at
      `i`, with `array_unshift` putting each parent in front. Looking the
      parent up is `whereId($parent)->first()`; the set of visited positions
      stands for the loop that, on a cycle, never ends. */
  method CrumbLoop(ns: seq<Node>, i: nat) returns (chain: seq<nat>, status: Status)
    requires i < |ns|
    ensures CrumbsOf(ns, i).Path? ==> status == Done && chain == CrumbsOf(ns, i).idx
    ensures CrumbsOf(ns, i).Broken? ==> status == Thrown
    ensures CrumbsOf(ns, i).Loops? ==> status == Diverges
  {
    chain := [i];
    var p := ns[i].parent;
    var visited := {i};
    while p != Null
      invariant visited <= Range(|ns|)
      invariant forall k :: 0 <= k < |chain| ==> chain[k] < |ns|
      invariant Crumbs(ns, p, visited, chain) == CrumbsOf(ns, i)
      decreases Range(|ns|) - visited
    {
      var f := FirstId(ns, p);
      if f.None? {
        status := Thrown;
        return;
      }
      var j := f.value;
      if j in visited {
        status := Diverges;
        return;
      }
      chain := [j] + chain;
      visited := visited + {j};
      p := ns[j].parent;
    }
    status := Done;
  }

  /** The positions a `data` call on the items at `idx` writes: each of
      them and, when the write cascades, its descendants, in visiting order. */
  function Reached(ns: seq<Node>, idx: seq<nat>, n: nat, cascade: bool): (r: seq<nat>)
    requires forall k :: 0 <= k < |idx| ==> idx[k] < |ns|
    requires cascade ==> Below(ns, idx, n)
    ensures forall k :: 0 <= k < |r| ==> r[k] < |ns|
  {
    if cascade then Walk(ns, idx, n) else idx
  }

  /** The items a `data` call on the items at `idx` writes, in order:
      each item and, when the write cascades, the items its cascade
      writes; an item listed at several reached positions is written once
      per position. */
  function Reaches(xs: seq<Item>, ns: seq<Node>, idx: seq<nat>, n: nat, cascade: bool): (r: seq<Item>)
    requires |ns| == |xs| && forall k :: 0 <= k < |idx| ==> idx[k] < |ns|
    requires cascade ==> Below(ns, idx, n)
    ensures forall o :: o in r ==> o in xs
    decreases n, 0, |idx|
  {
    if |idx| == 0 then []
    else
      BelowTail(ns, idx, n, cascade);
      [xs[idx[0]]] +
      (if cascade then Schedule(xs, ns, ns[idx[0]].id, n - 1, true) else []) +
      Reaches(xs, ns, idx[1..], n, cascade)
  }

  /** The items the cascade of a `data` call on the item with id `p`
      writes: its descendants, in visiting order; none without cascade. */
  function Schedule(xs: seq<Item>, ns: seq<Node>, p: Value, n: nat, cascade: bool): (r: seq<Item>)
    requires |ns| == |xs| && (cascade ==> Bounded(ns, p, n))
    ensures forall o :: o in r ==> o in xs
    decreases n, 1, 0
  {
    if cascade then
      ChildrenBelow(ns, p, n);
      Reaches(xs, ns, ChildIdx(ns, p), n, true)
    else []
  }

  /** Past the first position, the positions are still below `n`. */
  lemma BelowTail(ns: seq<Node>, idx: seq<nat>, n: nat, cascade: bool)
    requires |idx| > 0 && forall k :: 0 <= k < |idx| ==> idx[k] < |ns|
    requires cascade ==> Below(ns, idx, n)
    ensures forall k :: 0 <= k < |idx[1..]| ==> idx[1..][k] < |ns|
    ensures cascade ==> n > 0 && Bounded(ns, ns[idx[0]].id, n - 1) && Below(ns, idx[1..], n)
  {
    if cascade {
      assert idx[0] < |ns| && n > 0 && Bounded(ns, ns[idx[0]].id, n - 1);
      assert Below(ns, idx[1..], n) by {
        forall k | 0 <= k < |idx[1..]| ensures idx[1..][k] < |ns| && n > 0 && Bounded(ns, ns[idx[1..][k]].id, n - 1) {
          assert idx[1..][k] == idx[k + 1];
        }
      }
    }
  }

  /** The items reached are those at the positions of the walk down the
      hierarchy, in the walk's order. */
  lemma {:induction false} ReachesWalk(xs: seq<Item>, ns: seq<Node>, idx: seq<nat>, n: nat, cascade: bool)
    requires |ns| == |xs| && forall k :: 0 <= k < |idx| ==> idx[k] < |ns|
    requires cascade ==> Below(ns, idx, n)
    ensures Reaches(xs, ns, idx, n, cascade) == ItemsAt(xs, Reached(ns, idx, n, cascade))
    decreases n, |idx|
  {
    if |idx| > 0 {
      BelowTail(ns, idx, n, cascade);
      ReachesWalk(xs, ns, idx[1..], n, cascade);
      if cascade {
        var m: nat := n - 1;
        ChildrenBelow(ns, ns[idx[0]].id, m);
        ReachesWalk(xs, ns, ChildIdx(ns, ns[idx[0]].id), m, true);
        ReachesWalkDown(xs, ns, idx, n);
      } else {
        assert idx == [idx[0]] + idx[1..];
        ItemsAtAppend(xs, [idx[0]], idx[1..]);
      }
    }
  }

  /** The cascading step of `ReachesWalk`: the first item, its descendants
      and the rest, on both sides. */
  lemma ReachesWalkDown(xs: seq<Item>, ns: seq<Node>, idx: seq<nat>, n: nat)
    requires |ns| == |xs| && |idx| > 0 && Below(ns, idx, n)
    requires Below(ns, ChildIdx(ns, ns[idx[0]].id), n - 1) && Below(ns, idx[1..], n)
    requires Reaches(xs, ns, ChildIdx(ns, ns[idx[0]].id), n - 1, true) == ItemsAt(xs, Walk(ns, ChildIdx(ns, ns[idx[0]].id), n - 1))
    requires Reaches(xs, ns, idx[1..], n, true) == ItemsAt(xs, Walk(ns, idx[1..], n))
    ensures Reaches(xs, ns, idx, n, true) == ItemsAt(xs, Walk(ns, idx, n))
  {
    var i := idx[0];
    assert idx == [i] + idx[1..];
    WalkPrepend(ns, i, idx[1..], n);
    var kids := Walk(ns, ChildIdx(ns, ns[i].id), n - 1);
    var rest := Walk(ns, idx[1..], n);
    assert Reaches(xs, ns, idx, n, true) ==
      [xs[i]] + Schedule(xs, ns, ns[i].id, n - 1, true) + Reaches(xs, ns, idx[1..], n, true);
    ItemsAtCons(xs, i, kids, rest);
  }

  lemma ItemsAtAppend<T>(xs: seq<T>, a: seq<nat>, b: seq<nat>)
    requires forall k :: 0 <= k < |a| ==> a[k] < |xs|
    requires forall k :: 0 <= k < |b| ==> b[k] < |xs|
    ensures ItemsAt(xs, a + b) == ItemsAt(xs, a) + ItemsAt(xs, b)
  {
  }

  lemma ItemsAtCons<T>(xs: seq<T>, i: nat, a: seq<nat>, b: seq<nat>)
    requires i < |xs|
    requires forall k :: 0 <= k < |a| ==> a[k] < |xs|
    requires forall k :: 0 <= k < |b| ==> b[k] < |xs|
    ensures ItemsAt(xs, [i] + a + b) == [xs[i]] + ItemsAt(xs, a) + ItemsAt(xs, b)
  {
  }
  /** `Collection::data(...)` on the items at the positions `idx` of the
      list of `b`: each item's `data` with the same arguments, in order.
      `sched` is what the call reaches; each object's data takes the write
      once per time it is listed there. */
  method CollectionData(xs: seq<Item>, c: Call, ghost w: PArray -> PArray, ghost b: Builder, ghost ns: seq<Node>, ghost idx: seq<nat>, ghost n: nat, ghost sched: seq<Item>)
    requires WriteOf(w, c)
    requires b.Owned() && ns == NodesOf(b.items)
    requires |idx| == |xs| && forall k :: 0 <= k < |idx| ==> idx[k] < |b.items| && xs[k] == b.items[idx[k]]
    requires b.Cascade(c) ==> Below(ns, idx, n)
    requires sched == Reaches(b.items, ns, idx, n, b.Cascade(c))
    modifies Objs(b.items)`data
    ensures forall o {:trigger Count(sched, o)} :: o in Objs(b.items) ==> o.data == Iterate(w, old(o.data), Count(sched, o))
    decreases n, 1
  {
    ghost var cas := b.Cascade(c);
    ghost var rest := sched;
    var i := 0;
    while i < |xs|
      invariant 0 <= i <= |xs|
      invariant NodesOf(b.items) == ns
      invariant cas ==> Below(ns, idx[i..], n)
      invariant rest == Reaches(b.items, ns, idx[i..], n, cas)
      invariant forall o {:trigger Count(rest, o)} :: o in Objs(b.items) ==>
        Iterate(w, o.data, Count(rest, o)) == Iterate(w, old(o.data), Count(sched, o))
    {
      BelowTail(ns, idx[i..], n, cas);
      assert idx[i..][0] == idx[i] && idx[i..][1..] == idx[i + 1..];
      assert xs[i] in b.items && ns[idx[i]].id == xs[i].id;
      ghost var head := if cas then Schedule(b.items, ns, xs[i].id, n - 1, true) else [];
      ghost var tail := Reaches(b.items, ns, idx[i + 1..], n, cas);
      CollectionDataStep(xs[i], c, w, b, ns, n, head, tail);
      rest := tail;
      i := i + 1;
    }
    assert idx[i..] == [];
    assert rest == [];
    forall o | o in Objs(b.items)
      ensures o.data == Iterate(w, old(o.data), Count(sched, o))
    {
      assert Iterate(w, o.data, Count(rest, o)) == Iterate(w, old(o.data), Count(sched, o));
    }
  }

  /** `n` writes of `attr(...)` with the same call, the last one last. */
  function AttrTimes(a: PArray, c: Call, n: nat): PArray
    decreases n
  {
    if n == 0 then a else AttrEffect(AttrTimes(a, c, n - 1), c)
  }

  /** The listing at `i` writes once more on its own object and on no other. */
  lemma AttrCountStep(xs: seq<Item>, i: nat, o: Item, c: Call, a0: PArray, prev: PArray, now: PArray)
    requires i < |xs| && prev == AttrTimes(a0, c, Count(xs[..i], o))
    requires now == if o == xs[i] then AttrEffect(prev, c) else prev
    ensures now == AttrTimes(a0, c, Count(xs[..i + 1], o))
  {
    CountPrefix(xs, i, o);
    if o == xs[i] {
      AttrTimesStep(a0, c, Count(xs[..i], o));
    }
  }

  lemma AttrTimesStep(a: PArray, c: Call, n: nat)
    ensures AttrTimes(a, c, n + 1) == AttrEffect(AttrTimes(a, c, n), c)
  {
  }

  /** `Collection::attr(k, v)` leaves `k` set to `v` on every listed item:
      after one or more writes, reading `k` answers `v`. */
  lemma AttrTimesSet(a: PArray, k: Value, v: Value, n: nat)
    requires ScalarKey(k) && v != Null && n >= 1
    ensures Answer(AttrTimes(a, Two(Plain(k), v), n), One(Plain(k))) == Got(v)
  {
    var c := Two(Plain(k), v);
    AttrSetThenGet(AttrTimes(a, c, n - 1), k, v);
  }

  /** `n` copies of `h`, one after the other. */
  function Repeat(h: string, n: nat): (r: string)
    ensures |r| == n * |h|
  {
    if n == 0 then "" else Repeat(h, n - 1) + h
  }

  /** A copy of `h` in front is a copy of `h` at the end. */
  lemma {:induction false} RepeatFront(h: string, n: nat)
    ensures h + Repeat(h, n) == Repeat(h, n + 1)
  {
    if n > 0 {
      RepeatFront(h, n - 1);
    }
  }

  lemma CountOne(x: Item, o: Item)
    ensures Count([x], o) == if x == o then 1 else 0
  {
    assert [x][1..] == [];
  }

  /** The occurrences in the first `i + 1` elements: those in the first `i`
      and the one at `i`. */
  lemma CountPrefix(xs: seq<Item>, i: nat, o: Item)
    requires i < |xs|
    ensures Count(xs[..i + 1], o) == Count(xs[..i], o) + if xs[i] == o then 1 else 0
  {
    assert xs[..i + 1] == xs[..i] + [xs[i]];
    CountAppend(xs[..i], [xs[i]], o);
    CountOne(xs[i], o);
  }

  /** `Collection::attr(...)`: each item's `attr` with the same arguments,
      in list order (without arguments, `attr(null)`, which takes the same
      branch as `attr()`); an object listed several times takes the write
      once per listing. The collection itself is what the call returns. */
  method CollectionAttr(xs: seq<Item>, c: Call)
    modifies Objs(xs)`attributes
    ensures forall o {:trigger Count(xs, o)} :: o in Objs(xs) ==> o.attributes == AttrTimes(old(o.attributes), c, Count(xs, o))
  {
    var i := 0;
    while i < |xs|
      invariant 0 <= i <= |xs|
      invariant forall o {:trigger Count(xs[..i], o)} :: o in Objs(xs) ==> o.attributes == AttrTimes(old(o.attributes), c, Count(xs[..i], o))
    {
      label L:
      var _ := xs[i].Attr(c);
      forall o | o in Objs(xs)
        ensures o.attributes == AttrTimes(old(o.attributes), c, Count(xs[..i + 1], o))
      {
        AttrCountStep(xs, i, o, c, old(o.attributes), old@L(o.attributes), o.attributes);
      }
      i := i + 1;
    }
    assert xs[..i] == xs;
  }

  /** `Collection::append($html)`: every listed item's title gains `html`
      at the end, once per listing, and nothing else changes. */
  method CollectionAppend(xs: seq<Item>, html: string)
    modifies Objs(xs)`title
    ensures forall o {:trigger Count(xs, o)} :: o in Objs(xs) ==> o.title == old(o.title) + Repeat(html, Count(xs, o))
  {
    var i := 0;
    while i < |xs|
      invariant 0 <= i <= |xs|
      invariant forall o {:trigger Count(xs[..i], o)} :: o in Objs(xs) ==> o.title == old(o.title) + Repeat(html, Count(xs[..i], o))
    {
      xs[i].Append(html);
      forall o | o in Objs(xs)
        ensures o.title == old(o.title) + Repeat(html, Count(xs[..i + 1], o))
      {
        CountPrefix(xs, i, o);
      }
      i := i + 1;
    }
    assert xs[..i] == xs;
  }

  /** `Collection::prepend($html, $key)`: every listed item's title gains
      `html` in front, once per listing; `$key` is not used. */
  method CollectionPrepend(xs: seq<Item>, html: string, key: Value)
    modifies Objs(xs)`title
    ensures forall o {:trigger Count(xs, o)} :: o in Objs(xs) ==> o.title == Repeat(html, Count(xs, o)) + old(o.title)
  {
    var i := 0;
    while i < |xs|
      invariant 0 <= i <= |xs|
      invariant forall o {:trigger Count(xs[..i], o)} :: o in Objs(xs) ==> o.title == Repeat(html, Count(xs[..i], o)) + old(o.title)
    {
      xs[i].Prepend(html);
      forall o | o in Objs(xs)
        ensures o.title == Repeat(html, Count(xs[..i + 1], o)) + old(o.title)
      {
        CountPrefix(xs, i, o);
        if xs[i] == o {
          RepeatFront(html, Count(xs[..i], o));
        }
      }
      i := i + 1;
    }
    assert xs[..i] == xs;
  }

  /** One item of `Collection::data`: the item's own `data` takes its writes
      off the ones still to come. */
  method CollectionDataStep(x: Item, c: Call, ghost w: PArray -> PArray, ghost b: Builder, ghost ns: seq<Node>, ghost n: nat, ghost head: seq<Item>, ghost tail: seq<Item>)
    requires WriteOf(w, c)
    requires b.Owned() && ns == NodesOf(b.items) && x in b.items
    requires b.Cascade(c) ==> n > 0 && Bounded(ns, x.id, n - 1) && head == Schedule(b.items, ns, x.id, n - 1, true)
    requires !b.Cascade(c) ==> head == []
    modifies Objs(b.items)`data
    ensures NodesOf(b.items) == ns
    ensures forall o {:trigger Count(tail, o)} :: o in Objs(b.items) ==>
      Iterate(w, o.data, Count(tail, o)) == Iterate(w, old(o.data), Count([x] + head + tail, o))
    decreases n, 0
  {
    assert x.builder == b;
    if x.builder.Cascade(c) {
      var _ := x.DataWith(c, w, ns, n - 1, head);
    } else {
      var _ := x.WriteWith(c, w);
    }
    forall o | o in Objs(b.items)
      ensures Iterate(w, o.data, Count(tail, o)) == Iterate(w, old(o.data), Count([x] + head + tail, o))
    {
      CountAppend([x] + head, tail, o);
      CountCons(x, head, o);
      IterateCompose(w, old(o.data), o.data, Count([x] + head, o), Count(tail, o), Count([x] + head + tail, o));
    }
  }

  // ---------------------------------------------------------------------
  // Link

  class Link {
    const builder: Builder
    var path: PArray
    var href: Value
    var attributes: PArray
    var isActive: bool

    /** `new Link($path, $builder)`. */
    constructor (path: PArray, builder: Builder)
      ensures this.path == path && this.builder == builder
      ensures href == Null && attributes == [] && !isActive
    {
      this.path := path;
      this.builder := builder;
      href := Null;
      attributes := [];
      isActive := false;
    }

    function View(): LinkView
      reads this
    {
      LinkView(path, href, attributes, isActive)
    }

    /** `Link::active()`: the builder's active class joins the link's classes. */
    method Active()
      modifies this`attributes, this`isActive
      ensures attributes == AddClass(old(attributes), builder.ActiveClass())
      ensures isActive
    {
      var cls := builder.ActiveClass();
      isActive := true;
      attributes := AddClass(attributes, cls);
    }

    /** `Link::href($href)`. */
    method Href(h: Value)
      modifies this`href
      ensures href == h
    {
      href := h;
    }

    /** `Link::secure()`: `secure` is set to true and no other path key changes. */
    method Secure()
      modifies this`path
      ensures path == Put(old(path), SecureKey, Bool(true))
      ensures Get(path, SecureKey) == Bool(true)
      ensures forall k :: k != SecureKey ==> Get(path, k) == Get(old(path), k)
    {
      path := Put(path, SecureKey, Bool(true));
      forall k ensures Get(path, k) == if k == SecureKey then Bool(true) else Get(old(path), k) {
        PutGet(old(path), SecureKey, Bool(true), k);
      }
    }

    /** `Link::attr(...)`. */
    method Attr(c: Call) returns (r: Reply)
      modifies this`attributes
      ensures attributes == AttrEffect(old(attributes), c)
      ensures r == Answer(old(attributes), c)
    {
      var b := BranchOf(c);
      match b
      case MergeArg(m) =>
        attributes := Merge(attributes, m);
        r := Chained;
      case SetArg(k, v) =>
        attributes := Put(attributes, k, v);
        r := Chained;
      case GetArg(k) =>
        r := Got(Get(attributes, k));
      case AllArgs =>
        r := Whole(attributes);
    }

    /** `Link::__get($prop)`: a declared property, else `attr($prop)`. */
    function Prop(name: string): (p: Prop)
      reads this
      ensures name !in {"builder", "path", "href", "attributes", "isActive"} ==>
        p.Scalar? && Answer(attributes, One(Plain(Str(name)))) == Got(p.v)
    {
      match name
      case "builder" => ObjectProp
      case "path" => ArrayProp(path)
      case "href" => Scalar(href)
      case "attributes" => ArrayProp(attributes)
      case "isActive" => Scalar(Bool(isActive))
      case _ =>
        assert AsArray(Plain(Str(name))).None?;
        assert BranchOf(One(Plain(Str(name)))) == GetArg(Name(name));
        Scalar(Get(attributes, Name(name)))
    }
  }

  /** After `href(h)` with a truthy `h`, the item's URL is `h`, whatever the path. */
  lemma HrefThenUrl(env: Env, v: ItemView, h: Value)
    requires v.link.Some? && Truthy(h)
    ensures ItemUrl(env, v.(link := Some(v.link.value.(href := h)))) == h
  {
  }

  // ---------------------------------------------------------------------
  // Item construction options (Item.php:118-150)

  const NicknameKey: Key := Name("nickname")
  const ParentKey: Key := Name("parent")
  const RawKey: Key := Name("raw")
  const IdKey: Key := Name("id")
  const DisableKey: Key := Name("disableActivationByURL")

  /** The keys `extractAttributes` removes from the options. */
  const Reserved: set<string> := {"route", "action", "url", "prefix", "parent", "secure", "raw"}

  /** Without the reserved keys, an array reads as before on every other
      name and has none of the reserved ones. */
  lemma ExceptReserved(a: PArray)
    ensures forall n :: n !in Reserved ==> Get(Except(a, Reserved), Name(n)) == Get(a, Name(n))
    ensures forall n :: n in Reserved ==> !HasKey(Except(a, Reserved), Name(n))
  {
    forall n ensures Get(Except(a, Reserved), Name(n)) == if n in Reserved then Null else Get(a, Name(n)) {
      ExceptGet(a, Reserved, Name(n));
    }
    forall n | n in Reserved ensures !HasKey(Except(a, Reserved), Name(n)) {
      ExceptGet(a, Reserved, Name(n));
    }
  }

  /** `isset($options[$k])` of an argument: a non-array never has keys. */
  function OptionGet(options: Arg, k: Key): Value
  {
    match AsArray(options)
    case None => Null
    case Some(a) => Get(a, k)
  }

  /** The nickname: the option when set, else the one derived from the title. */
  function NicknameOption(env: Env, title: string, options: Arg): Value
  {
    if OptionGet(options, NicknameKey) != Null then OptionGet(options, NicknameKey) else Str(env.nickname(title))
  }

  /** The parent id: the option when set, else null. */
  function ParentOption(options: Arg): Value
  {
    OptionGet(options, ParentKey)
  }

  function DisableOption(options: Arg): bool
  {
    OptionGet(options, DisableKey) != Null && LooseEq(Bool(true), OptionGet(options, DisableKey))
  }

  /** The link path before the group prefix is added: `['url' => $options]`
      for a non-array, none for a raw item, else the URL keys of the options. */
  function PathOption(options: Arg): Option<PArray>
  {
    match AsArray(options)
    case None =>
      var p: PArray := [(UrlKey, options.v)];
      Some(p)
    case Some(a) =>
      if IsSet(a, RawKey) && LooseEq(Bool(true), Get(a, RawKey)) then None
      else Some(Only(a, {"url", "route", "action", "secure"}))
  }

  /** A raw item has no link. */
  lemma RawHasNoLink(options: PArray)
    requires LooseEq(Bool(true), Get(Put(options, RawKey, Bool(true)), RawKey))
    ensures PathOption(Arr(Put(options, RawKey, Bool(true)))).None?
  {
    PutGet(options, RawKey, Bool(true), RawKey);
  }

  /** A non-array option is the URL. */
  lemma PlainOptionIsUrl(v: Value)
    requires !v.List?
    ensures PathOption(Plain(v)).Some? && PathOption(Plain(v)).value == [(UrlKey, v)]
  {
  }

  // ---------------------------------------------------------------------
  // Item

  /** The commands of a `group` closure: the builder calls it makes. */
  datatype Cmd = AddItem(title: string, options: Arg) | AddRaw(rawTitle: string, rawOptions: PArray) | Nest(attrs: PArray, body: seq<Cmd>)

  /** A new item as the calls of a closure plan it: its title and, when it
      has a link, the link's path options. */
  type Planned1 = (string, Option<PArray>)

  /** The items the calls `cmds` add, in order, when they all end normally,
      on the group stack `stack`: a linked item's path options carry the
      last group prefix in force when it is added. */
  function Planned(stack: seq<PArray>, cmds: seq<Cmd>): seq<Planned1>
    decreases cmds, 0
  {
    if |cmds| == 0 then [] else PlannedOne(stack, cmds[0]) + Planned(stack, cmds[1..])
  }

  function PlannedOne(stack: seq<PArray>, c: Cmd): seq<Planned1>
    decreases c, 1
  {
    match c
    case AddItem(t, o) =>
      [(t, if PathOption(o).None? then None else Some(Put(PathOption(o).value, PrefixKey, TopPrefix(stack))))]
    case AddRaw(t, _) => [(t, None)]
    case Nest(a, body) => Planned(Pushed(stack, a), body)
  }

  lemma {:induction false} PlannedAppend(stack: seq<PArray>, a: seq<Cmd>, b: seq<Cmd>)
    ensures Planned(stack, a + b) == Planned(stack, a) + Planned(stack, b)
    decreases |a|
  {
    if |a| == 0 {
      assert a + b == b;
    } else {
      assert (a + b)[0] == a[0] && (a + b)[1..] == a[1..] + b;
      PlannedAppend(stack, a[1..], b);
    }
  }

  lemma PlannedSnoc(stack: seq<PArray>, cmds: seq<Cmd>, i: nat)
    requires i < |cmds|
    ensures Planned(stack, cmds[..i + 1]) == Planned(stack, cmds[..i]) + PlannedOne(stack, cmds[i])
  {
    assert cmds[..i + 1] == cmds[..i] + [cmds[i]];
    PlannedAppend(stack, cmds[..i], [cmds[i]]);
    assert Planned(stack, [cmds[i]]) == PlannedOne(stack, cmds[i]) + Planned(stack, []);
  }

  /** `group(['prefix' => a], fn ($m) => $m->group(['prefix' => b], fn ($m) => $m->add(t, u)))`
      adds one item, whose link has the URL option `u` and the prefix `a/b`. */
  lemma NestedGroupItem(a: string, b: string, t: string, u: string)
    requires forall j :: 0 <= j < |a| ==> a[j] != '/'
    requires forall j :: 0 <= j < |b| ==> b[j] != '/'
    ensures var path: PArray := [(UrlKey, Str(u)), (PrefixKey, Str(a + "/" + b))];
      Planned([], [Nest([(PrefixKey, Str(a))], [Nest([(PrefixKey, Str(b))], [AddItem(t, Plain(Str(u)))])])]) == [(t, Some(path))]
  {
    var o: PArray := [(PrefixKey, Str(a))];
    var i: PArray := [(PrefixKey, Str(b))];
    var c := AddItem(t, Plain(Str(u)));
    NestedGroupPrefix(a, b);
    AddUnderPrefix(Pushed(Pushed([], o), i), t, u, a + "/" + b);
    GroupOfOne(Pushed([], o), i, c);
    GroupOfOne([], o, Nest(i, [c]));
  }

  /** An `add(t, u)` under the group prefix `p` plans one item whose path is
      the URL with that prefix. */
  lemma AddUnderPrefix(stack: seq<PArray>, t: string, u: string, p: string)
    requires TopPrefix(stack) == Str(p)
    ensures var path: PArray := [(UrlKey, Str(u)), (PrefixKey, Str(p))];
      PlannedOne(stack, AddItem(t, Plain(Str(u)))) == [(t, Some(path))]
  {
    PlainOptionIsUrl(Str(u));
    var base: PArray := [(UrlKey, Str(u))];
    assert !HasKey(base, PrefixKey);
    assert Put(base, PrefixKey, Str(p)) == [(UrlKey, Str(u)), (PrefixKey, Str(p))];
  }

  /** A group whose closure makes the one call `c` plans what `c` plans on
      the pushed stack. */
  lemma GroupOfOne(stack: seq<PArray>, attrs: PArray, c: Cmd)
    ensures Planned(stack, [Nest(attrs, [c])]) == PlannedOne(Pushed(stack, attrs), c)
  {
    var inner := [c];
    assert Planned(Pushed(stack, attrs), inner) == PlannedOne(Pushed(stack, attrs), inner[0]) + Planned(Pushed(stack, attrs), []);
    var outer := [Nest(attrs, inner)];
    assert Planned(stack, outer) == PlannedOne(stack, outer[0]) + Planned(stack, []);
  }

  /** The items from position `from` on are the planned ones, in order. */
  ghost predicate Fits(xs: seq<Item>, from: nat, ps: seq<Planned1>)
    reads Objs(xs)`title, LinkObjs(xs)`path
  {
    from + |ps| == |xs| &&
    forall k :: 0 <= k < |ps| ==>
      xs[from + k].title == ps[k].0 && (xs[from + k].link == null <==> ps[k].1.None?) &&
      (xs[from + k].link != null ==> xs[from + k].link.path == ps[k].1.value)
  }

  /** One more call of a closure: the items fit the plan of one more command. */
  lemma FitsStep(xs: seq<Item>, ys: seq<Item>, from: nat, stack: seq<PArray>, cmds: seq<Cmd>, i: nat)
    requires i < |cmds| && xs <= ys
    requires Fits(xs, from, Planned(stack, cmds[..i])) && Fits(ys, |xs|, PlannedOne(stack, cmds[i]))
    ensures Fits(ys, from, Planned(stack, cmds[..i + 1]))
  {
    FitsJoin(xs, ys, from, Planned(stack, cmds[..i]), PlannedOne(stack, cmds[i]));
    PlannedSnoc(stack, cmds, i);
  }

  lemma FitsJoin(xs: seq<Item>, ys: seq<Item>, from: nat, ps: seq<Planned1>, qs: seq<Planned1>)
    requires xs <= ys && Fits(xs, from, ps) && Fits(ys, |xs|, qs)
    ensures Fits(ys, from, ps + qs)
  {
    forall k | 0 <= k < |ps + qs|
      ensures ys[from + k].title == (ps + qs)[k].0 && (ys[from + k].link == null <==> (ps + qs)[k].1.None?) &&
        (ys[from + k].link != null ==> ys[from + k].link.path == (ps + qs)[k].1.value)
    {
      if k < |ps| {
        assert ys[from + k] == xs[from + k];
      } else {
        assert from + k == |xs| + (k - |ps|);
      }
    }
  }

  /** How an operation that may never return ended: normally, with a PHP
      error (a method called on null), or not at all (the source recurses or
      loops forever; the model leaves the state as it is). */
  datatype Status = Done | Thrown | Diverges

  class Item {
    const builder: Builder
    var id: Value
    var title: string
    var beforeHTML: string
    var afterHTML: string
    var nickname: Value
    var divider: PArray
    const parent: Value
    const link: Link?
    var data: PArray
    var active: bool
    var attributes: PArray
    var isActive: bool
    const disableActivationByURL: bool

    /** `new Item($builder, $id, $title, $options)` without the activation
        check that ends it; `Builder.Add` makes that check right after. */
    constructor (builder: Builder, id: Value, title: string, options: Arg)
      ensures this.builder == builder && this.id == id && this.title == title
      ensures beforeHTML == "" && afterHTML == "" && divider == [] && data == []
      ensures !active && !isActive
      ensures nickname == NicknameOption(builder.env, title, options)
      ensures attributes == builder.ExtractAttributes(options)
      ensures parent == ParentOption(options)
      ensures disableActivationByURL == DisableOption(options)
      ensures link == null <==> PathOption(options).None?
      ensures link != null ==> fresh(link) && link.builder == builder
      ensures link != null ==> link.path == Put(PathOption(options).value, PrefixKey, builder.GetLastGroupPrefix())
      ensures link != null ==> link.href == Null && link.attributes == [] && !link.isActive
    {
      this.builder := builder;
      this.id := id;
      this.title := title;
      beforeHTML := "";
      afterHTML := "";
      divider := [];
      data := [];
      active := false;
      isActive := false;
      nickname := NicknameOption(builder.env, title, options);
      attributes := builder.ExtractAttributes(options);
      parent := ParentOption(options);
      disableActivationByURL := DisableOption(options);
      var path := PathOption(options);
      if path.Some? {
        var l := new Link(Put(path.value, PrefixKey, builder.GetLastGroupPrefix()), builder);
        link := l;
      } else {
        link := null;
      }
    }

    function LinkView(): Option<LinkView>
      reads link
    {
      if link == null then None else Some(link.View())
    }

    /** The item's fields as a value. */
    function View(): ItemView
      reads this, link
    {
      ItemView(id, title, beforeHTML, afterHTML, nickname, divider, parent, LinkView(), data,
        active, attributes, isActive, disableActivationByURL)
    }

    /** `Item::url()`. */
    function Url(): (r: Value)
      reads LinkOpt(link)`href, LinkOpt(link)`path
      ensures link == null ==> r == Null
      ensures link != null && Truthy(link.href) ==> r == link.href
      ensures link != null && !Truthy(link.href) && Get(link.path, UrlKey).Str? && IsAbs(builder.env, Get(link.path, UrlKey)) ==>
        r == Get(link.path, UrlKey)
      ensures link != null && !Truthy(link.href) && !IsSet(link.path, UrlKey) && !IsSet(link.path, RouteKey) && !IsSet(link.path, ActionKey) ==>
        r == Null
    {
      if link == null then Null
      else if Truthy(link.href) then link.href
      else Dispatch(builder.env, link.path)
    }

    lemma UrlOfView()
      ensures Url() == ItemUrl(builder.env, View())
    {
    }

    /** `Item::attr(...)`. */
    method Attr(c: Call) returns (r: Reply)
      modifies this`attributes
      ensures attributes == AttrEffect(old(attributes), c)
      ensures r == Answer(old(attributes), c)
    {
      var b := BranchOf(c);
      match b
      case MergeArg(m) =>
        attributes := Merge(attributes, m);
        r := Chained;
      case SetArg(k, v) =>
        attributes := Put(attributes, k, v);
        r := Chained;
      case GetArg(k) =>
        r := Got(Get(attributes, k));
      case AllArgs =>
        r := Whole(attributes);
    }

    /** The write of `Item::data(...)` on the item itself: an array merges
        with its keys lower-cased, a key and a value store the value under
        the lower-cased key, a key alone reads without lower-casing. */
    method DataHere(c: Call) returns (r: Reply)
      modifies this`data
      ensures data == DataEffect(old(data), c)
      ensures r == Answer(old(data), c)
    {
      var b := BranchOf(c);
      match b
      case MergeArg(m) =>
        data := Merge(data, LowerKeys(m));
        r := Chained;
      case SetArg(k, v) =>
        data := Put(data, DataKey(FirstScalar(c)), v);
        r := Chained;
      case GetArg(k) =>
        r := Got(Get(data, k));
      case AllArgs =>
        r := Whole(data);
    }

    /** `DataHere` in terms of `w`, the write of `c`. */
    method WriteWith(c: Call, ghost w: PArray -> PArray) returns (r: Reply)
      requires WriteOf(w, c)
      modifies this`data
      ensures data == w(old(data))
      ensures r == Answer(old(data), c)
    {
      r := DataHere(c);
    }

    /** `Item::data(...)`: the write on the item and, when the builder's
        `cascade_data` is on and the call writes, the same call on every
        child through `cascade_data`, and so on down. Each object's data
        takes the write once per time it is reached. `ns` is the id and
        parent of each item of the builder; the cascade needs the items to
        belong to this item's builder and ends only when the hierarchy below
        the item is finite (`n` levels). */
    method Data(c: Call, ghost ns: seq<Node>, ghost n: nat, ghost sched: seq<Item>) returns (r: Reply)
      requires builder.Owned() && ns == NodesOf(builder.items)
      requires builder.Cascade(c) ==> Bounded(ns, id, n)
      requires sched == Schedule(builder.items, ns, id, n, builder.Cascade(c))
      modifies this`data, Objs(builder.items)`data
      ensures r == Answer(old(data), c)
      ensures forall o {:trigger Count([this] + sched, o)} :: o == this || o in Objs(builder.items) ==>
        o.data == DataTimes(old(o.data), c, Count([this] + sched, o))
    {
      r := DataWith(c, Writer(c), ns, n, sched);
    }

    /** `Item::data(...)` with `w`, the write of `c` on one data array, kept
        apart so that the cascade's reasoning depends on nothing but the
        number of writes each object takes. */
    method DataWith(c: Call, ghost w: PArray -> PArray, ghost ns: seq<Node>, ghost n: nat, ghost sched: seq<Item>) returns (r: Reply)
      requires WriteOf(w, c)
      requires builder.Owned() && ns == NodesOf(builder.items)
      requires builder.Cascade(c) ==> Bounded(ns, id, n)
      requires sched == Schedule(builder.items, ns, id, n, builder.Cascade(c))
      modifies this`data, Objs(builder.items)`data
      ensures r == Answer(old(data), c)
      ensures data == Iterate(w, old(data), Count([this] + sched, this))
      ensures forall o {:trigger Count([this] + sched, o)} :: o in Objs(builder.items) && o != this ==>
        o.data == Iterate(w, old(o.data), Count([this] + sched, o))
      decreases n, 4
    {
      ghost var d0 := data;
      r := WriteWith(c, w);
      if builder.Cascade(c) {
        ghost var d1 := data;
        var _ := CascadeData(c, w, ns, n, sched);
        CountIn(sched, this);
        IterateStep(w, d0, Count(sched, this));
        if this in Objs(builder.items) {
          assert data == Iterate(w, d1, Count(sched, this));
        } else {
          assert data == d1 && Count(sched, this) == 0;
        }
        CountFirst(this, sched);
      } else {
        assert sched == [];
        CountFirst(this, sched);
      }
    }

    /** `Item::cascade_data($args)`: nothing without children, else the
        same call on the collection of children. */
    method CascadeData(c: Call, ghost w: PArray -> PArray, ghost ns: seq<Node>, ghost n: nat, ghost sched: seq<Item>) returns (b: bool)
      requires WriteOf(w, c)
      requires builder.Owned() && ns == NodesOf(builder.items)
      requires builder.Cascade(c) && Bounded(ns, id, n)
      requires sched == Schedule(builder.items, ns, id, n, true)
      modifies Objs(builder.items)`data
      ensures b == old(HasChildren())
      ensures forall o {:trigger Count(sched, o)} :: o in Objs(builder.items) ==> o.data == Iterate(w, old(o.data), Count(sched, o))
      decreases n, 2
    {
      var idx := ChildIdx(NodesOf(builder.items), id);
      var kids := Children();
      ChildrenBelow(ns, id, n);
      if |kids| == 0 {
        assert sched == [];
        return false;
      }
      CollectionData(kids, c, w, builder, ns, idx, n, sched);
      b := true;
    }

    /** `Item::prepend($html)`. */
    method Prepend(html: string)
      modifies this`title
      ensures title == html + old(title)
    {
      title := html + title;
    }

    /** `Item::append($html)`. */
    method Append(html: string)
      modifies this`title
      ensures title == old(title) + html
    {
      title := title + html;
    }

    /** `Item::before($html)`. */
    method Before(html: string)
      modifies this`beforeHTML
      ensures beforeHTML == html + old(beforeHTML)
    {
      beforeHTML := html + beforeHTML;
    }

    /** `Item::after($html)`. */
    method After(html: string)
      modifies this`afterHTML
      ensures afterHTML == old(afterHTML) + html
    {
      afterHTML := afterHTML + html;
    }

    /** `Item::divide($attributes)`: the divider's class is the given class
        merged into `divider`. */
    method Divide(attrs: PArray)
      modifies this`divider
      ensures divider == Put(attrs, ClassKey, FormatGroupClass(attrs, [(ClassKey, Str("divider"))]))
    {
      divider := Put(attrs, ClassKey, FormatGroupClass(attrs, [(ClassKey, Str("divider"))]));
    }

    /** `Item::add($title, $options)`: `add` on the builder with this
        item's id as the parent; a non-array option is the URL. */
    method Add(title: string, options: Arg) returns (child: Item, status: Status)
      modifies builder`items, builder`nextId
      modifies Objs(builder.items)`attributes, Objs(builder.items)`isActive
      modifies LinkObjs(builder.items)`attributes, LinkObjs(builder.items)`isActive
      ensures fresh(child) && child.builder == builder && child.title == title
      ensures child.parent == id
      ensures child.link == null <==> PathOption(options).None?
      ensures status == Done ==> builder.items == old(builder.items) + [child]
      ensures status != Done ==> builder.items == old(builder.items)
    {
      var opts := ChildOptions(options, id);
      ChildOptionsKeys(options, id);
      ghost var xs, ts, st, lt;
      child, status, xs, ts, st, lt := builder.Add(title, Arr(opts));
    }

    /** `Item::raw($title, $options)`: `raw` on the builder with this item's
        id as the parent. */
    method Raw(title: string, options: PArray) returns (child: Item, status: Status)
      modifies builder`items, builder`nextId
      modifies Objs(builder.items)`attributes, Objs(builder.items)`isActive
      modifies LinkObjs(builder.items)`attributes, LinkObjs(builder.items)`isActive
      ensures fresh(child) && child.builder == builder && child.title == title
      ensures child.parent == id && child.link == null
      ensures status == Done ==> builder.items == old(builder.items) + [child]
      ensures status != Done ==> builder.items == old(builder.items)
    {
      PutGet(options, ParentKey, id, ParentKey);
      child, status := builder.Raw(title, Put(options, ParentKey, id));
    }

    /** An item of the list whose parent is this item's id makes this item
        one with children, as a child `add` or `raw` put there does. */
    lemma ChildIsChild(child: Item)
      requires child in builder.items && child.parent == id
      ensures HasChildren()
    {
      LooseEqReflexive(id);
      HasChildrenIff();
    }

    /** `Item::all()`: `whereParent($this->id, true)`, with the recursive
        filter as intended; as written it is always empty
        (`Builder.FilterRecursiveAsWritten`). */
    function All(n: nat): (r: Option<seq<Item>>)
      reads this`id, builder`items, Objs(builder.items), LinkObjs(builder.items)
      ensures Bounded(NodesOf(builder.items), id, n) ==>
        r == Some(ItemsAt(builder.items, Descendants(NodesOf(builder.items), id, n)))
    {
      builder.FilterRecursive("parent", id, n)
    }

    /** A child of a child is among `all()`. */
    lemma AllHasGrandchildren(n: nat, i: nat, j: nat)
      requires Bounded(NodesOf(builder.items), id, n)
      requires i < |builder.items| && j < |builder.items|
      requires LooseEq(builder.items[i].parent, id) && LooseEq(builder.items[j].parent, builder.items[i].id)
      ensures builder.items[j] in All(n).value
    {
      var ns := NodesOf(builder.items);
      ChildrenBelow(ns, id, n);
      WalkMember(ns, ChildIdx(ns, id), n, i);
      WalkClosed(ns, ChildIdx(ns, id), n, i, j);
      var d := Descendants(ns, id, n);
      var k :| 0 <= k < |d| && d[k] == j;
      assert ItemsAt(builder.items, d)[k] == builder.items[j];
    }

    /** `Item::active()` without a pattern: the builder's active class joins the item's classes. */
    method MarkActive()
      modifies this`attributes, this`isActive
      ensures attributes == AddClass(old(attributes), builder.ActiveClass())
      ensures isActive
    {
      var cls := builder.ActiveClass();
      isActive := true;
      attributes := AddClass(attributes, cls);
    }

    /** The test of `checkActivationStatus`, on the item's flag and `url()`. */
    predicate UrlActivates()
      reads LinkOpt(link)`href, LinkOpt(link)`path
    {
      UrlTest(builder.env, builder.conf, disableActivationByURL, Url())
    }

    lemma UrlActivatesOfView()
      ensures UrlActivates() <==> ActivatesByUrl(builder.env, builder.conf, View())
    {
      UrlOfView();
    }

    /** The ancestors `activate()` reaches from this item. */
    function Chain(): (r: Climb)
      reads builder`items, Objs(builder.items)`id
      ensures forall k :: 0 <= k < |r.idx| ==> r.idx[k] < |builder.items|
    {
      ChainFrom(builder, parent)
    }

    /** The items `activate()` marks, in order: this item, then its
        ancestors up to the first one met twice, and whether the parent ids
        lead back to one of them. */
    function Targets(): (r: Ascent)
      reads builder`items, Objs(builder.items)`id
      ensures |r.targets| > 0 && r.targets[0] == this
      ensures forall x :: x in r.targets[1..] ==> x in builder.items
    {
      Ascent([this] + ItemsAt(builder.items, Chain().idx), Chain().loops)
    }

    /** `Item::activate()`. The class goes to each target (the item, then its
        ancestors when `activate_parents` is on): to the item itself when
        `active_element` is `item`, else to its link, where a target without a
        link ends the walk with an error. The item's own `active` flag is set
        once its class step succeeds. On a cycle of parent ids the source
        goes round the targets again and again: in link mode it fails at the
        first target without a link, as on a walk without a cycle; in item
        mode, or when every target has a link, it recurses forever, and the
        model stops with `Diverges` and changes nothing. */
    method Activate(ghost xs: seq<Item>, ghost ts: Ascent, ghost st: seq<(PArray, bool)>, ghost lt: seq<Option<(PArray, bool)>>) returns (status: Status)
      requires xs == [this] + builder.items && ts == Targets()
      requires st == States(xs) && lt == LinkStates(xs)
      modifies this`active, Objs(xs)`attributes, Objs(xs)`isActive, LinkObjs(xs)`attributes, LinkObjs(xs)`isActive
      ensures ActivateResult(xs, ts, st, lt, status, old(active))
    {
      var walk := Targets();
      var targets := walk.targets;
      var onItem := builder.ClassOnItem();
      if Endless(walk, onItem) {
        return Diverges;
      }
      assert forall l :: l in LinkObjs(targets) ==> l in LinkObjs(xs);
      if onItem {
        RaiseItems(this, targets, xs);
        status := Done;
      } else {
        var k := RaiseLinks(this, targets, xs, link != null);
        status := if k == |targets| then Done else Thrown;
      }
    }

    /** What `activate()` leaves, where `was` is the item's `active` flag
        before: nothing changed when the walk never ends; else the targets
        marked, the status as the walk ended, and the flag set when the
        item's own class step succeeded. */
    ghost predicate ActivateResult(xs: seq<Item>, ts: Ascent, st: seq<(PArray, bool)>, lt: seq<Option<(PArray, bool)>>, status: Status, was: bool)
      reads this`active, Objs(xs)`attributes, Objs(xs)`isActive, LinkObjs(xs)`attributes, LinkObjs(xs)`isActive
    {
      (Endless(ts, builder.ClassOnItem()) ==> status == Diverges && active == was && Kept(xs, st, lt)) &&
      (!Endless(ts, builder.ClassOnItem()) ==>
        |st| == |xs| && |lt| == |xs| &&
        ActivatedBy(xs, ts.targets, builder.ClassOnItem(), st, lt) &&
        status == (if builder.ClassOnItem() || Linked(ts.targets) == |ts.targets| then Done else Thrown) &&
        active == (was || builder.ClassOnItem() || link != null))
    }

    /** `Item::checkActivationStatus()`: `activate()` when the URL test passes. */
    method CheckActivationStatus(ghost xs: seq<Item>, ghost ts: Ascent, ghost st: seq<(PArray, bool)>, ghost lt: seq<Option<(PArray, bool)>>) returns (status: Status)
      requires xs == [this] + builder.items && ts == Targets()
      requires st == States(xs) && lt == LinkStates(xs)
      modifies this`active, Objs(xs)`attributes, Objs(xs)`isActive, LinkObjs(xs)`attributes, LinkObjs(xs)`isActive
      ensures !old(UrlActivates()) ==> status == Done && active == old(active) && Kept(xs, st, lt)
      ensures old(UrlActivates()) ==> ActivateResult(xs, ts, st, lt, status, old(active))
      ensures title == old(title)
    {
      if UrlActivates() {
        status := Activate(xs, ts, st, lt);
      } else {
        status := Done;
      }
    }

    /** `Item::active($pattern)`: `activate()` when the request path matches
        the pattern, in which a slash followed by a star matches anything. */
    method ActivePattern(pattern: string, ghost xs: seq<Item>, ghost ts: Ascent, ghost st: seq<(PArray, bool)>, ghost lt: seq<Option<(PArray, bool)>>) returns (status: Status)
      requires xs == [this] + builder.items && ts == Targets()
      requires st == States(xs) && lt == LinkStates(xs)
      modifies this`active, Objs(xs)`attributes, Objs(xs)`isActive, LinkObjs(xs)`attributes, LinkObjs(xs)`isActive
      ensures !PatternMatches(pattern, builder.env.requestPath) ==> status == Done && active == old(active) && Kept(xs, st, lt)
      ensures PatternMatches(pattern, builder.env.requestPath) ==> ActivateResult(xs, ts, st, lt, status, old(active))
    {
      if PiecesMatch(PatternPieces(pattern), builder.env.requestPath) {
        status := Activate(xs, ts, st, lt);
      } else {
        status := Done;
      }
    }

    /** `Item::nickname($nickname)`: a getter for null, else a setter. */
    method Nickname(v: Value) returns (r: Option<Value>)
      modifies this`nickname
      ensures v == Null ==> nickname == old(nickname) && r == Some(old(nickname))
      ensures v != Null ==> nickname == v && r.None?
    {
      if v == Null {
        r := Some(nickname);
      } else {
        nickname := v;
        r := None;
      }
    }

    /** `Item::id($id)`: a getter for null, else a setter. */
    method Id(v: Value) returns (r: Option<Value>)
      modifies this`id
      ensures v == Null ==> id == old(id) && r == Some(old(id))
      ensures v != Null ==> id == v && r.None?
    {
      if v == Null {
        r := Some(id);
      } else {
        id := v;
        r := None;
      }
    }

    /** `Item::hasParent()`: `isset($this->parent)`. */
    predicate HasParent()
    {
      parent != Null
    }

    /** `Item::children()`: `whereParent($this->id)` on the item's builder. */
    function Children(): seq<Item>
      reads this`id, builder`items, Objs(builder.items)`id
    {
      builder.ChildrenOf(id)
    }

    /** `Item::hasChildren()`. */
    predicate HasChildren()
      reads this`id, builder`items, Objs(builder.items)`id
    {
      |Children()| > 0
    }

    /** `Item::parent()`: `whereId($this->parent)->first()`. */
    function ParentItem(): Item?
      reads builder`items, Objs(builder.items)`id
    {
      builder.Find(parent)
    }

    /** `hasChildren()` is true exactly when some item of the builder has
        this item's id as its parent. */
    lemma HasChildrenIff()
      ensures HasChildren() <==> exists j :: 0 <= j < |builder.items| && LooseEq(builder.items[j].parent, id)
    {
      var ns := NodesOf(builder.items);
      if HasChildren() {
        var r := ChildIdx(ns, id);
        assert r[0] < |ns| && LooseEq(ns[r[0]].parent, id);
      }
      if exists j :: 0 <= j < |builder.items| && LooseEq(builder.items[j].parent, id) {
        var j :| 0 <= j < |builder.items| && LooseEq(builder.items[j].parent, id);
        assert j in ChildIdx(ns, id);
      }
    }
  }

  // ---------------------------------------------------------------------
  // Builder

  class Builder {
    const name: string
    const conf: PArray
    const env: Env
    var items: seq<Item>
    var groupStack: seq<PArray>
    /** The counter behind the fresh ids that replace `uniqid`. */
    var nextId: nat

    /** `new Builder($name, $conf)`. */
    constructor (name: string, conf: PArray, env: Env)
      ensures this.name == name && this.conf == conf && this.env == env
      ensures items == [] && groupStack == [] && nextId == 0
    {
      this.name := name;
      this.conf := conf;
      this.env := env;
      items := [];
      groupStack := [];
      nextId := 0;
    }

    /** `Builder::conf($key)`: a missing key reads as null. */
    function Conf(key: string): Value
    {
      Get(conf, Name(key))
    }

    function ActiveClass(): Value
    {
      Conf("active_class")
    }

    /** `true === conf('auto_activate')`. */
    predicate AutoActivate()
    {
      Conf("auto_activate") == Bool(true)
    }

    /** `true === conf('activate_parents')`. */
    predicate ActivatesParents()
    {
      Conf("activate_parents") == Bool(true)
    }

    /** `'item' == conf('active_element')`: the class goes to the item, else to its link. */
    predicate ClassOnItem()
    {
      LooseEq(Str("item"), Conf("active_element"))
    }

    predicate CascadesData()
    {
      Truthy(Conf("cascade_data"))
    }

    /** A `data` call that writes, on an item of this builder, cascades to
        its children when `cascade_data` is on. */
    predicate Cascade(c: Call)
    {
      Writes(c) && CascadesData()
    }

    /** Every item of the list was created by this builder. */
    predicate Owned()
      reads this`items
    {
      forall j :: 0 <= j < |items| ==> items[j].builder == this
    }

    // ----- group stack (Builder.php:194-329) -----

    /** `getLastGroupPrefix()`. */
    function GetLastGroupPrefix(): Value
      reads this`groupStack
    {
      TopPrefix(groupStack)
    }

    /** `extractAttributes($options)`: the options (none for a non-array)
        merged with the top group, without the reserved keys. */
    function ExtractAttributes(options: Arg): (r: PArray)
      reads this`groupStack
      ensures forall n :: n !in Reserved ==>
        Get(r, Name(n)) == Get(if |groupStack| > 0 then MergeGroup(ArgArray(options), groupStack[|groupStack| - 1]) else ArgArray(options), Name(n))
      ensures forall n :: n in Reserved ==> !HasKey(r, Name(n))
    {
      var a := ArgArray(options);
      var merged := if |groupStack| > 0 then MergeGroup(a, groupStack[|groupStack| - 1]) else a;
      ExceptReserved(merged);
      Except(merged, Reserved)
    }

    /** `updateGroupStack($attributes)`: push the attributes, merged with the
        top group when there is one. */
    method UpdateGroupStack(attrs: PArray)
      modifies this`groupStack
      ensures groupStack == Pushed(old(groupStack), attrs)
      ensures GetLastGroupPrefix() ==
        if |old(groupStack)| > 0 then FormatGroupPrefix(attrs, old(groupStack)[|old(groupStack)| - 1])
        else if HasKey(attrs, PrefixKey) then Get(attrs, PrefixKey) else Str("")
    {
      PushedPrefix(groupStack, attrs);
      var top := attrs;
      if |groupStack| > 0 {
        top := MergeGroup(attrs, groupStack[|groupStack| - 1]);
      }
      groupStack := groupStack + [top];
    }

    // ----- adding items (Builder.php:66-98, 176-181) -----

    /** `Builder::add($title, $options)`. The item takes the `id` option when
        it is set and a fresh id otherwise. When `auto_activate` is on, the
        new item is checked for activation before it joins the list, so its
        ancestors are searched among the items already there. An error or a
        non-ending activation leaves the item out of the list. */
    method Add(title: string, options: Arg) returns (item: Item, status: Status, ghost xs: seq<Item>, ghost ts: Ascent, ghost st: seq<(PArray, bool)>, ghost lt: seq<Option<(PArray, bool)>>)
      modifies this`items, this`nextId
      modifies Objs(items)`attributes, Objs(items)`isActive, LinkObjs(items)`attributes, LinkObjs(items)`isActive
      ensures fresh(item) && (item.link != null ==> fresh(item.link))
      ensures item.builder == this && item.parent == ParentOption(options) && item.disableActivationByURL == DisableOption(options)
      ensures item.link == null <==> PathOption(options).None?
      ensures nextId == if OptionGet(options, IdKey) != Null then old(nextId) else old(nextId) + 1
      ensures xs == [item] + old(items)
      ensures ts == TargetsFrom(item, old(items), old(ChainFrom(this, ParentOption(options))))
      ensures st == [(old(ExtractAttributes(options)), false)] + old(States(items))
      ensures lt == [FreshLinkState(item)] + old(LinkStates(items))
      ensures Admitted(item, xs, ts, st, lt, old(items), status, StartActivates(options, old(GetLastGroupPrefix())))
      ensures item.title == title
      ensures item.link != null ==> item.link.href == Null && item.link.path == Put(PathOption(options).value, PrefixKey, old(GetLastGroupPrefix()))
    {
      item, xs, ts, st, lt := Start(title, options);
      status := Admit(item, xs, ts, st, lt);
    }

    /** The outcome of `add` for the new item `item` in front of `items0`,
        the list before: the push when the check ended normally; no change
        when there is no check; no change besides the item's `active` flag
        when it ends in an error; and the states `st` and `lt` of `xs`
        changed as `activate()` changes them when the check ran. `act` is
        the URL test of the new item. */
    predicate Admitted(item: Item, xs: seq<Item>, ts: Ascent, st: seq<(PArray, bool)>, lt: seq<Option<(PArray, bool)>>, items0: seq<Item>, status: Status, act: bool)
      reads this`items, item`active
      reads Objs(xs)`attributes, Objs(xs)`isActive, LinkObjs(xs)`attributes, LinkObjs(xs)`isActive
    {
      (status == Done ==> items == items0 + [item]) &&
      (status != Done ==> items == items0) &&
      (!(AutoActivate() && act) ==> status == Done && !item.active && Kept(xs, st, lt)) &&
      (AutoActivate() && act && Endless(ts, ClassOnItem()) ==> status == Diverges && !item.active && Kept(xs, st, lt)) &&
      (AutoActivate() && act && !Endless(ts, ClassOnItem()) ==>
        |st| == |xs| && |lt| == |xs| &&
        ActivatedBy(xs, ts.targets, ClassOnItem(), st, lt) &&
        status == (if ClassOnItem() || Linked(ts.targets) == |ts.targets| then Done else Thrown) &&
        item.active == (ClassOnItem() || item.link != null))
    }

    /** The fields of a new item made by `new Item($this, $id, $title, $options)`
        that the activation check does not touch. */
    predicate Created(item: Item, title: string, options: Arg, id: Value, prefix: Value)
      reads item`id, item`title, item`nickname, item`beforeHTML, item`afterHTML, item`divider, item`data
      reads LinkOpt(item.link)`href, LinkOpt(item.link)`path
    {
      item.builder == this && item.id == id && item.title == title &&
      item.nickname == NicknameOption(env, title, options) && item.parent == ParentOption(options) &&
      item.disableActivationByURL == DisableOption(options) &&
      item.beforeHTML == "" && item.afterHTML == "" && item.divider == [] && item.data == [] &&
      (item.link == null <==> PathOption(options).None?) &&
      (item.link != null ==>
        item.link.builder == this && item.link.href == Null &&
        item.link.path == Put(PathOption(options).value, PrefixKey, prefix))
    }

    /** The URL a new item starts with: none without a link; else what the
        path options with the group prefix dispatch to, as its `href` is unset. */
    function StartUrl(options: Arg, prefix: Value): Value
    {
      if PathOption(options).None? then Null else Dispatch(env, Put(PathOption(options).value, PrefixKey, prefix))
    }

    /** The URL test of `checkActivationStatus` on a new item. */
    predicate StartActivates(options: Arg, prefix: Value)
    {
      UrlTest(env, conf, DisableOption(options), StartUrl(options, prefix))
    }

    /** The start of `add`: the id (the `id` option or a fresh one) and the
        new item, which is not yet in the list. */
    method NewItem(title: string, options: Arg) returns (item: Item)
      modifies this`nextId
      ensures fresh(item) && (item.link != null ==> fresh(item.link))
      ensures Created(item, title, options, NewId(options, old(nextId)), old(GetLastGroupPrefix()))
      ensures nextId == if OptionGet(options, IdKey) != Null then old(nextId) else old(nextId) + 1
      ensures !item.active && !item.isActive && item.attributes == old(ExtractAttributes(options))
      ensures item.link != null ==> item.link.attributes == [] && !item.link.isActive
    {
      var id: Value;
      if OptionGet(options, IdKey) != Null {
        id := OptionGet(options, IdKey);
      } else {
        id := FreshId(nextId);
        nextId := nextId + 1;
      }
      item := new Item(this, id, title, options);
    }

    /** The new item in front of the items already there, with their states
        and the targets of its activation. */
    method Start(title: string, options: Arg) returns (item: Item, ghost xs: seq<Item>, ghost ts: Ascent, ghost st: seq<(PArray, bool)>, ghost lt: seq<Option<(PArray, bool)>>)
      modifies this`nextId
      ensures fresh(item) && (item.link != null ==> fresh(item.link))
      ensures Created(item, title, options, NewId(options, old(nextId)), old(GetLastGroupPrefix()))
      ensures nextId == if OptionGet(options, IdKey) != Null then old(nextId) else old(nextId) + 1
      ensures !item.active
      ensures item.UrlActivates() == StartActivates(options, old(GetLastGroupPrefix()))
      ensures xs == [item] + items && ts == item.Targets() && st == States(xs) && lt == LinkStates(xs)
      ensures ts == TargetsFrom(item, old(items), old(ChainFrom(this, ParentOption(options))))
      ensures st == [(old(ExtractAttributes(options)), false)] + old(States(items))
      ensures lt == [FreshLinkState(item)] + old(LinkStates(items))
    {
      item := NewItem(title, options);
      NodesOfFrame(items);
      assert item.Chain() == old(ChainFrom(this, ParentOption(options)));
      StatesFrame(items);
      LinkStatesFrame(items);
      StatesCons(item, items);
      LinkStatesCons(item, items);
      xs := [item] + items;
      ts := item.Targets();
      st := States(xs);
      lt := LinkStates(xs);
      StartTest(item, title, options, NewId(options, old(nextId)), old(GetLastGroupPrefix()));
    }

    /** A new item's URL test is the one its options and the group prefix give. */
    lemma StartTest(item: Item, title: string, options: Arg, id: Value, prefix: Value)
      requires Created(item, title, options, id, prefix)
      ensures item.UrlActivates() == StartActivates(options, prefix)
    {
    }

    /** The end of `add`: when `auto_activate` is on, the activation check of
        the new item over `xs`, the item and those already in the list, from
        the states `st` and `lt`; then the push onto the list when the check
        ended normally. `ts` holds the targets of `activate()` when the
        parent ids lead to the root. */
    method Admit(item: Item, ghost xs: seq<Item>, ghost ts: Ascent, ghost st: seq<(PArray, bool)>, ghost lt: seq<Option<(PArray, bool)>>) returns (status: Status)
      requires item.builder == this && !item.active
      requires xs == [item] + items && ts == item.Targets()
      requires st == States(xs) && lt == LinkStates(xs)
      modifies this`items, item`active, Objs(xs)`attributes, Objs(xs)`isActive, LinkObjs(xs)`attributes, LinkObjs(xs)`isActive
      ensures Admitted(item, xs, ts, st, lt, old(items), status, old(item.UrlActivates()))
      ensures item.title == old(item.title)
      ensures item.link != null ==> item.link.path == old(item.link.path) && item.link.href == old(item.link.href)
    {
      if AutoActivate() {
        status := AdmitChecked(item, xs, ts, st, lt);
      } else {
        Push(item, xs);
        status := Done;
      }
    }

    /** `$this->items->push($item)`, which leaves the items' states `xs` alone. */
    method Push(item: Item, ghost xs: seq<Item>)
      modifies this`items
      ensures items == old(items) + [item]
      ensures States(xs) == old(States(xs)) && LinkStates(xs) == old(LinkStates(xs))
    {
      items := items + [item];
    }

    /** `add` with `auto_activate`: the check, then the push when it ended normally. */
    method AdmitChecked(item: Item, ghost xs: seq<Item>, ghost ts: Ascent, ghost st: seq<(PArray, bool)>, ghost lt: seq<Option<(PArray, bool)>>) returns (status: Status)
      requires item.builder == this
      requires xs == [item] + items && ts == item.Targets()
      requires st == States(xs) && lt == LinkStates(xs)
      modifies this`items, item`active, Objs(xs)`attributes, Objs(xs)`isActive, LinkObjs(xs)`attributes, LinkObjs(xs)`isActive
      ensures status == Done ==> items == old(items) + [item]
      ensures status != Done ==> items == old(items)
      ensures !old(item.UrlActivates()) ==> status == Done && item.active == old(item.active) && Kept(xs, st, lt)
      ensures old(item.UrlActivates()) ==> item.ActivateResult(xs, ts, st, lt, status, old(item.active))
      ensures item.title == old(item.title)
    {
      status := item.CheckActivationStatus(xs, ts, st, lt);
      if status == Done {
        Push(item, xs);
      }
    }

    /** `Builder::raw($title, $options)`: `add` with the `raw` option set,
        so the new item has no link. */
    method Raw(title: string, options: PArray) returns (item: Item, status: Status)
      modifies this`items, this`nextId
      modifies Objs(items)`attributes, Objs(items)`isActive, LinkObjs(items)`attributes, LinkObjs(items)`isActive
      ensures fresh(item) && item.builder == this && item.title == title
      ensures item.link == null && item.parent == Get(options, ParentKey)
      ensures status == Done ==> items == old(items) + [item]
      ensures status != Done ==> items == old(items)
    {
      var raw := Put(options, RawKey, Bool(true));
      PutGet(options, RawKey, Bool(true), RawKey);
      PutGet(options, RawKey, Bool(true), ParentKey);
      RawHasNoLink(options);
      ghost var xs, ts, st, lt;
      item, status, xs, ts, st, lt := Add(title, Arr(raw));
    }

    /** `Builder::divide($attributes)`: the last item gets a divider whose
        class is the given class followed by `divider`. On an empty menu
        `last()` is null and the assignment is a PHP error. */
    method Divide(attrs: PArray) returns (status: Status)
      modifies Objs(items)`divider
      ensures |items| == 0 <==> status == Thrown
      ensures status != Thrown ==>
        status == Done && items[|items| - 1].divider == Put(attrs, ClassKey, FormatGroupClass([(ClassKey, Str("divider"))], attrs))
      ensures |items| > 0 ==> forall x :: x in Objs(items) && x != items[|items| - 1] ==> x.divider == old(x.divider)
    {
      if |items| == 0 {
        status := Thrown;
      } else {
        var last := items[|items| - 1];
        last.divider := Put(attrs, ClassKey, FormatGroupClass([(ClassKey, Str("divider"))], attrs));
        status := Done;
      }
    }

    /** The calls of a `group` closure, in order (the closure is the
        sequence `cmds` of builder calls it makes). An error or a
        non-ending activation ends it. Earlier items stay in place; the new
        ones, and their links, are fresh. */
    method Run(cmds: seq<Cmd>) returns (status: Status)
      modifies this`items, this`nextId, this`groupStack
      modifies Objs(items)`attributes, Objs(items)`isActive, LinkObjs(items)`attributes, LinkObjs(items)`isActive
      ensures old(items) <= items
      ensures forall x :: x in items && x !in old(items) ==> fresh(x) && (x.link != null ==> fresh(x.link))
      ensures status == Done ==> groupStack == old(groupStack)
      ensures status != Done ==> old(groupStack) <= groupStack
      ensures status == Done ==> Fits(items, |old(items)|, Planned(old(groupStack), cmds))
      decreases cmds, 0
    {
      status := Done;
      var i := 0;
      while i < |cmds| && status == Done
        invariant 0 <= i <= |cmds|
        invariant old(items) <= items
        invariant forall x :: x in items && x !in old(items) ==> fresh(x) && (x.link != null ==> fresh(x.link))
        invariant status == Done ==> groupStack == old(groupStack)
        invariant status != Done ==> old(groupStack) <= groupStack
        invariant status == Done ==> Fits(items, |old(items)|, Planned(old(groupStack), cmds[..i]))
      {
        ghost var before := items;
        status := Step(cmds[i]);
        if status == Done {
          FitsStep(before, items, |old(items)|, old(groupStack), cmds, i);
        }
        i := i + 1;
      }
      if status == Done {
        assert cmds[..i] == cmds;
      }
    }

    /** One call of a closure: `add`, `raw` or a nested `group`. */
    method Step(c: Cmd) returns (status: Status)
      modifies this`items, this`nextId, this`groupStack
      modifies Objs(items)`attributes, Objs(items)`isActive, LinkObjs(items)`attributes, LinkObjs(items)`isActive
      ensures old(items) <= items
      ensures forall x :: x in items && x !in old(items) ==> fresh(x) && (x.link != null ==> fresh(x.link))
      ensures status == Done ==> groupStack == old(groupStack)
      ensures status != Done ==> old(groupStack) <= groupStack
      ensures status == Done ==> Fits(items, |old(items)|, PlannedOne(old(groupStack), c))
      decreases c, 2
    {
      match c {
        case AddItem(title, options) =>
          var item;
          ghost var xs, ts, st, lt;
          item, status, xs, ts, st, lt := Add(title, options);
        case AddRaw(title, options) =>
          var item;
          item, status := Raw(title, options);
        case Nest(attrs, body) =>
          status := Group(attrs, body);
      }
    }

    /** `Builder::group($attributes, $closure)`: the closure runs with the
        attributes, merged with the enclosing group, on top of the stack.
        The entry is popped when the closure returns; when it fails the
        entry stays, as there is no `finally`. */
    method Group(attrs: PArray, body: seq<Cmd>) returns (status: Status)
      modifies this`items, this`nextId, this`groupStack
      modifies Objs(items)`attributes, Objs(items)`isActive, LinkObjs(items)`attributes, LinkObjs(items)`isActive
      ensures old(items) <= items
      ensures forall x :: x in items && x !in old(items) ==> fresh(x) && (x.link != null ==> fresh(x.link))
      ensures status == Done ==> groupStack == old(groupStack)
      ensures status != Done ==> old(groupStack) < groupStack
      ensures status == Done ==> Fits(items, |old(items)|, Planned(Pushed(old(groupStack), attrs), body))
      decreases body, 1
    {
      UpdateGroupStack(attrs);
      status := Run(body);
      if status == Done {
        groupStack := groupStack[..|groupStack| - 1];
      }
    }

    // ----- lookups (Builder.php:109-174, 439-442, 816-844) -----

    /** The filter behind `where<Attr>`, on a property name already in lower case. */
    function FilterBy(name: string, x: Value): seq<Item>
      reads this`items, Objs(items), LinkObjs(items)
    {
      ItemsAt(items, WhereIdx(Views(items), name, x))
    }

    /** `where<Attr>($x)`: the items whose attribute (the lower-cased name)
        equals `x`, in list order. */
    function Where(attr: string, x: Value): seq<Item>
      reads this`items, Objs(items), LinkObjs(items)
    {
      FilterBy(Lower(attr), x)
    }

    lemma FilterByExact(name: string, x: Value, y: Item)
      ensures y in FilterBy(name, x) <==> y in items && Matches(y.View(), name, x)
    {
      var vs := Views(items);
      var idx := WhereIdx(vs, name, x);
      var r := ItemsAt(items, idx);
      if y in r {
        var k :| 0 <= k < |r| && r[k] == y;
        WhereIdxExact(vs, name, x, idx[k]);
      }
      if y in items && Matches(y.View(), name, x) {
        var j :| 0 <= j < |items| && items[j] == y;
        WhereIdxExact(vs, name, x, j);
        var k :| 0 <= k < |idx| && idx[k] == j;
        assert r[k] == y;
      }
    }

    /** The filter keeps exactly the items of the list whose property matches. */
    lemma WhereExact(attr: string, x: Value, y: Item)
      ensures y in Where(attr, x) <==> y in items && Matches(y.View(), Lower(attr), x)
    {
      FilterByExact(Lower(attr), x, y);
    }

    /** The filter keeps the list order. */
    lemma WhereOrdered(attr: string, x: Value, p: nat, q: nat)
      requires p < q < |Where(attr, x)|
      ensures exists i, j :: 0 <= i < j < |items| && Where(attr, x)[p] == items[i] && Where(attr, x)[q] == items[j]
    {
      var idx := WhereIdx(Views(items), Lower(attr), x);
      assert Where(attr, x)[p] == items[idx[p]] && Where(attr, x)[q] == items[idx[q]];
    }

    /** `whereParent($p)` through the ids alone. */
    function ChildrenOf(p: Value): (r: seq<Item>)
      reads this`items, Objs(items)`id
      ensures forall y :: y in r ==> y in items
    {
      ItemsAt(items, ChildIdx(NodesOf(items), p))
    }

    /** The children are the `whereParent` filter. */
    lemma ChildrenAreWhereParent(p: Value)
      ensures ChildrenOf(p) == FilterBy("parent", p)
    {
      var vs := Views(items);
      WhereParentIsChildIdx(vs, p);
      ShapeOfViews(items);
      assert ChildIdx(NodesOf(items), p) == WhereIdx(vs, "parent", p);
    }

    /** `find($id)`, and `whereId($id)->first()`. */
    function Find(x: Value): (r: Item?)
      reads this`items, Objs(items)`id
      ensures r != null ==> r in items && LooseEq(r.id, x)
      ensures r == null ==> forall j :: 0 <= j < |items| ==> !LooseEq(items[j].id, x)
    {
      match FirstId(NodesOf(items), x)
      case None => null
      case Some(j) => items[j]
    }

    /** `find` is the first item of the `whereId` filter. */
    lemma FindIsWhereIdFirst(x: Value)
      ensures FirstOf(FilterBy("id", x)) == Find(x)
    {
      var vs := Views(items);
      WhereIdIsFirstId(vs, x);
      ShapeOfViews(items);
      assert FirstId(Shape(vs), x) == FirstId(NodesOf(items), x);
    }

    /** `get($title)` and `item($title)`: `whereNickname($title)->first()`. */
    function GetItem(title: Value): Item?
      reads this`items, Objs(items), LinkObjs(items)
    {
      FirstOf(FilterBy("nickname", title))
    }

    /** The first item of the list, by position, whose view satisfies the filter. */
    lemma FirstOfFilter(name: string, x: Value)
      ensures FirstOf(FilterBy(name, x)) == null <==> forall j :: 0 <= j < |items| ==> !Matches(items[j].View(), name, x)
      ensures FirstOf(FilterBy(name, x)) != null ==>
        exists j :: 0 <= j < |items| && FirstOf(FilterBy(name, x)) == items[j] && Matches(items[j].View(), name, x) && forall i :: 0 <= i < j ==> !Matches(items[i].View(), name, x)
    {
      var vs := Views(items);
      WhereFirst(vs, name, x);
    }

    /** `get` finds the first item whose nickname equals the title. */
    lemma GetItemFirst(title: Value)
      ensures GetItem(title) == null <==> forall j :: 0 <= j < |items| ==> !LooseEq(items[j].nickname, title)
      ensures GetItem(title) != null ==>
        exists j :: 0 <= j < |items| && GetItem(title) == items[j] && LooseEq(items[j].nickname, title) && forall i :: 0 <= i < j ==> !LooseEq(items[i].nickname, title)
    {
      FirstOfFilter("nickname", title);
      forall j | 0 <= j < |items| ensures Matches(items[j].View(), "nickname", title) <==> LooseEq(items[j].nickname, title) {
        DeclaredMatches(items[j].View(), title);
      }
    }

    /** `active()`: `whereActive(true)->first()`. */
    function ActiveItem(): Item?
      reads this`items, Objs(items), LinkObjs(items)
    {
      FirstOf(FilterBy("active", Bool(true)))
    }

    /** `active()` finds the first item whose `active` flag is set. */
    lemma ActiveItemFirst()
      ensures ActiveItem() == null <==> forall j :: 0 <= j < |items| ==> !items[j].active
      ensures ActiveItem() != null ==>
        exists j :: 0 <= j < |items| && ActiveItem() == items[j] && items[j].active && forall i :: 0 <= i < j ==> !items[i].active
    {
      FirstOfFilter("active", Bool(true));
      forall j | 0 <= j < |items| ensures Matches(items[j].View(), "active", Bool(true)) <==> items[j].active {
        DeclaredMatches(items[j].View(), Bool(true));
      }
    }

    /** `roots()`: `whereParent()` with the null default. */
    function Roots(): seq<Item>
      reads this`items, Objs(items), LinkObjs(items)
    {
      FilterBy("parent", Null)
    }

    /** The roots are the items whose parent is loosely null. */
    lemma RootsExact(y: Item)
      ensures y in Roots() <==> y in items && LooseEq(y.parent, Null)
    {
      FilterByExact("parent", Null, y);
      DeclaredMatches(y.View(), Null);
    }

    /** `filterRecursive($name, $x)`, which `where<Attr>($x, $recursive)`
        calls with the lower-cased name when `$recursive` is truthy. As
        written its guard asks the builder for the property, which `__call`
        denies, so it finds nothing, on every menu. `None` when the nesting
        is deeper than `n` levels. */
    function FilterRecursiveAsWritten(name: string, x: Value, n: nat): (r: Option<seq<Item>>)
      reads this`items, Objs(items), LinkObjs(items)
      ensures r == Some([])
    {
      FilterRecursiveAsWrittenEmpty(Views(items), name, x, n);
      Some(ItemsAt(items, Tree.FilterRecursiveAsWritten(Views(items), name, x, n).value))
    }

    /** `filterRecursive($name, $x)` with the guard on the item, as the
        plain filter has it: for the parent attribute, every descendant of
        the item with id `x`, each followed by its own descendants. */
    function FilterRecursive(name: string, x: Value, n: nat): (r: Option<seq<Item>>)
      reads this`items, Objs(items), LinkObjs(items)
      ensures name == "parent" && Bounded(NodesOf(items), x, n) ==>
        r == Some(ItemsAt(items, Descendants(NodesOf(items), x, n)))
    {
      var vs := Views(items);
      ShapeOfViews(items);
      if name == "parent" && Bounded(NodesOf(items), x, n) then
        FilterRecursiveParent(vs, x, n);
        Some(ItemsAt(items, Descendants(NodesOf(items), x, n)))
      else
        match FilterRecursiveCorrected(vs, name, x, n)
        case None => None
        case Some(idx) => Some(ItemsAt(items, idx))
    }

    /** `first()` and `last()` of the list. */
    function FirstItem(): Item?
      reads this`items
    {
      if |items| > 0 then items[0] else null
    }

    function LastItem(): Item?
      reads this`items
    {
      if |items| > 0 then items[|items| - 1] else null
    }

    /** `dispatch($options)`. */
    function DispatchPath(options: PArray): Value
    {
      Dispatch(env, options)
    }

    // ----- sorting (Builder.php:467-497) -----

    /** `sortBy($sort_by, $sort_type)` with a property name: the items are
        reordered, none added or lost, so that each goes no later than the
        next by the closure's comparison, ascending exactly when
        `'asc' == $sort_type`. */
    method SortBy(name: string, sortType: Value, less: (Prop, Prop) -> bool)
      requires Asymmetric(less)
      modifies this`items
      ensures multiset(items) == multiset(old(items))
      ensures Ordered(Keyed(items, name), LooseEq(Str("asc"), sortType), less)
    {
      var ys := SortItems(items, name, LooseEq(Str("asc"), sortType), less);
      items := ys;
    }

    /** `sortBy($callable)`: the callable is handed the item list, and its
        result, wrapped in an array when it is not one, becomes the list. */
    method SortByCallback(result: SortResult)
      modifies this`items
      ensures result.ItemList? ==> items == result.xs
      ensures result.Single? ==> items == [result.x]
    {
      items := if result.ItemList? then result.xs else [result.x];
    }

    /** `filter($callback)`: with a callable, the items it keeps, in order;
        anything else changes nothing. */
    method Filter(keep: Option<ItemView -> bool>)
      modifies this`items
      ensures keep.None? ==> items == old(items)
      ensures keep.Some? ==> items == old(Filtered(items, keep.value))
    {
      if keep.Some? {
        items := Filtered(items, keep.value);
      }
    }

    // ----- derived menus (Builder.php:507-610) -----

    /** `takeCollection($collection)`. */
    method TakeCollection(xs: seq<Item>)
      modifies this`items
      ensures items == xs
    {
      items := xs;
    }

    /** `spawn($name, $collection)`: a new builder with this one's settings
        and the given items. */
    method Spawn(name: string, xs: seq<Item>) returns (nb: Builder)
      ensures fresh(nb) && nb.name == name && nb.conf == conf && nb.env == env
      ensures nb.items == xs && nb.groupStack == [] && nb.nextId == 0
    {
      nb := new Builder(name, conf, env);
      nb.TakeCollection(xs);
    }

    /** `topMenu()`: a builder named `topLevel` holding the roots. */
    method TopMenu() returns (nb: Builder)
      ensures fresh(nb) && nb.name == "topLevel" && nb.conf == conf && nb.env == env
      ensures nb.items == old(Roots())
    {
      nb := Spawn("topLevel", Roots());
    }

    /** `add($title, $url)`, with what the derived menus need to know of it:
        the new item has a link whose URL is `url` under the group prefix. */
    method AddPlain(title: string, url: Value) returns (item: Item, status: Status)
      modifies this`items, this`nextId
      modifies Objs(items)`attributes, Objs(items)`isActive, LinkObjs(items)`attributes, LinkObjs(items)`isActive
      ensures fresh(item) && item.link != null && fresh(item.link)
      ensures item.title == title
      ensures item.Url() == StartUrl(Plain(url), old(GetLastGroupPrefix()))
      ensures status == Done ==> items == old(items) + [item]
      ensures status != Done ==> items == old(items)
    {
      PlainHasPath(url);
      ghost var st, xs, ts, lt;
      item, status, xs, ts, st, lt := Add(title, Plain(url));
    }

    /** `$nb->add($s->title, $s->url())` for each entry in turn, on the new
        builder of a derived menu; an `add` that fails or does not end stops
        the run. When every `add` ends normally, there is one item per
        entry, with the entry's title and a link to the entry's URL. */
    method AddEach(es: seq<(string, Value)>) returns (status: Status)
      requires items == [] && groupStack == []
      modifies this`items, this`nextId
      ensures Made(this, status, es)
    {
      var i := 0;
      status := Done;
      ghost var cs := Copied(es);
      while i < |es|
        invariant 0 <= i <= |es|
        invariant |items| == i && groupStack == []
        invariant Entries(items) == cs[..i]
        invariant forall k :: 0 <= k < |items| ==> fresh(items[k]) && (items[k].link != null ==> fresh(items[k].link))
      {
        var item, st := AddEntry(es[i], cs[..i]);
        if st != Done {
          status := st;
          return;
        }
        TakeSnoc(cs, i);
        i := i + 1;
      }
      assert cs[..i] == cs;
    }

    /** One `add` of `AddEach`: the entries so far gain the new one. */
    method AddEntry(e: (string, Value), ghost done: seq<(string, Value)>) returns (item: Item, status: Status)
      requires groupStack == [] && Entries(items) == done
      modifies this`items, this`nextId
      modifies Objs(items)`attributes, Objs(items)`isActive, LinkObjs(items)`attributes, LinkObjs(items)`isActive
      ensures fresh(item) && item.link != null && fresh(item.link)
      ensures status == Done ==> items == old(items) + [item] && Entries(items) == done + [(e.0, StartUrl(Plain(e.1), Null))]
      ensures status != Done ==> items == old(items)
    {
      ghost var before := items;
      item, status := AddPlain(e.0, e.1);
      if status == Done {
        assert Entries(before) == done;
        EntriesSnoc(before, item);
      }
    }

    /** A URL copied into a derived menu comes back unchanged when it is
        absolute; a relative one is regenerated from the root, and a null
        one gives no URL. */
    lemma CopiedUrl(u: string)
      ensures IsAbs(env, Str(u)) ==> StartUrl(Plain(Str(u)), Null) == Str(u)
      ensures !IsAbs(env, Str(u)) ==> StartUrl(Plain(Str(u)), Null) == Str(env.to("/" + u, [], None))
      ensures StartUrl(Plain(Null), Null) == Null
    {
      CopiedStrUrl(u);
      CopiedNullUrl();
    }

    lemma CopiedStrUrl(u: string)
      ensures IsAbs(env, Str(u)) ==> StartUrl(Plain(Str(u)), Null) == Str(u)
      ensures !IsAbs(env, Str(u)) ==> StartUrl(Plain(Str(u)), Null) == Str(env.to("/" + u, [], None))
    {
      PlainOptionIsUrl(Str(u));
      var path := Put([(UrlKey, Str(u))], PrefixKey, Null);
      assert Get(path, UrlKey) == Str(u) && Get(path, PrefixKey) == Null && !IsSet(path, SecureKey);
      DispatchUrl(env, path, u);
      assert ToStr(Null) + "/" + u == "/" + u;
    }

    lemma CopiedNullUrl()
      ensures StartUrl(Plain(Null), Null) == Null
    {
      PlainOptionIsUrl(Null);
      var none := Put([(UrlKey, Null)], PrefixKey, Null);
      assert !IsSet(none, UrlKey) && !IsSet(none, RouteKey) && !IsSet(none, ActionKey);
    }

    /** The entries a derived menu ends with: each title, and the URL the
        copied URL dispatches to with no group prefix. */
    function Copied(es: seq<(string, Value)>): (r: seq<(string, Value)>)
      ensures |r| == |es|
      ensures forall k :: 0 <= k < |es| ==> r[k] == (es[k].0, StartUrl(Plain(es[k].1), Null))
    {
      seq(|es|, k requires 0 <= k < |es| => (es[k].0, StartUrl(Plain(es[k].1), Null)))
    }

    /** `subMenu()`: a builder named `subMenu` holding one new item per
        child of the active item, with the child's title; an error when no
        item is active. */
    method SubMenu() returns (nb: Builder, status: Status)
      ensures fresh(nb) && nb.name == "subMenu" && nb.conf == conf && nb.env == env
      ensures old(ActiveItem()) == null ==> status == Thrown
      ensures old(ActiveItem()) != null ==> Made(nb, status, old(Entries(ActiveItem().Children())))
    {
      var act := ActiveItem();
      var es := if act == null then [] else Entries(act.Children());
      nb := Spawn("subMenu", []);
      if act == null {
        status := Thrown;
        return;
      }
      status := nb.AddEach(es);
    }

    /** `siblingMenu()`: a builder named `siblingMenu` holding one new item
        per sibling of the active item (the children of its parent, or the
        roots when it has no parent item), with the sibling's title, when
        there is more than one; an error when no item is active. */
    method SiblingMenu() returns (nb: Builder, status: Status)
      ensures fresh(nb) && nb.name == "siblingMenu" && nb.conf == conf && nb.env == env
      ensures old(ActiveItem()) == null ==> status == Thrown
      ensures old(ActiveItem()) != null && old(ActiveItem().ParentItem()) != null ==>
        MadeIfMany(nb, status, old(Entries(ActiveItem().ParentItem().Children())))
      ensures old(ActiveItem()) != null && old(ActiveItem().ParentItem()) == null ==>
        MadeIfMany(nb, status, old(Entries(Roots())))
    {
      var act := ActiveItem();
      var es: seq<(string, Value)> := [];
      if act != null {
        var parent := act.ParentItem();
        es := if parent != null then Entries(parent.Children()) else Entries(Roots());
      }
      nb := Spawn("siblingMenu", []);
      if act == null {
        status := Thrown;
        return;
      }
      status := Done;
      if |es| > 1 {
        status := nb.AddEach(es);
      }
    }

    ghost predicate MadeIfMany(nb: Builder, status: Status, es: seq<(string, Value)>)
      reads nb`items, Objs(nb.items)`title, LinkObjs(nb.items)`href, LinkObjs(nb.items)`path
    {
      if |es| > 1 then Made(nb, status, es) else status == Done && nb.items == []
    }

    /** `crumbMenu()`: a builder named `crumbMenu` holding one new item per
        crumb of the active item (the first item whose `active` flag is set),
        from the topmost ancestor down to the item itself, with the crumb's
        title. An error when no item is active or a parent id matches no
        item; no end on a cycle of parent ids. Parents are looked up in this
        builder, so every item is taken to belong to it. */
    method CrumbMenu() returns (nb: Builder, status: Status)
      requires Owned()
      ensures fresh(nb) && nb.name == "crumbMenu" && nb.conf == conf && nb.env == env
      ensures var w := old(WhereIdx(Views(items), "active", Bool(true)));
        (|w| == 0 ==> status == Thrown) &&
        (|w| > 0 ==> var c := CrumbsOf(old(NodesOf(items)), w[0]);
          (c.Broken? ==> status == Thrown) &&
          (c.Loops? ==> status == Diverges) &&
          (c.Path? ==> Made(nb, status, old(Entries(ItemsAt(items, c.idx))))))
    {
      var all := Entries(items);
      var ns := NodesOf(items);
      var w := WhereIdx(Views(items), "active", Bool(true));
      if |w| == 0 {
        nb := Spawn("crumbMenu", []);
        status := Thrown;
        return;
      }
      ghost var c := CrumbsOf(ns, w[0]);
      if c.Path? {
        EntriesAt(items, c.idx);
      }
      var chain, outcome := CrumbLoop(ns, w[0]);
      var es := if outcome == Done then ItemsAt(all, chain) else [];
      nb := Spawn("crumbMenu", []);
      status := outcome;
      if outcome == Done {
        status := nb.AddEach(es);
      }
    }

    /** The new builder of a derived menu after the adds, when they all
        ended normally: one item per entry, with the entry's title, whose
        link has the entry's URL as its `url` option and no prefix. */
    ghost predicate Made(nb: Builder, status: Status, es: seq<(string, Value)>)
      reads nb`items, Objs(nb.items)`title, LinkObjs(nb.items)`href, LinkObjs(nb.items)`path
    {
      status == Done ==> (|nb.items| == |es| &&
        forall k :: 0 <= k < |es| ==> nb.items[k].title == es[k].0 && nb.items[k].Url() == nb.StartUrl(Plain(es[k].1), Null))
    }

    // ----- rendering (Builder.php:612-709) -----

    /** The fixed inputs of a `render` run over this builder's items: the
        recursion walks this builder's list, while each item's
        `hasChildren()` is asked of the builder that created it. */
    function RenderInputs(kind: string, callback: Option<(ItemView, CbArgs) -> CbArgs>): (ctx: RenderCtx)
      reads this`items, Objs(items), LinkObjs(items), BuildersOf(items)`items, Kin(items)`id
      ensures WellFormed(ctx) && Shape(ctx.vs) == NodesOf(items)
      ensures forall i :: 0 <= i < |items| ==> ctx.vs[i] == items[i].View() && ctx.kids[i] == items[i].HasChildren()
    {
      ShapeOfViews(items);
      RenderCtx(env, Views(items), KidFlags(items), kind, callback)
    }

    /** On a builder that created all its items the flags are the children
        found in this list, so every nested element has content. */
    lemma OwnedKids(kind: string, callback: Option<(ItemView, CbArgs) -> CbArgs>)
      requires Owned()
      ensures var ctx := RenderInputs(kind, callback);
        forall i :: 0 <= i < |items| ==> (ctx.kids[i] <==> |ChildIdx(Shape(ctx.vs), ctx.vs[i].id)| > 0)
    {
      var ctx := RenderInputs(kind, callback);
      forall i | 0 <= i < |items|
        ensures ctx.kids[i] <==> |ChildIdx(Shape(ctx.vs), ctx.vs[i].id)| > 0
      {
        assert items[i].builder == this;
        assert |items[i].Children()| == |ChildIdx(NodesOf(items), items[i].id)|;
      }
    }

    /** `render($type, $parent, ...)` on this builder. */
    method Render(kind: string, parent: Value, st: CbArgs, callback: Option<(ItemView, CbArgs) -> CbArgs>, ghost ctx: RenderCtx, ghost n: nat) returns (s: string)
      requires ctx == RenderInputs(kind, callback)
      requires Bounded(Shape(ctx.vs), parent, n)
      ensures s == Tree.Render(ctx, parent, st, n)
    {
      s := RenderLevel(RenderInputs(kind, callback), parent, st, n);
    }

    /** `asUl`, `asOl` and `asDiv`: the roots rendered inside the outer element. */
    method AsUl(attrs: PArray, st: CbArgs, callback: Option<(ItemView, CbArgs) -> CbArgs>, ghost n: nat) returns (s: string)
      requires Bounded(NodesOf(items), Null, n)
      ensures s == Wrapped(old(RenderInputs("ul", callback)), attrs, st, n)
    {
      s := AsKind("ul", attrs, st, callback, RenderInputs("ul", callback), n);
    }

    method AsOl(attrs: PArray, st: CbArgs, callback: Option<(ItemView, CbArgs) -> CbArgs>, ghost n: nat) returns (s: string)
      requires Bounded(NodesOf(items), Null, n)
      ensures s == Wrapped(old(RenderInputs("ol", callback)), attrs, st, n)
    {
      s := AsKind("ol", attrs, st, callback, RenderInputs("ol", callback), n);
    }

    method AsDiv(attrs: PArray, st: CbArgs, callback: Option<(ItemView, CbArgs) -> CbArgs>, ghost n: nat) returns (s: string)
      requires Bounded(NodesOf(items), Null, n)
      ensures s == Wrapped(old(RenderInputs("div", callback)), attrs, st, n)
    {
      s := AsKind("div", attrs, st, callback, RenderInputs("div", callback), n);
    }

    method AsKind(kind: string, attrs: PArray, st: CbArgs, callback: Option<(ItemView, CbArgs) -> CbArgs>, ghost ctx: RenderCtx, ghost n: nat) returns (s: string)
      requires ctx == RenderInputs(kind, callback)
      requires Bounded(Shape(ctx.vs), Null, n)
      ensures s == Wrapped(ctx, attrs, st, n)
    {
      var body := Render(kind, Null, st, callback, ctx, n);
      s := "<" + kind + AttrString(env.escape, attrs) + ">" + body + "</" + kind + ">";
    }
  }

  /** The climb of `activate()` above a parent id `p`: none when
      `activate_parents` is off. */
  function ChainFrom(b: Builder, p: Value): (r: Climb)
    reads b`items, Objs(b.items)`id
    ensures forall k :: 0 <= k < |r.idx| ==> r.idx[k] < |b.items|
  {
    if b.ActivatesParents() then Ancestors(NodesOf(b.items), p, {}) else Climb([], false)
  }

  /** The targets of `activate()` in order, up to the first one met twice;
      `loops` when the parent ids lead back to one of them. */
  datatype Ascent = Ascent(targets: seq<Item>, loops: bool)

  /** The walk of `activate()` never ends: it goes round a cycle, and no
      target stops it with an error, as a target without a link does in
      link mode. */
  predicate Endless(ts: Ascent, onItem: bool)
  {
    ts.loops && (onItem || Linked(ts.targets) == |ts.targets|)
  }

  /** How often the walk of `activate` in link mode reaches the link `l`: it
      goes through the targets in order and stops at the first one without
      a link. */
  function LinkHits(ts: seq<Item>, l: Link): nat
  {
    if |ts| == 0 || ts[0].link == null then 0
    else (if ts[0].link == l then 1 else 0) + LinkHits(ts[1..], l)
  }

  lemma {:induction false} LinkHitsAppend(a: seq<Item>, b: seq<Item>, l: Link)
    requires forall j :: 0 <= j < |a| ==> a[j].link != null
    ensures LinkHits(a + b, l) == LinkHits(a, l) + LinkHits(b, l)
    decreases |a|
  {
    if |a| == 0 {
      assert a + b == b;
    } else {
      assert (a + b)[1..] == a[1..] + b;
      LinkHitsAppend(a[1..], b, l);
    }
  }

  /** The attributes and `isActive` flag of each item, in list order: the
      snapshot the activation contracts compare. */
  function States(xs: seq<Item>): (r: seq<(PArray, bool)>)
    reads Objs(xs)`attributes, Objs(xs)`isActive
    ensures |r| == |xs|
    ensures forall i :: 0 <= i < |xs| ==> r[i] == (xs[i].attributes, xs[i].isActive)
  {
    if |xs| == 0 then [] else [(xs[0].attributes, xs[0].isActive)] + States(xs[1..])
  }

  /** The same for the link of each item, `None` where there is none. */
  function LinkStates(xs: seq<Item>): (r: seq<Option<(PArray, bool)>>)
    reads LinkObjs(xs)`attributes, LinkObjs(xs)`isActive
    ensures |r| == |xs|
    ensures forall i :: 0 <= i < |xs| ==>
      r[i] == if xs[i].link == null then None else Some((xs[i].link.attributes, xs[i].link.isActive))
  {
    if |xs| == 0 then []
    else
      (if xs[0].link == null then [None] else [Some((xs[0].link.attributes, xs[0].link.isActive))]) + LinkStates(xs[1..])
  }

  lemma StatesCons(x: Item, xs: seq<Item>)
    ensures States([x] + xs) == [(x.attributes, x.isActive)] + States(xs)
  {
    assert ([x] + xs)[1..] == xs;
  }

  twostate lemma {:induction false} StatesFrame(xs: seq<Item>)
    requires forall i :: 0 <= i < |xs| ==> old(allocated(xs[i])) && unchanged(xs[i])
    ensures States(xs) == old(States(xs))
  {
    if |xs| > 0 {
      StatesFrame(xs[1..]);
    }
  }

  twostate lemma {:induction false} NodesOfFrame(xs: seq<Item>)
    requires forall i :: 0 <= i < |xs| ==> old(allocated(xs[i])) && unchanged(xs[i])
    ensures NodesOf(xs) == old(NodesOf(xs))
  {
    if |xs| > 0 {
      NodesOfFrame(xs[1..]);
    }
  }

  lemma LinkStatesCons(x: Item, xs: seq<Item>)
    ensures LinkStates([x] + xs) == [if x.link == null then None else Some((x.link.attributes, x.link.isActive))] + LinkStates(xs)
  {
    assert ([x] + xs)[1..] == xs;
  }

  /** The link states of `xs` only read the links' fields. */
  twostate lemma {:induction false} LinkStatesFrame(xs: seq<Item>)
    requires forall i :: 0 <= i < |xs| && xs[i].link != null ==> old(allocated(xs[i].link)) && unchanged(xs[i].link)
    ensures LinkStates(xs) == old(LinkStates(xs))
  {
    if |xs| > 0 {
      LinkStatesFrame(xs[1..]);
    }
  }

  /** The state `v` of the item `x` after the loop of `activate` in item
      mode walked the targets `ups`: the item took its builder's active
      class once per time it occurs there, and is active when it occurs
      there. */
  function ItemAfter(v: (PArray, bool), x: Item, ups: seq<Item>): (PArray, bool)
  {
    (Marked(v.0, x.builder.ActiveClass(), Count(ups, x)), v.1 || x in ups)
  }

  /** The state `v` of the link of `x` after the loop of `activate` in link
      mode walked the targets `ups`: the link took its builder's active
      class once per time the walk reached it. */
  function LinkAfter(v: Option<(PArray, bool)>, x: Item, ups: seq<Item>): Option<(PArray, bool)>
  {
    if x.link == null || v.None? then v
    else Some((Marked(v.value.0, x.link.builder.ActiveClass(), LinkHits(ups, x.link)), v.value.1 || LinkHits(ups, x.link) > 0))
  }

  function ItemsAfter(st: seq<(PArray, bool)>, xs: seq<Item>, ups: seq<Item>): (r: seq<(PArray, bool)>)
    requires |st| == |xs|
    ensures |r| == |xs|
    ensures forall i :: 0 <= i < |xs| ==> r[i] == ItemAfter(st[i], xs[i], ups)
  {
    if |xs| == 0 then [] else [ItemAfter(st[0], xs[0], ups)] + ItemsAfter(st[1..], xs[1..], ups)
  }

  function LinksAfter(lt: seq<Option<(PArray, bool)>>, xs: seq<Item>, ups: seq<Item>): (r: seq<Option<(PArray, bool)>>)
    requires |lt| == |xs|
    ensures |r| == |xs|
    ensures forall i :: 0 <= i < |xs| ==> r[i] == LinkAfter(lt[i], xs[i], ups)
  {
    if |xs| == 0 then [] else [LinkAfter(lt[0], xs[0], ups)] + LinksAfter(lt[1..], xs[1..], ups)
  }

  /** Nothing in the items `xs` and their links changed from `st` and `lt`. */
  predicate Kept(xs: seq<Item>, st: seq<(PArray, bool)>, lt: seq<Option<(PArray, bool)>>)
    reads Objs(xs)`attributes, Objs(xs)`isActive, LinkObjs(xs)`attributes, LinkObjs(xs)`isActive
  {
    States(xs) == st && LinkStates(xs) == lt
  }

  /** The items `xs` and their links after `activate` walked the targets
      `ups`, from the states `st` and `lt`: in item mode the items took the
      class and the links kept their state; in link mode the other way
      round. */
  predicate ActivatedBy(xs: seq<Item>, ups: seq<Item>, onItem: bool, st: seq<(PArray, bool)>, lt: seq<Option<(PArray, bool)>>)
    requires |st| == |xs| && |lt| == |xs|
    reads Objs(xs)`attributes, Objs(xs)`isActive, LinkObjs(xs)`attributes, LinkObjs(xs)`isActive
  {
    States(xs) == (if onItem then ItemsAfter(st, xs, ups) else st) &&
    LinkStates(xs) == (if onItem then lt else LinksAfter(lt, xs, ups))
  }

  /** Only links of the targets are reached. */
  lemma {:induction false} LinkHitsIn(ts: seq<Item>, l: Link)
    ensures LinkHits(ts, l) > 0 ==> l in LinkObjs(ts)
  {
    if |ts| > 0 && ts[0].link != null {
      LinkHitsIn(ts[1..], l);
      if LinkHits(ts[1..], l) > 0 {
        var y :| y in ts[1..] && y.link == l;
        assert y in ts;
      }
    }
  }

  lemma CountSnoc(s: seq<Item>, k: nat)
    requires k < |s|
    ensures forall x :: Count(s[..k + 1], x) == Count(s[..k], x) + if s[k] == x then 1 else 0
  {
    assert s[..k + 1] == s[..k] + [s[k]];
    assert [s[k]][1..] == [];
    forall x ensures Count(s[..k + 1], x) == Count(s[..k], x) + if s[k] == x then 1 else 0 {
      CountAppend(s[..k], [s[k]], x);
    }
  }

  /** The walk of `activate` in item mode: each target takes the class, and
      the first target's `active` flag goes up. */
  method RaiseItems(self: Item, ts: seq<Item>, ghost xs: seq<Item>)
    modifies self`active, Objs(ts)`attributes, Objs(ts)`isActive
    ensures ActivatedBy(xs, ts, true, old(States(xs)), old(LinkStates(xs)))
    ensures self.active
  {
    MarkItems(ts, xs);
    assert LinkStates(xs) == old(LinkStates(xs));
    self.active := true;
  }

  /** The walk of `activate` in link mode: the links take the class up to
      the first target without one, `k` targets in all, and the first
      target's `active` flag goes up when it has a link. */
  method RaiseLinks(self: Item, ts: seq<Item>, ghost xs: seq<Item>, raise: bool) returns (k: nat)
    modifies self`active, LinkObjs(ts)`attributes, LinkObjs(ts)`isActive
    ensures ActivatedBy(xs, ts, false, old(States(xs)), old(LinkStates(xs)))
    ensures self.active == (old(self.active) || raise)
    ensures k == Linked(ts)
  {
    k := MarkLinks(ts, xs);
    assert States(xs) == old(States(xs));
    self.active := self.active || raise;
  }

  /** The loop of `activate` in item mode: `active()` on each target. */
  method MarkItems(ts: seq<Item>, ghost xs: seq<Item>)
    modifies Objs(ts)`attributes, Objs(ts)`isActive
    ensures States(xs) == ItemsAfter(old(States(xs)), xs, ts)
  {
    WalkItems(ts, Objs(xs));
    ghost var st := old(States(xs));
    forall i | 0 <= i < |xs| ensures States(xs)[i] == ItemsAfter(st, xs, ts)[i] {
      assert xs[i] in Objs(xs);
      CountIn(ts, xs[i]);
    }
  }

  /** The loop itself, on each item of `xs`. */
  method WalkItems(ts: seq<Item>, ghost xs: set<Item>)
    modifies Objs(ts)`attributes, Objs(ts)`isActive
    ensures forall x :: x in xs ==> x.attributes == Marked(old(x.attributes), x.builder.ActiveClass(), Count(ts, x))
    ensures forall x :: x in xs ==> x.isActive == (old(x.isActive) || Count(ts, x) > 0)
  {
    var k := 0;
    while k < |ts|
      invariant 0 <= k <= |ts|
      invariant forall x :: x in xs ==> x.attributes == Marked(old(x.attributes), x.builder.ActiveClass(), Count(ts[..k], x))
      invariant forall x :: x in xs ==> x.isActive == (old(x.isActive) || Count(ts[..k], x) > 0)
    {
      var t := ts[k];
      assert t in ts;
      CountSnoc(ts, k);
      label Before:
      t.MarkActive();
      forall x | x in xs
        ensures x.attributes == Marked(old(x.attributes), x.builder.ActiveClass(), Count(ts[..k + 1], x))
      {
        if x == t {
          MarkStep(old(x.attributes), x.builder.ActiveClass(), Count(ts[..k], x), old@Before(x.attributes), x.attributes);
        } else {
          assert x.attributes == old@Before(x.attributes);
          assert Count(ts[..k + 1], x) == Count(ts[..k], x);
        }
      }
      forall x | x in xs ensures x.isActive == (old(x.isActive) || Count(ts[..k + 1], x) > 0) {
        if x != t {
          assert x.isActive == old@Before(x.isActive);
        }
      }
      k := k + 1;
    }
    assert ts[..k] == ts;
  }

  /** The targets of `activate()` for the item `it` in front of `xs`
      along the climb `chain`. */
  function TargetsFrom(it: Item, xs: seq<Item>, chain: Climb): Ascent
    requires forall k :: 0 <= k < |chain.idx| ==> chain.idx[k] < |xs|
  {
    Ascent([it] + ItemsAt(xs, chain.idx), chain.loops)
  }

  function LinkOpt(l: Link?): set<Link>
  {
    if l == null then {} else {l}
  }

  /** The loop of `activate` in link mode: `link->active()` on each target,
      up to the first target without a link, where the source fails. */
  method MarkLinks(ts: seq<Item>, ghost xs: seq<Item>) returns (k: nat)
    modifies LinkObjs(ts)`attributes, LinkObjs(ts)`isActive
    ensures k == Linked(ts)
    ensures LinkStates(xs) == LinksAfter(old(LinkStates(xs)), xs, ts)
  {
    k := WalkLinks(ts, LinkObjs(xs));
    ghost var lt := old(LinkStates(xs));
    forall i | 0 <= i < |xs| ensures LinkStates(xs)[i] == LinksAfter(lt, xs, ts)[i] {
      if xs[i].link != null {
        assert xs[i] in xs;
        assert xs[i].link in LinkObjs(xs);
      }
    }
  }

  /** The loop itself, on each link of `ls`. */
  method WalkLinks(ts: seq<Item>, ghost ls: set<Link>) returns (k: nat)
    modifies LinkObjs(ts)`attributes, LinkObjs(ts)`isActive
    ensures k == Linked(ts)
    ensures forall l :: l in ls ==> l.attributes == Marked(old(l.attributes), l.builder.ActiveClass(), LinkHits(ts, l))
    ensures forall l :: l in ls ==> l.isActive == (old(l.isActive) || LinkHits(ts, l) > 0)
  {
    var n := Linked(ts);
    k := 0;
    while k < n
      invariant 0 <= k <= n
      invariant forall l :: l in ls ==> l.attributes == Marked(old(l.attributes), l.builder.ActiveClass(), LinkHits(ts[..k], l))
      invariant forall l :: l in ls ==> l.isActive == (old(l.isActive) || LinkHits(ts[..k], l) > 0)
    {
      var t := ts[k].link;
      assert ts[k] in ts;
      LinkHitsSnoc(ts, k);
      label Before:
      t.Active();
      forall l | l in ls
        ensures l.attributes == Marked(old(l.attributes), l.builder.ActiveClass(), LinkHits(ts[..k + 1], l))
      {
        if l == t {
          var c := LinkHits(ts[..k], l);
          var prev := old@Before(l.attributes);
          assert prev == Marked(old(l.attributes), l.builder.ActiveClass(), c);
          assert l.attributes == AddClass(prev, l.builder.ActiveClass());
          assert LinkHits(ts[..k + 1], l) == c + 1;
          MarkedSucc(old(l.attributes), l.builder.ActiveClass(), c);
        } else {
          assert l.attributes == old@Before(l.attributes);
          assert LinkHits(ts[..k + 1], l) == LinkHits(ts[..k], l);
        }
      }
      forall l | l in ls ensures l.isActive == (old(l.isActive) || LinkHits(ts[..k + 1], l) > 0) {
        if l != t {
          assert l.isActive == old@Before(l.isActive);
        }
      }
      k := k + 1;
    }
    LinkHitsLinked(ts);
  }

  lemma LinkHitsSnoc(ts: seq<Item>, k: nat)
    requires k < Linked(ts)
    ensures forall l :: LinkHits(ts[..k + 1], l) == LinkHits(ts[..k], l) + if ts[k].link == l then 1 else 0
  {
    assert ts[..k + 1] == ts[..k] + [ts[k]];
    assert [ts[k]][1..] == [];
    forall l ensures LinkHits(ts[..k + 1], l) == LinkHits(ts[..k], l) + if ts[k].link == l then 1 else 0 {
      LinkHitsAppend(ts[..k], [ts[k]], l);
    }
  }

  /** The walk stops at the end of the linked prefix. */
  lemma LinkHitsLinked(ts: seq<Item>)
    ensures forall l :: LinkHits(ts, l) == LinkHits(ts[..Linked(ts)], l)
  {
    var k := Linked(ts);
    assert ts == ts[..k] + ts[k..];
    forall l ensures LinkHits(ts, l) == LinkHits(ts[..k], l) {
      LinkHitsAppend(ts[..k], ts[k..], l);
    }
  }


  /** The id `add` gives an item: the `id` option when set, else the fresh
      id numbered `next`. */
  function NewId(options: Arg, next: nat): Value
  {
    if OptionGet(options, IdKey) != Null then OptionGet(options, IdKey) else FreshId(next)
  }

  /** The fresh ids that stand in for `uniqid()`. */
  function FreshId(k: nat): Value
  {
    Str("id-" + NatToString(k))
  }

  /** The fresh ids never repeat: two counters give the same id only when
      they are equal. */
  lemma FreshIdInjective(k: nat, m: nat)
    ensures FreshId(k) == FreshId(m) <==> k == m
  {
    if FreshId(k) == FreshId(m) {
      assert NatToString(k) == FreshId(k).s[3..];
      assert NatToString(m) == FreshId(m).s[3..];
      NatToStringInjective(k, m);
    }
  }

  /** The state of the link of a new item: none, or no attributes and not active. */
  function FreshLinkState(it: Item): Option<(PArray, bool)>
  {
    var none: PArray := [];
    if it.link == null then None else Some((none, false))
  }

  /** The targets `ts` and `ups` reach each item of `xs` alike. */
  lemma {:induction false} ItemsAfterSame(st: seq<(PArray, bool)>, xs: seq<Item>, ts: seq<Item>, ups: seq<Item>)
    requires |st| == |xs|
    requires forall x :: x in xs ==> Count(ts, x) == Count(ups, x) && (x in ts) == (x in ups)
    ensures ItemsAfter(st, xs, ts) == ItemsAfter(st, xs, ups)
  {
    if |xs| > 0 {
      assert xs[0] in xs;
      assert forall x :: x in xs[1..] ==> x in xs;
      ItemsAfterSame(st[1..], xs[1..], ts, ups);
    }
  }

  /** Item mode, for a new item `it` placed in front of the items `xs`
      already there: the item takes the class once and the others are
      reached through `ups` alone. */
  lemma FreshItemsAfter(it: Item, xs: seq<Item>, ups: seq<Item>, st: seq<(PArray, bool)>)
    requires it !in xs && (forall x :: x in ups ==> x in xs)
    requires |st| == |xs| + 1
    ensures ItemsAfter(st, [it] + xs, [it] + ups) == [(AddClass(st[0].0, it.builder.ActiveClass()), true)] + ItemsAfter(st[1..], xs, ups)
  {
    var ts := [it] + ups;
    var ys := [it] + xs;
    assert ts[1..] == ups && ys[1..] == xs;
    FreshItemHead(it, ups, st[0]);
    forall x | x in xs ensures Count(ts, x) == Count(ups, x) && (x in ts) == (x in ups) {
      assert x != it;
    }
    ItemsAfterSame(st[1..], xs, ts, ups);
  }

  lemma FreshItemHead(it: Item, ups: seq<Item>, v: (PArray, bool))
    requires it !in ups
    ensures ItemAfter(v, it, [it] + ups) == (AddClass(v.0, it.builder.ActiveClass()), true)
  {
    var ts := [it] + ups;
    assert ts[1..] == ups;
    CountIn(ups, it);
    assert Count(ts, it) == 1;
    assert Marked(v.0, it.builder.ActiveClass(), 1) == AddClass(v.0, it.builder.ActiveClass());
  }

  /** Link mode, for a new item `it` placed in front of the items `xs`: a
      new item without a link stops the walk at once; with one, its link
      takes the class once and the others are reached through `ups`. */
  lemma FreshLinksAfter(it: Item, xs: seq<Item>, ups: seq<Item>, lt: seq<Option<(PArray, bool)>>)
    requires it.link == null || it.link !in LinkObjs(xs)
    requires forall x :: x in ups ==> x in xs
    requires |lt| == |xs| + 1
    ensures it.link == null ==> LinksAfter(lt, [it] + xs, [it] + ups) == lt
    ensures it.link != null && lt[0].Some? ==>
      LinksAfter(lt, [it] + xs, [it] + ups) == [Some((AddClass(lt[0].value.0, it.link.builder.ActiveClass()), true))] + LinksAfter(lt[1..], xs, ups)
    ensures it.link != null ==> Linked([it] + ups) == 1 + Linked(ups)
  {
    var ts := [it] + ups;
    var ys := [it] + xs;
    assert ts[1..] == ups && ys[1..] == xs;
    if it.link == null {
      LinksAfterNone(lt, ys, ts);
    } else {
      forall l | l in LinkObjs(ups) ensures l in LinkObjs(xs) {
        var y :| y in ups && y.link != null && y.link == l;
        assert y in xs;
      }
      LinkHitsIn(ups, it.link);
      forall x | x in xs && x.link != null ensures LinkHits(ts, x.link) == LinkHits(ups, x.link) {
        assert x.link in LinkObjs(xs);
      }
      LinksAfterSame(lt[1..], xs, ts, ups);
      if lt[0].Some? {
        FreshLinkHead(it, ups, lt[0]);
        assert LinksAfter(lt, ys, ts) == [LinkAfter(lt[0], it, ts)] + LinksAfter(lt[1..], xs, ts);
      }
    }
  }

  /** Targets that reach none of the links of `xs` leave them as they were. */
  lemma {:induction false} LinksAfterNone(lt: seq<Option<(PArray, bool)>>, xs: seq<Item>, ts: seq<Item>)
    requires |lt| == |xs|
    requires |ts| > 0 && ts[0].link == null
    ensures LinksAfter(lt, xs, ts) == lt
  {
    if |xs| > 0 {
      LinksAfterNone(lt[1..], xs[1..], ts);
      assert lt == [lt[0]] + lt[1..];
    }
  }

  /** The targets `ts` and `ups` reach each link of `xs` alike. */
  lemma {:induction false} LinksAfterSame(lt: seq<Option<(PArray, bool)>>, xs: seq<Item>, ts: seq<Item>, ups: seq<Item>)
    requires |lt| == |xs|
    requires forall x :: x in xs && x.link != null ==> LinkHits(ts, x.link) == LinkHits(ups, x.link)
    ensures LinksAfter(lt, xs, ts) == LinksAfter(lt, xs, ups)
  {
    if |xs| > 0 {
      assert xs[0] in xs;
      assert forall x :: x in xs[1..] ==> x in xs;
      LinksAfterSame(lt[1..], xs[1..], ts, ups);
    }
  }

  lemma FreshLinkHead(it: Item, ups: seq<Item>, v: Option<(PArray, bool)>)
    requires it.link != null && v.Some? && LinkHits(ups, it.link) == 0
    ensures LinkAfter(v, it, [it] + ups) == Some((AddClass(v.value.0, it.link.builder.ActiveClass()), true))
  {
    var ts := [it] + ups;
    assert ts[1..] == ups;
    assert LinkHits(ts, it.link) == 1;
    assert Marked(v.value.0, it.link.builder.ActiveClass(), 1) == AddClass(v.value.0, it.link.builder.ActiveClass());
  }

  /** `Collection::first()`. */
  function FirstOf(r: seq<Item>): Item?
  {
    if |r| > 0 then r[0] else null
  }

  /** The options `Item::add` passes to the builder: a non-array option
      becomes `['url' => $options]`, and `parent` is set to `p`. */
  function ChildOptions(options: Arg, p: Value): PArray
  {
    var a: PArray := if AsArray(options).Some? then AsArray(options).value else [(UrlKey, options.v)];
    Put(a, ParentKey, p)
  }

  /** The child's options name `p` as the parent and keep the link choice. */
  lemma ChildOptionsKeys(options: Arg, p: Value)
    ensures ParentOption(Arr(ChildOptions(options, p))) == p
    ensures PathOption(Arr(ChildOptions(options, p))).None? <==> PathOption(options).None?
  {
    var a: PArray := if AsArray(options).Some? then AsArray(options).value else [(UrlKey, options.v)];
    PutGet(a, ParentKey, p, ParentKey);
    PutGet(a, ParentKey, p, RawKey);
    assert IsSet(Put(a, ParentKey, p), RawKey) <==> IsSet(a, RawKey);
    if AsArray(options).None? {
      assert Lookup(a, RawKey).None?;
    }
  }

  /** A single value as the options of `add` is always a link target. */
  lemma PlainHasPath(url: Value)
    ensures PathOption(Plain(url)).Some?
  {
    if url.List? {
      var a := ListArray(url.elems);
      assert !HasKey(a, RawKey);
    }
  }

  function ArgArray(options: Arg): PArray
  {
    match AsArray(options)
    case None => []
    case Some(a) => a
  }
}
