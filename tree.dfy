/** The menu as a value: a snapshot of every item's fields, the `where`
    filter of `Builder::__call`, the parent/child hierarchy of the flat item
    list, and the specifications of the walks over it (descendants, the
    activation chain, breadcrumbs, rendering). */
module Tree {
  import opened Php
  import opened Urls
  import opened Html

  /** The fields of a `Link`. */
  datatype LinkView = LinkView(path: PArray, href: Value, attributes: PArray, isActive: bool)

  /** The fields of an `Item`, as a value. */
  datatype ItemView = ItemView(
    id: Value, title: string, beforeHTML: string, afterHTML: string, nickname: Value,
    divider: PArray, parent: Value, link: Option<LinkView>, data: PArray, active: bool,
    attributes: PArray, isActive: bool, disableActivationByURL: bool)

  // ---------------------------------------------------------------------
  // The where filter

  /** The properties an `Item` declares (`property_exists`, case-sensitive). */
  const DeclaredProps: set<string> := {"builder", "id", "title", "beforeHTML", "afterHTML", "nickname",
    "divider", "parent", "link", "data", "active", "attributes", "isActive", "disableActivationByURL"}

  /** A property value as `==` sees it: a scalar, an array, or an object. */
  datatype Prop = Scalar(v: Value) | ArrayProp(a: PArray) | ObjectProp

  /** `Item::data($name)` as a getter: the value under that exact key, or null. */
  function DataGet(v: ItemView, name: string): Value
  {
    Get(v.data, Name(name))
  }

  /** `Item::hasProperty($name)`. */
  predicate HasProperty(v: ItemView, name: string)
  {
    name in DeclaredProps || DataGet(v, name) != Null
  }

  /** `$item->$name` through `Item::__get`: the declared property, else the data entry. */
  function PropOf(v: ItemView, name: string): Prop
  {
    match name
    case "builder" => ObjectProp
    case "id" => Scalar(v.id)
    case "title" => Scalar(Str(v.title))
    case "beforeHTML" => Scalar(Str(v.beforeHTML))
    case "afterHTML" => Scalar(Str(v.afterHTML))
    case "nickname" => Scalar(v.nickname)
    case "divider" => ArrayProp(v.divider)
    case "parent" => Scalar(v.parent)
    case "link" => if v.link.Some? then ObjectProp else Scalar(Null)
    case "data" => ArrayProp(v.data)
    case "active" => Scalar(Bool(v.active))
    case "attributes" => ArrayProp(v.attributes)
    case "isActive" => Scalar(Bool(v.isActive))
    case "disableActivationByURL" => Scalar(Bool(v.disableActivationByURL))
    case _ => Scalar(DataGet(v, name))
  }

  /** `$prop == $x`. An array equals null or false when empty, true when not,
      and a list when it holds loosely equal values under the same integer
      keys; an object equals only `true`. */
  predicate PropEq(p: Prop, x: Value)
  {
    match p
    case Scalar(v) => LooseEq(v, x)
    case ArrayProp(a) =>
      (match x
       case Null => |a| == 0
       case Bool(b) => b == (|a| > 0)
       case List(xs) => |a| == |xs| && forall j :: 0 <= j < |xs| ==> HasKey(a, Index(j)) && LooseEq(Get(a, Index(j)), xs[j])
       case _ => false)
    case ObjectProp => x == Bool(true)
  }

  /** The test of the filter closure in `Builder::__call`. */
  predicate Matches(v: ItemView, name: string, x: Value)
  {
    HasProperty(v, name) && PropEq(PropOf(v, name), x)
  }

  predicate Increasing(r: seq<nat>)
  {
    forall p, q :: 0 <= p < q < |r| ==> r[p] < r[q]
  }

  /** `where<Name>($x)`: the positions of the matching items, in list order. */
  function WhereIdx(vs: seq<ItemView>, name: string, x: Value): (r: seq<nat>)
    ensures forall k :: 0 <= k < |r| ==> r[k] < |vs|
    ensures Increasing(r)
    decreases |vs|
  {
    if |vs| == 0 then []
    else
      var init := WhereIdx(vs[..|vs| - 1], name, x);
      if Matches(vs[|vs| - 1], name, x) then init + [|vs| - 1] else init
  }

  /** The filter keeps exactly the matching items. */
  lemma {:induction false} WhereIdxExact(vs: seq<ItemView>, name: string, x: Value, i: nat)
    ensures i in WhereIdx(vs, name, x) <==> i < |vs| && Matches(vs[i], name, x)
    decreases |vs|
  {
    if |vs| > 0 {
      var init := vs[..|vs| - 1];
      WhereIdxExact(init, name, x, i);
      var r := WhereIdx(init, name, x);
      if Matches(vs[|vs| - 1], name, x) {
        assert WhereIdx(vs, name, x) == r + [|vs| - 1];
      } else {
        assert WhereIdx(vs, name, x) == r;
      }
      if i < |init| {
        assert vs[i] == init[i];
      }
    }
  }

  /** `Collection::first()` of a filter result. */
  function First(r: seq<nat>): Option<nat>
  {
    if |r| > 0 then Some(r[0]) else None
  }

  /** The first match of the filter is the lowest matching position. */
  lemma WhereFirst(vs: seq<ItemView>, name: string, x: Value)
    ensures match First(WhereIdx(vs, name, x))
      case None => forall i :: 0 <= i < |vs| ==> !Matches(vs[i], name, x)
      case Some(j) => j < |vs| && Matches(vs[j], name, x) && forall i :: 0 <= i < j ==> !Matches(vs[i], name, x)
  {
    var r := WhereIdx(vs, name, x);
    forall i | 0 <= i < |vs| && Matches(vs[i], name, x) ensures |r| > 0 && r[0] <= i {
      WhereIdxExact(vs, name, x, i);
    }
    if |r| > 0 {
      WhereIdxExact(vs, name, x, r[0]);
    }
  }

  /** The filters on declared scalar properties compare the field itself. */
  lemma DeclaredMatches(v: ItemView, x: Value)
    ensures Matches(v, "id", x) <==> LooseEq(v.id, x)
    ensures Matches(v, "parent", x) <==> LooseEq(v.parent, x)
    ensures Matches(v, "nickname", x) <==> LooseEq(v.nickname, x)
    ensures Matches(v, "active", Bool(true)) <==> v.active
  {
  }

  // ---------------------------------------------------------------------
  // The hierarchy: ids and parent ids, compared with ==

  datatype Node = Node(id: Value, parent: Value)

  function Shape(vs: seq<ItemView>): (ns: seq<Node>)
    ensures |ns| == |vs|
    ensures forall j :: 0 <= j < |vs| ==> ns[j] == Node(vs[j].id, vs[j].parent)
  {
    seq(|vs|, j requires 0 <= j < |vs| => Node(vs[j].id, vs[j].parent))
  }

  /** `whereParent($p)`: the positions of the items whose parent equals `p`. */
  function ChildIdx(ns: seq<Node>, p: Value): (r: seq<nat>)
    ensures |r| <= |ns|
    ensures forall k :: 0 <= k < |r| ==> r[k] < |ns| && LooseEq(ns[r[k]].parent, p)
    ensures forall j :: 0 <= j < |ns| && LooseEq(ns[j].parent, p) ==> j in r
    ensures Increasing(r)
    decreases |ns|
  {
    if |ns| == 0 then []
    else
      var init := ChildIdx(ns[..|ns| - 1], p);
      if LooseEq(ns[|ns| - 1].parent, p) then init + [|ns| - 1] else init
  }

  /** `whereParent` is the generic filter on the `parent` property. */
  lemma {:induction false} WhereParentIsChildIdx(vs: seq<ItemView>, p: Value)
    ensures WhereIdx(vs, "parent", p) == ChildIdx(Shape(vs), p)
    decreases |vs|
  {
    if |vs| > 0 {
      var init := vs[..|vs| - 1];
      WhereParentIsChildIdx(init, p);
      assert Shape(vs)[..|vs| - 1] == Shape(init);
    }
  }

  /** `whereId($x)->first()`: the first position whose id equals `x`. */
  function FirstId(ns: seq<Node>, x: Value): (r: Option<nat>)
    ensures r.Some? ==> r.value < |ns| && LooseEq(ns[r.value].id, x)
    ensures r.Some? ==> forall i :: 0 <= i < r.value ==> !LooseEq(ns[i].id, x)
    ensures r.None? ==> forall i :: 0 <= i < |ns| ==> !LooseEq(ns[i].id, x)
  {
    if |ns| == 0 then None
    else if LooseEq(ns[0].id, x) then Some(0)
    else
      match FirstId(ns[1..], x)
      case None => None
      case Some(j) => Some(j + 1)
  }

  /** `whereId` is the generic filter on the `id` property. */
  lemma WhereIdIsFirstId(vs: seq<ItemView>, x: Value)
    ensures First(WhereIdx(vs, "id", x)) == FirstId(Shape(vs), x)
  {
    WhereFirst(vs, "id", x);
    var f := First(WhereIdx(vs, "id", x));
    var g := FirstId(Shape(vs), x);
    if f.Some? && g.Some? {
      assert !(f.value < g.value) && !(g.value < f.value);
    }
  }

  /** The hierarchy below `p` is at most `n` levels deep. This is the
      termination measure of every walk down the tree; it fails on a cycle. */
  predicate Bounded(ns: seq<Node>, p: Value, n: nat)
    decreases n
  {
    forall j :: 0 <= j < |ns| && LooseEq(ns[j].parent, p) ==> n > 0 && Bounded(ns, ns[j].id, n - 1)
  }

  /** Every position in `idx` is a child whose own subtree fits in `n - 1` levels. */
  predicate Below(ns: seq<Node>, idx: seq<nat>, n: nat)
  {
    forall k :: 0 <= k < |idx| ==> idx[k] < |ns| && n > 0 && Bounded(ns, ns[idx[k]].id, n - 1)
  }

  lemma BelowAppend(ns: seq<Node>, a: seq<nat>, b: seq<nat>, n: nat)
    requires Below(ns, a, n) && Below(ns, b, n)
    ensures Below(ns, a + b, n)
  {
    forall k | 0 <= k < |a + b| ensures (a + b)[k] < |ns| && n > 0 && Bounded(ns, ns[(a + b)[k]].id, n - 1) {
      if k >= |a| {
        assert (a + b)[k] == b[k - |a|];
      }
    }
  }

  lemma ChildrenBelow(ns: seq<Node>, p: Value, n: nat)
    requires Bounded(ns, p, n)
    ensures Below(ns, ChildIdx(ns, p), n)
  {
    var idx := ChildIdx(ns, p);
    forall k | 0 <= k < |idx| ensures idx[k] < |ns| && n > 0 && Bounded(ns, ns[idx[k]].id, n - 1) {
      BoundedChild(ns, p, n, idx[k]);
    }
    assert Below(ns, idx, n);
  }

  /** A child of `p` has a subtree one level shallower. */
  lemma BoundedChild(ns: seq<Node>, p: Value, n: nat, j: nat)
    requires Bounded(ns, p, n) && j < |ns| && LooseEq(ns[j].parent, p)
    ensures n > 0 && Bounded(ns, ns[j].id, n - 1)
  {
  }

  /** On a cycle of parent links no depth bound holds: the walks of `render`,
      `activate` and the data cascade would not end. `c` lists the cycle:
      each position is the parent of the next, and the last of the first. */
  lemma {:induction false} CycleUnbounded(ns: seq<Node>, c: seq<nat>, k: nat, n: nat)
    requires |c| > 0 && k < |c|
    requires forall i :: 0 <= i < |c| ==> c[i] < |ns|
    requires forall i :: 0 <= i < |c| - 1 ==> LooseEq(ns[c[i + 1]].parent, ns[c[i]].id)
    requires LooseEq(ns[c[0]].parent, ns[c[|c| - 1]].id)
    ensures !Bounded(ns, ns[c[k]].id, n)
    decreases n
  {
    var k' := if k + 1 < |c| then k + 1 else 0;
    var next := c[k'];
    assert next < |ns| && LooseEq(ns[next].parent, ns[c[k]].id);
    if n > 0 {
      CycleUnbounded(ns, c, k', n - 1);
    }
  }

  /** A deeper bound also holds. */
  lemma {:induction false} BoundedMono(ns: seq<Node>, p: Value, n: nat, m: nat)
    requires Bounded(ns, p, n) && n <= m
    ensures Bounded(ns, p, m)
    decreases n
  {
    forall j | 0 <= j < |ns| && LooseEq(ns[j].parent, p) ensures m > 0 && Bounded(ns, ns[j].id, m - 1) {
      BoundedMono(ns, ns[j].id, n - 1, m - 1);
    }
  }

  /** The descendants below the positions `idx`, in pre-order: each item
      followed by its own descendants (what `filterRecursive` was meant to
      collect, and the items the data cascade reaches). */
  function Walk(ns: seq<Node>, idx: seq<nat>, n: nat): (r: seq<nat>)
    requires Below(ns, idx, n)
    ensures forall k :: 0 <= k < |r| ==> r[k] < |ns|
    decreases n, |idx|
  {
    if |idx| == 0 then []
    else
      var i := idx[0];
      ChildrenBelow(ns, ns[i].id, n - 1);
      [i] + Walk(ns, ChildIdx(ns, ns[i].id), n - 1) + Walk(ns, idx[1..], n)
  }

  /** The descendants of the item with id `p`. */
  function Descendants(ns: seq<Node>, p: Value, n: nat): seq<nat>
    requires Bounded(ns, p, n)
  {
    ChildrenBelow(ns, p, n);
    Walk(ns, ChildIdx(ns, p), n)
  }

  /** The walk holds exactly the items reachable by child steps. */
  lemma {:induction false} WalkChildren(ns: seq<Node>, p: Value, n: nat, j: nat)
    requires Bounded(ns, p, n)
    requires j < |ns| && LooseEq(ns[j].parent, p)
    ensures j in Descendants(ns, p, n)
  {
    ChildrenBelow(ns, p, n);
    WalkMember(ns, ChildIdx(ns, p), n, j);
  }

  lemma {:induction false} WalkMember(ns: seq<Node>, idx: seq<nat>, n: nat, j: nat)
    requires Below(ns, idx, n)
    requires j in idx
    ensures j in Walk(ns, idx, n)
    decreases |idx|
  {
    if idx[0] != j {
      WalkMember(ns, idx[1..], n, j);
    }
  }

  /** Grandchildren are descendants too: the walk is closed under child steps. */
  lemma {:induction false} WalkClosed(ns: seq<Node>, idx: seq<nat>, n: nat, i: nat, j: nat)
    requires Below(ns, idx, n)
    requires i in Walk(ns, idx, n) && j < |ns| && LooseEq(ns[j].parent, ns[i].id)
    ensures j in Walk(ns, idx, n)
    decreases n, |idx|
  {
    WalkCons(ns, idx, n);
    var h := idx[0];
    var m: nat := n - 1;
    var kids := ChildIdx(ns, ns[h].id);
    var sub := Walk(ns, kids, m);
    WalkUnfold(ns, idx, n);
    if i == h {
      WalkMember(ns, kids, m, j);
    } else if i in sub {
      WalkClosed(ns, kids, m, i, j);
    } else {
      WalkClosed(ns, idx[1..], n, i, j);
    }
  }

  /** One step of the walk: the first position, its subtree, then the rest. */
  lemma WalkCons(ns: seq<Node>, idx: seq<nat>, n: nat)
    requires Below(ns, idx, n) && |Walk(ns, idx, n)| > 0
    ensures |idx| > 0 && n > 0 && idx[0] < |ns|
    ensures Below(ns, ChildIdx(ns, ns[idx[0]].id), n - 1) && Below(ns, idx[1..], n)
  {
    ChildrenBelow(ns, ns[idx[0]].id, n - 1);
  }

  lemma WalkUnfold(ns: seq<Node>, idx: seq<nat>, n: nat)
    requires |idx| > 0 && n > 0 && idx[0] < |ns|
    requires Below(ns, idx, n) && Below(ns, ChildIdx(ns, ns[idx[0]].id), n - 1) && Below(ns, idx[1..], n)
    ensures Walk(ns, idx, n) == [idx[0]] + Walk(ns, ChildIdx(ns, ns[idx[0]].id), n - 1) + Walk(ns, idx[1..], n)
  {
  }

  // ---------------------------------------------------------------------
  // The recursive filter (Builder::filterRecursive)

  /** `$this->hasProperty($name)` inside `filterRecursive`, where `$this` is
      the builder: Builder has no such method, so the call goes to
      `__call`, which answers false to any name not of the form `where…`. */
  predicate BuilderHasProperty(name: string)
  {
    false
  }

  /** Every listed position is below `m`. */
  predicate Under(r: seq<nat>, m: nat)
  {
    forall k :: 0 <= k < |r| ==> r[k] < m
  }

  lemma UnderAppend(a: seq<nat>, b: seq<nat>, m: nat)
    requires Under(a, m) && Under(b, m)
    ensures Under(a + b, m)
  {
    forall k | 0 <= k < |a + b| ensures (a + b)[k] < m {
      if k >= |a| {
        assert (a + b)[k] == b[k - |a|];
      }
    }
  }

  /** `filterRecursive($name, $x)` over the items from position `j` on,
      with `props[k]` the property `$name` of item `k`. Its `each` closure
      first makes a guard test (`guards[k]`) and ends the walk, by
      returning false, when the test fails. A matching item is pushed and,
      when it has children, followed by `filterRecursive($name, <its id>)`.
      `None` when the nesting goes deeper than `n` levels. */
  function FilterRec(ns: seq<Node>, props: seq<Prop>, guards: seq<bool>, x: Value, j: nat, n: nat): (r: Option<seq<nat>>)
    requires |props| == |ns| && |guards| == |ns|
    ensures r.Some? ==> Under(r.value, |ns|)
    decreases n, |ns| - j
  {
    if j >= |ns| || !guards[j] then Some([])
    else
      var here: Option<seq<nat>> :=
        if !PropEq(props[j], x) then Some([])
        else if |ChildIdx(ns, ns[j].id)| == 0 then Some([j])
        else if n == 0 then None
        else
          match FilterRec(ns, props, guards, ns[j].id, 0, n - 1)
          case None => None
          case Some(sub) => (UnderAppend([j], sub, |ns|); Some([j] + sub));
      var rest := FilterRec(ns, props, guards, x, j + 1, n);
      if here.None? || rest.None? then None
      else
        UnderAppend(here.value, rest.value, |ns|);
        Some(here.value + rest.value)
  }

  /** The property `$name` of every item. */
  function Props(vs: seq<ItemView>, name: string): (r: seq<Prop>)
    ensures |r| == |vs| && forall k :: 0 <= k < |vs| ==> r[k] == PropOf(vs[k], name)
  {
    seq(|vs|, k requires 0 <= k < |vs| => PropOf(vs[k], name))
  }

  /** `where<Name>($x, true)` as written: the guard asks the builder. */
  function FilterRecursiveAsWritten(vs: seq<ItemView>, name: string, x: Value, n: nat): Option<seq<nat>>
  {
    FilterRec(Shape(vs), Props(vs, name), seq(|vs|, k => BuilderHasProperty(name)), x, 0, n)
  }

  /** The guard as intended: it asks the item, as the plain filter does. */
  function FilterRecursiveCorrected(vs: seq<ItemView>, name: string, x: Value, n: nat): Option<seq<nat>>
  {
    FilterRec(Shape(vs), Props(vs, name), seq(|vs|, k requires 0 <= k < |vs| => HasProperty(vs[k], name)), x, 0, n)
  }

  /** As written, the recursive filter finds nothing, on every menu. */
  lemma FilterRecursiveAsWrittenEmpty(vs: seq<ItemView>, name: string, x: Value, n: nat)
    ensures FilterRecursiveAsWritten(vs, name, x, n) == Some([])
  {
  }

  /** A menu with one root item: `whereParent(null)` finds it, and
      `whereParent(null, true)` as written does not. */
  lemma FilterRecursiveCounterexample(v: ItemView)
    requires v.parent == Null
    ensures WhereIdx([v], "parent", Null) == [0]
    ensures FilterRecursiveAsWritten([v], "parent", Null, 1) == Some([])
  {
    assert [v][..0] == [];
  }

  /** The walk past the last item. */
  lemma FilterRecEnd(ns: seq<Node>, props: seq<Prop>, guards: seq<bool>, x: Value, j: nat, n: nat)
    requires |props| == |ns| && |guards| == |ns| && j >= |ns|
    ensures FilterRec(ns, props, guards, x, j, n) == Some([])
  {
  }

  /** One step of the walk at an item that does not match. */
  lemma FilterRecSkip(ns: seq<Node>, props: seq<Prop>, guards: seq<bool>, x: Value, j: nat, n: nat)
    requires |props| == |ns| && |guards| == |ns|
    requires j < |ns| && guards[j] && !PropEq(props[j], x)
    requires FilterRec(ns, props, guards, x, j + 1, n).Some?
    ensures FilterRec(ns, props, guards, x, j, n) == FilterRec(ns, props, guards, x, j + 1, n)
  {
    assert [] + FilterRec(ns, props, guards, x, j + 1, n).value == FilterRec(ns, props, guards, x, j + 1, n).value;
  }

  /** One step of the walk at a matching item without children. */
  lemma FilterRecLeaf(ns: seq<Node>, props: seq<Prop>, guards: seq<bool>, x: Value, j: nat, n: nat)
    requires |props| == |ns| && |guards| == |ns|
    requires j < |ns| && guards[j] && PropEq(props[j], x) && |ChildIdx(ns, ns[j].id)| == 0
    requires FilterRec(ns, props, guards, x, j + 1, n).Some?
    ensures FilterRec(ns, props, guards, x, j, n) == Some([j] + FilterRec(ns, props, guards, x, j + 1, n).value)
  {
  }

  /** One step of the walk at a matching item that has children. */
  lemma FilterRecHere(ns: seq<Node>, props: seq<Prop>, guards: seq<bool>, x: Value, j: nat, n: nat)
    requires |props| == |ns| && |guards| == |ns|
    requires j < |ns| && guards[j] && PropEq(props[j], x) && |ChildIdx(ns, ns[j].id)| > 0 && n > 0
    requires FilterRec(ns, props, guards, ns[j].id, 0, n - 1).Some?
    requires FilterRec(ns, props, guards, x, j + 1, n).Some?
    ensures FilterRec(ns, props, guards, x, j, n) ==
      Some([j] + FilterRec(ns, props, guards, ns[j].id, 0, n - 1).value + FilterRec(ns, props, guards, x, j + 1, n).value)
  {
  }

  /** The property and guard lists of `whereParent(p, true)` with the guard
      on the item: every item has a `parent` property. */
  predicate ParentProps(ns: seq<Node>, props: seq<Prop>, guards: seq<bool>)
  {
    |props| == |ns| && |guards| == |ns| &&
    forall k :: 0 <= k < |ns| ==> guards[k] && props[k] == Scalar(ns[k].parent)
  }

  /** The children of `p` at positions `j` and later, in list order. */
  function ChildrenFrom(ns: seq<Node>, p: Value, j: nat): (r: seq<nat>)
    ensures forall k :: 0 <= k < |r| ==> j <= r[k] < |ns| && LooseEq(ns[r[k]].parent, p)
    decreases |ns| - j
  {
    if j >= |ns| then []
    else (if LooseEq(ns[j].parent, p) then [j] else []) + ChildrenFrom(ns, p, j + 1)
  }

  /** One position of the children from `j`. */
  lemma ChildrenFromStep(ns: seq<Node>, p: Value, j: nat)
    requires j < |ns|
    ensures LooseEq(ns[j].parent, p) ==> ChildrenFrom(ns, p, j) == [j] + ChildrenFrom(ns, p, j + 1)
    ensures !LooseEq(ns[j].parent, p) ==> ChildrenFrom(ns, p, j) == ChildrenFrom(ns, p, j + 1)
  {
    assert [] + ChildrenFrom(ns, p, j + 1) == ChildrenFrom(ns, p, j + 1);
  }

  /** Dropping the last item drops its position, and nothing else, from the
      children from `j`. */
  lemma {:induction false} ChildrenFromInit(ns: seq<Node>, p: Value, j: nat)
    requires 0 < |ns| && j < |ns|
    ensures ChildrenFrom(ns, p, j) ==
      ChildrenFrom(ns[..|ns| - 1], p, j) + (if LooseEq(ns[|ns| - 1].parent, p) then [|ns| - 1] else [])
    decreases |ns| - j
  {
    if j < |ns| - 1 {
      ChildrenFromInit(ns, p, j + 1);
      assert ns[..|ns| - 1][j] == ns[j];
    }
  }

  /** From the first position on, these are the children `whereParent` finds. */
  lemma {:induction false} ChildrenFromStart(ns: seq<Node>, p: Value)
    ensures ChildrenFrom(ns, p, 0) == ChildIdx(ns, p)
    decreases |ns|
  {
    if |ns| > 0 {
      ChildrenFromStart(ns[..|ns| - 1], p);
      ChildrenFromInit(ns, p, 0);
    }
  }

  lemma ChildrenFromBelow(ns: seq<Node>, p: Value, j: nat, n: nat)
    requires Bounded(ns, p, n)
    ensures Below(ns, ChildrenFrom(ns, p, j), n)
  {
    var r := ChildrenFrom(ns, p, j);
    forall k | 0 <= k < |r| ensures r[k] < |ns| && n > 0 && Bounded(ns, ns[r[k]].id, n - 1) {
      BoundedChild(ns, p, n, r[k]);
    }
  }

  /** A list that starts with `i` is below `n` when `i` and the rest are. */
  lemma BelowPrepend(ns: seq<Node>, i: nat, rest: seq<nat>, n: nat)
    requires Below(ns, [i] + rest, n)
    ensures Below(ns, rest, n) && i < |ns| && n > 0 && Bounded(ns, ns[i].id, n - 1)
    ensures Below(ns, ChildIdx(ns, ns[i].id), n - 1)
  {
    var idx := [i] + rest;
    assert idx[0] == i;
    forall k | 0 <= k < |rest| ensures rest[k] < |ns| && Bounded(ns, ns[rest[k]].id, n - 1) {
      assert rest[k] == idx[k + 1];
    }
    ChildrenBelow(ns, ns[i].id, n - 1);
  }

  /** The walk of a list that starts with `i`. */
  lemma WalkPrepend(ns: seq<Node>, i: nat, rest: seq<nat>, n: nat)
    requires Below(ns, [i] + rest, n)
    ensures Below(ns, rest, n) && i < |ns| && n > 0 && Bounded(ns, ns[i].id, n - 1)
    ensures Below(ns, ChildIdx(ns, ns[i].id), n - 1)
    ensures Walk(ns, [i] + rest, n) == [i] + Walk(ns, ChildIdx(ns, ns[i].id), n - 1) + Walk(ns, rest, n)
    ensures |ChildIdx(ns, ns[i].id)| == 0 ==> Walk(ns, [i] + rest, n) == [i] + Walk(ns, rest, n)
  {
    BelowPrepend(ns, i, rest, n);
    var idx := [i] + rest;
    assert idx[0] == i && idx[1..] == rest;
    WalkUnfold(ns, idx, n);
    if |ChildIdx(ns, ns[i].id)| == 0 {
      assert [i] + [] + Walk(ns, rest, n) == [i] + Walk(ns, rest, n);
    }
  }

  /** With the guard on the item, `filterRecursive('parent', p)` from
      position `j` walks the children of `p` from `j` on, each followed by
      its own descendants. */
  lemma {:induction false} FilterRecParentFrom(ns: seq<Node>, props: seq<Prop>, guards: seq<bool>, p: Value, j: nat, n: nat)
    requires ParentProps(ns, props, guards)
    requires Bounded(ns, p, n)
    ensures Below(ns, ChildrenFrom(ns, p, j), n)
    ensures FilterRec(ns, props, guards, p, j, n) == Some(Walk(ns, ChildrenFrom(ns, p, j), n))
    decreases n, |ns| - j
  {
    ChildrenFromBelow(ns, p, j, n);
    if j >= |ns| {
      FilterRecEnd(ns, props, guards, p, j, n);
    } else {
      FilterRecParentFrom(ns, props, guards, p, j + 1, n);
      var rest := ChildrenFrom(ns, p, j + 1);
      ChildrenFromStep(ns, p, j);
      assert props[j] == Scalar(ns[j].parent) && guards[j];
      if LooseEq(ns[j].parent, p) {
        BoundedChild(ns, p, n, j);
        var m: nat := n - 1;
        FilterRecParentFrom(ns, props, guards, ns[j].id, 0, m);
        ChildrenFromStart(ns, ns[j].id);
        WalkPrepend(ns, j, rest, n);
        if |ChildIdx(ns, ns[j].id)| > 0 {
          FilterRecHere(ns, props, guards, p, j, n);
        } else {
          FilterRecLeaf(ns, props, guards, p, j, n);
        }
      } else {
        FilterRecSkip(ns, props, guards, p, j, n);
      }
    }
  }

  /** With the guard on the item, `whereParent(p, true)` lists the
      descendants of `p` in pre-order. */
  lemma FilterRecursiveParent(vs: seq<ItemView>, p: Value, n: nat)
    requires Bounded(Shape(vs), p, n)
    ensures FilterRecursiveCorrected(vs, "parent", p, n) == Some(Descendants(Shape(vs), p, n))
  {
    var ns := Shape(vs);
    var props := Props(vs, "parent");
    var guards := seq(|vs|, k requires 0 <= k < |vs| => HasProperty(vs[k], "parent"));
    forall k | 0 <= k < |ns| ensures guards[k] && props[k] == Scalar(ns[k].parent) {
      assert HasProperty(vs[k], "parent") && PropOf(vs[k], "parent") == Scalar(vs[k].parent);
    }
    FilterRecParentFrom(ns, props, guards, p, 0, n);
    ChildrenFromStart(ns, p);
  }

  // ---------------------------------------------------------------------
  // The activation chain (Item::activate with activate_parents)

  /** The item `activate` works on: the item it was called on, or a position in the list. */
  datatype Target = This | At(i: nat)

  function ParentOf(ns: seq<Node>, self: Node, t: Target): Value
  {
    match t
    case This => self.parent
    case At(i) => if i < |ns| then ns[i].parent else Null
  }

  /** The next target as written: a truthy parent is looked up with
      `whereId(..)->first()`, and when no item has that id the null result
      makes `activate(null, true)` start again from the item itself. */
  function NextAsWritten(ns: seq<Node>, self: Node, t: Target): Option<Target>
  {
    var p := ParentOf(ns, self, t);
    if !Truthy(p) then None
    else
      match FirstId(ns, p)
      case None => Some(This)
      case Some(j) => Some(At(j))
  }

  /** As written, a parent id that no item carries sends `activate` back to
      the item itself, whose parent is still that id: the recursion never
      ends. An item added with `parent` set to an id not (yet) in the menu
      shows it. */
  lemma DanglingParentLoops(ns: seq<Node>, self: Node)
    requires Truthy(self.parent) && FirstId(ns, self.parent).None?
    ensures NextAsWritten(ns, self, This) == Some(This)
  {
  }

  lemma DanglingParentExample()
    ensures NextAsWritten([], Node(Str("id-1"), Str("missing")), This) == Some(This)
  {
  }

  /** The intended next target: the parent item, and none when the parent id
      is falsy or matches no item. */
  function NextCorrected(ns: seq<Node>, self: Node, t: Target): (r: Option<Target>)
    ensures r.Some? ==> r.value.At? && r.value.i < |ns|
  {
    var p := ParentOf(ns, self, t);
    if !Truthy(p) then None
    else
      match FirstId(ns, p)
      case None => None
      case Some(j) => Some(At(j))
  }

  /** With a parent that is found, both readings take the same step. */
  lemma NextAgree(ns: seq<Node>, self: Node, t: Target)
    requires NextCorrected(ns, self, t).Some?
    ensures NextAsWritten(ns, self, t) == NextCorrected(ns, self, t)
  {
  }

  function Range(n: nat): (r: set<nat>)
    ensures forall k: nat :: k in r <==> k < n
  {
    if n == 0 then {} else Range(n - 1) + {n - 1}
  }

  /** The ancestors that the corrected `activate` visits above a target:
      their positions in order, up to the first position met twice, and
      whether the walk comes back to such a position, so that the recursion
      would not end by itself. */
  datatype Climb = Climb(idx: seq<nat>, loops: bool)

  /** The climb of `activate` above a target with parent id `p`, where
      `visited` holds the positions already met. */
  function Ancestors(ns: seq<Node>, p: Value, visited: set<nat>): (r: Climb)
    requires visited <= Range(|ns|)
    ensures forall k :: 0 <= k < |r.idx| ==> r.idx[k] < |ns| && r.idx[k] !in visited
    decreases Range(|ns|) - visited
  {
    if !Truthy(p) then Climb([], false)
    else
      match FirstId(ns, p)
      case None => Climb([], false)
      case Some(j) =>
        if j in visited then Climb([], true)
        else
          var rest := Ancestors(ns, ns[j].parent, visited + {j});
          Climb([j] + rest.idx, rest.loops)
  }

  /** The chain follows the corrected step function from target to target. */
  lemma AncestorsFollowSteps(ns: seq<Node>, self: Node, t: Target, visited: set<nat>)
    requires visited <= Range(|ns|)
    requires !Ancestors(ns, ParentOf(ns, self, t), visited).loops
    requires t.At? ==> t.i < |ns|
    ensures var chain := Ancestors(ns, ParentOf(ns, self, t), visited).idx;
      (|chain| == 0 <==> NextCorrected(ns, self, t).None?) &&
      (|chain| > 0 ==> NextCorrected(ns, self, t) == Some(At(chain[0])))
  {
  }

  /** No position occurs twice in `s`. */
  predicate Distinct(s: seq<nat>)
  {
    forall a, b :: 0 <= a < b < |s| ==> s[a] != s[b]
  }

  /** The chain has no position twice. */
  lemma {:induction false} AncestorsDistinct(ns: seq<Node>, p: Value, visited: set<nat>)
    requires visited <= Range(|ns|)
    ensures Distinct(Ancestors(ns, p, visited).idx)
    decreases Range(|ns|) - visited
  {
    if Truthy(p) && FirstId(ns, p).Some? {
      var j := FirstId(ns, p).value;
      if j !in visited {
        AncestorsDistinct(ns, ns[j].parent, visited + {j});
        var rest := Ancestors(ns, ns[j].parent, visited + {j}).idx;
        var r := [j] + rest;
        assert r == Ancestors(ns, p, visited).idx;
        forall a, b | 0 <= a < b < |r| ensures r[a] != r[b] {
          assert r[b] == rest[b - 1];
          if a > 0 {
            assert r[a] == rest[a - 1];
          }
        }
      }
    }
  }

  /** Two items whose parent ids name each other: the climb above the
      first one's parent id meets the second, then the first, then comes
      back to the second. */
  lemma CycleClimbExample()
    ensures var ns := [Node(Str("a"), Str("b")), Node(Str("b"), Str("a"))];
      Ancestors(ns, Str("b"), {}) == Climb([1, 0], true)
  {
    var ns := [Node(Str("a"), Str("b")), Node(Str("b"), Str("a"))];
    assert FirstId(ns, Str("b")) == Some(1);
    assert FirstId(ns, Str("a")) == Some(0);
  }

  /** A climb that loops ends at a target whose parent id names a position
      met before: one of `visited`, or one of the climb itself. So the
      recursion of `activate` goes round the targets of the climb again. */
  lemma {:induction false} AncestorsLoopBack(ns: seq<Node>, p: Value, visited: set<nat>)
    requires visited <= Range(|ns|)
    requires Ancestors(ns, p, visited).loops
    ensures var r := Ancestors(ns, p, visited).idx;
      var q := if |r| == 0 then p else ns[r[|r| - 1]].parent;
      Truthy(q) && FirstId(ns, q).Some? &&
      (FirstId(ns, q).value in visited || FirstId(ns, q).value in r)
    decreases Range(|ns|) - visited
  {
    var j := FirstId(ns, p).value;
    if j !in visited {
      var rest := Ancestors(ns, ns[j].parent, visited + {j});
      AncestorsLoopBack(ns, ns[j].parent, visited + {j});
      var r := [j] + rest.idx;
      assert r == Ancestors(ns, p, visited).idx;
      if |rest.idx| > 0 {
        assert r[|r| - 1] == rest.idx[|rest.idx| - 1];
      }
      var q := if |rest.idx| == 0 then ns[j].parent else ns[rest.idx[|rest.idx| - 1]].parent;
      var jq := FirstId(ns, q).value;
      if jq in visited + {j} && jq !in visited {
        assert jq == r[0];
      } else if jq in rest.idx {
        var m :| 0 <= m < |rest.idx| && rest.idx[m] == jq;
        assert r[m + 1] == jq;
      }
    }
  }

  // ---------------------------------------------------------------------
  // Breadcrumbs (Builder::crumbMenu)

  datatype CrumbTrail = Path(idx: seq<nat>) | Broken | Loops

  /** The loop of `crumbMenu`: while the current item has a parent id `p`
      (`hasParent()` is `isset`, so not null), its parent is looked up and
      put in front of the crumbs collected so far, `below`. A parent id that
      matches no item makes the next `hasParent()` fail on null (`Broken`);
      reaching an item already visited means the loop never ends (`Loops`). */
  function Crumbs(ns: seq<Node>, p: Value, visited: set<nat>, below: seq<nat>): (r: CrumbTrail)
    requires visited <= Range(|ns|)
    requires forall k :: 0 <= k < |below| ==> below[k] < |ns|
    ensures r.Path? ==> forall k :: 0 <= k < |r.idx| ==> r.idx[k] < |ns|
    ensures r.Path? ==> |r.idx| >= |below| && below <= r.idx[|r.idx| - |below|..]
    decreases Range(|ns|) - visited
  {
    if p == Null then Path(below)
    else
      match FirstId(ns, p)
      case None => Broken
      case Some(j) =>
        if j in visited then Loops
        else Crumbs(ns, ns[j].parent, visited + {j}, [j] + below)
  }

  /** The crumbs of the item at `i`: from its parent id, with the item as
      the only crumb so far. */
  function CrumbsOf(ns: seq<Node>, i: nat): CrumbTrail
    requires i < |ns|
  {
    Crumbs(ns, ns[i].parent, {i}, [i])
  }

  /** Each crumb put in front of `below` is the first item whose id matches
      the parent id of the crumb after it. */
  lemma {:induction false} CrumbsLinks(ns: seq<Node>, p: Value, visited: set<nat>, below: seq<nat>)
    requires visited <= Range(|ns|) && (forall k :: 0 <= k < |below| ==> below[k] < |ns|)
    requires |below| > 0 && p == ns[below[0]].parent
    requires Crumbs(ns, p, visited, below).Path?
    ensures var r := Crumbs(ns, p, visited, below).idx;
      forall k :: 0 < k <= |r| - |below| ==> Some(r[k - 1]) == FirstId(ns, ns[r[k]].parent)
    decreases Range(|ns|) - visited
  {
    if p != Null {
      var j := FirstId(ns, p).value;
      var r := Crumbs(ns, ns[j].parent, visited + {j}, [j] + below).idx;
      CrumbsLinks(ns, ns[j].parent, visited + {j}, [j] + below);
      CrumbsSuffix(r, j, below);
    }
  }

  /** The first crumb has no parent. */
  lemma {:induction false} CrumbsRoot(ns: seq<Node>, p: Value, visited: set<nat>, below: seq<nat>)
    requires visited <= Range(|ns|) && (forall k :: 0 <= k < |below| ==> below[k] < |ns|)
    requires |below| > 0 && p == ns[below[0]].parent
    requires Crumbs(ns, p, visited, below).Path?
    ensures ns[Crumbs(ns, p, visited, below).idx[0]].parent == Null
    decreases Range(|ns|) - visited
  {
    if p != Null {
      var j := FirstId(ns, p).value;
      CrumbsRoot(ns, ns[j].parent, visited + {j}, [j] + below);
    }
  }

  /** The crumb in front of `below`, when `[j] + below` ends the trail. */
  lemma CrumbsSuffix(r: seq<nat>, j: nat, below: seq<nat>)
    requires |below| > 0 && |r| >= |below| + 1 && [j] + below <= r[|r| - |below| - 1..]
    ensures r[|r| - |below| - 1] == j && r[|r| - |below|] == below[0]
  {
    assert r[|r| - |below| - 1..][0] == j;
    assert r[|r| - |below| - 1..][1] == below[0];
  }

  /** The crumbs of an item run from a root to the item, each the parent of
      the next. */
  lemma CrumbsOfLinks(ns: seq<Node>, i: nat)
    requires i < |ns| && CrumbsOf(ns, i).Path?
    ensures var r := CrumbsOf(ns, i).idx;
      |r| > 0 && (forall k :: 0 <= k < |r| ==> r[k] < |ns|) &&
      r[|r| - 1] == i && ns[r[0]].parent == Null &&
      (forall k :: 0 < k < |r| ==> Some(r[k - 1]) == FirstId(ns, ns[r[k]].parent))
  {
    assert {i} <= Range(|ns|);
    var r := Crumbs(ns, ns[i].parent, {i}, [i]).idx;
    assert [i] <= r[|r| - 1..];
    assert r[|r| - 1] == r[|r| - 1..][0];
    CrumbsLinks(ns, ns[i].parent, {i}, [i]);
    CrumbsRoot(ns, ns[i].parent, {i}, [i]);
  }

  // ---------------------------------------------------------------------
  // URLs and activation tests of an item

  /** `Item::url()`: an explicit truthy `href`, else the dispatched link path;
      null without a link. */
  function ItemUrl(env: Env, v: ItemView): Value
  {
    match v.link
    case None => Null
    case Some(l) => if Truthy(l.href) then l.href else Dispatch(env, l.path)
  }

  /** An item without a link has no URL. */
  lemma RawItemUrl(env: Env, v: ItemView)
    requires v.link.None?
    ensures ItemUrl(env, v) == Null
  {
  }

  /** An explicit `href` wins over the link path, whatever the path says. */
  lemma HrefWins(env: Env, v: ItemView, h: Value)
    requires v.link.Some? && Truthy(h)
    ensures ItemUrl(env, v.(link := Some(v.link.value.(href := h)))) == h
  {
  }

  /** The decision of `Item::checkActivationStatus`: whether it calls `activate()`. */
  predicate ActivatesByUrl(env: Env, conf: PArray, v: ItemView)
  {
    UrlTest(env, conf, v.disableActivationByURL, ItemUrl(env, v))
  }

  /** The same test on the flag and the URL alone. */
  predicate UrlTest(env: Env, conf: PArray, disabled: bool, url: Value)
  {
    !disabled &&
    if LooseEq(Bool(true), Get(conf, Name("restful"))) then
      RestfulActive(env, url, Get(conf, Name("rest_base")))
    else
      ExactActive(env, url)
  }

  /** Outside RESTful mode an item activates iff its URL equals the request
      URL or the full request URL; with `disableActivationByURL` it never does. */
  lemma ExactActivation(env: Env, conf: PArray, v: ItemView)
    requires !Truthy(Get(conf, Name("restful")))
    ensures ActivatesByUrl(env, conf, v) <==>
      !v.disableActivationByURL &&
      (LooseEq(ItemUrl(env, v), Str(env.requestUrl)) || LooseEq(ItemUrl(env, v), Str(env.requestFullUrl)))
  {
  }

  /** In RESTful mode without a base, the item activates iff the request path
      is its path or continues it with a slash and a non-empty rest. */
  lemma RestfulActivation(env: Env, conf: PArray, v: ItemView)
    requires Truthy(Get(conf, Name("restful"))) && !Truthy(Get(conf, Name("rest_base")))
    ensures var path := TrimLeft(env.urlPath(ToStr(ItemUrl(env, v))), {'/'});
            var rpath := TrimLeft(env.urlPath(env.requestPath), {'/'});
      ActivatesByUrl(env, conf, v) <==> !v.disableActivationByURL && RestSpec(path, rpath)
  {
    var path := TrimLeft(env.urlPath(ToStr(ItemUrl(env, v))), {'/'});
    var rpath := TrimLeft(env.urlPath(env.requestPath), {'/'});
    RestMatchSpec(path, rpath);
  }

  // ---------------------------------------------------------------------
  // Rendering (Builder::render)

  /** The arrays the `render` callback receives by reference. */
  datatype CbArgs = CbArgs(children: PArray, item: PArray, link: PArray, params: PArray)

  /** The fixed inputs of one `render` run. `kids[i]` is `hasChildren()` of
      item `i`, asked of the builder that created it. */
  datatype RenderCtx = RenderCtx(
    env: Env, vs: seq<ItemView>, kids: seq<bool>, kind: string,
    callback: Option<(ItemView, CbArgs) -> CbArgs>)

  predicate WellFormed(ctx: RenderCtx)
  {
    |ctx.kids| == |ctx.vs|
  }

  /** The element wrapping each item: `li` in a list, else the menu type itself. */
  function ItemTag(kind: string): string
  {
    if kind == "ul" || kind == "ol" then "li" else kind
  }

  /** The callback runs only for items with a link, on the link's attributes. */
  function RunCallback(callback: Option<(ItemView, CbArgs) -> CbArgs>, v: ItemView, st: CbArgs): CbArgs
  {
    match v.link
    case None => st
    case Some(l) =>
      var args := st.(link := l.attributes);
      if callback.Some? then callback.value(v, args) else args
  }

  /** The `<a>` element of a linked item, between its before and after HTML. */
  function Anchor(env: Env, v: ItemView, linkAttr: PArray): string
  {
    var url := ItemUrl(env, v);
    v.beforeHTML + "<a" + AttrString(env.escape, linkAttr)
      + (if Truthy(url) then " href=\"" + ToStr(url) + "\"" else "")
      + ">" + v.title + "</a>" + v.afterHTML
  }

  /** The markup of one item around the already rendered markup of its
      children: its own element, then the divider's element. */
  function ItemMarkup(env: Env, kind: string, v: ItemView, hasKids: bool, st: CbArgs, inner: string): string
  {
    ItemElement(env, kind, v, st, Nested(env, kind, hasKids, st, inner)) + DividerElement(env, kind, v)
  }

  /** The item's wrapper around its anchor (or bare title) and the nested list. */
  function ItemElement(env: Env, kind: string, v: ItemView, st: CbArgs, nested: string): string
  {
    var tag := ItemTag(kind);
    "<" + tag + AttrString(env.escape, Union(v.attributes, st.item)) + ">" + Content(env, v, st.link) + nested + "</" + tag + ">"
  }

  /** The anchor of a linked item, the bare title of any other. */
  function Content(env: Env, v: ItemView, linkAttr: PArray): string
  {
    if v.link.Some? then Anchor(env, v, linkAttr) else v.title
  }

  /** The nested element of the menu type around the children's markup,
      when the item reports children. */
  function Nested(env: Env, kind: string, hasKids: bool, st: CbArgs, inner: string): string
  {
    if hasKids then "<" + kind + AttrString(env.escape, st.children) + ">" + inner + "</" + kind + ">" else ""
  }

  /** The empty element carrying the divider's attributes, when there is one. */
  function DividerElement(env: Env, kind: string, v: ItemView): string
  {
    var tag := ItemTag(kind);
    if |v.divider| > 0 then "<" + tag + AttrString(env.escape, v.divider) + "></" + tag + ">" else ""
  }

  /** The markup of the item at position `i`, including its children. */
  function Piece(ctx: RenderCtx, i: nat, st: CbArgs, n: nat): string
    requires WellFormed(ctx)
    requires i < |ctx.vs| && n > 0 && Bounded(Shape(ctx.vs), ctx.vs[i].id, n - 1)
    decreases n, 0
  {
    var v := ctx.vs[i];
    ChildrenBelow(Shape(ctx.vs), v.id, n - 1);
    var inner := if ctx.kids[i] then RenderFrom(ctx, ChildIdx(Shape(ctx.vs), v.id), st, n - 1) else "";
    ItemMarkup(ctx.env, ctx.kind, v, ctx.kids[i], st, inner)
  }

  /** The items at positions `idx` rendered in order; the callback's changes to
      the children and item attributes and to the parameters carry over to
      the following items, not back from a nested level. */
  function RenderFrom(ctx: RenderCtx, idx: seq<nat>, st: CbArgs, n: nat): string
    requires WellFormed(ctx)
    requires Below(Shape(ctx.vs), idx, n)
    decreases n, |idx| + 1
  {
    if |idx| == 0 then ""
    else
      var st' := RunCallback(ctx.callback, ctx.vs[idx[0]], st);
      Piece(ctx, idx[0], st', n) + RenderFrom(ctx, idx[1..], st', n)
  }

  /** `render($type, $parent, ...)`: the children of `parent`. */
  function Render(ctx: RenderCtx, parent: Value, st: CbArgs, n: nat): string
    requires WellFormed(ctx)
    requires Bounded(Shape(ctx.vs), parent, n)
  {
    ChildrenBelow(Shape(ctx.vs), parent, n);
    RenderFrom(ctx, ChildIdx(Shape(ctx.vs), parent), st, n)
  }

  /** `asUl`, `asOl` and `asDiv`: the rendered roots inside the outer element. */
  function Wrapped(ctx: RenderCtx, attrs: PArray, st: CbArgs, n: nat): string
    requires WellFormed(ctx)
    requires Bounded(Shape(ctx.vs), Null, n)
  {
    "<" + ctx.kind + AttrString(ctx.env.escape, attrs) + ">" + Render(ctx, Null, st, n) + "</" + ctx.kind + ">"
  }

  /** The loop of `render` over the children of `parent`, in list order:
      each one's markup is appended, and the callback's changes to the
      attribute arrays carry on to the next item. */
  method RenderLevel(ctx: RenderCtx, parent: Value, st: CbArgs, ghost n: nat) returns (s: string)
    requires WellFormed(ctx)
    requires Bounded(Shape(ctx.vs), parent, n)
    ensures s == Render(ctx, parent, st, n)
    decreases n, 1
  {
    var ns := Shape(ctx.vs);
    var idx := ChildIdx(ns, parent);
    ChildrenBelow(ns, parent, n);
    var cur := st;
    s := "";
    var i := 0;
    while i < |idx|
      invariant 0 <= i <= |idx|
      invariant Below(ns, idx[i..], n)
      invariant s + RenderFrom(ctx, idx[i..], cur, n) == RenderFrom(ctx, idx, st, n)
    {
      RenderFromCons(ctx, idx, i, cur, n);
      var piece, next := RenderOne(ctx, idx[i], cur, n);
      ConcatAssoc(s, piece, RenderFrom(ctx, idx[i + 1..], next, n));
      s := s + piece;
      cur := next;
      i := i + 1;
    }
    assert idx[i..] == [];
  }

  lemma ConcatAssoc(a: string, b: string, c: string)
    ensures a + b + c == a + (b + c)
  {
  }

  /** One step of the loop of `RenderLevel`: the rendering of the positions
      from `i` on is the piece at `i` followed by the rendering of the rest. */
  lemma RenderFromCons(ctx: RenderCtx, idx: seq<nat>, i: nat, st: CbArgs, n: nat)
    requires WellFormed(ctx) && i < |idx| && Below(Shape(ctx.vs), idx[i..], n)
    ensures Below(Shape(ctx.vs), idx[i + 1..], n)
    ensures idx[i] < |ctx.vs| && n > 0 && Bounded(Shape(ctx.vs), ctx.vs[idx[i]].id, n - 1)
    ensures RenderFrom(ctx, idx[i..], st, n) ==
      Piece(ctx, idx[i], RunCallback(ctx.callback, ctx.vs[idx[i]], st), n)
      + RenderFrom(ctx, idx[i + 1..], RunCallback(ctx.callback, ctx.vs[idx[i]], st), n)
  {
    assert idx[i..][0] == idx[i] && idx[i..][1..] == idx[i + 1..];
  }

  /** One pass of the `render` loop, for the item at position `i`: the
      callback on the link attributes, then the item's markup around its
      rendered children. */
  method RenderOne(ctx: RenderCtx, i: nat, st: CbArgs, ghost n: nat) returns (piece: string, next: CbArgs)
    requires WellFormed(ctx)
    requires i < |ctx.vs| && n > 0 && Bounded(Shape(ctx.vs), ctx.vs[i].id, n - 1)
    ensures next == RunCallback(ctx.callback, ctx.vs[i], st)
    ensures piece == Piece(ctx, i, next, n)
    decreases n, 0
  {
    var v := ctx.vs[i];
    next := RunCallback(ctx.callback, v, st);
    var inner := "";
    if ctx.kids[i] {
      inner := RenderLevel(ctx, v.id, next, n - 1);
    }
    piece := ItemMarkup(ctx.env, ctx.kind, v, ctx.kids[i], next, inner);
  }

  /** Without a callback, every item's markup is independent of the others:
      the rendering of a list of positions is the concatenation of the
      renderings of its parts. */
  lemma {:induction false} RenderFromAppend(ctx: RenderCtx, a: seq<nat>, b: seq<nat>, st: CbArgs, n: nat)
    requires WellFormed(ctx) && ctx.callback.None?
    requires Below(Shape(ctx.vs), a, n) && Below(Shape(ctx.vs), b, n)
    ensures Below(Shape(ctx.vs), a + b, n)
    ensures RenderFrom(ctx, a + b, st, n) == RenderFrom(ctx, a, st, n) + RenderFrom(ctx, b, st, n)
    decreases |a|
  {
    var ns := Shape(ctx.vs);
    BelowAppend(ns, a, b, n);
    if |a| == 0 {
      assert a + b == b;
    } else {
      var ab := a + b;
      assert ab[0] == a[0] && ab[1..] == a[1..] + b;
      var st' := RunCallback(ctx.callback, ctx.vs[a[0]], st);
      RenderFromHead(ctx, a, st, n);
      RenderFromHead(ctx, ab, st, n);
      RenderFromAppend(ctx, a[1..], b, st', n);
      RenderFromIgnoresLink(ctx, b, st, st', n);
      var p := Piece(ctx, a[0], st', n);
      var r1 := RenderFrom(ctx, a[1..], st', n);
      var rb := RenderFrom(ctx, b, st', n);
      ConcatAssoc(p, r1, rb);
    }
  }

  /** The rendering of a non-empty position list is its first piece, then
      the rest with the callback's changes. */
  lemma RenderFromHead(ctx: RenderCtx, idx: seq<nat>, st: CbArgs, n: nat)
    requires WellFormed(ctx) && |idx| > 0 && Below(Shape(ctx.vs), idx, n)
    ensures Below(Shape(ctx.vs), idx[1..], n)
    ensures idx[0] < |ctx.vs| && n > 0 && Bounded(Shape(ctx.vs), ctx.vs[idx[0]].id, n - 1)
    ensures RenderFrom(ctx, idx, st, n) ==
      Piece(ctx, idx[0], RunCallback(ctx.callback, ctx.vs[idx[0]], st), n)
      + RenderFrom(ctx, idx[1..], RunCallback(ctx.callback, ctx.vs[idx[0]], st), n)
  {
  }

  /** Without a callback, only the link-attribute slot of the state changes
      between items, and that slot is rewritten before every use. */
  lemma {:induction false} RenderFromIgnoresLink(ctx: RenderCtx, idx: seq<nat>, s1: CbArgs, s2: CbArgs, n: nat)
    requires WellFormed(ctx) && ctx.callback.None?
    requires Below(Shape(ctx.vs), idx, n)
    requires s1.(link := s2.link) == s2
    ensures RenderFrom(ctx, idx, s1, n) == RenderFrom(ctx, idx, s2, n)
    decreases n, |idx|
  {
    if |idx| > 0 {
      var i := idx[0];
      var v := ctx.vs[i];
      var t1 := RunCallback(ctx.callback, v, s1);
      var t2 := RunCallback(ctx.callback, v, s2);
      assert t1.(link := t2.link) == t2;
      ChildrenBelow(Shape(ctx.vs), v.id, n - 1);
      var kids := ChildIdx(Shape(ctx.vs), v.id);
      var inner1 := if ctx.kids[i] then RenderFrom(ctx, kids, t1, n - 1) else "";
      var inner2 := if ctx.kids[i] then RenderFrom(ctx, kids, t2, n - 1) else "";
      if ctx.kids[i] {
        RenderFromIgnoresLink(ctx, kids, t1, t2, n - 1);
      }
      if v.link.None? {
        MarkupIgnoresLink(ctx.env, ctx.kind, v, ctx.kids[i], t1, t2, inner1);
      } else {
        assert t1 == t2;
      }
      assert Piece(ctx, i, t1, n) == ItemMarkup(ctx.env, ctx.kind, v, ctx.kids[i], t1, inner1);
      assert Piece(ctx, i, t2, n) == ItemMarkup(ctx.env, ctx.kind, v, ctx.kids[i], t2, inner2);
      RenderFromHead(ctx, idx, s1, n);
      RenderFromHead(ctx, idx, s2, n);
      RenderFromIgnoresLink(ctx, idx[1..], t1, t2, n);
    }
  }

  /** The link-attribute slot is not read for an item without a link. */
  lemma MarkupIgnoresLink(env: Env, kind: string, v: ItemView, hasKids: bool, t1: CbArgs, t2: CbArgs, inner: string)
    requires v.link.None? && t1.(link := t2.link) == t2
    ensures ItemMarkup(env, kind, v, hasKids, t1, inner) == ItemMarkup(env, kind, v, hasKids, t2, inner)
  {
  }

  // ---------------------------------------------------------------------
  // A rendered menu

  /** A root item without children, divider or HTML around it, whose link
      has only the URL option `u`. */
  function Leaf(id: string, title: string, u: string, attrs: PArray): ItemView
  {
    ItemView(Str(id), title, "", "", Null, [], Null,
      Some(LinkView([(UrlKey, Str(u)), (PrefixKey, Null)], Null, [], false)),
      [], false, attrs, false, false)
  }

  /** The URL of a leaf: the generator's URL for `/u`. */
  lemma LeafUrl(env: Env, id: string, title: string, u: string, attrs: PArray)
    requires !Truthy(env.scheme(u))
    ensures ItemUrl(env, Leaf(id, title, u, attrs)) == Str(env.to("/" + u, [], None))
  {
    var path := Leaf(id, title, u, attrs).link.value.path;
    assert Get(path, UrlKey) == Str(u) && Get(path, PrefixKey) == Null && !IsSet(path, SecureKey);
    DispatchUrl(env, path, u);
    assert ToStr(Null) + "/" + u == "/" + u;
  }

  /** The anchor of a leaf with a non-empty URL. */
  lemma LeafAnchor(env: Env, id: string, title: string, u: string, attrs: PArray)
    requires !Truthy(env.scheme(u)) && Truthy(Str(env.to("/" + u, [], None)))
    ensures Anchor(env, Leaf(id, title, u, attrs), []) == "<a href=\"" + env.to("/" + u, [], None) + "\">" + title + "</a>"
  {
    LeafUrl(env, id, title, u, attrs);
    PlainAnchor(env, Leaf(id, title, u, attrs), env.to("/" + u, [], None));
  }

  /** The anchor of an item without surrounding HTML or link attributes,
      whose URL is the non-empty string `url`. */
  lemma PlainAnchor(env: Env, v: ItemView, url: string)
    requires v.beforeHTML == "" && v.afterHTML == "" && ItemUrl(env, v) == Str(url) && Truthy(Str(url))
    ensures Anchor(env, v, []) == "<a href=\"" + url + "\">" + v.title + "</a>"
  {
    assert AttrString(env.escape, []) == "";
    var h := " href=\"" + url + "\"";
    var body := "<a" + h + ">" + v.title + "</a>";
    assert "" + "<a" + "" == "<a";
    assert body + "" == body;
    assert Anchor(env, v, []) == body;
    ConcatAssoc("<a", " href=\"", url);
    ConcatAssoc("<a", " href=\"" + url, "\"");
    ConcatAssoc("<a" + h, "\"", ">");
    assert "<a" + " href=\"" == "<a href=\"";
    assert "\"" + ">" == "\">";
  }

  /** The markup of a leaf without extra attributes: its wrapper around its anchor. */
  lemma LeafMarkup(env: Env, kind: string, id: string, title: string, u: string, attrs: PArray, st: CbArgs)
    requires st.item == [] && st.link == []
    ensures ItemMarkup(env, kind, Leaf(id, title, u, attrs), false, st, "") == "<" + ItemTag(kind) + AttrString(env.escape, attrs)
      + ">" + Anchor(env, Leaf(id, title, u, attrs), []) + "</" + ItemTag(kind) + ">"
  {
    var v := Leaf(id, title, u, attrs);
    var tag := ItemTag(kind);
    var head := "<" + tag + AttrString(env.escape, attrs) + ">" + Anchor(env, v, []);
    assert Union(attrs, []) == attrs;
    assert ItemMarkup(env, kind, v, false, st, "") == head + "" + "</" + tag + ">" + "";
    assert head + "" == head;
  }

  /** A leaf renders as its wrapper around the anchor of the generated URL. */
  lemma LeafPiece(ctx: RenderCtx, i: nat, st: CbArgs, id: string, title: string, u: string, attrs: PArray)
    requires WellFormed(ctx) && i < |ctx.vs| && !ctx.kids[i] && ctx.vs[i] == Leaf(id, title, u, attrs)
    requires !Truthy(ctx.env.scheme(u)) && Truthy(Str(ctx.env.to("/" + u, [], None)))
    requires st.item == [] && st.link == []
    requires Bounded(Shape(ctx.vs), ctx.vs[i].id, 0)
    ensures Piece(ctx, i, st, 1) == "<" + ItemTag(ctx.kind) + AttrString(ctx.env.escape, attrs) + ">"
      + ("<a href=\"" + ctx.env.to("/" + u, [], None) + "\">" + title + "</a>") + "</" + ItemTag(ctx.kind) + ">"
  {
    LeafMarkup(ctx.env, ctx.kind, id, title, u, attrs, st);
    LeafAnchor(ctx.env, id, title, u, attrs);
  }

  /** An item whose builder reports children that this list does not hold
      (a builder that took over some of another builder's items) still gets
      its nested element, which is then empty. */
  lemma ForeignKidsPiece(ctx: RenderCtx, i: nat, st: CbArgs, n: nat)
    requires WellFormed(ctx) && i < |ctx.vs| && n > 0 && Bounded(Shape(ctx.vs), ctx.vs[i].id, n - 1)
    requires ctx.kids[i] && ChildIdx(Shape(ctx.vs), ctx.vs[i].id) == []
    ensures Piece(ctx, i, st, n) == ItemMarkup(ctx.env, ctx.kind, ctx.vs[i], true, st, "")
  {
    assert RenderFrom(ctx, [], st, n - 1) == "";
  }

  /** With children reported and nothing to put inside, the item's element
      holds an empty nested element of the menu type. */
  lemma EmptyNested(env: Env, kind: string, v: ItemView, st: CbArgs)
    ensures ItemMarkup(env, kind, v, true, st, "") ==
      ItemElement(env, kind, v, st, "<" + kind + AttrString(env.escape, st.children) + "></" + kind + ">") + DividerElement(env, kind, v)
  {
    var sub := "<" + kind + AttrString(env.escape, st.children) + ">";
    assert Nested(env, kind, true, st, "") == sub + "" + "</" + kind + ">";
    assert sub + "" == sub;
  }

  /** A divider adds an empty sibling element, with the divider's attributes,
      after the item's own element. */
  lemma DividerMarkup(env: Env, kind: string, v: ItemView, hasKids: bool, st: CbArgs, inner: string)
    requires |v.divider| > 0
    ensures ItemMarkup(env, kind, v, hasKids, st, inner) == ItemMarkup(env, kind, v.(divider := []), hasKids, st, inner)
      + ("<" + ItemTag(kind) + AttrString(env.escape, v.divider) + "></" + ItemTag(kind) + ">")
  {
    var w := v.(divider := []);
    var nested := Nested(env, kind, hasKids, st, inner);
    assert Anchor(env, v, st.link) == Anchor(env, w, st.link);
    assert Content(env, v, st.link) == Content(env, w, st.link);
    assert ItemElement(env, kind, v, st, nested) == ItemElement(env, kind, w, st, nested);
    assert DividerElement(env, kind, w) == "";
    var x := ItemElement(env, kind, w, st, nested);
    assert x + "" == x;
  }

  /** An item without a link, children or divider shows its title bare,
      with no `<a>` element. */
  lemma RawMarkup(env: Env, kind: string, v: ItemView, st: CbArgs)
    requires v.link.None? && |v.divider| == 0
    ensures ItemMarkup(env, kind, v, false, st, "") == "<" + ItemTag(kind) + AttrString(env.escape, Union(v.attributes, st.item)) + ">"
      + v.title + "</" + ItemTag(kind) + ">"
  {
    var e := "<" + ItemTag(kind) + AttrString(env.escape, Union(v.attributes, st.item)) + ">" + v.title;
    assert Content(env, v, st.link) == v.title;
    assert Nested(env, kind, false, st, "") == "" && DividerElement(env, kind, v) == "";
    assert e + "" == e;
    var m := ItemElement(env, kind, v, st, "");
    assert m == e + "" + "</" + ItemTag(kind) + ">";
    assert m + "" == m;
  }

  /** A link whose path names no `url`, `route` or `action`, and which has no
      href, has an empty URL: its anchor carries no `href` attribute. */
  lemma NoHrefAnchor(env: Env, v: ItemView, linkAttr: PArray)
    requires v.link.Some? && !Truthy(v.link.value.href)
    requires !IsSet(v.link.value.path, UrlKey) && !IsSet(v.link.value.path, RouteKey) && !IsSet(v.link.value.path, ActionKey)
    ensures ItemUrl(env, v) == Null
    ensures Anchor(env, v, linkAttr) == v.beforeHTML + "<a" + AttrString(env.escape, linkAttr) + ">" + v.title + "</a>" + v.afterHTML
  {
    assert Dispatch(env, v.link.value.path) == Null;
    var a := v.beforeHTML + "<a" + AttrString(env.escape, linkAttr);
    assert a + "" + ">" == a + ">";
  }

  /** The positions `0 ..< m`. */
  function Upto(m: nat): (r: seq<nat>)
    ensures |r| == m && forall k :: 0 <= k < m ==> r[k] == k
  {
    if m == 0 then [] else Upto(m - 1) + [m - 1]
  }

  /** Items that all have a null parent and a non-empty string id are all
      roots, in list order, and none has children. */
  lemma {:induction false} AllRoots(ns: seq<Node>)
    requires forall k :: 0 <= k < |ns| ==> ns[k].parent == Null && ns[k].id.Str? && ns[k].id.s != ""
    ensures ChildIdx(ns, Null) == Upto(|ns|)
    ensures forall j :: 0 <= j < |ns| ==> Bounded(ns, ns[j].id, 0)
    ensures Bounded(ns, Null, 1)
    decreases |ns|
  {
    if |ns| > 0 {
      var init := ns[..|ns| - 1];
      AllRoots(init);
      assert LooseEq(ns[|ns| - 1].parent, Null);
    }
    forall j | 0 <= j < |ns| ensures Bounded(ns, ns[j].id, 0) {
      assert forall k :: 0 <= k < |ns| ==> !LooseEq(ns[k].parent, ns[j].id);
    }
  }
}
