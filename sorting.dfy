/** `Builder::sortBy($name, $type)`: the comparison closure the builder
    hands to the collection's sort, and a sort by that closure. Elements are
    paired with the property they are sorted by. */
module Sorting {
  import opened Php
  import opened Tree

  /** PHP `==` between two properties: loose between scalars, between a
      scalar and an array or object as the filter compares them
      (`Tree.PropEq`), and order-blind and loose between two arrays. An
      array never equals an object; two objects are not told apart. */
  predicate SameProp(f: Prop, s: Prop)
  {
    match (f, s)
    case (Scalar(a), Scalar(b)) => LooseEq(a, b)
    case (Scalar(a), _) => PropEq(s, a)
    case (_, Scalar(b)) => PropEq(f, b)
    case (ArrayProp(x), ArrayProp(y)) => ArrayLooseEq(x, y)
    case _ => f == s
  }

  /** The closure of `sortBy($name, $type)`, applied to the two properties:
      0 when they are equal, else 1 when `f` goes after `s` and -1
      otherwise. `asc` is `'asc' == $type`; `less` is PHP's `<`, so that
      `$f > $s` is `less(s, f)`. */
  function Compare(f: Prop, s: Prop, asc: bool, less: (Prop, Prop) -> bool): (c: int)
    ensures c == 0 <==> SameProp(f, s)
    ensures c > 0 <==> !SameProp(f, s) && (if asc then less(s, f) else less(f, s))
  {
    if SameProp(f, s) then 0
    else if asc then (if less(s, f) then 1 else -1)
    else (if less(f, s) then 1 else -1)
  }

  /** Two arrays with the same pairs in another order compare equal, and so
      do `['1']` and `[1]`. */
  lemma ArrayPropsLoose()
    ensures SameProp(ArrayProp([(Name("a"), Int(1)), (Name("b"), Int(2))]), ArrayProp([(Name("b"), Int(2)), (Name("a"), Int(1))]))
    ensures SameProp(ArrayProp([(Index(0), Str("1"))]), ArrayProp([(Index(0), Int(1))]))
    ensures !SameProp(ArrayProp([(Name("a"), Int(1))]), ArrayProp([(Name("b"), Int(1))]))
  {
    var ab: PArray := [(Name("a"), Int(1)), (Name("b"), Int(2))];
    var ba: PArray := [(Name("b"), Int(2)), (Name("a"), Int(1))];
    assert Get(ba, Name("a")) == Int(1) && Get(ba, Name("b")) == Int(2);
    var b: PArray := [(Name("b"), Int(1))];
    assert Lookup(b[1..], Name("a")) == None;
    assert !HasKey(b, Name("a"));
  }

  /** PHP's `<` never holds both ways between two properties. */
  ghost predicate Asymmetric(less: (Prop, Prop) -> bool)
  {
    forall a, b :: less(a, b) ==> !less(b, a)
  }

  /** When `f` goes after `s`, `s` goes before `f`. */
  lemma CompareFlip(f: Prop, s: Prop, asc: bool, less: (Prop, Prop) -> bool)
    requires Asymmetric(less)
    ensures Compare(f, s, asc, less) > 0 ==> Compare(s, f, asc, less) < 0
  {
    if f.Scalar? && s.Scalar? {
      LooseEqSymmetric(f.v, s.v);
    } else if f.ArrayProp? && s.ArrayProp? {
      ArrayLooseEqSymmetric(f.a, s.a);
    }
  }

  /** The elements of the pairs, without their properties. */
  function Firsts<T>(ps: seq<(T, Prop)>): (r: seq<T>)
    ensures |r| == |ps| && forall k :: 0 <= k < |ps| ==> r[k] == ps[k].0
  {
    seq(|ps|, k requires 0 <= k < |ps| => ps[k].0)
  }

  /** Every element goes no later than the one after it. */
  predicate Ordered<T>(r: seq<(T, Prop)>, asc: bool, less: (Prop, Prop) -> bool)
  {
    forall k :: 0 < k < |r| ==> Compare(r[k - 1].1, r[k].1, asc, less) <= 0
  }

  /** Insert `x` after the last element that does not go after it. */
  method Insert<T>(r: seq<(T, Prop)>, x: (T, Prop), asc: bool, less: (Prop, Prop) -> bool) returns (out: seq<(T, Prop)>)
    requires Asymmetric(less) && Ordered(r, asc, less)
    ensures Ordered(out, asc, less)
    ensures multiset(out) == multiset(r) + multiset{x}
    ensures multiset(Firsts(out)) == multiset(Firsts(r)) + multiset{x.0}
  {
    var p := |r|;
    while p > 0 && Compare(r[p - 1].1, x.1, asc, less) > 0
      invariant 0 <= p <= |r|
      invariant forall k :: p <= k < |r| ==> Compare(r[k].1, x.1, asc, less) > 0
    {
      p := p - 1;
    }
    out := r[..p] + [x] + r[p..];
    InsertOrdered(r, x, p, asc, less);
    InsertCounts(r, x, p);
  }

  /** Putting `x` at `p` keeps the order when the element before does not
      go after `x` and the element at `p` does. */
  lemma InsertOrdered<T>(r: seq<(T, Prop)>, x: (T, Prop), p: nat, asc: bool, less: (Prop, Prop) -> bool)
    requires Asymmetric(less) && Ordered(r, asc, less) && p <= |r|
    requires p > 0 ==> Compare(r[p - 1].1, x.1, asc, less) <= 0
    requires p < |r| ==> Compare(r[p].1, x.1, asc, less) > 0
    ensures Ordered(r[..p] + [x] + r[p..], asc, less)
  {
    var out := r[..p] + [x] + r[p..];
    if p < |r| {
      CompareFlip(r[p].1, x.1, asc, less);
    }
    forall k | 0 < k < |out| ensures Compare(out[k - 1].1, out[k].1, asc, less) <= 0 {
      if k < p {
        assert out[k - 1] == r[k - 1] && out[k] == r[k];
      } else if k == p {
        assert out[k - 1] == r[p - 1] && out[k] == x;
      } else if k == p + 1 {
        assert out[k - 1] == x && out[k] == r[p];
      } else {
        assert out[k - 1] == r[k - 2] && out[k] == r[k - 1];
      }
    }
  }

  /** Putting `x` at `p` adds `x` and its element once each. */
  lemma InsertCounts<T>(r: seq<(T, Prop)>, x: (T, Prop), p: nat)
    requires p <= |r|
    ensures multiset(r[..p] + [x] + r[p..]) == multiset(r) + multiset{x}
    ensures multiset(Firsts(r[..p] + [x] + r[p..])) == multiset(Firsts(r)) + multiset{x.0}
  {
    assert r == r[..p] + r[p..];
    FirstsAppend(r[..p], r[p..]);
    FirstsAppend(r[..p], [x]);
    FirstsAppend(r[..p] + [x], r[p..]);
  }

  /** The elements of two lists of pairs joined are their elements joined. */
  lemma FirstsAppend<T>(a: seq<(T, Prop)>, b: seq<(T, Prop)>)
    ensures Firsts(a + b) == Firsts(a) + Firsts(b)
  {
  }

  /** The sort: insertion of each pair in turn, which keeps pairs that
      compare equal in their original order. */
  method SortPairs<T>(ps: seq<(T, Prop)>, asc: bool, less: (Prop, Prop) -> bool) returns (r: seq<(T, Prop)>)
    requires Asymmetric(less)
    ensures Ordered(r, asc, less)
    ensures multiset(r) == multiset(ps)
    ensures multiset(Firsts(r)) == multiset(Firsts(ps))
  {
    r := [];
    var i := 0;
    while i < |ps|
      invariant 0 <= i <= |ps|
      invariant Ordered(r, asc, less)
      invariant multiset(r) == multiset(ps[..i])
      invariant multiset(Firsts(r)) == multiset(Firsts(ps[..i]))
    {
      r := Insert(r, ps[i], asc, less);
      assert ps[..i + 1] == ps[..i] + [ps[i]];
      assert Firsts(ps[..i + 1]) == Firsts(ps[..i]) + [ps[i].0];
      i := i + 1;
    }
    assert ps[..i] == ps;
  }
}
