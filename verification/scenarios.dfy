/**
 The set operations on small sets of integers compared by equality, the
 matcher set.c's own harness uses: {0, 1, 2} and {2, 4, 6}.
 */
module Scenarios {
  import opened Wrappers
  import opened Contents
  import opened LinkedSet
  import opened SetAlgebra

  /** A set holding xs, inserted in order. */
  method Build(xs: seq<int>) returns (s: Set<int>)
    requires forall i, j :: 0 <= i < j < |xs| ==> xs[i] != xs[j]
    ensures s.Valid() && fresh(s.Repr) && s.Contents == xs
    ensures forall a, b :: s.matches(a, b) <==> a == b
  {
    s := new Set((a: int, b: int) => a == b, false);
    var k := 0;
    while k < |xs|
      invariant k <= |xs| && s.Valid() && fresh(s.Repr) && s.Contents == xs[..k]
    {
      var rc := Insert(s, Some(xs[k]));
      assert xs[..k + 1] == xs[..k] + [xs[k]];
      k := k + 1;
    }
  }

  /** set_union(&u, A, B) with u NULL, then set_traverse of u: the members
      of A, then those of B that A lacks. */
  method UnionOfTwo() returns (rc: int, visited: seq<int>)
    ensures rc == 0 && visited == [0, 1, 2, 4, 6]
  {
    var a := Build([0, 1, 2]);
    var b := Build([2, 4, 6]);
    ghost var vs := Views([a, b]);
    var slot;
    rc, slot := Union(Some(null), [a, b]);
    assert Reflexive(slot.value.matches);
    UnionOfTwoValues(slot.value.matches, vs);
    var _, v := Traverse(slot.value);
    visited := v;
  }

  /** The union computed on values: {0, 1, 2} then {2, 4, 6}. */
  lemma UnionOfTwoValues(m: (int, int) -> bool, vs: seq<SetView<int>>)
    requires forall a, b :: m(a, b) <==> a == b
    requires |vs| == 2 && vs[0].items == [0, 1, 2] && vs[1].items == [2, 4, 6]
    ensures UnionAll(m, vs) == [0, 1, 2, 4, 6]
  {
    var xs, ys := vs[0].items, vs[1].items;
    assert NoDup(m, [] + xs);
    InsertAllFresh(m, [], xs);
    assert [] + xs == xs;
    assert vs[..1] == [vs[0]];
    assert UnionAll(m, vs[..1]) == xs;
    assert UnionAll(m, vs) == InsertAll(m, xs, ys);
    SecondInserted(m);
  }

  /** Inserting 2, 4 and 6 into {0, 1, 2}: 2 is rejected, 4 and 6 appended. */
  lemma SecondInserted(m: (int, int) -> bool)
    requires forall a, b :: m(a, b) <==> a == b
    ensures InsertAll(m, [0, 1, 2], [2, 4, 6]) == [0, 1, 2, 4, 6]
  {
    var first: seq<int> := [0, 1, 2];
    assert InsertAll(m, first, [2]) == first by {
      assert [2][..0] == [];
      assert m(first[2], 2);
    }
    InsertAllSnoc(m, first, [2], 4);
    InsertAllSnoc(m, first, [2, 4], 6);
    assert [2] + [4] == [2, 4] && [2, 4] + [6] == [2, 4, 6];
    NewValues(m);
    assert first + [4] == [0, 1, 2, 4];
  }

  /** set_intersection(&i, A, B) with i NULL, then set_traverse of i: the
      one member of A that B holds. */
  method IntersectionOfTwo() returns (rc: int, visited: seq<int>)
    ensures rc == 0 && visited == [2]
  {
    var a := Build([0, 1, 2]);
    var b := Build([2, 4, 6]);
    ghost var xs, vs := a.Contents, Views([b]);
    var slot;
    rc, slot := Intersection(Some(null), [a, b]);
    assert [a, b][1..] == [b];
    CommonOfTwoValues(xs, vs);
    var _, v := Traverse(slot.value);
    visited := v;
  }

  /** set_difference(&d, A, B), then set_traverse of d: the members of A
      that B lacks. */
  method DifferenceOfTwo() returns (rc: int, visited: seq<int>)
    ensures rc == 0 && visited == [0, 1]
  {
    var a := Build([0, 1, 2]);
    var b := Build([2, 4, 6]);
    var slot;
    rc, slot := Difference(Some(null), a, b);
    MinusOfTwoValues(a.Contents, b.View());
    var _, v := Traverse(slot.value);
    visited := v;
  }

  /** The intersection computed on values. */
  lemma CommonOfTwoValues(xs: seq<int>, vs: seq<SetView<int>>)
    requires xs == [0, 1, 2] && |vs| == 1 && vs[0].items == [2, 4, 6]
    requires forall a, b :: vs[0].matches(a, b) <==> a == b
    ensures Common(xs, vs) == [2]
  {
    var v := vs[0];
    NotMem(v.matches, v.items, 0);
    NotMem(v.matches, v.items, 1);
    assert v.matches(v.items[0], 2);
    assert InAll(vs, 2) && !InAll(vs, 0) && !InAll(vs, 1);
    CommonSnoc(xs, vs, 0);
    CommonSnoc(xs, vs, 1);
    CommonSnoc(xs, vs, 2);
    assert xs[..0] == [] && xs[..3] == xs;
  }

  /** The difference computed on values. */
  lemma MinusOfTwoValues(xs: seq<int>, v: SetView<int>)
    requires xs == [0, 1, 2] && v.items == [2, 4, 6]
    requires forall a, b :: v.matches(a, b) <==> a == b
    ensures Minus(xs, v) == [0, 1]
  {
    NotMem(v.matches, v.items, 0);
    NotMem(v.matches, v.items, 1);
    assert v.matches(v.items[0], 2);
    MinusStep(xs, v, 0);
    MinusStep(xs, v, 1);
    MinusStep(xs, v, 2);
    assert xs[..0] == [] && xs[..3] == xs;
  }

  /** A value equal to no stored value is not a member. */
  lemma NotMem(m: (int, int) -> bool, s: seq<int>, x: int)
    requires forall a, b :: m(a, b) <==> a == b
    requires x !in s
    ensures !Mem(m, s, x)
  {
    forall i | 0 <= i < |s| ensures !m(s[i], x) {
      assert s[i] in s && s[i] != x;
    }
  }

  /** 4 is new to {0, 1, 2}, and 6 to {0, 1, 2, 4}. */
  lemma NewValues(m: (int, int) -> bool)
    requires forall a, b :: m(a, b) <==> a == b
    ensures !Mem(m, [0, 1, 2], 4) && !Mem(m, [0, 1, 2, 4], 6)
  {
    var s: seq<int> := [0, 1, 2, 4];
    forall i | 0 <= i < |s| ensures s[i] < 6 && (i < 3 ==> s[i] < 4) {
    }
  }
}
