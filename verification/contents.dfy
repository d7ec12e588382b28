/**
 The abstract value of a set: the sequence of its stored values in chain order
 (which is insertion order), compared with the set's match predicate.  Every
 operation of set.c is specified by a function of this module, and the
 properties the design promises (no duplicates, membership of a union, an
 intersection and a difference, symmetry of equality) are lemmas here.
 */
module Contents {

  /* The properties a caller-supplied match predicate is expected to have. */

  ghost predicate Reflexive<T(!new)>(m: (T, T) -> bool) {
    forall x :: m(x, x)
  }

  ghost predicate Symmetric<T(!new)>(m: (T, T) -> bool) {
    forall x, y :: m(x, y) ==> m(y, x)
  }

  ghost predicate Transitive<T(!new)>(m: (T, T) -> bool) {
    forall x, y, z :: m(x, y) && m(y, z) ==> m(x, z)
  }

  ghost predicate Equivalence<T(!new)>(m: (T, T) -> bool) {
    Reflexive(m) && Symmetric(m) && Transitive(m)
  }

  /** A predicate on values that cannot tell matching values apart. */
  ghost predicate Respects<T(!new)>(m: (T, T) -> bool, p: T -> bool) {
    forall a, b :: m(a, b) ==> (p(a) <==> p(b))
  }

  /** Some stored value matches the probe x; the stored value is the first
      argument of m, as in set_ismember. */
  predicate Mem<T>(m: (T, T) -> bool, s: seq<T>, x: T) {
    exists i :: 0 <= i < |s| && m(s[i], x)
  }

  /** No stored value matches a value stored after it: the set invariant that
      set_insert maintains by checking membership first. */
  predicate NoDup<T>(m: (T, T) -> bool, s: seq<T>) {
    forall i, j :: 0 <= i < j < |s| ==> !m(s[i], s[j])
  }

  lemma MemPrefix<T>(m: (T, T) -> bool, s: seq<T>, r: seq<T>, x: T)
    requires s <= r && Mem(m, s, x)
    ensures Mem(m, r, x)
  {
    var i :| 0 <= i < |s| && m(s[i], x);
    assert r[i] == s[i];
  }

  lemma NoDupSnoc<T>(m: (T, T) -> bool, s: seq<T>, x: T)
    ensures NoDup(m, s + [x]) <==> NoDup(m, s) && !Mem(m, s, x)
  {
    var t := s + [x];
    if NoDup(m, t) {
      forall i, j | 0 <= i < j < |s| ensures !m(s[i], s[j]) {
        assert s[i] == t[i] && s[j] == t[j];
      }
      forall i | 0 <= i < |s| ensures !m(s[i], x) {
        assert s[i] == t[i] && x == t[|s|];
      }
    }
  }

  /** Removing one stored value keeps the others free of duplicates. */
  /** s with its k-th element taken out, the rest in their order. */
  function Without<T>(s: seq<T>, k: nat): (r: seq<T>)
    requires k < |s|
    ensures |r| == |s| - 1
    ensures forall i :: 0 <= i < |r| ==> r[i] == if i < k then s[i] else s[i + 1]
  {
    s[..k] + s[k + 1..]
  }

  /** No element occurs twice. */
  ghost predicate Distinct<T>(s: seq<T>) {
    forall i, j :: 0 <= i < j < |s| ==> s[i] != s[j]
  }

  lemma DistinctWithout<T>(s: seq<T>, k: nat)
    requires Distinct(s) && k < |s|
    ensures Distinct(Without(s, k))
  {
    var t := Without(s, k);
    forall i, j | 0 <= i < j < |t| ensures t[i] != t[j] {
      var i', j' := if i < k then i else i + 1, if j < k then j else j + 1;
      assert t[i] == s[i'] && t[j] == s[j'] && i' < j';
    }
  }

  lemma DistinctSnoc<T>(s: seq<T>, x: T)
    requires Distinct(s) && x !in s
    ensures Distinct(s + [x])
  {
  }

  lemma NoDupRemove<T>(m: (T, T) -> bool, s: seq<T>, k: nat)
    requires NoDup(m, s) && k < |s|
    ensures NoDup(m, Without(s, k))
  {
    var t := Without(s, k);
    forall i, j | 0 <= i < j < |t| ensures !m(t[i], t[j]) {
      var i' := if i < k then i else i + 1;
      var j' := if j < k then j else j + 1;
      assert t[i] == s[i'] && t[j] == s[j'];
    }
  }

  /** The member set_remove unlinks for a probe x: the first one matching it. */
  function FirstMatch<T>(m: (T, T) -> bool, s: seq<T>, x: T): (k: nat)
    requires Mem(m, s, x)
    ensures k < |s| && m(s[k], x)
    ensures forall i :: 0 <= i < k ==> !m(s[i], x)
  {
    if m(s[0], x) then 0
    else
      var i :| 0 <= i < |s| && m(s[i], x);
      assert s[1..][i - 1] == s[i];
      1 + FirstMatch(m, s[1..], x)
  }

  /** What set_insert does to the contents when the value is not NULL. */
  function Add<T>(m: (T, T) -> bool, s: seq<T>, x: T): (r: seq<T>)
    ensures s <= r && |r| <= |s| + 1
    ensures Mem(m, s, x) ==> r == s
    ensures NoDup(m, s) ==> NoDup(m, r)
    ensures m(x, x) ==> Mem(m, r, x)
  {
    NoDupSnoc(m, s, x);
    if Mem(m, s, x) then s
    else
      assert (s + [x])[|s|] == x;
      s + [x]
  }

  /** The contents after inserting each of xs, in order, into a set holding acc. */
  function InsertAll<T>(m: (T, T) -> bool, acc: seq<T>, xs: seq<T>): (r: seq<T>)
    ensures acc <= r && |r| <= |acc| + |xs|
    ensures NoDup(m, acc) ==> NoDup(m, r)
    decreases |xs|
  {
    if xs == [] then acc
    else Add(m, InsertAll(m, acc, xs[..|xs| - 1]), xs[|xs| - 1])
  }

  lemma InsertAllSnoc<T>(m: (T, T) -> bool, acc: seq<T>, ys: seq<T>, y: T)
    ensures InsertAll(m, acc, ys + [y]) == Add(m, InsertAll(m, acc, ys), y)
  {
    assert (ys + [y])[..|ys|] == ys;
  }

  /** One more step of a left-to-right insertion loop. */
  lemma InsertAllStep<T>(m: (T, T) -> bool, acc: seq<T>, xs: seq<T>, k: nat)
    requires k < |xs|
    ensures InsertAll(m, acc, xs[..k + 1]) == Add(m, InsertAll(m, acc, xs[..k]), xs[k])
  {
    assert xs[..k + 1][..k] == xs[..k];
  }

  lemma {:induction false} InsertAllMem<T(!new)>(m: (T, T) -> bool, acc: seq<T>, xs: seq<T>, y: T)
    requires Transitive(m)
    ensures Mem(m, InsertAll(m, acc, xs), y) <==> Mem(m, acc, y) || Mem(m, xs, y)
    decreases |xs|
  {
    if xs != [] {
      var n := |xs| - 1;
      var front, x := xs[..n], xs[n];
      var r' := InsertAll(m, acc, front);
      var r := InsertAll(m, acc, xs);
      InsertAllMem(m, acc, front, y);
      assert r == Add(m, r', x);
      if Mem(m, front, y) {
        var i :| 0 <= i < n && m(front[i], y);
        assert xs[i] == front[i];
      }
      if Mem(m, xs, y) && !Mem(m, front, y) {
        if Mem(m, r', x) {
          var j :| 0 <= j < |r'| && m(r'[j], x);
          assert m(r'[j], y);
        } else {
          assert r[|r'|] == x;
        }
      }
      if Mem(m, r, y) {
        var j :| 0 <= j < |r| && m(r[j], y);
        if j < |r'| {
          assert r'[j] == r[j];
        } else {
          assert r[j] == x && xs[n] == x;
        }
      }
      if Mem(m, r', y) {
        MemPrefix(m, r', r, y);
      }
    }
  }

  /** Inserting values with no duplicates among them, none matching acc,
      appends them all. */
  lemma {:induction false} InsertAllFresh<T>(m: (T, T) -> bool, acc: seq<T>, xs: seq<T>)
    requires NoDup(m, acc + xs)
    ensures InsertAll(m, acc, xs) == acc + xs
    decreases |xs|
  {
    if xs != [] {
      var n := |xs| - 1;
      assert acc + xs == (acc + xs[..n]) + [xs[n]];
      NoDupSnoc(m, acc + xs[..n], xs[n]);
      InsertAllFresh(m, acc, xs[..n]);
    }
  }

  /** Inserting values that are all already members changes nothing. */
  lemma {:induction false} InsertAllAbsorbs<T>(m: (T, T) -> bool, s: seq<T>, xs: seq<T>)
    requires forall i :: 0 <= i < |xs| ==> Mem(m, s, xs[i])
    ensures InsertAll(m, s, xs) == s
    decreases |xs|
  {
    if xs != [] {
      InsertAllAbsorbs(m, s, xs[..|xs| - 1]);
    }
  }

  /** With a reflexive match, every inserted value is a member afterwards. */
  lemma {:induction false} InsertAllCovers<T(!new)>(m: (T, T) -> bool, acc: seq<T>, xs: seq<T>)
    requires Reflexive(m)
    ensures forall i :: 0 <= i < |xs| ==> Mem(m, InsertAll(m, acc, xs), xs[i])
    decreases |xs|
  {
    if xs != [] {
      var n := |xs| - 1;
      var r' := InsertAll(m, acc, xs[..n]);
      var r := InsertAll(m, acc, xs);
      InsertAllCovers(m, acc, xs[..n]);
      forall i | 0 <= i < |xs| ensures Mem(m, r, xs[i]) {
        if i < n {
          assert xs[..n][i] == xs[i];
          MemPrefix(m, r', r, xs[i]);
        }
      }
    }
  }

  /** The abstract value of one set: its match predicate and its contents. */
  datatype SetView<!T> = SetView(matches: (T, T) -> bool, items: seq<T>)

  /** set_ismember on a set with this view answers 1. */
  predicate In<T>(v: SetView<T>, x: T) {
    Mem(v.matches, v.items, x)
  }

  /** The contents set_union_func builds with match m from the sets vs, taken
      in order, each member inserted in chain order. */
  function UnionAll<T>(m: (T, T) -> bool, vs: seq<SetView<T>>): (r: seq<T>)
    ensures NoDup(m, r)
    ensures |vs| == 1 ==> r == InsertAll(m, [], vs[0].items)
    decreases |vs|
  {
    if vs == [] then []
    else InsertAll(m, UnionAll(m, vs[..|vs| - 1]), vs[|vs| - 1].items)
  }

  /** A union holds exactly the values that match a member of some input. */
  lemma {:induction false} UnionAllMem<T(!new)>(m: (T, T) -> bool, vs: seq<SetView<T>>, y: T)
    requires Transitive(m)
    ensures Mem(m, UnionAll(m, vs), y) <==> exists j :: 0 <= j < |vs| && Mem(m, vs[j].items, y)
    decreases |vs|
  {
    if vs != [] {
      var n := |vs| - 1;
      UnionAllMem(m, vs[..n], y);
      InsertAllMem(m, UnionAll(m, vs[..n]), vs[n].items, y);
      if exists j :: 0 <= j < |vs| && Mem(m, vs[j].items, y) {
        var j :| 0 <= j < |vs| && Mem(m, vs[j].items, y);
        if j < n {
          assert vs[..n][j] == vs[j];
        }
      }
      if exists j :: 0 <= j < n && Mem(m, vs[..n][j].items, y) {
        var j :| 0 <= j < n && Mem(m, vs[..n][j].items, y);
        assert vs[..n][j] == vs[j];
      }
    }
  }

  /** Taking the first input twice, as set_union_func's loop does, gives the
      same union as taking it once. */
  lemma {:induction false} UnionFirstTwice<T(!new)>(m: (T, T) -> bool, vs: seq<SetView<T>>)
    requires Reflexive(m) && |vs| >= 1
    ensures UnionAll(m, [vs[0]] + vs) == UnionAll(m, vs)
    decreases |vs|
  {
    var n := |vs| - 1;
    if n == 0 {
      var once := InsertAll(m, [], vs[0].items);
      UnionAllSnoc(m, [vs[0]], vs[0]);
      assert [vs[0]] + vs == [vs[0]] + [vs[0]];
      InsertAllCovers(m, [], vs[0].items);
      InsertAllAbsorbs(m, once, vs[0].items);
    } else {
      UnionFirstTwice(m, vs[..n]);
      assert [vs[0]] + vs == ([vs[..n][0]] + vs[..n]) + [vs[n]];
      assert vs == vs[..n] + [vs[n]];
      UnionAllSnoc(m, [vs[..n][0]] + vs[..n], vs[n]);
      UnionAllSnoc(m, vs[..n], vs[n]);
    }
  }

  lemma UnionAllSnoc<T>(m: (T, T) -> bool, vs: seq<SetView<T>>, v: SetView<T>)
    ensures UnionAll(m, vs + [v]) == InsertAll(m, UnionAll(m, vs), v.items)
  {
    assert (vs + [v])[..|vs|] == vs;
  }

  /** Keeps, in order, the values of xs that satisfy p. */
  function Filter<T>(xs: seq<T>, p: T -> bool): (r: seq<T>)
    ensures |r| <= |xs|
    ensures forall i :: 0 <= i < |r| ==> r[i] in xs && p(r[i])
    ensures forall i :: 0 <= i < |xs| && p(xs[i]) ==> xs[i] in r
    decreases |xs|
  {
    if xs == [] then []
    else
      var n := |xs| - 1;
      var r' := Filter(xs[..n], p);
      assert xs == xs[..n] + [xs[n]];
      if p(xs[n]) then r' + [xs[n]] else r'
  }

  /** One more step of a left-to-right filtering loop. */
  lemma FilterStep<T>(xs: seq<T>, p: T -> bool, k: nat)
    requires k < |xs|
    ensures Filter(xs[..k + 1], p) == Filter(xs[..k], p) + (if p(xs[k]) then [xs[k]] else [])
  {
    assert xs[..k + 1][..k] == xs[..k];
  }

  lemma {:induction false} FilterNoDup<T>(m: (T, T) -> bool, xs: seq<T>, p: T -> bool)
    requires NoDup(m, xs)
    ensures NoDup(m, Filter(xs, p))
    decreases |xs|
  {
    if xs != [] {
      var n := |xs| - 1;
      var r' := Filter(xs[..n], p);
      assert xs == xs[..n] + [xs[n]];
      NoDupSnoc(m, xs[..n], xs[n]);
      FilterNoDup(m, xs[..n], p);
      if p(xs[n]) {
        forall i | 0 <= i < |r'| ensures !m(r'[i], xs[n]) {
          assert r'[i] in xs[..n];
        }
        NoDupSnoc(m, r', xs[n]);
      }
    }
  }

  /** Filtering by a predicate that respects the match keeps exactly the
      members that satisfy it. */
  lemma FilterMem<T(!new)>(m: (T, T) -> bool, xs: seq<T>, p: T -> bool, y: T)
    requires Respects(m, p)
    ensures Mem(m, Filter(xs, p), y) <==> Mem(m, xs, y) && p(y)
  {
    var r := Filter(xs, p);
    if Mem(m, r, y) {
      var i :| 0 <= i < |r| && m(r[i], y);
      assert r[i] in xs;
    }
    if Mem(m, xs, y) && p(y) {
      var i :| 0 <= i < |xs| && m(xs[i], y);
      assert xs[i] in r;
    }
  }

  /** The value x is in every set of vs. */
  predicate InAll<T>(vs: seq<SetView<T>>, x: T) {
    forall j :: 0 <= j < |vs| ==> In(vs[j], x)
  }

  /** The contents set_intersection_func keeps from the first set: the members
      of xs that are in every other set. */
  function Common<T>(xs: seq<T>, vs: seq<SetView<T>>): seq<T> {
    Filter(xs, x => InAll(vs, x))
  }

  /** One more member of xs examined by the intersection loop: it is added
      exactly when every view in vs holds it. */
  lemma CommonStep<T>(m: (T, T) -> bool, xs: seq<T>, vs: seq<SetView<T>>, k: nat, inAll: bool)
    requires k < |xs| && inAll == InAll(vs, xs[k])
    ensures InsertAll(m, [], Common(xs[..k + 1], vs)) ==
            if inAll then Add(m, InsertAll(m, [], Common(xs[..k], vs)), xs[k])
            else InsertAll(m, [], Common(xs[..k], vs))
  {
    assert Common(xs[..k + 1], vs) == Common(xs[..k], vs) + (if inAll then [xs[k]] else []) by {
      assert xs[..k + 1][..k] == xs[..k];
    }
    if inAll {
      InsertAllSnoc(m, [], Common(xs[..k], vs), xs[k]);
    }
  }

  lemma CommonSnoc<T>(xs: seq<T>, vs: seq<SetView<T>>, k: nat)
    requires k < |xs|
    ensures Common(xs[..k + 1], vs) == Common(xs[..k], vs) + (if InAll(vs, xs[k]) then [xs[k]] else [])
  {
    assert xs[..k + 1][..k] == xs[..k];
  }

  /** Inserting the common members of a duplicate-free sequence into an empty
      set keeps all of them, in order. */
  lemma CommonFresh<T>(m: (T, T) -> bool, xs: seq<T>, vs: seq<SetView<T>>)
    requires NoDup(m, xs)
    ensures InsertAll(m, [], Common(xs, vs)) == Common(xs, vs)
  {
    FilterNoDup(m, xs, x => InAll(vs, x));
    InsertAllFresh(m, [], Common(xs, vs));
  }

  /** The contents set_difference builds: the members of xs not in v. */
  function Minus<T>(xs: seq<T>, v: SetView<T>): seq<T> {
    Filter(xs, x => !In(v, x))
  }

  /** One more member of xs examined by the difference loop: it is added
      exactly when v does not hold it. */
  lemma MinusStep<T>(xs: seq<T>, v: SetView<T>, k: nat)
    requires k < |xs|
    ensures Minus(xs[..k + 1], v) == Minus(xs[..k], v) + (if In(v, xs[k]) then [] else [xs[k]])
  {
    assert xs[..k + 1][..k] == xs[..k];
  }

  /** Without duplicates in xs, the difference built from the members before
      position k never already holds the k-th one. */
  lemma MinusFresh<T>(m: (T, T) -> bool, xs: seq<T>, v: SetView<T>, k: nat)
    requires NoDup(m, xs) && k < |xs|
    ensures !Mem(m, Minus(xs[..k], v), xs[k])
  {
    FilterPrefixFresh(m, xs, x => !In(v, x), k);
  }

  /** Every member of xs is in v: what set_issubset answers 1 for. */
  predicate AllIn<T>(xs: seq<T>, v: SetView<T>) {
    forall i :: 0 <= i < |xs| ==> In(v, xs[i])
  }

  lemma InRespects<T(!new)>(m: (T, T) -> bool, v: SetView<T>)
    requires Symmetric(m) && Transitive(m) && v.matches == m
    ensures Respects(m, x => In(v, x))
  {
    forall a, b | m(a, b) ensures In(v, a) <==> In(v, b) {
      if In(v, a) {
        var i :| 0 <= i < |v.items| && m(v.items[i], a);
        assert m(v.items[i], b);
      }
      if In(v, b) {
        var i :| 0 <= i < |v.items| && m(v.items[i], b);
        assert m(b, a);
        assert m(v.items[i], a);
      }
    }
  }

  /** An intersection holds exactly the members of the first set that are in
      every other set. */
  lemma CommonMem<T(!new)>(m: (T, T) -> bool, xs: seq<T>, vs: seq<SetView<T>>, y: T)
    requires Symmetric(m) && Transitive(m)
    requires forall j :: 0 <= j < |vs| ==> vs[j].matches == m
    ensures Mem(m, Common(xs, vs), y) <==> Mem(m, xs, y) && InAll(vs, y)
  {
    forall j | 0 <= j < |vs| {
      InRespects(m, vs[j]);
    }
    assert Respects(m, x => InAll(vs, x)) by {
      forall a, b | m(a, b) ensures InAll(vs, a) <==> InAll(vs, b) {
        forall j | 0 <= j < |vs| ensures In(vs[j], a) <==> In(vs[j], b) {
          assert Respects(m, x => In(vs[j], x));
        }
      }
    }
    FilterMem(m, xs, x => InAll(vs, x), y);
  }

  /** A difference holds exactly the members of the first set that are not in
      the second. */
  lemma MinusMem<T(!new)>(m: (T, T) -> bool, xs: seq<T>, v: SetView<T>, y: T)
    requires Symmetric(m) && Transitive(m) && v.matches == m
    ensures Mem(m, Minus(xs, v), y) <==> Mem(m, xs, y) && !In(v, y)
  {
    InRespects(m, v);
    FilterMem(m, xs, x => !In(v, x), y);
  }

  /** The union of two duplicate-free sets is the first followed by the members
      of the second that are not in the first, in their order. */
  lemma {:induction false} InsertAllIsAppendNew<T>(m: (T, T) -> bool, a: seq<T>, b: seq<T>)
    requires NoDup(m, b)
    ensures InsertAll(m, a, b) == a + Minus(b, SetView(m, a))
    decreases |b|
  {
    if b != [] {
      var n := |b| - 1;
      var x := b[n];
      var f' := Minus(b[..n], SetView(m, a));
      assert b == b[..n] + [x];
      NoDupSnoc(m, b[..n], x);
      InsertAllIsAppendNew(m, a, b[..n]);
      if !Mem(m, a, x) {
        forall j | 0 <= j < |a + f'| ensures !m((a + f')[j], x) {
          if j >= |a| {
            assert (a + f')[j] == f'[j - |a|];
            assert f'[j - |a|] in b[..n];
          }
        }
      } else {
        var i :| 0 <= i < |a| && m(a[i], x);
        assert (a + f')[i] == a[i];
      }
    }
  }

  /** set_isequal compares sizes and one direction of inclusion; for
      duplicate-free sets under an equivalence, equal sizes and one inclusion
      give the other inclusion (a pigeonhole argument). */
  lemma {:induction false} SameSizeInclusion<T(!new)>(m: (T, T) -> bool, xs: seq<T>, ys: seq<T>)
    requires Equivalence(m) && NoDup(m, xs) && NoDup(m, ys)
    requires forall i :: 0 <= i < |xs| ==> Mem(m, ys, xs[i])
    ensures |xs| <= |ys|
    ensures |xs| == |ys| ==> forall i :: 0 <= i < |ys| ==> Mem(m, xs, ys[i])
    decreases |xs|
  {
    if xs != [] {
      var n := |xs| - 1;
      var x := xs[n];
      var k :| 0 <= k < |ys| && m(ys[k], x);
      var ys' := Without(ys, k);
      var xs' := xs[..n];
      NoDupRemove(m, ys, k);
      assert xs == xs' + [x];
      NoDupSnoc(m, xs', x);
      forall i | 0 <= i < n ensures Mem(m, ys', xs'[i]) {
        assert !m(xs'[i], x);
        MemKept(m, ys, k, xs'[i]);
      }
      SameSizeInclusion(m, xs', ys');
      if |xs| == |ys| {
        forall i | 0 <= i < |ys| ensures Mem(m, xs, ys[i]) {
          if i == k {
            assert m(xs[n], ys[k]);
          } else {
            var i' := if i < k then i else i - 1;
            assert ys'[i'] == ys[i];
            MemPrefix(m, xs', xs, ys[i]);
          }
        }
      }
    }
  }

  /** Removing the member at position k keeps every value it does not match. */
  lemma MemKept<T(!new)>(m: (T, T) -> bool, s: seq<T>, k: nat, y: T)
    requires Equivalence(m) && k < |s| && Mem(m, s, y) && !m(y, s[k])
    ensures Mem(m, Without(s, k), y)
  {
    var l :| 0 <= l < |s| && m(s[l], y);
    if l < k {
      assert Without(s, k)[l] == s[l];
    } else if l > k {
      assert Without(s, k)[l - 1] == s[l];
    }
  }

  /** In a duplicate-free sequence, a member never matches anything kept from
      the members before it: set_difference's inserts always succeed. */
  lemma FilterPrefixFresh<T>(m: (T, T) -> bool, xs: seq<T>, p: T -> bool, k: nat)
    requires NoDup(m, xs) && k < |xs|
    ensures !Mem(m, Filter(xs[..k], p), xs[k])
  {
    var r := Filter(xs[..k], p);
    forall i | 0 <= i < |r| ensures !m(r[i], xs[k]) {
      assert r[i] in xs[..k];
    }
  }

  /** set_issubset's answer, every member of xs is in (ys, m), is inclusion of
      the values the two sets hold. */
  lemma SubsetMeansInclusion<T(!new)>(m: (T, T) -> bool, xs: seq<T>, ys: seq<T>)
    requires Reflexive(m) && Transitive(m)
    ensures AllIn(xs, SetView(m, ys)) <==> forall y :: Mem(m, xs, y) ==> Mem(m, ys, y)
  {
    if AllIn(xs, SetView(m, ys)) {
      forall y | Mem(m, xs, y) ensures Mem(m, ys, y) {
        var i :| 0 <= i < |xs| && m(xs[i], y);
        assert In(SetView(m, ys), xs[i]);
        var j :| 0 <= j < |ys| && m(ys[j], xs[i]);
      }
    }
    if forall y :: Mem(m, xs, y) ==> Mem(m, ys, y) {
      forall i | 0 <= i < |xs| ensures In(SetView(m, ys), xs[i]) {
        assert m(xs[i], xs[i]);
        assert Mem(m, xs, xs[i]);
      }
    }
  }

  /** set_isequal's answer, equal sizes and every member of xs in (ys, m), is
      equality of the values the two sets hold, when m is an equivalence and
      neither set holds two matching values. */
  lemma EqualMeansSameMembers<T(!new)>(m: (T, T) -> bool, xs: seq<T>, ys: seq<T>)
    requires Equivalence(m) && NoDup(m, xs) && NoDup(m, ys)
    ensures |xs| == |ys| && AllIn(xs, SetView(m, ys)) <==>
              forall y :: Mem(m, xs, y) <==> Mem(m, ys, y)
  {
    SubsetMeansInclusion(m, xs, ys);
    SubsetMeansInclusion(m, ys, xs);
    if |xs| == |ys| && AllIn(xs, SetView(m, ys)) {
      SameSizeInclusion(m, xs, ys);
      assert AllIn(ys, SetView(m, xs));
    }
    if forall y :: Mem(m, xs, y) <==> Mem(m, ys, y) {
      SameSizeInclusion(m, xs, ys);
      SameSizeInclusion(m, ys, xs);
    }
  }
}
