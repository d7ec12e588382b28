/**
 The set operations of set.c that combine sets: union and intersection of a
 NULL-terminated array of sets (and the set.h macros that build that array),
 difference, subset and equality.  A `Set **` result argument is an
 Option<Set?>: None is a NULL pointer-to-pointer, Some(null) a pointer to a
 NULL set, and the slot each operation returns is the value the caller's
 pointer holds afterwards.
 */
module SetAlgebra {
  import opened Wrappers
  import opened Contents
  import opened LinkedSet

  /** The index of the NULL that ends an argument array. */
  function Terminator<T>(sets: seq<Set?<T>>): (t: nat)
    requires null in sets
    ensures t < |sets| && sets[t] == null
    ensures forall i :: 0 <= i < t ==> sets[i] != null
  {
    if sets[0] == null then 0
    else
      assert sets == [sets[0]] + sets[1..];
      1 + Terminator(sets[1..])
  }

  /** The abstract values of a run of sets. */
  ghost function Views<T>(sets: seq<Set?<T>>): (vs: seq<SetView<T>>)
    requires forall i :: 0 <= i < |sets| ==> sets[i] != null
    reads set i | 0 <= i < |sets| :: sets[i]
    ensures |vs| == |sets|
    ensures forall i :: 0 <= i < |sets| ==> vs[i] == sets[i].View()
  {
    if sets == [] then [] else Views(sets[..|sets| - 1]) + [sets[|sets| - 1].View()]
  }

  /** The inner loop of set_union_func: every member of src, in chain order,
      is inserted into u.  set_insert cannot fail here, because a stored value
      is never NULL, so the error exit is unreachable. */
  method InsertMembers<T>(u: Set<T>, src: Set<T>)
    requires u.Valid() && src.Valid() && u.Repr !! src.Repr
    modifies u.Repr
    ensures u.Valid() && fresh(u.Repr - old(u.Repr))
    ensures u.Contents == InsertAll(u.matches, old(u.Contents), src.Contents)
  {
    var current := src.head;
    ghost var k := 0;
    ghost var acc := u.Contents;
    while current != null
      invariant u.Valid() && fresh(u.Repr - old(u.Repr)) && u.Repr !! src.Repr && src.Valid()
      invariant InsertProgress(u, src, acc, k, current)
      decreases |src.Contents| - k
    {
      current := InsertNext(u, src, acc, current, k);
      k := k + 1;
    }
    TakeAll(src.Contents, k);
  }

  /** Where that loop stands at the k-th member of src. */
  ghost predicate InsertProgress<T>(u: Set<T>, src: Set<T>, acc: seq<T>, k: nat, current: Member?<T>)
    reads u, src
  {
    && k <= |src.Contents| && current == src.Cursor(k)
    && u.Contents == InsertAll(u.matches, acc, src.Contents[..k])
  }

  /** The body of that loop: set_insert of the k-th member of src, then
      `set_next(current)`. */
  method InsertNext<T>(u: Set<T>, src: Set<T>, ghost acc: seq<T>, current: Member<T>, ghost k: nat)
    returns (next: Member?<T>)
    requires u.Valid() && src.Valid() && u.Repr !! src.Repr
    requires InsertProgress(u, src, acc, k, current)
    modifies u.Repr
    ensures u.Valid() && fresh(u.Repr - old(u.Repr)) && u.Repr !! src.Repr && src.Valid()
    ensures InsertProgress(u, src, acc, k + 1, next)
  {
    src.NextCursor(k);
    next := current.next;
    InsertAllStep(u.matches, acc, src.Contents, k);
    var rc := Insert(u, Some(current.data));
    if rc < 0 {
      assert false;
    }
  }

  /** set_union_func: sets is the argument array, ended by NULL.  It fails
      (-1, the caller's pointer untouched) when the first set or the result
      pointer is NULL, or when the caller's set is not empty; otherwise the
      result is the caller's empty set or, for a NULL one, a new set taking
      the first set's match and destroy, and it receives every member of
      every set in turn.  The loop's `sets[i++]` visits the first set twice
      (see Contents.UnionFirstTwice). */
  method UnionFunc<T>(setu: Option<Set?<T>>, sets: seq<Set?<T>>) returns (rc: int, slot: Option<Set?<T>>)
    requires null in sets
    requires forall i :: 0 <= i < Terminator(sets) ==> sets[i].Valid()
    requires setu.Some? && setu.value != null ==> setu.value.Valid()
    requires setu.Some? && setu.value != null ==>
               forall i :: 0 <= i < Terminator(sets) ==> setu.value.Repr !! sets[i].Repr
    modifies if setu.Some? && setu.value != null then setu.value.Repr else {}
    ensures rc == 0 || rc == -1
    ensures rc == 0 <==>
              sets[0] != null && setu.Some? && (setu.value == null || old(setu.value.Contents) == [])
    ensures rc == -1 ==> slot == setu
    ensures rc == -1 && setu.Some? && setu.value != null ==>
              setu.value.Valid() && setu.value.Contents == old(setu.value.Contents)
    ensures rc == 0 ==> slot.Some? && slot.value != null && slot.value.Valid()
    ensures rc == 0 && setu.value == null ==>
              && fresh(slot.value.Repr)
              && slot.value.matches == sets[0].matches
              && slot.value.hasDestroy == sets[0].hasDestroy
    ensures rc == 0 && setu.value != null ==> slot == setu
    ensures rc == 0 ==>
              slot.value.Contents ==
              UnionAll(slot.value.matches, old([sets[0].View()] + Views(sets[..Terminator(sets)])))
  {
    if sets[0] == null || setu.None? {
      return -1, setu;
    }
    ghost var vs := Views(sets[..Terminator(sets)]);
    assert Inputs(sets, vs);
    var u: Set<T>;
    if setu.value == null {
      u := new Set(sets[0].matches, sets[0].hasDestroy);
    } else if setu.value.Size() > 0 {
      return -1, setu;
    } else {
      u := setu.value;
    }
    slot := Some(u);
    UnionInto(u, sets, vs);
    rc := 0;
  }

  /** The loop of set_union_func: `for (set = sets[i]; set != NULL; set =
      sets[i++])` runs with i at 0 twice, so the members of the first set are
      inserted twice, then those of every later set up to the NULL. */
  method UnionInto<T>(u: Set<T>, sets: seq<Set?<T>>, ghost vs: seq<SetView<T>>)
    requires 0 < |vs| < |sets| && sets[|vs|] == null
    requires u.Valid() && u.Contents == [] && Inputs(sets, vs) && Apart(u, sets, vs)
    modifies u.Repr
    ensures u.Valid() && fresh(u.Repr - old(u.Repr))
    ensures u.Contents == UnionAll(u.matches, [vs[0]] + vs)
  {
    var i := 0;
    var s := sets[i];
    while s != null
      invariant u.Valid() && fresh(u.Repr - old(u.Repr)) && Inputs(sets, vs) && Apart(u, sets, vs)
      invariant UnionProgress(u.matches, vs, sets, i, s, u.Contents)
      decreases |vs| + 1 - i
    {
      s, i := UnionPass(u, sets, vs, i, s);
    }
    assert vs[..i - 1] == vs;
  }

  /** The body of that loop: the members of the current set s are inserted,
      then `set = sets[i++]`. */
  method UnionPass<T>(u: Set<T>, sets: seq<Set?<T>>, ghost vs: seq<SetView<T>>, i: nat, s: Set<T>)
    returns (s': Set?<T>, i': nat)
    requires u.Valid() && Inputs(sets, vs) && Apart(u, sets, vs)
    requires UnionProgress(u.matches, vs, sets, i, s, u.Contents)
    modifies u.Repr
    ensures u.Valid() && fresh(u.Repr - old(u.Repr)) && Inputs(sets, vs) && Apart(u, sets, vs)
    ensures UnionProgress(u.matches, vs, sets, i', s', u.Contents) && i' == i + 1
  {
    ghost var before := u.Contents;
    InsertSet(u, sets, vs, if i == 0 then 0 else i - 1);
    UnionStep(u.matches, vs, sets, i, s, before, u.Contents);
    s' := sets[i];
    i' := i + 1;
  }

  /** Where the loop of set_union_func stands with i and the current set s:
      before the first pass nothing is inserted; before a later pass, the
      first set and the sets before position i - 1 are in. */
  ghost predicate UnionProgress<T>(m: (T, T) -> bool, vs: seq<SetView<T>>, sets: seq<Set?<T>>,
                                   i: nat, s: Set?<T>, contents: seq<T>)
  {
    && 0 < |vs| < |sets| && sets[|vs|] == null && i <= |vs| + 1
    && (i == 0 ==> s == sets[0] && contents == [])
    && (i > 0 ==> s == sets[i - 1] && contents == UnionAll(m, [vs[0]] + vs[..i - 1]))
  }

  /** The sets of the argument array before position |vs| are well formed
      and hold the values vs. */
  ghost predicate Inputs<T>(sets: seq<Set?<T>>, vs: seq<SetView<T>>)
    reads set j | 0 <= j < |vs| && j < |sets| :: sets[j]
    reads set j, o | 0 <= j < |vs| && j < |sets| && sets[j] != null && o in sets[j].Repr :: o
  {
    && |vs| < |sets|
    && forall j :: 0 <= j < |vs| ==> sets[j] != null && sets[j].Valid() && sets[j].View() == vs[j]
  }

  /** The result set u shares no object with those sets. */
  ghost predicate Apart<T>(u: Set<T>, sets: seq<Set?<T>>, vs: seq<SetView<T>>)
    reads u, set j | 0 <= j < |vs| && j < |sets| :: sets[j]
  {
    forall j :: 0 <= j < |vs| && j < |sets| && sets[j] != null ==> u.Repr !! sets[j].Repr
  }

  /** One pass of the outer loop: the members of sets[j] are inserted into u. */
  method InsertSet<T>(u: Set<T>, sets: seq<Set?<T>>, ghost vs: seq<SetView<T>>, j: nat)
    requires u.Valid() && Inputs(sets, vs) && Apart(u, sets, vs) && j < |vs|
    modifies u.Repr
    ensures u.Valid() && fresh(u.Repr - old(u.Repr)) && Inputs(sets, vs) && Apart(u, sets, vs)
    ensures u.Contents == InsertAll(u.matches, old(u.Contents), vs[j].items)
  {
    InsertMembers(u, sets[j]);
  }

  /** One pass of that loop, read on values: after inserting the members of
      the set at position i - 1 (of the first set when i is 0), the loop has
      advanced to `set = sets[i]`. */
  lemma UnionStep<T>(m: (T, T) -> bool, vs: seq<SetView<T>>, sets: seq<Set?<T>>, i: nat, s: Set?<T>,
                     before: seq<T>, after: seq<T>)
    requires UnionProgress(m, vs, sets, i, s, before) && s != null
    requires after == InsertAll(m, before, vs[if i == 0 then 0 else i - 1].items)
    ensures i < |sets| && UnionProgress(m, vs, sets, i + 1, sets[i], after)
  {
    var ws := [vs[0]] + vs[..i];
    if i == 0 {
      assert ws == [vs[0]];
    } else {
      assert ws[..|ws| - 1] == [vs[0]] + vs[..i - 1];
    }
  }

  /** The set_union macro: the sets given are passed to set_union_func with
      a NULL appended.  When none of them is NULL and the match is
      reflexive, the visit of the first set twice makes no difference and
      the result is the union of the sets given, in order. */
  method Union<T(!new)>(setu: Option<Set?<T>>, inputs: seq<Set?<T>>) returns (rc: int, slot: Option<Set?<T>>)
    requires |inputs| >= 1
    requires var sets := inputs + [null]; forall i :: 0 <= i < Terminator(sets) ==> sets[i].Valid()
    requires setu.Some? && setu.value != null ==> setu.value.Valid()
    requires setu.Some? && setu.value != null ==>
               var sets := inputs + [null]; forall i :: 0 <= i < Terminator(sets) ==> setu.value.Repr !! sets[i].Repr
    modifies if setu.Some? && setu.value != null then setu.value.Repr else {}
    ensures rc == 0 || rc == -1
    ensures rc == 0 <==>
              inputs[0] != null && setu.Some? && (setu.value == null || old(setu.value.Contents) == [])
    ensures rc == -1 ==> slot == setu
    ensures rc == 0 ==> slot.Some? && slot.value != null && slot.value.Valid()
    ensures rc == 0 && setu.value == null ==>
              && fresh(slot.value.Repr)
              && slot.value.matches == inputs[0].matches
              && slot.value.hasDestroy == inputs[0].hasDestroy
    ensures rc == 0 && setu.value != null ==> slot == setu
    ensures rc == 0 && null !in inputs && Reflexive(slot.value.matches) ==>
              slot.value.Contents == UnionAll(slot.value.matches, old(Views(inputs)))
  {
    var sets := inputs + [null];
    ghost var t := Terminator(sets);
    assert forall i :: 0 <= i < t ==> sets[i] == inputs[i];
    rc, slot := UnionFunc(setu, sets);
    if rc == 0 && null !in inputs {
      assert sets[..t] == inputs;
      if Reflexive(slot.value.matches) {
        UnionFirstTwice(slot.value.matches, old(Views(inputs)));
      }
    }
  }

  /** The set_intersection macro: the sets given are passed to
      set_intersection_func with a NULL appended.  When none of them is NULL,
      the result holds the members of the first that are in all the others;
      a result set it creates holds exactly those. */
  method Intersection<T>(seti: Option<Set?<T>>, inputs: seq<Set?<T>>) returns (rc: int, slot: Option<Set?<T>>)
    requires |inputs| >= 1
    requires var sets := inputs + [null]; forall i :: 0 <= i < Terminator(sets) ==> sets[i].Valid()
    requires seti.Some? && seti.value != null ==> seti.value.Valid()
    requires seti.Some? && seti.value != null ==>
               var sets := inputs + [null]; forall i :: 0 <= i < Terminator(sets) ==> seti.value.Repr !! sets[i].Repr
    modifies if seti.Some? && seti.value != null then seti.value.Repr else {}
    ensures rc == 0 || rc == -1
    ensures rc == 0 <==>
              inputs[0] != null && seti.Some? && (seti.value == null || old(seti.value.Contents) == [])
    ensures rc == -1 ==> slot == seti
    ensures rc == 0 ==> slot.Some? && slot.value != null && slot.value.Valid()
    ensures rc == 0 && seti.value == null ==>
              && fresh(slot.value.Repr)
              && slot.value.matches == inputs[0].matches
              && slot.value.hasDestroy == inputs[0].hasDestroy
    ensures rc == 0 && seti.value != null ==> slot == seti
    ensures rc == 0 && null !in inputs ==>
              slot.value.Contents ==
              InsertAll(slot.value.matches, [], old(Common(inputs[0].Contents, Views(inputs[1..]))))
    ensures rc == 0 && null !in inputs && seti.value == null ==>
              slot.value.Contents == old(Common(inputs[0].Contents, Views(inputs[1..])))
  {
    var sets := inputs + [null];
    ghost var t := Terminator(sets);
    assert forall i :: 0 <= i < t ==> sets[i] == inputs[i];
    rc, slot := IntersectionFunc(seti, sets);
    if null !in inputs {
      assert sets[1..t] == inputs[1..];
    }
  }

  /** set_intersection_func: the same argument checks and result set as
      set_union_func; the result receives, in chain order, each member of the
      first set that set_ismember finds in every later set up to the NULL.  The
      inserts go through set_insert with the result's match, whose answer is
      ignored. */
  method IntersectionFunc<T>(seti: Option<Set?<T>>, sets: seq<Set?<T>>) returns (rc: int, slot: Option<Set?<T>>)
    requires null in sets
    requires forall i :: 0 <= i < Terminator(sets) ==> sets[i].Valid()
    requires seti.Some? && seti.value != null ==> seti.value.Valid()
    requires seti.Some? && seti.value != null ==>
               forall i :: 0 <= i < Terminator(sets) ==> seti.value.Repr !! sets[i].Repr
    modifies if seti.Some? && seti.value != null then seti.value.Repr else {}
    ensures rc == 0 || rc == -1
    ensures rc == 0 <==>
              sets[0] != null && seti.Some? && (seti.value == null || old(seti.value.Contents) == [])
    ensures rc == -1 ==> slot == seti
    ensures rc == -1 && seti.Some? && seti.value != null ==>
              seti.value.Valid() && seti.value.Contents == old(seti.value.Contents)
    ensures rc == 0 ==> slot.Some? && slot.value != null && slot.value.Valid()
    ensures rc == 0 && seti.value == null ==>
              && fresh(slot.value.Repr)
              && slot.value.matches == sets[0].matches
              && slot.value.hasDestroy == sets[0].hasDestroy
    ensures rc == 0 && seti.value != null ==> slot == seti
    ensures rc == 0 ==>
              slot.value.Contents ==
              InsertAll(slot.value.matches, [], old(IntersectionOf(sets)))
    ensures rc == 0 && seti.value == null ==>
              slot.value.Contents == old(IntersectionOf(sets))
  {
    if sets[0] == null || seti.None? {
      return -1, seti;
    }
    var u: Set<T>;
    if seti.value == null {
      u := new Set(sets[0].matches, sets[0].hasDestroy);
    } else if seti.value.Size() > 0 {
      return -1, seti;
    } else {
      u := seti.value;
    }
    slot := Some(u);
    IntersectRun(u, sets);
    rc := 0;
  }

  /** The members of the first set that are in every later set up to the
      NULL, in chain order. */
  ghost function IntersectionOf<T>(sets: seq<Set?<T>>): seq<T>
    requires null in sets && sets[0] != null
    reads set i | 0 <= i < |sets| :: sets[i]
  {
    Common(sets[0].Contents, Views(sets[1..Terminator(sets)]))
  }

  /** set_intersection_func once its arguments are checked and u is the empty
      result set.  When u has the first set's match, the inserts keep every
      common member. */
  method IntersectRun<T>(u: Set<T>, sets: seq<Set?<T>>)
    requires null in sets && sets[0] != null
    requires forall i :: 0 <= i < Terminator(sets) ==> sets[i].Valid()
    requires u.Valid() && u.Contents == []
    requires forall i :: 0 <= i < Terminator(sets) ==> u.Repr !! sets[i].Repr
    modifies u.Repr
    ensures u.Valid() && fresh(u.Repr - old(u.Repr))
    ensures u.Contents == InsertAll(u.matches, [], old(IntersectionOf(sets)))
    ensures u.matches == sets[0].matches ==>
              u.Contents == old(IntersectionOf(sets))
  {
    ghost var t := Terminator(sets);
    ghost var vs := Views(sets[..t]);
    assert Inputs(sets, vs);
    assert Views(sets[1..t]) == vs[1..];
    IntersectInto(u, sets, vs);
    if u.matches == sets[0].matches {
      CommonFresh(u.matches, vs[0].items, vs[1..]);
    }
  }

  /** The loop of set_intersection_func over the members of the first set. */
  method IntersectInto<T>(u: Set<T>, sets: seq<Set?<T>>, ghost vs: seq<SetView<T>>)
    requires 0 < |vs| < |sets| && sets[|vs|] == null
    requires u.Valid() && u.Contents == [] && Inputs(sets, vs) && Apart(u, sets, vs)
    modifies u.Repr
    ensures u.Valid() && fresh(u.Repr - old(u.Repr))
    ensures u.Contents == InsertAll(u.matches, [], Common(vs[0].items, vs[1..]))
  {
    var current := sets[0].head;
    ghost var k := 0;
    while current != null
      invariant u.Valid() && fresh(u.Repr - old(u.Repr)) && Inputs(sets, vs) && Apart(u, sets, vs)
      invariant IntersectProgress(u, sets, vs, k, current)
      decreases |vs[0].items| - k
    {
      current := IntersectPass(u, sets, vs, current, k);
      k := k + 1;
    }
    TakeAll(vs[0].items, k);
  }

  /** The body of that loop for the k-th member of the first set: it is
      inserted when no later set lacks it. */
  method IntersectPass<T>(u: Set<T>, sets: seq<Set?<T>>, ghost vs: seq<SetView<T>>, current: Member<T>, ghost k: nat)
    returns (next: Member?<T>)
    requires 0 < |vs| < |sets| && sets[|vs|] == null
    requires u.Valid() && Inputs(sets, vs) && Apart(u, sets, vs)
    requires IntersectProgress(u, sets, vs, k, current)
    modifies u.Repr
    ensures u.Valid() && fresh(u.Repr - old(u.Repr)) && Inputs(sets, vs) && Apart(u, sets, vs)
    ensures IntersectProgress(u, sets, vs, k + 1, next)
  {
    var nonmember := Nonmember(sets, vs, current.data);
    sets[0].NextCursor(k);
    next := current.next;
    if nonmember {
      CommonStep(u.matches, vs[0].items, vs[1..], k, false);
    } else {
      IntersectKeep(u, sets, vs, current, k);
    }
  }

  /** The k-th member of the first set, which every later set holds, is
      inserted into u. */
  method IntersectKeep<T>(u: Set<T>, sets: seq<Set?<T>>, ghost vs: seq<SetView<T>>, current: Member<T>, ghost k: nat)
    requires 0 < |vs| < |sets| && sets[|vs|] == null
    requires u.Valid() && Inputs(sets, vs) && Apart(u, sets, vs)
    requires IntersectProgress(u, sets, vs, k, current)
    requires k < |vs[0].items| && InAll(vs[1..], current.data)
    modifies u.Repr
    ensures u.Valid() && fresh(u.Repr - old(u.Repr)) && Inputs(sets, vs) && Apart(u, sets, vs)
    ensures IntersectProgress(u, sets, vs, k + 1, current.next)
  {
    sets[0].NextCursor(k);
    CommonStep(u.matches, vs[0].items, vs[1..], k, true);
    InsertOne(u, sets, vs, current.data);
  }

  /** set_insert of one value into u, which leaves the input sets alone. */
  method InsertOne<T>(u: Set<T>, sets: seq<Set?<T>>, ghost vs: seq<SetView<T>>, x: T)
    requires u.Valid() && Inputs(sets, vs) && Apart(u, sets, vs)
    modifies u.Repr
    ensures u.Valid() && fresh(u.Repr - old(u.Repr)) && Inputs(sets, vs) && Apart(u, sets, vs)
    ensures u.Contents == Add(u.matches, old(u.Contents), x)
  {
    var _ := Insert(u, Some(x));
  }

  /** Where the loop of set_intersection_func stands at the k-th member of
      the first set: u holds the members before it that every later set
      holds. */
  ghost predicate IntersectProgress<T>(u: Set<T>, sets: seq<Set?<T>>, vs: seq<SetView<T>>, k: nat, current: Member?<T>)
    reads u, if 0 < |sets| && sets[0] != null then {sets[0]} else {}
  {
    && 0 < |vs| && 0 < |sets| && sets[0] != null
    && k <= |vs[0].items| && current == sets[0].Cursor(k)
    && u.Contents == InsertAll(u.matches, [], Common(vs[0].items[..k], vs[1..]))
  }

  /** The inner loop of set_intersection_func: starting from the second set,
      set_ismember is asked about x until a set lacks it or the NULL is
      reached; the answer is whether some set lacked it. */
  method Nonmember<T>(sets: seq<Set?<T>>, ghost vs: seq<SetView<T>>, x: T) returns (nonmember: bool)
    requires 0 < |vs| < |sets| && sets[|vs|] == null && Inputs(sets, vs)
    ensures nonmember <==> !InAll(vs[1..], x)
    ensures Inputs(sets, vs)
  {
    nonmember := false;
    var j := 1;
    while sets[j] != null && !nonmember
      invariant 1 <= j <= |vs|
      invariant !nonmember <==> forall l :: 1 <= l < j ==> In(vs[l], x)
      decreases |vs| - j
    {
      var r := IsMember(sets[j], Some(x));
      nonmember := r == 0;
      j := j + 1;
    }
    if !nonmember {
      assert j == |vs|;
      assert forall l :: 0 <= l < |vs| - 1 ==> vs[1..][l] == vs[l + 1];
    }
  }

  /** set_difference: with setd, set1 and set2 all given, *setd is
      overwritten by a fresh set with set1's match and destroy callback, and
      it receives, in chain order, each member of set1 that set_ismember does
      not find in set2.  The result is exactly Minus of set1 by set2: no insert
      can meet a duplicate, so the error exit after a failed insert is never
      taken. */
  method Difference<T>(setd: Option<Set?<T>>, s1: Set?<T>, s2: Set?<T>) returns (rc: int, slot: Option<Set?<T>>)
    requires s1 != null ==> s1.Valid()
    requires s2 != null ==> s2.Valid()
    ensures rc == 0 || rc == -1
    ensures rc == -1 <==> setd.None? || s1 == null || s2 == null
    ensures rc == -1 ==> slot == setd
    ensures rc == 0 ==>
              && slot.Some? && slot.value != null && fresh(slot.value.Repr) && slot.value.Valid()
              && slot.value.matches == s1.matches && slot.value.hasDestroy == s1.hasDestroy
              && slot.value.Contents == Minus(s1.Contents, s2.View())
  {
    if setd.None? || s1 == null || s2 == null {
      return -1, setd;
    }
    var d := new Set(s1.matches, s1.hasDestroy);
    var current := s1.head;
    ghost var k := 0;
    while current != null
      invariant d.Valid() && fresh(d.Repr) && d.matches == s1.matches && d.hasDestroy == s1.hasDestroy
      invariant DifferenceProgress(d, s1, s2, k, current)
      decreases |s1.Contents| - k
    {
      current := DifferencePass(d, s1, s2, current, k);
      k := k + 1;
    }
    TakeAll(s1.Contents, k);
    return 0, Some(d);
  }

  /** Where the loop of set_difference stands at the k-th member of set1. */
  ghost predicate DifferenceProgress<T>(d: Set<T>, s1: Set<T>, s2: Set<T>, k: nat, current: Member?<T>)
    reads d, s1, s1.Repr, s2, s2.Repr
  {
    && s1.Valid() && s2.Valid() && d.Repr !! s1.Repr && d.Repr !! s2.Repr
    && k <= |s1.Contents| && current == s1.Cursor(k)
    && d.Contents == Minus(s1.Contents[..k], s2.View())
  }

  /** The body of that loop: the k-th member of set1 is inserted when set2
      lacks it, and set_insert answers 0 because it is new to d. */
  method DifferencePass<T>(d: Set<T>, s1: Set<T>, s2: Set<T>, current: Member<T>, ghost k: nat)
    returns (next: Member?<T>)
    requires d.Valid() && d.matches == s1.matches
    requires DifferenceProgress(d, s1, s2, k, current)
    modifies d.Repr
    ensures d.Valid() && fresh(d.Repr - old(d.Repr))
    ensures DifferenceProgress(d, s1, s2, k + 1, next)
  {
    var member := IsMember(s2, Some(current.data));
    s1.NextCursor(k);
    next := current.next;
    if member == 0 {
      DifferenceKeep(d, s1, s2, current, k);
    } else {
      MinusStep(s1.Contents, s2.View(), k);
    }
  }

  /** The k-th member of set1, which set2 lacks, is inserted into d. */
  method DifferenceKeep<T>(d: Set<T>, s1: Set<T>, s2: Set<T>, current: Member<T>, ghost k: nat)
    requires d.Valid() && d.matches == s1.matches
    requires DifferenceProgress(d, s1, s2, k, current)
    requires k < |s1.Contents| && !In(s2.View(), current.data)
    modifies d.Repr
    ensures d.Valid() && fresh(d.Repr - old(d.Repr))
    ensures DifferenceProgress(d, s1, s2, k + 1, current.next)
  {
    s1.NextCursor(k);
    MinusStep(s1.Contents, s2.View(), k);
    MinusFresh(d.matches, s1.Contents, s2.View(), k);
    InsertNew(d, s1, s2, current.data);
  }

  /** set_insert of a value new to d, so that it answers 0 and the error exit
      of set_difference is not taken; set1 and set2 are left alone. */
  method InsertNew<T>(d: Set<T>, s1: Set<T>, s2: Set<T>, x: T)
    requires d.Valid() && s1.Valid() && s2.Valid() && d.Repr !! s1.Repr && d.Repr !! s2.Repr
    requires !Mem(d.matches, d.Contents, x)
    modifies d.Repr
    ensures d.Valid() && fresh(d.Repr - old(d.Repr)) && d.Contents == old(d.Contents) + [x]
    ensures s1.Valid() && s2.Valid() && d.Repr !! s1.Repr && d.Repr !! s2.Repr
    ensures unchanged(s1) && unchanged(s2)
  {
    var rc := Insert(d, Some(x));
    if rc != 0 {
      assert false;
    }
  }

  /** set_issubset: 0 when a set is NULL; otherwise 1 exactly when set_ismember
      finds every member of set1 in set2.  The early answer 1 for an empty
      set1 and a non-empty set2 agrees with the loop, which finds nothing to
      reject. */
  method IsSubset<T>(s1: Set?<T>, s2: Set?<T>) returns (r: int)
    requires s1 != null ==> s1.Valid()
    requires s2 != null ==> s2.Valid()
    ensures r == 0 || r == 1
    ensures r == 1 <==> s1 != null && s2 != null && AllIn(s1.Contents, s2.View())
  {
    if s1 == null || s2 == null {
      return 0;
    }
    if s1.IsEmpty() == 1 && s2.IsEmpty() == 0 {
      return 1;
    }
    r := Includes(s1, s2);
  }

  /** set_isequal: 0 when a set is NULL or the sizes differ; otherwise 1
      exactly when set_ismember finds every member of set1 in set2. */
  method IsEqual<T>(s1: Set?<T>, s2: Set?<T>) returns (r: int)
    requires s1 != null ==> s1.Valid()
    requires s2 != null ==> s2.Valid()
    ensures r == 0 || r == 1
    ensures r == 1 <==>
              s1 != null && s2 != null && |s1.Contents| == |s2.Contents| && AllIn(s1.Contents, s2.View())
  {
    if s1 == null || s2 == null || s1.Size() != s2.Size() {
      return 0;
    }
    r := Includes(s1, s2);
  }

  /** The loop that set_issubset and set_isequal share: walk set1's chain and
      answer 0 at the first member set_ismember does not find in set2. */
  method Includes<T>(s1: Set<T>, s2: Set<T>) returns (r: int)
    requires s1.Valid() && s2.Valid()
    ensures r == (if AllIn(s1.Contents, s2.View()) then 1 else 0)
  {
    var current := s1.head;
    ghost var k := 0;
    while current != null
      invariant k <= |s1.Contents| && current == s1.Cursor(k)
      invariant AllIn(s1.Contents[..k], s2.View())
      decreases |s1.Contents| - k
    {
      s1.NextCursor(k);
      var member := IsMember(s2, Some(current.data));
      if member == 0 {
        return 0;
      }
      assert s1.Contents[..k + 1] == s1.Contents[..k] + [current.data];
      current := current.next;
      k := k + 1;
    }
    TakeAll(s1.Contents, k);
    return 1;
  }

  lemma TakeAll<T>(xs: seq<T>, k: nat)
    requires k == |xs|
    ensures xs[..k] == xs
  {
  }
}
