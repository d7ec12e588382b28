/**
 The stale tail left by set_remove.  When the member it removes is the last
 one and not the first, set_remove unlinks it by clearing its predecessor's
 next link but leaves the Set's tail pointing at the removed member.  The
 next set_insert then appends behind that member, out of reach of head.
 */
module StaleTail {
  import opened Wrappers
  import opened Contents
  import opened LinkedSet
  import opened Scenarios

  /** On the set {1, 2}, set_remove of 2 as written, then set_insert of 3 as
      written (its non-empty branch writes through the tail pointer): the
      insert answers 0 and the size says 2, but the chain from head ends
      after the value 1, so 3 cannot be reached. */
  method RemoveLastThenInsert() returns (s: Set<int>, rc: int)
    ensures rc == 0 && s.size == 2
    ensures s.head != null && s.head.data == 1 && s.head.next == null
  {
    s := Build([1, 2]);
    SecondIsLast(s.matches, s.Contents);
    var removed, slot, current := RemoveAsWritten(s, Some(2));
    ThreeIsNew(s.matches, s.Contents);
    var member := IsMember(s, Some(3));
    if member != 0 {
      return s, 1;
    }
    var m := new Member(3);
    s.tail.next := m;
    s.tail := m;
    s.size := s.size + 1;
    rc := 0;
  }

  /** The same calls with the corrected set_remove, which moves tail back to
      the new last member: the chain then holds 1 and 3. */
  method RemoveLastThenInsertFixed() returns (s: Set<int>, rc: int)
    ensures rc == 0 && s.Valid() && s.Contents == [1, 3]
  {
    s := Build([1, 2]);
    SecondIsLast(s.matches, s.Contents);
    var removed, slot := Remove(s, Some(2));
    ThreeIsNew(s.matches, s.Contents);
    rc := Insert(s, Some(3));
  }

  /** Removing 2 from {1, 2} unlinks the last member and leaves {1}. */
  lemma SecondIsLast(m: (int, int) -> bool, xs: seq<int>)
    requires forall a, b :: m(a, b) <==> a == b
    requires xs == [1, 2]
    ensures Mem(m, xs, 2) && FirstMatch(m, xs, 2) == 1 && Without(xs, 1) == [1]
  {
    assert m(xs[1], 2) && !m(xs[0], 2);
  }

  /** 3 is new to {1}, so set_insert appends it. */
  lemma ThreeIsNew(m: (int, int) -> bool, xs: seq<int>)
    requires forall a, b :: m(a, b) <==> a == b
    requires xs == [1]
    ensures !Mem(m, xs, 3) && Add(m, xs, 3) == [1, 3]
  {
    NotMem(m, xs, 3);
  }
}
