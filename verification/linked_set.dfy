/**
 The set container of set.c: a singly linked chain of Member nodes reached
 from the Set record's head, with a tail pointer for appending and a size
 count.  Values are opaque; a NULL value is Option.None, a NULL set is a null
 reference.  Each Set carries ghost fields that give its abstract value: the
 sequence of stored values (Contents), the chain of nodes that hold them
 (Nodes) and every object it uses (Repr).
 */
module LinkedSet {
  import opened Wrappers
  import opened Contents

  /** One link of the chain: a stored value and the next link, or null after
      the last member.  set.c never rewrites a link's value once it is linked,
      so the value is a constant here. */
  class Member<T> {
    const data: T
    var next: Member?<T>

    constructor (data: T)
      ensures this.data == data && next == null
    {
      this.data := data;
      next := null;
    }
  }

  /** The Set record: the member count, the match and destroy callbacks given
      at creation, and the first and last links.  The destroy callback is
      modelled only by whether one was supplied. */
  class Set<T> {
    var size: int
    const matches: (T, T) -> bool
    const hasDestroy: bool
    var head: Member?<T>
    var tail: Member?<T>

    ghost var Contents: seq<T>
    ghost var Nodes: seq<Member<T>>
    ghost var Repr: set<object>

    /** The cursor a scan from head holds after k steps of set_next: the k-th
        link, or null once past the last one. */
    ghost function Cursor(k: nat): Member?<T>
      reads this
    {
      if k < |Nodes| then Nodes[k] else null
    }

    /** Everything the set promises except where tail points: the chain from
        head visits exactly Nodes, each holding the matching value of
        Contents, size counts them, and no two stored values match. */
    ghost predicate Linked()
      reads this, Repr
    {
      && this in Repr
      && size == |Nodes|
      && |Contents| == |Nodes|
      && (forall i :: 0 <= i < |Nodes| ==> Nodes[i] in Repr)
      && Distinct(Nodes)
      && (forall i :: 0 <= i < |Nodes| ==> Nodes[i].data == Contents[i])
      && (forall i :: 0 <= i < |Nodes| - 1 ==> Nodes[i].next == Nodes[i + 1])
      && (Nodes != [] ==> Nodes[|Nodes| - 1].next == null)
      && head == Cursor(0)
      && NoDup(matches, Contents)
    }

    /** tail is the last link, or null when the set is empty. */
    ghost predicate TailOk()
      reads this
    {
      tail == if Nodes == [] then null else Nodes[|Nodes| - 1]
    }

    ghost predicate Valid()
      reads this, Repr
    {
      Linked() && TailOk()
    }

    ghost function View(): SetView<T>
      reads this
    {
      SetView(matches, Contents)
    }

    /** set_create: a new empty set with the given callbacks. */
    constructor (matches: (T, T) -> bool, hasDestroy: bool)
      ensures Valid() && fresh(Repr)
      ensures Contents == [] && this.matches == matches && this.hasDestroy == hasDestroy
    {
      size := 0;
      this.matches := matches;
      this.hasDestroy := hasDestroy;
      head := null;
      tail := null;
      Contents := [];
      Nodes := [];
      Repr := {this};
    }

    /** set_size: the size field is the number of stored values. */
    function Size(): (n: int)
      reads this, Repr
      requires Linked()
      ensures n == |Contents|
    {
      size
    }

    /** set_isempty: 1 exactly when nothing is stored, otherwise 0. */
    function IsEmpty(): (r: int)
      reads this, Repr
      requires Linked()
      ensures r == 1 <==> Contents == []
      ensures r == 0 <==> Contents != []
    {
      if size == 0 then 1 else 0
    }

    /** set_next: advancing the cursor of a member gives the next member, and
        null after the last one, so a scan from head ends after size steps. */
    lemma NextCursor(k: nat)
      requires Linked() && k < |Contents|
      ensures Cursor(k) != null && Cursor(k).data == Contents[k]
      ensures Cursor(k).next == Cursor(k + 1)
      ensures Cursor(k + 1) == null <==> k + 1 == size
    {
    }
  }

  /** set_ismember: -1 for a NULL set or value, otherwise 1 when some stored
      value matches the probe and 0 when none does. */
  method IsMember<T>(s: Set?<T>, data: Option<T>) returns (r: int)
    requires s != null ==> s.Linked()
    ensures s == null || data.None? ==> r == -1
    ensures s != null && data.Some? ==>
              r == (if Mem(s.matches, s.Contents, data.value) then 1 else 0)
  {
    if s == null || data.None? {
      return -1;
    }
    if s.IsEmpty() == 1 {
      return 0;
    }
    var x := data.value;
    var current := s.head;
    ghost var k := 0;
    while current != null && !s.matches(current.data, x)
      invariant 0 <= k <= |s.Nodes| && current == s.Cursor(k)
      invariant forall i :: 0 <= i < k ==> !s.matches(s.Contents[i], x)
      decreases |s.Nodes| - k
    {
      current := current.next;
      k := k + 1;
    }
    r := if current != null then 1 else 0;
  }

  /** The linking half of set_insert: a new member holding x becomes the
      last link, through tail when the set is not empty. */
  method Append<T>(s: Set<T>, x: T)
    requires s.Valid() && !Mem(s.matches, s.Contents, x)
    modifies s.Repr
    ensures s.Valid() && fresh(s.Repr - old(s.Repr))
    ensures s.Contents == old(s.Contents) + [x]
  {
    ghost var nodes := s.Nodes;
    var n := new Member(x);
    DistinctSnoc(nodes, n);
    NoDupSnoc(s.matches, s.Contents, x);
    if s.IsEmpty() == 1 {
      s.head := n;
      s.tail := n;
      n.next := null;
    } else {
      s.tail.next := n;
      s.tail := n;
      n.next := null;
    }
    s.size := s.size + 1;
    s.Contents := s.Contents + [x];
    s.Nodes := s.Nodes + [n];
    s.Repr := s.Repr + {n};
    forall i | 0 <= i < |s.Nodes| - 1 ensures s.Nodes[i].next == s.Nodes[i + 1] {
      if i < |nodes| - 1 {
        assert s.Nodes[i] == nodes[i] != nodes[|nodes| - 1];
      }
    }
  }

  /** set_insert: -1 for a NULL value; 1 when the value already matches a
      member (and also for a NULL set, whose membership test answers -1);
      otherwise the value is appended at the tail and 0 is returned. */
  method Insert<T>(s: Set?<T>, data: Option<T>) returns (rc: int)
    requires s != null ==> s.Valid()
    modifies if s != null then s.Repr else {}
    ensures s != null ==> s.Valid() && fresh(s.Repr - old(s.Repr))
    ensures data.None? ==> rc == -1 && (s != null ==> s.Contents == old(s.Contents))
    ensures data.Some? && s == null ==> rc == 1
    ensures data.Some? && s != null ==>
              && rc == (if Mem(s.matches, old(s.Contents), data.value) then 1 else 0)
              && s.Contents == Add(s.matches, old(s.Contents), data.value)
  {
    if data.None? {
      return -1;
    }
    var member := IsMember(s, data);
    if member != 0 {
      return 1;
    }
    Append(s, data.value);
    rc := 0;
  }

  /** The first link is unlinked (set.c:203-207, and again 228-232 when the
      probe matches the head); the size is decremented here rather than after
      the branches as set.c:240 does. */
  method UnlinkHead<T>(s: Set<T>) returns (gone: Member<T>)
    requires s.Valid() && s.Contents != []
    modifies s
    ensures s.Valid() && s.Repr == old(s.Repr)
    ensures gone.data == old(s.Contents)[0]
    ensures s.Contents == old(s.Contents)[1..] && s.Nodes == old(s.Nodes)[1..]
  {
    gone := s.head;
    s.head := s.head.next;
    if s.head == null {
      s.tail := null;
    }
    s.size := s.size - 1;
    s.Contents := s.Contents[1..];
    s.Nodes := s.Nodes[1..];
  }

  /** The k-th link, which follows current, is unlinked (set.c:219-224).  As
      written, tail is left alone, so when the k-th link was the last one tail
      still names it after it has left the chain. */
  method UnlinkAfter<T>(s: Set<T>, current: Member<T>, ghost k: nat) returns (gone: Member<T>)
    requires s.Valid() && 0 < k < |s.Nodes| && current == s.Nodes[k - 1]
    modifies s, current
    ensures s.Linked() && s.Repr == old(s.Repr)
    ensures gone.data == old(s.Contents)[k]
    ensures s.Contents == Without(old(s.Contents), k)
    ensures s.Nodes == Without(old(s.Nodes), k)
    ensures current == s.Nodes[k - 1]
    ensures current.next == null <==> k == |old(s.Nodes)| - 1
    ensures k < |old(s.Nodes)| - 1 ==> s.TailOk()
    ensures k == |old(s.Nodes)| - 1 ==>
              s.tail == old(s.tail) && s.tail !in s.Nodes && current.next == null
  {
    assert current.next == s.Nodes[k];
    gone := current.next;
    if current.next == s.tail {
      UnlinkLast(s, current);
    } else {
      UnlinkInner(s, current, k);
    }
  }

  /** The last link, which follows current, leaves the chain: current.next
      becomes null and tail is not touched. */
  method UnlinkLast<T>(s: Set<T>, current: Member<T>)
    requires s.Valid() && |s.Nodes| > 1 && current == s.Nodes[|s.Nodes| - 2]
    modifies s, current
    ensures s.Linked() && s.Repr == old(s.Repr)
    ensures s.Contents == Without(old(s.Contents), |old(s.Nodes)| - 1)
    ensures s.Nodes == Without(old(s.Nodes), |old(s.Nodes)| - 1)
    ensures current.next == null && s.tail == old(s.tail) && s.tail !in s.Nodes
  {
    ghost var nodes := s.Nodes;
    ghost var k := |nodes| - 1;
    NoDupRemove(s.matches, s.Contents, k);
    DistinctWithout(nodes, k);
    current.next := null;
    s.size := s.size - 1;
    s.Contents := Without(s.Contents, k);
    s.Nodes := Without(s.Nodes, k);
    forall i | 0 <= i < |s.Nodes| - 1 ensures s.Nodes[i].next == s.Nodes[i + 1] {
      assert s.Nodes[i] == nodes[i] != nodes[k - 1];
    }
  }

  /** A link that is not the last, following current, leaves the chain:
      current.next skips over it. */
  method UnlinkInner<T>(s: Set<T>, current: Member<T>, ghost k: nat)
    requires s.Valid() && 0 < k < |s.Nodes| - 1 && current == s.Nodes[k - 1]
    modifies s, current
    ensures s.Valid() && s.Repr == old(s.Repr)
    ensures s.Contents == Without(old(s.Contents), k)
    ensures s.Nodes == Without(old(s.Nodes), k)
    ensures current.next != null
  {
    ghost var nodes := s.Nodes;
    NoDupRemove(s.matches, s.Contents, k);
    DistinctWithout(nodes, k);
    assert current.next == nodes[k] && nodes[k].next == nodes[k + 1];
    current.next := current.next.next;
    s.size := s.size - 1;
    s.Contents := Without(s.Contents, k);
    s.Nodes := Without(s.Nodes, k);
    forall i | 0 <= i < |s.Nodes| - 1 ensures s.Nodes[i].next == s.Nodes[i + 1] {
      if i < k - 1 {
        assert s.Nodes[i] == nodes[i] != nodes[k - 1];
      } else if i >= k {
        assert s.Nodes[i] == nodes[i + 1] != nodes[k - 1];
      }
    }
  }

  /** set_remove as written.  A NULL slot value removes the first member; any
      other value that is not a member gives -1 with nothing changed; a member
      value unlinks the first matching member.  The stored value (not the
      probe) is written back to the slot, and destroy is not called.  When the
      unlinked member was the last one and not the head, tail is left naming
      it: the set keeps its chain but loses its tail invariant. The third
      result is the link that preceded the unlinked member (set.c's local
      current), or null when the head was unlinked. */
  method RemoveAsWritten<T>(s: Set?<T>, data: Option<T>) returns (rc: int, slot: Option<T>, current: Member?<T>)
    requires s != null ==> s.Valid()
    requires s == null ==> data.Some?
    requires s != null && data.None? ==> s.Contents != []
    modifies if s != null then s.Repr else {}
    ensures s != null ==> s.Linked() && s.Repr == old(s.Repr)
    ensures rc == 0 || rc == -1
    ensures rc == -1 <==> data.Some? && (s == null || !Mem(s.matches, old(s.Contents), data.value))
    ensures rc == -1 ==> slot == data && current == null
    ensures rc == -1 && s != null ==> s.Valid() && s.Contents == old(s.Contents)
    ensures rc == 0 ==> s != null
    ensures current != null && current.next == null ==>
              s != null && s.Nodes != [] && current == s.Nodes[|s.Nodes| - 1]
    ensures rc == 0 && data.None? ==>
              && slot == Some(old(s.Contents)[0])
              && s.Contents == old(s.Contents)[1..]
              && current == null && s.Valid()
    ensures rc == 0 && data.Some? ==>
              var k := FirstMatch(s.matches, old(s.Contents), data.value);
              && slot == Some(old(s.Contents)[k])
              && s.Contents == Without(old(s.Contents), k)
              && current == (if k == 0 then null else s.Nodes[k - 1])
              && (s.TailOk() <==> k == 0 || k < |old(s.Contents)| - 1)
              && (!s.TailOk() ==> s.tail == old(s.tail) && s.tail !in s.Nodes && current.next == null)
  {
    var member := IsMember(s, data);
    if member != 1 && data.Some? {
      return -1, data, null;
    }
    var gone: Member<T>;
    if data.None? {
      gone := UnlinkHead(s);
      current := null;
    } else {
      var x := data.value;
      ghost var k := FirstMatch(s.matches, s.Contents, x);
      current := s.head;
      if !s.matches(current.data, x) {
        ghost var j := 0;
        while !s.matches(current.next.data, x)
          invariant 0 <= j < k && current == s.Nodes[j] && current.next == s.Nodes[j + 1]
          decreases k - j
        {
          current := current.next;
          j := j + 1;
        }
        assert j + 1 == k;
        gone := UnlinkAfter(s, current, k);
      } else {
        gone := UnlinkHead(s);
        current := null;
      }
    }
    slot := Some(gone.data);
    rc := 0;
  }

  /** set_remove with the tail repaired: when the unlinked member was the last
      one, the link before it becomes the tail.  The set invariant is kept. */
  method Remove<T>(s: Set?<T>, data: Option<T>) returns (rc: int, slot: Option<T>)
    requires s != null ==> s.Valid()
    requires s == null ==> data.Some?
    requires s != null && data.None? ==> s.Contents != []
    modifies if s != null then s.Repr else {}
    ensures s != null ==> s.Valid() && s.Repr == old(s.Repr)
    ensures rc == 0 || rc == -1
    ensures rc == -1 <==> data.Some? && (s == null || !Mem(s.matches, old(s.Contents), data.value))
    ensures rc == -1 ==> slot == data && (s != null ==> s.Contents == old(s.Contents))
    ensures rc == 0 ==> s != null
    ensures rc == 0 && data.None? ==>
              slot == Some(old(s.Contents)[0]) && s.Contents == old(s.Contents)[1..]
    ensures rc == 0 && data.Some? ==>
              var k := FirstMatch(s.matches, old(s.Contents), data.value);
              && slot == Some(old(s.Contents)[k])
              && s.Contents == Without(old(s.Contents), k)
  {
    var current;
    rc, slot, current := RemoveAsWritten(s, data);
    if current != null && current.next == null {
      s.tail := current;
    }
  }

  /** set_traverse: -1 for a NULL or empty set; otherwise the callback is
      applied to every stored value in chain order (the result is the sequence
      of values it was applied to) and 0 is returned. */
  method Traverse<T>(s: Set?<T>) returns (rc: int, visited: seq<T>)
    requires s != null ==> s.Valid()
    ensures s == null || s.Contents == [] ==> rc == -1 && visited == []
    ensures s != null && s.Contents != [] ==> rc == 0 && visited == s.Contents
  {
    if s == null || s.IsEmpty() == 1 {
      return -1, [];
    }
    visited := [];
    var current := s.head;
    ghost var k := 0;
    while current != null
      invariant 0 <= k <= |s.Nodes| && current == s.Cursor(k)
      invariant visited == s.Contents[..k]
      decreases |s.Nodes| - k
    {
      visited := visited + [current.data];
      current := current.next;
      k := k + 1;
    }
    rc := 0;
  }

  /** set_destroy: members are popped from the head one at a time and, when a
      destroy callback was supplied, it is applied to each stored value in
      insertion order (the first result is the sequence of values it was
      applied to).  The caller's pointer is then NULL (the second result);
      freeing the nodes and the record is not modelled. */
  method Destroy<T>(s: Set<T>) returns (destroyed: seq<T>, slot: Set?<T>)
    requires s.Valid()
    modifies s
    ensures destroyed == (if s.hasDestroy then old(s.Contents) else [])
    ensures s.size == 0 && s.head == null && s.Contents == [] && slot == null
  {
    ghost var all, nodes := s.Contents, s.Nodes;
    ghost var k := 0;
    destroyed := [];
    while s.size > 0
      invariant 0 <= k <= |nodes| && s.size == |nodes| - k
      invariant s.head == (if k < |nodes| then nodes[k] else null)
      invariant s.Contents == all && s.Nodes == nodes
      invariant forall i :: 0 <= i < |nodes| ==> nodes[i].data == all[i]
      invariant forall i :: 0 <= i < |nodes| - 1 ==> nodes[i].next == nodes[i + 1]
      invariant nodes != [] ==> nodes[|nodes| - 1].next == null
      invariant destroyed == if s.hasDestroy then all[..k] else []
      decreases s.size
    {
      var data := s.head.data;
      s.head := s.head.next;
      s.size := s.size - 1;
      if s.hasDestroy {
        destroyed := destroyed + [data];
      }
      k := k + 1;
    }
    s.Contents, s.Nodes := [], [];
    slot := null;
  }

  /** Draining a set by repeated remove-first calls (the loop of
      set_test.c:99-107): one call per member, the values come out in
      insertion order, and the set ends empty. */
  method Drain<T>(s: Set<T>) returns (values: seq<T>, calls: nat)
    requires s.Valid()
    modifies s.Repr
    ensures s.Valid() && s.Contents == []
    ensures values == old(s.Contents) && calls == |old(s.Contents)|
  {
    ghost var all := s.Contents;
    values, calls := [], 0;
    while s.Size() > 0
      invariant s.Valid() && s.Repr == old(s.Repr)
      invariant calls <= |all|
      invariant values == all[..calls] && s.Contents == all[calls..]
      decreases |s.Contents|
    {
      var rc, slot := Remove(s, None);
      assert slot.value == all[calls] && s.Contents == all[calls + 1..];
      assert all[..calls + 1] == values + [slot.value];
      values := values + [slot.value];
      calls := calls + 1;
    }
  }
}
