/** The ring of live snapshots (db/snapshot.h) and the bound compaction takes from it. */
module Snapshots {
  class SnapshotImpl {
    const sequenceNumber: nat
    ghost const age: nat  // order of creation; 0 for the head
    var prev: SnapshotImpl?
    var next: SnapshotImpl?

    constructor (s: nat, ghost a: nat)
      ensures sequenceNumber == s && age == a
    {
      sequenceNumber, age := s, a;
      prev, next := null, null;
    }
  }

  /** A circular doubly-linked list through the dummy `head`. */
  class SnapshotList {
    const head: SnapshotImpl
    ghost var live: set<SnapshotImpl>
    ghost var created: nat

    ghost function Nodes(): set<SnapshotImpl>
      reads this
    {
      live + {head}
    }

    /** The invariant is local to a node and its two neighbours: links mirror each other, and
        both age and sequence number grow from the head around the ring. */
    ghost predicate Linked(x: SnapshotImpl)
      reads this, x, x.prev, x.next
    {
      && x.next != null && x.prev != null && x.next in Nodes() && x.prev in Nodes()
      && x.next.prev == x && x.prev.next == x
      && (x.next != head ==> x.age < x.next.age && x.sequenceNumber <= x.next.sequenceNumber)
    }

    ghost predicate Valid()
      reads this, Nodes(), set x | x in Nodes() :: x.prev, set x | x in Nodes() :: x.next
    {
      && head !in live && head.age == 0 && head.sequenceNumber == 0
      && (forall x {:trigger Linked(x)} :: x in Nodes() ==> Linked(x) && x.age <= created)
    }

    constructor ()
      ensures Valid() && live == {} && fresh(head)
    {
      head := new SnapshotImpl(0, 0);
      live, created := {}, 0;
      new;
      head.prev, head.next := head, head;
    }

    /** The first snapshot of the ring is the oldest one, so it bounds all of them. */
    lemma {:induction false} FirstIsOldest(t: SnapshotImpl)
      requires Valid() && t in live
      ensures head.next in live && head.next.sequenceNumber <= t.sequenceNumber && head.next.age <= t.age
      decreases t.age
    {
      assert Linked(t) && Linked(t.prev) && Linked(head);
      if t.prev != head {
        FirstIsOldest(t.prev);
      }
    }

    /** The last snapshot of the ring is the newest one. */
    lemma {:induction false} LastIsNewest(t: SnapshotImpl)
      requires Valid() && t in live
      ensures head.prev in live && t.sequenceNumber <= head.prev.sequenceNumber && t.age <= head.prev.age
      decreases created - t.age
    {
      assert Linked(t) && Linked(t.next) && Linked(head);
      if t.next != head {
        LastIsNewest(t.next);
      }
    }

    predicate Empty()
      requires Valid()
      reads this, Nodes(), set x | x in Nodes() :: x.prev, set x | x in Nodes() :: x.next
      ensures Empty() <==> live == {}
    {
      assert Linked(head);
      assert live == {} || exists t :: t in live;
      assert (exists t :: t in live) ==> head.next != head by {
        if t :| t in live {
          FirstIsOldest(t);
        }
      }
      head.next == head
    }

    method Oldest() returns (s: SnapshotImpl)
      requires Valid() && live != {}
      ensures s in live
      ensures forall t :: t in live ==> s.sequenceNumber <= t.sequenceNumber && s.age <= t.age
    {
      forall t | t in live
        ensures head.next in live && head.next.sequenceNumber <= t.sequenceNumber && head.next.age <= t.age
      {
        FirstIsOldest(t);
      }
      ghost var w :| w in live;
      assert Linked(head);
      s := head.next;
    }

    lemma Ends()
      requires Valid()
      ensures head.prev != null && head.prev in Nodes() && head.prev.next == head
    {
      assert Linked(head);
    }

    /** The pointers of a new last node. */
    method LinkIn(s: SnapshotImpl, ghost last: SnapshotImpl)
      requires Valid() && s !in Nodes() && head.prev == last
      modifies s`prev, s`next, head`prev, last`next
      ensures s.prev == last && s.next == head && head.prev == s && last.next == s
    {
      Ends();
      s.next := head;
      s.prev := head.prev;
      s.prev.next := s;
      s.next.prev := s;
    }

    /** The ring with the youngest node linked in. */
    twostate lemma RingGrows(new s: SnapshotImpl)
      requires old(Valid()) && s !in old(Nodes()) && live == old(live) + {s} && created == old(created) + 1 && s.age == created
      requires forall t :: t in old(live) ==> t.sequenceNumber <= s.sequenceNumber
      requires old(head.prev) != null && s.prev == old(head.prev) && s.next == head && head.prev == s && old(head.prev).next == s
      requires forall x :: x in old(Nodes()) ==> (x != old(head.prev) ==> x.next == old(x.next)) && (x != head ==> x.prev == old(x.prev))
      ensures Valid()
    {
      assert old(Linked(head)) && old(Linked(head.prev));
      forall x | x in Nodes()
        ensures Linked(x) && x.age <= created
      {
        if x != s {
          assert old(Linked(x));
        }
      }
    }

    method New(sequenceNumber: nat) returns (s: SnapshotImpl)
      requires Valid()
      requires forall t :: t in live ==> t.sequenceNumber <= sequenceNumber
      modifies this, head, head.prev
      ensures Valid() && fresh(s) && s.sequenceNumber == sequenceNumber
      ensures live == old(live) + {s} && forall t :: t in old(live) ==> t.age < s.age
      ensures s.prev != null && s.prev == old(head.prev) && s.prev.next == s && s.next == head && head.prev == s
      ensures forall x :: x in old(Nodes()) ==> (x != old(head.prev) ==> x.next == old(x.next)) && (x != head ==> x.prev == old(x.prev))
    {
      hide Linked, Valid;
      AgesKnown();
      Ends();
      s := new SnapshotImpl(sequenceNumber, created + 1);
      LinkIn(s, head.prev);
      created := created + 1;
      live := live + {s};
      RingGrows(s);
    }

    lemma AgesKnown()
      requires Valid()
      ensures forall t :: t in live ==> t.age <= created
    {
      assert forall t :: t in live ==> Linked(t);
    }

    method Delete(s: SnapshotImpl)
      requires Valid() && s in live
      modifies this, s.prev, s.next
      ensures Valid() && live == old(live) - {s}
    {
      assert Linked(s) && Linked(s.prev) && Linked(s.next);
      s.prev.next := s.next;
      s.next.prev := s.prev;
      live := live - {s};
      forall x | x in Nodes()
        ensures Linked(x) && x.age <= created
      {
        assert old(Linked(x));
      }
    }

    /** The bound a compaction starts from: never above a live snapshot, nor above the last
        sequence number, so no present or future reader falls below it. */
    method SmallestSnapshot(lastSequence: nat) returns (smallest: nat)
      requires Valid()
      requires forall t :: t in live ==> t.sequenceNumber <= lastSequence
      ensures smallest <= lastSequence
      ensures forall t :: t in live ==> smallest <= t.sequenceNumber
      ensures smallest == lastSequence || exists t :: t in live && smallest == t.sequenceNumber
    {
      if Empty() {
        smallest := lastSequence;
      } else {
        var s := Oldest();
        smallest := s.sequenceNumber;
      }
    }
  }
}
