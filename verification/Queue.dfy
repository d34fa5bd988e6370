/** The intrusive ring lists the worker pool keeps its queues in (queue.h). A queue is the
    sequence of its nodes from the head on; the head carries no data. */
module Queues {

  class Queue {
    var next: Queue?
    var prev: Queue?

    /** QUEUE_INIT */
    method Init()
      modifies this
      ensures Ring([this])
    {
      next, prev := this, this;
    }
  }

  /** Node `i` is linked to its neighbours, the last one and the head being neighbours too. */
  ghost predicate LinkedAt(r: seq<Queue>, i: nat)
    reads r
  {
    i < |r| ==>
      && r[i].next == (if i + 1 < |r| then r[i + 1] else r[0])
      && r[i].prev == (if i > 0 then r[i - 1] else r[|r| - 1])
  }

  ghost predicate Distinct(r: seq<Queue>) {
    forall i, j :: 0 <= i < j < |r| ==> r[i] != r[j]
  }

  ghost predicate Ring(r: seq<Queue>)
    reads r
  {
    |r| >= 1 && Distinct(r) && forall i: nat {:trigger LinkedAt(r, i)} :: LinkedAt(r, i)
  }

  /** QUEUE_EMPTY */
  method Empty(h: Queue, ghost r: seq<Queue>) returns (e: bool)
    requires Ring(r) && r[0] == h
    ensures e <==> r == [h]
  {
    assert LinkedAt(r, 0);
    e := h.next == h;
  }

  /** QUEUE_HEAD */
  method Head(h: Queue, ghost r: seq<Queue>) returns (q: Queue)
    requires Ring(r) && r[0] == h
    ensures q == if |r| > 1 then r[1] else h
  {
    assert LinkedAt(r, 0);
    q := h.next;
  }

  /** QUEUE_INSERT_TAIL */
  method InsertTail(h: Queue, q: Queue, ghost r: seq<Queue>)
    requires Ring(r) && r[0] == h && q !in r
    modifies h, q, r[|r| - 1]
    ensures Ring(r + [q])
  {
    assert LinkedAt(r, 0) && LinkedAt(r, |r| - 1);
    q.next := h;
    q.prev := h.prev;
    q.prev.next := q;
    h.prev := q;
    forall i: nat
      ensures LinkedAt(r + [q], i)
    {
      assert old(LinkedAt(r, i));
    }
  }

  /** QUEUE_INSERT_HEAD */
  method InsertHead(h: Queue, q: Queue, ghost r: seq<Queue>)
    requires Ring(r) && r[0] == h && q !in r
    modifies h, q, if |r| > 1 then r[1] else h
    ensures Ring([h, q] + r[1..])
  {
    assert LinkedAt(r, 0);
    q.next := h.next;
    q.prev := h;
    q.next.prev := q;
    h.next := q;
    ghost var t := [h, q] + r[1..];
    forall i: nat
      ensures LinkedAt(t, i)
    {
      assert old(LinkedAt(r, 0));
      assert i > 0 ==> old(LinkedAt(r, i - 1));
    }
  }

  /** QUEUE_REMOVE */
  method Remove(q: Queue, ghost r: seq<Queue>, ghost i: nat)
    requires Ring(r) && 0 < i < |r| && r[i] == q
    modifies r[i - 1], r[if i + 1 < |r| then i + 1 else 0]
    ensures Ring(r[..i] + r[i + 1..])
  {
    assert LinkedAt(r, i);
    q.prev.next := q.next;
    q.next.prev := q.prev;
    ghost var t := r[..i] + r[i + 1..];
    forall k: nat
      ensures LinkedAt(t, k)
    {
      assert old(LinkedAt(r, k)) && old(LinkedAt(r, k + 1)) && old(LinkedAt(r, i));
    }
  }

  /** QUEUE_SPLIT: the nodes from `q` on move behind the head `n`. */
  method Split(h: Queue, q: Queue, n: Queue, ghost r: seq<Queue>, ghost i: nat)
    requires Ring(r) && r[0] == h && 0 < i < |r| && r[i] == q && n !in r
    modifies h, n, q, r[|r| - 1], r[i - 1]
    ensures Ring(r[..i]) && Ring([n] + r[i..])
  {
    assert LinkedAt(r, 0) && LinkedAt(r, i);
    n.prev := h.prev;
    n.prev.next := n;
    n.next := q;
    h.prev := q.prev;
    h.prev.next := h;
    q.prev := n;
    ghost var t := [n] + r[i..];
    forall k: nat
      ensures LinkedAt(r[..i], k)
    {
      assert old(LinkedAt(r, k));
    }
    forall k: nat
      ensures LinkedAt(t, k)
    {
      assert k > 0 ==> old(LinkedAt(r, i + k - 1));
    }
  }

  /** QUEUE_MOVE: `n` takes over everything, `h` is left empty; what `n` held before is lost. */
  method Move(h: Queue, n: Queue, ghost r: seq<Queue>)
    requires Ring(r) && r[0] == h && n !in r
    modifies r, n
    ensures Ring([h]) && Ring([n] + r[1..])
  {
    var e := Empty(h, r);
    if e {
      n.Init();
      assert [n] + r[1..] == [n];
    } else {
      var q := Head(h, r);
      Split(h, q, n, r, 1);
      assert r[..1] == [h];
    }
  }

  /** QUEUE_ADD: the nodes of `n` go behind those of `h`; `n` itself stays outside. */
  method Add(h: Queue, n: Queue, ghost r: seq<Queue>, ghost t: seq<Queue>)
    requires Ring(r) && r[0] == h && Ring(t) && t[0] == n && (forall x :: x in r ==> x !in t)
    modifies r, t
    ensures Ring(r + t[1..])
  {
    assert LinkedAt(r, 0) && LinkedAt(t, 0) && LinkedAt(r, |r| - 1) && LinkedAt(t, |t| - 1);
    forall i, j | 0 <= i < |r| && 0 <= j < |t|
      ensures r[i] != t[j]
    {
      assert r[i] in r && t[j] in t;
    }
    h.prev.next := n.next;
    n.next.prev := h.prev;
    h.prev := n.prev;
    h.prev.next := h;
    ghost var u := r + t[1..];
    forall k: nat
      ensures LinkedAt(u, k)
    {
      assert old(LinkedAt(r, k));
      if k >= |r| {
        assert old(LinkedAt(t, k - |r| + 1));
      }
    }
  }
}
