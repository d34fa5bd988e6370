/** Which queued writes go into one group (BuildBatchGroup in db/db_impl.cc). */
module GroupCommit {
  import opened DbFormat
  import opened Options

  /** A put or a deletion, not numbered yet. */
  datatype Op = Op(key: Key, kind: ValueType, value: Bytes)

  /** A batch: its operations and the size of its representation. */
  datatype Batch = Batch(ops: seq<Op>, size: nat)

  /** A call to Write; a null batch asks for a memtable switch only. */
  datatype Writer = Writer(batch: Option<Batch>, sync: bool)

  const MEGABYTE: nat := 0x10_0000
  const SMALL: nat := 0x2_0000

  function MaxSize(first: nat): nat {
    if first <= SMALL then first + SMALL else MEGABYTE
  }

  function ByteSize(ws: seq<Writer>): nat {
    if ws == [] then 0 else ByteSize(ws[..|ws| - 1]) + match ws[|ws| - 1].batch
      case None => 0
      case Some(b) => b.size
  }

  function Ops(ws: seq<Writer>): seq<Op> {
    if ws == [] then [] else Ops(ws[..|ws| - 1]) + match ws[|ws| - 1].batch
      case None => []
      case Some(b) => b.ops
  }

  /** Writer `i` may join the group of writers before it. */
  predicate MayJoin(ws: seq<Writer>, i: nat)
    requires 0 < i < |ws| && ws[0].batch.Some?
  {
    && (ws[i].sync ==> ws[0].sync)
    && (ws[i].batch.Some? ==> ByteSize(ws[..i + 1]) <= MaxSize(ws[0].batch.value.size))
  }

  /** The first `n` writers are the group: everybody up to the first one who may not join. */
  ghost predicate IsGroup(ws: seq<Writer>, n: nat) {
    && 1 <= n <= |ws| && ws[0].batch.Some?
    && (forall i: nat :: 1 <= i < n ==> MayJoin(ws, i))
    && (n < |ws| ==> !MayJoin(ws, n))
  }

  method BuildBatchGroup(ws: seq<Writer>) returns (n: nat, result: Batch)
    requires ws != [] && ws[0].batch.Some?
    ensures IsGroup(ws, n) && result.ops == Ops(ws[..n]) && result.size == ByteSize(ws[..n])
  {
    var first := ws[0].batch.value;
    result := first;
    var size := first.size;
    var maxSize := MEGABYTE;
    if size <= SMALL {
      maxSize := size + SMALL;
    }
    n := 1;
    assert ws[..1][..0] == [] && ws[..1] == [ws[0]];
    while n < |ws|
      invariant 1 <= n <= |ws| && size == ByteSize(ws[..n])
      invariant result.ops == Ops(ws[..n]) && result.size == size
      invariant forall i: nat :: 1 <= i < n ==> MayJoin(ws, i)
    {
      var w := ws[n];
      assert ws[..n + 1][..n] == ws[..n];
      if w.sync && !ws[0].sync {
        break;
      }
      if w.batch.Some? {
        size := size + w.batch.value.size;
        if size > maxSize {
          break;
        }
        result := Batch(result.ops + w.batch.value.ops, size);
      }
      n := n + 1;
    }
  }

  /** Behind a writer with a batch there is always a group. */
  lemma {:induction false} GroupExists(ws: seq<Writer>, k: nat) returns (n: nat)
    requires 1 <= k <= |ws| && ws[0].batch.Some? && forall i: nat :: 1 <= i < k ==> MayJoin(ws, i)
    ensures IsGroup(ws, n)
    decreases |ws| - k
  {
    if k < |ws| && MayJoin(ws, k) {
      n := GroupExists(ws, k + 1);
    } else {
      n := k;
    }
  }

  /** The last writer with a batch in a prefix of the group bounds its bytes. */
  lemma {:induction false} GroupBytes(ws: seq<Writer>, n: nat)
    requires 1 <= n <= |ws| && ws[0].batch.Some? && forall i: nat :: 1 <= i < n ==> MayJoin(ws, i)
    ensures ByteSize(ws[..n]) == ws[0].batch.value.size || ByteSize(ws[..n]) <= MaxSize(ws[0].batch.value.size)
  {
    assert ws[..n][..n - 1] == ws[..n - 1];
    if n == 1 {
      assert ws[..1][..0] == [];
    } else {
      GroupBytes(ws, n - 1);
      assert MayJoin(ws, n - 1);
    }
  }

  /** How large a group behind a first batch of that size may get: a small batch is not slowed down by
      much. */
  function Limit(first: nat): nat {
    if first <= 131072 then first + 131072 else 1048576
  }

  /** A group's bytes stay within the limit, or within its leader's own size; no synced write rides
      with a leader that does not sync. */
  lemma GroupIsBounded(ws: seq<Writer>, n: nat)
    requires IsGroup(ws, n)
    ensures var first := ws[0].batch.value.size; ByteSize(ws[..n]) <= if first > Limit(first) then first else Limit(first)
    ensures forall i :: 0 <= i < n && ws[i].sync ==> ws[0].sync
  {
    GroupBytes(ws, n);
    forall i: nat | i < n && ws[i].sync
      ensures ws[0].sync
    {
      if i > 0 {
        assert MayJoin(ws, i);
      }
    }
  }

  /** A group stops nowhere else than at a synced write behind a leader that does not sync, or at a
      batch with which it would be larger than the limit. */
  lemma GroupIsLongest(ws: seq<Writer>, n: nat)
    requires IsGroup(ws, n) && n < |ws|
    ensures (ws[n].sync && !ws[0].sync) || (ws[n].batch.Some? && ByteSize(ws[..n + 1]) > Limit(ws[0].batch.value.size))
  {
  }
}
