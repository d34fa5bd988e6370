/** Entries of the multi-version store and what a snapshot sees of them (db/dbformat.h).

    A user key is compared only through the user comparator, and every statement below
    speaks of finitely many keys, so a key is represented by an `int`: its place in the
    comparator's total order. */
module DbFormat {
  import opened Options

  type Key = int
  type Byte = b: int | 0 <= b < 256
  type Bytes = seq<Byte>

  const MAX_SEQUENCE: nat := 0x100_0000_0000_0000 - 1

  datatype ValueType = Deletion | Value

  datatype Entry = Entry(key: Key, sn: nat, kind: ValueType, value: Bytes)

  function TypeCode(t: ValueType): nat {
    match t
    case Deletion => 0
    case Value => 1
  }

  /** PackSequenceAndType: the low eight bits hold the type. */
  function Pack(s: nat, t: ValueType): nat {
    s * 256 + TypeCode(t)
  }

  /** InternalKeyComparator::Compare(a, b) < 0: user keys ascending, packed tags descending. */
  predicate Before(a: Entry, b: Entry) {
    a.key < b.key || (a.key == b.key && Pack(a.sn, a.kind) > Pack(b.sn, b.kind))
  }

  ghost predicate Sorted(es: seq<Entry>) {
    forall i, j :: 0 <= i < j < |es| ==> Before(es[i], es[j])
  }

  /** Every write gets its own sequence number, so a key and a sequence number name one entry. */
  ghost predicate Distinct(es: set<Entry>) {
    forall a, b :: a in es && b in es && a.key == b.key && a.sn == b.sn ==> a == b
  }

  function Elements(es: seq<Entry>): set<Entry> {
    set e | e in es
  }

  predicate Visible(e: Entry, k: Key, snapshot: nat) {
    e.key == k && e.sn <= snapshot
  }

  ghost predicate IsNewest(es: set<Entry>, k: Key, snapshot: nat, e: Entry) {
    && e in es
    && Visible(e, k, snapshot)
    && forall f :: f in es && Visible(f, k, snapshot) ==> f.sn <= e.sn
  }

  /** What a read of `k` at `snapshot` returns over a set of entries: the value of the newest
      entry not younger than the snapshot, nothing when that entry is a deletion mark. */
  ghost function Lookup(es: set<Entry>, k: Key, snapshot: nat): Option<Bytes> {
    if exists e :: IsNewest(es, k, snapshot, e) && e.kind == Value then
      var e :| IsNewest(es, k, snapshot, e) && e.kind == Value;
      Some(e.value)
    else
      None
  }

  lemma {:induction false} NewestExists(es: set<Entry>, k: Key, snapshot: nat, w: Entry) returns (e: Entry)
    requires w in es && Visible(w, k, snapshot)
    ensures IsNewest(es, k, snapshot, e)
    ensures e.sn >= w.sn
    decreases snapshot - w.sn
  {
    if f :| f in es && Visible(f, k, snapshot) && f.sn > w.sn {
      e := NewestExists(es, k, snapshot, f);
    } else {
      e := w;
    }
  }

  /** The newest visible entry decides the read. */
  lemma LookupIs(es: set<Entry>, k: Key, snapshot: nat, e: Entry)
    requires Distinct(es)
    requires IsNewest(es, k, snapshot, e)
    ensures Lookup(es, k, snapshot) == if e.kind == Value then Some(e.value) else None
  {
    forall f | IsNewest(es, k, snapshot, f)
      ensures f == e
    {
      assert f.sn <= e.sn && e.sn <= f.sn;
    }
  }

  /** The map a snapshot shows. */
  ghost function View(es: set<Entry>, snapshot: nat): (m: map<Key, Bytes>)
    ensures forall k :: k in m <==> Lookup(es, k, snapshot).Some?
    ensures forall k :: k in m ==> Lookup(es, k, snapshot) == Some(m[k])
  {
    var keys := set e | e in es :: e.key;
    var m := map k | k in keys && Lookup(es, k, snapshot).Some? :: Lookup(es, k, snapshot).value;
    assert forall k :: Lookup(es, k, snapshot).Some? ==> k in keys by {
      forall k | Lookup(es, k, snapshot).Some?
        ensures k in keys
      {
        var e :| IsNewest(es, k, snapshot, e);
        assert e.key in keys;
      }
    }
    m
  }
}
