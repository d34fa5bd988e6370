/** The in-memory table: encoded entries in the order of their internal keys (db/memtable.cc).
    The skip list enters through its contract, a strictly sorted list with insertion and seek. */
module MemTables {
  import opened Options
  import opened DbFormat
  import opened Coding
  import opened InternalKeys

  datatype Record = Record(key: ParsedInternalKey, value: Bytes)

  predicate Storable(r: Record) {
    r.key.sn <= MAX_SEQUENCE && |r.key.userKey| + 8 < TWO32 && |r.value| < TWO32
  }

  /** The bytes MemTable::Add hands to the skip list. */
  function EncodeEntry(r: Record): Bytes {
    PutSlice(AppendInternalKey(r.key)) + PutSlice(r.value)
  }

  /** LookupKey::memtable_key; the type is the largest, so that it sorts first. */
  function LookupKeyBytes(userKey: Bytes, s: nat): Bytes {
    PutSlice(AppendInternalKey(ParsedInternalKey(userKey, s, Value)))
  }

  /** MemTable::KeyComparator reads the length-prefixed internal key of an entry. */
  function KeyBytes(b: Bytes): Option<Bytes> {
    match GetSlice(b)
    case None => None
    case Some((k, _)) => Some(k)
  }

  lemma EntryKey(r: Record)
    requires Storable(r)
    ensures GetSlice(EncodeEntry(r)) == Some((AppendInternalKey(r.key), PutSlice(r.value)))
    ensures GetSlice(PutSlice(r.value)) == Some((r.value, []))
  {
    hide GetSlice, PutSlice, AppendInternalKey;
    TagOf(r.key);
    SliceRoundTrip(AppendInternalKey(r.key), PutSlice(r.value));
    SliceRoundTrip(r.value, []);
    assert PutSlice(r.value) + [] == PutSlice(r.value);
  }

  lemma LookupKeyKey(userKey: Bytes, s: nat)
    requires s <= MAX_SEQUENCE && |userKey| + 8 < TWO32
    ensures KeyBytes(LookupKeyBytes(userKey, s)) == Some(AppendInternalKey(ParsedInternalKey(userKey, s, Value)))
  {
    hide GetSlice, PutSlice, AppendInternalKey;
    var k := AppendInternalKey(ParsedInternalKey(userKey, s, Value));
    TagOf(ParsedInternalKey(userKey, s, Value));
    SliceRoundTrip(k, []);
    assert PutSlice(k) + [] == PutSlice(k);
  }

  datatype GetResult = Found(value: Bytes) | Deleted | Missing

  class MemTable {
    const rank: Ranking
    var table: seq<Bytes>
    ghost var records: seq<Record>

    ghost function Entries(): seq<Entry>
      reads this
    {
      seq(|records|, i requires 0 <= i < |records| reads this => EntryOf(rank, records[i].key, records[i].value))
    }

    ghost predicate Valid()
      reads this
    {
      && |table| == |records|
      && (forall i :: 0 <= i < |records| ==> Storable(records[i]) && table[i] == EncodeEntry(records[i]))
      && Sorted(Entries())
    }

    constructor (r: Ranking)
      ensures Valid() && rank == r && records == []
    {
      rank, table, records := r, [], [];
    }

    /** KeyComparator: entry `i` comes before the target. */
    method ComesBefore(i: nat, target: Bytes, ghost k: ParsedInternalKey, ghost v: Bytes) returns (before: bool)
      requires Valid() && i < |table| && k.sn <= MAX_SEQUENCE && KeyBytes(target) == Some(AppendInternalKey(k))
      ensures before <==> Before(Entries()[i], EntryOf(rank, k, v))
    {
      hide GetSlice, PutSlice, Before, AppendInternalKey, Compare;
      EntryKey(records[i]);
      TagOf(records[i].key);
      TagOf(k);
      CompareIsOrder(rank, records[i].key, k, records[i].value, v);
      var a, b := KeyBytes(table[i]).value, KeyBytes(target).value;
      before := Compare(rank, a, b) < 0;
    }

    /** The skip list's seek: the first entry that does not come before the target. */
    method Seek(target: Bytes, ghost k: ParsedInternalKey, ghost v: Bytes) returns (pos: nat)
      requires Valid() && k.sn <= MAX_SEQUENCE && KeyBytes(target) == Some(AppendInternalKey(k))
      ensures pos <= |table|
      ensures forall j :: 0 <= j < pos ==> Before(Entries()[j], EntryOf(rank, k, v))
      ensures pos < |table| ==> !Before(Entries()[pos], EntryOf(rank, k, v))
    {
      hide Before, AppendInternalKey, Storable, EncodeEntry, KeyBytes, EntryOf;
      pos := 0;
      while pos < |table|
        invariant pos <= |table|
        invariant forall j :: 0 <= j < pos ==> Before(Entries()[j], EntryOf(rank, k, v))
      {
        var before := ComesBefore(pos, target, k, v);
        if !before {
          return;
        }
        pos := pos + 1;
      }
    }

    /** MemTable::Add */
    method Add(s: nat, kind: ValueType, key: Bytes, value: Bytes)
      requires Valid() && Storable(Record(ParsedInternalKey(key, s, kind), value))
      requires forall i :: 0 <= i < |Entries()| ==> !(Entries()[i].key == rank(key) && Entries()[i].sn == s)
      modifies this
      ensures Valid()
      ensures Elements(Entries()) == old(Elements(Entries())) + {Entry(rank(key), s, kind, value)}
    {
      hide Before, GetSlice, PutSlice, EncodeFixed, Pack, Elements, Sorted;
      ghost var r := Record(ParsedInternalKey(key, s, kind), value);
      ghost var e := EntryOf(rank, r.key, value);
      var buf := PutSlice(key + EncodeFixed(Pack(s, kind), 8)) + PutSlice(value);
      assert buf == EncodeEntry(r);
      EntryKey(r);
      var pos := Seek(buf, r.key, value);
      ghost var before := Entries();
      table := table[..pos] + [buf] + table[pos..];
      records := records[..pos] + [r] + records[pos..];
      assert Entries() == before[..pos] + [e] + before[pos..];
      SortedInsert(before, pos, e);
      InsertedElements(before, pos, e);
    }

    /** MemTable::Get: the answer of the newest entry of the key that the snapshot sees. */
    method Get(userKey: Bytes, s: nat) returns (r: GetResult)
      requires Valid() && s <= MAX_SEQUENCE && |userKey| + 8 < TWO32
      ensures r == Missing <==> forall e :: e in Elements(Entries()) ==> !Visible(e, rank(userKey), s)
      ensures r != Missing ==>
        exists e :: IsNewest(Elements(Entries()), rank(userKey), s, e) && r == if e.kind == Value then Found(e.value) else Deleted
    {
      var memkey := LookupKeyBytes(userKey, s);
      LookupKeyKey(userKey, s);
      ghost var k := ParsedInternalKey(userKey, s, Value);
      var pos := Seek(memkey, k, []);
      SeekMeetsNewest(Entries(), pos, rank(userKey), s);
      if pos < |table| {
        EntryKey(records[pos]);
        TagOf(records[pos].key);
        var slice := GetSlice(table[pos]).value;
        var internalKey := slice.0;
        assert Entries()[pos] == EntryOf(rank, records[pos].key, records[pos].value);
        assert Entries()[pos] in Elements(Entries());
        if rank(ExtractUserKey(internalKey)) == rank(userKey) {
          KindOfTag(records[pos].key);
          var tag := Tag(internalKey);
          if tag % 256 == 1 {
            var v := GetSlice(slice.1).value.0;
            return Found(v);
          } else {
            return Deleted;
          }
        }
      }
      return Missing;
    }
  }

  lemma KindOfTag(k: ParsedInternalKey)
    ensures Pack(k.sn, k.kind) % 256 == if k.kind == Value then 1 else 0
  {
  }

  lemma SortedInsert(es: seq<Entry>, pos: nat, e: Entry)
    requires Sorted(es) && pos <= |es|
    requires forall j :: 0 <= j < pos ==> Before(es[j], e)
    requires pos < |es| ==> !Before(es[pos], e)
    requires forall i :: 0 <= i < |es| ==> !(es[i].key == e.key && es[i].sn == e.sn)
    ensures Sorted(es[..pos] + [e] + es[pos..])
  {
    forall j | pos <= j < |es|
      ensures Before(e, es[j])
    {
      assert j > pos ==> Before(es[pos], es[j]);
    }
  }

  lemma InsertedElements(es: seq<Entry>, pos: nat, e: Entry)
    requires pos <= |es|
    ensures Elements(es[..pos] + [e] + es[pos..]) == Elements(es) + {e}
  {
    var t := es[..pos] + [e] + es[pos..];
    forall x | x in Elements(es)
      ensures x in t
    {
      var i :| 0 <= i < |es| && es[i] == x;
      assert if i < pos then t[i] == x else t[i + 1] == x;
    }
  }

  /** The first entry that does not come before (key, snapshot, largest type) is the newest one
      the snapshot sees, if it sees any. */
  lemma SeekMeetsNewest(es: seq<Entry>, pos: nat, key: Key, s: nat)
    requires Sorted(es) && pos <= |es|
    requires forall j :: 0 <= j < pos ==> Before(es[j], Entry(key, s, Value, []))
    requires pos < |es| ==> !Before(es[pos], Entry(key, s, Value, []))
    ensures pos < |es| && es[pos].key == key ==> IsNewest(Elements(es), key, s, es[pos])
    ensures !(pos < |es| && es[pos].key == key) ==> forall e :: e in Elements(es) ==> !Visible(e, key, s)
  {
    forall e | e in Elements(es) && Visible(e, key, s)
      ensures pos < |es| && es[pos].key == key && e.sn <= es[pos].sn
    {
      var i :| 0 <= i < |es| && es[i] == e;
      assert !(i < pos);
      assert i > pos ==> Before(es[pos], es[i]);
    }
  }
}
