/** Internal keys as bytes: the user key, then sequence number and type packed into eight bytes
    (db/dbformat.cc, db/dbformat.h). */
module InternalKeys {
  import opened Options
  import opened DbFormat
  import opened Coding

  datatype ParsedInternalKey = ParsedInternalKey(userKey: Bytes, sn: nat, kind: ValueType)

  /** The user comparator, given by the place of each key in its order. */
  type Ranking = Bytes -> Key

  function AppendInternalKey(k: ParsedInternalKey): Bytes {
    k.userKey + EncodeFixed(Pack(k.sn, k.kind), 8)
  }

  function Tag(b: Bytes): nat
    requires |b| >= 8
  {
    DecodeFixed(b[|b| - 8..])
  }

  function ExtractUserKey(b: Bytes): Bytes
    requires |b| >= 8
  {
    b[..|b| - 8]
  }

  function ParseInternalKey(b: Bytes): Option<ParsedInternalKey> {
    if |b| < 8 then None
    else
      var c := Tag(b) % 256;
      if c > 1 then None
      else Some(ParsedInternalKey(ExtractUserKey(b), Tag(b) / 256, if c == 0 then Deletion else Value))
  }

  /** InternalKeyComparator::Compare */
  function Compare(rank: Ranking, a: Bytes, b: Bytes): int
    requires |a| >= 8 && |b| >= 8
  {
    var ra, rb := rank(ExtractUserKey(a)), rank(ExtractUserKey(b));
    if ra != rb then ra - rb
    else if Tag(a) > Tag(b) then -1
    else if Tag(a) < Tag(b) then 1
    else 0
  }

  function EntryOf(rank: Ranking, k: ParsedInternalKey, value: Bytes): Entry {
    Entry(rank(k.userKey), k.sn, k.kind, value)
  }

  lemma {:induction false} DecodedEncodes(b: Bytes)
    ensures EncodeFixed(DecodeFixed(b), |b|) == b
  {
    if b != [] {
      DecodedEncodes(b[1..]);
      var v := DecodeFixed(b);
      assert v % 256 == b[0] && v / 256 == DecodeFixed(b[1..]);
    }
  }

  lemma TagOf(k: ParsedInternalKey)
    requires k.sn <= MAX_SEQUENCE
    ensures var b := AppendInternalKey(k);
            |b| == |k.userKey| + 8 && Tag(b) == Pack(k.sn, k.kind) && ExtractUserKey(b) == k.userKey
  {
    var b := AppendInternalKey(k);
    assert Pow256(4) == 0x1_0000_0000 && Pow256(8) == 0x1_0000_0000_0000_0000;
    assert b[|b| - 8..] == EncodeFixed(Pack(k.sn, k.kind), 8);
    FixedRoundTrip(Pack(k.sn, k.kind), 8);
  }

  /** The byte strings that parse are exactly the encodings of internal keys, and each comes
      from one key only. */
  lemma ParsesIff(b: Bytes, k: ParsedInternalKey)
    ensures ParseInternalKey(b) == Some(k) <==> k.sn <= MAX_SEQUENCE && b == AppendInternalKey(k)
  {
    hide EncodeFixed, DecodeFixed, Pow256;
    if k.sn <= MAX_SEQUENCE && b == AppendInternalKey(k) {
      TagOf(k);
    }
    if ParseInternalKey(b) == Some(k) {
      var tag := b[|b| - 8..];
      DecodedEncodes(tag);
      assert b == k.userKey + tag;
      TagFits(b);
      assert Tag(b) == Pack(k.sn, k.kind);
    }
  }

  lemma TagFits(b: Bytes)
    requires |b| >= 8
    ensures Tag(b) / 256 <= MAX_SEQUENCE
  {
    assert Pow256(4) == 0x1_0000_0000 && Pow256(8) == 0x1_0000_0000_0000_0000;
    assert Tag(b) < Pow256(|b[|b| - 8..]|);
  }

  /** On encoded keys the comparator is the order of entries. */
  lemma CompareIsOrder(rank: Ranking, a: ParsedInternalKey, b: ParsedInternalKey, v: Bytes, w: Bytes)
    requires a.sn <= MAX_SEQUENCE && b.sn <= MAX_SEQUENCE
    ensures var c := Compare(rank, AppendInternalKey(a), AppendInternalKey(b));
            (c < 0 <==> Before(EntryOf(rank, a, v), EntryOf(rank, b, w)))
            && (c > 0 <==> Before(EntryOf(rank, b, w), EntryOf(rank, a, v)))
  {
    hide AppendInternalKey, Pack;
    TagOf(a);
    TagOf(b);
  }
}
