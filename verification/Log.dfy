/** The write-ahead log: records are cut into fragments that never cross a 32 KiB block, and
    reassembled after any truncation or damage (db/log_writer.cc, db/log_reader.cc). */
module Log {
  import opened DbFormat
  import opened Coding

  const BLOCK: nat := 32768
  const HEADER: nat := 7
  const FULL: Byte := 1
  const FIRST: Byte := 2
  const MIDDLE: Byte := 3
  const LAST: Byte := 4

  /** A checksum of the type byte and the payload; any function into 32-bit words will do. */
  type Word = w: nat | w < TWO32
  type Crc = Bytes -> Word

  // ----- Physical layout -----

  /** A fragment placed at an absolute file offset. */
  datatype Phys = Phys(at: nat, kind: Byte, payload: Bytes) {
    function End(): nat { at + HEADER + |payload| }
  }

  function TypeOf(begin: bool, end: bool): Byte {
    if begin && end then FULL else if begin then FIRST else if end then LAST else MIDDLE
  }

  /** EmitPhysicalRecord: checksum, length and type, then the payload. */
  function Image(crc: Crc, kind: Byte, payload: Bytes): (b: Bytes)
    requires |payload| <= 0xffff
    ensures |b| == HEADER + |payload|
  {
    EncodeFixed(Mask(crc([kind] + payload)), 4) + [|payload| % 256, |payload| / 256, kind] + payload
  }

  /** Where the next fragment goes: past the block's trailer when no header fits there. */
  function Skip(p: nat): (q: nat)
    ensures p <= q < p + HEADER && BLOCK - q % BLOCK >= HEADER
    ensures q != p ==> q % BLOCK == 0
  {
    if BLOCK - p % BLOCK < HEADER then p + (BLOCK - p % BLOCK) else p
  }

  /** The next fragment of `data` in a file of `p` bytes, and the data left over. */
  function FragmentOf(p: nat, data: Bytes, begin: bool): (r: (Phys, Bytes))
    ensures |r.1| < |data| || r.1 == [] || (r.1 == data && Stage(r.0.End()) < Stage(p))
    ensures Fits(r.0) && r.0.at == Skip(p)
    ensures r.0.payload + r.1 == data && r.0.kind == TypeOf(begin, r.1 == [])
  {
    var q := Skip(p);
    var avail := BLOCK - q % BLOCK - HEADER;
    var n := Min(|data|, avail);
    (Phys(q, TypeOf(begin, n == |data|), data[..n]), data[n..])
  }

  /** Only a header left in the block: the fragment will be empty. */
  function Stage(p: nat): nat {
    if Skip(p) % BLOCK == BLOCK - HEADER then 1 else 0
  }

  /** The fragments of `data` when the file so far has `p` bytes. */
  function Place(p: nat, data: Bytes, begin: bool): (ps: seq<Phys>)
    decreases |data|, Stage(p)
    ensures ps != []
  {
    var (ph, rest) := FragmentOf(p, data, begin);
    [ph] + if rest == [] then [] else Place(ph.End(), rest, false)
  }

  function EndOf(p: nat, ps: seq<Phys>): nat {
    if ps == [] then p else ps[|ps| - 1].End()
  }

  ghost predicate Fits(ph: Phys) {
    FULL <= ph.kind <= LAST && ph.at % BLOCK + HEADER + |ph.payload| <= BLOCK
  }

  /** Fragments one after the other, as far as trailers allow, the first one from `p` on. */
  ghost predicate Chain(p: nat, ps: seq<Phys>)
    decreases |ps|
  {
    ps == [] || (ps[0].at == Skip(p) && Fits(ps[0]) && Chain(ps[0].End(), ps[1..]))
  }

  lemma {:induction false} ChainConcat(p: nat, a: seq<Phys>, b: seq<Phys>)
    requires Chain(p, a) && Chain(EndOf(p, a), b)
    ensures Chain(p, a + b) && EndOf(p, a + b) == EndOf(EndOf(p, a), b)
    decreases |a|
  {
    if a == [] {
      assert a + b == b;
    } else {
      assert (a + b)[1..] == a[1..] + b;
      assert EndOf(a[0].End(), a[1..]) == EndOf(p, a);
      ChainConcat(a[0].End(), a[1..], b);
    }
  }

  lemma {:induction false} PlaceChain(p: nat, data: Bytes, begin: bool)
    ensures Chain(p, Place(p, data, begin))
    decreases |data|, Stage(p)
  {
    var (ph, rest) := FragmentOf(p, data, begin);
    if rest != [] {
      PlaceChain(ph.End(), rest, false);
    }
  }

  /** Between its first and its last fragment a record has middle ones only. */
  predicate KindsOk(ps: seq<Phys>, begin: bool) {
    forall i :: 0 <= i < |ps| ==> ps[i].kind == TypeOf(begin && i == 0, i == |ps| - 1)
  }

  function Payloads(ps: seq<Phys>): Bytes {
    if ps == [] then [] else ps[0].payload + Payloads(ps[1..])
  }

  /** The fragments of a record: they follow each other from `p` on without crossing a block,
      leaving out trailers only; their types say where the record begins and ends; their payloads
      are the record. */
  lemma {:induction false} PlaceIsRecord(p: nat, data: Bytes, begin: bool)
    ensures var ps := Place(p, data, begin); Chain(p, ps) && KindsOk(ps, begin) && Payloads(ps) == data
    decreases |data|, Stage(p)
  {
    hide Chain, FragmentOf;
    PlaceChain(p, data, begin);
    PlaceUnfold(p, data, begin);
    var (ph, rest) := FragmentOf(p, data, begin);
    var ps := Place(p, data, begin);
    if rest != [] {
      PlaceIsRecord(ph.End(), rest, false);
      assert forall i :: 1 <= i < |ps| ==> ps[i] == ps[1..][i - 1];
    } else {
      assert ps == [ph] && ps[1..] == [];
    }
  }

  /** A file as far as its contents are these fragments. */
  ghost predicate Holds(crc: Crc, f: Bytes, ph: Phys) {
    Fits(ph) && ph.End() <= |f| && f[ph.at..ph.End()] == Image(crc, ph.kind, ph.payload)
  }

  ghost predicate AllHold(crc: Crc, f: Bytes, ps: seq<Phys>) {
    forall i :: 0 <= i < |ps| ==> Holds(crc, f, ps[i])
  }

  lemma PlaceUnfold(p: nat, data: Bytes, begin: bool)
    ensures var (ph, rest) := FragmentOf(p, data, begin);
      var ps := Place(p, data, begin);
      ps[0] == ph && ps[1..] == if rest == [] then [] else Place(ph.End(), rest, false)
  {
  }

  /** The writer's progress: one more fragment has gone from `todo` to `ps`. */
  lemma AllHoldExtend(crc: Crc, f: Bytes, g: Bytes, ps: seq<Phys>, todo: seq<Phys>, ph: Phys)
    requires f <= g && AllHold(crc, f, ps) && Holds(crc, g, ph) && todo != [] && todo[0] == ph
    ensures AllHold(crc, g, ps + [ph])
    ensures ps + todo == (ps + [ph]) + todo[1..]
  {
    forall i | 0 <= i < |ps|
      ensures Holds(crc, g, ps[i])
    {
      assert Holds(crc, f, ps[i]);
      assert g[ps[i].at..ps[i].End()] == f[ps[i].at..ps[i].End()];
    }
  }

  lemma JustEmitted(crc: Crc, f: Bytes, g: Bytes, ph: Phys)
    requires Fits(ph) && ph.at == |f| && g == f + Image(crc, ph.kind, ph.payload)
    ensures Holds(crc, g, ph)
  {
  }

  // ----- The writer -----

  predicate ZerosFrom(f: Bytes, a: nat, b: nat)
    requires b <= |f|
  {
    forall x :: a <= x < b ==> f[x] == 0
  }

  lemma ZerosStay(f: Bytes, g: Bytes, a: nat, b: nat)
    requires f <= g && b <= |f| && ZerosFrom(f, a, b)
    ensures ZerosFrom(g, a, b)
  {
  }

  class Writer {
    var dest: Bytes
    var blockOffset: nat

    ghost predicate Valid()
      reads this
    {
      blockOffset <= BLOCK && (blockOffset == |dest| % BLOCK || (blockOffset == BLOCK && |dest| % BLOCK == 0))
    }

    /** Writer(dest, dest_length): start on an existing file. */
    constructor (existing: Bytes)
      ensures Valid() && dest == existing
    {
      dest := existing;
      blockOffset := |existing| % BLOCK;
    }

    method EmitPhysicalRecord(crc: Crc, t: Byte, payload: Bytes)
      requires Valid() && FULL <= t <= LAST
      requires blockOffset + HEADER + |payload| <= BLOCK
      modifies this
      ensures Valid() && dest == old(dest) + Image(crc, t, payload)
      ensures blockOffset == old(blockOffset) + HEADER + |payload|
    {
      var length: nat := |payload|;
      var header := EncodeFixed(Mask(crc([t] + payload)), 4) + [length % 256, length / 256, t];
      dest := dest + header;
      dest := dest + payload;
      blockOffset := blockOffset + HEADER + length;
      assert dest == old(dest) + Image(crc, t, payload);
    }

    /** Fills a trailer too short for a header. */
    method SwitchBlock()
      requires Valid()
      modifies this
      ensures Valid() && old(dest) <= dest && |dest| == Skip(|old(dest)|)
      ensures blockOffset == |dest| % BLOCK && ZerosFrom(dest, |old(dest)|, |dest|)
    {
      var leftover := BLOCK - blockOffset;
      if leftover < HEADER {
        if leftover > 0 {
          dest := dest + seq(leftover, _ => 0);
        }
        blockOffset := 0;
      }
    }

    /** One round of AddRecord's loop: emits the next fragment of the record. */
    method EmitFragment(crc: Crc, left: Bytes, begin: bool) returns (rest: Bytes, ghost ph: Phys)
      requires Valid()
      modifies this
      ensures Valid() && old(dest) <= dest && Holds(crc, dest, ph) && |dest| == ph.End()
      ensures (ph, rest) == FragmentOf(|old(dest)|, left, begin)
      ensures ph.at <= |dest| && ZerosFrom(dest, |old(dest)|, ph.at)
    {
      SwitchBlock();
      var avail := BLOCK - blockOffset - HEADER;
      var fragmentLength := if |left| < avail then |left| else avail;
      var t := TypeOf(begin, |left| == fragmentLength);
      ph := Phys(|dest|, t, left[..fragmentLength]);
      ghost var padded := dest;
      EmitPhysicalRecord(crc, t, left[..fragmentLength]);
      JustEmitted(crc, padded, dest, ph);
      rest := left[fragmentLength..];
    }

    /** Appends a record: the fragments that `Place` prescribes, and padding between them. */
    method AddRecord(crc: Crc, data: Bytes)
      requires Valid()
      modifies this
      ensures Valid() && old(dest) <= dest
      ensures var ps := Place(|old(dest)|, data, true);
        && |dest| == EndOf(|old(dest)|, ps) && AllHold(crc, dest, ps)
        && ps[0].at <= |dest| && ZerosFrom(dest, |old(dest)|, ps[0].at)
    {
      hide Place, FragmentOf, Fits, ZerosFrom;
      ghost var placed: seq<Phys> := [];
      ghost var todo := Place(|dest|, data, true);
      ghost var ps := todo;
      assert placed + todo == ps;
      var left := data;
      var begin := true;
      while begin || left != []
        invariant Valid() && old(dest) <= dest
        invariant |dest| == EndOf(|old(dest)|, placed)
        invariant AllHold(crc, dest, placed)
        invariant todo == if begin || left != [] then Place(|dest|, left, begin) else []
        invariant placed + todo == ps && begin == (placed == [])
        invariant placed != [] ==> ps[0].at <= |dest| && ZerosFrom(dest, |old(dest)|, ps[0].at)
        decreases begin, |left|, Stage(|dest|)
      {
        ghost var before, prior, ph := dest, left, Phys(0, 0, []);
        left, ph := EmitFragment(crc, left, begin);
        PlaceUnfold(|before|, prior, begin);
        AllHoldExtend(crc, before, dest, placed, todo, ph);
        if placed != [] {
          ZerosStay(before, dest, |old(dest)|, ps[0].at);
        }
        placed, todo := placed + [ph], todo[1..];
        begin := false;
      }
    }
  }

  // ----- The reader -----

  /** The position in the file, the unread part of the current block, and whether the last read
      came back short. */
  datatype Source = Source(pos: nat, buffer: Bytes, eof: bool) {
    ghost function Left(file: Bytes): int { |file| - pos + |buffer| }
  }

  /** What ReadPhysicalRecord returns: a fragment, kBadRecord (dropping bytes with or without a
      report), or kEof. */
  datatype Event = Fragment(kind: Byte, payload: Bytes) | Bad(reported: bool) | Eof

  function Refill(file: Bytes, s: Source): Source
    requires s.pos <= |file|
  {
    var end := Min(s.pos + BLOCK, |file|);
    Source(end, file[s.pos..end], end - s.pos < BLOCK)
  }

  /** The header test and the checksum test on a buffer that holds at least a header. */
  function Parse(crc: Crc, s: Source): (r: (Event, Source))
    requires |s.buffer| >= HEADER
    ensures r.1.pos == s.pos && r.1.eof == s.eof && |r.1.buffer| < |s.buffer|
  {
    var b := s.buffer;
    assert Pow256(4) == TWO32;
    var length: nat := b[4] as int + b[5] as int * 256;
    var kind := b[6];
    if HEADER + length > |b| then
      (if s.eof then Eof else Bad(true), s.(buffer := []))
    else if kind == 0 && length == 0 then
      (Bad(false), s.(buffer := []))
    else if crc(b[6..HEADER + length]) != Unmask(DecodeFixed(b[..4])) then
      (Bad(true), s.(buffer := []))
    else
      (Fragment(kind, b[HEADER..HEADER + length]), s.(buffer := b[HEADER + length..]))
  }

  function ReadPhysical(crc: Crc, file: Bytes, s: Source): (r: (Event, Source))
    requires s.pos <= |file|
    ensures r.1.pos <= |file|
    ensures !r.0.Eof? ==> r.1.Left(file) < s.Left(file)
  {
    var t := if |s.buffer| < HEADER && !s.eof then Refill(file, s) else s;
    if |t.buffer| < HEADER then (Eof, t.(buffer := [])) else Parse(crc, t)
  }

  /** All physical events up to the end of the file. */
  ghost function Events(crc: Crc, file: Bytes, s: Source): seq<Event>
    requires s.pos <= |file|
    decreases s.Left(file)
  {
    var (e, t) := ReadPhysical(crc, file, s);
    if e.Eof? then [] else [e] + Events(crc, file, t)
  }

  datatype Contents = Contents(records: seq<Bytes>, reports: nat)

  function Report(yes: bool, rest: Contents): Contents {
    if yes then rest.(reports := rest.reports + 1) else rest
  }

  /** ReadRecord, called again and again: the records put together from the events, and the
      number of corruption reports. */
  function Assemble(es: seq<Event>, inFragmented: bool, scratch: Bytes): Contents {
    if es == [] then Contents([], 0)
    else
      match es[0]
      case Fragment(kind, payload) =>
        if kind == FULL then
          var rest := Assemble(es[1..], false, []);
          Report(inFragmented && scratch != [], rest.(records := [payload] + rest.records))
        else if kind == FIRST then
          Report(inFragmented && scratch != [], Assemble(es[1..], true, payload))
        else if kind == MIDDLE then
          if inFragmented then Assemble(es[1..], true, scratch + payload)
          else Report(true, Assemble(es[1..], false, scratch))
        else if kind == LAST then
          if inFragmented then
            var rest := Assemble(es[1..], false, []);
            rest.(records := [scratch + payload] + rest.records)
          else Report(true, Assemble(es[1..], false, scratch))
        else
          Report(true, Assemble(es[1..], false, []))
      case Bad(reported) =>
        Report(reported, if inFragmented then Report(true, Assemble(es[1..], false, [])) else Assemble(es[1..], false, scratch))
      case Eof => Contents([], 0)
  }

  class Reader {
    const crc: Crc
    const file: Bytes
    var pos: nat
    var buffer: Bytes
    var eof: bool
    var reports: nat

    ghost predicate Valid()
      reads this
    {
      pos <= |file|
    }

    function State(): Source
      reads this
    {
      Source(pos, buffer, eof)
    }

    /** What is still to be read: the records and the reports to come. */
    ghost function ToCome(): Contents
      requires Valid()
      reads this
    {
      Assemble(Events(crc, file, State()), false, [])
    }

    constructor (c: Crc, f: Bytes)
      ensures Valid() && crc == c && file == f && reports == 0
      ensures State() == Source(0, [], false)
    {
      crc, file := c, f;
      pos, buffer, eof, reports := 0, [], false, 0;
    }

    method ReadPhysicalRecord() returns (e: Event)
      requires Valid()
      modifies this
      ensures Valid() && (e, State()) == old(ReadPhysical(crc, file, State()))
      ensures reports == old(reports) + if e == Bad(true) then 1 else 0
    {
      while true
        invariant Valid() && reports == old(reports)
        invariant State() == old(State()) ||
                  (|old(buffer)| < HEADER && !old(eof) && State() == Refill(file, old(State())))
        decreases |buffer| < HEADER && !eof
      {
        if |buffer| < HEADER {
          if !eof {
            var end := Min(pos + BLOCK, |file|);
            buffer := file[pos..end];
            eof := end - pos < BLOCK;
            pos := end;
            continue;
          } else {
            buffer := [];
            return Eof;
          }
        }
        var length: nat := buffer[4] as int + buffer[5] as int * 256;
        var kind := buffer[6];
        if HEADER + length > |buffer| {
          buffer := [];
          if !eof {
            reports := reports + 1;
            return Bad(true);
          }
          return Eof;
        }
        if kind == 0 && length == 0 {
          buffer := [];
          return Bad(false);
        }
        assert Pow256(4) == TWO32;
        var expected := Unmask(DecodeFixed(buffer[..4]));
        var actual := crc(buffer[6..HEADER + length]);
        if actual != expected {
          buffer := [];
          reports := reports + 1;
          return Bad(true);
        }
        e := Fragment(kind, buffer[HEADER..HEADER + length]);
        buffer := buffer[HEADER + length..];
        return;
      }
    }

    /** One record: the head of what is to come, or nothing when nothing is. */
    method ReadRecord() returns (ok: bool, record: Bytes)
      requires Valid()
      modifies this
      ensures Valid()
      ensures ok ==> old(ToCome()).records == [record] + ToCome().records
      ensures ok ==> State().Left(file) < old(State().Left(file))
      ensures !ok ==> old(ToCome()).records == []
      ensures old(ToCome()).reports + old(reports) == (if ok then ToCome().reports else 0) + reports
    {
      var scratch: Bytes := [];
      var inFragmented := false;
      record := [];
      ghost var all := ToCome();
      while true
        invariant Valid() && State().Left(file) <= old(State().Left(file))
        invariant Assemble(Events(crc, file, State()), inFragmented, scratch).records == all.records
        invariant Assemble(Events(crc, file, State()), inFragmented, scratch).reports + reports == all.reports + old(reports)
        decreases State().Left(file)
      {
        ghost var es := Events(crc, file, State());
        var e := ReadPhysicalRecord();
        assert !e.Eof? ==> es[0] == e && es[1..] == Events(crc, file, State());
        match e
        case Fragment(kind, payload) =>
          if kind == FULL {
            if inFragmented && scratch != [] {
              reports := reports + 1;
            }
            return true, payload;
          } else if kind == FIRST {
            if inFragmented && scratch != [] {
              reports := reports + 1;
            }
            scratch := payload;
            inFragmented := true;
          } else if kind == MIDDLE {
            if !inFragmented {
              reports := reports + 1;
            } else {
              scratch := scratch + payload;
            }
          } else if kind == LAST {
            if !inFragmented {
              reports := reports + 1;
            } else {
              return true, scratch + payload;
            }
          } else {
            reports := reports + 1;
            inFragmented := false;
            scratch := [];
          }
        case Bad(reported) =>
          if inFragmented {
            reports := reports + 1;
            inFragmented := false;
            scratch := [];
          }
        case Eof =>
          return false, [];
      }
    }
  }
}
