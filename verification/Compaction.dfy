/** Compaction throws entries away without changing what any snapshot reads
    (DoCompactionWork in db/db_impl.cc). */
module Compaction {
  import opened Coding
  import opened DbFormat
  import opened InternalKeys
  import opened Options

  /** An internal key as the input iterator hands it over: it parses, or it does not. */
  datatype Raw = Parsed(e: Entry) | Corrupt(bytes: Bytes)

  function AsRaw(rank: Ranking, key: Bytes, value: Bytes): Raw {
    match ParseInternalKey(key)
    case None => Corrupt(key)
    case Some(k) => Parsed(EntryOf(rank, k, value))
  }

  function ParsedSet(rs: seq<Raw>): set<Entry> {
    set r | r in rs && r.Parsed? :: r.e
  }

  ghost predicate SortedInput(rs: seq<Raw>) {
    forall i, j :: 0 <= i < j < |rs| && rs[i].Parsed? && rs[j].Parsed? ==> Before(rs[i].e, rs[j].e)
  }

  predicate HasKey(rs: seq<Raw>, i: int, k: Key)
    requires 0 <= i < |rs|
  {
    rs[i].Parsed? && rs[i].e.key == k
  }

  /** Rule (A): an older entry of the same key, itself old enough for every snapshot, comes
      earlier in the same unbroken stretch of parsable keys. */
  ghost predicate Hidden(rs: seq<Raw>, i: int, smallest: nat) {
    && 0 <= i < |rs| && rs[i].Parsed?
    && exists j :: 0 <= j < i && HasKey(rs, j, rs[i].e.key) && rs[j].e.sn <= smallest
                   && forall m :: j < m < i ==> rs[m].Parsed?
  }

  /** The obsolete deletion marks: nothing below can be uncovered by dropping them. */
  predicate ObsoleteMark(e: Entry, smallest: nat, isBase: Key -> bool) {
    e.kind == Deletion && e.sn <= smallest && isBase(e.key)
  }

  ghost predicate Dropped(rs: seq<Raw>, i: int, smallest: nat, isBase: Key -> bool)
    requires 0 <= i < |rs|
  {
    rs[i].Parsed? && (Hidden(rs, i, smallest) || ObsoleteMark(rs[i].e, smallest, isBase))
  }

  /** The entries of `rs[..n]` that survive, in order. */
  ghost function Kept(rs: seq<Raw>, n: nat, smallest: nat, isBase: Key -> bool): seq<Raw>
    requires n <= |rs|
  {
    if n == 0 then []
    else Kept(rs, n - 1, smallest, isBase) + if Dropped(rs, n - 1, smallest, isBase) then [] else [rs[n - 1]]
  }

  lemma {:induction false} KeptElements(rs: seq<Raw>, n: nat, smallest: nat, isBase: Key -> bool)
    requires n <= |rs|
    ensures forall i :: 0 <= i < n && !Dropped(rs, i, smallest, isBase) ==> rs[i] in Kept(rs, n, smallest, isBase)
    ensures forall r :: r in Kept(rs, n, smallest, isBase) ==>
              exists i :: 0 <= i < n && rs[i] == r && !Dropped(rs, i, smallest, isBase)
  {
    if n > 0 {
      KeptElements(rs, n - 1, smallest, isBase);
    }
  }

  /** What is left when the smallest snapshot is the largest sequence number there is: the number
      that stands for no earlier entry then hides every entry. */
  function Unparsed(rs: seq<Raw>, n: nat): seq<Raw>
    requires n <= |rs|
  {
    if n == 0 then [] else Unparsed(rs, n - 1) + if rs[n - 1].Parsed? then [] else [rs[n - 1]]
  }

  ghost function Survivors(rs: seq<Raw>, n: nat, smallest: nat, isBase: Key -> bool): seq<Raw>
    requires n <= |rs|
  {
    if smallest < MAX_SEQUENCE then Kept(rs, n, smallest, isBase) else Unparsed(rs, n)
  }

  // ----- What the loop computes -----

  /** What the surroundings decide at each input position. */
  datatype Env = Env(
    stopBefore: nat -> bool,    // ShouldStopBefore(key)
    bigEnough: nat -> bool,     // FileSize() >= MaxOutputFileSize() after adding
    openFails: nat -> bool,
    finishFails: nat -> bool,
    shutdown: nat -> bool)

  /** An output file; it is complete when its table is finished, synced, closed and usable. */
  datatype Output = Output(smallest: Option<Raw>, largest: Option<Raw>, entries: seq<Raw>, complete: bool)

  ghost predicate GoodOutput(o: Output) {
    o.entries != [] && o.smallest == Some(o.entries[0]) && o.largest == Some(o.entries[|o.entries| - 1])
  }

  ghost function Flatten(os: seq<Output>): seq<Raw> {
    if os == [] then [] else Flatten(os[..|os| - 1]) + os[|os| - 1].entries
  }

  /** A file begins with the entry at `x` of all entries written, another one ending before it. */
  ghost predicate IsCut(os: seq<Output>, x: nat) {
    exists a :: 0 < a < |os| && |Flatten(os[..a])| == x
  }

  /** The surroundings ask for a new file between the entries from two places of the input. */
  ghost predicate AskedBetween(env: Env, i: nat, j: nat) {
    env.bigEnough(i) || exists m: nat :: i < m <= j && env.stopBefore(m)
  }

  /** The entry at `x` was at `at[x]` in the input, and files begin just where that is asked for. */
  ghost predicate CutWhereAsked(os: seq<Output>, input: seq<Raw>, env: Env, at: seq<nat>) {
    && |at| == |Flatten(os)|
    && (forall x :: 0 <= x < |at| ==> at[x] < |input| && Flatten(os)[x] == input[at[x]])
    && (forall x :: 0 < x < |at| ==> at[x - 1] < at[x] && (IsCut(os, x) <==> AskedBetween(env, at[x - 1], at[x])))
  }

  /** Rule (A) is decided by the immediately preceding input entry alone. */
  lemma HiddenByPrevious(rs: seq<Raw>, i: int, smallest: nat)
    requires SortedInput(rs) && 0 <= i < |rs| && rs[i].Parsed?
    ensures Hidden(rs, i, smallest) <==> i > 0 && HasKey(rs, i - 1, rs[i].e.key) && rs[i - 1].e.sn <= smallest
  {
    if Hidden(rs, i, smallest) {
      var j :| 0 <= j < i && HasKey(rs, j, rs[i].e.key) && rs[j].e.sn <= smallest
               && forall m :: j < m < i ==> rs[m].Parsed?;
      if j < i - 1 {
        assert Before(rs[j].e, rs[i - 1].e) && Before(rs[i - 1].e, rs[i].e);
      }
    }
  }

  /** The loop's two tests decide what survives. */
  lemma DropIsDecided(rs: seq<Raw>, i: int, smallest: nat, isBase: Key -> bool, lastSequence: nat)
    requires SortedInput(rs) && 0 <= i < |rs| && rs[i].Parsed? && FitSequences(rs)
    requires lastSequence == if i > 0 && HasKey(rs, i - 1, rs[i].e.key) then rs[i - 1].e.sn else MAX_SEQUENCE
    ensures Survivors(rs, i + 1, smallest, isBase) == Survivors(rs, i, smallest, isBase) +
              if lastSequence <= smallest || ObsoleteMark(rs[i].e, smallest, isBase) then [] else [rs[i]]
  {
    HiddenByPrevious(rs, i, smallest);
    assert i > 0 ==> rs[i - 1] in rs;
  }

  lemma CorruptSurvives(rs: seq<Raw>, i: int, smallest: nat, isBase: Key -> bool)
    requires 0 <= i < |rs| && rs[i].Corrupt?
    ensures Survivors(rs, i + 1, smallest, isBase) == Survivors(rs, i, smallest, isBase) + [rs[i]]
  {
  }

  lemma EmptyStart(rs: seq<Raw>, smallest: nat, isBase: Key -> bool)
    ensures Flatten([]) == Survivors(rs, 0, smallest, isBase)
  {
  }

  /** Parsed sequence numbers have 56 bits. */
  predicate FitSequences(rs: seq<Raw>) {
    forall r :: r in rs && r.Parsed? ==> r.e.sn <= MAX_SEQUENCE
  }

  class CompactionState {
    const smallestSnapshot: nat
    var outputs: seq<Output>
    var building: bool       // builder != nullptr; it fills the last output

    constructor (smallest: nat)
      ensures smallestSnapshot == smallest && outputs == [] && !building
    {
      smallestSnapshot, outputs, building := smallest, [], false;
    }

    ghost predicate Inv()
      reads this
    {
      && (building ==> outputs != [] && !outputs[|outputs| - 1].complete)
      && (forall o :: o in outputs ==> GoodOutput(o))
      && forall a :: 0 <= a < |outputs| && (building ==> a < |outputs| - 1) ==> outputs[a].complete
    }

    method Open(fails: bool) returns (ok: bool)
      requires Inv() && !building
      modifies this
      ensures ok == !fails
      ensures building == ok && outputs == old(outputs) + [Output(None, None, [], false)]
      ensures Flatten(outputs) == old(Flatten(outputs))
    {
      ghost var before := outputs;
      outputs := outputs + [Output(None, None, [], false)];
      assert outputs[..|outputs| - 1] == before;
      building := !fails;
      ok := !fails;
    }

    method Finish(fails: bool) returns (ok: bool)
      requires Inv() && building
      modifies this
      ensures ok == !fails && !building && (ok ==> Inv())
      ensures |outputs| == |old(outputs)| > 0 && outputs[..|outputs| - 1] == old(outputs)[..|outputs| - 1]
      ensures outputs[|outputs| - 1] == old(outputs[|outputs| - 1]).(complete := ok)
    {
      building := false;
      var last := |outputs| - 1;
      assert GoodOutput(outputs[last]);
      outputs := outputs[..last] + [outputs[last].(complete := !fails)];
      ok := !fails;
    }

    /** Records the key range and appends to the current output. */
    method Add(r: Raw)
      requires building && outputs != [] && !outputs[|outputs| - 1].complete
      requires forall a :: 0 <= a < |outputs| - 1 ==> GoodOutput(outputs[a]) && outputs[a].complete
      requires var o := outputs[|outputs| - 1]; o == Output(None, None, [], false) || GoodOutput(o)
      modifies this`outputs
      ensures Inv() && Extends(old(outputs), outputs, r)
    {
      var last := |outputs| - 1;
      var o := outputs[last];
      var smallest := if |o.entries| == 0 then Some(r) else o.smallest;
      var o' := Output(smallest, Some(r), o.entries + [r], false);
      ghost var before := outputs;
      outputs := outputs[..last] + [o'];
      assert outputs[..last] == before[..last];
      assert GoodOutput(o');
    }

    /** What has been written of the first `i` input entries. */
    ghost predicate Written(input: seq<Raw>, env: Env, at: seq<nat>, i: nat)
      reads this
    {
      && CutWhereAsked(outputs, input, env, at) && (forall x :: 0 <= x < |at| ==> at[x] < i)
      && (outputs == [] ==> !building)
      && (at != [] ==> (building <==> !AskedBetween(env, at[|at| - 1], i - 1)))
    }

    /** The compaction loop. It fails if a file cannot be begun or completed. When it succeeds, the
        outputs hold exactly the surviving entries in order, each file complete and with its exact key
        range, and files are cut where the surroundings ask for it and nowhere else. */
    method DoCompactionWork(input: seq<Raw>, isBase: Key -> bool, env: Env) returns (ok: bool, ghost at: seq<nat>)
      requires SortedInput(input) && FitSequences(input)
      requires outputs == [] && !building
      modifies this
      ensures ok ==> !building && forall o :: o in outputs ==> GoodOutput(o) && o.complete
      ensures ok ==> Flatten(outputs) == Survivors(input, |input|, smallestSnapshot, isBase)
      ensures ok ==> CutWhereAsked(outputs, input, env, at)
      ensures ok <== forall i: nat :: !env.openFails(i) && !env.finishFails(i) && !env.shutdown(i)
    {
      hide Survivors, SortedInput, FitSequences, GoodOutput, Flatten, CutWhereAsked, AskedBetween, Extends;
      EmptyStart(input, smallestSnapshot, isBase);
      NothingCut(input, env);
      at := [];
      var currentUserKey: Option<Key> := None;
      var lastSequenceForKey := MAX_SEQUENCE;
      ok := true;
      var i := 0;
      while i < |input| && !env.shutdown(i)
        invariant 0 <= i <= |input| && ok && Inv() && Written(input, env, at, i)
        invariant currentUserKey.Some? <==> i > 0 && input[i - 1].Parsed?
        invariant currentUserKey.Some? ==> currentUserKey.value == input[i - 1].e.key && lastSequenceForKey == input[i - 1].e.sn
        invariant Flatten(outputs) == Survivors(input, i, smallestSnapshot, isBase)
      {
        var r := input[i];
        AskedGrows(env, at, i);
        if env.stopBefore(i) && building {
          ok := FinishHere(env.finishFails(i), input, env, at);
          if !ok {
            break;
          }
        }
        var drop := false;
        if r.Corrupt? {
          currentUserKey := None;
          lastSequenceForKey := MAX_SEQUENCE;
          CorruptSurvives(input, i, smallestSnapshot, isBase);
        } else {
          if currentUserKey != Some(r.e.key) {
            currentUserKey := Some(r.e.key);
            lastSequenceForKey := MAX_SEQUENCE;
          }
          DropIsDecided(input, i, smallestSnapshot, isBase, lastSequenceForKey);
          if lastSequenceForKey <= smallestSnapshot {
            drop := true;
          } else if r.e.kind == Deletion && r.e.sn <= smallestSnapshot && isBase(r.e.key) {
            drop := true;
          }
          lastSequenceForKey := r.e.sn;
        }
        if !drop {
          ok := Keep(i, r, env, input, at);
          if !ok {
            break;
          }
          at := at + [i];
        }
        i := i + 1;
      }
      if ok && env.shutdown(i) {
        ok := false;
      }
      if ok && building {
        ok := FinishHere(env.finishFails(i), input, env, at);
      }
    }

    /** The end of the loop's body: an entry that is not dropped. */
    method Keep(i: nat, r: Raw, env: Env, ghost input: seq<Raw>, ghost at: seq<nat>) returns (ok: bool)
      requires Inv() && i < |input| && r == input[i] && CutWhereAsked(outputs, input, env, at)
      requires (outputs == [] ==> !building) && forall x :: 0 <= x < |at| ==> at[x] < i
      requires at != [] ==> (building <==> !AskedBetween(env, at[|at| - 1], i))
      modifies this
      ensures ok <==> !(env.openFails(i) && !old(building)) && !(env.bigEnough(i) && env.finishFails(i))
      ensures ok ==> Inv() && Written(input, env, at + [i], i + 1) && Flatten(outputs) == old(Flatten(outputs)) + [r]
    {
      hide GoodOutput, Flatten, CutWhereAsked, AskedBetween, Extends;
      ghost var before := outputs;
      if !building {
        ok := Open(env.openFails(i));
        if !ok {
          return;
        }
      }
      ghost var begun := outputs;
      Add(r);
      AddKeepsCuts(before, begun, outputs, old(building), input, env, at, i);
      AskedHere(env, i);
      ok := true;
      if env.bigEnough(i) {
        ok := FinishHere(env.finishFails(i), input, env, at + [i]);
      }
    }

    /** Finish, which changes no entry and no cut. */
    method FinishHere(fails: bool, ghost input: seq<Raw>, ghost env: Env, ghost at: seq<nat>) returns (ok: bool)
      requires Inv() && building && CutWhereAsked(outputs, input, env, at)
      modifies this
      ensures ok == !fails && !building && outputs != [] && (ok ==> Inv())
      ensures CutWhereAsked(outputs, input, env, at) && Flatten(outputs) == old(Flatten(outputs))
    {
      hide CutWhereAsked, Flatten, GoodOutput;
      ghost var before := outputs;
      ok := Finish(fails);
      SameCuts(before, outputs, input, env, at);
    }
  }

  // ----- Where the files are cut -----

  /** One entry more in the last file. */
  ghost predicate Extends(os: seq<Output>, os': seq<Output>, r: Raw) {
    && os != [] && |os'| == |os| && os'[..|os| - 1] == os[..|os| - 1]
    && os'[|os| - 1].entries == os[|os| - 1].entries + [r]
  }

  lemma NothingCut(input: seq<Raw>, env: Env)
    ensures CutWhereAsked([], input, env, [])
  {
  }

  lemma AskedGrows(env: Env, at: seq<nat>, i: nat)
    requires forall x :: 0 <= x < |at| ==> at[x] < i
    ensures at != [] ==> (AskedBetween(env, at[|at| - 1], i) <==> AskedBetween(env, at[|at| - 1], i - 1) || env.stopBefore(i))
  {
  }

  lemma AskedHere(env: Env, i: nat)
    ensures AskedBetween(env, i, i) <==> env.bigEnough(i)
  {
  }

  lemma {:induction false} SameFlatten(os: seq<Output>, os': seq<Output>)
    requires |os| == |os'| && forall a :: 0 <= a < |os| ==> os'[a].entries == os[a].entries
    ensures Flatten(os') == Flatten(os)
  {
    if os != [] {
      SameFlatten(os[..|os| - 1], os'[..|os| - 1]);
    }
  }

  lemma SameCuts(os: seq<Output>, os': seq<Output>, input: seq<Raw>, env: Env, at: seq<nat>)
    requires |os'| == |os| > 0 && os'[..|os| - 1] == os[..|os| - 1] && os'[|os| - 1].entries == os[|os| - 1].entries
    requires CutWhereAsked(os, input, env, at)
    ensures CutWhereAsked(os', input, env, at) && Flatten(os') == Flatten(os)
  {
    hide Flatten, AskedBetween;
    forall a | 0 <= a < |os|
      ensures os'[a].entries == os[a].entries && os'[..a] == os[..a]
    {
      assert a < |os| - 1 ==> os'[..|os| - 1][a] == os[..|os| - 1][a];
      assert os'[..a] == os'[..|os| - 1][..a] && os[..a] == os[..|os| - 1][..a];
    }
    SameFlatten(os, os');
    assert forall x :: IsCut(os', x) <==> IsCut(os, x);
  }

  /** Nothing is cut at the end. */
  lemma NoCutAtEnd(os: seq<Output>)
    requires forall o :: o in os ==> o.entries != []
    ensures !IsCut(os, |Flatten(os)|)
  {
    hide Flatten;
    forall a | 0 < a < |os|
      ensures |Flatten(os[..a])| != |Flatten(os)|
    {
      FlattenGrows(os, a, |os|);
      assert os[..|os|] == os && os[a] in os;
    }
  }

  lemma ExtendsFlatten(os: seq<Output>, os': seq<Output>, r: Raw)
    requires Extends(os, os', r)
    ensures Flatten(os') == Flatten(os) + [r]
    ensures forall x :: IsCut(os', x) <==> IsCut(os, x)
  {
    var last := |os| - 1;
    assert Flatten(os') == Flatten(os'[..last]) + os'[last].entries;
    hide Flatten;
    forall a | 0 <= a <= last
      ensures os'[..a] == os[..a]
    {
      assert os'[..a] == os'[..last][..a] && os[..a] == os[..last][..a];
    }
  }

  lemma OpenedFlatten(os: seq<Output>)
    ensures var os' := os + [Output(None, None, [], false)];
      Flatten(os') == Flatten(os) && forall x :: IsCut(os', x) <==> IsCut(os, x) || (os != [] && x == |Flatten(os)|)
  {
    var os' := os + [Output(None, None, [], false)];
    assert os'[..|os|] == os;
    hide Flatten;
    forall a | 0 < a < |os|
      ensures os'[..a] == os[..a]
    {
    }
    forall x
      ensures IsCut(os', x) <==> IsCut(os, x) || (os != [] && x == |Flatten(os)|)
    {
      if IsCut(os, x) {
        var a :| 0 < a < |os| && |Flatten(os[..a])| == x;
        assert |Flatten(os'[..a])| == x;
      }
      if os != [] && x == |Flatten(os)| {
        assert |Flatten(os'[..|os|])| == x;
      }
    }
  }

  /** The entry from place `i` goes to the last file, or begins a new one. */
  lemma AddKeepsCuts(os: seq<Output>, begun: seq<Output>, os': seq<Output>, continues: bool, input: seq<Raw>, env: Env, at: seq<nat>, i: nat)
    requires i < |input| && CutWhereAsked(os, input, env, at) && (forall x :: 0 <= x < |at| ==> at[x] < i)
    requires (forall o :: o in os ==> GoodOutput(o)) && (at != [] ==> (continues <==> !AskedBetween(env, at[|at| - 1], i)))
    requires begun == if continues then os else os + [Output(None, None, [], false)]
    requires Extends(begun, os', input[i])
    ensures Flatten(os') == Flatten(os) + [input[i]] && CutWhereAsked(os', input, env, at + [i])
  {
    hide Flatten, AskedBetween, IsCut;
    ExtendsFlatten(begun, os', input[i]);
    OpenedFlatten(os);
    NoCutAtEnd(os);
    NonEmptyFlatten(os);
    var at' := at + [i];
    forall x | 0 < x < |at'|
      ensures at'[x - 1] < at'[x] && (IsCut(os', x) <==> AskedBetween(env, at'[x - 1], at'[x]))
    {
      if x < |at| {
        assert IsCut(os', x) <==> IsCut(os, x);
      } else {
        assert at'[x - 1] == at[|at| - 1];
      }
    }
  }

  lemma NonEmptyFlatten(os: seq<Output>)
    requires forall o :: o in os ==> GoodOutput(o)
    ensures os == [] <==> Flatten(os) == []
  {
    assert os != [] ==> GoodOutput(os[|os| - 1]);
  }

  // ----- The output files -----

  lemma {:induction false} KeptSorted(rs: seq<Raw>, n: nat, smallest: nat, isBase: Key -> bool)
    requires SortedInput(rs) && n <= |rs|
    ensures SortedInput(Kept(rs, n, smallest, isBase))
  {
    hide Dropped, Before;
    if n > 0 {
      KeptSorted(rs, n - 1, smallest, isBase);
      KeptBefore(rs, n - 1, smallest, isBase);
    }
  }

  lemma KeptBefore(rs: seq<Raw>, n: nat, smallest: nat, isBase: Key -> bool)
    requires SortedInput(rs) && n < |rs|
    ensures forall r :: r in Kept(rs, n, smallest, isBase) && r.Parsed? && rs[n].Parsed? ==> Before(r.e, rs[n].e)
  {
    hide Kept, Dropped, Before;
    KeptElements(rs, n, smallest, isBase);
  }

  lemma {:induction false} UnparsedOnly(rs: seq<Raw>, n: nat)
    requires n <= |rs|
    ensures ParsedSet(Unparsed(rs, n)) == {} && forall r :: r in Unparsed(rs, n) ==> !r.Parsed?
  {
    if n > 0 {
      UnparsedOnly(rs, n - 1);
    }
  }

  /** What compaction of parsable keys keeps, and nothing else: everything younger than the smallest
      snapshot, and of each key what that snapshot sees, unless it is a deletion mark with nothing
      below. */
  lemma SurvivesIff(rs: seq<Raw>, smallest: nat, isBase: Key -> bool, e: Entry)
    requires SortedInput(rs) && (forall r :: r in rs ==> r.Parsed?) && Distinct(ParsedSet(rs)) && smallest < MAX_SEQUENCE
    requires Parsed(e) in rs
    ensures Parsed(e) in Survivors(rs, |rs|, smallest, isBase) <==>
      e.sn > smallest || (IsNewest(ParsedSet(rs), e.key, smallest, e) && !(e.kind == Deletion && isBase(e.key)))
  {
    hide Kept, Before, Hidden;
    var i :| 0 <= i < |rs| && rs[i] == Parsed(e);
    KeptElements(rs, |rs|, smallest, isBase);
    OncePerInput(rs, i);
    HiddenIff(rs, smallest, i);
  }

  lemma OncePerInput(rs: seq<Raw>, i: nat)
    requires SortedInput(rs) && i < |rs| && rs[i].Parsed?
    ensures forall j :: 0 <= j < |rs| && rs[j] == rs[i] ==> j == i
  {
  }

  lemma HiddenIff(rs: seq<Raw>, smallest: nat, i: nat)
    requires SortedInput(rs) && (forall r :: r in rs ==> r.Parsed?) && Distinct(ParsedSet(rs)) && i < |rs|
    ensures Hidden(rs, i, smallest) <==>
      exists f :: f in ParsedSet(rs) && f.key == rs[i].e.key && f.sn <= smallest && f.sn > rs[i].e.sn
    ensures rs[i].e.sn <= smallest ==> (Hidden(rs, i, smallest) <==> !IsNewest(ParsedSet(rs), rs[i].e.key, smallest, rs[i].e))
    ensures Hidden(rs, i, smallest) ==> rs[i].e.sn <= smallest
  {
    var e := rs[i].e;
    if Hidden(rs, i, smallest) {
      var j :| 0 <= j < i && HasKey(rs, j, e.key) && rs[j].e.sn <= smallest;
      assert Before(rs[j].e, e) && rs[j].e in ParsedSet(rs) && e in ParsedSet(rs);
      assert rs[j].e.sn != e.sn || rs[j].e == e;
    }
    forall f | f in ParsedSet(rs) && f.key == e.key && f.sn <= smallest && f.sn > e.sn
      ensures Hidden(rs, i, smallest)
    {
      var j :| 0 <= j < |rs| && rs[j] == Parsed(f);
      if i < j {
        assert Before(e, f);
      }
      assert HasKey(rs, j, e.key);
      assert forall m :: j < m < i ==> rs[m] in rs;
    }
  }

  lemma SurvivorsSorted(rs: seq<Raw>, smallest: nat, isBase: Key -> bool)
    requires SortedInput(rs)
    ensures SortedInput(Survivors(rs, |rs|, smallest, isBase))
  {
    KeptSorted(rs, |rs|, smallest, isBase);
    UnparsedOnly(rs, |rs|);
  }

  lemma {:induction false} FlattenIndex(os: seq<Output>, a: nat, p: nat) returns (x: nat)
    requires a < |os| && p < |os[a].entries|
    ensures x < |Flatten(os)| && Flatten(os)[x] == os[a].entries[p]
    ensures x < |Flatten(os[..a])| + |os[a].entries|
    ensures x >= |Flatten(os[..a])|
  {
    var last := |os| - 1;
    if a == last {
      x := |Flatten(os[..last])| + p;
    } else {
      x := FlattenIndex(os[..last], a, p);
      assert os[..last][..a] == os[..a];
    }
  }

  lemma {:induction false} FlattenGrows(os: seq<Output>, a: nat, b: nat)
    requires a < b <= |os|
    ensures |Flatten(os[..a])| + |os[a].entries| <= |Flatten(os[..b])|
    decreases b
  {
    assert os[..b][..b - 1] == os[..b - 1];
    if a + 1 < b {
      FlattenGrows(os, a, b - 1);
    }
  }

  /** The files a compaction leaves behind cover disjoint, strictly increasing key ranges, and
      each range is exact: every entry lies between the recorded ends. */
  lemma OutputRangesIncrease(os: seq<Output>, a: nat, b: nat, p: nat, q: nat)
    requires forall o :: o in os ==> GoodOutput(o)
    requires SortedInput(Flatten(os))
    requires a < |os| && b < |os| && p < |os[a].entries| && q < |os[b].entries|
    requires os[a].entries[p].Parsed? && os[b].entries[q].Parsed?
    ensures a < b ==> Before(os[a].entries[p].e, os[b].entries[q].e)
    ensures a == b && p < q ==> Before(os[a].entries[p].e, os[b].entries[q].e)
  {
    var x := FlattenIndex(os, a, p);
    var y := FlattenIndex(os, b, q);
    if a < b {
      FlattenGrows(os, a, b);
    } else if a == b && p < q {
      WithinOutput(os, a, p, q);
    }
  }

  lemma {:induction false} WithinOutput(os: seq<Output>, a: nat, p: nat, q: nat)
    requires SortedInput(Flatten(os)) && a < |os| && p < q < |os[a].entries|
    requires os[a].entries[p].Parsed? && os[a].entries[q].Parsed?
    ensures Before(os[a].entries[p].e, os[a].entries[q].e)
  {
    var last := |os| - 1;
    var pre := |Flatten(os[..last])|;
    if a == last {
      assert Flatten(os)[pre + p] == os[a].entries[p] && Flatten(os)[pre + q] == os[a].entries[q];
    } else {
      assert forall i :: 0 <= i < pre ==> Flatten(os[..last])[i] == Flatten(os)[i];
      WithinOutput(os[..last], a, p, q);
    }
  }

  // ----- What snapshots read -----

  /** The rest of the database while this compaction runs: levels above hold only newer entries
      of a key, levels below only older ones, and none at all for a base-level key. */
  ghost predicate Surroundings(rs: seq<Raw>, isBase: Key -> bool, newer: set<Entry>, older: set<Entry>) {
    && Distinct(ParsedSet(rs) + newer + older)
    && (forall a, b :: a in newer && b in ParsedSet(rs) && a.key == b.key ==> a.sn > b.sn)
    && (forall a :: a in older ==> !isBase(a.key))
  }

  /** A dropped deletion mark uncovers an older value: an unparsable key broke the stretch
      between the two, so that rule (A) does not reach the value. */
  ghost predicate Uncovers(rs: seq<Raw>, smallest: nat, isBase: Key -> bool, i: int, j: int) {
    && 0 <= i < j < |rs| && rs[i].Parsed? && HasKey(rs, j, rs[i].e.key)
    && ObsoleteMark(rs[i].e, smallest, isBase)
    && (forall m :: 0 <= m < i && HasKey(rs, m, rs[i].e.key) ==> rs[m].e.sn > smallest)
    && rs[j].e.kind == Value && !Hidden(rs, j, smallest)
  }

  ghost predicate SameReads(rs: seq<Raw>, smallest: nat, isBase: Key -> bool, newer: set<Entry>, older: set<Entry>) {
    var kept := ParsedSet(Survivors(rs, |rs|, smallest, isBase));
    forall k, s: nat :: s >= smallest ==>
      Lookup(kept + newer + older, k, s) == Lookup(ParsedSet(rs) + newer + older, k, s)
  }

  /** A dropped entry that is the newest one for some live snapshot is an obsolete mark. */
  lemma NewestDroppedIsMark(rs: seq<Raw>, i: int, smallest: nat, isBase: Key -> bool, all: set<Entry>, s: nat)
    requires SortedInput(rs) && 0 <= i < |rs| && Dropped(rs, i, smallest, isBase) && s >= smallest
    requires Distinct(all) && ParsedSet(rs) <= all && IsNewest(all, rs[i].e.key, s, rs[i].e)
    ensures ObsoleteMark(rs[i].e, smallest, isBase)
    ensures forall m :: 0 <= m < i && HasKey(rs, m, rs[i].e.key) ==> rs[m].e.sn > smallest
  {
    forall m | 0 <= m < i && HasKey(rs, m, rs[i].e.key)
      ensures rs[m].e.sn > smallest
    {
      assert Before(rs[m].e, rs[i].e);
      if rs[m].e.sn <= smallest {
        assert rs[m] in rs && rs[m].e in all;
        assert Visible(rs[m].e, rs[i].e.key, s);
      }
    }
  }

  lemma SameReadsAt(rs: seq<Raw>, smallest: nat, isBase: Key -> bool, newer: set<Entry>, older: set<Entry>, k: Key, s: nat)
    requires SortedInput(rs) && Surroundings(rs, isBase, newer, older) && s >= smallest
    requires smallest < MAX_SEQUENCE && forall i, j :: !Uncovers(rs, smallest, isBase, i, j)
    ensures Lookup(ParsedSet(Survivors(rs, |rs|, smallest, isBase)) + newer + older, k, s)
         == Lookup(ParsedSet(rs) + newer + older, k, s)
  {
    var kept := ParsedSet(Kept(rs, |rs|, smallest, isBase));
    KeptElements(rs, |rs|, smallest, isBase);
    var all, rest := ParsedSet(rs) + newer + older, kept + newer + older;
    assert rest <= all;
    if w :| w in all && Visible(w, k, s) {
      var e := NewestExists(all, k, s, w);
      LookupIs(all, k, s, e);
      if e in rest {
        LookupIs(rest, k, s, e);
      } else {
        var i :| 0 <= i < |rs| && rs[i] == Parsed(e);
        NewestDroppedIsMark(rs, i, smallest, isBase, all, s);
        if f :| IsNewest(rest, k, s, f) && f.kind == Value {
          NothingUncovered(rs, smallest, isBase, newer, older, i, f);
        }
      }
    } else {
      assert Lookup(all, k, s) == None;
    }
  }

  /** Past a dropped mark, no surviving value of the key is visible. */
  lemma NothingUncovered(rs: seq<Raw>, smallest: nat, isBase: Key -> bool, newer: set<Entry>, older: set<Entry>, i: nat, f: Entry)
    requires SortedInput(rs) && Surroundings(rs, isBase, newer, older)
    requires forall i, j :: !Uncovers(rs, smallest, isBase, i, j)
    requires i < |rs| && rs[i].Parsed? && ObsoleteMark(rs[i].e, smallest, isBase)
    requires forall m :: 0 <= m < i && HasKey(rs, m, rs[i].e.key) ==> rs[m].e.sn > smallest
    requires f.key == rs[i].e.key && f.sn <= rs[i].e.sn && f.kind == Value
    ensures f !in ParsedSet(Kept(rs, |rs|, smallest, isBase)) + newer + older
  {
    assert rs[i] in rs && rs[i].e in ParsedSet(rs);
    KeptElements(rs, |rs|, smallest, isBase);
    assert f !in newer && f !in older;
    if f in ParsedSet(Kept(rs, |rs|, smallest, isBase)) {
      var j :| 0 <= j < |rs| && rs[j] == Parsed(f) && !Dropped(rs, j, smallest, isBase);
      if j < i {
        assert Before(rs[j].e, rs[i].e);
        assert HasKey(rs, j, rs[i].e.key);
      } else {
        assert Uncovers(rs, smallest, isBase, i, j);
      }
    }
  }

  lemma MarkHidesAll(rs: seq<Raw>, smallest: nat, i: int)
    requires SortedInput(rs) && Distinct(ParsedSet(rs))
    requires 0 <= i < |rs| && rs[i].Parsed? && rs[i].e.kind == Deletion && rs[i].e.sn <= smallest
    requires forall m :: 0 <= m < i && HasKey(rs, m, rs[i].e.key) ==> rs[m].e.sn > smallest
    ensures Lookup(ParsedSet(rs), rs[i].e.key, smallest) == None
  {
    var k, all := rs[i].e.key, ParsedSet(rs);
    assert rs[i] in rs;
    forall f | f in all && Visible(f, k, smallest)
      ensures f.sn <= rs[i].e.sn
    {
      var m :| 0 <= m < |rs| && rs[m] == Parsed(f);
      if m < i {
        assert HasKey(rs, m, k);
      } else if m > i {
        assert Before(rs[i].e, rs[m].e);
      }
    }
    LookupIs(all, k, smallest, rs[i].e);
  }

  /** An uncovered value changes the read at the smallest snapshot. */
  lemma UncoveredIsRead(rs: seq<Raw>, smallest: nat, isBase: Key -> bool, i: int, j: int)
    requires SortedInput(rs) && Distinct(ParsedSet(rs)) && Uncovers(rs, smallest, isBase, i, j)
    ensures Lookup(ParsedSet(Kept(rs, |rs|, smallest, isBase)), rs[i].e.key, smallest).Some?
  {
    var k := rs[i].e.key;
    KeptElements(rs, |rs|, smallest, isBase);
    var kept := ParsedSet(Kept(rs, |rs|, smallest, isBase));
    assert kept <= ParsedSet(rs);
    assert Before(rs[i].e, rs[j].e);
    assert rs[j].e in kept;
    var f := NewestExists(kept, k, smallest, rs[j].e);
    LookupIs(kept, k, smallest, f);
    var m :| 0 <= m < |rs| && rs[m] == Parsed(f) && !Dropped(rs, m, smallest, isBase);
    assert f.kind == Value;
  }

  lemma UncoveringBreaksReads(rs: seq<Raw>, smallest: nat, isBase: Key -> bool, i: int, j: int)
    requires SortedInput(rs) && Distinct(ParsedSet(rs)) && Uncovers(rs, smallest, isBase, i, j) && smallest < MAX_SEQUENCE
    ensures Surroundings(rs, isBase, {}, {}) && !SameReads(rs, smallest, isBase, {}, {})
  {
    MarkHidesAll(rs, smallest, i);
    UncoveredIsRead(rs, smallest, isBase, i, j);
    var kept := ParsedSet(Kept(rs, |rs|, smallest, isBase));
    assert ParsedSet(rs) + {} + {} == ParsedSet(rs) && kept + {} + {} == kept;
  }

  lemma NoUncoveringKeepsReads(rs: seq<Raw>, smallest: nat, isBase: Key -> bool, newer: set<Entry>, older: set<Entry>)
    requires SortedInput(rs) && Surroundings(rs, isBase, newer, older)
    requires smallest < MAX_SEQUENCE && forall i, j :: !Uncovers(rs, smallest, isBase, i, j)
    ensures SameReads(rs, smallest, isBase, newer, older)
  {
    hide Survivors, Surroundings, SortedInput;
    forall k, s: nat | s >= smallest
      ensures Lookup(ParsedSet(Survivors(rs, |rs|, smallest, isBase)) + newer + older, k, s)
           == Lookup(ParsedSet(rs) + newer + older, k, s)
    {
      SameReadsAt(rs, smallest, isBase, newer, older, k, s);
    }
  }

  // ----- When sequence numbers have run out -----

  /** No entry of the key stands before it: it is the newest. */
  predicate IsFirst(rs: seq<Raw>, i: int)
    requires 0 <= i < |rs|
  {
    rs[i].Parsed? && forall m :: 0 <= m < i ==> !HasKey(rs, m, rs[i].e.key)
  }

  /** Nothing older can come to light when the mark goes: it is the base level for the key, or every
      smaller sequence number is a deletion mark's of the input. At any other number the levels below
      may hold a value, be it a second copy of one in the input. */
  ghost predicate NothingBelow(rs: seq<Raw>, e: Entry, isBase: Key -> bool) {
    isBase(e.key) || forall n: nat :: n < e.sn ==> HasMark(rs, e.key, n)
  }

  predicate HasMark(rs: seq<Raw>, k: Key, n: nat) {
    exists e :: e in ParsedSet(rs) && e.key == k && e.sn == n && e.kind == Deletion
  }

  /** Every key is deleted for good. */
  ghost predicate AllDeleted(rs: seq<Raw>, isBase: Key -> bool) {
    forall i :: 0 <= i < |rs| && IsFirst(rs, i) ==> rs[i].e.kind == Deletion && NothingBelow(rs, rs[i].e, isBase)
  }

  lemma {:induction false} FirstExists(rs: seq<Raw>, i: nat) returns (f: nat)
    requires i < |rs| && rs[i].Parsed?
    ensures f <= i && IsFirst(rs, f) && rs[f].e.key == rs[i].e.key
    decreases i
  {
    if m: nat :| m < i && HasKey(rs, m, rs[i].e.key) {
      f := FirstExists(rs, m);
    } else {
      f := i;
    }
  }

  /** The first entry of a key is the newest one of the input for every late snapshot. */
  lemma FirstIsNewest(rs: seq<Raw>, f: nat, s: nat)
    requires SortedInput(rs) && FitSequences(rs) && f < |rs| && IsFirst(rs, f) && s >= MAX_SEQUENCE
    ensures IsNewest(ParsedSet(rs), rs[f].e.key, s, rs[f].e)
  {
    assert rs[f] in rs;
    forall e | e in ParsedSet(rs) && Visible(e, rs[f].e.key, s)
      ensures e.sn <= rs[f].e.sn
    {
      var m :| 0 <= m < |rs| && rs[m] == Parsed(e);
      if m < f {
        assert HasKey(rs, m, rs[f].e.key);
      } else if m > f {
        assert Before(rs[f].e, rs[m].e);
      }
    }
  }

  /** What the input holds of a key hides nothing below it. */
  lemma DeletedReadsNothing(rs: seq<Raw>, isBase: Key -> bool, newer: set<Entry>, older: set<Entry>, k: Key, s: nat)
    requires SortedInput(rs) && FitSequences(rs) && AllDeleted(rs, isBase) && Surroundings(rs, isBase, newer, older) && s >= MAX_SEQUENCE
    ensures Lookup(newer + older, k, s) == Lookup(ParsedSet(rs) + newer + older, k, s)
  {
    var all, rest := ParsedSet(rs) + newer + older, newer + older;
    if w :| w in all && Visible(w, k, s) {
      var e := NewestExists(all, k, s, w);
      LookupIs(all, k, s, e);
      if e in rest {
        LookupIs(rest, k, s, e);
      } else {
        NothingUnderMark(rs, isBase, newer, older, s, e);
      }
    }
  }

  lemma NothingUnderMark(rs: seq<Raw>, isBase: Key -> bool, newer: set<Entry>, older: set<Entry>, s: nat, e: Entry)
    requires SortedInput(rs) && FitSequences(rs) && AllDeleted(rs, isBase) && Surroundings(rs, isBase, newer, older) && s >= MAX_SEQUENCE
    requires e in ParsedSet(rs) && e !in newer + older && IsNewest(ParsedSet(rs) + newer + older, e.key, s, e)
    ensures e.kind == Deletion && Lookup(newer + older, e.key, s) == None
  {
    hide HasMark, SortedInput, FitSequences, Before;
    NewestIsDeleted(rs, isBase, newer + older, s, e);
    forall x | IsNewest(newer + older, e.key, s, x)
      ensures x.kind == Deletion
    {
      assert x in ParsedSet(rs) + newer + older && x.sn <= e.sn && x !in newer && !isBase(x.key);
      assert x.sn != e.sn;
      MarkTakes(rs, e.key, x.sn, ParsedSet(rs) + newer + older, x);
    }
  }

  lemma NewestIsDeleted(rs: seq<Raw>, isBase: Key -> bool, others: set<Entry>, s: nat, e: Entry)
    requires SortedInput(rs) && FitSequences(rs) && AllDeleted(rs, isBase) && Distinct(ParsedSet(rs) + others) && s >= MAX_SEQUENCE
    requires e in ParsedSet(rs) && IsNewest(ParsedSet(rs) + others, e.key, s, e)
    ensures e.kind == Deletion && NothingBelow(rs, e, isBase)
  {
    hide NothingBelow;
    var i :| 0 <= i < |rs| && rs[i] == Parsed(e);
    var f := FirstExists(rs, i);
    FirstIsNewest(rs, f, s);
    assert rs[f].e in ParsedSet(rs) + others && Visible(e, e.key, s);
    assert rs[f].e == e;
  }

  /** Where the input has a mark, no other entry has that number. */
  lemma MarkTakes(rs: seq<Raw>, k: Key, n: nat, all: set<Entry>, x: Entry)
    requires HasMark(rs, k, n) && ParsedSet(rs) <= all && Distinct(all) && x in all && x.key == k && x.sn == n
    ensures x.kind == Deletion
  {
  }

  lemma DeletedKeepsReads(rs: seq<Raw>, smallest: nat, isBase: Key -> bool, newer: set<Entry>, older: set<Entry>)
    requires SortedInput(rs) && FitSequences(rs) && Surroundings(rs, isBase, newer, older)
    requires smallest >= MAX_SEQUENCE && AllDeleted(rs, isBase)
    ensures SameReads(rs, smallest, isBase, newer, older)
  {
    hide Surroundings, SortedInput, AllDeleted, FitSequences, Lookup;
    UnparsedOnly(rs, |rs|);
    var kept := ParsedSet(Survivors(rs, |rs|, smallest, isBase));
    assert kept + newer + older == newer + older;
    forall k, s: nat | s >= smallest
      ensures Lookup(kept + newer + older, k, s) == Lookup(ParsedSet(rs) + newer + older, k, s)
    {
      DeletedReadsNothing(rs, isBase, newer, older, k, s);
    }
  }

  /** A value on top of its key is lost, and one below a mark may come to light. */
  lemma LeftoverBreaksReads(rs: seq<Raw>, smallest: nat, isBase: Key -> bool, i: nat) returns (older: set<Entry>)
    requires SortedInput(rs) && Distinct(ParsedSet(rs)) && FitSequences(rs) && smallest >= MAX_SEQUENCE
    requires i < |rs| && IsFirst(rs, i) && !(rs[i].e.kind == Deletion && NothingBelow(rs, rs[i].e, isBase))
    ensures Surroundings(rs, isBase, {}, older) && !SameReads(rs, smallest, isBase, {}, older)
  {
    hide SortedInput, FitSequences, HasMark;
    var e, parsed := rs[i].e, ParsedSet(rs);
    FirstIsNewest(rs, i, smallest);
    UnparsedOnly(rs, |rs|);
    if e.kind == Value {
      older := {};
      assert parsed + {} + {} == parsed;
      LookupIs(parsed, e.key, smallest, e);
      assert Lookup({} + {} + older, e.key, smallest) == None;
    } else {
      var n: nat :| n < e.sn && !HasMark(rs, e.key, n);
      var x := ValueAt(rs, e.key, n);
      older := {x};
      assert {} + {} + older == {x};
      LookupIs({x}, e.key, smallest, x);
      assert IsNewest(parsed + {} + older, e.key, smallest, e);
      LookupIs(parsed + {} + older, e.key, smallest, e);
    }
    assert !SameReadsAtKey(rs, smallest, isBase, older, e.key);
  }

  ghost predicate SameReadsAtKey(rs: seq<Raw>, smallest: nat, isBase: Key -> bool, older: set<Entry>, k: Key) {
    Lookup(ParsedSet(Survivors(rs, |rs|, smallest, isBase)) + {} + older, k, smallest) == Lookup(ParsedSet(rs) + {} + older, k, smallest)
  }

  /** A value for a number that no mark of the input has: the input's own, or a new one. */
  lemma ValueAt(rs: seq<Raw>, k: Key, n: nat) returns (x: Entry)
    requires Distinct(ParsedSet(rs)) && !HasMark(rs, k, n)
    ensures x.key == k && x.sn == n && x.kind == Value && Distinct(ParsedSet(rs) + {x})
  {
    if y :| y in ParsedSet(rs) && y.key == k && y.sn == n {
      x := y;
    } else {
      x := Entry(k, n, Value, []);
    }
  }

  /** Exactly when reads are kept in all surroundings. */
  ghost predicate Harmless(rs: seq<Raw>, smallest: nat, isBase: Key -> bool) {
    if smallest < MAX_SEQUENCE then forall i, j :: !Uncovers(rs, smallest, isBase, i, j) else AllDeleted(rs, isBase)
  }

  lemma HarmlessKeepsReads(rs: seq<Raw>, smallest: nat, isBase: Key -> bool, newer: set<Entry>, older: set<Entry>)
    requires SortedInput(rs) && (smallest >= MAX_SEQUENCE ==> FitSequences(rs))
    requires Surroundings(rs, isBase, newer, older) && Harmless(rs, smallest, isBase)
    ensures SameReads(rs, smallest, isBase, newer, older)
  {
    hide SameReads, SortedInput, Surroundings, AllDeleted, FitSequences, Uncovers;
    if smallest < MAX_SEQUENCE {
      NoUncoveringKeepsReads(rs, smallest, isBase, newer, older);
    } else {
      DeletedKeepsReads(rs, smallest, isBase, newer, older);
    }
  }

  /** Main theorem. Whatever else the database holds, compaction changes no read at any snapshot from
      `smallest` on exactly when no dropped mark uncovers a value or, with the largest sequence number
      for `smallest`, every key of the input is deleted with nothing below. */
  lemma ReadsPreservedIff(rs: seq<Raw>, smallest: nat, isBase: Key -> bool)
    requires SortedInput(rs) && Distinct(ParsedSet(rs)) && (smallest >= MAX_SEQUENCE ==> FitSequences(rs))
    ensures (forall newer, older :: Surroundings(rs, isBase, newer, older) ==> SameReads(rs, smallest, isBase, newer, older))
       <==> Harmless(rs, smallest, isBase)
  {
    hide SameReads, SortedInput, FitSequences, Surroundings, Distinct, NothingBelow;
    if Harmless(rs, smallest, isBase) {
      forall newer, older | Surroundings(rs, isBase, newer, older)
        ensures SameReads(rs, smallest, isBase, newer, older)
      {
        HarmlessKeepsReads(rs, smallest, isBase, newer, older);
      }
    } else if smallest < MAX_SEQUENCE {
      var i, j :| Uncovers(rs, smallest, isBase, i, j);
      UncoveringBreaksReads(rs, smallest, isBase, i, j);
    } else {
      var i :| 0 <= i < |rs| && IsFirst(rs, i) && !(rs[i].e.kind == Deletion && NothingBelow(rs, rs[i].e, isBase));
      var older := LeftoverBreaksReads(rs, smallest, isBase, i);
    }
  }

  /** A store whose sequence numbers have run out loses a value to compaction. */
  lemma LastSnapshotLosesReads(k: Key, v: Bytes, isBase: Key -> bool)
    ensures var rs := [Parsed(Entry(k, 1, Value, v))];
      && SortedInput(rs) && Distinct(ParsedSet(rs)) && FitSequences(rs) && (forall i, j :: !Uncovers(rs, MAX_SEQUENCE, isBase, i, j))
      && Survivors(rs, 1, MAX_SEQUENCE, isBase) == []
      && Lookup(ParsedSet(rs), k, MAX_SEQUENCE) == Some(v) && Lookup({}, k, MAX_SEQUENCE) == None
  {
    var e := Entry(k, 1, Value, v);
    var rs := [Parsed(e)];
    assert ParsedSet(rs) == {e};
    LookupIs({e}, k, MAX_SEQUENCE, e);
    assert Unparsed(rs, 0) == [];
  }

  /** Among parsable keys rule (A) reaches every older entry. */
  lemma ParsableHides(rs: seq<Raw>, smallest: nat, i: nat, j: nat)
    requires i < j < |rs| && (forall r :: r in rs ==> r.Parsed?) && HasKey(rs, j, rs[i].e.key) && rs[i].e.sn <= smallest
    ensures Hidden(rs, j, smallest)
  {
    assert HasKey(rs, i, rs[j].e.key);
  }

  /** With only parsable keys, as every intact table has, reads are always preserved while sequence
      numbers last. */
  lemma ParsableReadsPreserved(rs: seq<Raw>, smallest: nat, isBase: Key -> bool, newer: set<Entry>, older: set<Entry>)
    requires SortedInput(rs) && (smallest >= MAX_SEQUENCE ==> FitSequences(rs)) && Surroundings(rs, isBase, newer, older)
    requires (forall r :: r in rs ==> r.Parsed?) && (smallest < MAX_SEQUENCE || AllDeleted(rs, isBase))
    ensures SameReads(rs, smallest, isBase, newer, older)
  {
    hide SameReads, AllDeleted, FitSequences;
    if smallest < MAX_SEQUENCE {
      forall i, j
        ensures !Uncovers(rs, smallest, isBase, i, j)
      {
        if 0 <= i < j < |rs| && rs[i].Parsed? && HasKey(rs, j, rs[i].e.key) && rs[i].e.sn <= smallest {
          ParsableHides(rs, smallest, i, j);
        }
      }
    }
    HarmlessKeepsReads(rs, smallest, isBase, newer, older);
  }

  lemma KeptNext(rs: seq<Raw>, n: nat, smallest: nat, isBase: Key -> bool)
    requires n < |rs|
    ensures Kept(rs, n + 1, smallest, isBase)
         == Kept(rs, n, smallest, isBase) + if Dropped(rs, n, smallest, isBase) then [] else [rs[n]]
  {
  }

  /** A key whose type byte is neither a deletion's nor a value's. */
  lemma IllegalType(userKey: Bytes, tag: nat)
    requires tag < Pow256(8) && tag % 256 > 1
    ensures var b := userKey + EncodeFixed(tag, 8);
      |b| == |userKey| + 8 && ParseInternalKey(b).None? && Tag(b) == tag && ExtractUserKey(b) == userKey
  {
    hide EncodeFixed, DecodeFixed, Pow256;
    var b := userKey + EncodeFixed(tag, 8);
    assert b[|b| - 8..] == EncodeFixed(tag, 8);
    FixedRoundTrip(tag, 8);
  }

  function MarkKey(): Bytes { AppendInternalKey(ParsedInternalKey([1], 5, Deletion)) }

  function BadKey(): Bytes { [1] + EncodeFixed(4 * 256 + 7, 8) }

  function ValueKey(): Bytes { AppendInternalKey(ParsedInternalKey([1], 3, Value)) }

  /** Three keys in the comparator's order, the middle one unparsable. */
  lemma WitnessKeys(rank: Ranking)
    ensures |MarkKey()| == 9 && |BadKey()| == 9 && |ValueKey()| == 9
    ensures Compare(rank, MarkKey(), BadKey()) < 0 && Compare(rank, BadKey(), ValueKey()) < 0
    ensures AsRaw(rank, MarkKey(), []) == Parsed(Entry(rank([1]), 5, Deletion, []))
    ensures AsRaw(rank, BadKey(), []) == Corrupt(BadKey())
    ensures AsRaw(rank, ValueKey(), [42]) == Parsed(Entry(rank([1]), 3, Value, [42]))
  {
    hide AppendInternalKey, EncodeFixed, ParseInternalKey;
    assert Pow256(4) == 0x1_0000_0000 && Pow256(8) == 0x1_0000_0000_0000_0000;
    IllegalType([1], 4 * 256 + 7);
    TagOf(ParsedInternalKey([1], 5, Deletion));
    TagOf(ParsedInternalKey([1], 3, Value));
    ParsesIff(MarkKey(), ParsedInternalKey([1], 5, Deletion));
    ParsesIff(ValueKey(), ParsedInternalKey([1], 3, Value));
  }

  function Witness(rank: Ranking): seq<Raw> {
    [AsRaw(rank, MarkKey(), []), AsRaw(rank, BadKey(), []), AsRaw(rank, ValueKey(), [42])]
  }

  /** An input in the comparator's order on which reads are not preserved: a deletion mark, a key
      of the same user key with an illegal type, an older value. With smallest snapshot 9 and
      nothing below, the mark goes and the value stays, and the deleted key reads 42 again. */
  lemma CorruptKeyUncovers(rank: Ranking)
    ensures var rs, k, isBase := Witness(rank), rank([1]), (_: Key) => true;
      && Compare(rank, MarkKey(), BadKey()) < 0 && Compare(rank, BadKey(), ValueKey()) < 0
      && SortedInput(rs) && Distinct(ParsedSet(rs))
      && Kept(rs, 3, 9, isBase) == rs[1..]
      && Lookup(ParsedSet(rs), k, 9) == None
      && Lookup(ParsedSet(Kept(rs, 3, 9, isBase)), k, 9) == Some([42])
  {
    hide MarkKey, BadKey, ValueKey, AsRaw, Compare, Lookup;
    WitnessKeys(rank);
    var rs, isBase := Witness(rank), (_: Key) => true;
    WitnessKept(rs, rank([1]), isBase);
    MarkHidesAll(rs, 9, 0);
    var value := Entry(rank([1]), 3, Value, [42]);
    assert rs[1..] == [rs[1], rs[2]];
    assert ParsedSet(rs[1..]) == {value};
    LookupIs({value}, rank([1]), 9, value);
  }

  lemma WitnessKept(rs: seq<Raw>, k: Key, isBase: Key -> bool)
    requires |rs| == 3 && rs[0] == Parsed(Entry(k, 5, Deletion, [])) && rs[1].Corrupt? && rs[2] == Parsed(Entry(k, 3, Value, [42]))
    requires isBase(k)
    ensures SortedInput(rs) && Distinct(ParsedSet(rs)) && Kept(rs, 3, 9, isBase) == rs[1..]
  {
    HiddenByPrevious(rs, 2, 9);
    assert Kept(rs, 0, 9, isBase) == [];
    KeptNext(rs, 0, 9, isBase);
    KeptNext(rs, 1, 9, isBase);
    KeptNext(rs, 2, 9, isBase);
    assert rs[1..] == [rs[1], rs[2]];
  }
}
