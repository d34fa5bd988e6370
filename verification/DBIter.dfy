/** The bidirectional cursor over one snapshot (db/db_iter.cc). */
module DBIterator {
  import opened DbFormat
  import opened Options

  /** The internal iterator over a sorted run of entries, by its iterator contract. */
  class RunIterator {
    const entries: seq<Entry>
    var pos: int

    constructor (es: seq<Entry>)
      ensures entries == es && pos == -1
    {
      entries := es;
      pos := -1;
    }

    predicate Valid()
      reads this
    {
      0 <= pos < |entries|
    }

    method SeekToFirst()
      modifies this
      ensures pos == 0
    {
      pos := 0;
    }

    method SeekToLast()
      modifies this
      ensures pos == |entries| - 1
    {
      pos := |entries| - 1;
    }

    method Next()
      requires Valid()
      modifies this
      ensures pos == old(pos) + 1
    {
      pos := pos + 1;
    }

    method Prev()
      requires Valid()
      modifies this
      ensures pos == old(pos) - 1
    {
      pos := pos - 1;
    }

    /** First entry that does not come before the target. */
    method Seek(target: Entry)
      modifies this
      ensures 0 <= pos <= |entries|
      ensures forall j :: 0 <= j < pos ==> Before(entries[j], target)
      ensures pos < |entries| ==> !Before(entries[pos], target)
    {
      pos := 0;
      while pos < |entries| && Before(entries[pos], target)
        invariant 0 <= pos <= |entries|
        invariant forall j :: 0 <= j < pos ==> Before(entries[j], target)
      {
        pos := pos + 1;
      }
    }
  }

  /** Entry `i` is what the snapshot shows for its key: a value, with no visible entry of the
      same key before it. */
  ghost predicate Live(es: seq<Entry>, snapshot: nat, i: int) {
    && 0 <= i < |es|
    && es[i].sn <= snapshot
    && es[i].kind == Value
    && forall j :: 0 <= j < i && es[j].sn <= snapshot ==> es[j].key != es[i].key
  }

  ghost predicate WellFormed(es: seq<Entry>) {
    Sorted(es) && Distinct(Elements(es))
  }

  lemma LiveIsSeen(es: seq<Entry>, snapshot: nat, i: int)
    requires WellFormed(es) && Live(es, snapshot, i)
    ensures Lookup(Elements(es), es[i].key, snapshot) == Some(es[i].value)
  {
    var k := es[i].key;
    forall f | f in Elements(es) && Visible(f, k, snapshot)
      ensures f.sn <= es[i].sn
    {
      var j :| 0 <= j < |es| && es[j] == f;
      if j > i {
        assert Before(es[i], es[j]);
      }
    }
    LookupIs(Elements(es), k, snapshot, es[i]);
  }

  lemma SeenIsLive(es: seq<Entry>, snapshot: nat, k: Key) returns (i: int)
    requires WellFormed(es) && Lookup(Elements(es), k, snapshot).Some?
    ensures Live(es, snapshot, i) && es[i].key == k
  {
    var e :| IsNewest(Elements(es), k, snapshot, e) && e.kind == Value;
    i :| 0 <= i < |es| && es[i] == e;
    forall j | 0 <= j < i && es[j].sn <= snapshot
      ensures es[j].key != k
    {
      if es[j].key == k {
        assert Before(es[j], es[i]);
        assert es[j] in Elements(es) && Visible(es[j], k, snapshot);
        assert false;
      }
    }
  }

  /** `r` is the least key of the view in the range `p`, or nothing when the range is empty. */
  ghost predicate IsLeast(view: map<Key, Bytes>, p: Key -> bool, r: Option<Key>) {
    match r
    case None => forall k :: k in view ==> !p(k)
    case Some(x) => x in view && p(x) && forall k :: k in view && p(k) ==> x <= k
  }

  ghost predicate IsGreatest(view: map<Key, Bytes>, p: Key -> bool, r: Option<Key>) {
    match r
    case None => forall k :: k in view ==> !p(k)
    case Some(x) => x in view && p(x) && forall k :: k in view && p(k) ==> k <= x
  }

  /** Sortedness read off at one position. */
  lemma KeysAround(es: seq<Entry>, p: int)
    requires Sorted(es) && 0 <= p < |es|
    ensures forall j :: 0 <= j < p ==> es[j].key <= es[p].key
    ensures forall j :: p < j < |es| ==> es[p].key <= es[j].key
  {
    assert forall j :: 0 <= j < p ==> Before(es[j], es[p]);
    assert forall j :: p < j < |es| ==> Before(es[p], es[j]);
  }

  lemma KeysInOrder(es: seq<Entry>, i: int, j: int)
    requires Sorted(es) && 0 <= i < |es| && 0 <= j < |es|
    ensures i <= j ==> es[i].key <= es[j].key
  {
    assert i < j ==> Before(es[i], es[j]);
  }

  ghost predicate NoneVisible(es: seq<Entry>, snapshot: nat, lo: int, hi: int) {
    forall j :: 0 <= lo <= j < hi <= |es| ==> es[j].sn > snapshot
  }

  ghost predicate Past(k: Key, skip: Option<Key>) {
    skip.Some? ==> k > skip.value
  }

  /** The forward scan has come from `start` to `pos`: everything visible behind it is hidden
      by the skip key `saved`, and no live entry past the original skip key was passed. */
  ghost predicate Scanned(es: seq<Entry>, snapshot: nat, start: int, skip: Option<Key>,
                          pos: int, skipping: bool, saved: Key) {
    && 0 <= start <= pos <= |es| && start < |es|
    && (skip.Some? ==> skipping && saved >= skip.value)
    && (skipping ==> skip == Some(saved) || exists j :: start <= j < pos && Visible(es[j], saved, snapshot))
    && (forall j :: 0 <= j < pos && es[j].sn <= snapshot ==>
          es[j].key < es[start].key || (skipping && es[j].key <= saved))
    && (forall i :: start <= i < pos && Live(es, snapshot, i) ==> !Past(es[i].key, skip))
  }

  ghost predicate NoEarlierThanSkip(es: seq<Entry>, snapshot: nat, start: int, skip: Option<Key>) {
    skip.Some? ==> forall j :: 0 <= start <= j < |es| && es[j].sn <= snapshot ==> skip.value <= es[j].key
  }

  lemma ScanPastInvisible(es: seq<Entry>, snapshot: nat, start: int, skip: Option<Key>, pos: int, skipping: bool, saved: Key)
    requires Scanned(es, snapshot, start, skip, pos, skipping, saved)
    requires pos < |es| && es[pos].sn > snapshot
    ensures Scanned(es, snapshot, start, skip, pos + 1, skipping, saved)
  {
  }

  lemma ScanPastDeletion(es: seq<Entry>, snapshot: nat, start: int, skip: Option<Key>, pos: int, skipping: bool, saved: Key)
    requires Sorted(es) && NoEarlierThanSkip(es, snapshot, start, skip)
    requires Scanned(es, snapshot, start, skip, pos, skipping, saved)
    requires pos < |es| && es[pos].sn <= snapshot && es[pos].kind == Deletion
    ensures Scanned(es, snapshot, start, skip, pos + 1, true, es[pos].key)
  {
    KeysAround(es, pos);
    assert Visible(es[pos], es[pos].key, snapshot);
  }

  lemma ScanPastHidden(es: seq<Entry>, snapshot: nat, start: int, skip: Option<Key>, pos: int, skipping: bool, saved: Key)
    requires Sorted(es)
    requires Scanned(es, snapshot, start, skip, pos, skipping, saved)
    requires pos < |es| && es[pos].sn <= snapshot && skipping && es[pos].key <= saved
    ensures Scanned(es, snapshot, start, skip, pos + 1, skipping, saved)
  {
    KeysAround(es, pos);
  }

  lemma ScanFinds(es: seq<Entry>, snapshot: nat, start: int, skip: Option<Key>, pos: int, skipping: bool, saved: Key)
    requires Sorted(es)
    requires Scanned(es, snapshot, start, skip, pos, skipping, saved)
    requires pos < |es| && es[pos].sn <= snapshot && es[pos].kind == Value
    requires !(skipping && es[pos].key <= saved)
    ensures Live(es, snapshot, pos) && Past(es[pos].key, skip)
  {
    KeysAround(es, pos);
  }

  /** The backward scan has come from `start` to `pos`: `c` is the oldest-key candidate, the
      newest visible entry of its key so far, and no other live entry was passed. */
  ghost predicate ScannedBack(es: seq<Entry>, snapshot: nat, start: int, pos: int, c: Option<int>) {
    && -1 <= pos <= start < |es|
    && match c
       case None => forall i :: pos < i <= start ==> !Live(es, snapshot, i)
       case Some(x) =>
         && pos < x <= start && es[x].sn <= snapshot && es[x].kind == Value
         && NoneVisible(es, snapshot, pos + 1, x)
         && forall i :: pos < i <= start && Live(es, snapshot, i) ==> i <= x
  }

  lemma ScanBackStep(es: seq<Entry>, snapshot: nat, start: int, pos: int, c: Option<int>)
    requires Sorted(es)
    requires ScannedBack(es, snapshot, start, pos, c) && pos >= 0
    requires es[pos].sn <= snapshot ==> c.None? || es[pos].key >= es[c.value].key
    ensures ScannedBack(es, snapshot, start, pos - 1,
              if es[pos].sn > snapshot then c else if es[pos].kind == Value then Some(pos) else None)
  {
    KeysAround(es, pos);
    if c.Some? && es[pos].sn <= snapshot {
      assert es[pos].key == es[c.value].key;
      assert !Live(es, snapshot, c.value);
    }
  }

  lemma ScanBackFinds(es: seq<Entry>, snapshot: nat, start: int, pos: int, c: int)
    requires Sorted(es)
    requires ScannedBack(es, snapshot, start, pos, Some(c))
    requires pos >= 0 ==> es[pos].key < es[c].key
    ensures Live(es, snapshot, c)
    ensures forall i :: i <= start && Live(es, snapshot, i) ==> i <= c
  {
    if pos >= 0 {
      KeysAround(es, pos);
    }
  }

  /** Keys past a position's key lie past the position, and likewise before it. */
  lemma KeyOrderIsPosition(es: seq<Entry>, p: int)
    requires Sorted(es) && 0 <= p < |es|
    ensures forall i :: 0 <= i < |es| && es[i].key > es[p].key ==> i > p
    ensures forall i :: 0 <= i < |es| && es[i].key < es[p].key ==> i < p
  {
    KeysAround(es, p);
  }

  /** Where the forward scan may start when it has to leave the key at `c`: anywhere from the
      first entry that is not older-keyed and visible, up to `c`. */
  lemma ScanMayStart(es: seq<Entry>, snapshot: nat, start: int, c: int)
    requires Sorted(es) && 0 <= start <= c < |es|
    requires start < c ==> NoneVisible(es, snapshot, start, c)
    requires start > 0 && start < c ==> es[start - 1].key < es[c].key
    requires start > 0 && start == c ==> es[start - 1].key <= es[c].key
    ensures Scanned(es, snapshot, start, Some(es[c].key), start, true, es[c].key)
    ensures NoEarlierThanSkip(es, snapshot, start, Some(es[c].key))
  {
    KeysAround(es, c);
    if start > 0 {
      KeysAround(es, start - 1);
    }
  }

  datatype Direction = Forward | Reverse

  /** What a cleared key string holds; it is never compared. */
  const CLEARED: Key := 0

  class DBIter {
    const iter: RunIterator
    const sequence: nat
    var savedKey: Key
    var savedValue: Bytes
    var direction: Direction
    var valid: bool

    /** The entry the cursor stands on while `valid`. */
    ghost var at: int

    ghost predicate Inv()
      reads this, iter
    {
      && WellFormed(iter.entries)
      && (valid ==> Live(iter.entries, sequence, at))
      && (valid && direction == Forward ==> iter.pos == at)
      && (valid && direction == Reverse ==>
            && -1 <= iter.pos < at
            && savedKey == iter.entries[at].key
            && savedValue == iter.entries[at].value
            && (iter.pos >= 0 ==> iter.entries[iter.pos].key < savedKey)
            && NoneVisible(iter.entries, sequence, iter.pos + 1, at))
    }

    function CurrentKey(): Key
      requires Inv() && valid
      reads this, iter
      ensures CurrentKey() == iter.entries[at].key
    {
      if direction == Forward then iter.entries[iter.pos].key else savedKey
    }

    function CurrentValue(): Bytes
      requires Inv() && valid
      reads this, iter
      ensures CurrentValue() == iter.entries[at].value
    {
      if direction == Forward then iter.entries[iter.pos].value else savedValue
    }

    /** The map this cursor walks over. */
    ghost function Shown(): map<Key, Bytes> {
      View(Elements(iter.entries), sequence)
    }

    /** The cursor seen from outside: the key it stands on, or nothing. */
    ghost function Cursor(): Option<Key>
      requires Inv()
      reads this, iter
    {
      if valid then Some(CurrentKey()) else None
    }

    /** The pair the cursor yields is a pair of the view. */
    ghost predicate YieldsShown()
      requires Inv()
      reads this, iter
    {
      valid ==> CurrentKey() in Shown() && CurrentValue() == Shown()[CurrentKey()]
    }

    constructor (it: RunIterator, snapshot: nat)
      requires WellFormed(it.entries)
      ensures iter == it && sequence == snapshot && Inv() && !valid
    {
      iter, sequence := it, snapshot;
      direction, valid := Forward, false;
      savedKey, savedValue, at := CLEARED, [], -1;
    }

    /** Scans forward from the inner position to the first live entry, past the skip key held
        in `savedKey` when skipping. */
    method FindNextUserEntry(skippingAtStart: bool)
      requires WellFormed(iter.entries)
      requires iter.Valid() && direction == Forward
      requires var skip := if skippingAtStart then Some(savedKey) else None;
        && Scanned(iter.entries, sequence, iter.pos, skip, iter.pos, skippingAtStart, savedKey)
        && NoEarlierThanSkip(iter.entries, sequence, iter.pos, skip)
      modifies this, iter
      ensures direction == Forward && Inv()
      ensures var skip := if skippingAtStart then Some(old(savedKey)) else None;
        && (valid ==> at >= old(iter.pos) && Past(iter.entries[at].key, skip))
        && (forall i :: old(iter.pos) <= i && Live(iter.entries, sequence, i) && Past(iter.entries[i].key, skip) ==>
              valid && at <= i)
    {
      hide Sorted, Distinct, NoEarlierThanSkip;
      var skipping := skippingAtStart;
      ghost var es, start := iter.entries, iter.pos;
      ghost var skip := if skippingAtStart then Some(savedKey) else None;
      while iter.Valid()
        invariant start <= iter.pos <= |es| && direction == Forward
        invariant Scanned(es, sequence, start, skip, iter.pos, skipping, savedKey)
        decreases |es| - iter.pos
      {
        var e := iter.entries[iter.pos];
        if e.sn <= sequence {
          match e.kind
          case Deletion =>
            ScanPastDeletion(es, sequence, start, skip, iter.pos, skipping, savedKey);
            savedKey := e.key;
            skipping := true;
          case Value =>
            if skipping && e.key <= savedKey {
              ScanPastHidden(es, sequence, start, skip, iter.pos, skipping, savedKey);
            } else {
              ScanFinds(es, sequence, start, skip, iter.pos, skipping, savedKey);
              valid := true;
              at := iter.pos;
              savedKey := CLEARED;
              return;
            }
        } else {
          ScanPastInvisible(es, sequence, start, skip, iter.pos, skipping, savedKey);
        }
        iter.Next();
      }
      savedKey := CLEARED;
      valid := false;
    }

    /** Scans backward from the inner position to the last live entry at or before it. */
    method FindPrevUserEntry()
      requires WellFormed(iter.entries)
      requires -1 <= iter.pos < |iter.entries| && direction == Reverse
      modifies this, iter
      ensures Inv()
      ensures valid ==> direction == Reverse && at <= old(iter.pos)
      ensures forall i :: i <= old(iter.pos) && Live(iter.entries, sequence, i) ==> valid && i <= at
    {
      var valueType := Deletion;
      ghost var es, start := iter.entries, iter.pos;
      ghost var c: Option<int> := None;
      while iter.Valid()
        invariant -1 <= iter.pos <= start && direction == Reverse
        invariant ScannedBack(es, sequence, start, iter.pos, c)
        invariant valueType == Value <==> c.Some?
        invariant c.Some? ==> savedKey == es[c.value].key && savedValue == es[c.value].value
        decreases iter.pos
      {
        var e := iter.entries[iter.pos];
        if e.sn <= sequence && valueType != Deletion && e.key < savedKey {
          break;
        }
        ScanBackStep(es, sequence, start, iter.pos, c);
        if e.sn <= sequence {
          valueType := e.kind;
          if valueType == Deletion {
            savedKey := CLEARED;
            savedValue := [];
            c := None;
          } else {
            savedKey := e.key;
            savedValue := e.value;
            c := Some(iter.pos);
          }
        }
        iter.Prev();
      }
      if valueType == Deletion {
        valid := false;
        savedKey := CLEARED;
        savedValue := [];
        direction := Forward;
      } else {
        ScanBackFinds(es, sequence, start, iter.pos, c.value);
        valid := true;
        at := c.value;
      }
    }

    /** The positions found by the two scans, read as keys of the view. */
    lemma LeastLive(p: Key -> bool)
      requires Inv()
      requires valid ==> p(iter.entries[at].key)
      requires forall i :: Live(iter.entries, sequence, i) && p(iter.entries[i].key) ==> valid && at <= i
      ensures IsLeast(Shown(), p, Cursor()) && YieldsShown()
    {
      hide Lookup, View, Sorted, Distinct, NoneVisible;
      forall k | k in Shown() && p(k)
        ensures valid && CurrentKey() <= k
      {
        var i := SeenIsLive(iter.entries, sequence, k);
        KeysInOrder(iter.entries, at, i);
      }
      if valid {
        LiveIsSeen(iter.entries, sequence, at);
      }
    }

    lemma GreatestLive(p: Key -> bool)
      requires Inv()
      requires valid ==> p(iter.entries[at].key)
      requires forall i :: Live(iter.entries, sequence, i) && p(iter.entries[i].key) ==> valid && i <= at
      ensures IsGreatest(Shown(), p, Cursor()) && YieldsShown()
    {
      hide Lookup, View, Sorted, Distinct, NoneVisible;
      forall k | k in Shown() && p(k)
        ensures valid && k <= CurrentKey()
      {
        var i := SeenIsLive(iter.entries, sequence, k);
        KeysInOrder(iter.entries, i, at);
      }
      if valid {
        LiveIsSeen(iter.entries, sequence, at);
      }
    }

    method Next()
      requires Inv() && valid
      modifies this, iter
      ensures Inv() && YieldsShown()
      ensures var here := old(CurrentKey()); IsLeast(Shown(), k => k > here, Cursor())
    {
      hide Sorted, Distinct, Lookup, View;
      ghost var es, c, here := iter.entries, at, CurrentKey();
      KeyOrderIsPosition(es, c);
      if direction == Reverse {
        direction := Forward;
        if !iter.Valid() {
          iter.SeekToFirst();
        } else {
          iter.Next();
        }
        // The source tests here for an exhausted inner iterator; it never is.
        assert iter.Valid();
      } else {
        KeysAround(es, c);
        savedKey := iter.entries[iter.pos].key;
      }
      ScanMayStart(es, sequence, iter.pos, c);
      FindNextUserEntry(true);
      LeastLive(k => k > here);
    }

    /** Scans back from the current entry until the key changes; false when there is none. */
    method BackToSmallerKey() returns (found: bool)
      requires Inv() && valid && direction == Forward && savedKey == iter.entries[at].key
      modifies iter
      ensures found == iter.Valid() && -1 <= iter.pos < at
      ensures found ==> iter.entries[iter.pos].key < savedKey
      ensures forall i :: iter.pos < i < |iter.entries| ==> iter.entries[i].key >= savedKey
    {
      KeysAround(iter.entries, at);
      while true
        invariant 0 <= iter.pos <= at
        invariant forall i :: iter.pos <= i < |iter.entries| ==> iter.entries[i].key >= savedKey
        decreases iter.pos
      {
        iter.Prev();
        if !iter.Valid() {
          return false;
        }
        if iter.entries[iter.pos].key < savedKey {
          return true;
        }
      }
    }

    method Prev()
      requires Inv() && valid
      modifies this, iter
      ensures Inv() && YieldsShown()
      ensures var here := old(CurrentKey()); IsGreatest(Shown(), k => k < here, Cursor())
    {
      ghost var here := CurrentKey();
      if direction == Forward {
        savedKey := iter.entries[iter.pos].key;
        var found := BackToSmallerKey();
        if !found {
          valid := false;
          savedKey := CLEARED;
          savedValue := [];
          GreatestLive(k => k < here);
          return;
        }
        direction := Reverse;
      } else {
        KeyOrderIsPosition(iter.entries, at);
      }
      if iter.pos >= 0 {
        KeysAround(iter.entries, iter.pos);
      }
      FindPrevUserEntry();
      GreatestLive(k => k < here);
    }

    method Seek(target: Key)
      requires WellFormed(iter.entries)
      modifies this, iter
      ensures Inv() && YieldsShown()
      ensures IsLeast(Shown(), k => k >= target, Cursor())
    {
      direction := Forward;
      savedValue := [];
      savedKey := target;
      var seekTo := Entry(target, sequence, Value, []);
      iter.Seek(seekTo);
      ghost var es, start := iter.entries, iter.pos;
      assert forall j :: start < j < |es| ==> Before(es[start], es[j]);
      if iter.Valid() {
        FindNextUserEntry(false);
      } else {
        valid := false;
      }
      LeastLive(k => k >= target);
    }

    method SeekToFirst()
      requires WellFormed(iter.entries)
      modifies this, iter
      ensures Inv() && YieldsShown()
      ensures IsLeast(Shown(), k => true, Cursor())
    {
      direction := Forward;
      savedValue := [];
      iter.SeekToFirst();
      if iter.Valid() {
        FindNextUserEntry(false);
      } else {
        valid := false;
      }
      LeastLive(k => true);
    }

    method SeekToLast()
      requires WellFormed(iter.entries)
      modifies this, iter
      ensures Inv() && YieldsShown()
      ensures IsGreatest(Shown(), k => true, Cursor())
    {
      direction := Reverse;
      savedValue := [];
      iter.SeekToLast();
      FindPrevUserEntry();
      GreatestLive(k => true);
    }
  }
}
