/** The skip list, read without locks while one insertion is under way (db/skiplist.h). */
module SkipLists {
  import opened Options

  type Key = int

  const MAX_HEIGHT: nat := 12

  /** A node pointer. Keys are unique, so a key names its node. */
  datatype Ref = Null | Head | Node(key: Key)

  /** The links, one map a level from node to successor, and max_height_. `lists` records which
      keys have been linked into each level. */
  datatype Mem = Mem(next: seq<map<Ref, Ref>>, maxHeight: nat, ghost lists: seq<set<Key>>)

  predicate Behind(x: Ref, k: Key) {
    x.Head? || (x.Node? && x.key < k)
  }

  ghost predicate InList(s: set<Key>, x: Ref) {
    x.Head? || (x.Node? && x.key in s)
  }

  /** `y` is the node after `x` in the sorted list of the keys `s`. */
  ghost predicate IsSucc(s: set<Key>, x: Ref, y: Ref) {
    match y
    case Null => forall k :: k in s ==> !Behind(x, k)
    case Node(n) => n in s && Behind(x, n) && forall k :: k in s && Behind(x, k) ==> n <= k
    case Head => false
  }

  /** Every level is a sorted list, linked in full, and a sublist of the level below. */
  ghost predicate LevelOk(m: Mem, i: nat)
    requires i < |m.next| && i < |m.lists|
  {
    && (forall x :: InList(m.lists[i], x) ==> x in m.next[i] && IsSucc(m.lists[i], x, m.next[i][x]))
    && (i > 0 ==> m.lists[i] <= m.lists[i - 1])
  }

  ghost predicate MemOk(m: Mem) {
    && |m.next| == MAX_HEIGHT && |m.lists| == MAX_HEIGHT && 1 <= m.maxHeight <= MAX_HEIGHT
    && (forall i :: 0 <= i < MAX_HEIGHT ==> LevelOk(m, i))
    && (forall i :: m.maxHeight <= i < MAX_HEIGHT ==> m.lists[i] == {})
  }

  // ----- Searches -----

  /** The three searches differ in when they go on along a level. */
  datatype Query = AtOrAfter(key: Key) | Below(key: Key) | LastOne

  predicate GoesOn(q: Query, y: Ref) {
    y.Node? && match q
               case AtOrAfter(key) => y.key < key
               case Below(key) => y.key < key
               case LastOne => true
  }

  /** Where a search stands. */
  datatype Search = Search(query: Query, x: Ref, level: nat, result: Option<Ref>)

  ghost predicate SearchOk(m: Mem, s: Search) {
    && MemOk(m) && s.level < MAX_HEIGHT
    && InList(m.lists[s.level], s.x) && (s.x.Head? || GoesOn(s.query, s.x))
  }

  /** One turn of a search loop: one link is read. */
  function SearchStep(m: Mem, s: Search): Search
    requires s.level < |m.next| && s.x in m.next[s.level]
  {
    var y := m.next[s.level][s.x];
    if GoesOn(s.query, y) then s.(x := y)
    else if s.level == 0 then s.(result := Some(match s.query case AtOrAfter(_) => y case _ => s.x))
    else s.(level := s.level - 1)
  }

  /** What a search is to find in the list of the keys `s`. */
  ghost predicate Answers(s: set<Key>, q: Query, r: Ref) {
    match q
    case AtOrAfter(key) =>
      (match r
       case Null => forall k :: k in s ==> k < key
       case Node(n) => n in s && n >= key && forall k :: k in s && k >= key ==> n <= k
       case Head => false)
    case Below(key) =>
      (match r
       case Null => false
       case Node(n) => n in s && n < key && forall k :: k in s && k < key ==> k <= n
       case Head => forall k :: k in s ==> k >= key)
    case LastOne =>
      (match r
       case Null => false
       case Node(n) => n in s && forall k :: k in s ==> k <= n
       case Head => forall k :: k in s ==> false)
  }

  /** A step keeps the search on its lists; when it is the last one, the answer is right for the
      bottom list as it is at that very moment. */
  lemma SearchStepOk(m: Mem, s: Search)
    requires SearchOk(m, s)
    ensures s.x in m.next[s.level]
    ensures var t := SearchStep(m, s);
      && SearchOk(m, t)
      && (t.result != s.result ==> t.result.Some? && Answers(m.lists[0], s.query, t.result.value))
  {
    assert LevelOk(m, s.level);
  }

  /** What is still in front of a search: it shrinks with every step that is not the last. */
  ghost function Ahead(m: Mem, x: Ref): set<Key>
    requires |m.lists| > 0
  {
    set k | k in m.lists[0] && Behind(x, k)
  }

  lemma {:induction false} LowerLevels(m: Mem, i: nat)
    requires MemOk(m) && i < MAX_HEIGHT
    ensures m.lists[i] <= m.lists[0]
  {
    if i > 0 {
      assert LevelOk(m, i);
      LowerLevels(m, i - 1);
    }
  }

  lemma NotAnywhere(m: Mem, key: Key)
    requires MemOk(m) && key !in m.lists[0]
    ensures forall i :: 0 <= i < MAX_HEIGHT ==> key !in m.lists[i]
    ensures forall i, p :: 0 <= i < MAX_HEIGHT && IsPrevOrEqual(m.lists[i], key, p) ==> IsPrev(m.lists[i], key, p)
  {
    forall i | 0 <= i < MAX_HEIGHT
      ensures key !in m.lists[i]
    {
      LowerLevels(m, i);
    }
  }

  lemma AheadShrinks(m: Mem, s: Search)
    requires SearchOk(m, s) && s.x in m.next[s.level] && GoesOn(s.query, m.next[s.level][s.x])
    ensures Ahead(m, m.next[s.level][s.x]) < Ahead(m, s.x)
  {
    var y := m.next[s.level][s.x];
    assert LevelOk(m, s.level);
    LowerLevels(m, s.level);
    assert y.key in Ahead(m, s.x) && y.key !in Ahead(m, y);
  }

  // ----- Insertion -----

  /** `p` is where a new key goes in the list of the keys `s`. */
  ghost predicate IsPrev(s: set<Key>, key: Key, p: Ref) {
    InList(s, p) && Behind(p, key) && forall k :: k in s && Behind(p, k) ==> k > key
  }

  /** x->NoBarrier_SetNext(i, prev[i]->NoBarrier_Next(i)) */
  function SetOwn(m: Mem, i: nat, key: Key, prev: Ref): Mem
    requires i < |m.next| && prev in m.next[i]
  {
    m.(next := m.next[i := m.next[i][Node(key) := m.next[i][prev]]])
  }

  /** prev[i]->SetNext(i, x) */
  function Link(m: Mem, i: nat, key: Key, prev: Ref): Mem
    requires i < |m.next| && i < |m.lists|
  {
    m.(next := m.next[i := m.next[i][prev := Node(key)]], lists := m.lists[i := m.lists[i] + {key}])
  }

  lemma SetOwnKeeps(m: Mem, i: nat, key: Key, prev: Ref)
    requires MemOk(m) && i < MAX_HEIGHT && key !in m.lists[i] && IsPrev(m.lists[i], key, prev)
    ensures prev in m.next[i]
    ensures MemOk(SetOwn(m, i, key, prev))
  {
    assert LevelOk(m, i);
    var r := SetOwn(m, i, key, prev);
    forall j | 0 <= j < MAX_HEIGHT
      ensures LevelOk(r, j)
    {
      assert LevelOk(m, j);
    }
  }

  lemma LinkKeeps(m: Mem, i: nat, key: Key, prev: Ref)
    requires MemOk(m) && i < m.maxHeight && key !in m.lists[i] && IsPrev(m.lists[i], key, prev)
    requires i > 0 ==> key in m.lists[i - 1]
    requires prev in m.next[i] && Node(key) in m.next[i] && m.next[i][Node(key)] == m.next[i][prev]
    ensures MemOk(Link(m, i, key, prev))
  {
    assert LevelOk(m, i);
    var r := Link(m, i, key, prev);
    forall j | 0 <= j < MAX_HEIGHT
      ensures LevelOk(r, j)
    {
      assert LevelOk(m, j);
    }
  }

  // ----- The list on its own -----

  class SkipList {
    var mem: Mem

    ghost predicate Valid()
      reads this
    {
      MemOk(mem)
    }

    ghost function Keys(): set<Key>
      requires Valid()
      reads this
    {
      mem.lists[0]
    }

    constructor ()
      ensures Valid() && Keys() == {}
    {
      mem := Mem(seq(MAX_HEIGHT, _ => map[Head := Null]), 1, seq(MAX_HEIGHT, _ => {}));
    }

    /** The search loop all readers share. */
    method Find(q: Query) returns (r: Ref)
      requires Valid()
      ensures Answers(Keys(), q, r)
    {
      var s := Search(q, Head, mem.maxHeight - 1, None);
      while s.result.None?
        invariant SearchOk(mem, s) && s.query == q
        invariant s.result.Some? ==> Answers(Keys(), q, s.result.value)
        decreases s.result.None?, Ahead(mem, s.x), s.level
      {
        SearchStepOk(mem, s);
        if GoesOn(s.query, mem.next[s.level][s.x]) {
          AheadShrinks(mem, s);
        }
        s := SearchStep(mem, s);
      }
      r := s.result.value;
    }

    method Contains(key: Key) returns (found: bool)
      requires Valid()
      ensures found <==> key in Keys()
    {
      var x := Find(AtOrAfter(key));
      found := x.Node? && x.key == key;
    }

    /** FindGreaterOrEqual as Insert calls it: it also records the node before the key on every
        level. */
    method FindPrev(key: Key) returns (r: Ref, prev: map<nat, Ref>)
      requires Valid()
      ensures Answers(Keys(), AtOrAfter(key), r)
      ensures forall i :: 0 <= i < mem.maxHeight ==>
                i in prev && IsPrevOrEqual(mem.lists[i], key, prev[i])
    {
      var x, level := Head, mem.maxHeight - 1;
      prev := map[];
      while true
        invariant 0 <= level < mem.maxHeight && InList(mem.lists[level], x) && Behind(x, key)
        invariant forall i :: level < i < mem.maxHeight ==> i in prev && IsPrevOrEqual(mem.lists[i], key, prev[i])
        decreases Ahead(mem, x), level
      {
        assert LevelOk(mem, level);
        var next := mem.next[level][x];
        if next.Node? && next.key < key {
          AheadShrinks(mem, Search(AtOrAfter(key), x, level, None));
          x := next;
        } else {
          prev := prev[level := x];
          if level == 0 {
            return next, prev;
          }
          level := level - 1;
        }
      }
    }

    method Insert(key: Key, height: nat)
      requires Valid() && key !in Keys() && 1 <= height <= MAX_HEIGHT
      modifies this
      ensures Valid() && Keys() == old(Keys()) + {key}
      ensures forall i :: 0 <= i < MAX_HEIGHT ==> mem.lists[i] == old(mem.lists)[i] + if i < height then {key} else {}
    {
      hide LevelOk, IsPrev, IsPrevOrEqual;
      var x, prev := FindPrev(key);
      NotAnywhere(mem, key);
      if height > mem.maxHeight {
        prev := RaiseHeight(key, height, prev);
      }
      var i := 0;
      while i < height
        invariant 0 <= i <= height <= mem.maxHeight && Valid()
        invariant forall j :: 0 <= j < MAX_HEIGHT ==> mem.lists[j] == old(mem.lists)[j] + if j < i then {key} else {}
        invariant forall j :: i <= j < height ==> j in prev && IsPrev(mem.lists[j], key, prev[j])
      {
        InsertLevel(key, i, prev[i]);
        i := i + 1;
      }
    }

    /** Opens new levels: the head comes before everything there. */
    method RaiseHeight(key: Key, height: nat, prev: map<nat, Ref>) returns (more: map<nat, Ref>)
      requires Valid() && mem.maxHeight < height <= MAX_HEIGHT
      requires forall j :: 0 <= j < mem.maxHeight ==> j in prev && IsPrev(mem.lists[j], key, prev[j])
      modifies this
      ensures Valid() && mem == old(mem).(maxHeight := height)
      ensures forall j :: 0 <= j < height ==> j in more && IsPrev(mem.lists[j], key, more[j])
    {
      more := prev;
      var i := mem.maxHeight;
      while i < height
        invariant mem.maxHeight <= i <= height
        invariant forall j :: 0 <= j < i ==> j in more && IsPrev(mem.lists[j], key, more[j])
      {
        more := more[i := Head];
        i := i + 1;
      }
      mem := mem.(maxHeight := height);
      assert forall j :: 0 <= j < MAX_HEIGHT ==> LevelOk(old(mem), j) ==> LevelOk(mem, j);
    }

    /** One round of the linking loop. */
    method InsertLevel(key: Key, i: nat, prev: Ref)
      requires Valid() && i < mem.maxHeight && key !in mem.lists[i] && IsPrev(mem.lists[i], key, prev)
      requires i > 0 ==> key in mem.lists[i - 1]
      modifies this
      ensures Valid() && mem.maxHeight == old(mem.maxHeight)
      ensures mem.lists == old(mem.lists)[i := old(mem.lists)[i] + {key}]
    {
      SetOwnKeeps(mem, i, key, prev);
      mem := SetOwn(mem, i, key, prev);
      LinkKeeps(mem, i, key, prev);
      mem := Link(mem, i, key, prev);
    }
  }

  ghost predicate IsPrevOrEqual(s: set<Key>, key: Key, p: Ref) {
    InList(s, p) && Behind(p, key) && forall k :: k in s && Behind(p, k) ==> k >= key
  }

  // ----- Readers beside an insertion -----

  datatype Writer =
    | Resting
    | Raising(key: Key, height: nat, prev: seq<Ref>)             // prev[] and the height are known
    | Linking(key: Key, height: nat, prev: seq<Ref>, i: nat)     // levels below i are linked
    | OwnSet(key: Key, height: nat, prev: seq<Ref>, i: nat)      // the new node's own link at i is set, too

  datatype System = System(mem: Mem, writer: Writer, readers: map<nat, Search>)

  datatype Step =
    | BeginInsert(key: Key, height: nat, prev: seq<Ref>)  // the search of Insert, which nobody disturbs
    | StoreMaxHeight
    | StoreOwn
    | StoreLink
    | BeginSearch(id: nat, query: Query, height: nat)     // some value max_height_ has or had
    | ReadLink(id: nat)

  ghost predicate PrevsOk(m: Mem, key: Key, height: nat, prev: seq<Ref>, from: nat) {
    && |prev| == height <= MAX_HEIGHT && |m.lists| == MAX_HEIGHT
    && forall i :: from <= i < height ==> key !in m.lists[i] && IsPrev(m.lists[i], key, prev[i])
  }

  ghost predicate Enabled(s: System, step: Step) {
    match step
    case BeginInsert(key, height, prev) => s.writer.Resting? && height >= 1 && PrevsOk(s.mem, key, height, prev, 0)
    case StoreMaxHeight => s.writer.Raising?
    case StoreOwn =>
      s.writer.Linking? && s.writer.i < s.writer.height && s.writer.i < |s.mem.next| && s.writer.i < |s.writer.prev|
      && s.writer.prev[s.writer.i] in s.mem.next[s.writer.i]
    case StoreLink => s.writer.OwnSet? && s.writer.i < |s.mem.next| && s.writer.i < |s.mem.lists| && s.writer.i < |s.writer.prev|
    case BeginSearch(id, _, height) => id !in s.readers && 1 <= height <= s.mem.maxHeight
    case ReadLink(id) =>
      id in s.readers && s.readers[id].result.None? && s.readers[id].level < |s.mem.next|
      && s.readers[id].x in s.mem.next[s.readers[id].level]
  }

  ghost function Apply(s: System, step: Step): System
    requires Enabled(s, step)
  {
    match step
    case BeginInsert(key, height, prev) => s.(writer := Raising(key, height, prev))
    case StoreMaxHeight =>
      var w := s.writer;
      s.(mem := if w.height > s.mem.maxHeight then s.mem.(maxHeight := w.height) else s.mem,
         writer := Linking(w.key, w.height, w.prev, 0))
    case StoreOwn =>
      var w := s.writer;
      s.(mem := SetOwn(s.mem, w.i, w.key, w.prev[w.i]), writer := OwnSet(w.key, w.height, w.prev, w.i))
    case StoreLink =>
      var w := s.writer;
      s.(mem := Link(s.mem, w.i, w.key, w.prev[w.i]),
         writer := if w.i + 1 == w.height then Resting else Linking(w.key, w.height, w.prev, w.i + 1))
    case BeginSearch(id, query, height) => s.(readers := s.readers[id := Search(query, Head, height - 1, None)])
    case ReadLink(id) => s.(readers := s.readers[id := SearchStep(s.mem, s.readers[id])])
  }

  ghost predicate WriterOk(m: Mem, w: Writer) {
    match w
    case Resting => true
    case Raising(key, height, prev) => height >= 1 && PrevsOk(m, key, height, prev, 0)
    case Linking(key, height, prev, i) =>
      i < height <= m.maxHeight && PrevsOk(m, key, height, prev, i) && (i > 0 ==> key in m.lists[i - 1])
    case OwnSet(key, height, prev, i) =>
      && i < height <= m.maxHeight && PrevsOk(m, key, height, prev, i) && (i > 0 ==> key in m.lists[i - 1])
      && i < |m.next| && prev[i] in m.next[i] && Node(key) in m.next[i] && m.next[i][Node(key)] == m.next[i][prev[i]]
  }

  ghost predicate Inv(s: System) {
    && MemOk(s.mem) && WriterOk(s.mem, s.writer)
    && forall id :: id in s.readers ==> SearchOk(s.mem, s.readers[id])
  }

  /** Lists only grow. */
  ghost predicate Grown(m: Mem, r: Mem) {
    |m.lists| == |r.lists| == MAX_HEIGHT && forall i :: 0 <= i < MAX_HEIGHT ==> m.lists[i] <= r.lists[i]
  }

  lemma ReadersCarry(s: System, r: System)
    requires Inv(s) && MemOk(r.mem) && Grown(s.mem, r.mem) && r.readers == s.readers
    ensures forall id :: id in r.readers ==> SearchOk(r.mem, r.readers[id])
  {
    hide MemOk;
    forall id | id in r.readers
      ensures SearchOk(r.mem, r.readers[id])
    {
      assert SearchOk(s.mem, s.readers[id]);
    }
  }

  lemma StoreMaxHeightKeeps(s: System)
    requires Inv(s) && Enabled(s, StoreMaxHeight)
    ensures Inv(Apply(s, StoreMaxHeight)) && Grown(s.mem, Apply(s, StoreMaxHeight).mem)
  {
    var r := Apply(s, StoreMaxHeight);
    assert forall j :: 0 <= j < MAX_HEIGHT ==> LevelOk(s.mem, j) ==> LevelOk(r.mem, j);
    ReadersCarry(s, r);
  }

  lemma StoreOwnKeeps(s: System)
    requires Inv(s) && Enabled(s, StoreOwn)
    ensures Inv(Apply(s, StoreOwn)) && Grown(s.mem, Apply(s, StoreOwn).mem)
  {
    var r, w := Apply(s, StoreOwn), s.writer;
    SetOwnKeeps(s.mem, w.i, w.key, w.prev[w.i]);
    ReadersCarry(s, r);
  }

  lemma StoreLinkKeeps(s: System)
    requires Inv(s) && Enabled(s, StoreLink)
    ensures Inv(Apply(s, StoreLink)) && Grown(s.mem, Apply(s, StoreLink).mem)
  {
    var r, w := Apply(s, StoreLink), s.writer;
    LinkKeeps(s.mem, w.i, w.key, w.prev[w.i]);
    ReadersCarry(s, r);
  }

  lemma StepKeeps(s: System, step: Step)
    requires Inv(s) && Enabled(s, step)
    ensures Inv(Apply(s, step)) && Grown(s.mem, Apply(s, step).mem)
  {
    match step
    case StoreMaxHeight => StoreMaxHeightKeeps(s);
    case StoreOwn => StoreOwnKeeps(s);
    case StoreLink => StoreLinkKeeps(s);
    case ReadLink(id) => SearchStepOk(s.mem, s.readers[id]);
    case _ =>
  }

  /** The invariant never leaves a step without what it needs. */
  lemma NeverBlocked(s: System)
    requires Inv(s)
    ensures s.writer.Linking? ==> Enabled(s, StoreOwn)
    ensures s.writer.OwnSet? ==> Enabled(s, StoreLink)
    ensures forall id :: id in s.readers && s.readers[id].result.None? ==> Enabled(s, ReadLink(id))
  {
    if s.writer.Linking? {
      SetOwnKeeps(s.mem, s.writer.i, s.writer.key, s.writer.prev[s.writer.i]);
    }
    forall id | id in s.readers && s.readers[id].result.None?
      ensures Enabled(s, ReadLink(id))
    {
      SearchStepOk(s.mem, s.readers[id]);
    }
  }

  ghost predicate IsRun(states: seq<System>, steps: seq<Step>) {
    && |states| == |steps| + 1 && MemOk(states[0].mem) && states[0].writer.Resting? && states[0].readers == map[]
    && forall i :: 0 <= i < |steps| ==> Enabled(states[i], steps[i]) && states[i + 1] == Apply(states[i], steps[i])
  }

  lemma {:induction false} RunInv(states: seq<System>, steps: seq<Step>, i: nat)
    requires IsRun(states, steps) && i <= |steps|
    ensures Inv(states[i])
  {
    if i > 0 {
      hide Inv, Enabled, Apply;
      RunInv(states, steps, i - 1);
      StepKeeps(states[i - 1], steps[i - 1]);
    }
  }

  lemma {:induction false} ListsGrow(states: seq<System>, steps: seq<Step>, i: nat, j: nat)
    requires IsRun(states, steps) && i <= j <= |steps|
    ensures Grown(states[i].mem, states[j].mem)
    decreases j
  {
    hide Enabled, Apply, WriterOk, SearchOk;
    RunInv(states, steps, i);
    if i < j {
      ListsGrow(states, steps, i, j - 1);
      RunInv(states, steps, j - 1);
      StepKeeps(states[j - 1], steps[j - 1]);
    }
  }

  /** Main theorem. Whatever links are written while it runs, a search that ends at step `j` has
      the right answer for the bottom list at that very step; that list holds every key that
      was linked when the search began at step `i`, so no such key is missed. */
  lemma SearchesAreLinearizable(states: seq<System>, steps: seq<Step>, i: nat, j: nat, id: nat)
    requires IsRun(states, steps) && i <= j < |steps|
    requires steps[j] == ReadLink(id) && Enabled(states[j], steps[j])
    requires Apply(states[j], steps[j]).readers[id].result.Some?
    ensures Inv(states[j])
    ensures Answers(states[j].mem.lists[0], states[j].readers[id].query, states[j + 1].readers[id].result.value)
    ensures Grown(states[i].mem, states[j].mem)
  {
    RunInv(states, steps, j);
    SearchStepOk(states[j].mem, states[j].readers[id]);
    ListsGrow(states, steps, i, j);
  }

  // ----- What was asked for -----

  /** A search keeps its query as long as it lasts. */
  lemma {:induction false} QueryIsKept(states: seq<System>, steps: seq<Step>, i: nat, j: nat, id: nat)
    requires IsRun(states, steps) && i <= j <= |steps| && id in states[i].readers
    ensures id in states[j].readers && states[j].readers[id].query == states[i].readers[id].query
    decreases j
  {
    if i < j {
      hide Enabled, Apply;
      QueryIsKept(states, steps, i, j - 1, id);
      StepKeepsQuery(states[j - 1], steps[j - 1], id);
    }
  }

  lemma StepKeepsQuery(s: System, step: Step, id: nat)
    requires Enabled(s, step) && id in s.readers
    ensures id in Apply(s, step).readers && Apply(s, step).readers[id].query == s.readers[id].query
  {
  }

  /** Main theorem: a search that begins at step `i` and ends at step `j` answers what was asked when it
      began, for the list at its end, which holds every key that was linked at its beginning. */
  lemma SearchAnswersItsQuery(states: seq<System>, steps: seq<Step>, i: nat, j: nat, id: nat, query: Query, height: nat)
    requires IsRun(states, steps) && i < j < |steps| && steps[i] == BeginSearch(id, query, height)
    requires steps[j] == ReadLink(id) && id in states[j + 1].readers && states[j + 1].readers[id].result.Some?
    ensures |states[i].mem.lists| == |states[j].mem.lists| == MAX_HEIGHT && states[i].mem.lists[0] <= states[j].mem.lists[0]
    ensures Answers(states[j].mem.lists[0], query, states[j + 1].readers[id].result.value)
  {
    hide Inv, Answers;
    QueryIsKept(states, steps, i + 1, j, id);
    SearchesAreLinearizable(states, steps, i, j, id);
  }

  /** How many levels the insertion under way has linked. */
  function Linked(w: Writer): nat {
    match w
    case Linking(_, _, _, i) => i
    case OwnSet(_, _, _, i) => i
    case _ => 0
  }

  /** The lists of `r` are those of `m` and in the first `n` levels the key. */
  ghost predicate KeyAdded(m: Mem, r: Mem, key: Key, n: nat) {
    && |m.lists| == |r.lists| == MAX_HEIGHT
    && forall l :: 0 <= l < MAX_HEIGHT ==> r.lists[l] == if l < n then m.lists[l] + {key} else m.lists[l]
  }

  /** The insertion of that key is under way, or done. */
  ghost predicate Inserting(m: Mem, s: System, key: Key, height: nat) {
    match s.writer
    case Resting => height <= s.mem.maxHeight && KeyAdded(m, s.mem, key, height)
    case w => w.key == key && w.height == height && Linked(w) < height && KeyAdded(m, s.mem, key, Linked(w))
  }

  lemma InsertStep(m: Mem, s: System, step: Step, key: Key, height: nat)
    requires Inv(s) && Enabled(s, step) && !step.BeginInsert? && Inserting(m, s, key, height)
    ensures Inserting(m, Apply(s, step), key, height)
  {
    hide MemOk;
    if step.StoreLink? {
      var r := Apply(s, step);
      assert r.mem.lists == s.mem.lists[s.writer.i := s.mem.lists[s.writer.i] + {key}];
    }
  }

  /** Main theorem about the insertion: from its beginning until the next one, whatever the readers do,
      the key is in the levels linked so far and nothing else changes; when the insertion is over it is
      in all levels of its height, which searches start from. */
  lemma {:induction false} InsertAdds(states: seq<System>, steps: seq<Step>, i: nat, j: nat, key: Key, height: nat, prev: seq<Ref>)
    requires IsRun(states, steps) && i < j <= |steps| && steps[i] == BeginInsert(key, height, prev)
    requires forall n :: i < n < j ==> !steps[n].BeginInsert?
    ensures Inserting(states[i].mem, states[j], key, height)
    decreases j
  {
    hide Inv, Enabled, Apply, Inserting;
    RunInv(states, steps, j - 1);
    if i + 1 < j {
      InsertAdds(states, steps, i, j - 1, key, height, prev);
      InsertStep(states[i].mem, states[j - 1], steps[j - 1], key, height);
    } else {
      InsertBegins(states[i], key, height, prev);
    }
  }

  lemma InsertBegins(s: System, key: Key, height: nat, prev: seq<Ref>)
    requires Inv(s) && Enabled(s, BeginInsert(key, height, prev))
    ensures Inserting(s.mem, Apply(s, BeginInsert(key, height, prev)), key, height)
  {
    hide LevelOk;
  }
}
