/** The pointer-linked binary heap under the timer queue (heap-inl.h). */
module Heaps {

  /** What timer_less_than compares: the due time, then the order of starting. */
  datatype Rank = Rank(timeout: nat, startId: nat)

  predicate Less(a: Rank, b: Rank) {
    a.timeout < b.timeout || (a.timeout == b.timeout && a.startId < b.startId)
  }

  // ----- Heap order over numbered slots: slot 1 is the root, slot i hangs under slot i / 2 -----

  ghost predicate OrderedAt(ks: seq<Rank>, i: nat) {
    1 < i < |ks| ==> !Less(ks[i], ks[i / 2])
  }

  ghost predicate HeapOrder(ks: seq<Rank>) {
    forall i: nat {:trigger OrderedAt(ks, i)} :: OrderedAt(ks, i)
  }

  /** Order may fail only between slot `c` and its neighbours. */
  ghost predicate HoleAt(ks: seq<Rank>, c: nat) {
    && 1 <= c < |ks|
    && (forall i: nat {:trigger OrderedAt(ks, i)} :: i != c && i / 2 != c ==> OrderedAt(ks, i))
    && (c > 1 && 2 * c < |ks| ==> !Less(ks[2 * c], ks[c / 2]))
    && (c > 1 && 2 * c + 1 < |ks| ==> !Less(ks[2 * c + 1], ks[c / 2]))
  }

  ghost predicate ChildrenOrdered(ks: seq<Rank>, c: nat) {
    OrderedAt(ks, 2 * c) && OrderedAt(ks, 2 * c + 1)
  }

  function SwapWithParent<T>(s: seq<T>, c: nat): seq<T>
    requires 1 < c < |s|
  {
    s[c / 2 := s[c]][c := s[c / 2]]
  }

  lemma HoleClosed(ks: seq<Rank>, c: nat)
    requires HoleAt(ks, c) && OrderedAt(ks, c) && ChildrenOrdered(ks, c)
    ensures HeapOrder(ks)
  {
    forall i: nat
      ensures OrderedAt(ks, i)
    {
      assert i / 2 == c ==> i == 2 * c || i == 2 * c + 1;
    }
  }

  lemma SettledHere(ks: seq<Rank>, c: nat)
    requires c < |ks| && (c <= 1 || !Less(ks[c], ks[c / 2]))
    ensures OrderedAt(ks, c)
  {
  }

  lemma HoleMovesUp(ks: seq<Rank>, c: nat)
    requires HoleAt(ks, c) && ChildrenOrdered(ks, c) && 1 < c && Less(ks[c], ks[c / 2])
    ensures HoleAt(SwapWithParent(ks, c), c / 2) && ChildrenOrdered(SwapWithParent(ks, c), c / 2)
  {
    var p, ks' := c / 2, SwapWithParent(ks, c);
    forall i: nat | i != p
      ensures OrderedAt(ks', i)
    {
      assert i != c && i / 2 != c ==> OrderedAt(ks, i);
      assert i / 2 == c ==> i == 2 * c || i == 2 * c + 1;
    }
    assert OrderedAt(ks, p);
    assert 2 * p != c ==> OrderedAt(ks, 2 * p);
    assert 2 * p + 1 != c ==> OrderedAt(ks, 2 * p + 1);
  }

  lemma HoleMovesDown(ks: seq<Rank>, c: nat, s: nat)
    requires HoleAt(ks, c) && (s == 2 * c || s == 2 * c + 1) && s < |ks| && Less(ks[s], ks[c])
    requires 2 * c < |ks| ==> !Less(ks[2 * c], ks[s])
    requires 2 * c + 1 < |ks| ==> !Less(ks[2 * c + 1], ks[s])
    ensures HoleAt(SwapWithParent(ks, s), s)
  {
    var ks' := SwapWithParent(ks, s);
    forall i: nat | i != s && i / 2 != s
      ensures OrderedAt(ks', i)
    {
      assert i != c && i / 2 != c ==> OrderedAt(ks, i);
      assert i / 2 == c ==> i == 2 * c || i == 2 * c + 1;
    }
    assert OrderedAt(ks, 2 * s) && OrderedAt(ks, 2 * s + 1);
  }

  lemma HoleByAppending(ks: seq<Rank>, r: Rank)
    requires HeapOrder(ks) && |ks| >= 1
    ensures HoleAt(ks + [r], |ks|) && ChildrenOrdered(ks + [r], |ks|)
  {
    forall i: nat | i != |ks|
      ensures OrderedAt(ks + [r], i)
    {
      assert OrderedAt(ks, i);
    }
  }

  lemma HoleByReplacing(ks: seq<Rank>, c: nat, r: Rank)
    requires HeapOrder(ks) && 1 <= c < |ks|
    ensures HoleAt(ks[c := r], c)
  {
    var ks' := ks[c := r];
    forall i: nat | i != c && i / 2 != c
      ensures OrderedAt(ks', i)
    {
      assert OrderedAt(ks, i);
    }
    assert OrderedAt(ks, c) && OrderedAt(ks, 2 * c) && OrderedAt(ks, 2 * c + 1);
  }

  lemma OrderByDropping(ks: seq<Rank>)
    requires HeapOrder(ks) && |ks| >= 1
    ensures HeapOrder(ks[..|ks| - 1])
  {
    var ks' := ks[..|ks| - 1];
    forall i: nat
      ensures OrderedAt(ks', i)
    {
      assert OrderedAt(ks, i);
    }
  }

  lemma {:induction false} RootIsLeast(ks: seq<Rank>, i: nat)
    requires HeapOrder(ks) && 1 <= i < |ks|
    ensures !Less(ks[i], ks[1])
  {
    if i > 1 {
      assert OrderedAt(ks, i);
      RootIsLeast(ks, i / 2);
    }
  }

  // ----- The path to a slot -----

  /** The slot reached from `s` by `k` turns, each given by a bit of `path`, lowest first. */
  ghost function Follow(s: nat, path: nat, k: nat): (r: nat)
    ensures k == 0 ==> r == s
    ensures k > 0 ==> r >= 2 * s
    decreases k
  {
    if k == 0 then s else Follow(2 * s + path % 2, path / 2, k - 1)
  }

  lemma FollowPrepends(n: nat, path: nat, k: nat)
    ensures Follow(n / 2, path * 2 + n % 2, k + 1) == Follow(n, path, k)
  {
    assert (path * 2 + n % 2) % 2 == n % 2 && (path * 2 + n % 2) / 2 == path;
  }

  /** The turns that lead to slot `target`, read off the bits of its number. */
  method PathTo(target: nat) returns (path: nat, k: nat)
    requires target >= 1
    ensures Follow(1, path, k) == target
  {
    var n := target;
    path, k := 0, 0;
    while n >= 2
      invariant n >= 1 && Follow(n, path, k) == target
    {
      FollowPrepends(n, path, k);
      path := path * 2 + n % 2;
      k := k + 1;
      n := n / 2;
    }
  }

  class HeapNode {
    var left: HeapNode?
    var right: HeapNode?
    var parent: HeapNode?
    var key: Rank
    const owner: nat         // which handle embeds this node (container_of)
    ghost var slot: nat

    constructor (handle: nat)
      ensures owner == handle && key == Rank(0, 0)
    {
      left, right, parent, key, slot := null, null, null, Rank(0, 0), 0;
      owner := handle;
    }
  }

  /** A pointer to a node pointer: the heap's root pointer or a child pointer of a node. */
  datatype Place = Root | LeftOf(owner: HeapNode) | RightOf(owner: HeapNode)

  /** The slot that shares the parent of slot `c`. */
  ghost function Twin(c: nat): nat {
    if c % 2 == 0 then c + 1 else c - 1
  }

  function Get(s: seq<HeapNode?>, i: nat): HeapNode? {
    if i < |s| then s[i] else null
  }

  /** The exchange of two nodes as a renaming. */
  ghost function Renamed(a: HeapNode?, b: HeapNode?, x: HeapNode?): HeapNode? {
    if x == a then b else if x == b then a else x
  }

  /** No node is met twice around an exchange. */
  ghost predicate AllApart(parent: HeapNode, child: HeapNode, sib: HeapNode?, l: HeapNode?, r: HeapNode?, g: HeapNode?) {
    && parent != child
    && sib !in {parent, child}
    && (l != null ==> l !in {parent, child, sib})
    && (r != null ==> r !in {parent, child, sib, l})
    && (g != null ==> g !in {parent, child, sib, l, r})
  }

  ghost function Present(xs: set<HeapNode?>): set<HeapNode> {
    set x: HeapNode | x in xs
  }

  class Heap {
    var min: HeapNode?
    var nelts: nat

    ghost var at: seq<HeapNode?>     // at[i] is the node in slot i; at[0] is null
    ghost var keys: seq<Rank>        // keys[i] is the key of at[i]
    ghost var nodes: set<HeapNode>

    ghost predicate LinkedAt(i: nat)
      reads this, nodes
    {
      1 <= i < |at| ==>
        && at[i] != null && at[i] in nodes && at[i].slot == i && i < |keys| && at[i].key == keys[i]
        && at[i].left == Get(at, 2 * i)
        && at[i].right == Get(at, 2 * i + 1)
        && at[i].parent == Get(at, i / 2)
    }

    /** The links and the ghost slots agree, and the nodes are exactly those in the slots. */
    ghost predicate Shape()
      reads this, nodes
    {
      && |at| == |keys| == nelts + 1 && at[0] == null
      && min == Get(at, 1)
      && (forall x {:trigger x in nodes} :: x in nodes ==> 1 <= x.slot < |at| && at[x.slot] == x)
      && (forall i: nat {:trigger LinkedAt(i)} :: LinkedAt(i))
    }

    ghost predicate Valid()
      reads this, nodes
    {
      Shape() && HeapOrder(keys)
    }

    constructor ()
      ensures Valid() && nodes == {}
    {
      min, nelts := null, 0;
      at, keys, nodes := [null], [Rank(0, 0)], {};
    }

    /** heap_node_swap on the links alone, in terms of the six nodes around the exchange. */
    method SwapLinks(parent: HeapNode, child: HeapNode, ghost sib: HeapNode?,
                     ghost l: HeapNode?, ghost r: HeapNode?, ghost g: HeapNode?)
      requires AllApart(parent, child, sib, l, r, g)
      requires child.left == l && child.right == r && parent.parent == g
      requires (parent.left == child && parent.right == sib) || (parent.left == sib && parent.right == child)
      requires g != null ==> (g.left == parent <==> g.right != parent)
      modifies `min, parent`left, parent`right, parent`parent, child`left, child`right, child`parent
      modifies Present({sib, l, r})`parent, Present({g})`left, Present({g})`right
      ensures parent.left == l && parent.right == r && parent.parent == child
      ensures child.left == if old(parent.left) == child then parent else sib
      ensures child.right == if old(parent.left) == child then sib else parent
      ensures child.parent == g
      ensures sib != null ==> sib.parent == child
      ensures l != null ==> l.parent == parent
      ensures r != null ==> r.parent == parent
      ensures g != null ==> g.left == if old(g.left) == parent then child else old(g.left)
      ensures g != null ==> g.right == if old(g.right) == parent then child else old(g.right)
      ensures min == if g == null then child else old(min)
    {
      var left, right, up := parent.left, parent.right, parent.parent;
      parent.left, parent.right, parent.parent := child.left, child.right, child.parent;
      child.left, child.right, child.parent := left, right, up;

      parent.parent := child;
      var sibling: HeapNode?;
      if child.left == child {
        child.left := parent;
        sibling := child.right;
      } else {
        child.right := parent;
        sibling := child.left;
      }
      if sibling != null {
        sibling.parent := child;
      }

      if parent.left != null {
        parent.left.parent := parent;
      }
      if parent.right != null {
        parent.right.parent := parent;
      }

      if child.parent == null {
        min := child;
      } else if child.parent.left == parent {
        child.parent.left := child;
      } else {
        child.parent.right := child;
      }
    }

    /** The nodes around an exchange of slot `c` with its parent, before it happens. */
    ghost predicate Around(parent: HeapNode, child: HeapNode, p: nat, c: nat)
      reads this, nodes
    {
      && Shape() && 2 <= c < |at| && p == c / 2 && at[p] == parent && at[c] == child
    }

    lemma OnlyParentsPoint(parent: HeapNode, child: HeapNode, p: nat, c: nat, x: HeapNode)
      requires Around(parent, child, p, c) && x in nodes
      ensures x.left == parent || x.right == parent ==> x == Get(at, p / 2)
      ensures x.left == child || x.right == child ==> x == parent
    {
      var j := x.slot;
      assert LinkedAt(j) && LinkedAt(2 * j) && LinkedAt(2 * j + 1) && LinkedAt(p) && LinkedAt(c);
    }

    lemma OnlyChildrenPoint(parent: HeapNode, child: HeapNode, p: nat, c: nat, x: HeapNode)
      requires Around(parent, child, p, c) && x in nodes
      ensures x.parent == parent <==> x == child || x == Get(at, Twin(c))
      ensures x.parent == child <==> x == Get(at, 2 * c) || x == Get(at, 2 * c + 1)
    {
      var j := x.slot;
      assert LinkedAt(j) && LinkedAt(j / 2) && LinkedAt(p) && LinkedAt(c);
      assert LinkedAt(2 * c) && LinkedAt(2 * c + 1) && LinkedAt(Twin(c));
    }

    lemma RelativesLinked(parent: HeapNode, child: HeapNode, p: nat, c: nat)
      requires Around(parent, child, p, c)
      ensures AllApart(parent, child, Get(at, Twin(c)), Get(at, 2 * c), Get(at, 2 * c + 1), Get(at, p / 2))
      ensures child.left == Get(at, 2 * c) && child.right == Get(at, 2 * c + 1) && child.parent == parent
      ensures parent.parent == Get(at, p / 2) && parent.slot == p && child.slot == c
      ensures parent.left == (if c % 2 == 0 then child else Get(at, Twin(c)))
      ensures parent.right == (if c % 2 == 0 then Get(at, Twin(c)) else child)
      ensures Get(at, p / 2) == null <==> min == parent
      ensures min != child
      ensures Present({parent, child, Get(at, Twin(c)), Get(at, 2 * c), Get(at, 2 * c + 1), Get(at, p / 2)}) <= nodes
    {
      assert LinkedAt(p) && LinkedAt(c) && LinkedAt(Twin(c)) && LinkedAt(2 * c) && LinkedAt(2 * c + 1) && LinkedAt(p / 2);
      assert LinkedAt(1);
    }

    lemma GrandparentLinked(parent: HeapNode, child: HeapNode, p: nat, c: nat)
      requires Around(parent, child, p, c) && Get(at, p / 2) != null
      ensures Get(at, p / 2).left == parent <==> Get(at, p / 2).right != parent
    {
      assert LinkedAt(p) && LinkedAt(p / 2) && LinkedAt(Twin(p));
    }

    lemma SlotsRenamed(parent: HeapNode, child: HeapNode, p: nat, c: nat, at': seq<HeapNode?>, j: nat)
      requires Around(parent, child, p, c)
      requires at' == SwapWithParent(at, c)
      ensures Get(at', j) == Renamed(parent, child, Get(at, j))
    {
      assert LinkedAt(j) && LinkedAt(p) && LinkedAt(c);
    }

    /** Every node's links are those of its counterpart, renamed. */
    twostate predicate LinksRenamed(parent: HeapNode?, child: HeapNode?, x: HeapNode)
      reads x
    {
      var y := Renamed(parent, child, x);
      PointersRenamed(parent, child, x) && y != null && x.slot == old(y.slot)
    }

    twostate predicate PointersRenamed(parent: HeapNode?, child: HeapNode?, x: HeapNode)
      reads x
    {
      var y := Renamed(parent, child, x);
      && y != null
      && x.left == Renamed(parent, child, old(y.left))
      && x.right == Renamed(parent, child, old(y.right))
      && x.parent == Renamed(parent, child, old(y.parent))
    }

    twostate lemma RenamingKeepsShape(c: nat)
      requires old(Shape()) && 2 <= c < |old(at)| && nodes == old(nodes) && nelts == old(nelts)
      requires at == SwapWithParent(old(at), c) && keys == SwapWithParent(old(keys), c)
      requires min == Renamed(old(at[c / 2]), old(at[c]), old(min))
      requires forall j: nat {:trigger Get(at, j)} :: Get(at, j) == Renamed(old(at[c / 2]), old(at[c]), Get(old(at), j))
      requires forall x {:trigger x in nodes} :: x in nodes ==>
        x.key == old(x.key) && LinksRenamed(old(at[c / 2]), old(at[c]), x)
      ensures Shape()
    {
      assert old(LinkedAt(c / 2)) && old(LinkedAt(c));
      assert Get(at, 1) == min;
      forall i: nat | 1 <= i < |at|
        ensures LinkedAt(i)
      {
        assert old(LinkedAt(i));
        assert at[i] == Get(at, i) && at[i] in nodes;
      }
    }

    /** Who points at the two nodes about to be exchanged. */
    lemma WhoPoints(parent: HeapNode, child: HeapNode, p: nat, c: nat)
      requires Around(parent, child, p, c)
      ensures forall x {:trigger x in nodes} :: x in nodes ==>
        && (x.left == parent || x.right == parent ==> x == Get(at, p / 2))
        && (x.left == child || x.right == child ==> x == parent)
        && (x.parent == parent <==> x == child || x == Get(at, Twin(c)))
        && (x.parent == child <==> x == Get(at, 2 * c) || x == Get(at, 2 * c + 1))
    {
      hide Around, Get, Twin;
      forall x | x in nodes
        ensures x.left == parent || x.right == parent ==> x == Get(at, p / 2)
        ensures x.left == child || x.right == child ==> x == parent
        ensures x.parent == parent <==> x == child || x == Get(at, Twin(c))
        ensures x.parent == child <==> x == Get(at, 2 * c) || x == Get(at, 2 * c + 1)
      {
        OnlyParentsPoint(parent, child, p, c, x);
        OnlyChildrenPoint(parent, child, p, c, x);
      }
    }

    lemma AllSlotsRenamed(parent: HeapNode, child: HeapNode, p: nat, c: nat, at': seq<HeapNode?>)
      requires Around(parent, child, p, c) && at' == SwapWithParent(at, c)
      ensures forall j: nat {:trigger Get(at', j)} :: Get(at', j) == Renamed(parent, child, Get(at, j))
    {
      forall j: nat {
        SlotsRenamed(parent, child, p, c, at', j);
      }
    }

    lemma AroundLinked(parent: HeapNode, child: HeapNode)
      requires Shape() && parent in nodes && child in nodes && child.parent == parent
      ensures Around(parent, child, child.slot / 2, child.slot)
      ensures 1 < child.slot < |at| == |keys| && parent.slot == child.slot / 2 && parent != child
      ensures at[child.slot] == child && at[child.slot / 2] == parent
    {
      assert LinkedAt(child.slot) && LinkedAt(child.slot / 2);
    }

    /** heap_node_swap on all nodes: their links are renamed. */
    method ExchangeLinks(parent: HeapNode, child: HeapNode, ghost p: nat, ghost c: nat)
      requires Around(parent, child, p, c) && parent in nodes && child in nodes
      modifies `min, nodes`left, nodes`right, nodes`parent
      ensures min == Renamed(parent, child, old(min))
      ensures forall x {:trigger x in nodes} :: x in nodes ==> PointersRenamed(parent, child, x)
    {
      hide LinkedAt, Get, SwapWithParent, Twin, Shape, Around;
      ghost var sib, l, r, g := Get(at, Twin(c)), Get(at, 2 * c), Get(at, 2 * c + 1), Get(at, p / 2);
      RelativesLinked(parent, child, p, c);
      if g != null {
        GrandparentLinked(parent, child, p, c);
      }
      WhoPoints(parent, child, p, c);
      SwapLinks(parent, child, sib, l, r, g);
      assert PointersRenamed(parent, child, parent);
      assert PointersRenamed(parent, child, child);
      forall x | x in nodes && x != parent && x != child
        ensures PointersRenamed(parent, child, x)
      {
        assert x == g || (x.left == old(x.left) && x.right == old(x.right));
        assert x == sib || x == l || x == r || x.parent == old(x.parent);
      }
    }

    /** heap_node_swap: the child moves closer to the root, the parent away from it. */
    method Swap(parent: HeapNode, child: HeapNode)
      requires Shape() && parent in nodes && child in nodes && child.parent == parent
      modifies `min, `at, `keys, nodes`left, nodes`right, nodes`parent, nodes`slot
      ensures Shape()
      ensures 1 < old(child.slot) < |old(at)| && parent == old(at[child.slot / 2])
      ensures at == SwapWithParent(old(at), old(child.slot))
      ensures keys == SwapWithParent(old(keys), old(child.slot))
      ensures child.slot == old(child.slot) / 2 && parent.slot == old(child.slot)
    {
      hide LinkedAt, Get, SwapWithParent, Twin, Shape, Around;
      ghost var c := child.slot;
      ghost var p := c / 2;
      AroundLinked(parent, child);
      ghost var at' := SwapWithParent(at, c);
      AllSlotsRenamed(parent, child, p, c, at');
      ExchangeLinks(parent, child, p, c);
      at, keys := at', SwapWithParent(keys, c);
      parent.slot, child.slot := c, p;
      RenamingKeepsShape(c);
    }

    function Load(place: Place): HeapNode?
      reads this, if place.Root? then {} else {place.owner}
    {
      match place
      case Root => min
      case LeftOf(x) => x.left
      case RightOf(x) => x.right
    }

    /** The place is the pointer that leads to slot `i`. */
    ghost predicate Denotes(place: Place, i: nat)
      reads this, nodes
    {
      match place
      case Root => i == 1
      case LeftOf(x) => x in nodes && i == 2 * x.slot
      case RightOf(x) => x in nodes && i == 2 * x.slot + 1
    }

    lemma LoadsSlot(place: Place, i: nat)
      requires Shape() && Denotes(place, i)
      ensures Load(place) == Get(at, i)
      ensures i < |at| ==> Load(place) != null && Load(place) in nodes && Load(place).slot == i
    {
      assert LinkedAt(i) && LinkedAt(1);
      if !place.Root? {
        assert LinkedAt(place.owner.slot);
      }
    }

    /** The walk from the root to slot `target`: the pointer to it and the one passed before. */
    method Locate(target: nat) returns (parent: Place, child: Place)
      requires Shape() && 1 <= target <= nelts + 1
      ensures Denotes(child, target)
      ensures target == 1 ==> parent == child == Root
      ensures target > 1 ==> Denotes(parent, target / 2)
    {
      var path, k := PathTo(target);
      parent, child := Root, Root;
      ghost var i := 1;
      while k > 0
        invariant i >= 1 && Denotes(child, i) && Follow(i, path, k) == target
        invariant i == 1 ==> parent == child == Root
        invariant i > 1 ==> Denotes(parent, i / 2)
      {
        hide Shape, LinkedAt;
        LoadsSlot(child, i);
        var node := Load(child);
        parent := child;
        child := if path % 2 == 1 then RightOf(node) else LeftOf(node);
        i := 2 * i + path % 2;
        path := path / 2;
        k := k - 1;
      }
    }

    /** Only one child pointer leads to slot `i`. */
    lemma DenotedOnce(place: Place, i: nat, y: HeapNode)
      requires Shape() && Denotes(place, i) && y in nodes
      ensures i == 2 * y.slot <==> place == LeftOf(y)
      ensures i == 2 * y.slot + 1 <==> place == RightOf(y)
    {
    }

    lemma DenotedWithin(place: Place, i: nat)
      requires Shape() && Denotes(place, i)
      ensures place.Root? <==> i == 1
      ensures !place.Root? ==> place.owner in nodes
    {
    }

    twostate lemma AttachingKeepsShape(new x: HeapNode)
      requires old(Shape()) && x !in old(nodes) && nodes == old(nodes) + {x} && nelts == old(nelts) + 1
      requires at == old(at) + [x] && keys == old(keys) + [x.key] && x.slot == nelts
      requires x.left == null && x.right == null && x.parent == Get(old(at), nelts / 2)
      requires min == if nelts == 1 then x else old(min)
      requires forall y {:trigger y in old(nodes)} :: y in old(nodes) ==>
        && y.key == old(y.key) && y.slot == old(y.slot) && y.parent == old(y.parent)
        && y.left == (if nelts == 2 * y.slot then x else old(y.left))
        && y.right == (if nelts == 2 * y.slot + 1 then x else old(y.right))
      ensures Shape()
    {
      forall i: nat | 1 <= i < |at|
        ensures LinkedAt(i)
      {
        assert old(LinkedAt(i));
      }
    }

    /** What the walk to the first free slot tells. */
    lemma FreeSlot(parent: Place, child: Place)
      requires Shape() && Denotes(child, nelts + 1)
      requires nelts == 0 ==> parent == Root
      requires nelts > 0 ==> Denotes(parent, (nelts + 1) / 2)
      ensures |at| == |keys| == nelts + 1
      ensures Load(parent) == Get(at, (nelts + 1) / 2)
      ensures child.Root? <==> nelts == 0
      ensures !child.Root? ==> child.owner in nodes
      ensures forall y {:trigger y in nodes} :: y in nodes ==>
        && (nelts + 1 == 2 * y.slot <==> child == LeftOf(y))
        && (nelts + 1 == 2 * y.slot + 1 <==> child == RightOf(y))
    {
      DenotedWithin(child, nelts + 1);
      if nelts > 0 {
        LoadsSlot(parent, (1 + nelts) / 2);
      }
    }

    /** heap_insert up to the point where the new node hangs in the first free slot. */
    method Attach(newNode: HeapNode)
      requires Shape() && newNode !in nodes
      modifies this, nodes`left, nodes`right, newNode`left, newNode`right, newNode`parent, newNode`slot
      ensures Shape()
      ensures nodes == old(nodes) + {newNode} && nelts == old(nelts) + 1
      ensures at == old(at) + [newNode] && keys == old(keys) + [newNode.key]
      ensures newNode.slot == nelts
    {
      hide LinkedAt, Shape, Denotes, Get;
      newNode.left, newNode.right, newNode.parent := null, null, null;
      var parent, child := Locate(1 + nelts);
      FreeSlot(parent, child);
      newNode.parent := Load(parent);
      match child {
        case Root => min := newNode;
        case LeftOf(x) => x.left := newNode;
        case RightOf(x) => x.right := newNode;
      }
      nelts := nelts + 1;
      newNode.slot := nelts;
      at, keys, nodes := at + [newNode], keys + [newNode.key], nodes + {newNode};
      AttachingKeepsShape(newNode);
    }

    /** The only disorder left is around `x`, and none of it is below `x`. */
    ghost predicate Rising(x: HeapNode)
      reads this, nodes
    {
      Shape() && x in nodes && HoleAt(keys, x.slot) && ChildrenOrdered(keys, x.slot)
    }

    lemma ParentKnown(x: HeapNode)
      requires Shape() && x in nodes
      ensures 1 <= x.slot < |keys| && keys[x.slot] == x.key
      ensures x.parent == null <==> x.slot == 1
      ensures x.parent != null ==> x.parent in nodes && x.parent.key == keys[x.slot / 2]
    {
      assert LinkedAt(x.slot) && LinkedAt(x.slot / 2);
    }

    /** The loop that ends both heap_insert and heap_remove. */
    method SiftUp(x: HeapNode)
      requires Rising(x)
      modifies `min, `at, `keys, nodes`left, nodes`right, nodes`parent, nodes`slot
      ensures Valid()
    {
      hide HoleAt, OrderedAt, ChildrenOrdered, LinkedAt, HeapOrder, SwapWithParent;
      ghost var members := nodes;
      ParentKnown(x);
      while x.parent != null && Less(x.key, x.parent.key)
        invariant Rising(x)
        invariant 1 <= x.slot < |keys| && keys[x.slot] == x.key
        invariant x.parent == null <==> x.slot == 1
        invariant x.parent != null ==> x.parent in nodes && x.parent.key == keys[x.slot / 2]
        decreases x.slot
      {
        HoleMovesUp(keys, x.slot);
        Swap(x.parent, x);
        ParentKnown(x);
      }
      SettledHere(keys, x.slot);
      HoleClosed(keys, x.slot);
    }

    method Insert(newNode: HeapNode)
      requires Valid() && newNode !in nodes
      modifies this, nodes`left, nodes`right, nodes`parent, nodes`slot
      modifies newNode`left, newNode`right, newNode`parent, newNode`slot
      ensures Valid()
      ensures nodes == old(nodes) + {newNode} && nelts == old(nelts) + 1
    {
      HoleByAppending(keys, newNode.key);
      Attach(newNode);
      SiftUp(newNode);
    }

    twostate lemma DetachingKeepsShape()
      requires old(Shape()) && old(nelts) > 0 && nelts == old(nelts) - 1
      requires at == old(at)[..nelts + 1] && keys == old(keys)[..nelts + 1]
      requires nodes == old(nodes) - {old(at[nelts])}
      requires min == if nelts == 0 then null else old(min)
      requires forall y {:trigger y in nodes} :: y in nodes ==>
        && y.key == old(y.key) && y.slot == old(y.slot) && y.parent == old(y.parent)
        && y.left == (if nelts + 1 == 2 * y.slot then null else old(y.left))
        && y.right == (if nelts + 1 == 2 * y.slot + 1 then null else old(y.right))
      ensures Shape()
    {
      assert old(LinkedAt(nelts));
      forall i: nat | 1 <= i < |at|
        ensures LinkedAt(i)
      {
        assert old(LinkedAt(i));
        assert at[i] == old(at)[i] && at[i] in nodes;
      }
    }

    /** heap_remove up to the point where the node of the last slot hangs nowhere. */
    method Detach() returns (child: HeapNode)
      requires Shape() && nelts > 0
      modifies this, nodes`left, nodes`right
      ensures Shape()
      ensures child in old(nodes) && child.slot == old(nelts) && child.key == old(keys)[old(nelts)]
      ensures nodes == old(nodes) - {child} && nelts == old(nelts) - 1
      ensures at == old(at)[..nelts + 1] && keys == old(keys)[..nelts + 1]
    {
      hide LinkedAt, Shape, Denotes, Get;
      var parent, max := Locate(nelts);
      LastKnown();
      LoadsSlot(max, nelts);
      DenotedWithin(max, nelts);
      forall y | y in nodes {
        DenotedOnce(max, nelts, y);
      }
      nelts := nelts - 1;
      child := Load(max);
      match max {
        case Root => min := null;
        case LeftOf(x) => x.left := null;
        case RightOf(x) => x.right := null;
      }
      at, keys, nodes := at[..nelts + 1], keys[..nelts + 1], nodes - {child};
      DetachingKeepsShape();
    }

    lemma LastKnown()
      requires Shape() && nelts > 0
      ensures |at| == |keys| == nelts + 1
      ensures at[nelts] != null && at[nelts] in nodes && at[nelts].key == keys[nelts] && Get(at, nelts) == at[nelts]
    {
      assert LinkedAt(nelts);
    }

    lemma ReplacedKnown(node: HeapNode, c: nat)
      requires Shape() && node in nodes && node.slot == c
      ensures |at| == |keys| == nelts + 1 && 1 <= c <= nelts && at[c] == node && at[0] == null
      ensures min == node <==> c == 1
      ensures node.left == Get(at, 2 * c) && node.right == Get(at, 2 * c + 1) && node.parent == Get(at, c / 2)
      ensures node.left != null ==> node.left in nodes && node.left !in {node, node.right, node.parent}
      ensures node.right != null ==> node.right in nodes && node.right !in {node, node.parent}
      ensures node.parent != null ==> node.parent in nodes && node.parent != node
      ensures node.parent == null <==> c == 1
      ensures node.parent != null ==> (node.parent.left == node <==> node.parent.right != node)
    {
      assert LinkedAt(1) && LinkedAt(c) && LinkedAt(2 * c) && LinkedAt(2 * c + 1) && LinkedAt(c / 2) && LinkedAt(Twin(c));
    }

    twostate lemma ReplacingKeepsShape(c: nat, new x: HeapNode)
      requires old(Shape()) && 1 <= c < |old(at)| && nelts == old(nelts)
      requires x !in old(nodes) && nodes == old(nodes) - {old(at[c])} + {x}
      requires at == old(at)[c := x] && keys == old(keys)[c := x.key] && x.slot == c
      requires x.left == old(Get(at, 2 * c)) && x.right == old(Get(at, 2 * c + 1)) && x.parent == old(Get(at, c / 2))
      requires min == if c == 1 then x else old(min)
      requires forall y {:trigger y in old(nodes)} :: y in old(nodes) && old(y.slot) != c ==>
        && y.key == old(y.key) && y.slot == old(y.slot)
        && y.parent == (if y.slot / 2 == c then x else old(y.parent))
        && y.left == (if c == 2 * y.slot then x else old(y.left))
        && y.right == (if c == 2 * y.slot + 1 then x else old(y.right))
      ensures Shape()
    {
      assert old(LinkedAt(c));
      forall i: nat | 1 <= i < |at|
        ensures LinkedAt(i)
      {
        assert old(LinkedAt(i));
      }
    }

    /** The links of heap_remove: `child` gets the node's, and whoever pointed at the node points at
        `child`. */
    method TakeLinks(node: HeapNode, child: HeapNode, ghost c: nat)
      requires Shape() && node in nodes && child !in nodes && node.slot == c
      modifies `min, nodes`left, nodes`right, nodes`parent
      modifies child`left, child`right, child`parent
      ensures child.left == old(Get(at, 2 * c)) && child.right == old(Get(at, 2 * c + 1)) && child.parent == old(Get(at, c / 2))
      ensures min == if c == 1 then child else old(min)
      ensures forall y {:trigger y in nodes} :: y in nodes && y != node ==>
        && y.slot != c && y.parent == (if y.slot / 2 == c then child else old(y.parent))
        && y.left == (if c == 2 * y.slot then child else old(y.left))
        && y.right == (if c == 2 * y.slot + 1 then child else old(y.right))
    {
      hide LinkedAt, Shape, Get, Twin;
      ReplacedKnown(node, c);
      forall y | y in nodes {
        WhoPointsAt(node, c, y);
      }
      child.left := node.left;
      child.right := node.right;
      child.parent := node.parent;
      if child.left != null {
        child.left.parent := child;
      }
      if child.right != null {
        child.right.parent := child;
      }
      if node.parent == null {
        min := child;
      } else if node.parent.left == node {
        node.parent.left := child;
      } else {
        node.parent.right := child;
      }
    }

    /** heap_remove: `child` takes the place of the node to be deleted. */
    method Replace(node: HeapNode, child: HeapNode)
      requires Shape() && node in nodes && child !in nodes
      modifies `min, `at, `keys, `nodes, nodes`left, nodes`right, nodes`parent
      modifies child`left, child`right, child`parent, child`slot
      ensures Shape()
      ensures nodes == old(nodes) - {node} + {child}
      ensures 1 <= old(node.slot) < |old(at)| == |old(keys)| && child.slot == old(node.slot)
      ensures at == old(at)[old(node.slot) := child] && keys == old(keys)[old(node.slot) := child.key]
    {
      hide LinkedAt, Shape, Get, Twin;
      ghost var c := node.slot;
      ReplacedKnown(node, c);
      TakeLinks(node, child, c);
      child.slot := c;
      at, keys, nodes := at[c := child], keys[c := child.key], nodes - {node} + {child};
      ReplacingKeepsShape(c, child);
    }

    lemma WhoPointsAt(node: HeapNode, c: nat, y: HeapNode)
      requires Shape() && {node, y} <= nodes && node.slot == c
      ensures c == 2 * y.slot <==> y.left == node
      ensures c == 2 * y.slot + 1 <==> y.right == node
      ensures y.slot / 2 == c <==> y.parent == node
      ensures y.parent == node <==> y == node.left || y == node.right
      ensures y.left == node || y.right == node <==> y == node.parent
      ensures y.slot == c <==> y == node
    {
      assert LinkedAt(c) && LinkedAt(2 * c) && LinkedAt(2 * c + 1) && LinkedAt(c / 2);
      assert LinkedAt(y.slot) && LinkedAt(2 * y.slot) && LinkedAt(2 * y.slot + 1) && LinkedAt(y.slot / 2);
    }

    lemma ChildrenKnown(x: HeapNode)
      requires Shape() && x in nodes
      ensures 1 <= x.slot < |keys| && keys[x.slot] == x.key
      ensures x.left == null <==> 2 * x.slot >= |keys|
      ensures x.left != null ==> x.left in nodes && x.left.slot == 2 * x.slot && x.left.key == keys[2 * x.slot] && x.left.parent == x
      ensures x.right == null <==> 2 * x.slot + 1 >= |keys|
      ensures x.right != null ==> x.right in nodes && x.right.slot == 2 * x.slot + 1 && x.right.key == keys[2 * x.slot + 1] && x.right.parent == x
    {
      assert LinkedAt(x.slot) && LinkedAt(2 * x.slot) && LinkedAt(2 * x.slot + 1);
    }

    /** One round of the walk down in heap_remove: the child that has to go above `x`, or `x`. */
    method SmallestAround(x: HeapNode) returns (smallest: HeapNode)
      requires Shape() && x in nodes
      ensures 1 <= x.slot < |keys| && smallest in nodes
      ensures smallest == x ==> ChildrenOrdered(keys, x.slot)
      ensures smallest != x ==>
        && smallest.parent == x
        && (smallest.slot == 2 * x.slot || smallest.slot == 2 * x.slot + 1)
        && smallest.slot < |keys| && Less(keys[smallest.slot], keys[x.slot])
        && (2 * x.slot < |keys| ==> !Less(keys[2 * x.slot], keys[smallest.slot]))
        && (2 * x.slot + 1 < |keys| ==> !Less(keys[2 * x.slot + 1], keys[smallest.slot]))
    {
      hide LinkedAt, Shape;
      ChildrenKnown(x);
      smallest := x;
      if x.left != null && Less(x.left.key, smallest.key) {
        smallest := x.left;
      }
      if x.right != null && Less(x.right.key, smallest.key) {
        smallest := x.right;
      }
    }

    /** The walk down, then the walk up, from the node that took the deleted node's place. */
    method Settle(x: HeapNode)
      requires Shape() && x in nodes && HoleAt(keys, x.slot)
      modifies `min, `at, `keys, nodes`left, nodes`right, nodes`parent, nodes`slot
      ensures Valid()
    {
      hide HoleAt, OrderedAt, ChildrenOrdered, LinkedAt, SwapWithParent;
      while true
        invariant Shape() && x in nodes && HoleAt(keys, x.slot)
        invariant nelts == old(nelts)
        decreases nelts - x.slot
      {
        var smallest := SmallestAround(x);
        if smallest == x {
          break;
        }
        HoleMovesDown(keys, x.slot, smallest.slot);
        Swap(x, smallest);
      }
      SiftUp(x);
    }

    lemma HoleInPlace(node: HeapNode, r: Rank)
      requires Valid() && node in nodes
      ensures 1 <= node.slot < |keys| && HoleAt(keys[node.slot := r], node.slot)
    {
      HoleByReplacing(keys, node.slot, r);
    }

    method Remove(node: HeapNode)
      requires Valid() && (nelts > 0 ==> node in nodes)
      modifies this, nodes`left, nodes`right, nodes`parent, nodes`slot
      ensures Valid()
      ensures nodes == old(nodes) - {node}
    {
      if nelts == 0 {
        assert node !in nodes;
        return;
      }
      OrderByDropping(keys);
      var child := Detach();
      if child == node {
        assert LinkedAt(1);
        // The source tests here for the root pointer still naming the node; it never does.
        assert child != min;
        return;
      }
      HoleInPlace(node, child.key);
      Replace(node, child);
      Settle(child);
    }

    /** The root is a least node, for every heap. */
    lemma MinIsLeast(x: HeapNode)
      requires Valid() && x in nodes
      ensures min != null && min in nodes && !Less(x.key, min.key)
    {
      assert LinkedAt(1) && LinkedAt(x.slot);
      RootIsLeast(keys, x.slot);
    }

    lemma EmptyIffNoMin()
      requires Valid()
      ensures min == null <==> nodes == {}
    {
      assert LinkedAt(1);
    }

    /** heap_dequeue; on an empty heap heap_remove returns at once. */
    method Dequeue()
      requires Valid()
      modifies this, nodes`left, nodes`right, nodes`parent, nodes`slot
      ensures Valid()
      ensures old(min) == null <==> old(nodes) == {}
      ensures nodes == if old(min) == null then {} else old(nodes) - {old(min)}
    {
      EmptyIffNoMin();
      if min == null {
        return;
      }
      assert LinkedAt(1);
      Remove(min);
    }
  }
}
