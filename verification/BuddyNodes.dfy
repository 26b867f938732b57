/**
The mutable buddy tree of buddy.c. Its nodes are chunks of the kernel heap: a split asks kmalloc
for two of them and a merge gives both back.
*/
module BuddyNodes {
  import opened ChunkHeaps
  import L = ChunkLists
  import T = BuddyTrees

  // sizeof(node_t) on the 64-bit target
  const NODE_SIZE: nat := 40

  datatype State = FREE | SPLIT | ALLOC

  /** Crash: kmalloc had no room for a tree node and the source wrote through the null pointer. */
  datatype Grant = Found(idx: nat) | NoSpace | Crash

  /** The kernel-heap addresses of a tree's nodes. */
  datatype Places = One(addr: int) | Two(addr: int, left: Places, right: Places)

  class Node {
    const addr: int
    var idx: nat
    var state: State
    var size: nat
    var left: Node?
    var right: Node?

    ghost var tree: T.Tree
    ghost var addrs: set<int>
    ghost var places: Places
    ghost var Repr: set<object>

    constructor (addr: int, idx: nat, size: nat)
      ensures Valid() && Repr == {this} && addrs == {addr} && this.addr == addr && places == One(addr)
      ensures tree == T.Leaf(idx, size, false)
    {
      this.addr, this.idx, this.size, state := addr, idx, size, FREE;
      left, right := null, null;
      tree, addrs, places, Repr := T.Leaf(idx, size, false), {addr}, One(addr), {this};
    }

    ghost predicate Valid()
      reads this, Repr
      ensures Valid() ==> this in Repr
      ensures Valid() ==> (state == FREE <==> T.IsFree(tree))
      ensures Valid() && state != SPLIT ==> addrs == {addr}
      ensures Valid() ==> places.addr == addr
      decreases Repr
    {
      && this in Repr
      && if state == SPLIT then
           && left != null && right != null
           && left in Repr && right in Repr
           && left.Repr <= Repr && right.Repr <= Repr
           && this !in left.Repr && this !in right.Repr && left.Repr !! right.Repr
           && left.Valid() && right.Valid()
           && Repr == {this} + left.Repr + right.Repr
           && addr !in left.addrs && addr !in right.addrs && left.addrs !! right.addrs
           && addrs == {addr} + left.addrs + right.addrs
           && tree == T.Split(idx, size, left.tree, right.tree)
           && places == Two(addr, left.places, right.places)
         else
           && Repr == {this} && addrs == {addr} && places == One(addr)
           && tree == T.Leaf(idx, size, state == ALLOC)
    }

    ghost function Now(heap: ChunkHeap): Pool
      reads this, heap
    {
      Pool(tree, places, heap.chunks)
    }

    /** The addresses of this node and of the half that is not the given child. */
    ghost function Others(child: Node): set<int>
      requires left != null && right != null
      reads this, left, right
    {
      {addr} + if child == left then right.addrs else left.addrs
    }

    /** Brings the ghost fields up to date after a child changed. */
    ghost method Refresh(child: Node)
      requires state == SPLIT && left != null && right != null && left.Valid() && right.Valid()
      requires left != right && (child == left || child == right)
      requires this !in left.Repr && this !in right.Repr && left.Repr !! right.Repr
      requires addr !in left.addrs && addr !in right.addrs && left.addrs !! right.addrs
      modifies `tree, `addrs, `places, `Repr
      ensures Valid() && tree == T.Split(idx, size, left.tree, right.tree)
      ensures Repr == {this} + left.Repr + right.Repr && addrs == Others(child) + child.addrs
    {
      tree, places := T.Split(idx, size, left.tree, right.tree), Two(addr, left.places, right.places);
      addrs, Repr := {addr} + left.addrs + right.addrs, {this} + left.Repr + right.Repr;
    }
  }

  /** Every node of the tree is a live chunk of the heap. */
  ghost predicate Owned(addrs: set<int>, chunks: seq<L.Chunk>) {
    forall a :: a in addrs ==> a in L.Live(chunks) && L.Live(chunks)[a] == NODE_SIZE
  }

  /** What the heap holds besides the given nodes. */
  ghost function Rest(addrs: set<int>, chunks: seq<L.Chunk>): map<int, nat> { L.Live(chunks) - addrs }

  ghost predicate Ready(n: Node, heap: ChunkHeap)
    reads n, n.Repr, heap, heap.Repr
  {
    && n.Valid() && heap.Valid() && n.Repr !! heap.Repr
    && L.Inv(heap.chunks, heap.base, heap.limit) && Owned(n.addrs, heap.chunks)
  }

  /** A lower measure: fewer free chunks, or as many and less room below the limit. */
  ghost predicate UsedUp(s: seq<L.Chunk>, t: seq<L.Chunk>, limit: int)
    requires s != [] && t != []
  {
    || L.FreeCount(t) < L.FreeCount(s)
    || (L.FreeCount(t) == L.FreeCount(s) && L.Top(s) < L.Top(t) && L.Top(s) <= limit)
  }

  /** Two node allocations in a row add two owned nodes and leave the rest of the heap alone. */
  lemma NodePair(s: seq<L.Chunk>, base: int, limit: int, addrs: set<int>)
    requires L.Inv(s, base, limit) && Owned(addrs, s)
    requires L.Malloc(s, limit, NODE_SIZE).1.Some?
    requires L.Malloc(L.Malloc(s, limit, NODE_SIZE).0, limit, NODE_SIZE).1.Some?
    ensures var (t, a) := L.Malloc(s, limit, NODE_SIZE);
            var (u, b) := L.Malloc(t, limit, NODE_SIZE);
            var addrs' := addrs + {a.value, b.value};
            && a.value != b.value && a.value !in addrs && b.value !in addrs
            && L.Inv(u, base, limit) && Owned(addrs', u) && Rest(addrs', u) == Rest(addrs, s)
            && UsedUp(s, u, limit)
  {
    var (t, a) := L.Malloc(s, limit, NODE_SIZE);
    L.MallocKeepsInv(s, base, limit, NODE_SIZE);
    L.MallocKeepsInv(t, base, limit, NODE_SIZE);
    L.MallocLive(s, base, limit, NODE_SIZE);
    L.MallocLive(t, base, limit, NODE_SIZE);
    L.MallocUsesUp(s, limit, NODE_SIZE);
    L.MallocUsesUp(t, limit, NODE_SIZE);
  }

  /** Where kmalloc puts the next node, if it has room. */
  ghost function NodeAt(s: seq<L.Chunk>, limit: int): int
    requires s != []
  {
    var r := L.Malloc(s, limit, NODE_SIZE).1;
    if r.Some? then r.value else 0
  }

  /** And the one after it. */
  ghost function SecondAt(s: seq<L.Chunk>, limit: int): int
    requires s != []
  {
    NodeAt(L.Malloc(s, limit, NODE_SIZE).0, limit)
  }

  method SplitLeaf(n: Node, heap: ChunkHeap) returns (ok: bool)
    requires Ready(n, heap) && n.state == FREE
    modifies n, heap.Repr
    ensures n.idx == old(n.idx) && n.size == old(n.size)
    ensures ok <==> L.Serves(old(heap.chunks), heap.limit, NODE_SIZE, 2)
    ensures ok ==> heap.chunks == L.Grab(old(heap.chunks), heap.limit, NODE_SIZE, 2)
    ensures ok ==>
      && Ready(n, heap) && n.state == SPLIT
      && fresh(n.Repr - old(n.Repr)) && fresh(heap.Repr - old(heap.Repr))
      && Rest(n.addrs, heap.chunks) == old(Rest(n.addrs, heap.chunks))
      && n.left.tree == T.Leaf(n.idx, n.size / 2, false)
      && n.right.tree == T.Leaf(n.idx + n.size / 2, n.size / 2, false)
      && n.places == Two(n.addr, One(NodeAt(old(heap.chunks), heap.limit)), One(SecondAt(old(heap.chunks), heap.limit)))
    ensures ok ==> UsedUp(old(heap.chunks), heap.chunks, heap.limit)
  {
    n.state := SPLIT;
    var a := heap.Malloc(NODE_SIZE);
    var b := heap.Malloc(NODE_SIZE);
    if a.None? || b.None? {
      return false;
    }
    NodePair(old(heap.chunks), heap.base, heap.limit, n.addrs);
    AttachHalves(n, a.value, b.value);
    return true;
  }

  /** Hangs two free halves, built at the addresses a and b, below a node already marked SPLIT. */
  method AttachHalves(n: Node, a: int, b: int)
    requires n.Repr == {n} && n.state == SPLIT && n.addrs == {n.addr} && n.addr != a && n.addr != b && a != b
    modifies n
    ensures n.Valid() && fresh(n.Repr - {n}) && n.addrs == {n.addr} + {a, b}
    ensures n.places == Two(n.addr, One(a), One(b))
    ensures n.state == SPLIT && n.idx == old(n.idx) && n.size == old(n.size)
    ensures n.left.tree == T.Leaf(n.idx, n.size / 2, false)
    ensures n.right.tree == T.Leaf(n.idx + n.size / 2, n.size / 2, false)
  {
    n.left := new Node(a, n.idx, n.size / 2);
    n.right := new Node(b, n.idx + n.size / 2, n.size / 2);
    n.tree := T.Split(n.idx, n.size, n.left.tree, n.right.tree);
    n.Repr := {n} + n.left.Repr + n.right.Repr;
    n.addrs := {n.addr} + {a, b};
    n.places := Two(n.addr, One(a), One(b));
  }

  /** A step on one child's nodes leaves its siblings and parent owned and the rest of the heap alone. */
  lemma ChildStep(own: set<int>, sub: set<int>, sub': set<int>, s: seq<L.Chunk>, t: seq<L.Chunk>)
    requires own !! sub && Owned(own + sub, s) && Owned(sub', t) && Rest(sub', t) == Rest(sub, s)
    ensures own !! sub' && Owned(own + sub', t) && Rest(own + sub', t) == Rest(own + sub, s)
  {
    forall a | a in own ensures a !in sub' && a in L.Live(t) && L.Live(t)[a] == NODE_SIZE {
      assert a in own + sub;
      assert a in Rest(sub, s) && Rest(sub, s)[a] == NODE_SIZE;
    }
    assert Rest(own + sub', t) == Rest(sub', t) - own;
    assert Rest(own + sub, s) == Rest(sub, s) - own;
  }

  // ----- What a request answers and leaves, over the tree and the chunks of the heap -----

  /**
  Without room for the nodes of its splits a request crashes. One for no bytes splits the first free
  leaf until that happens.
  */
  ghost function Outcome(t: T.Tree, size: nat, s: seq<L.Chunk>, limit: int): Grant
    requires s != []
  {
    if size == 0 then if T.FreeLeaves(t) == [] then NoSpace else Crash
    else if !L.Serves(s, limit, NODE_SIZE, T.NodesNeeded(t, size)) then Crash
    else
      match T.Alloc(t, size).1
      case Some(idx) => Found(idx)
      case None => NoSpace
  }

  ghost function TreeAfter(t: T.Tree, size: nat): T.Tree {
    if size == 0 then t else T.Alloc(t, size).0
  }

  ghost function ChunksAfter(t: T.Tree, size: nat, s: seq<L.Chunk>, limit: int): seq<L.Chunk>
    requires s != []
  {
    if size == 0 then s else L.Grab(s, limit, NODE_SIZE, T.NodesNeeded(t, size))
  }

  /** The nodes of a free node of that many bytes at addr that is split for a request. */
  ghost function CarvePlaces(addr: int, bytes: nat, size: nat, s: seq<L.Chunk>, limit: int): Places
    requires size > 0 && s != []
    decreases bytes
  {
    if bytes / 2 >= size then
      Two(addr, CarvePlaces(NodeAt(s, limit), bytes / 2, size, L.Grab(s, limit, NODE_SIZE, 2), limit),
        One(SecondAt(s, limit)))
    else One(addr)
  }

  ghost function PlacesAfter(t: T.Tree, ps: Places, size: nat, s: seq<L.Chunk>, limit: int): Places
    requires s != []
    decreases t
  {
    if size == 0 then ps
    else
      match t
      case Leaf(_, bytes, taken) => if taken || bytes < size then ps else CarvePlaces(ps.addr, bytes, size, s, limit)
      case Split(_, _, l, r) =>
        if ps.One? then ps
        else if T.Alloc(l, size).1.Some? then ps.(left := PlacesAfter(l, ps.left, size, s, limit))
        else ps.(right := PlacesAfter(r, ps.right, size, s, limit))
  }

  /** What a request can see and change: the tree, its nodes' addresses, the heap. */
  datatype Pool = Pool(tree: T.Tree, places: Places, chunks: seq<L.Chunk>)

  /** r is the answer to a request, and p' is what it leaves unless it crashes. */
  ghost predicate Answers(p: Pool, size: nat, limit: int, r: Grant, p': Pool)
    requires p.chunks != []
  {
    && r == Outcome(p.tree, size, p.chunks, limit)
    && (!r.Crash? ==>
         && p'.tree == TreeAfter(p.tree, size) && p'.places == PlacesAfter(p.tree, p.places, size, p.chunks, limit)
         && p'.chunks == ChunksAfter(p.tree, size, p.chunks, limit))
  }

  /** A split leaf goes on with its left half and the chunks that are left. */
  lemma AnswersSplit(i: nat, addr: int, size: nat, bytes: nat, s: seq<L.Chunk>, limit: int, r: Grant, l': Pool)
    requires s != [] && bytes / 2 >= size
    requires if L.Serves(s, limit, NODE_SIZE, 2)
             then Answers(Pool(T.Leaf(i, bytes / 2, false), One(NodeAt(s, limit)), L.Grab(s, limit, NODE_SIZE, 2)),
                    size, limit, r, l')
             else r == Crash
    ensures Answers(Pool(T.Leaf(i, bytes, false), One(addr), s), size, limit, r,
              Pool(T.Split(i, bytes, l'.tree, T.Leaf(i + bytes / 2, bytes / 2, false)),
                Two(addr, l'.places, One(SecondAt(s, limit))), l'.chunks))
  {
    if size > 0 { L.ServesSplit(s, limit, NODE_SIZE, 2, T.CarveNodes(bytes / 2, size)); }
  }

  lemma {:induction false} NoSpaceKeeps(t: T.Tree, ps: Places, size: nat, s: seq<L.Chunk>, limit: int)
    requires s != [] && Outcome(t, size, s, limit).NoSpace?
    ensures TreeAfter(t, size) == t && PlacesAfter(t, ps, size, s, limit) == ps && ChunksAfter(t, size, s, limit) == s
    decreases t
  {
    if size > 0 {
      T.AllocFailsClean(t, size);
      if t.Split? && ps.Two? { NoSpaceKeeps(t.right, ps.right, size, s, limit); }
    }
  }

  /** A split node asks its left half, and its right half when the left one has no space. */
  lemma AnswersLeft(p: Pool, size: nat, limit: int, r: Grant, l': Pool)
    requires p.chunks != [] && p.tree.Split? && p.places.Two?
    requires Answers(Pool(p.tree.left, p.places.left, p.chunks), size, limit, r, l')
    ensures !r.NoSpace? ==>
      Answers(p, size, limit, r, Pool(p.tree.(left := l'.tree), p.places.(left := l'.places), l'.chunks))
    ensures r.NoSpace? ==> l' == Pool(p.tree.left, p.places.left, p.chunks)
  {
    if r.NoSpace? { NoSpaceKeeps(p.tree.left, p.places.left, size, p.chunks, limit); }
  }

  lemma AnswersRight(p: Pool, size: nat, limit: int, r: Grant, r': Pool)
    requires p.chunks != [] && p.tree.Split? && p.places.Two? && Outcome(p.tree.left, size, p.chunks, limit).NoSpace?
    requires Answers(Pool(p.tree.right, p.places.right, p.chunks), size, limit, r, r')
    ensures Answers(p, size, limit, r, Pool(p.tree.(right := r'.tree), p.places.(right := r'.places), r'.chunks))
  {
    if size > 0 { T.AllocFailsClean(p.tree.left, size); }
  }

  method BuddyAlloc(n: Node, size: nat, heap: ChunkHeap) returns (r: Grant)
    requires Ready(n, heap)
    modifies n.Repr, heap.Repr
    ensures !r.Crash? ==>
      && Ready(n, heap) && fresh(n.Repr - old(n.Repr)) && fresh(heap.Repr - old(heap.Repr))
      && Rest(n.addrs, heap.chunks) == old(Rest(n.addrs, heap.chunks))
    ensures Answers(old(n.Now(heap)), size, heap.limit, r, n.Now(heap))
    decreases L.FreeCount(heap.chunks), heap.limit - L.Top(heap.chunks), n.tree, 1
  {
    ghost var p := n.Now(heap);
    if n.state == SPLIT {
      r := AllocLeft(n, size, heap);
      AnswersLeft(p, size, heap.limit, r, n.left.Now(heap));
      if r.NoSpace? {
        r := AllocRight(n, size, heap);
        AnswersRight(p, size, heap.limit, r, n.right.Now(heap));
      }
      return r;
    }
    if n.state != FREE {
      return NoSpace;
    }
    if n.size < size {
      return NoSpace;
    }
    if n.size / 2 >= size {
      r := AllocSplit(n, size, heap);
      return r;
    }
    n.state := ALLOC;
    n.tree := T.Leaf(n.idx, n.size, true);
    return Found(n.idx);
  }

  /** The part for a free node with enough space to make a split. */
  method AllocSplit(n: Node, size: nat, heap: ChunkHeap) returns (r: Grant)
    requires Ready(n, heap) && n.state == FREE && n.size / 2 >= size
    modifies n, heap.Repr
    ensures !r.Crash? ==>
      && Ready(n, heap) && fresh(n.Repr - old(n.Repr)) && fresh(heap.Repr - old(heap.Repr))
      && Rest(n.addrs, heap.chunks) == old(Rest(n.addrs, heap.chunks))
    ensures Answers(old(n.Now(heap)), size, heap.limit, r, n.Now(heap))
    decreases L.FreeCount(heap.chunks), heap.limit - L.Top(heap.chunks), n.tree, 0
  {
    ghost var i, bytes, s := n.idx, n.size, heap.chunks;
    assert n.Now(heap) == Pool(T.Leaf(i, bytes, false), One(n.addr), s);
    var ok := SplitLeaf(n, heap);
    if !ok {
      AnswersSplit(i, n.addr, size, bytes, s, heap.limit, Crash, n.Now(heap));
      return Crash;
    }
    r := AllocLeft(n, size, heap);
    AnswersSplit(i, n.addr, size, bytes, s, heap.limit, r, n.left.Now(heap));
  }

  /** The recursive call on the left half, and the bookkeeping that makes the parent whole again. */
  method AllocLeft(n: Node, size: nat, heap: ChunkHeap) returns (r: Grant)
    requires Ready(n, heap) && n.state == SPLIT
    modifies n`tree, n`addrs, n`places, n`Repr, n.left.Repr, heap.Repr
    ensures !r.Crash? ==>
      && Ready(n, heap) && fresh(n.Repr - old(n.Repr)) && fresh(heap.Repr - old(heap.Repr))
      && Rest(n.addrs, heap.chunks) == old(Rest(n.addrs, heap.chunks))
      && n.state == SPLIT && n.left == old(n.left) && n.right == old(n.right)
      && n.tree == old(n.tree).(left := n.left.tree) && n.places == old(n.places).(left := n.left.places)
    ensures Answers(old(n.left.Now(heap)), size, heap.limit, r, n.left.Now(heap))
    decreases L.FreeCount(heap.chunks), heap.limit - L.Top(heap.chunks), n.left.tree, 2
  {
    ghost var sub, own := n.left.addrs, n.Others(n.left);
    assert own + sub == n.addrs;
    r := BuddyAlloc(n.left, size, heap);
    if !r.Crash? {
      ChildStep(own, sub, n.left.addrs, old(heap.chunks), heap.chunks);
      n.Refresh(n.left);
    }
  }

  /** The same on the right half. */
  method AllocRight(n: Node, size: nat, heap: ChunkHeap) returns (r: Grant)
    requires Ready(n, heap) && n.state == SPLIT
    modifies n`tree, n`addrs, n`places, n`Repr, n.right.Repr, heap.Repr
    ensures !r.Crash? ==>
      && Ready(n, heap) && fresh(n.Repr - old(n.Repr)) && fresh(heap.Repr - old(heap.Repr))
      && Rest(n.addrs, heap.chunks) == old(Rest(n.addrs, heap.chunks))
      && n.state == SPLIT && n.left == old(n.left) && n.right == old(n.right)
      && n.tree == old(n.tree).(right := n.right.tree) && n.places == old(n.places).(right := n.right.places)
    ensures Answers(old(n.right.Now(heap)), size, heap.limit, r, n.right.Now(heap))
    decreases L.FreeCount(heap.chunks), heap.limit - L.Top(heap.chunks), n.right.tree, 2
  {
    ghost var sub, own := n.right.addrs, n.Others(n.right);
    assert own + sub == n.addrs;
    r := BuddyAlloc(n.right, size, heap);
    if !r.Crash? {
      ChildStep(own, sub, n.right.addrs, old(heap.chunks), heap.chunks);
      n.Refresh(n.right);
    }
  }

  // ----- Free -----

  /** Freeing two of three owned nodes removes exactly those two from the heap. */
  lemma FreePair(s: seq<L.Chunk>, base: int, limit: int, addr: int, a: int, b: int)
    requires L.Inv(s, base, limit) && addr != a && addr != b && a != b && Owned({addr} + {a, b}, s)
    ensures var t := L.Free(L.Free(s, a), b);
            && L.Inv(t, base, limit) && Owned({addr}, t)
            && Rest({addr}, t) == Rest({addr} + {a, b}, s)
  {
    assert {addr, a, b} <= {addr} + {a, b};
    L.FreeLive(s, base, limit, a);
    L.FreeLive(L.Free(s, a), base, limit, b);
  }

  /** The heap after a free: the nodes of every split whose halves both became free are given back. */
  ghost function ChunksAfterFree(t: T.Tree, ps: Places, idx: nat, s: seq<L.Chunk>): seq<L.Chunk> {
    if t.Split? && ps.Two? then
      Regained(ps.left.addr, ps.right.addr, T.Free(t.left, idx).0, T.Free(t.right, idx).0,
        ChunksAfterFree(t.right, ps.right, idx, ChunksAfterFree(t.left, ps.left, idx, s)))
    else s
  }

  ghost function PlacesAfterFree(t: T.Tree, ps: Places, idx: nat): Places {
    if t.Split? && ps.Two? then
      if T.IsFree(T.Free(t.left, idx).0) && T.IsFree(T.Free(t.right, idx).0) then One(ps.addr)
      else Two(ps.addr, PlacesAfterFree(t.left, ps.left, idx), PlacesAfterFree(t.right, ps.right, idx))
    else ps
  }

  /** What a merge of the halves l and r with nodes at a and b makes of the heap. */
  ghost function Regained(a: int, b: int, l: T.Tree, r: T.Tree, s: seq<L.Chunk>): seq<L.Chunk> {
    if T.IsFree(l) && T.IsFree(r) then L.Free(L.Free(s, a), b) else s
  }

  method BuddyFree(n: Node, idx: nat, heap: ChunkHeap) returns (ok: bool)
    requires Ready(n, heap)
    modifies n.Repr, heap.Repr
    ensures Ready(n, heap) && n.Repr <= old(n.Repr) && heap.Repr == old(heap.Repr)
    ensures Rest(n.addrs, heap.chunks) == old(Rest(n.addrs, heap.chunks))
    ensures (n.tree, ok) == T.Free(old(n.tree), idx)
    ensures n.places == PlacesAfterFree(old(n.tree), old(n.places), idx)
    ensures heap.chunks == ChunksAfterFree(old(n.tree), old(n.places), idx, old(heap.chunks))
    decreases n.tree, 0
  {
    if n.state == SPLIT {
      var okLeft := FreeInChild(n, n.left, idx, heap);
      var okRight := FreeInChild(n, n.right, idx, heap);
      if n.left.state == FREE && n.right.state == FREE {
        MergeHalves(n, heap);
      }
      return okLeft || okRight;
    }
    if n.idx == idx && n.state == ALLOC {
      n.state := FREE;
      n.tree := T.Leaf(n.idx, n.size, false);
      return true;
    }
    return false;
  }

  method FreeInChild(n: Node, child: Node, idx: nat, heap: ChunkHeap) returns (ok: bool)
    requires Ready(n, heap) && n.state == SPLIT && (child == n.left || child == n.right)
    modifies n`tree, n`addrs, n`places, n`Repr, child.Repr, heap.Repr
    ensures Ready(n, heap) && n.Repr <= old(n.Repr) && heap.Repr == old(heap.Repr)
    ensures Rest(n.addrs, heap.chunks) == old(Rest(n.addrs, heap.chunks))
    ensures n.state == SPLIT && n.left == old(n.left) && n.right == old(n.right)
    ensures (child.tree, ok) == T.Free(old(child.tree), idx)
    ensures child.places == PlacesAfterFree(old(child.tree), old(child.places), idx)
    ensures heap.chunks == ChunksAfterFree(old(child.tree), old(child.places), idx, old(heap.chunks))
    ensures n.tree == if child == n.left then old(n.tree).(left := child.tree) else old(n.tree).(right := child.tree)
    ensures n.places ==
      if child == n.left then old(n.places).(left := child.places) else old(n.places).(right := child.places)
    decreases child.tree, 1
  {
    ghost var sub, own := child.addrs, n.Others(child);
    assert own + sub == n.addrs;
    ok := BuddyFree(child, idx, heap);
    ChildStep(own, sub, child.addrs, old(heap.chunks), heap.chunks);
    n.Refresh(child);
  }

  method MergeHalves(n: Node, heap: ChunkHeap)
    requires Ready(n, heap) && n.state == SPLIT && n.left.state == FREE && n.right.state == FREE
    modifies n, heap.Repr
    ensures Ready(n, heap) && n.Repr == {n} && n.addrs == {n.addr} && heap.Repr == old(heap.Repr)
    ensures Rest(n.addrs, heap.chunks) == old(Rest(n.addrs, heap.chunks))
    ensures n.tree == T.Leaf(old(n.idx), old(n.size), false)
    ensures heap.chunks == L.Free(L.Free(old(heap.chunks), old(n.left.addr)), old(n.right.addr))
  {
    var l, r := n.left, n.right;
    assert n.addrs == {n.addr} + {l.addr, r.addr} by { assert l.addrs == {l.addr} && r.addrs == {r.addr}; }
    FreePair(heap.chunks, heap.base, heap.limit, n.addr, l.addr, r.addr);
    heap.Free(l.addr);
    heap.Free(r.addr);
    n.left, n.right, n.state := null, null, FREE;
    n.tree, n.addrs, n.places, n.Repr := T.Leaf(n.idx, n.size, false), {n.addr}, One(n.addr), {n};
  }

  // ----- Kill -----

  /** Giving back one half leaves the other nodes owned and the rest of the heap alone. */
  lemma GoneChild(own: set<int>, sub: set<int>, s: seq<L.Chunk>, t: seq<L.Chunk>)
    requires own !! sub && Owned(own + sub, s) && L.Live(t) == Rest(sub, s)
    ensures Owned(own, t) && Rest(own, t) == Rest(own + sub, s)
  {
    forall a | a in own ensures a in L.Live(t) && L.Live(t)[a] == NODE_SIZE { assert a in own + sub; }
  }

  /** The heap after every node was given back, halves before their parent. */
  ghost function ChunksAfterKill(ps: Places, s: seq<L.Chunk>): seq<L.Chunk> {
    L.Free(if ps.Two? then ChunksAfterKill(ps.right, ChunksAfterKill(ps.left, s)) else s, ps.addr)
  }

  /** Every node of the tree is given back to the heap, once. */
  method BuddyKill(n: Node, heap: ChunkHeap)
    requires Ready(n, heap)
    modifies heap.Repr
    ensures heap.Valid() && heap.Repr == old(heap.Repr) && L.Inv(heap.chunks, heap.base, heap.limit)
    ensures heap.chunks == ChunksAfterKill(n.places, old(heap.chunks))
    ensures L.Live(heap.chunks) == old(Rest(n.addrs, heap.chunks))
    decreases n.tree
  {
    ghost var s := heap.chunks;
    if n.state == SPLIT {
      BuddyKill(n.left, heap);
      ghost var t := heap.chunks;
      GoneChild({n.addr} + n.right.addrs, n.left.addrs, s, t);
      assert {n.addr} + n.right.addrs + n.left.addrs == n.addrs;
      BuddyKill(n.right, heap);
      GoneChild({n.addr}, n.right.addrs, t, heap.chunks);
    }
    L.FreeLive(heap.chunks, heap.base, heap.limit, n.addr);
    heap.Free(n.addr);
  }

  // ----- Counting -----

  /** The heap chunks that belong to the tree are as many as its nodes. */
  lemma {:induction false} AddrsCount(n: Node)
    requires n.Valid()
    ensures |n.addrs| == T.NodeCount(n.tree)
    decreases n.tree
  {
    if n.state == SPLIT {
      AddrsCount(n.left);
      AddrsCount(n.right);
      assert |n.left.addrs + n.right.addrs| == |n.left.addrs| + |n.right.addrs|;
      assert n.addrs == {n.addr} + (n.left.addrs + n.right.addrs);
    }
  }
}
