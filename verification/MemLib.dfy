/**
The block interface of memlib.c: requests rounded up to pages, buddy indices turned into addresses,
and the kernel heap that holds both the pool and the nodes of its tree.
*/
module MemLib {
  import opened Options
  import opened ChunkHeaps
  import opened BuddyNodes
  import opened Words
  import L = ChunkLists
  import T = BuddyTrees

  const PAGE_SIZE: nat := 4096
  const MEM_START: nat := 0x600000
  const MEMORY_START: nat := 0x600000
  // MEMORY_START + AVAILABLE_MEMORY - 1
  const MEMORY_END: nat := 0x8FFFFF

  // ----- Page rounding, in 64-bit arithmetic -----

  function PagedSize(size: uint64): uint64 {
    if size % PAGE_SIZE == 0 then size else PAGE_SIZE * (size / PAGE_SIZE + 1) % TWO_64
  }

  /** p is the smallest multiple of the page size that holds size bytes. */
  ghost predicate IsPageRound(p: nat, size: nat) { p % PAGE_SIZE == 0 && size <= p < size + PAGE_SIZE }

  /** The rounding is right for every size up to the last page of the address space, and is 0 beyond it. */
  lemma PagedSizeIff(size: uint64)
    ensures IsPageRound(PagedSize(size), size) <==> size <= TWO_64 - PAGE_SIZE
    ensures size > TWO_64 - PAGE_SIZE ==> PagedSize(size) == 0
  {
  }

  // ----- What the buddy tree of a pool keeps when requests are whole pages -----

  ghost predicate Sound(t: T.Tree, poolSize: nat) {
    T.Wf(t, 0, poolSize) && T.Coalesced(t) && forall b :: b in T.Blocks(t) ==> b.1 >= PAGE_SIZE
  }

  lemma AllocSound(t: T.Tree, poolSize: nat, size: uint64)
    requires Sound(t, poolSize) && PagedSize(size) > 0
    ensures var (u, i) := T.Alloc(t, PagedSize(size)); Sound(u, poolSize) && (i.Some? ==> i.value < poolSize)
  {
    PagedSizeIff(size);
    T.AllocKeeps(t, 0, poolSize, PagedSize(size));
    if T.Alloc(t, PagedSize(size)).1.Some? {
      var b := T.AllocEffect(t, 0, poolSize, PagedSize(size));
    } else {
      T.AllocFailsClean(t, PagedSize(size));
    }
  }

  lemma FreeSound(t: T.Tree, poolSize: nat, idx: nat)
    requires Sound(t, poolSize)
    ensures Sound(T.Free(t, idx).0, poolSize)
  {
    T.FreeEffect(t, 0, poolSize, idx);
  }

  /**
  The block behind a granted request: at least the rounded size and less than twice it, inside the
  pool, apart from every block granted before; giving it back restores the tree.
  */
  lemma GrantRoundTrip(t: T.Tree, poolSize: nat, size: uint64) returns (b: T.Block)
    requires Sound(t, poolSize) && PagedSize(size) > 0 && T.Alloc(t, PagedSize(size)).1.Some?
    ensures var (u, i) := T.Alloc(t, PagedSize(size));
            && b in T.Blocks(u) && b !in T.Blocks(t) && b.0 == i.value
            && T.Free(u, i.value) == (t, true)
    ensures size <= PagedSize(size) <= b.1 < 2 * PagedSize(size) && b.0 + b.1 <= poolSize
    ensures forall c :: c in T.Blocks(t) ==> T.Apart(b, c)
  {
    b := T.AllocEffect(t, 0, poolSize, PagedSize(size));
    T.FreeUndoesAlloc(t, 0, poolSize, PagedSize(size));
    PagedSizeIff(size);
    forall c | c in T.Blocks(t) ensures T.Apart(b, c) {
      T.BlocksApart(T.Alloc(t, PagedSize(size)).0, 0, poolSize, b, c);
    }
  }

  // ----- Block addresses and the kernel heap -----

  /** The block's bytes, at MEM_START + index, meet no header and no chunk of the heap but the pool. */
  ghost predicate ClearOfHeap(b: T.Block, chunks: seq<L.Chunk>, pool: int) {
    && Disjoint(MEM_START + b.0, b.1, MEMORY_START, 2 * L.H)
    && forall a :: a in L.Live(chunks) && a != pool ==>
         Disjoint(MEM_START + b.0, b.1, a - L.H, L.H + L.Live(chunks)[a])
  }

  lemma {:induction false} IndexBeyondSize(t: T.Tree, i: nat, s: nat, b: T.Block)
    requires T.Wf(t, i, s) && b in T.Blocks(t)
    ensures b.0 == i || b.0 >= i + b.1
  {
    if t.Split? {
      T.BlocksInside(t, i, s, b);
      if b in T.Blocks(t.left) { IndexBeyondSize(t.left, i, s / 2, b); }
      else { IndexBeyondSize(t.right, i + s / 2, s / 2, b); }
    }
  }

  /**
  Blocks are addressed from MEM_START, not from the pool. So the block at index 0, and no other,
  runs over the first heap headers; every block stays clear of the nodes and of all other chunks.
  */
  lemma BlockClearIff(b: T.Block, t: T.Tree, poolSize: nat, chunks: seq<L.Chunk>, pool: int)
    requires Sound(t, poolSize) && b in T.Blocks(t)
    requires L.Inv(chunks, MEMORY_START, MEMORY_END) && pool == MEMORY_START + 2 * L.H
    requires pool in L.Live(chunks) && L.Live(chunks)[pool] == poolSize
    ensures ClearOfHeap(b, chunks, pool) <==> b.0 != 0
  {
    T.BlocksInside(t, 0, poolSize, b);
    IndexBeyondSize(t, 0, poolSize, b);
    forall a | a in L.Live(chunks) && a != pool
      ensures Disjoint(MEM_START + b.0, b.1, a - L.H, L.H + L.Live(chunks)[a])
    {
      L.LiveBounds(chunks, MEMORY_START, MEMORY_END, a);
      if a < pool { L.LiveDisjoint(chunks, MEMORY_START, MEMORY_END, a, pool); }
      else { L.LiveDisjoint(chunks, MEMORY_START, MEMORY_END, pool, a); }
    }
  }

  lemma OthersMalloc(s: seq<L.Chunk>, addrs: set<int>, size: nat)
    requires L.Inv(s, MEMORY_START, MEMORY_END) && Owned(addrs, s)
    ensures var (t, r) := L.Malloc(s, MEMORY_END, size);
            && L.Inv(t, MEMORY_START, MEMORY_END) && Owned(addrs, t)
            && (r.None? ==> t == s)
            && (r.Some? ==> r.value !in Rest(addrs, s) && Rest(addrs, t) == Rest(addrs, s)[r.value := size])
  {
    var (t, r) := L.Malloc(s, MEMORY_END, size);
    L.MallocKeepsInv(s, MEMORY_START, MEMORY_END, size);
    if r.Some? {
      L.MallocLive(s, MEMORY_START, MEMORY_END, size);
      assert r.value !in addrs;
    }
  }

  datatype BlockResult = Block(addr: nat) | Null | Crashed

  /**
  What get_memblock answers: the address of the block that the tree grants, null when it has no
  space, and a crash when the kernel heap cannot serve the nodes that the grant needs.
  */
  ghost function BlockOutcome(t: T.Tree, size: uint64, s: seq<L.Chunk>): BlockResult
    requires s != []
  {
    match Outcome(t, PagedSize(size), s, MEMORY_END)
    case Found(idx) => Block(MEM_START + idx)
    case NoSpace => Null
    case Crash => Crashed
  }

  /** The address of the one block that is there after and was not before, of at least size bytes. */
  ghost predicate Grants(before: set<T.Block>, after: set<T.Block>, addr: int, size: nat) {
    exists b :: b !in before && after == before + {b} && addr == MEM_START + b.0 && size <= b.1 < 2 * size
  }

  /** Some aligned block of the pool has that many bytes and meets no allocated one. */
  ghost predicate HasRoom(t: T.Tree, poolSize: nat, size: nat) {
    exists b: T.Block :: T.Aligned(b, 0, poolSize) && b.1 >= size && T.Unoccupied(t, b)
  }

  /** An answer is the new block's address, or null exactly when nothing was granted for want of room. */
  ghost predicate Tells(t: T.Tree, u: T.Tree, poolSize: nat, size: nat, r: BlockResult) {
    && (r.Block? ==> Grants(T.Blocks(t), T.Blocks(u), r.addr, size))
    && (r.Null? <==> T.Blocks(u) == T.Blocks(t))
    && (size > 0 ==> (r.Null? <==> !HasRoom(t, poolSize, size)))
  }

  lemma AnswerIsNewBlock(t: T.Tree, poolSize: nat, size: uint64, s: seq<L.Chunk>)
    requires Sound(t, poolSize) && s != [] && !BlockOutcome(t, size, s).Crashed?
    ensures Tells(t, TreeAfter(t, PagedSize(size)), poolSize, PagedSize(size), BlockOutcome(t, size, s))
  {
    if PagedSize(size) > 0 {
      T.AllocFailsIffNoRoom(t, 0, poolSize, PagedSize(size));
      if T.Alloc(t, PagedSize(size)).1.Some? {
        var b := T.AllocEffect(t, 0, poolSize, PagedSize(size));
      } else {
        T.AllocFailsClean(t, PagedSize(size));
      }
    }
  }

  lemma AfterRequest(t: T.Tree, poolSize: nat, size: uint64, s: seq<L.Chunk>)
    requires Sound(t, poolSize) && s != [] && poolSize < TWO_32 / 2
    ensures Sound(TreeAfter(t, PagedSize(size)), poolSize)
    ensures var g := Outcome(t, PagedSize(size), s, MEMORY_END); g.Found? ==> ToInt32(g.idx) == g.idx
  {
    if PagedSize(size) > 0 { AllocSound(t, poolSize, size); }
  }

  /** The kernel heap after free_memblock. */
  ghost function ChunksFreed(pool: Pool, p: nat): seq<L.Chunk> {
    if p < MEM_START then pool.chunks else ChunksAfterFree(pool.tree, pool.places, p - MEM_START, pool.chunks)
  }

  ghost function PlacesFreed(pool: Pool, p: nat): Places {
    if p < MEM_START then pool.places else PlacesAfterFree(pool.tree, pool.places, p - MEM_START)
  }

  class Memory {
    var heap: ChunkHeap
    var head: Node
    const pool: int
    const poolSize: nat

    ghost predicate Valid()
      reads this, heap, heap.Repr, head, head.Repr
    {
      && Ready(head, heap) && this !in heap.Repr && this !in head.Repr
      && heap.base == MEMORY_START && heap.limit == MEMORY_END
      && Sound(head.tree, poolSize)
      && pool == MEMORY_START + 2 * L.H && pool + poolSize <= MEMORY_END + L.H
      && PoolOwned(Others())
    }

    /** The kernel heap's live chunks besides the tree nodes: the pool, and what kmalloc's other callers hold. */
    ghost function Others(): map<int, nat>
      reads this, heap, head
    {
      Rest(head.addrs, heap.chunks)
    }

    ghost function Now(): Pool
      reads this, heap, head
    {
      head.Now(heap)
    }

    ghost predicate PoolOwned(rest: map<int, nat>) { pool in rest && rest[pool] == poolSize }

    constructor (heap: ChunkHeap, head: Node, pool: int, poolSize: nat)
      ensures this.heap == heap && this.head == head && this.pool == pool && this.poolSize == poolSize
    {
      this.heap, this.head, this.pool, this.poolSize := heap, head, pool, poolSize;
    }

    /** kmalloc on behalf of a client of the kernel heap other than the buddy tree. */
    method Kmalloc(size: nat) returns (r: Option<int>)
      requires Valid()
      modifies heap.Repr
      ensures Valid() && fresh(heap.Repr - old(heap.Repr)) && head.tree == old(head.tree)
      ensures (heap.chunks, r) == L.Malloc(old(heap.chunks), MEMORY_END, size)
      ensures r.None? ==> Others() == old(Others())
      ensures r.Some? ==> r.value !in old(Others()) && Others() == old(Others())[r.value := size]
    {
      ghost var s, addrs := heap.chunks, head.addrs;
      r := heap.Malloc(size);
      OthersMalloc(s, addrs, size);
    }

    /** kfree of a chunk that such a client holds. */
    method Kfree(a: int)
      requires Valid() && a in Others() && a != pool
      modifies heap.Repr
      ensures Valid() && heap.Repr == old(heap.Repr) && head.tree == old(head.tree)
      ensures heap.chunks == L.Free(old(heap.chunks), a) && Others() == old(Others()) - {a}
    {
      L.FreeLive(heap.chunks, heap.base, heap.limit, a);
      heap.Free(a);
    }

    method GetMemblock(size: uint64) returns (r: BlockResult)
      requires Valid()
      modifies heap.Repr, head.Repr
      ensures !r.Crashed? ==>
        && Valid() && fresh(head.Repr - old(head.Repr)) && fresh(heap.Repr - old(heap.Repr))
        && Others() == old(Others())
      ensures r == BlockOutcome(old(head.tree), size, old(heap.chunks))
      ensures !r.Crashed? ==> Tells(old(head.tree), head.tree, poolSize, PagedSize(size), r)
      ensures !r.Crashed? ==>
        && head.tree == TreeAfter(old(head.tree), PagedSize(size))
        && head.places == PlacesAfter(old(head.tree), old(head.places), PagedSize(size), old(heap.chunks), MEMORY_END)
        && heap.chunks == ChunksAfter(old(head.tree), PagedSize(size), old(heap.chunks), MEMORY_END)
    {
      AfterRequest(head.tree, poolSize, size, heap.chunks);
      if !BlockOutcome(head.tree, size, heap.chunks).Crashed? {
        AnswerIsNewBlock(head.tree, poolSize, size, heap.chunks);
      }
      var g := BuddyAlloc(head, PagedSize(size), heap);
      if g.Crash? {
        return Crashed;
      }
      var index := if g.Found? then ToInt32(g.idx) else -1;
      if index == -1 {
        return Null;
      }
      return Block(MEM_START + index);
    }

    method FreeMemblock(p: nat) returns (r: int)
      requires Valid()
      modifies heap.Repr, head.Repr
      ensures Valid() && head.Repr <= old(head.Repr) && heap.Repr == old(heap.Repr)
      ensures Others() == old(Others())
      ensures if p < MEM_START then r == -1 && head.tree == old(head.tree)
              else (head.tree, r == 0) == T.Free(old(head.tree), p - MEM_START) && r in {0, -1}
      ensures heap.chunks == ChunksFreed(old(Now()), p) && head.places == PlacesFreed(old(Now()), p)
    {
      if MEM_START > p {
        return -1;
      }
      FreeSound(head.tree, poolSize, p - MEM_START);
      var ok := BuddyFree(head, p - MEM_START, heap);
      return if ok then 0 else -1;
    }
  }

  /** The first two chunks of the heap: the pool, then the root node. */
  lemma FirstChunks(s: nat)
    ensures var c0 := L.Initial(MEMORY_START).chunks;
            var (c1, pool) := L.Malloc(c0, MEMORY_END, s);
            && (pool.None? <==> MEMORY_START + L.H + s > MEMORY_END)
            && (pool.Some? ==>
                 var (c2, addr) := L.Malloc(c1, MEMORY_END, NODE_SIZE);
                 && pool.value == MEMORY_START + 2 * L.H && L.Inv(c1, MEMORY_START, MEMORY_END)
                 && (addr.None? <==> MEMORY_START + 2 * L.H + s + NODE_SIZE > MEMORY_END)
                 && (addr.Some? ==>
                      && L.Inv(c2, MEMORY_START, MEMORY_END) && addr.value != pool.value
                      && L.Live(c2) == map[pool.value := s][addr.value := NODE_SIZE]
                      && pool.value + s <= MEMORY_END + L.H))
  {
    var c0 := L.Initial(MEMORY_START).chunks;
    L.MallocKeepsInv(c0, MEMORY_START, MEMORY_END, s);
    L.MallocFailsIff(c0, MEMORY_END, s);
    var (c1, pool) := L.Malloc(c0, MEMORY_END, s);
    if pool.Some? {
      L.MallocLive(c0, MEMORY_START, MEMORY_END, s);
      L.MallocKeepsInv(c1, MEMORY_START, MEMORY_END, NODE_SIZE);
      L.MallocFailsIff(c1, MEMORY_END, NODE_SIZE);
      var (c2, addr) := L.Malloc(c1, MEMORY_END, NODE_SIZE);
      if addr.Some? {
        L.MallocLive(c1, MEMORY_START, MEMORY_END, NODE_SIZE);
        L.LiveBounds(c2, MEMORY_START, MEMORY_END, pool.value);
      }
    }
  }

  /** init_mem: the kernel heap, then the pool, then the root node of its tree; null on failure. */
  method InitMem(size: uint64) returns (m: Memory?)
    ensures m == null <==> MEMORY_START + 2 * L.H + PagedSize(size) + NODE_SIZE > MEMORY_END
    ensures m != null ==>
      && fresh(m) && fresh(m.heap.Repr) && fresh(m.head.Repr) && Ready(m.head, m.heap)
      && (m.Valid() <==> PagedSize(size) > 0)
      && m.poolSize == PagedSize(size) && m.head.tree == T.Leaf(0, PagedSize(size), false)
      && m.Others() == map[m.pool := m.poolSize]
  {
    var heap := new ChunkHeap(MEMORY_START, MEMORY_END);
    var s := PagedSize(size);
    FirstChunks(s);
    var pool := heap.Malloc(s);
    if pool.None? {
      return null;
    }
    var addr := heap.Malloc(NODE_SIZE);
    if addr.None? {
      return null;
    }
    var head := new Node(addr.value, 0, s);
    m := new Memory(heap, head, pool.value, s);
  }
}
