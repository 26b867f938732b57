/**
Process heaps (pmem.c): each process runs its own chunk list inside one block it got from memlib.c.
*/
module ProcessHeaps {
  import L = ChunkLists
  import T = BuddyTrees
  import M = MemLib

  /** A process owns a block and announces a heap of heapSize bytes at the start of it. */
  datatype Process = Process(block: T.Block, heapSize: nat) {
    function Base(): int { M.MEM_START + block.0 }
    function Limit(): int { Base() + heapSize }
    function BlockEnd(): int { Base() + block.1 }
  }

  // ----- One process -----

  /** The highest end of a run: one payload that uses the whole limit check pushes H bytes past it. */
  lemma RunReachesPastLimit(base: int, heapSize: nat)
    requires heapSize >= L.H
    ensures var ops := [L.OpMalloc(heapSize - L.H)];
            var limit := base + heapSize;
            && L.LegalRun(L.Initial(base), limit, ops)
            && !L.EndsBy(L.Run(L.Initial(base), limit, ops).chunks, limit + L.H - 1)
  {
    var limit := base + heapSize;
    var ops := [L.OpMalloc(heapSize - L.H)];
    var w := L.Initial(base);
    assert L.FirstFit(w.chunks, heapSize - L.H) == 1;
    var v := L.Step(w, limit, ops[0]);
    assert v.chunks[1].End() == limit + L.H;
    assert ops[1..] == [];
    assert L.LegalRun(v, limit, []) && L.Run(v, limit, []) == v;
  }

  /** Every chunk ends by bound, the one for the first header too. */
  ghost predicate AllEndBy(s: seq<L.Chunk>, bound: int) {
    L.EndsBy(s, bound) && forall i :: 0 <= i < |s| ==> s[i].End() <= bound
  }

  ghost predicate StaysBelow(base: int, limit: int, bound: int) {
    forall ops {:trigger L.LegalRun(L.Initial(base), limit, ops)} :: L.LegalRun(L.Initial(base), limit, ops) ==>
      AllEndBy(L.Run(L.Initial(base), limit, ops).chunks, bound)
  }

  lemma InitialAgrees(base: int, limit: int)
    ensures L.Agrees(L.Initial(base), base, limit)
  {
  }

  /** With no room for a second header the list never grows. */
  lemma {:induction false} TinyHeapRun(base: int, limit: int, ops: seq<L.Op>)
    requires limit < base + L.H && L.LegalRun(L.Initial(base), limit, ops)
    ensures L.Run(L.Initial(base), limit, ops) == L.Initial(base)
    decreases |ops|
  {
    if ops != [] {
      assert L.Step(L.Initial(base), limit, ops[0]) == L.Initial(base);
      TinyHeapRun(base, limit, ops[1..]);
    }
  }

  lemma AllEnd(s: seq<L.Chunk>, base: int, limit: int, bound: int)
    requires L.Inv(s, base, limit) && L.EndsBy(s, bound) && base + L.H <= bound
    ensures AllEndBy(s, bound)
  {
  }

  /**
  Every run of a process stays inside its block iff the block holds the first header and leaves room
  for one more behind the heap, unless the heap is too small to grow.
  */
  lemma StaysInBlockIff(base: int, heapSize: nat, blockSize: nat)
    ensures StaysBelow(base, base + heapSize, base + blockSize) <==>
            L.H <= blockSize && (heapSize < L.H || heapSize + L.H <= blockSize)
  {
    var limit := base + heapSize;
    InitialAgrees(base, limit);
    if blockSize < L.H {
      assert L.LegalRun(L.Initial(base), limit, []) && L.Run(L.Initial(base), limit, []) == L.Initial(base);
    } else if heapSize < L.H {
      forall ops | L.LegalRun(L.Initial(base), limit, ops)
        ensures AllEndBy(L.Run(L.Initial(base), limit, ops).chunks, base + blockSize)
      {
        TinyHeapRun(base, limit, ops);
      }
    } else if heapSize + L.H <= blockSize {
      forall ops | L.LegalRun(L.Initial(base), limit, ops)
        ensures AllEndBy(L.Run(L.Initial(base), limit, ops).chunks, base + blockSize)
      {
        L.RunAgrees(L.Initial(base), base, limit, ops);
        AllEnd(L.Run(L.Initial(base), limit, ops).chunks, base, limit, base + blockSize);
      }
    } else {
      RunReachesPastLimit(base, heapSize);
      var ops := [L.OpMalloc(heapSize - L.H)];
      var s := L.Run(L.Initial(base), limit, ops).chunks;
      var i :| 1 <= i < |s| && s[i].End() > limit + L.H - 1;
      assert L.LegalRun(L.Initial(base), limit, ops);
    }
  }

  // ----- All processes at once -----

  datatype Call = Call(pid: nat, op: L.Op)

  ghost function Start(procs: seq<Process>): seq<L.World> {
    seq(|procs|, k requires 0 <= k < |procs| => L.Initial(procs[k].Base()))
  }

  ghost predicate AllAgree(procs: seq<Process>, worlds: seq<L.World>) {
    && |worlds| == |procs|
    && forall k :: 0 <= k < |procs| ==> L.Agrees(worlds[k], procs[k].Base(), procs[k].Limit())
  }

  ghost predicate LegalCall(procs: seq<Process>, worlds: seq<L.World>, c: Call) {
    && c.pid < |worlds| == |procs| && worlds[c.pid].chunks != []
    && L.LegalOp(worlds[c.pid], c.op)
  }

  ghost function Serve(procs: seq<Process>, worlds: seq<L.World>, c: Call): seq<L.World>
    requires LegalCall(procs, worlds, c)
  {
    worlds[c.pid := L.Step(worlds[c.pid], procs[c.pid].Limit(), c.op)]
  }

  ghost predicate LegalCalls(procs: seq<Process>, worlds: seq<L.World>, calls: seq<Call>)
    decreases |calls|
  {
    calls == [] || (LegalCall(procs, worlds, calls[0]) && LegalCalls(procs, Serve(procs, worlds, calls[0]), calls[1..]))
  }

  ghost function ServeAll(procs: seq<Process>, worlds: seq<L.World>, calls: seq<Call>): seq<L.World>
    requires LegalCalls(procs, worlds, calls)
    decreases |calls|
  {
    if calls == [] then worlds else ServeAll(procs, Serve(procs, worlds, calls[0]), calls[1..])
  }

  /** A call changes the caller's list alone, with the end of its heap as the limit. */
  lemma ServeLocal(procs: seq<Process>, worlds: seq<L.World>, c: Call)
    requires LegalCall(procs, worlds, c)
    ensures var (p, after) := (procs[c.pid], Serve(procs, worlds, c));
            && |after| == |worlds| && (forall k :: 0 <= k < |worlds| && k != c.pid ==> after[k] == worlds[k])
            && after[c.pid].chunks ==
               match c.op
               case OpMalloc(size) => L.Malloc(worlds[c.pid].chunks, 0x600000 + p.block.0 + p.heapSize, size).0
               case OpFree(mem) => L.Free(worlds[c.pid].chunks, mem)
  {
  }

  lemma {:induction false} ServeAllAgrees(procs: seq<Process>, worlds: seq<L.World>, calls: seq<Call>)
    requires AllAgree(procs, worlds) && LegalCalls(procs, worlds, calls)
    ensures AllAgree(procs, ServeAll(procs, worlds, calls))
    decreases |calls|
  {
    if calls != [] {
      var p := calls[0].pid;
      L.StepAgrees(worlds[p], procs[p].Base(), procs[p].Limit(), calls[0].op);
      ServeAllAgrees(procs, Serve(procs, worlds, calls[0]), calls[1..]);
    }
  }

  /** The bytes of chunk i: its header, which for chunk 0 is also its payload, and its payload. */
  ghost predicate Covers(s: seq<L.Chunk>, i: nat, x: int) {
    i < |s| && s[i].start - (if i == 0 then 0 else L.H) <= x < s[i].End()
  }

  /** A live block of the pool whose heap leaves room for one more header. */
  ghost predicate Placed(p: Process, t: T.Tree) {
    p.block in T.Blocks(t) && L.H <= p.heapSize && p.heapSize + L.H <= p.block.1
  }

  lemma CoveredInBlock(p: Process, w: L.World, i: nat, x: int)
    requires L.Agrees(w, p.Base(), p.Limit()) && Covers(w.chunks, i, x)
    requires L.H <= p.heapSize && p.heapSize + L.H <= p.block.1
    ensures p.Base() <= x < p.BlockEnd()
  {
    if i > 0 { assert L.Before(w.chunks[0], w.chunks[i]); }
  }

  /**
  No byte of a chunk or header of one process belongs to another process, after any interleaving
  of their calls.
  */
  lemma Isolation(procs: seq<Process>, t: T.Tree, poolSize: nat, calls: seq<Call>,
                  p: nat, q: nat, i: nat, j: nat, x: int)
    requires M.Sound(t, poolSize)
    requires forall k :: 0 <= k < |procs| ==> Placed(procs[k], t)
    requires forall k, l :: 0 <= k < l < |procs| ==> procs[k].block != procs[l].block
    requires LegalCalls(procs, Start(procs), calls)
    requires p < |procs| && q < |procs| && p != q
    ensures var worlds := ServeAll(procs, Start(procs), calls);
            && |worlds| == |procs|
            && !(Covers(worlds[p].chunks, i, x) && Covers(worlds[q].chunks, j, x))
  {
    forall k | 0 <= k < |procs| ensures L.Agrees(Start(procs)[k], procs[k].Base(), procs[k].Limit()) {
      InitialAgrees(procs[k].Base(), procs[k].Limit());
    }
    ServeAllAgrees(procs, Start(procs), calls);
    var worlds := ServeAll(procs, Start(procs), calls);
    if Covers(worlds[p].chunks, i, x) && Covers(worlds[q].chunks, j, x) {
      CoveredInBlock(procs[p], worlds[p], i, x);
      CoveredInBlock(procs[q], worlds[q], j, x);
      assert procs[p].block != procs[q].block;
      T.BlocksApart(t, 0, poolSize, procs[p].block, procs[q].block);
    }
  }
}
