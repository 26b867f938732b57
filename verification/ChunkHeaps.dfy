/**
The linked list behind kmalloc/kfree (kmem.c) and pmalloc/pfree (pmem.c), which are the same code
over two different address ranges. Every method is tied to the function of ChunkLists it computes.
*/
module ChunkHeaps {
  import opened Options
  import L = ChunkLists

  class MemChunk {
    var start: int
    var size: nat
    var used: bool

    constructor (start: int, size: nat, used: bool)
      ensures this.start == start && this.size == size && this.used == used
    {
      this.start, this.size, this.used := start, size, used;
    }
  }

  class MemChunkList {
    var chunk: MemChunk
    var next: MemChunkList?

    constructor (chunk: MemChunk)
      ensures this.chunk == chunk && next == null
    {
      this.chunk, next := chunk, null;
    }
  }

  class ChunkHeap {
    const base: int
    const limit: int
    var first: MemChunkList

    ghost var chunks: seq<L.Chunk>
    ghost var nodes: seq<MemChunkList>
    ghost var Repr: set<object>

    ghost predicate Valid()
      reads this, Repr
      ensures Valid() ==> this in Repr
    {
      && this in Repr
      && |nodes| == |chunks| > 0 && first == nodes[0]
      && (forall i :: 0 <= i < |nodes| ==> nodes[i] in Repr)
      && (forall i {:trigger nodes[i].chunk} :: 0 <= i < |nodes| ==>
            && nodes[i].chunk in Repr
            && chunks[i] == L.Chunk(nodes[i].chunk.start, nodes[i].chunk.size, nodes[i].chunk.used))
      && (forall i {:trigger nodes[i].next} :: 0 <= i < |nodes| ==>
            nodes[i].next == if i + 1 < |nodes| then nodes[i + 1] else null)
      && (forall i, j :: 0 <= i < j < |nodes| ==> nodes[i] != nodes[j] && nodes[i].chunk != nodes[j].chunk)
    }

    /** The list cell at position i, or null behind the last one. */
    ghost function CellAt(i: int): MemChunkList?
      reads this
    {
      if 0 <= i < |nodes| then nodes[i] else null
    }

    constructor (base: int, limit: int)
      ensures Valid() && fresh(Repr) && this.base == base && this.limit == limit
      ensures chunks == L.Initial(base).chunks
    {
      var chunk := new MemChunk(base, L.H, true);
      var cell := new MemChunkList(chunk);
      this.base, this.limit, first := base, limit, cell;
      chunks, nodes, Repr := [L.Chunk(base, L.H, true)], [cell], {this, cell, chunk};
    }

    method Malloc(size: nat) returns (r: Option<int>)
      requires Valid()
      modifies Repr
      ensures Valid() && fresh(Repr - old(Repr))
      ensures (chunks, r) == L.Malloc(old(chunks), limit, size)
    {
      var curr: MemChunkList?, prev: MemChunkList? := first, null;
      ghost var i := 0;
      while curr != null && (curr.chunk.used || curr.chunk.size < size)
        invariant 0 <= i <= |nodes| && curr == CellAt(i) && prev == CellAt(i - 1)
        invariant forall k :: 0 <= k < i ==> !L.Fits(chunks[k], size)
        decreases |nodes| - i
      {
        prev, curr := curr, curr.next;
        i := i + 1;
      }
      assert i == L.FirstFit(chunks, size);
      if curr != null {
        curr.chunk.size := size;
        curr.chunk.used := true;
        chunks := chunks[i := L.Chunk(curr.chunk.start, size, true)];
        return Some(curr.chunk.start);
      }
      if prev.chunk.start + prev.chunk.size + size > limit {
        return None;
      }
      Append(prev, size);
      return Some(prev.chunk.start + prev.chunk.size + L.H);
    }

    /** Builds the new chunk and its list cell behind the last payload and links the cell. */
    method Append(prev: MemChunkList, size: nat)
      requires Valid() && prev == nodes[|nodes| - 1]
      modifies `nodes, `chunks, `Repr, prev`next
      ensures Valid() && fresh(Repr - old(Repr))
      ensures chunks == old(chunks) + [L.Chunk(L.Top(old(chunks)) + L.H, size, true)]
    {
      var chunk := new MemChunk(prev.chunk.start + prev.chunk.size + L.H, size, true);
      var curr := new MemChunkList(chunk);
      prev.next := curr;
      nodes, chunks, Repr := nodes + [curr], chunks + [L.Chunk(chunk.start, size, true)], Repr + {curr, chunk};
    }

    method Free(mem: int)
      requires Valid()
      modifies Repr
      ensures Valid() && Repr == old(Repr)
      ensures chunks == L.Free(old(chunks), mem)
    {
      var curr: MemChunkList?, prev: MemChunkList? := first, null;
      ghost var i := 0;
      while curr != null && L.Abs(mem - curr.chunk.start) > curr.chunk.size
        invariant 0 <= i <= |nodes| && curr == CellAt(i) && prev == CellAt(i - 1)
        invariant forall k :: 0 <= k < i ==> L.Abs(mem - chunks[k].start) > chunks[k].size
        decreases |nodes| - i
      {
        prev, curr := curr, curr.next;
        i := i + 1;
      }
      assert i == L.Owner(chunks, mem);
      if curr != null {
        FreeCell(prev, curr, i);
      }
    }

    /** Adds the size of b to a and unlinks b, the cell behind a. */
    method Absorb(a: MemChunkList, b: MemChunkList, ghost k: nat)
      requires Valid() && k + 1 < |nodes| && a == nodes[k] && b == nodes[k + 1]
      modifies `chunks, `nodes, a`next, a.chunk`size
      ensures Valid() && nodes == old(nodes[..k + 1] + nodes[k + 2..])
      ensures chunks == L.MergeAt(old(chunks), k)
    {
      a.chunk.size := a.chunk.size + b.chunk.size;
      a.next := b.next;
      nodes, chunks := nodes[..k + 1] + nodes[k + 2..], L.MergeAt(chunks, k);
      assert forall j :: 0 <= j < |nodes| ==> nodes[j] == old(nodes)[if j <= k then j else j + 1];
    }

    /** The part of a free after its owner is found: unmark it and merge it with its neighbours. */
    method FreeCell(prev: MemChunkList?, curr: MemChunkList, ghost i: nat)
      requires Valid() && i < |nodes| && curr == nodes[i] && prev == CellAt(i - 1)
      modifies Repr
      ensures Valid() && Repr == old(Repr)
      ensures chunks == L.FreeAt(old(chunks), i)
    {
      var appendToPrev := false;
      curr.chunk.used := false;
      chunks := chunks[i := chunks[i].(used := false)];
      assert Valid();
      if prev != null && !prev.chunk.used {
        Absorb(prev, curr, i - 1);
        appendToPrev := true;
      }
      var next := curr.next;
      if next != null && !next.chunk.used {
        if appendToPrev {
          Absorb(prev, next, i - 1);
        } else {
          Absorb(curr, next, i);
        }
      }
    }
  }
}
