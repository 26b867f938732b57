/**
The shared-memory calls of shared.c: the table of SharedTables in its array, with every entry's
struct and name in the kernel heap and its block in the buddy pool.
*/
module SharedMemory {
  import opened Options
  import opened MemLib
  import opened Words
  import B = BuddyNodes
  import L = ChunkLists
  import R = SharedRuns
  import S = SharedTables
  import T = BuddyTrees

  // sizeof(mem_shared_t)
  const SHARED_SIZE: nat := 24

  /** NoAnswer: a failed kmalloc was written through, or the buddy tree crashed. */
  datatype IdResult = Id(id: int) | NoAnswer

  // ----- What shmget answers and leaves -----

  function EntryOf(b: BlockResult, name: string, addr: int, nameAddr: int): S.Entry {
    S.Entry(if b.Block? then b.addr else 0, name, 0, addr, nameAddr)
  }

  /** NoRoom: no chunk for the struct. Lost: none for the name, or no room for the tree's nodes. */
  datatype Built = NoRoom | Lost | Made(e: S.Entry, tree: T.Tree, chunks: seq<L.Chunk>)

  /** A new entry: a chunk for the struct, one for the name, then a block. */
  ghost function Build(t: T.Tree, s: seq<L.Chunk>, name: string, size: uint64): Built
    requires s != []
  {
    var (s1, addr) := L.Malloc(s, MEMORY_END, SHARED_SIZE);
    if addr.None? then NoRoom else BuildNamed(t, s1, addr.value, name, size)
  }

  /** The same once the struct has its chunk. */
  ghost function BuildNamed(t: T.Tree, s: seq<L.Chunk>, addr: int, name: string, size: uint64): (b: Built)
    requires s != []
    ensures !b.NoRoom?
  {
    var (s2, nameAddr) := L.Malloc(s, MEMORY_END, |name| + 1);
    if nameAddr.None? then Lost
    else
      var b := BlockOutcome(t, size, s2);
      if b.Crashed? then Lost
      else
        Made(EntryOf(b, name, addr, nameAddr.value), B.TreeAfter(t, PagedSize(size)),
          B.ChunksAfter(t, PagedSize(size), s2, MEMORY_END))
  }

  datatype Reply = Reply(r: IdResult, table: S.Table, tree: T.Tree, chunks: seq<L.Chunk>)

  /** shmget over table, tree and kernel heap; after NoAnswer the rest means nothing. */
  ghost function Shmgets(table: S.Table, t: T.Tree, s: seq<L.Chunk>,
                         name: Option<string>, size: uint64, overwrite: bool): Reply
    requires table.current <= |table.slots| && s != []
  {
    if name.None? then Reply(Id(-1), table, t, s)
    else if !S.Builds(table, name.value, overwrite) then
      Reply(Id(S.Get(table, name.value, overwrite, EntryOf(Null, "", 0, 0)).1), table, t, s)
    else
      match Build(t, s, name.value, size)
      case NoRoom => Reply(Id(-1), table, t, s)
      case Lost => Reply(NoAnswer, table, t, s)
      case Made(e, t', s') =>
        var (table', id) := S.Get(table, name.value, overwrite, e);
        Reply(Id(id), table', t', s')
  }

  /** What it does once it builds an entry for slot pos. */
  ghost function Placed(table: S.Table, t: T.Tree, s: seq<L.Chunk>,
                        pos: nat, equals: bool, name: string, size: uint64): Reply
    requires table.current <= |table.slots| && pos < |table.slots| && s != []
  {
    match Build(t, s, name, size)
    case NoRoom => Reply(Id(-1), table, t, s)
    case Lost => Reply(NoAnswer, table, t, s)
    case Made(e, t', s') => Reply(Id(pos + 1), S.Install(table, pos, e, equals), t', s')
  }

  lemma ShmgetPlaces(table: S.Table, t: T.Tree, s: seq<L.Chunk>,
                     pos: nat, equals: bool, name: string, size: uint64, overwrite: bool)
    requires table.current <= |table.slots| && s != [] && table.current != S.MAX_SHBLOCKS
    requires (Some(pos), equals) == S.Search(table.slots, table.current, name)
    ensures pos < |table.slots|
    ensures Shmgets(table, t, s, Some(name), size, overwrite) ==
      if overwrite || !equals then Placed(table, t, s, pos, equals, name, size) else Reply(Id(pos + 1), table, t, s)
  {
  }

  /**
  When shmget refuses, when it gives no answer because something was written through a null pointer,
  and what it answers and leaves otherwise.
  */
  lemma ShmgetOutcome(table: S.Table, t: T.Tree, s: seq<L.Chunk>, name: Option<string>, size: uint64, overwrite: bool)
    requires S.Shaped(table) && s != []
    ensures var reply := Shmgets(table, t, s, name, size, overwrite);
            var builds := name.Some? && S.Builds(table, name.value, overwrite);
            var (s1, addr) := L.Malloc(s, MEMORY_END, SHARED_SIZE);
            && (reply.r == Id(-1) <==> name.None? || table.current == S.MAX_SHBLOCKS || (builds && addr.None?))
            && (reply.r.NoAnswer? <==>
                  && builds && addr.Some?
                  && var (s2, nameAddr) := L.Malloc(s1, MEMORY_END, |name.value| + 1);
                     nameAddr.None? || BlockOutcome(t, size, s2).Crashed?)
            && (reply.r.Id? && reply.r.id != -1 ==>
                  exists e :: (reply.table, reply.r.id) == S.Get(table, name.value, overwrite, e)
                              && (builds ==> e.name == name.value && e.start == R.StartOf(t, size) && e.simAccess == 0))
            && (reply.r == Id(-1) || (reply.r.Id? && !builds) ==> reply == Reply(reply.r, table, t, s))
  {
    if name.Some? {
      S.SearchFindsRoom(table, name.value);
      if S.Builds(table, name.value, overwrite) {
        var b := Build(t, s, name.value, size);
        if b.Made? {
          var s1 := L.Malloc(s, MEMORY_END, SHARED_SIZE).0;
          BlockIsStart(t, size, L.Malloc(s1, MEMORY_END, |name.value| + 1).0);
        }
      }
    }
  }

  /** Without overwrite a name that the table has keeps its entry and answers its id. */
  lemma ShmgetFinds(table: S.Table, t: T.Tree, s: seq<L.Chunk>, k: nat, size: uint64)
    requires S.Shaped(table) && S.Distinct(table.slots) && table.current != S.MAX_SHBLOCKS && s != []
    requires k < |table.slots| && table.slots[k].Some?
    ensures Shmgets(table, t, s, Some(table.slots[k].value.name), size, false) == Reply(Id(k + 1), table, t, s)
  {
    var name := table.slots[k].value.name;
    assert S.Named(table.slots, k, name);
    var pos := S.Search(table.slots, table.current, name).0.value;
    assert pos < k ==> S.Differ(table.slots[pos], table.slots[k]);
    assert k < pos ==> S.Differ(table.slots[k], table.slots[pos]);
  }

  /** A call that answers is a legal step of the composed runs, with what kmalloc answered in it. */
  lemma ShmgetIsStep(st: R.State, poolSize: nat, s: seq<L.Chunk>, name: string, size: uint64, overwrite: bool)
    requires R.Inv(st, poolSize) && s != []
    requires Shmgets(st.table, st.tree, s, Some(name), size, overwrite).r.Id?
    ensures var reply := Shmgets(st.table, st.tree, s, Some(name), size, overwrite);
            var (s1, addr) := L.Malloc(s, MEMORY_END, SHARED_SIZE);
            var (_, nameAddr) := L.Malloc(s1, MEMORY_END, |name| + 1);
            var addrs := if addr.Some? && nameAddr.Some? then Some((addr.value, nameAddr.value)) else None;
            var ev := R.EvGet(name, size, overwrite, addrs);
            && R.Legal(st, ev)
            && R.Next(st, ev).table == reply.table && R.Next(st, ev).tree == reply.tree
  {
    var (s1, addr) := L.Malloc(s, MEMORY_END, SHARED_SIZE);
    var (s2, nameAddr) := L.Malloc(s1, MEMORY_END, |name| + 1);
    if S.Builds(st.table, name, overwrite) && addr.Some? {
      BlockIsStart(st.tree, size, s2);
    }
  }

  // ----- What the entries own -----

  ghost predicate EntryChunks(x: Option<S.Entry>, others: map<int, nat>, pool: int) {
    x.Some? ==>
      var e := x.value;
      && e.addr in others && others[e.addr] == SHARED_SIZE
      && e.nameAddr in others && others[e.nameAddr] == |e.name| + 1
      && e.addr != e.nameAddr && e.addr != pool && e.nameAddr != pool
  }

  /** No chunk and no block belongs to two entries. */
  ghost predicate Separate(x: Option<S.Entry>, y: Option<S.Entry>) {
    x.Some? && y.Some? ==>
      && {x.value.addr, x.value.nameAddr} !! {y.value.addr, y.value.nameAddr}
      && (x.value.start != 0 ==> x.value.start != y.value.start)
  }

  ghost predicate Owns(s: S.Slots, others: map<int, nat>, pool: int, t: T.Tree) {
    && (forall i {:trigger EntryChunks(s[i], others, pool)} :: 0 <= i < |s| ==> EntryChunks(s[i], others, pool))
    && (forall i {:trigger R.EntryBlock(s[i], t)} :: 0 <= i < |s| ==> R.EntryBlock(s[i], t))
    && (forall i, j {:trigger Separate(s[i], s[j])} :: 0 <= i < |s| && 0 <= j < |s| && i != j ==> Separate(s[i], s[j]))
  }

  lemma OwnsRecount(s: S.Slots, i: nat, n: nat, others: map<int, nat>, pool: int, t: T.Tree)
    requires Owns(s, others, pool, t) && i < |s| && s[i].Some?
    ensures Owns(s[i := Some(s[i].value.(simAccess := n))], others, pool, t)
  {
    var s' := s[i := Some(s[i].value.(simAccess := n))];
    forall k | 0 <= k < |s'| ensures EntryChunks(s'[k], others, pool) && R.EntryBlock(s'[k], t) {
      assert EntryChunks(s[k], others, pool) && R.EntryBlock(s[k], t);
    }
    forall k, j | 0 <= k < |s'| && 0 <= j < |s'| && k != j ensures Separate(s'[k], s'[j]) {
      assert Separate(s[k], s[j]);
    }
  }

  /** A new entry with two fresh chunks, and a fresh block or none, joins the table. */
  lemma OwnsInstall(s: S.Slots, i: nat, e: S.Entry, others: map<int, nat>, pool: int, t: T.Tree, u: T.Tree)
    requires Owns(s, others, pool, t) && i < |s| && pool in others
    requires e.addr !in others && e.nameAddr !in others && e.addr != e.nameAddr
    requires forall a :: R.HasBlock(t, a) ==> R.HasBlock(u, a)
    requires e.start != 0 ==> R.HasBlock(u, e.start) && !R.HasBlock(t, e.start)
    ensures Owns(s[i := Some(e)], others[e.addr := SHARED_SIZE][e.nameAddr := |e.name| + 1], pool, u)
  {
    var s', others' := s[i := Some(e)], others[e.addr := SHARED_SIZE][e.nameAddr := |e.name| + 1];
    forall k | 0 <= k < |s'| ensures EntryChunks(s'[k], others', pool) && R.EntryBlock(s'[k], u) {
      assert EntryChunks(s[k], others, pool) && R.EntryBlock(s[k], t);
    }
    forall k, j | 0 <= k < |s'| && 0 <= j < |s'| && k != j ensures Separate(s'[k], s'[j]) {
      assert Separate(s[k], s[j]) && EntryChunks(s[k], others, pool) && EntryChunks(s[j], others, pool);
      assert R.EntryBlock(s[k], t) && R.EntryBlock(s[j], t);
    }
  }

  /** A removed entry gives up its two chunks and its block; everyone else keeps theirs. */
  lemma OwnsRemove(s: S.Slots, i: nat, others: map<int, nat>, pool: int, t: T.Tree, u: T.Tree)
    requires Owns(s, others, pool, t) && i < |s| && s[i].Some?
    requires forall a :: R.HasBlock(t, a) && a != s[i].value.start ==> R.HasBlock(u, a)
    ensures Owns(s[i := None], others - {s[i].value.nameAddr} - {s[i].value.addr}, pool, u)
  {
    var s', others' := s[i := None], others - {s[i].value.nameAddr} - {s[i].value.addr};
    forall k | 0 <= k < |s'| ensures EntryChunks(s'[k], others', pool) && R.EntryBlock(s'[k], u) {
      assert EntryChunks(s[k], others, pool) && R.EntryBlock(s[k], t);
      if k != i && s[k].Some? {
        assert Separate(s[k], s[i]);
        var e, f := s[k].value, s[i].value;
        assert e.addr !in {f.addr, f.nameAddr} && e.nameAddr !in {f.addr, f.nameAddr};
      }
    }
    forall k, j | 0 <= k < |s'| && 0 <= j < |s'| && k != j ensures Separate(s'[k], s'[j]) {
      assert Separate(s[k], s[j]);
    }
  }

  /** Freeing an entry's block finds it and leaves every other entry its own. */
  lemma ReleaseBlock(s: S.Slots, i: nat, others: map<int, nat>, pool: int, t: T.Tree, poolSize: nat)
    requires Owns(s, others, pool, t) && i < |s| && s[i].Some? && Sound(t, poolSize)
    ensures var e := s[i].value;
            && EntryChunks(s[i], others, pool)
            && (e.start != 0 ==> e.start >= MEM_START && T.Free(t, e.start - MEM_START).1)
            && Owns(s[i := None], others - {e.nameAddr} - {e.addr}, pool,
                 if e.start == 0 then t else T.Free(t, e.start - MEM_START).0)
  {
    var e := s[i].value;
    assert EntryChunks(s[i], others, pool) && R.EntryBlock(s[i], t);
    if e.start != 0 {
      R.FreeOwn(t, poolSize, e.start);
      OwnsRemove(s, i, others, pool, t, T.Free(t, e.start - MEM_START).0);
    } else {
      OwnsRemove(s, i, others, pool, t, t);
    }
  }

  lemma {:induction false} SearchStops(s: S.Slots, j: nat, n: nat, name: string)
    requires j <= n <= |s| && S.Search(s, j, name).1
    ensures S.Search(s, n, name) == S.Search(s, j, name)
    decreases n - j
  {
    if j < n { SearchStops(s, j, n - 1, name); }
  }

  /** The start of an entry is the address of the block that the tree grants. */
  lemma BlockIsStart(t: T.Tree, size: uint64, s: seq<L.Chunk>)
    requires s != [] && !BlockOutcome(t, size, s).Crashed?
    ensures EntryOf(BlockOutcome(t, size, s), "", 0, 0).start == R.StartOf(t, size)
  {
  }

  lemma InstallKeepsShape(t: S.Table, pos: nat, e: S.Entry, equals: bool)
    requires S.Shaped(t) && t.current != S.MAX_SHBLOCKS && (Some(pos), equals) == S.Search(t.slots, t.current, e.name)
    ensures S.Shaped(S.Install(t, pos, e, equals))
  {
    if equals {
      S.SlotUpdateShape(t, pos, Some(e));
    } else {
      S.LiveCountFull(t.slots, t.current);
      S.GetKeepsShape(t, e.name, e, t.current - 1);
    }
  }

  class Shared {
    const mem: Memory
    var current: nat
    const mems: array<Option<S.Entry>>

    ghost predicate Valid()
      reads this, mem, mem.heap, mem.heap.Repr, mem.head, mem.head.Repr, mems
    {
      Owned() && S.Shaped(Table())
    }

    ghost predicate Owned()
      reads this, mem, mem.heap, mem.heap.Repr, mem.head, mem.head.Repr, mems
    {
      && mem.Valid() && Outside({this, mems})
      && Owns(mems[..], mem.Others(), mem.pool, mem.head.tree)
    }

    /** The table's own objects are no part of the allocators. */
    ghost predicate Outside(objs: set<object>)
      reads mem, mem.heap, mem.head
    {
      objs !! {mem} + mem.heap.Repr + mem.head.Repr
    }

    ghost function Table(): S.Table
      reads this, mems
    {
      S.Table(current, mems[..])
    }

    constructor (mem: Memory)
      requires mem.Valid()
      ensures Valid() && this.mem == mem && fresh(mems) && Table() == S.EMPTY
    {
      this.mem, current, mems := mem, 1, new Option<S.Entry>[S.MAX_SHBLOCKS](_ => None);
      new;
      S.EmptyShaped();
      assert mems[..] == S.EMPTY.slots;
    }

    method Shmat(id: nat) returns (start: nat)
      requires Valid()
      modifies mems
      ensures Valid() && (Table(), start) == S.At(old(Table()), id)
    {
      if id == 0 {
        return 0;
      }
      var k := id - 1;
      if k >= current || mems[k] == None {
        return 0;
      }
      var e := mems[k].value;
      Recount(k, (e.simAccess + 1) % TWO_64);
      return mems[k].value.start;
    }

    method Recount(k: nat, n: nat)
      requires Valid() && k < mems.Length && mems[k].Some?
      modifies mems
      ensures Valid() && mems[..] == old(mems[..])[k := Some(old(mems[k]).value.(simAccess := n))]
    {
      ghost var s := mems[..];
      S.SlotUpdateShape(Table(), k, Some(mems[k].value.(simAccess := n)));
      OwnsRecount(s, k, n, mem.Others(), mem.pool, mem.head.tree);
      mems[k] := Some(mems[k].value.(simAccess := n));
      assert mems[..] == s[k := mems[k]];
    }

    /** 0 and the entry's block and chunks given back on the last detach; -1 otherwise. */
    method Shmdetach(address: nat) returns (r: int)
      requires Valid()
      modifies mems, mem.heap.Repr, mem.head.Repr
      ensures Valid() && mem.heap == old(mem.heap) && mem.head == old(mem.head) && current == old(current)
      ensures mem.head.Repr <= old(mem.head.Repr) && mem.heap.Repr == old(mem.heap.Repr)
      ensures var (s, gone) := S.Detach(old(mems[..]), 0, current, address);
              && mems[..] == s && r == (if gone.Some? then 0 else -1)
              && (gone.Some? ==> Released(old(mems[..])[gone.value].value, old(mem.Others()), old(mem.head.tree)))
              && (gone.None? ==> mem.Others() == old(mem.Others()) && mem.head.tree == old(mem.head.tree))
              && (gone.None? ==> mem.heap.chunks == old(mem.heap.chunks))
    {
      var last := CountDown(address);
      if last.Some? {
        Release(last.value);
        return 0;
      }
      return -1;
    }

    /** The loop of shmdetach, up to the entry whose count has reached its last attach. */
    method CountDown(address: nat) returns (last: Option<nat>)
      requires Valid()
      modifies mems
      ensures Valid()
      ensures last.None? ==> S.Detach(old(mems[..]), 0, current, address) == (mems[..], None)
      ensures last.Some? ==>
        && last.value < current && mems[last.value] == old(mems[last.value]) && mems[last.value].Some?
        && S.Detach(old(mems[..]), 0, current, address) == (mems[..][last.value := None], last)
    {
      ghost var r := S.Detach(mems[..], 0, current, address);
      var j := 0;
      while j < current
        invariant 0 <= j <= current && Valid()
        invariant S.Detach(mems[..], j, current, address) == r
        invariant forall k :: j <= k < mems.Length ==> mems[k] == old(mems[k])
      {
        if mems[j].Some? && mems[j].value.start == address {
          var left := (mems[j].value.simAccess + TWO_64 - 1) % TWO_64;
          if left == 0 {
            return Some(j);
          }
          Recount(j, left);
        }
        j := j + 1;
      }
      return None;
    }

    /** Exactly the entry's two chunks and its block went back. */
    ghost predicate Released(e: S.Entry, others: map<int, nat>, t: T.Tree)
      reads mem, mem.heap, mem.head
    {
      && mem.Others() == others - {e.nameAddr} - {e.addr}
      && if e.start == 0 then mem.head.tree == t
         else e.start >= MEM_START && T.Free(t, e.start - MEM_START) == (mem.head.tree, true)
    }

    method Release(j: nat)
      requires Valid() && j < current && mems[j].Some?
      modifies mems, mem.heap.Repr, mem.head.Repr
      ensures Valid() && mem.heap == old(mem.heap) && mem.head == old(mem.head) && current == old(current)
      ensures mem.head.Repr <= old(mem.head.Repr) && mem.heap.Repr == old(mem.heap.Repr)
      ensures mems[..] == old(mems[..])[j := None]
      ensures Released(old(mems[j]).value, old(mem.Others()), old(mem.head.tree))
    {
      ghost var s, others, t := mems[..], mem.Others(), mem.head.tree;
      var e := mems[j].value;
      S.SlotUpdateShape(Table(), j, None);
      ReleaseBlock(s, j, others, mem.pool, t, mem.poolSize);
      GiveBack(e);
      mems[j] := None;
      assert mems[..] == s[j := None];
    }

    method GiveBack(e: S.Entry)
      requires mem.Valid() && EntryChunks(Some(e), mem.Others(), mem.pool)
      requires mems !in mem.heap.Repr && mems !in mem.head.Repr
      requires e.start != 0 ==> e.start >= MEM_START && T.Free(mem.head.tree, e.start - MEM_START).1
      modifies mem.heap.Repr, mem.head.Repr
      ensures mem.Valid() && mem.heap == old(mem.heap) && mem.head == old(mem.head)
      ensures mem.head.Repr <= old(mem.head.Repr) && mem.heap.Repr == old(mem.heap.Repr)
      ensures Released(e, old(mem.Others()), old(mem.head.tree))
    {
      FreeBlock(e.start);
      FreeChunks(e.nameAddr, e.addr);
    }

    method FreeBlock(start: nat)
      requires mem.Valid()
      modifies mem.heap.Repr, mem.head.Repr
      ensures mem.Valid() && mem.heap == old(mem.heap) && mem.head == old(mem.head)
      ensures mem.head.Repr <= old(mem.head.Repr) && mem.heap.Repr == old(mem.heap.Repr)
      ensures mem.Others() == old(mem.Others()) && mem.head.tree == R.Freed(old(mem.head.tree), start)
    {
      var r := mem.FreeMemblock(start);
    }

    method FreeChunks(a: int, b: int)
      requires mem.Valid() && a in mem.Others() && b in mem.Others() && a != b && mem.pool != a && mem.pool != b
      modifies mem.heap.Repr
      ensures mem.Valid() && mem.heap.Repr == old(mem.heap.Repr) && mem.head.tree == old(mem.head.tree)
      ensures mem.Others() == old(mem.Others()) - {a} - {b}
    {
      mem.Kfree(a);
      mem.Kfree(b);
    }

    /** The loop over the table: the slot of that name, else the last null slot. */
    method FindSlot(name: string) returns (pos: Option<nat>, equals: bool)
      requires Valid()
      ensures (pos, equals) == S.Search(mems[..], current, name)
    {
      pos, equals := None, false;
      var j := 0;
      while j < current
        invariant 0 <= j <= current && !equals && (pos, equals) == S.Search(mems[..], j, name)
      {
        if mems[j] == None {
          pos := Some(j);
        } else if mems[j].value.name == name {
          SearchStops(mems[..], j + 1, current, name);
          return Some(j), true;
        }
        j := j + 1;
      }
    }

    ghost predicate Holds(s: S.Slots, t: T.Tree, chunks: seq<L.Chunk>)
      reads mem, mem.heap, mem.head, mems
    {
      mems[..] == s && mem.head.tree == t && mem.heap.chunks == chunks
    }

    /** Builds the entry of slot pos: struct, name, block. */
    method Fill(pos: nat, name: string, size: uint64) returns (r: IdResult)
      requires Valid() && pos < mems.Length
      modifies mems, mem.heap.Repr, mem.head.Repr
      ensures r.Id? ==>
        && Owned() && mem.heap == old(mem.heap) && mem.head == old(mem.head)
        && fresh(mem.head.Repr - old(mem.head.Repr)) && fresh(mem.heap.Repr - old(mem.heap.Repr))
      ensures match Build(old(mem.head.tree), old(mem.heap.chunks), name, size)
              case NoRoom =>
                && r == Id(-1) && mem.Others() == old(mem.Others())
                && Holds(old(mems[..]), old(mem.head.tree), old(mem.heap.chunks))
              case Lost => r == NoAnswer
              case Made(e, t, s) =>
                && r == Id(pos + 1) && Holds(old(mems[..])[pos := Some(e)], t, s)
                && mem.Others() == old(mem.Others())[e.addr := SHARED_SIZE][e.nameAddr := |name| + 1]
    {
      r := Id(-1);
      var aux := mem.Kmalloc(SHARED_SIZE);
      if aux != None {
        r := FillNamed(pos, name, size, aux.value, old(mem.Others()));
      }
    }

    /** The rest of Fill, once the chunk for the struct is there. */
    method FillNamed(pos: nat, name: string, size: uint64, addr: int, ghost others: map<int, nat>) returns (r: IdResult)
      requires mem.Valid() && Outside({this, mems}) && pos < mems.Length
      requires Owns(mems[..], others, mem.pool, mem.head.tree) && mem.pool in others
      requires addr !in others && mem.Others() == others[addr := SHARED_SIZE]
      modifies mems, mem.heap.Repr, mem.head.Repr
      ensures r.Id? ==>
        && Owned() && mem.heap == old(mem.heap) && mem.head == old(mem.head)
        && fresh(mem.head.Repr - old(mem.head.Repr)) && fresh(mem.heap.Repr - old(mem.heap.Repr))
      ensures match BuildNamed(old(mem.head.tree), old(mem.heap.chunks), addr, name, size)
              case Lost => r == NoAnswer
              case Made(e, t, s) =>
                && r == Id(pos + 1) && Holds(old(mems[..])[pos := Some(e)], t, s)
                && mem.Others() == others[addr := SHARED_SIZE][e.nameAddr := |name| + 1]
    {
      r := NoAnswer;
      var nameAddr := mem.Kmalloc(|name| + 1);
      if nameAddr != None {
        r := FillSlot(pos, name, size, addr, nameAddr.value, others);
      }
    }

    /** The rest, once the chunks for struct and name are there. */
    method FillSlot(pos: nat, name: string, size: uint64, addr: int, nameAddr: int, ghost others: map<int, nat>)
      returns (r: IdResult)
      requires mem.Valid() && Outside({this, mems}) && pos < mems.Length
      requires Owns(mems[..], others, mem.pool, mem.head.tree) && mem.pool in others
      requires addr !in others && nameAddr !in others && addr != nameAddr
      requires mem.Others() == others[addr := SHARED_SIZE][nameAddr := |name| + 1]
      modifies mems, mem.heap.Repr, mem.head.Repr
      ensures r ==
        if BlockOutcome(old(mem.head.tree), size, old(mem.heap.chunks)).Crashed? then NoAnswer else Id(pos + 1)
      ensures r.Id? ==>
        && Owned() && mem.heap == old(mem.heap) && mem.head == old(mem.head)
        && fresh(mem.head.Repr - old(mem.head.Repr)) && fresh(mem.heap.Repr - old(mem.heap.Repr))
        && mem.Others() == old(mem.Others())
      ensures r.Id? ==>
        var b := BlockOutcome(old(mem.head.tree), size, old(mem.heap.chunks));
        Holds(old(mems[..])[pos := Some(EntryOf(b, name, addr, nameAddr))],
          B.TreeAfter(old(mem.head.tree), PagedSize(size)),
          B.ChunksAfter(old(mem.head.tree), PagedSize(size), old(mem.heap.chunks), MEMORY_END))
    {
      r := NoAnswer;
      ghost var s, t := mems[..], mem.head.tree;
      var block := mem.GetMemblock(size);
      if !block.Crashed? {
        var entry := EntryOf(block, name, addr, nameAddr);
        mems[pos] := Some(entry);
        r := Id(pos + 1);
        assert mems[..] == s[pos := Some(entry)];
        BlockIsStart(t, size, old(mem.heap.chunks));
        R.StartIsNew(t, mem.poolSize, size);
        OwnsInstall(s, pos, entry, others, mem.pool, t, mem.head.tree);
      }
    }

    /**
    The id of the block, or -1. An existing name keeps its entry unless overwrite is set; then the
    old entry is dropped without being freed.
    */
    method Shmget(name: Option<string>, size: uint64, overwrite: bool) returns (r: IdResult)
      requires Valid()
      modifies this, mems, mem.heap.Repr, mem.head.Repr
      ensures r.Id? ==> Valid() && mem.heap == old(mem.heap) && mem.head == old(mem.head)
      ensures r.Id? ==> fresh(mem.head.Repr - old(mem.head.Repr)) && fresh(mem.heap.Repr - old(mem.heap.Repr))
      ensures var reply := Shmgets(old(Table()), old(mem.head.tree), old(mem.heap.chunks), name, size, overwrite);
              r == reply.r && (r.Id? ==> Reply(r, Table(), mem.head.tree, mem.heap.chunks) == reply)
    {
      r := Id(-1);
      if current != S.MAX_SHBLOCKS && name.Some? {
        var pos, equals := FindSlot(name.value);
        if pos.Some? {
          r := Place(pos.value, equals, name.value, size, overwrite);
        }
      }
    }

    /** The rest of shmget, once the position is known. */
    method Place(pos: nat, equals: bool, name: string, size: uint64, overwrite: bool) returns (r: IdResult)
      requires Valid() && current != S.MAX_SHBLOCKS && (Some(pos), equals) == S.Search(mems[..], current, name)
      modifies this, mems, mem.heap.Repr, mem.head.Repr
      ensures r.Id? ==> Valid() && mem.heap == old(mem.heap) && mem.head == old(mem.head)
      ensures r.Id? ==> fresh(mem.head.Repr - old(mem.head.Repr)) && fresh(mem.heap.Repr - old(mem.heap.Repr))
      ensures var reply := Shmgets(old(Table()), old(mem.head.tree), old(mem.heap.chunks), Some(name), size, overwrite);
              r == reply.r && (r.Id? ==> Reply(r, Table(), mem.head.tree, mem.heap.chunks) == reply)
    {
      ShmgetPlaces(Table(), mem.head.tree, mem.heap.chunks, pos, equals, name, size, overwrite);
      if overwrite || !equals {
        r := PlaceNew(pos, equals, name, size);
      } else {
        Grow(equals);
        r := Id(pos + 1);
      }
    }

    /** The same for a new entry, at the position of its name or at a null one. */
    method PlaceNew(pos: nat, equals: bool, name: string, size: uint64) returns (r: IdResult)
      requires Valid() && current != S.MAX_SHBLOCKS && (Some(pos), equals) == S.Search(mems[..], current, name)
      modifies this, mems, mem.heap.Repr, mem.head.Repr
      ensures r.Id? ==> Valid() && mem.heap == old(mem.heap) && mem.head == old(mem.head)
      ensures r.Id? ==> fresh(mem.head.Repr - old(mem.head.Repr)) && fresh(mem.heap.Repr - old(mem.heap.Repr))
      ensures var reply := Placed(old(Table()), old(mem.head.tree), old(mem.heap.chunks), pos, equals, name, size);
              r == reply.r && (r.Id? ==> Reply(r, Table(), mem.head.tree, mem.heap.chunks) == reply)
    {
      ghost var t, built := Table(), Build(mem.head.tree, mem.heap.chunks, name, size);
      r := Fill(pos, name, size);
      if r == Id(pos + 1) {
        InstallKeepsShape(t, pos, built.e, equals);
        Grow(equals);
      }
    }

    method Grow(equals: bool)
      requires Owned() && current <= mems.Length
      modifies `current
      ensures Owned()
      ensures current == if !equals && !S.FreeSpace(mems[..], old(current)) then old(current) + 1 else old(current)
    {
      if !equals && !S.FreeSpace(mems[..], current) {
        current := current + 1;
      }
    }
  }
}
