/**
The buddy tree (buddy.c) as a value, and what its two operations mean for the set of allocated
blocks. BuddyNodes holds the mutable tree that implements it.

A block is a pair (index, size). Halving rounds down, so an odd-sized node loses its last byte.
*/
module BuddyTrees {
  import opened Options

  datatype Tree =
    | Leaf(idx: nat, size: nat, taken: bool)
    | Split(idx: nat, size: nat, left: Tree, right: Tree)

  type Block = (nat, nat)

  /** The tree covers [i, i + s) by repeated halving. */
  ghost predicate Wf(t: Tree, i: nat, s: nat) {
    t.idx == i && t.size == s > 0 && (t.Split? ==> Wf(t.left, i, s / 2) && Wf(t.right, i + s / 2, s / 2))
  }

  predicate IsFree(t: Tree) { t.Leaf? && !t.taken }

  /** No node is split into two free halves. */
  ghost predicate Coalesced(t: Tree) {
    t.Split? ==> !(IsFree(t.left) && IsFree(t.right)) && Coalesced(t.left) && Coalesced(t.right)
  }

  ghost function Blocks(t: Tree): set<Block> {
    match t
    case Leaf(i, s, taken) => if taken then {(i, s)} else {}
    case Split(_, _, l, r) => Blocks(l) + Blocks(r)
  }

  function NodeCount(t: Tree): nat {
    match t
    case Leaf(_, _, _) => 1
    case Split(_, _, l, r) => 1 + NodeCount(l) + NodeCount(r)
  }

  // ----- The two operations -----

  /** Splits a free node of s bytes down its left spine until a half would be too small. */
  function Carve(i: nat, s: nat, size: nat): Tree
    requires 0 < size <= s
  {
    if s / 2 >= size then Split(i, s, Carve(i, s / 2, size), Leaf(i + s / 2, s / 2, false))
    else Leaf(i, s, true)
  }

  function Alloc(t: Tree, size: nat): (Tree, Option<nat>)
    requires size > 0
  {
    match t
    case Split(i, s, l, r) =>
      var (l', found) := Alloc(l, size);
      if found.Some? then (Split(i, s, l', r), found)
      else
        var (r', found') := Alloc(r, size);
        (Split(i, s, l, r'), found')
    case Leaf(i, s, taken) =>
      if taken || s < size then (t, None) else (Carve(i, s, size), Some(i))
  }

  function Join(i: nat, s: nat, l: Tree, r: Tree): Tree {
    if IsFree(l) && IsFree(r) then Leaf(i, s, false) else Split(i, s, l, r)
  }

  /** Both halves are searched, and every split passed on the way up is merged when it can be. */
  function Free(t: Tree, idx: nat): (Tree, bool) {
    match t
    case Split(i, s, l, r) =>
      var (l', foundLeft) := Free(l, idx);
      var (r', foundRight) := Free(r, idx);
      (Join(i, s, l', r'), foundLeft || foundRight)
    case Leaf(i, s, taken) =>
      if i == idx && taken then (Leaf(i, s, false), true) else (t, false)
  }

  // ----- Blocks lie inside their node and apart from each other -----

  ghost predicate Inside(b: Block, i: nat, s: nat) { i <= b.0 && b.0 + b.1 <= i + s && b.1 > 0 }

  ghost predicate Apart(b: Block, c: Block) { b.0 + b.1 <= c.0 || c.0 + c.1 <= b.0 }

  lemma {:induction false} BlocksInside(t: Tree, i: nat, s: nat, b: Block)
    requires Wf(t, i, s) && b in Blocks(t)
    ensures Inside(b, i, s) && (t.Split? ==> b.1 <= s / 2)
  {
    if t.Split? {
      if b in Blocks(t.left) { BlocksInside(t.left, i, s / 2, b); }
      else { BlocksInside(t.right, i + s / 2, s / 2, b); }
    }
  }

  lemma {:induction false} BlocksApart(t: Tree, i: nat, s: nat, b: Block, c: Block)
    requires Wf(t, i, s) && b in Blocks(t) && c in Blocks(t) && b != c
    ensures Apart(b, c)
  {
    if t.Split? {
      if b in Blocks(t.left) && c in Blocks(t.left) { BlocksApart(t.left, i, s / 2, b, c); }
      else if b in Blocks(t.right) && c in Blocks(t.right) { BlocksApart(t.right, i + s / 2, s / 2, b, c); }
      else if b in Blocks(t.left) {
        BlocksInside(t.left, i, s / 2, b);
        BlocksInside(t.right, i + s / 2, s / 2, c);
      } else {
        BlocksInside(t.left, i, s / 2, c);
        BlocksInside(t.right, i + s / 2, s / 2, b);
      }
    }
  }

  // ----- Canonical form: a coalesced tree is determined by its root and its blocks -----

  lemma {:induction false} NoBlocksMeansFree(t: Tree)
    requires Coalesced(t) && Blocks(t) == {}
    ensures IsFree(t)
  {
    if t.Split? {
      assert Blocks(t.left) == {} && Blocks(t.right) == {};
      NoBlocksMeansFree(t.left);
      NoBlocksMeansFree(t.right);
    }
  }

  ghost predicate HasBlockFrom(blocks: set<Block>, i: nat, s: nat) {
    exists b :: b in blocks && i <= b.0 < i + s
  }

  /** The tree over [i, i + s) that a set of blocks calls for, built without any history. */
  ghost function Canonical(i: nat, s: nat, blocks: set<Block>): Tree
    decreases s
  {
    if (i, s) in blocks then Leaf(i, s, true)
    else if s <= 1 || !HasBlockFrom(blocks, i, s) then Leaf(i, s, false)
    else Split(i, s, Canonical(i, s / 2, blocks), Canonical(i + s / 2, s / 2, blocks))
  }

  lemma {:induction false} CoalescedIsCanonical(t: Tree, i: nat, s: nat, blocks: set<Block>)
    requires Wf(t, i, s) && Coalesced(t)
    requires forall b :: b in blocks && i <= b.0 < i + s ==> b in Blocks(t)
    requires Blocks(t) <= blocks
    ensures t == Canonical(i, s, blocks)
  {
    match t
    case Leaf(_, _, taken) =>
      if !taken { assert !HasBlockFrom(blocks, i, s); }
    case Split(_, _, l, r) =>
      if (i, s) in blocks { BlocksInside(t, i, s, (i, s)); assert false; }
      if Blocks(t) == {} { NoBlocksMeansFree(t); assert false; }
      var b :| b in Blocks(t);
      BlocksInside(t, i, s, b);
      assert HasBlockFrom(blocks, i, s);
      forall c | c in blocks && i <= c.0 < i + s / 2 ensures c in Blocks(l) {
        if c in Blocks(r) { BlocksInside(r, i + s / 2, s / 2, c); }
      }
      forall c | c in blocks && i + s / 2 <= c.0 < i + s / 2 + s / 2 ensures c in Blocks(r) {
        if c in Blocks(l) { BlocksInside(l, i, s / 2, c); }
      }
      CoalescedIsCanonical(l, i, s / 2, blocks);
      CoalescedIsCanonical(r, i + s / 2, s / 2, blocks);
  }

  lemma SameBlocksSameTree(t: Tree, u: Tree, i: nat, s: nat)
    requires Wf(t, i, s) && Coalesced(t) && Wf(u, i, s) && Coalesced(u)
    requires Blocks(t) == Blocks(u)
    ensures t == u
  {
    CoalescedIsCanonical(t, i, s, Blocks(t));
    CoalescedIsCanonical(u, i, s, Blocks(t));
  }

  // ----- What alloc does to the set of blocks -----

  lemma {:induction false} CarveEffect(i: nat, s: nat, size: nat) returns (b: Block)
    requires 0 < size <= s
    ensures var t := Carve(i, s, size); Wf(t, i, s) && Coalesced(t) && !IsFree(t) && Blocks(t) == {b}
    ensures b.0 == i && size <= b.1 < 2 * size && b.1 <= s
  {
    if s / 2 >= size {
      b := CarveEffect(i, s / 2, size);
    } else {
      b := (i, s);
    }
  }

  /** A grant adds one block, of the requested size rounded up by less than a factor of two. */
  lemma {:induction false} AllocEffect(t: Tree, i: nat, s: nat, size: nat) returns (b: Block)
    requires Wf(t, i, s) && Coalesced(t) && size > 0 && Alloc(t, size).1.Some?
    ensures var (u, r) := Alloc(t, size);
            && Wf(u, i, s) && Coalesced(u) && !IsFree(u)
            && Blocks(u) == Blocks(t) + {b} && b !in Blocks(t) && r == Some(b.0)
    ensures size <= b.1 < 2 * size && Inside(b, i, s)
  {
    match t
    case Leaf(_, _, _) =>
      b := CarveEffect(i, s, size);
    case Split(_, _, l, r) =>
      if Alloc(l, size).1.Some? {
        b := AllocEffect(l, i, s / 2, size);
        if b in Blocks(r) { BlocksInside(r, i + s / 2, s / 2, b); }
      } else {
        AllocFailsClean(l, size);
        b := AllocEffect(r, i + s / 2, s / 2, size);
        if b in Blocks(l) { BlocksInside(l, i, s / 2, b); }
      }
  }

  lemma {:induction false} AllocFailsClean(t: Tree, size: nat)
    requires size > 0 && Alloc(t, size).1.None?
    ensures Alloc(t, size).0 == t
  {
    if t.Split? {
      AllocFailsClean(t.left, size);
      AllocFailsClean(t.right, size);
    }
  }

  lemma AllocKeeps(t: Tree, i: nat, s: nat, size: nat)
    requires Wf(t, i, s) && Coalesced(t) && size > 0
    ensures Wf(Alloc(t, size).0, i, s) && Coalesced(Alloc(t, size).0)
  {
    if Alloc(t, size).1.Some? {
      var b := AllocEffect(t, i, s, size);
    } else {
      AllocFailsClean(t, size);
    }
  }

  // ----- What free does to the set of blocks -----

  ghost function Without(blocks: set<Block>, idx: nat): set<Block> { set b | b in blocks && b.0 != idx }

  lemma {:induction false} FreeEffect(t: Tree, i: nat, s: nat, idx: nat)
    requires Wf(t, i, s) && Coalesced(t)
    ensures var (u, found) := Free(t, idx);
            && Wf(u, i, s) && Coalesced(u)
            && Blocks(u) == Without(Blocks(t), idx)
            && (found <==> Blocks(u) != Blocks(t))
  {
    if t.Split? {
      FreeEffect(t.left, i, s / 2, idx);
      FreeEffect(t.right, i + s / 2, s / 2, idx);
      var (l, foundLeft) := Free(t.left, idx);
      var (r, foundRight) := Free(t.right, idx);
      assert Without(Blocks(t), idx) == Blocks(l) + Blocks(r);
      forall b | b in Blocks(t) && b.0 == idx ensures b !in Blocks(l) && b !in Blocks(r) {}
    } else if t.taken {
      assert (t.idx, t.size) in Blocks(t);
    }
  }

  // ----- History independence -----

  /** Frees commute because the blocks they leave are the same. */
  lemma {:induction false} FreesCommute(t: Tree, i: nat, s: nat, a: nat, b: nat)
    requires Wf(t, i, s) && Coalesced(t)
    ensures Free(Free(t, a).0, b).0 == Free(Free(t, b).0, a).0
  {
    FreeEffect(t, i, s, a);
    FreeEffect(t, i, s, b);
    FreeEffect(Free(t, a).0, i, s, b);
    FreeEffect(Free(t, b).0, i, s, a);
    SameBlocksSameTree(Free(Free(t, a).0, b).0, Free(Free(t, b).0, a).0, i, s);
  }

  /** A free right after a successful alloc restores the exact tree. */
  lemma FreeUndoesAlloc(t: Tree, i: nat, s: nat, size: nat)
    requires Wf(t, i, s) && Coalesced(t) && size > 0 && Alloc(t, size).1.Some?
    ensures Free(Alloc(t, size).0, Alloc(t, size).1.value) == (t, true)
  {
    var b := AllocEffect(t, i, s, size);
    var u := Alloc(t, size).0;
    FreeEffect(u, i, s, b.0);
    forall c | c in Blocks(t) ensures c.0 != b.0 {
      BlocksApart(u, i, s, b, c);
      BlocksInside(u, i, s, c);
    }
    assert Blocks(Free(u, b.0).0) == Blocks(t);
    SameBlocksSameTree(Free(u, b.0).0, t, i, s);
  }

  ghost function FreeAll(t: Tree, idxs: seq<nat>): Tree
    decreases |idxs|
  {
    if idxs == [] then t else FreeAll(Free(t, idxs[0]).0, idxs[1..])
  }

  /** Freeing every block, in any order and with any repetition, leaves the single free root. */
  lemma {:induction false} FreeAllGivesRoot(t: Tree, i: nat, s: nat, idxs: seq<nat>)
    requires Wf(t, i, s) && Coalesced(t) && forall b :: b in Blocks(t) ==> b.0 in idxs
    ensures FreeAll(t, idxs) == Leaf(i, s, false)
    decreases |idxs|
  {
    if idxs == [] {
      forall b | b in Blocks(t) ensures false {}
      assert Blocks(t) == {};
      NoBlocksMeansFree(t);
    } else {
      FreeEffect(t, i, s, idxs[0]);
      FreeAllGivesRoot(Free(t, idxs[0]).0, i, s, idxs[1..]);
    }
  }

  datatype Op = OpAlloc(size: nat) | OpFree(idx: nat)

  ghost predicate LegalOps(ops: seq<Op>) {
    forall k :: 0 <= k < |ops| && ops[k].OpAlloc? ==> ops[k].size > 0
  }

  ghost function Run(t: Tree, ops: seq<Op>): Tree
    requires LegalOps(ops)
    decreases |ops|
  {
    if ops == [] then t
    else
      var u := match ops[0] case OpAlloc(size) => Alloc(t, size).0 case OpFree(idx) => Free(t, idx).0;
      Run(u, ops[1..])
  }

  lemma {:induction false} RunKeeps(t: Tree, i: nat, s: nat, ops: seq<Op>)
    requires Wf(t, i, s) && Coalesced(t) && LegalOps(ops)
    ensures Wf(Run(t, ops), i, s) && Coalesced(Run(t, ops))
    decreases |ops|
  {
    if ops != [] {
      match ops[0] {
        case OpAlloc(size) =>
          AllocKeeps(t, i, s, size);
          RunKeeps(Alloc(t, size).0, i, s, ops[1..]);
        case OpFree(idx) =>
          FreeEffect(t, i, s, idx);
          RunKeeps(Free(t, idx).0, i, s, ops[1..]);
      }
    }
  }

  /** Two runs from the initial pool that leave the same blocks allocated leave the same tree. */
  lemma HistoryIndependent(s: nat, ops: seq<Op>, ops': seq<Op>)
    requires s > 0 && LegalOps(ops) && LegalOps(ops')
    ensures var root := Leaf(0, s, false);
            Blocks(Run(root, ops)) == Blocks(Run(root, ops')) ==> Run(root, ops) == Run(root, ops')
  {
    var root := Leaf(0, s, false);
    RunKeeps(root, 0, s, ops);
    RunKeeps(root, 0, s, ops');
    if Blocks(Run(root, ops)) == Blocks(Run(root, ops')) {
      SameBlocksSameTree(Run(root, ops), Run(root, ops'), 0, s);
    }
  }

  // ----- Which leaf alloc takes, and when it fails -----

  ghost function FreeLeaves(t: Tree): seq<Block> {
    match t
    case Leaf(i, s, taken) => if taken then [] else [(i, s)]
    case Split(_, _, l, r) => FreeLeaves(l) + FreeLeaves(r)
  }

  ghost function FirstOfSize(leaves: seq<Block>, size: nat): Option<nat> {
    if leaves == [] then None
    else if leaves[0].1 >= size then Some(leaves[0].0)
    else FirstOfSize(leaves[1..], size)
  }

  lemma {:induction false} FirstOfSizeConcat(a: seq<Block>, b: seq<Block>, size: nat)
    ensures FirstOfSize(a + b, size) ==
      if FirstOfSize(a, size).Some? then FirstOfSize(a, size) else FirstOfSize(b, size)
  {
    if a == [] {
      assert a + b == b;
    } else {
      assert (a + b)[1..] == a[1..] + b;
      FirstOfSizeConcat(a[1..], b, size);
    }
  }

  /** Alloc takes the leftmost free leaf that is large enough. */
  lemma {:induction false} AllocTakesLeftmost(t: Tree, size: nat)
    requires size > 0
    ensures Alloc(t, size).1 == FirstOfSize(FreeLeaves(t), size)
  {
    if t.Split? {
      AllocTakesLeftmost(t.left, size);
      AllocTakesLeftmost(t.right, size);
      FirstOfSizeConcat(FreeLeaves(t.left), FreeLeaves(t.right), size);
    }
  }

  /** Block p is one that repeated halving of [i, i + s) can produce. */
  ghost predicate Aligned(p: Block, i: nat, s: nat)
    decreases s
  {
    s > 0 && (p == (i, s) || Aligned(p, i, s / 2) || Aligned(p, i + s / 2, s / 2))
  }

  lemma {:induction false} AlignedInside(p: Block, i: nat, s: nat)
    requires Aligned(p, i, s)
    ensures Inside(p, i, s)
    decreases s
  {
    if p != (i, s) {
      if Aligned(p, i, s / 2) { AlignedInside(p, i, s / 2); }
      else { AlignedInside(p, i + s / 2, s / 2); }
    }
  }

  ghost predicate Unoccupied(t: Tree, p: Block) {
    forall b :: b in Blocks(t) ==> Apart(b, p)
  }

  lemma {:induction false} AllocFindsRoom(t: Tree, i: nat, s: nat, size: nat, p: Block)
    requires Wf(t, i, s) && Coalesced(t) && size > 0
    requires Aligned(p, i, s) && p.1 >= size && Unoccupied(t, p)
    ensures Alloc(t, size).1.Some?
  {
    AlignedInside(p, i, s);
    assert !Apart((i, s), p);
    if t.Leaf? {
    } else if p == (i, s) {
      if b :| b in Blocks(t) { BlocksInside(t, i, s, b); assert false; }
      NoBlocksMeansFree(t);
    } else if Aligned(p, i, s / 2) {
      AllocFindsRoom(t.left, i, s / 2, size, p);
    } else {
      AllocFindsRoom(t.right, i + s / 2, s / 2, size, p);
    }
  }

  lemma {:induction false} GrantIsAligned(t: Tree, i: nat, s: nat, size: nat) returns (p: Block)
    requires Wf(t, i, s) && size > 0 && Alloc(t, size).1.Some?
    ensures Aligned(p, i, s) && p.1 >= size && Unoccupied(t, p)
  {
    if t.Leaf? {
      p := (i, s);
    } else if Alloc(t.left, size).1.Some? {
      p := GrantIsAligned(t.left, i, s / 2, size);
      AlignedInside(p, i, s / 2);
      forall b | b in Blocks(t.right) ensures Apart(b, p) { BlocksInside(t.right, i + s / 2, s / 2, b); }
    } else {
      p := GrantIsAligned(t.right, i + s / 2, s / 2, size);
      AlignedInside(p, i + s / 2, s / 2);
      forall b | b in Blocks(t.left) ensures Apart(b, p) { BlocksInside(t.left, i, s / 2, b); }
    }
  }

  /** Alloc fails, leaving the tree alone, exactly when no aligned block of the size is unoccupied. */
  lemma AllocFailsIffNoRoom(t: Tree, i: nat, s: nat, size: nat)
    requires Wf(t, i, s) && Coalesced(t) && size > 0
    ensures Alloc(t, size).1.None? <==>
            !exists p: Block :: Aligned(p, i, s) && p.1 >= size && Unoccupied(t, p)
    ensures Alloc(t, size).1.None? ==> Alloc(t, size).0 == t
  {
    if Alloc(t, size).1.None? {
      AllocFailsClean(t, size);
      forall p: Block | Aligned(p, i, s) && p.1 >= size && Unoccupied(t, p) ensures false {
        AllocFindsRoom(t, i, s, size, p);
      }
    } else {
      var p := GrantIsAligned(t, i, s, size);
    }
  }

  // ----- How many new nodes a request takes -----

  /** Two for every split down the left spine of a leaf of s bytes. */
  function CarveNodes(s: nat, size: nat): nat
    requires size > 0
  {
    if s / 2 >= size then 2 + CarveNodes(s / 2, size) else 0
  }

  function NodesNeeded(t: Tree, size: nat): (n: nat)
    requires size > 0
    ensures Alloc(t, size).1.None? ==> n == 0
  {
    match t
    case Split(_, _, l, r) => if Alloc(l, size).1.Some? then NodesNeeded(l, size) else NodesNeeded(r, size)
    case Leaf(_, s, taken) => if taken || s < size then 0 else CarveNodes(s, size)
  }

  lemma {:induction false} CarveCount(i: nat, s: nat, size: nat)
    requires 0 < size <= s
    ensures NodeCount(Carve(i, s, size)) == 1 + CarveNodes(s, size)
  {
    if s / 2 >= size { CarveCount(i, s / 2, size); }
  }

  /** A request takes exactly as many nodes as the tree gains. */
  lemma {:induction false} NodesNeededIsGrowth(t: Tree, size: nat)
    requires size > 0
    ensures NodeCount(Alloc(t, size).0) == NodeCount(t) + NodesNeeded(t, size)
  {
    match t
    case Split(_, _, l, r) =>
      NodesNeededIsGrowth(l, size);
      NodesNeededIsGrowth(r, size);
      if Alloc(l, size).1.None? { AllocFailsClean(l, size); }
    case Leaf(i, s, taken) =>
      if !taken && s >= size { CarveCount(i, s, size); }
  }
}
