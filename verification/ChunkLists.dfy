/**
The first-fit chunk list of the kernel heap (kmem.c) and of the process heaps (pmem.c), as a
function on sequences of chunks. ChunkHeaps holds the linked list that implements it.

A chunk's payload is [start, start + size) and its in-band header is the H bytes below start.
Chunk 0 is the one the initialiser installs: its payload is the header itself.
*/
module ChunkLists {
  import opened Options

  // sizeof(mem_chunk_t) + sizeof(mem_chunk_list_t) on the 64-bit target: 24 + 16
  const H: nat := 40

  datatype Chunk = Chunk(start: int, size: nat, used: bool) {
    function End(): int { start + size }
  }

  /** The payload of c ends where the header of d begins, or earlier. */
  ghost predicate Before(c: Chunk, d: Chunk) { c.End() + H <= d.start }

  /** Address order, with headers and payloads pairwise disjoint. */
  ghost predicate Ordered(s: seq<Chunk>) {
    forall i, j {:trigger Before(s[i], s[j])} :: 0 <= i < j < |s| ==> Before(s[i], s[j])
  }

  ghost predicate NotBothFree(c: Chunk, d: Chunk) { c.used || d.used }

  /** Full coalescing: no two neighbours are both free. */
  ghost predicate NoFreeNeighbours(s: seq<Chunk>) {
    forall i, j {:trigger NotBothFree(s[i], s[j])} :: 0 <= i < j < |s| && j == i + 1 ==> NotBothFree(s[i], s[j])
  }

  /** The limit check leaves the header out, so payloads may end up to H bytes past the limit. */
  ghost predicate EndsBy(s: seq<Chunk>, bound: int) {
    forall i :: 1 <= i < |s| ==> s[i].End() <= bound
  }

  ghost predicate Inv(s: seq<Chunk>, base: int, limit: int) {
    && |s| > 0 && s[0] == Chunk(base, H, true)
    && Ordered(s) && NoFreeNeighbours(s) && EndsBy(s, limit + H)
  }

  // ----- The two operations -----

  function Fits(c: Chunk, size: nat): bool { !c.used && c.size >= size }

  function FirstFit(s: seq<Chunk>, size: nat): (i: nat)
    ensures i <= |s|
    ensures i < |s| ==> Fits(s[i], size)
    ensures forall k :: 0 <= k < i ==> !Fits(s[k], size)
  {
    if s == [] then 0
    else if Fits(s[0], size) then 0
    else 1 + FirstFit(s[1..], size)
  }

  function Top(s: seq<Chunk>): int
    requires s != []
  {
    s[|s| - 1].End()
  }

  /** A reused chunk shrinks to the request; otherwise a chunk is appended behind the last one. */
  function Malloc(s: seq<Chunk>, limit: int, size: nat): (seq<Chunk>, Option<int>)
    requires s != []
  {
    var i := FirstFit(s, size);
    if i < |s| then (s[i := Chunk(s[i].start, size, true)], Some(s[i].start))
    else if Top(s) + size > limit then (s, None)
    else (s + [Chunk(Top(s) + H, size, true)], Some(Top(s) + H))
  }

  function Abs(n: int): nat { if n > 0 then n else -n }

  /** The chunk that a free of mem stops at: the first whose start is within size of mem. */
  function Owner(s: seq<Chunk>, mem: int): (i: nat)
    ensures i <= |s|
    ensures i < |s| ==> Abs(mem - s[i].start) <= s[i].size
    ensures forall k :: 0 <= k < i ==> Abs(mem - s[k].start) > s[k].size
  {
    if s == [] then 0
    else if Abs(mem - s[0].start) <= s[0].size then 0
    else 1 + Owner(s[1..], mem)
  }

  /** Adds the size of chunk k + 1 to chunk k and drops it; the header between them is lost. */
  function MergeAt(s: seq<Chunk>, k: nat): (r: seq<Chunk>)
    requires k + 1 < |s|
    ensures |r| == |s| - 1 && r[k] == s[k].(size := s[k].size + s[k + 1].size)
    ensures forall j :: 0 <= j < k ==> r[j] == s[j]
    ensures forall j :: k < j < |r| ==> r[j] == s[j + 1]
  {
    s[..k] + [s[k].(size := s[k].size + s[k + 1].size)] + s[k + 2..]
  }

  function MergeNext(s: seq<Chunk>, k: nat): seq<Chunk>
    requires k < |s|
  {
    if k + 1 < |s| && !s[k + 1].used then MergeAt(s, k) else s
  }

  function FreeAt(s: seq<Chunk>, i: nat): seq<Chunk>
    requires i < |s|
  {
    var s1 := s[i := s[i].(used := false)];
    if i > 0 && !s1[i - 1].used then MergeNext(MergeAt(s1, i - 1), i - 1) else MergeNext(s1, i)
  }

  function Free(s: seq<Chunk>, mem: int): seq<Chunk> {
    var i := Owner(s, mem);
    if i < |s| then FreeAt(s, i) else s
  }

  // ----- The abstract heap: live addresses and the sizes they were asked for -----

  ghost function Live(s: seq<Chunk>): map<int, nat> {
    if |s| <= 1 then map[]
    else
      var m := Live(s[..|s| - 1]);
      var c := s[|s| - 1];
      if c.used then m[c.start := c.size] else m
  }

  /** Chunk i of s holds the live region of size n at a. */
  ghost predicate LiveAt(s: seq<Chunk>, i: nat, a: int, n: nat) {
    1 <= i < |s| && s[i] == Chunk(a, n, true)
  }

  lemma {:induction false} LiveIndex(s: seq<Chunk>, a: int) returns (i: nat)
    requires a in Live(s)
    ensures LiveAt(s, i, a, Live(s)[a])
  {
    i := |s| - 1;
    if !(s[i].used && s[i].start == a) {
      i := LiveIndex(s[..|s| - 1], a);
    }
  }

  lemma {:induction false} LiveHas(s: seq<Chunk>, i: nat)
    requires Ordered(s) && 1 <= i < |s| && s[i].used
    ensures s[i].start in Live(s) && Live(s)[s[i].start] == s[i].size
  {
    var n := |s| - 1;
    if i < n {
      assert Before(s[i], s[n]);
      LiveHas(s[..n], i);
    }
  }

  /** A map that lists exactly the used chunks is the live map. */
  lemma LiveIs(s: seq<Chunk>, m: map<int, nat>)
    requires Ordered(s)
    requires forall i :: 1 <= i < |s| && s[i].used ==> s[i].start in m
    requires forall a :: a in m ==> exists i :: LiveAt(s, i, a, m[a])
    ensures Live(s) == m
  {
    forall a | a in m ensures a in Live(s) && Live(s)[a] == m[a] {
      var i :| LiveAt(s, i, a, m[a]);
      LiveHas(s, i);
    }
    forall a | a in Live(s) ensures a in m {
      var i := LiveIndex(s, a);
    }
  }

  // ----- What malloc keeps and returns -----

  lemma AppendOrdered(s: seq<Chunk>, c: Chunk)
    requires s != [] && Ordered(s) && Before(s[|s| - 1], c)
    ensures Ordered(s + [c])
  {
    var t := s + [c];
    forall i, j | 0 <= i < j < |t| ensures Before(t[i], t[j]) {
      if i < |s| - 1 { assert Before(s[i], s[|s| - 1]); }
    }
  }

  /** Replacing a chunk by one that starts at the same place and is no longer keeps the order. */
  lemma ShrinkOrdered(s: seq<Chunk>, i: nat, c: Chunk)
    requires i < |s| && Ordered(s) && c.start == s[i].start && c.size <= s[i].size
    ensures Ordered(s[i := c])
  {
    var t := s[i := c];
    forall k, j | 0 <= k < j < |t| ensures Before(t[k], t[j]) {
      assert Before(s[k], s[j]);
    }
  }

  lemma MallocKeepsInv(s: seq<Chunk>, base: int, limit: int, size: nat)
    requires Inv(s, base, limit)
    ensures Inv(Malloc(s, limit, size).0, base, limit)
  {
    var t := Malloc(s, limit, size).0;
    var i := FirstFit(s, size);
    if i < |s| {
      ShrinkOrdered(s, i, t[i]);
    } else if t != s {
      AppendOrdered(s, t[|s|]);
    }
    forall k, j | 0 <= k < j < |t| && j == k + 1 ensures NotBothFree(t[k], t[j]) {
      if j < |s| { assert NotBothFree(s[k], s[j]); }
    }
  }

  lemma MallocLive(s: seq<Chunk>, base: int, limit: int, size: nat)
    requires Inv(s, base, limit) && Malloc(s, limit, size).1.Some?
    ensures var (t, a) := Malloc(s, limit, size);
            a.value !in Live(s) && Live(t) == Live(s)[a.value := size]
  {
    var (t, r) := Malloc(s, limit, size);
    var a := r.value;
    MallocKeepsInv(s, base, limit, size);
    var i := FirstFit(s, size);
    assert t[i] == Chunk(a, size, true);
    forall k | 1 <= k < |s| && s[k].used ensures s[k].start != a {
      assert k < i ==> Before(t[k], t[i]);
      assert i < k ==> Before(t[i], t[k]);
    }
    if a in Live(s) {
      var k := LiveIndex(s, a);
      assert false;
    }
    var m := Live(s)[a := size];
    forall b | b in m ensures exists k :: LiveAt(t, k, b, m[b]) {
      if b == a {
        assert LiveAt(t, i, b, m[b]);
      } else {
        var k := LiveIndex(s, b);
        assert LiveAt(t, k, b, m[b]);
      }
    }
    forall k | 1 <= k < |t| && t[k].used ensures t[k].start in m {
      if k != i { LiveHas(s, k); }
    }
    LiveIs(t, m);
  }

  // ----- What free keeps and removes -----

  lemma MergeKeeps(s: seq<Chunk>, k: nat, bound: int)
    requires k + 1 < |s| && Ordered(s) && EndsBy(s, bound)
    ensures var t := MergeAt(s, k); Ordered(t) && EndsBy(t, bound)
  {
    var t := MergeAt(s, k);
    assert Before(s[k], s[k + 1]);
    forall i, j | 0 <= i < j < |t| ensures Before(t[i], t[j]) {
      assert Before(s[if i < k then i else if i == k then k + 1 else i + 1], s[if j <= k then j else j + 1]);
    }
    assert s[k + 1].End() <= bound;
  }

  lemma MergeLive(s: seq<Chunk>, k: nat)
    requires k + 1 < |s| && Ordered(s) && !s[k].used && !s[k + 1].used
    requires Ordered(MergeAt(s, k))
    ensures Live(MergeAt(s, k)) == Live(s)
  {
    var t := MergeAt(s, k);
    var m := Live(s);
    forall a | a in m ensures exists j :: LiveAt(t, j, a, m[a]) {
      var j := LiveIndex(s, a);
      if j < k {
        assert LiveAt(t, j, a, m[a]);
      } else {
        assert LiveAt(t, j - 1, a, m[a]);
      }
    }
    forall j | 1 <= j < |t| && t[j].used ensures t[j].start in m {
      if j < k { LiveHas(s, j); } else { LiveHas(s, j + 1); }
    }
    LiveIs(t, m);
  }

  /** The walk of free stops at exactly the chunk that starts at mem. */
  lemma OwnerOfStart(s: seq<Chunk>, i: nat)
    requires Ordered(s) && i < |s|
    ensures Owner(s, s[i].start) == i
  {
    var k := Owner(s, s[i].start);
    assert Abs(s[i].start - s[i].start) <= s[i].size;
    assert k < i ==> Before(s[k], s[i]);
  }

  lemma FreeAtKeepsInv(s: seq<Chunk>, base: int, limit: int, i: nat)
    requires Inv(s, base, limit) && 1 <= i < |s|
    ensures Inv(FreeAt(s, i), base, limit)
  {
    var s1 := s[i := s[i].(used := false)];
    var t := FreeAt(s, i);
    ShrinkOrdered(s, i, s1[i]);
    if !s1[i - 1].used {
      MergeKeeps(s1, i - 1, limit + H);
      var s2 := MergeAt(s1, i - 1);
      if i < |s2| && !s2[i].used { MergeKeeps(s2, i - 1, limit + H); }
    } else if i + 1 < |s1| && !s1[i + 1].used {
      MergeKeeps(s1, i, limit + H);
    }
    FreeAtSeparates(s, i);
  }

  lemma FreeAtSeparates(s: seq<Chunk>, i: nat)
    requires 1 <= i < |s| && s[0].used && NoFreeNeighbours(s)
    ensures NoFreeNeighbours(FreeAt(s, i))
  {
    var t := FreeAt(s, i);
    var d := |s| - |t|;
    forall k, j | 0 <= k < j < |t| && j == k + 1 ensures NotBothFree(t[k], t[j]) {
      assert NotBothFree(s[k], s[j]);
      assert NotBothFree(s[k + d], s[j + d]);
    }
  }

  /** Any pointer may be freed without harm to the list, unless it lies within H bytes of the base. */
  lemma FreeKeepsInv(s: seq<Chunk>, base: int, limit: int, mem: int)
    requires Inv(s, base, limit)
    ensures Inv(Free(s, mem), base, limit) <==> Abs(mem - base) > H
  {
    var i := Owner(s, mem);
    if 1 <= i < |s| {
      FreeAtKeepsInv(s, base, limit, i);
    }
  }

  lemma FreeAtLive(s: seq<Chunk>, base: int, limit: int, i: nat)
    requires Inv(s, base, limit) && 1 <= i < |s| && s[i].used
    ensures Live(FreeAt(s, i)) == Live(s) - {s[i].start}
  {
    var s1 := s[i := s[i].(used := false)];
    ShrinkOrdered(s, i, s1[i]);
    UnuseLive(s, i);
    MergeAround(s1, i, limit + H);
  }

  /** Merging a free chunk with its free neighbours changes no live region. */
  lemma MergeAround(s: seq<Chunk>, i: nat, bound: int)
    requires 1 <= i < |s| && !s[i].used && Ordered(s) && EndsBy(s, bound)
    ensures Live(if !s[i - 1].used then MergeNext(MergeAt(s, i - 1), i - 1) else MergeNext(s, i)) == Live(s)
  {
    if !s[i - 1].used {
      var t := MergeAt(s, i - 1);
      MergeBoth(s, i - 1, bound);
      MergeNextLive(t, i - 1, bound);
    } else {
      MergeNextLive(s, i, bound);
    }
  }

  lemma MergeBoth(s: seq<Chunk>, k: nat, bound: int)
    requires k + 1 < |s| && Ordered(s) && EndsBy(s, bound) && !s[k].used && !s[k + 1].used
    ensures var t := MergeAt(s, k); Ordered(t) && EndsBy(t, bound) && !t[k].used && Live(t) == Live(s)
  {
    MergeKeeps(s, k, bound);
    MergeLive(s, k);
  }

  lemma MergeNextLive(s: seq<Chunk>, k: nat, bound: int)
    requires k < |s| && !s[k].used && Ordered(s) && EndsBy(s, bound)
    ensures Live(MergeNext(s, k)) == Live(s)
  {
    if k + 1 < |s| && !s[k + 1].used { MergeBoth(s, k, bound); }
  }

  lemma UnuseLive(s: seq<Chunk>, i: nat)
    requires Ordered(s) && 1 <= i < |s| && s[i].used && Ordered(s[i := s[i].(used := false)])
    ensures Live(s[i := s[i].(used := false)]) == Live(s) - {s[i].start}
  {
    var t := s[i := s[i].(used := false)];
    var m := Live(s) - {s[i].start};
    forall a | a in m ensures exists j :: LiveAt(t, j, a, m[a]) {
      var j := LiveIndex(s, a);
      assert LiveAt(t, j, a, m[a]);
    }
    forall j | 1 <= j < |t| && t[j].used ensures t[j].start in m {
      LiveHas(s, j);
      assert j < i ==> Before(s[j], s[i]);
      assert i < j ==> Before(s[i], s[j]);
    }
    LiveIs(t, m);
  }

  /** Freeing a live address removes exactly that region. */
  lemma FreeLive(s: seq<Chunk>, base: int, limit: int, mem: int)
    requires Inv(s, base, limit) && mem in Live(s)
    ensures Inv(Free(s, mem), base, limit) && Live(Free(s, mem)) == Live(s) - {mem}
  {
    var i := LiveIndex(s, mem);
    OwnerOfStart(s, i);
    FreeAtKeepsInv(s, base, limit, i);
    FreeAtLive(s, base, limit, i);
  }

  // ----- Free bytes are conserved -----

  function FreeBytes(s: seq<Chunk>): nat {
    if s == [] then 0 else (if s[0].used then 0 else s[0].size) + FreeBytes(s[1..])
  }

  lemma {:induction false} FreeBytesUnuse(s: seq<Chunk>, i: nat)
    requires i < |s| && s[i].used
    ensures FreeBytes(s[i := s[i].(used := false)]) == FreeBytes(s) + s[i].size
  {
    if i > 0 {
      assert s[i := s[i].(used := false)][1..] == s[1..][i - 1 := s[i].(used := false)];
      FreeBytesUnuse(s[1..], i - 1);
    }
  }

  lemma {:induction false} FreeBytesMerge(s: seq<Chunk>, k: nat)
    requires k + 1 < |s| && !s[k].used && !s[k + 1].used
    ensures FreeBytes(MergeAt(s, k)) == FreeBytes(s)
  {
    if k > 0 {
      assert MergeAt(s, k)[1..] == MergeAt(s[1..], k - 1);
      FreeBytesMerge(s[1..], k - 1);
    } else {
      assert MergeAt(s, 0)[1..] == s[1..][1..];
    }
  }

  /** A free makes exactly the freed region's bytes available; merging only drops headers. */
  lemma FreeConserves(s: seq<Chunk>, base: int, limit: int, mem: int)
    requires Inv(s, base, limit) && mem in Live(s)
    ensures FreeBytes(Free(s, mem)) == FreeBytes(s) + Live(s)[mem]
  {
    var i := LiveIndex(s, mem);
    OwnerOfStart(s, i);
    var s1 := s[i := s[i].(used := false)];
    FreeBytesUnuse(s, i);
    if !s1[i - 1].used {
      FreeBytesMerge(s1, i - 1);
      var s2 := MergeAt(s1, i - 1);
      if i < |s2| && !s2[i].used { FreeBytesMerge(s2, i - 1); }
    } else if i + 1 < |s1| && !s1[i + 1].used {
      FreeBytesMerge(s1, i);
    }
  }

  // ----- Where a free leaves its bytes, and what a malloc leaves alone -----

  /** The free chunk next to another one, if there is one. */
  ghost predicate Neighbour(p: seq<Chunk>) { p == [] || (|p| == 1 && !p[0].used) }

  /** p is the free chunk in front of c, q the one behind it, and a and b the rest of the list. */
  ghost predicate Around(a: seq<Chunk>, p: seq<Chunk>, c: Chunk, q: seq<Chunk>, b: seq<Chunk>) {
    && a != [] && Neighbour(p) && Neighbour(q) && c.used
    && (p == [] ==> a[|a| - 1].used) && (q == [] && b != [] ==> b[0].used)
  }

  /** One free chunk from the start of p, or of c, with the bytes of all three. */
  ghost function Joined(p: seq<Chunk>, c: Chunk, q: seq<Chunk>): Chunk
    requires |p| <= 1 && |q| <= 1
  {
    Chunk(if p == [] then c.start else p[0].start,
      (if p == [] then 0 else p[0].size) + c.size + (if q == [] then 0 else q[0].size), false)
  }

  lemma Exchanged(a: seq<Chunk>, c: Chunk, d: Chunk, q: seq<Chunk>, b: seq<Chunk>)
    ensures (a + [c] + q + b)[|a|] == c && (a + [c] + q + b)[|a| := d] == a + [d] + q + b
  {
  }

  lemma FreeAtIs(s: seq<Chunk>, i: nat, s1: seq<Chunk>)
    requires 0 < i < |s| && s1 == s[i := s[i].(used := false)]
    ensures s1[i - 1].used ==> FreeAt(s, i) == MergeNext(s1, i)
  {
  }

  lemma FreeBehindUsed(a: seq<Chunk>, c: Chunk, q: seq<Chunk>, b: seq<Chunk>)
    requires Around(a, [], c, q, b)
    ensures FreeAt(a + [c] + q + b, |a|) == a + [Joined([], c, q)] + b
  {
    var s, d := a + [c] + q + b, c.(used := false);
    var s1 := a + [d] + q + b;
    Exchanged(a, c, d, q, b);
    assert s1[|a| - 1] == a[|a| - 1];
    NextMerges(a, d, q, b);
    FreeAtIs(s, |a|, s1);
  }

  lemma FreeBehindFree(a: seq<Chunk>, p: Chunk, c: Chunk, q: seq<Chunk>, b: seq<Chunk>)
    requires Around(a, [p], c, q, b)
    ensures FreeAt(a + [p] + [c] + q + b, |a| + 1) == a + [Joined([p], c, q)] + b
  {
    var d, m := c.(used := false), Chunk(p.start, p.size + c.size, false);
    var s, s1, s2 := a + [p] + [c] + q + b, a + [p] + [d] + q + b, a + [m] + q + b;
    Exchanged(a + [p], c, d, q, b);
    PreviousMerges(a, p, d, q, b);
    MergedBoth(s, |a|, s1, s2);
    NextMerges(a, m, q, b);
  }

  lemma MergedBoth(s: seq<Chunk>, k: nat, s1: seq<Chunk>, s2: seq<Chunk>)
    requires k + 1 < |s| && s1 == s[k + 1 := s[k + 1].(used := false)] && !s1[k].used && s2 == MergeAt(s1, k)
    ensures FreeAt(s, k + 1) == MergeNext(s2, k)
  {
  }

  /** A free puts one chunk in the place of the freed one and its free neighbours and changes no other. */
  lemma FreeMerges(a: seq<Chunk>, p: seq<Chunk>, c: Chunk, q: seq<Chunk>, b: seq<Chunk>, base: int, limit: int)
    requires Inv(a + p + [c] + q + b, base, limit) && Around(a, p, c, q, b)
    ensures Free(a + p + [c] + q + b, c.start) == a + [Joined(p, c, q)] + b
  {
    var s := a + p + [c] + q + b;
    assert s[|a + p|] == c;
    OwnerOfStart(s, |a + p|);
    if p == [] {
      assert s == a + [c] + q + b;
      FreeBehindUsed(a, c, q, b);
    } else {
      assert p == [p[0]];
      FreeBehindFree(a, p[0], c, q, b);
    }
  }

  lemma PreviousMerges(a: seq<Chunk>, p: Chunk, d: Chunk, q: seq<Chunk>, b: seq<Chunk>)
    requires !p.used && !d.used
    ensures MergeAt(a + [p] + [d] + q + b, |a|) == a + [Chunk(p.start, p.size + d.size, false)] + q + b
    ensures (a + [p] + [d] + q + b)[|a|] == p
  {
  }

  lemma NextMerges(a: seq<Chunk>, d: Chunk, q: seq<Chunk>, b: seq<Chunk>)
    requires !d.used && Neighbour(q) && (q == [] && b != [] ==> b[0].used)
    ensures MergeNext(a + [d] + q + b, |a|) ==
      a + [Chunk(d.start, d.size + if q == [] then 0 else q[0].size, false)] + b
  {
    var s := a + [d] + q + b;
    if q == [] {
      assert s == a + [d] + b;
      if b != [] { assert s[|a| + 1] == b[0]; }
    } else {
      assert s[|a| + 1] == q[0];
    }
  }

  /** Every live pointer has such surroundings. */
  lemma Surroundings(s: seq<Chunk>, base: int, limit: int, mem: int)
    returns (a: seq<Chunk>, p: seq<Chunk>, q: seq<Chunk>, b: seq<Chunk>)
    requires Inv(s, base, limit) && mem in Live(s)
    ensures var c := Chunk(mem, Live(s)[mem], true); s == a + p + [c] + q + b && Around(a, p, c, q, b)
  {
    var i := LiveIndex(s, mem);
    var j := if s[i - 1].used then i else i - 1;
    var k := if i + 1 < |s| && !s[i + 1].used then i + 2 else i + 1;
    a, p, q, b := s[..j], s[j..i], s[i + 1..k], s[k..];
    if j < i { assert NotBothFree(s[j - 1], s[j]); }
    if i + 1 < k < |s| { assert NotBothFree(s[k - 1], s[k]); }
  }

  /** A free of any other pointer is one of the chunk it is nearest to, or changes nothing. */
  lemma FreeAnyPointer(s: seq<Chunk>, base: int, limit: int, mem: int)
    requires Inv(s, base, limit) && Abs(mem - base) > H
    ensures var i := Owner(s, mem);
            if i < |s| && s[i].used then s[i].start in Live(s) && Free(s, mem) == Free(s, s[i].start)
            else Free(s, mem) == s
  {
    var i := Owner(s, mem);
    if i < |s| && s[i].used {
      OwnerOfStart(s, i);
      LiveHas(s, i);
    } else if i < |s| {
      assert NotBothFree(s[i - 1], s[i]);
      assert i + 1 < |s| ==> NotBothFree(s[i], s[i + 1]);
      assert s[i := s[i].(used := false)] == s;
    }
  }

  /** A malloc uses the first chunk that fits from its start on and changes no other. */
  lemma {:induction false} MallocReuses(a: seq<Chunk>, c: Chunk, b: seq<Chunk>, limit: int, size: nat)
    requires Fits(c, size) && forall k :: 0 <= k < |a| ==> !Fits(a[k], size)
    ensures Malloc(a + [c] + b, limit, size) == (a + [Chunk(c.start, size, true)] + b, Some(c.start))
  {
    var s := a + [c] + b;
    var i := FirstFit(s, size);
    assert s[|a|] == c && forall k :: 0 <= k < |a| ==> s[k] == a[k];
    assert s[i := Chunk(c.start, size, true)] == a + [Chunk(c.start, size, true)] + b;
  }

  /** With no chunk that fits it adds one a header behind the last, or refuses, and changes none. */
  lemma MallocGrows(s: seq<Chunk>, limit: int, size: nat)
    requires s != [] && forall k :: 0 <= k < |s| ==> !Fits(s[k], size)
    ensures var last := s[|s| - 1];
            Malloc(s, limit, size) ==
              if last.start + last.size + size > limit then (s, None)
              else (s + [Chunk(last.start + last.size + H, size, true)], Some(last.start + last.size + H))
  {
  }

  /** What was freed is given out again from where it began, up to all of its bytes. */
  lemma FreedIsReused(a: seq<Chunk>, p: seq<Chunk>, c: Chunk, q: seq<Chunk>, b: seq<Chunk>, base: int, limit: int,
                      size: nat)
    requires Inv(a + p + [c] + q + b, base, limit) && Around(a, p, c, q, b)
    requires size <= Joined(p, c, q).size && forall k :: 0 <= k < |a| ==> !Fits(a[k], size)
    ensures Malloc(Free(a + p + [c] + q + b, c.start), limit, size) ==
            (a + [Chunk(Joined(p, c, q).start, size, true)] + b, Some(Joined(p, c, q).start))
  {
    FreeMerges(a, p, c, q, b, base, limit);
    MallocReuses(a, Joined(p, c, q), b, limit, size);
  }

  // ----- When malloc fails, and when the missing header in its limit check shows -----

  lemma MallocFailsIff(s: seq<Chunk>, limit: int, size: nat)
    requires s != []
    ensures Malloc(s, limit, size).1.None? <==>
            (forall i :: 0 <= i < |s| ==> !Fits(s[i], size)) && Top(s) + size > limit
    ensures Malloc(s, limit, size).1.None? ==> Malloc(s, limit, size).0 == s
  {
  }

  /** A reused chunk is the one at the lowest address among those that fit; nothing fits a grown list. */
  lemma MallocTakesLowest(s: seq<Chunk>, base: int, limit: int, size: nat)
    requires Inv(s, base, limit) && Malloc(s, limit, size).1.Some?
    ensures var (t, a) := Malloc(s, limit, size);
            && (forall k :: 0 <= k < |s| && Fits(s[k], size) ==> a.value <= s[k].start)
            && if |t| == |s| then exists k :: 0 <= k < |s| && Fits(s[k], size) && s[k].start == a.value
               else a.value == Top(s) + H && forall k :: 0 <= k < |s| ==> !Fits(s[k], size)
  {
    var i := FirstFit(s, size);
    forall k | 0 <= k < |s| && Fits(s[k], size) ensures i <= k && s[i].start <= s[k].start {
      assert i < k ==> Before(s[i], s[k]);
    }
    assert i < |s| ==> Fits(s[i], size);
  }

  /** The payload stays inside the limit unless it is appended with less than a header to spare. */
  lemma MallocWithinLimitIff(s: seq<Chunk>, base: int, limit: int, size: nat)
    requires Inv(s, base, limit) && EndsBy(s, limit)
    ensures EndsBy(Malloc(s, limit, size).0, limit) <==>
            (exists i :: 0 <= i < |s| && Fits(s[i], size))
            || !(limit - H < Top(s) + size <= limit)
  {
    var t := Malloc(s, limit, size).0;
    var i := FirstFit(s, size);
    if i < |s| {
      assert Fits(s[i], size);
    } else if t != s {
      assert t[|s|].End() == Top(s) + H + size;
    }
  }

  // ----- Runs -----

  datatype Op = OpMalloc(size: nat) | OpFree(mem: int)

  /** The list, next to the map from address to requested size that its clients keep. */
  datatype World = World(chunks: seq<Chunk>, live: map<int, nat>)

  ghost predicate Agrees(w: World, base: int, limit: int) {
    Inv(w.chunks, base, limit) && Live(w.chunks) == w.live
  }

  ghost function Step(w: World, limit: int, op: Op): World
    requires w.chunks != []
  {
    match op
    case OpMalloc(size) =>
      var (t, a) := Malloc(w.chunks, limit, size);
      World(t, if a.Some? then w.live[a.value := size] else w.live)
    case OpFree(mem) =>
      World(Free(w.chunks, mem), w.live - {mem})
  }

  ghost predicate LegalOp(w: World, op: Op) { op.OpFree? ==> op.mem in w.live }

  ghost predicate LegalRun(w: World, limit: int, ops: seq<Op>)
    decreases |ops|
  {
    ops == [] || (w.chunks != [] && LegalOp(w, ops[0]) && LegalRun(Step(w, limit, ops[0]), limit, ops[1..]))
  }

  ghost function Run(w: World, limit: int, ops: seq<Op>): World
    requires LegalRun(w, limit, ops)
    decreases |ops|
  {
    if ops == [] then w else Run(Step(w, limit, ops[0]), limit, ops[1..])
  }

  /** What init leaves: the header chunk alone. */
  ghost function Initial(base: int): World { World([Chunk(base, H, true)], map[]) }

  lemma StepAgrees(w: World, base: int, limit: int, op: Op)
    requires Agrees(w, base, limit) && LegalOp(w, op)
    ensures Agrees(Step(w, limit, op), base, limit)
  {
    match op
    case OpMalloc(size) =>
      MallocKeepsInv(w.chunks, base, limit, size);
      if Malloc(w.chunks, limit, size).1.Some? { MallocLive(w.chunks, base, limit, size); }
    case OpFree(mem) =>
      FreeLive(w.chunks, base, limit, mem);
  }

  /** Every run that frees only live addresses refines the map from address to requested size. */
  lemma {:induction false} RunAgrees(w: World, base: int, limit: int, ops: seq<Op>)
    requires Agrees(w, base, limit) && LegalRun(w, limit, ops)
    ensures Agrees(Run(w, limit, ops), base, limit)
    decreases |ops|
  {
    if ops != [] {
      StepAgrees(w, base, limit, ops[0]);
      RunAgrees(Step(w, limit, ops[0]), base, limit, ops[1..]);
    }
  }

  /** Live regions with their headers are pairwise disjoint, above the base chunk and bounded. */
  lemma LiveDisjoint(s: seq<Chunk>, base: int, limit: int, a: int, b: int)
    requires Inv(s, base, limit) && a in Live(s) && b in Live(s) && a < b
    ensures base + H <= a - H && a + Live(s)[a] <= b - H && b + Live(s)[b] <= limit + H
  {
    var i := LiveIndex(s, a);
    var j := LiveIndex(s, b);
    assert i < j ==> Before(s[i], s[j]);
    assert j < i ==> Before(s[j], s[i]);
    assert Before(s[0], s[i]);
  }

  lemma LiveBounds(s: seq<Chunk>, base: int, limit: int, a: int)
    requires Inv(s, base, limit) && a in Live(s)
    ensures base + 2 * H <= a && a + Live(s)[a] <= limit + H
  {
    var i := LiveIndex(s, a);
    assert Before(s[0], s[i]);
  }

  // ----- A measure that every successful malloc lowers -----

  ghost function FreeCount(s: seq<Chunk>): nat {
    if s == [] then 0 else (if s[0].used then 0 else 1) + FreeCount(s[1..])
  }

  lemma {:induction false} FreeCountAppend(s: seq<Chunk>, c: Chunk)
    ensures FreeCount(s + [c]) == FreeCount(s) + if c.used then 0 else 1
  {
    if s == [] {
      assert s + [c] == [c];
    } else {
      assert (s + [c])[1..] == s[1..] + [c];
      FreeCountAppend(s[1..], c);
    }
  }

  lemma {:induction false} FreeCountUse(s: seq<Chunk>, i: nat, c: Chunk)
    requires i < |s| && !s[i].used && c.used
    ensures FreeCount(s[i := c]) < FreeCount(s)
  {
    if i > 0 {
      assert s[i := c][1..] == s[1..][i - 1 := c];
      FreeCountUse(s[1..], i - 1, c);
    }
  }

  /** A success takes a free chunk, or adds a chunk above a top that was below the limit. */
  lemma MallocUsesUp(s: seq<Chunk>, limit: int, size: nat)
    requires s != [] && Malloc(s, limit, size).1.Some?
    ensures var t := Malloc(s, limit, size).0;
            || (FreeCount(t) < FreeCount(s) && |t| == |s|)
            || (FreeCount(t) == FreeCount(s) && |t| == |s| + 1 && Top(s) < Top(t) && Top(s) <= limit)
  {
    var t := Malloc(s, limit, size).0;
    var i := FirstFit(s, size);
    if i < |s| {
      FreeCountUse(s, i, t[i]);
    } else {
      FreeCountAppend(s, t[|s|]);
    }
  }

  // ----- Several allocations in a row -----

  /** Whether a request for each of the sizes, in turn, succeeds. */
  predicate ServesAll(s: seq<Chunk>, limit: int, sizes: seq<nat>)
    requires s != []
    decreases |sizes|
  {
    sizes == [] ||
    (Malloc(s, limit, sizes[0]).1.Some? && ServesAll(Malloc(s, limit, sizes[0]).0, limit, sizes[1..]))
  }

  /** No list serves more requests than it has free chunks and room for further headers. */
  lemma {:induction false} MallocsRunOut(s: seq<Chunk>, base: int, limit: int, sizes: seq<nat>)
    requires Inv(s, base, limit) && ServesAll(s, limit, sizes)
    ensures |s| + |sizes| <= FreeCount(s) + 1 + if limit > base then (limit - base) / H else 0
    decreases |sizes|
  {
    if sizes == [] {
      LengthBound(s, base, limit);
    } else {
      var t := Malloc(s, limit, sizes[0]).0;
      MallocKeepsInv(s, base, limit, sizes[0]);
      MallocUsesUp(s, limit, sizes[0]);
      MallocsRunOut(t, base, limit, sizes[1..]);
    }
  }

  /** Every chunk but the first takes room for a header below the limit. */
  lemma LengthBound(s: seq<Chunk>, base: int, limit: int)
    requires Inv(s, base, limit)
    ensures |s| <= FreeCount(s) + 1 + if limit > base then (limit - base) / H else 0
  {
    if |s| > 1 {
      StartBound(s, base, limit, |s| - 1);
    }
  }

  lemma {:induction false} StartBound(s: seq<Chunk>, base: int, limit: int, i: nat)
    requires Inv(s, base, limit) && 1 <= i < |s|
    ensures base + (i + 1) * H <= s[i].start
  {
    assert Before(s[i - 1], s[i]);
    if i > 1 {
      StartBound(s, base, limit, i - 1);
    }
  }

  /** Whether n requests of one size in a row succeed. */
  predicate Serves(s: seq<Chunk>, limit: int, size: nat, n: nat)
    requires s != []
    decreases n
  {
    n == 0 || (Malloc(s, limit, size).1.Some? && Serves(Malloc(s, limit, size).0, limit, size, n - 1))
  }

  /** The list after n requests of one size in a row. */
  function Grab(s: seq<Chunk>, limit: int, size: nat, n: nat): (t: seq<Chunk>)
    requires s != []
    ensures t != []
    decreases n
  {
    if n == 0 then s else Grab(Malloc(s, limit, size).0, limit, size, n - 1)
  }

  /** The requests can be split into those made first and those made later. */
  lemma {:induction false} ServesSplit(s: seq<Chunk>, limit: int, size: nat, k: nat, n: nat)
    requires s != []
    ensures Serves(s, limit, size, k + n) <==>
            Serves(s, limit, size, k) && Serves(Grab(s, limit, size, k), limit, size, n)
    ensures Grab(s, limit, size, k + n) == Grab(Grab(s, limit, size, k), limit, size, n)
    decreases k
  {
    if k > 0 { ServesSplit(Malloc(s, limit, size).0, limit, size, k - 1, n); }
  }
}
