/**
The image that the ModulePacker tool writes (Toolchain/ModulePacker/main.c) and the kernel's module
loader reads (moduleLoader.c): the kernel, a count, and each module behind its size.
*/
module ModulePacking {
  import opened Options
  import opened Bytes
  import opened Streams
  import opened Memcpy
  import opened Words

  const BUFFER_SIZE: nat := 128

  type Blob = seq<byte>

  // ----- 32-bit integers, lowest byte first -----

  function ToWord(n: nat): (r: Blob)
    requires n < TWO_32
    ensures |r| == 4
  {
    [n % 256, n / 256 % 256, n / 65536 % 256, n / 16777216]
  }

  function FromWord(b: Blob): nat
    requires |b| == 4
  {
    var b0: int, b1: int, b2: int, b3: int := b[0], b[1], b[2], b[3];
    b0 + 256 * b1 + 65536 * b2 + 16777216 * b3
  }

  lemma WordRoundTrip(n: nat)
    requires n < TWO_32
    ensures FromWord(ToWord(n)) == n
  {
    var a, b := n / 256, n / 65536;
    assert n == 256 * a + n % 256;
    assert a == 256 * (a / 256) + a % 256 && a / 256 == b;
    assert b == 256 * (b / 256) + b % 256 && b / 256 == n / 16777216;
  }

  /** The number that four bytes are, lowest first, and the bytes of a number. */
  lemma WordIsBytes(b: Blob, n: nat)
    requires |b| == 4 && n < TWO_32
    ensures FromWord(b) == FromBytes(b)
    ensures ToWord(n) == ToBytes(n, 4)
  {
    var b0: nat, b1: nat, b2: nat, b3: nat := b[0], b[1], b[2], b[3];
    assert b[1..][1..] == b[2..] && b[2..][1..] == b[3..] && b[3..][1..] == [];
    assert FromBytes(b[3..]) == b3 && FromBytes(b[2..]) == b2 + 256 * b3;
    assert FromBytes(b[1..]) == b1 + 256 * (b2 + 256 * b3);
    var d := n / 256;
    assert ToBytes(n, 4) == [n % 256] + ToBytes(d, 3) && ToBytes(d, 3) == [d % 256] + ToBytes(d / 256, 2);
    assert d / 256 == n / 65536 && n / 65536 / 256 == n / 16777216 && n / 16777216 < 256;
    assert ToBytes(d / 256, 2) == [d / 256 % 256] + ToBytes(d / 256 / 256, 1);
    assert ToBytes(d / 256 / 256, 1) == [d / 256 / 256 % 256];
  }

  // ----- The format -----

  /** The size is written as 32 bits, whatever the file's real size. */
  function PackModules(ms: seq<Blob>): Blob {
    if ms == [] then [] else ToWord(|ms[0]| % TWO_32) + ms[0] + PackModules(ms[1..])
  }

  function Image(files: seq<Blob>): Blob
    requires 0 < |files| <= TWO_32
  {
    files[0] + ToWord(|files| - 1) + PackModules(files[1..])
  }

  // ----- What a reader of the format finds in memory -----

  /** Where record i begins behind the count. */
  function Offset(ms: seq<Blob>, i: nat): nat
    requires i <= |ms|
  {
    if i == 0 then 0 else Offset(ms, i - 1) + 4 + |ms[i - 1]|
  }

  lemma {:induction false} OffsetGrows(ms: seq<Blob>, i: nat, j: nat)
    requires i <= j <= |ms|
    ensures Offset(ms, i) <= Offset(ms, j)
    decreases j
  {
    if i < j { OffsetGrows(ms, i, j - 1); }
  }

  /** Memory m holds at c the size of b, then b. */
  ghost predicate Record(m: seq<byte>, c: nat, b: Blob) {
    c + 4 + |b| <= |m| && FromWord(m[c..c + 4]) == |b| && m[c + 4..c + 4 + |b|] == b
  }

  ghost predicate RecordOf(m: seq<byte>, p: nat, ms: seq<Blob>, i: nat)
    requires i < |ms|
  {
    Record(m, p + 4 + Offset(ms, i), ms[i])
  }

  function PayloadEnd(p: nat, ms: seq<Blob>): nat { p + 4 + Offset(ms, |ms|) }

  /** Memory m holds at p the count of ms and their records one behind the other. */
  ghost predicate Payload(m: seq<byte>, p: nat, ms: seq<Blob>) {
    && PayloadEnd(p, ms) <= |m| && FromWord(m[p..p + 4]) == |ms|
    && forall i: nat {:trigger RecordOf(m, p, ms, i)} :: i < |ms| ==> RecordOf(m, p, ms, i)
  }

  ghost predicate SmallModules(ms: seq<Blob>) { forall m :: m in ms ==> |m| < TWO_32 }

  // ----- The packer -----

  method WriteBytes(target: FileStream, b: Blob)
    requires target.pos == |target.data|
    modifies target
    ensures target.data == old(target.data) + b && target.pos == |target.data|
  {
    target.Write(b);
  }

  method WriteFile(target: FileStream, source: FileStream)
    requires target != source && target.pos == |target.data| && source.pos == 0 && !source.eof
    modifies target, source
    ensures target.data == old(target.data) + source.data && target.pos == |target.data|
    ensures source.data == old(source.data)
  {
    while !source.eof
      invariant source.data == old(source.data) && source.pos <= |source.data|
      invariant target.pos == |target.data| && target.data == old(target.data) + source.data[..source.pos]
      invariant source.eof ==> source.pos == |source.data|
      decreases |source.data| - source.pos, !source.eof
    {
      ghost var p := source.pos;
      var buffer := source.Read(BUFFER_SIZE);
      assert source.data[..p] + buffer == source.data[..source.pos];
      WriteBytes(target, buffer);
    }
  }

  method AppendModule(target: FileStream, m: Blob)
    requires target.pos == |target.data|
    modifies target
    ensures target.data == old(target.data) + (ToWord(|m| % TWO_32) + m) && target.pos == |target.data|
  {
    var source := new FileStream(m);
    WriteBytes(target, ToWord(|m| % TWO_32));
    WriteFile(target, source);
  }

  /** writable is whether the target file can be created. */
  method BuildImage(files: seq<Blob>, writable: bool) returns (image: Option<Blob>)
    requires 0 < |files| <= TWO_32
    ensures image == if writable then Some(Image(files)) else None
  {
    if !writable {
      return None;
    }
    var target := new FileStream([]);
    var source := new FileStream(files[0]);
    WriteFile(target, source);
    var extraBinaries := |files| - 1;
    WriteBytes(target, ToWord(extraBinaries));
    ghost var head := target.data;
    assert files[1..1] == [];
    for i := 1 to |files|
      invariant target.pos == |target.data| && target.data == head + PackModules(files[1..i])
      invariant fresh(target)
    {
      PackAppend(files[1..i], files[i]);
      SliceAppend(files, 1, i);
      AppendModule(target, files[i]);
    }
    assert files[1..|files|] == files[1..];
    assert target.data == Image(files);
    return Some(target.data);
  }

  lemma SliceAppend(s: seq<Blob>, i: nat, j: nat)
    requires i <= j < |s|
    ensures s[i..j + 1] == s[i..j] + [s[j]]
  {
  }

  lemma {:induction false} PackAppend(ms: seq<Blob>, m: Blob)
    ensures PackModules(ms + [m]) == PackModules(ms) + (ToWord(|m| % TWO_32) + m)
  {
    if ms == [] {
      assert [m][1..] == [];
    } else {
      assert (ms + [m])[1..] == ms[1..] + [m];
      PackAppend(ms[1..], m);
    }
  }

  // ----- The loader -----

  /** Every module has a target of its own in memory, away from the payload [p, end) and the others. */
  ghost predicate Placed(ms: seq<Blob>, targets: seq<nat>, p: nat, end: nat, size: nat)
    requires p <= end
  {
    && |ms| <= |targets|
    && (forall i {:trigger Spot(targets[i], |ms[i]|, p, end, size)} :: 0 <= i < |ms| ==>
          Spot(targets[i], |ms[i]|, p, end, size))
    && (forall i, j {:trigger Disjoint(targets[i], |ms[i]|, targets[j], |ms[j]|)} :: 0 <= i < j < |ms| ==>
          Disjoint(targets[i], |ms[i]|, targets[j], |ms[j]|))
  }

  ghost predicate Spot(target: nat, n: nat, p: nat, end: nat, size: nat)
    requires p <= end
  {
    target + n <= size && Disjoint(target, n, p, end - p)
  }

  ghost predicate InTarget(ms: seq<Blob>, targets: seq<nat>, x: nat)
    requires |ms| <= |targets|
  {
    exists i :: 0 <= i < |ms| && targets[i] <= x < targets[i] + |ms[i]|
  }

  /** The modules are at their targets and the rest of memory is as before. */
  ghost predicate Loaded(ms: seq<Blob>, targets: seq<nat>, before: seq<byte>, after: seq<byte>)
    requires |ms| <= |targets|
  {
    && |after| == |before|
    && (forall i {:trigger LoadedAt(ms[i], targets[i], after)} :: 0 <= i < |ms| ==> LoadedAt(ms[i], targets[i], after))
    && (forall x {:trigger InTarget(ms, targets, x)} :: 0 <= x < |after| && !InTarget(ms, targets, x) ==>
          after[x] == before[x])
  }

  ghost predicate LoadedAt(m: Blob, target: nat, after: seq<byte>) {
    target + |m| <= |after| && after[target..target + |m|] == m
  }

  method ReadUint32(mem: array<byte>, address: nat) returns (r: nat, next: nat)
    requires address + 4 <= mem.Length
    ensures r == FromWord(mem[address..address + 4]) && next == address + 4
  {
    r, next := FromWord(mem[address..address + 4]), address + 4;
  }

  // ----- What loading does to memory, wherever the targets lie -----

  /** Record and target at these places lie in memory, for the size that is read there. */
  predicate InMemory(m: seq<byte>, p: nat, target: nat) {
    p + 4 <= |m| && var size := FromWord(m[p..p + 4]); p + 4 + size <= |m| && target + size <= |m|
  }

  function LoadOne(m: seq<byte>, p: nat, target: nat): seq<byte>
    requires InMemory(m, p, target)
  {
    Forward(m, target, p + 4, FromWord(m[p..p + 4]))
  }

  /** The module arrives as it was unless its target lies inside it above its start. */
  lemma LoadOneMoves(m: seq<byte>, p: nat, target: nat)
    requires InMemory(m, p, target) && !Clobbers(target, p + 4, FromWord(m[p..p + 4]))
    ensures LoadOne(m, p, target) == Moved(m, target, p + 4, FromWord(m[p..p + 4]))
  {
    ForwardMoves(m, target, p + 4, FromWord(m[p..p + 4]));
  }

  /** The modules from i on: each is read from the memory that the ones before have left. */
  function LoadFrom(m: seq<byte>, p: nat, targets: seq<nat>, i: nat, n: nat): Option<seq<byte>>
    requires i <= n <= |targets|
    decreases n - i
  {
    if i == n then Some(m)
    else if !InMemory(m, p, targets[i]) then None
    else LoadFrom(LoadOne(m, p, targets[i]), p + 4 + FromWord(m[p..p + 4]), targets, i + 1, n)
  }

  /** The whole payload at p; None when loading leaves memory or there are not enough targets. */
  function LoadAll(m: seq<byte>, p: nat, targets: seq<nat>): Option<seq<byte>> {
    if p + 4 > |m| || FromWord(m[p..p + 4]) > |targets| then None
    else LoadFrom(m, p + 4, targets, 0, FromWord(m[p..p + 4]))
  }

  /** A module that lands on the next record gives that one its size. */
  lemma NextSizeIsWritten(m: seq<byte>, p: nat, targets: seq<nat>)
    requires |targets| >= 2 && InMemory(m, p, targets[0]) && FromWord(m[p..p + 4]) >= 4
    requires targets[0] == p + 4 + FromWord(m[p..p + 4])
    ensures var next, m1 := targets[0], LoadOne(m, p, targets[0]);
            && next + 4 <= |m1| && m1[next..next + 4] == m[p + 4..p + 8]
            && LoadFrom(m, p, targets, 0, 2) == LastLoad(m1, next, targets[1])
  {
    LandsThere(m, p, targets[0]);
    OneMore(m, p, targets, 0, 2);
    OneMore(LoadOne(m, p, targets[0]), targets[0], targets, 1, 2);
  }

  /** Loading the last module. */
  function LastLoad(m: seq<byte>, p: nat, target: nat): Option<seq<byte>> {
    if InMemory(m, p, target) then Some(LoadOne(m, p, target)) else None
  }

  lemma LandsThere(m: seq<byte>, p: nat, target: nat)
    requires InMemory(m, p, target) && FromWord(m[p..p + 4]) >= 4 && target == p + 4 + FromWord(m[p..p + 4])
    ensures var m1 := LoadOne(m, p, target); target + 4 <= |m1| && m1[target..target + 4] == m[p + 4..p + 8]
  {
    LoadOneMoves(m, p, target);
  }

  lemma OneMore(m: seq<byte>, p: nat, targets: seq<nat>, i: nat, n: nat)
    requires i < n <= |targets|
    ensures !InMemory(m, p, targets[i]) ==> LoadFrom(m, p, targets, i, n) == None
    ensures InMemory(m, p, targets[i]) ==>
      LoadFrom(m, p, targets, i, n) ==
      LoadFrom(LoadOne(m, p, targets[i]), p + 4 + FromWord(m[p..p + 4]), targets, i + 1, n)
  {
  }

  method LoadModule(mem: array<byte>, p: nat, target: nat) returns (next: nat)
    requires InMemory(mem[..], p, target)
    modifies mem
    ensures mem[..] == LoadOne(old(mem[..]), p, target) && next == p + 4 + FromWord(old(mem[..])[p..p + 4])
  {
    assert mem[p..p + 4] == mem[..][p..p + 4];
    var size, start := ReadUint32(mem, p);
    Memcpy.Copy(mem, target, start, size);
    next := start + size;
  }

  // ----- With every target apart from the payload and the others -----

  /** Loading one more module at its target keeps the earlier ones where they are. */
  lemma LoadedNext(ms: seq<Blob>, targets: seq<nat>, p: nat, end: nat, i: nat, m0: seq<byte>, m: seq<byte>, src: nat)
    requires p <= end && Placed(ms, targets, p, end, |m0|) && i < |ms| && Loaded(ms[..i], targets, m0, m)
    requires Spot(targets[i], |ms[i]|, p, end, |m0|)
    requires src + |ms[i]| <= |m| && m[src..src + |ms[i]|] == ms[i]
    ensures Loaded(ms[..i + 1], targets, m0, Moved(m, targets[i], src, |ms[i]|))
  {
    var after := Moved(m, targets[i], src, |ms[i]|);
    var us, vs := ms[..i], ms[..i + 1];
    assert Spot(targets[i], |ms[i]|, p, end, |m0|);
    forall k | 0 <= k < |vs| ensures LoadedAt(vs[k], targets[k], after) {
      if k < i {
        assert vs[k] == us[k] == ms[k] && LoadedAt(us[k], targets[k], m);
        assert Disjoint(targets[k], |ms[k]|, targets[i], |ms[i]|);
        assert after[targets[k]..targets[k] + |ms[k]|] == m[targets[k]..targets[k] + |ms[k]|];
      } else {
        assert after[targets[i]..targets[i] + |ms[i]|] == ms[i];
      }
    }
    forall x | 0 <= x < |after| && !InTarget(vs, targets, x) ensures after[x] == m0[x] {
      assert vs[i] == ms[i];
      InTargetGrows(ms, targets, i, x);
    }
  }

  lemma InTargetGrows(ms: seq<Blob>, targets: seq<nat>, i: nat, x: nat)
    requires i < |ms| <= |targets|
    ensures InTarget(ms[..i], targets, x) ==> InTarget(ms[..i + 1], targets, x)
  {
  }

  lemma TargetOutsidePayload(ms: seq<Blob>, targets: seq<nat>, p: nat, end: nat, size: nat, i: nat, x: nat)
    requires p <= end && Placed(ms, targets, p, end, size) && i <= |ms| && InTarget(ms[..i], targets, x)
    ensures !(p <= x < end)
  {
    var k :| 0 <= k < i && targets[k] <= x < targets[k] + |ms[..i][k]|;
    assert Spot(targets[k], |ms[k]|, p, end, size);
  }

  /** The payload bytes are nobody's target. */
  lemma PayloadKept(ms: seq<Blob>, targets: seq<nat>, p: nat, end: nat, i: nat, m0: seq<byte>, m: seq<byte>)
    requires p <= end <= |m0| && Placed(ms, targets, p, end, |m0|) && i <= |ms| && Loaded(ms[..i], targets, m0, m)
    ensures m[p..end] == m0[p..end]
  {
    forall x | p <= x < end ensures m[x] == m0[x] {
      if InTarget(ms[..i], targets, x) {
        TargetOutsidePayload(ms, targets, p, end, |m0|, i, x);
        assert false;
      }
    }
  }

  /** Memory m0 holds the payload of ms at p, with a place for every module. */
  ghost predicate Ready(ms: seq<Blob>, targets: seq<nat>, p: nat, m0: seq<byte>) {
    Payload(m0, p, ms) && Placed(ms, targets, p, PayloadEnd(p, ms), |m0|)
  }

  /** The next module's record lies untouched in the payload, and its target is apart from it. */
  lemma NextInPlace(ms: seq<Blob>, targets: seq<nat>, p: nat, i: nat, m0: seq<byte>, m: seq<byte>)
    requires Ready(ms, targets, p, m0) && i < |ms| && Loaded(ms[..i], targets, m0, m)
    ensures var c := p + 4 + Offset(ms, i);
            && |m| == |m0| && Record(m, c, ms[i]) && c + 4 + |ms[i]| == p + 4 + Offset(ms, i + 1)
            && Spot(targets[i], |ms[i]|, p, PayloadEnd(p, ms), |m|)
            && !Clobbers(targets[i], c + 4, |ms[i]|)
  {
    var c, end := p + 4 + Offset(ms, i), PayloadEnd(p, ms);
    OffsetGrows(ms, i + 1, |ms|);
    assert RecordOf(m0, p, ms, i);
    PayloadKept(ms, targets, p, end, i, m0, m);
    SamePart(m, m0, p, end, c, c + 4);
    SamePart(m, m0, p, end, c + 4, c + 4 + |ms[i]|);
    assert Spot(targets[i], |ms[i]|, p, end, |m0|);
  }

  /** c is where the next record lies, r what loading it and those behind it makes of m. */
  lemma {:induction false} LoadedFrom(ms: seq<Blob>, targets: seq<nat>, p: nat, i: nat, m0: seq<byte>, m: seq<byte>,
                                      c: nat, r: Option<seq<byte>>)
    requires Ready(ms, targets, p, m0) && i <= |ms| && Loaded(ms[..i], targets, m0, m)
    requires c == p + 4 + Offset(ms, i) && r == LoadFrom(m, c, targets, i, |ms|)
    ensures r.Some? && Loaded(ms, targets, m0, r.value)
    decreases |ms| - i
  {
    if i < |ms| {
      var next := LoadStep(ms, targets, p, i, m0, m, c);
      LoadedFrom(ms, targets, p, i + 1, m0, next, c + 4 + |ms[i]|, r);
    } else {
      assert ms[..|ms|] == ms;
    }
  }

  lemma LoadStep(ms: seq<Blob>, targets: seq<nat>, p: nat, i: nat, m0: seq<byte>, m: seq<byte>, c: nat)
    returns (next: seq<byte>)
    requires Ready(ms, targets, p, m0) && i < |ms| && Loaded(ms[..i], targets, m0, m) && c == p + 4 + Offset(ms, i)
    ensures InMemory(m, c, targets[i]) && next == LoadOne(m, c, targets[i]) && FromWord(m[c..c + 4]) == |ms[i]|
    ensures Loaded(ms[..i + 1], targets, m0, next) && c + 4 + |ms[i]| == p + 4 + Offset(ms, i + 1)
  {
    NextInPlace(ms, targets, p, i, m0, m);
    LoadedNext(ms, targets, p, PayloadEnd(p, ms), i, m0, m, c + 4);
    LoadOneMoves(m, c, targets[i]);
    next := LoadOne(m, c, targets[i]);
  }

  /** Targets apart from the payload and each other: every module is at its target, the rest unchanged. */
  lemma LoadedWhenApart(ms: seq<Blob>, targets: seq<nat>, p: nat, m0: seq<byte>)
    requires Ready(ms, targets, p, m0)
    ensures LoadAll(m0, p, targets).Some? && Loaded(ms, targets, m0, LoadAll(m0, p, targets).value)
  {
    LoadedFrom(ms, targets, p, 0, m0, m0, p + 4, LoadAll(m0, p, targets));
  }

  lemma LoadFromNext(m: seq<byte>, c: nat, targets: seq<nat>, i: nat, n: nat)
    requires i < n <= |targets| && LoadFrom(m, c, targets, i, n).Some?
    ensures InMemory(m, c, targets[i])
    ensures LoadFrom(m, c, targets, i, n) ==
      LoadFrom(LoadOne(m, c, targets[i]), c + 4 + FromWord(m[c..c + 4]), targets, i + 1, n)
  {
  }

  method LoadNext(mem: array<byte>, c: nat, targets: seq<nat>, i: nat, ghost n: nat, ghost r: Option<seq<byte>>)
    returns (next: nat)
    requires i < n <= |targets| && r.Some? && LoadFrom(mem[..], c, targets, i, n) == r
    modifies mem
    ensures LoadFrom(mem[..], next, targets, i + 1, n) == r
  {
    LoadFromNext(mem[..], c, targets, i, n);
    next := LoadModule(mem, c, targets[i]);
  }

  method LoadModules(mem: array<byte>, p: nat, targets: seq<nat>)
    requires LoadAll(mem[..], p, targets).Some?
    modifies mem
    ensures mem[..] == LoadAll(old(mem[..]), p, targets).value
  {
    assert mem[p..p + 4] == mem[..][p..p + 4];
    var moduleCount, current := ReadUint32(mem, p);
    ghost var r := LoadAll(mem[..], p, targets);
    for i := 0 to moduleCount
      invariant LoadFrom(mem[..], current, targets, i, moduleCount) == r
    {
      current := LoadNext(mem, current, targets, i, moduleCount, r);
    }
  }

  lemma SamePart(a: seq<byte>, b: seq<byte>, p: nat, end: nat, i: nat, j: nat)
    requires p <= i <= j <= end <= |a| && end <= |b| && a[p..end] == b[p..end]
    ensures a[i..j] == b[i..j]
  {
    forall k | i <= k < j ensures a[k] == b[k] {
      assert a[p..end][k - p] == b[p..end][k - p];
    }
  }

  // ----- Packing, then loading -----

  lemma {:induction false} OffsetShift(ms: seq<Blob>, i: nat)
    requires 0 < i <= |ms|
    ensures Offset(ms, i) == 4 + |ms[0]| + Offset(ms[1..], i - 1)
  {
    if i > 1 { OffsetShift(ms, i - 1); }
  }

  lemma {:induction false} PackedLength(ms: seq<Blob>)
    ensures |PackModules(ms)| == Offset(ms, |ms|)
  {
    if ms != [] {
      OffsetShift(ms, |ms|);
      PackedLength(ms[1..]);
    }
  }

  lemma Associate(h: Blob, a: Blob, b: Blob, c: Blob)
    ensures h + (a + b + c) == (h + a) + b + c
  {
  }

  lemma PackFirst(ms: seq<Blob>) returns (size: Blob)
    requires ms != []
    ensures PackModules(ms) == (size + ms[0]) + PackModules(ms[1..]) && |size| == 4
    ensures |ms[0]| < TWO_32 ==> FromWord(size) == |ms[0]|
  {
    size := ToWord(|ms[0]| % TWO_32);
    WordRoundTrip(|ms[0]| % TWO_32);
  }

  /** The packed bytes before and behind record i. */
  lemma {:induction false} PackSplit(ms: seq<Blob>, i: nat) returns (a: Blob, size: Blob, c: Blob)
    requires i < |ms| && |ms[i]| < TWO_32
    ensures PackModules(ms) == a + (size + ms[i]) + c
    ensures |a| == Offset(ms, i) && |size| == 4 && FromWord(size) == |ms[i]|
  {
    var head := PackFirst(ms);
    if i == 0 {
      a, size, c := [], head, PackModules(ms[1..]);
      assert [] + (size + ms[0]) == size + ms[0];
    } else {
      var a1: Blob;
      a1, size, c := PackSplit(ms[1..], i - 1);
      Associate(head + ms[0], a1, size + ms[i], c);
      a := head + ms[0] + a1;
      OffsetShift(ms, i);
    }
  }

  lemma RecordAfter(m: Blob, x: Blob, packed: Blob, a: Blob, size: Blob, b: Blob, c: Blob, y: Blob, at: nat)
    requires m == x + packed + y && packed == a + (size + b) + c && |size| == 4 && FromWord(size) == |b|
    requires at == |x| + |a|
    ensures Record(m, at, b)
  {
  }

  /** Record i of packed modules is a record of memory wherever the packed bytes lie. */
  lemma PackedRecord(m: Blob, x: Blob, ms: seq<Blob>, i: nat, y: Blob, p: nat)
    requires m == x + PackModules(ms) + y && i < |ms| && |ms[i]| < TWO_32 && |x| == p + 4
    ensures RecordOf(m, p, ms, i)
  {
    var a, size, c := PackSplit(ms, i);
    RecordAfter(m, x, PackModules(ms), a, size, ms[i], c, y, p + 4 + Offset(ms, i));
  }

  lemma ImageParts(m: Blob, a: Blob, kernel: Blob, count: Blob, packed: Blob, z: Blob)
    requires |count| == 4 && m == a + (kernel + count + packed) + z
    ensures m == (a + kernel + count) + packed + z
    ensures m[|a| + |kernel|..|a| + |kernel| + 4] == count
  {
  }

  /** The bytes of memory before and behind the packed modules. */
  lemma ImageSplit(files: seq<Blob>, base: nat, m0: seq<byte>) returns (x: Blob, z: Blob)
    requires 0 < |files| <= TWO_32
    requires base + |Image(files)| <= |m0| && m0[base..base + |Image(files)|] == Image(files)
    ensures m0 == x + PackModules(files[1..]) + z
    ensures |x| == base + |files[0]| + 4 && FromWord(m0[|x| - 4..|x|]) == |files| - 1
  {
    var count, a := ToWord(|files| - 1), m0[..base];
    z := m0[base + |Image(files)|..];
    x := a + files[0] + count;
    assert m0 == a + m0[base..base + |Image(files)|] + z;
    ImageParts(m0, a, files[0], count, PackModules(files[1..]), z);
    WordRoundTrip(|files| - 1);
  }

  /** Packed modules behind their count are a payload. */
  lemma PayloadFromParts(m0: seq<byte>, x: Blob, ms: seq<Blob>, z: Blob, p: nat)
    requires m0 == x + PackModules(ms) + z && |x| == p + 4 && SmallModules(ms)
    requires FromWord(m0[p..p + 4]) == |ms|
    ensures Payload(m0, p, ms) && PayloadEnd(p, ms) == |x| + |PackModules(ms)|
  {
    PackedLength(ms);
    forall i: nat {:trigger RecordOf(m0, p, ms, i)} | i < |ms| ensures RecordOf(m0, p, ms, i) {
      PackedRecord(m0, x, ms, i, z, p);
    }
  }

  /** Behind the kernel's bytes of a packed image lies a payload that describes the modules. */
  lemma PackedIsPayload(files: seq<Blob>, base: nat, m0: seq<byte>)
    requires 0 < |files| <= TWO_32 && SmallModules(files[1..])
    requires base + |Image(files)| <= |m0| && m0[base..base + |Image(files)|] == Image(files)
    ensures Payload(m0, base + |files[0]|, files[1..])
    ensures PayloadEnd(base + |files[0]|, files[1..]) == base + |Image(files)|
  {
    var x, z := ImageSplit(files, base, m0);
    PayloadFromParts(m0, x, files[1..], z, base + |files[0]|);
  }

  function Overwrite(m: seq<byte>, base: nat, b: Blob): (r: seq<byte>)
    requires base + |b| <= |m|
    ensures |r| == |m| && r[base..base + |b|] == b
  {
    m[..base] + b + m[base + |b|..]
  }

  /** Targets for packed modules apart from each other and from the image at base. */
  ghost predicate Spread(files: seq<Blob>, base: nat, targets: seq<nat>, size: nat)
    requires 0 < |files| <= TWO_32
  {
    SmallModules(files[1..]) && Placed(files[1..], targets, base + |files[0]|, base + |Image(files)|, size)
  }

  /** Loading packed modules from memory m0 to such targets is the identity on them. */
  lemma PackedLoads(files: seq<Blob>, base: nat, targets: seq<nat>, m0: seq<byte>, p: nat)
    requires 0 < |files| <= TWO_32 && Spread(files, base, targets, |m0|) && p == base + |files[0]|
    requires base + |Image(files)| <= |m0| && m0[base..base + |Image(files)|] == Image(files)
    ensures LoadAll(m0, p, targets).Some? && Loaded(files[1..], targets, m0, LoadAll(m0, p, targets).value)
  {
    PackedIsPayload(files, base, m0);
    LoadedWhenApart(files[1..], targets, p, m0);
  }

  /** Loads the packed modules of an image that lies at base. */
  method LoadPacked(ghost files: seq<Blob>, mem: array<byte>, ghost base: nat, p: nat, targets: seq<nat>)
    requires 0 < |files| <= TWO_32 && Spread(files, base, targets, mem.Length) && p == base + |files[0]|
    requires base + |Image(files)| <= mem.Length && mem[base..base + |Image(files)|] == Image(files)
    modifies mem
    ensures Loaded(files[1..], targets, old(mem[..]), mem[..])
  {
    ghost var m0 := mem[..];
    assert m0[base..base + |Image(files)|] == mem[base..base + |Image(files)|];
    PackedLoads(files, base, targets, m0, p);
    LoadModules(mem, p, targets);
  }

  /** Packing files, placing the image in memory and loading it puts every module at its target. */
  method PackAndLoad(files: seq<Blob>, mem: array<byte>, base: nat, targets: seq<nat>)
    requires 0 < |files| <= TWO_32 && base + |Image(files)| <= mem.Length
    requires Spread(files, base, targets, mem.Length)
    modifies mem
    ensures Loaded(files[1..], targets, Overwrite(old(mem[..]), base, Image(files)), mem[..])
  {
    var image := BuildImage(files, true);
    PlaceImage(mem, base, image.value);
    LoadPacked(files, mem, base, base + |files[0]|, targets);
  }

  /** What the boot loader does with the image file. */
  method PlaceImage(mem: array<byte>, base: nat, image: Blob)
    requires base + |image| <= mem.Length
    modifies mem
    ensures mem[..] == Overwrite(old(mem[..]), base, image)
  {
    for i := 0 to |image|
      invariant forall k :: 0 <= k < i ==> mem[base + k] == image[k]
      invariant forall k :: 0 <= k < mem.Length && !(base <= k < base + i) ==> mem[k] == old(mem[k])
    {
      mem[base + i] := image[i];
    }
    forall k | base <= k < base + |image| ensures mem[k] == image[k - base] {
      assert mem[base + (k - base)] == image[k - base];
    }
  }
}
