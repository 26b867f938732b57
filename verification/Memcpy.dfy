/** memcpy of the kernel library (lib.c), on memory as an array indexed by address. */
module Memcpy {
  import opened Bytes

  const WORD: nat := 4

  /** The result of copying byte by byte upwards, each byte read after the earlier ones were written. */
  function Forward(m: seq<byte>, dst: nat, src: nat, n: nat): (r: seq<byte>)
    requires dst + n <= |m| && src + n <= |m|
    ensures |r| == |m|
    ensures forall k :: 0 <= k < |m| && !(dst <= k < dst + n) ==> r[k] == m[k]
  {
    if n == 0 then m
    else
      var r := Forward(m, dst, src, n - 1);
      r[dst + n - 1 := r[src + n - 1]]
  }

  /** The result of copying as if through a buffer of its own. */
  function Moved(m: seq<byte>, dst: nat, src: nat, n: nat): (r: seq<byte>)
    requires dst + n <= |m| && src + n <= |m|
    ensures |r| == |m|
  {
    m[..dst] + m[src..src + n] + m[dst + n..]
  }

  /** A destination inside the source, above its start. */
  predicate Clobbers(dst: nat, src: nat, n: nat) { src < dst < src + n }

  lemma {:induction false} ForwardMoves(m: seq<byte>, dst: nat, src: nat, n: nat)
    requires dst + n <= |m| && src + n <= |m| && !Clobbers(dst, src, n)
    ensures Forward(m, dst, src, n) == Moved(m, dst, src, n)
  {
    if n > 0 {
      ForwardMoves(m, dst, src, n - 1);
      MovedNext(m, dst, src, n - 1);
    }
  }

  lemma MovedNext(m: seq<byte>, dst: nat, src: nat, n: nat)
    requires dst + n + 1 <= |m| && src + n + 1 <= |m| && !Clobbers(dst, src, n + 1)
    ensures var r := Moved(m, dst, src, n);
            r[src + n] == m[src + n] && Moved(m, dst, src, n + 1) == r[dst + n := m[src + n]]
  {
  }

  lemma {:induction false} ForwardAt(m: seq<byte>, dst: nat, src: nat, n: nat, k: nat)
    requires dst + n <= |m| && src + n <= |m| && k < n
    ensures Forward(m, dst, src, n)[dst + k] == Forward(m, dst, src, k)[src + k]
  {
    if k < n - 1 { ForwardAt(m, dst, src, n - 1, k); }
  }

  /** Byte k of an overlapping copy, q whole distances p above byte r. */
  lemma {:induction false} RepeatedByte(m: seq<byte>, dst: nat, src: nat, n: nat, k: nat, p: nat, q: nat, r: nat)
    requires dst + n <= |m| && src + n <= |m| && k < n
    requires dst == src + p && r < p && k == p * q + r
    ensures Forward(m, dst, src, n)[dst + k] == m[src + r]
    decreases q
  {
    ForwardAt(m, dst, src, n, k);
    if q == 0 {
      assert k == r;
    } else {
      assert p * q == p * (q - 1) + p;
      RepeatedByte(m, dst, src, k, k - p, p, q - 1, r);
    }
  }

  /** With the destination inside the source, the bytes in front of the destination are repeated. */
  lemma ForwardRepeats(m: seq<byte>, dst: nat, src: nat, n: nat, k: nat)
    requires dst + n <= |m| && src + n <= |m| && Clobbers(dst, src, n) && k < n
    ensures Forward(m, dst, src, n)[dst + k] == m[src + k % (dst - src)]
  {
    var p: nat := dst - src;
    var q, r := k / p, k % p;
    assert k == p * q + r;
    RepeatedByte(m, dst, src, n, k, p, q, r);
  }

  /** The forward copy is right for all contents exactly when it does not clobber its own source. */
  lemma ForwardMovesIff(size: nat, dst: nat, src: nat, n: nat)
    requires dst + n <= size && src + n <= size
    ensures (forall m: seq<byte> :: |m| == size ==> Forward(m, dst, src, n) == Moved(m, dst, src, n)) <==>
            !Clobbers(dst, src, n)
  {
    if Clobbers(dst, src, n) {
      var m: seq<byte> := seq(size, i => if i == src then 1 else 0);
      var k := dst - src;
      ForwardAt(m, dst, src, n, k);
      ForwardAt(m, dst, src, k, 0);
      assert Forward(m, dst, src, n)[dst + k] == 1;
      assert Moved(m, dst, src, n)[dst + k] == m[dst] == 0;
    } else {
      forall m: seq<byte> | |m| == size ensures Forward(m, dst, src, n) == Moved(m, dst, src, n) {
        ForwardMoves(m, dst, src, n);
      }
    }
  }

  /** Word copies agree with byte copies when the two addresses do not differ by 1, 2 or 3 bytes. */
  lemma WordStep(m: seq<byte>, dst: nat, src: nat, n: nat)
    requires dst + n + WORD <= |m| && src + n + WORD <= |m|
    requires dst % WORD == 0 && src % WORD == 0
    ensures var r := Forward(m, dst, src, n);
            var d, s := dst + n, src + n;
            Forward(m, dst, src, n + WORD) == r[d := r[s]][d + 1 := r[s + 1]][d + 2 := r[s + 2]][d + 3 := r[s + 3]]
  {
    var r := Forward(m, dst, src, n);
    var d, s := dst + n, src + n;
    var r1 := Forward(m, dst, src, n + 1);
    assert r1 == r[d := r[s]];
    var r2 := Forward(m, dst, src, n + 2);
    assert r2 == r1[d + 1 := r1[s + 1]] && r1[s + 1] == r[s + 1];
    var r3 := Forward(m, dst, src, n + 3);
    assert r3 == r2[d + 2 := r2[s + 2]] && r2[s + 2] == r[s + 2];
    assert Forward(m, dst, src, n + 4) == r3[d + 3 := r3[s + 3]] && r3[s + 3] == r[s + 3];
  }

  /** Both paths, word by word and byte by byte, compute the forward copy, overlapping or not. */
  method Copy(mem: array<byte>, dst: nat, src: nat, length: nat)
    requires dst + length <= mem.Length && src + length <= mem.Length
    modifies mem
    ensures mem[..] == Forward(old(mem[..]), dst, src, length)
    ensures !Clobbers(dst, src, length) ==> mem[..] == Moved(old(mem[..]), dst, src, length)
  {
    if dst % WORD == 0 && src % WORD == 0 && length % WORD == 0 {
      CopyWords(mem, dst, src, length);
    } else {
      CopyBytes(mem, dst, src, length);
    }
    if !Clobbers(dst, src, length) { ForwardMoves(old(mem[..]), dst, src, length); }
  }

  method CopyWords(mem: array<byte>, dst: nat, src: nat, length: nat)
    requires dst + length <= mem.Length && src + length <= mem.Length
    requires dst % WORD == 0 && src % WORD == 0 && length % WORD == 0
    modifies mem
    ensures mem[..] == Forward(old(mem[..]), dst, src, length)
  {
    for i := 0 to length / WORD
      invariant mem[..] == Forward(old(mem[..]), dst, src, WORD * i)
    {
      WordStep(old(mem[..]), dst, src, WORD * i);
      CopyWord(mem, dst + WORD * i, src + WORD * i);
    }
  }

  method CopyBytes(mem: array<byte>, dst: nat, src: nat, length: nat)
    requires dst + length <= mem.Length && src + length <= mem.Length
    modifies mem
    ensures mem[..] == Forward(old(mem[..]), dst, src, length)
  {
    for i := 0 to length
      invariant mem[..] == Forward(old(mem[..]), dst, src, i)
    {
      ghost var m := mem[..];
      mem[dst + i] := mem[src + i];
      assert mem[..] == m[dst + i := m[src + i]];
    }
  }

  /** A 32-bit load and store. */
  method CopyWord(mem: array<byte>, d: nat, s: nat)
    requires d + WORD <= mem.Length && s + WORD <= mem.Length
    modifies mem
    ensures var r := old(mem[..]); mem[..] == r[d := r[s]][d + 1 := r[s + 1]][d + 2 := r[s + 2]][d + 3 := r[s + 3]]
  {
    var b0, b1, b2, b3 := mem[s], mem[s + 1], mem[s + 2], mem[s + 3];
    mem[d], mem[d + 1], mem[d + 2], mem[d + 3] := b0, b1, b2, b3;
  }
}
