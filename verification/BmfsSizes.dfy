/**
The disk size argument of BMFS initialize (bmfs.c): a decimal number with an optional unit letter,
accumulated in 64 bits.
*/
module BmfsSizes {
  import opened Options
  import opened Words

  const MINIMUM_DISK_SIZE: nat := 6 * 1024 * 1024

  datatype Parsed = Size(n: uint64) | TooLarge | NoNumber | BadString

  predicate IsDigit(c: char) { '0' <= c <= '9' }

  function DigitOf(c: char): (d: nat)
    ensures d < 10
  {
    if IsDigit(c) then (c - '0') as nat else 0
  }

  /** The power of 1024 that a unit letter stands for. */
  function UnitOf(c: char): Option<nat> {
    if c == 'K' || c == 'k' then Some(1)
    else if c == 'M' || c == 'm' then Some(2)
    else if c == 'G' || c == 'g' then Some(3)
    else if c == 'T' || c == 't' then Some(4)
    else if c == 'P' || c == 'p' then Some(5)
    else None
  }

  // ----- What a size argument means -----

  function Value(s: string): nat {
    if s == [] then 0 else Value(s[..|s| - 1]) * 10 + DigitOf(s[|s| - 1])
  }

  /** How many digits the argument begins with. */
  function DigitCount(s: string): (n: nat)
    ensures n <= |s| && (forall k :: 0 <= k < n ==> IsDigit(s[k])) && (n < |s| ==> !IsDigit(s[n]))
  {
    if s == [] || !IsDigit(s[0]) then 0 else 1 + DigitCount(s[1..])
  }

  /** v times 1024, k times over. */
  function Times1024(v: nat, k: nat): (r: nat)
    ensures v <= r && (v == 0 ==> r == 0)
  {
    if k == 0 then v else 1024 * Times1024(v, k - 1)
  }

  /** Some digits, then nothing or one unit letter. */
  function Meaning(s: string): Option<nat> {
    var n := DigitCount(s);
    if n == 0 || n + 1 < |s| then None
    else if n == |s| then Some(Value(s))
    else if UnitOf(s[n]).Some? then Some(Times1024(Value(s[..n]), UnitOf(s[n]).value))
    else None
  }

  lemma DigitTable(d: nat)
    requires d < 10
    ensures IsDigit("0123456789"[d]) && DigitOf("0123456789"[d]) == d
  {
  }

  lemma DigitsAndUnit(digits: string, c: char)
    requires digits != [] && (forall k :: 0 <= k < |digits| ==> IsDigit(digits[k])) && !IsDigit(c)
    ensures Meaning(digits) == Some(Value(digits))
    ensures Meaning(digits + [c]) ==
      if UnitOf(c).Some? then Some(Times1024(Value(digits), UnitOf(c).value)) else None
  {
    var s := digits + [c];
    assert forall k :: 0 <= k < |digits| ==> s[k] == digits[k];
    assert s[|digits|] == c && DigitCount(s) == |digits| && s[..|digits|] == digits;
  }

  lemma PowersOf1024(v: nat)
    ensures Times1024(v, 1) == v * 1024 && Times1024(v, 2) == v * 1048576 && Times1024(v, 3) == v * 1073741824
    ensures Times1024(v, 4) == v * 1099511627776 && Times1024(v, 5) == v * 1125899906842624
  {
    assert Times1024(v, 1) == 1024 * Times1024(v, 0) && Times1024(v, 2) == 1024 * Times1024(v, 1);
    assert Times1024(v, 4) == 1024 * Times1024(v, 3);
  }

  /** The bytes that a letter behind the digits multiplies them by. */
  function BytesPer(c: char): Option<nat> {
    if c in {'K', 'k'} then Some(1024)
    else if c in {'M', 'm'} then Some(1048576)
    else if c in {'G', 'g'} then Some(1073741824)
    else if c in {'T', 't'} then Some(1099511627776)
    else if c in {'P', 'p'} then Some(1125899906842624)
    else None
  }

  lemma UnitBytes(v: nat, c: char)
    ensures UnitOf(c).Some? <==> BytesPer(c).Some?
    ensures UnitOf(c).Some? ==> Times1024(v, UnitOf(c).value) == v * BytesPer(c).value
  {
    PowersOf1024(v);
  }

  /** Digits and a unit letter mean so many bytes; another letter means nothing. */
  lemma SizeInBytes(digits: string, c: char)
    requires digits != [] && (forall k :: 0 <= k < |digits| ==> IsDigit(digits[k])) && !IsDigit(c)
    ensures Meaning(digits) == Some(Value(digits))
    ensures Meaning(digits + [c]) == if BytesPer(c).Some? then Some(Value(digits) * BytesPer(c).value) else None
  {
    DigitsAndUnit(digits, c);
    UnitBytes(Value(digits), c);
  }

  // ----- The parser -----

  /** One digit or one unit step; None when the overflow check fires. */
  function Scale(v: uint64, m: nat, d: nat): Option<uint64> {
    if v * m % TWO_64 > v then Some((v * m % TWO_64 + d) % TWO_64) else None
  }

  function AddDigit(v: uint64, d: nat): Option<uint64>
    requires d < 10
  {
    if Scale(v, 10, d).Some? then Scale(v, 10, d) else if v == 0 then Some(d) else None
  }

  /** The overflow check is right exactly while the product, if it wraps, wraps to no more than before. */
  lemma AddDigitRightIff(v: uint64, d: nat)
    requires d < 10
    ensures AddDigit(v, d) == (if v * 10 + d < TWO_64 then Some(v * 10 + d) else None) <==>
            v * 10 + d < TWO_64 || v * 10 % TWO_64 <= v
  {
  }

  lemma ScaleUnitRightIff(v: uint64)
    requires v > 0
    ensures Scale(v, 1024, 0) == (if v * 1024 < TWO_64 then Some(v * 1024) else None) <==>
            v * 1024 < TWO_64 || v * 1024 % TWO_64 <= v
  {
  }

  /** The number that the first n characters, all digits, are accumulated to. */
  function Accumulated(s: string, n: nat): Option<uint64>
    requires n <= |s|
  {
    if n == 0 then Some(0)
    else
      var v := Accumulated(s, n - 1);
      if v.Some? then AddDigit(v.value, DigitOf(s[n - 1])) else None
  }

  function Scaled(v: uint64, factor: nat): Option<uint64> {
    if factor == 0 || v == 0 then Some(v)
    else
      var w := Scaled(v, factor - 1);
      if w.Some? then Scale(w.value, 1024, 0) else None
  }

  function Parse(s: string): Parsed {
    var n := DigitCount(s);
    var v := Accumulated(s, n);
    if v.None? then TooLarge
    else if s == [] then Size(0)
    else if n == 0 then NoNumber
    else if n == |s| then Size(v.value)
    else if UnitOf(s[n]).None? || n + 1 < |s| then BadString
    else
      var w := Scaled(v.value, UnitOf(s[n]).value);
      if w.Some? then Size(w.value) else TooLarge
  }

  lemma ValueStep(s: string, n: nat)
    requires 0 < n <= |s|
    ensures Value(s[..n]) == Value(s[..n - 1]) * 10 + DigitOf(s[n - 1])
  {
    assert s[..n][..n - 1] == s[..n - 1] && s[..n][n - 1] == s[n - 1];
  }

  lemma {:induction false} AccumulatedIs(s: string, n: nat)
    requires n <= |s| && Value(s[..n]) < TWO_64
    ensures Accumulated(s, n) == Some(Value(s[..n]))
  {
    if n > 0 {
      ValueStep(s, n);
      AccumulatedIs(s, n - 1);
      AddDigitRightIff(Value(s[..n - 1]), DigitOf(s[n - 1]));
    }
  }

  lemma {:induction false} ScaledIs(v: uint64, factor: nat)
    requires Times1024(v, factor) < TWO_64
    ensures Scaled(v, factor) == Some(Times1024(v, factor))
  {
    if factor > 0 && v > 0 {
      ScaledIs(v, factor - 1);
      ScaleUnitRightIff(Times1024(v, factor - 1));
    }
  }

  /** Every size that fits in 64 bits is parsed to what it means, and nothing malformed is accepted. */
  lemma ParseIsMeaning(s: string)
    ensures Meaning(s).Some? && Meaning(s).value < TWO_64 ==> Parse(s) == Size(Meaning(s).value)
    ensures Parse(s).Size? ==> Meaning(s).Some? || s == []
  {
    var n := DigitCount(s);
    assert s[..|s|] == s;
    if Meaning(s).Some? && Meaning(s).value < TWO_64 {
      if n < |s| {
        AccumulatedIs(s, n);
        ScaledIs(Value(s[..n]), UnitOf(s[n]).value);
      } else {
        AccumulatedIs(s, n);
      }
    }
  }

  // ----- Exactly when the overflow checks see an overflow -----

  /** The check of one step: the product wraps, or was 0, so that it is no more than before. */
  predicate Fires(v: uint64, m: nat) { v > 0 && v * m % TWO_64 <= v }

  /** The check fires at digit k of s, whose earlier digits have been accumulated in 64 bits. */
  predicate DigitFires(s: string, k: nat)
    requires k <= |s|
  {
    Fires(Value(s[..k]) % TWO_64, 10)
  }

  predicate UnitFires(v: nat, j: nat) { Fires(Times1024(v, j) % TWO_64, 1024) }

  predicate SomeDigitFires(s: string, n: nat)
    requires n <= |s|
  {
    exists k: nat :: k < n && DigitFires(s, k)
  }

  predicate SomeUnitFires(v: nat, factor: nat) { exists j: nat :: j < factor && UnitFires(v, j) }

  /** Some digit or unit step along a well-formed size fires. */
  predicate SomeFires(s: string) {
    var n := DigitCount(s);
    || SomeDigitFires(s, n)
    || (n < |s| && UnitOf(s[n]).Some? && SomeUnitFires(Value(s[..n]), UnitOf(s[n]).value))
  }

  lemma ModDrop(q: nat, r: nat)
    ensures (q * TWO_64 + r) % TWO_64 == r % TWO_64
  {
  }

  lemma ModTen(v: nat, d: nat)
    ensures (v % TWO_64 * 10 % TWO_64 + d) % TWO_64 == (v * 10 + d) % TWO_64
  {
    var q, r := v / TWO_64, v % TWO_64;
    assert v * 10 + d == (q * 10) * TWO_64 + (r * 10 + d);
    ModDrop(q * 10, r * 10 + d);
    assert r * 10 + d == (r * 10 / TWO_64) * TWO_64 + (r * 10 % TWO_64 + d);
    ModDrop(r * 10 / TWO_64, r * 10 % TWO_64 + d);
  }

  lemma Mod1024(v: nat)
    ensures v % TWO_64 * 1024 % TWO_64 == v * 1024 % TWO_64
  {
    var q, r := v / TWO_64, v % TWO_64;
    assert v * 1024 == (q * 1024) * TWO_64 + r * 1024;
    ModDrop(q * 1024, r * 1024);
  }

  lemma DigitMod(v: nat, d: nat)
    requires d < 10
    ensures AddDigit(v % TWO_64, d) == if Fires(v % TWO_64, 10) then None else Some((v * 10 + d) % TWO_64)
  {
    ModTen(v, d);
  }

  lemma {:induction false} AccumulatedMod(s: string, n: nat)
    requires n <= |s|
    ensures Accumulated(s, n) == if SomeDigitFires(s, n) then None else Some(Value(s[..n]) % TWO_64)
  {
    if n > 0 {
      AccumulatedMod(s, n - 1);
      ValueStep(s, n);
      DigitMod(Value(s[..n - 1]), DigitOf(s[n - 1]));
      assert SomeDigitFires(s, n) <==> SomeDigitFires(s, n - 1) || DigitFires(s, n - 1);
    }
  }

  /** One step of the unit loop on v modulo 2^64. */
  lemma ScaleMod(v: nat, w: uint64)
    requires w == v % TWO_64
    ensures Scale(w, 1024, 0) == if w == 0 || Fires(w, 1024) then None else Some(v * 1024 % TWO_64)
  {
    Mod1024(v);
  }

  lemma {:induction false} ScaledMod(v: nat, w: uint64, factor: nat)
    requires w == v % TWO_64
    ensures Scaled(w, factor) == if SomeUnitFires(v, factor) then None else Some(Times1024(v, factor) % TWO_64)
  {
    if factor > 0 {
      var u := Times1024(v, factor - 1);
      assert SomeUnitFires(v, factor) <==> SomeUnitFires(v, factor - 1) || UnitFires(v, factor - 1);
      if w == 0 {
        NoneFires(v, factor);
      } else {
        ScaledMod(v, w, factor - 1);
        ScaleMod(u, u % TWO_64);
        if !SomeUnitFires(v, factor - 1) { StaysPositive(v, factor - 1); }
      }
    }
  }

  /** While no step fires, the number does not wrap to 0. */
  lemma {:induction false} StaysPositive(v: nat, k: nat)
    requires v % TWO_64 > 0 && !SomeUnitFires(v, k)
    ensures Times1024(v, k) % TWO_64 > 0
  {
    if k > 0 {
      assert !SomeUnitFires(v, k - 1);
      StaysPositive(v, k - 1);
      assert !UnitFires(v, k - 1);
      Mod1024(Times1024(v, k - 1));
    }
  }

  lemma NoneFires(v: nat, factor: nat)
    requires v % TWO_64 == 0
    ensures !SomeUnitFires(v, factor) && Times1024(v, factor) % TWO_64 == 0
  {
    forall j: nat | j < factor ensures !UnitFires(v, j) { ZeroTimes(v, j); }
    ZeroTimes(v, factor);
  }

  lemma {:induction false} ZeroTimes(v: nat, factor: nat)
    requires v % TWO_64 == 0
    ensures Times1024(v, factor) % TWO_64 == 0
  {
    if factor > 0 {
      ZeroTimes(v, factor - 1);
      Mod1024(Times1024(v, factor - 1));
    }
  }

  predicate ParsedRight(s: string)
    requires Meaning(s).Some?
  {
    Parse(s) == if Meaning(s).value < TWO_64 then Size(Meaning(s).value) else TooLarge
  }

  /** Why an argument that means nothing is refused; the empty one is taken for 0. */
  lemma ParseReasons(s: string)
    ensures Parse(s) == NoNumber <==> s != [] && !IsDigit(s[0])
    ensures Parse(s) == BadString ==> s != [] && IsDigit(s[0]) && Meaning(s).None?
    ensures s != [] && IsDigit(s[0]) && Meaning(s).None? ==> Parse(s) in {BadString, TooLarge}
    ensures s == [] ==> Parse(s) == Size(0)
  {
  }

  /**
  A well-formed size is parsed modulo 2^64 unless some step fires; so it is parsed right exactly
  when it fits in 64 bits or some step fires.
  */
  lemma ParseRightIff(s: string)
    requires Meaning(s).Some?
    ensures Parse(s) == if SomeFires(s) then TooLarge else Size(Meaning(s).value % TWO_64)
    ensures ParsedRight(s) <==> Meaning(s).value < TWO_64 || SomeFires(s)
  {
    var n := DigitCount(s);
    AccumulatedMod(s, n);
    assert s[..|s|] == s;
    if n < |s| { ScaledMod(Value(s[..n]), Value(s[..n]) % TWO_64, UnitOf(s[n]).value); }
    ParseIsMeaning(s);
  }

  lemma DigitsOf20000(s: string)
    requires |s| == 6 && s[0] == '2' && forall k :: 1 <= k < 5 ==> s[k] == '0'
    ensures Value(s[..5]) == 20000
  {
    ValueStep(s, 5);
    ValueStep(s, 4);
    ValueStep(s, 3);
    ValueStep(s, 2);
    ValueStep(s, 1);
  }

  lemma Pebibytes20000()
    ensures Times1024(20000, 5) == 22517998136852480000 > TWO_64
    ensures Scaled(20000, 5) == Some(4071254063142928384)
  {
    assert Times1024(20000, 2) == 20971520000 && Times1024(20000, 4) == 21990232555520000;
    ScaledIs(20000, 4);
  }

  /** A size beyond 64 bits can slip through: 20000 PiB is taken for 4071254063142928384 bytes. */
  lemma OverflowMissed(s: string)
    requires s == "20000P"
    ensures Meaning(s) == Some(22517998136852480000) && Parse(s) == Size(4071254063142928384)
  {
    DigitCountIs(s, 5);
    DigitsOf20000(s);
    AccumulatedIs(s, 5);
    Pebibytes20000();
  }

  lemma DigitCountIs(s: string, n: nat)
    requires n <= |s| && (forall k :: 0 <= k < n ==> IsDigit(s[k])) && (n < |s| ==> !IsDigit(s[n]))
    ensures DigitCount(s) == n
  {
  }

  /** Once the overflow check has fired there is no number. */
  lemma {:induction false} Stuck(s: string, i: nat, n: nat)
    requires i <= n <= |s| && Accumulated(s, i).None?
    ensures Accumulated(s, n).None?
  {
    if i < n { Stuck(s, i, n - 1); }
  }

  method ParseSize(size: string) returns (r: Parsed)
    ensures r == Parse(size)
  {
    var diskSize: uint64, diskSizeFactor := 0, 0;
    ghost var n := DigitCount(size);
    var i := 0;
    while i < |size|
      invariant 0 <= i <= |size| && (i <= n || i == |size| == n + 1) && (n == 0 ==> i == 0)
      invariant Accumulated(size, if i <= n then i else n) == Some(diskSize)
      invariant if i <= n then diskSizeFactor == 0 else UnitOf(size[n]) == Some(diskSizeFactor)
    {
      var ch := size[i];
      if IsDigit(ch) {
        var product := diskSize * 10 % TWO_64;
        if product > diskSize {
          diskSize := (product + DigitOf(ch)) % TWO_64;
        } else if diskSize == 0 {
          diskSize := DigitOf(ch);
        } else {
          Stuck(size, i + 1, n);
          return TooLarge;
        }
      } else if i == 0 {
        return NoNumber;
      } else {
        var factor := UnitOf(ch);
        if factor == None || i + 1 < |size| {
          return BadString;
        }
        diskSizeFactor := factor.value;
      }
      i := i + 1;
    }
    r := ScaleUp(diskSize, diskSizeFactor);
  }

  /** The loop over the unit, which goes on after an overflow. */
  method ScaleUp(diskSize: uint64, factor: nat) returns (r: Parsed)
    ensures var w := Scaled(diskSize, factor); r == if w.Some? then Size(w.value) else TooLarge
  {
    var v, ok := diskSize, true;
    if diskSize > 0 {
      var left := factor;
      while left > 0
        invariant 0 <= left <= factor
        invariant Scaled(diskSize, factor - left) == if ok then Some(v) else None
      {
        left := left - 1;
        if v * 1024 % TWO_64 > v {
          v := v * 1024 % TWO_64;
        } else {
          ok := false;
        }
      }
    }
    return if ok then Size(v) else TooLarge;
  }
}
