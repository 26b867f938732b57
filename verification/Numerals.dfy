/**
Numbers as text in the user library (stdio.c): num_to_base writes digits and reverses them in
place, read_dec accumulates them again. int is 32 bits wide and wraps.
*/
module Numerals {
  import opened Words

  type text = seq<char>

  const INT_MAX: int := 0x7FFF_FFFF
  const INT_MIN: int := -0x8000_0000

  type int32 = n: int | INT_MIN <= n <= INT_MAX

  function ToUint32(n: int): uint32 { n % TWO_32 }

  function Wrap32(n: int): int32 {
    if INT_MIN <= n <= INT_MAX then n
    else if ToUint32(n) <= INT_MAX then ToUint32(n)
    else ToUint32(n) - TWO_32
  }

  // ----- The digits of a number, most significant first -----

  function DigitChar(d: nat): char
    requires d < 16
  {
    if d < 10 then '0' + d as char else 'A' + (d - 10) as char
  }

  function Digits(value: nat, base: nat): (r: text)
    requires 2 <= base <= 16
    ensures r != []
    decreases value
  {
    if value < base then [DigitChar(value)] else Digits(value / base, base) + [DigitChar(value % base)]
  }

  /** What a digit stands for in base 16 and below. */
  function DigitMeans(c: char): nat {
    if '0' <= c <= '9' then (c - '0') as nat
    else if 'A' <= c <= 'F' then (c - 'A') as nat + 10
    else 16
  }

  function NumberOf(s: text, base: nat): nat {
    if s == [] then 0 else NumberOf(s[..|s| - 1], base) * base + DigitMeans(s[|s| - 1])
  }

  lemma NumberSnoc(s: text, c: char, base: nat)
    ensures NumberOf(s + [c], base) == NumberOf(s, base) * base + DigitMeans(c)
  {
    assert (s + [c])[..|s|] == s;
  }

  lemma DigitCharMeans(d: nat)
    requires d < 16
    ensures DigitMeans(DigitChar(d)) == d && (DigitChar(d) == '0' ==> d == 0)
  {
  }

  lemma Recombine(n: nat, base: nat)
    requires base >= 2
    ensures (n / base) * base + n % base == n && n / base < n + 1 && (n >= base ==> 0 < n / base < n)
  {
    DivFacts(n, base);
  }

  /** Only digits of the base, and no leading 0. */
  lemma {:induction false} DigitsProper(value: nat, base: nat)
    requires 2 <= base <= 16
    ensures forall c :: c in Digits(value, base) ==> DigitMeans(c) < base
    ensures Digits(value, base)[0] == '0' ==> value == 0
    decreases value
  {
    Recombine(value, base);
    DigitCharMeans(value % base);
    if value >= base {
      DigitsProper(value / base, base);
    }
  }

  /** The digits are digits of the base, denote the number, and begin with 0 only for 0. */
  lemma {:induction false} DigitsDenote(value: nat, base: nat)
    requires 2 <= base <= 16
    ensures NumberOf(Digits(value, base), base) == value
    ensures forall c :: c in Digits(value, base) ==> DigitMeans(c) < base
    ensures Digits(value, base)[0] == '0' ==> value == 0
    decreases value
  {
    DigitsProper(value, base);
    if value < base {
      DigitCharMeans(value);
      NumberSnoc([], DigitChar(value), base);
      assert [] + [DigitChar(value)] == [DigitChar(value)];
    } else {
      Recombine(value, base);
      DigitCharMeans(value % base);
      DigitsDenote(value / base, base);
      NumberSnoc(Digits(value / base, base), DigitChar(value % base), base);
    }
  }

  function Pow(base: nat, k: nat): nat { if k == 0 then 1 else base * Pow(base, k - 1) }

  lemma DivFacts(n: nat, base: nat)
    requires base >= 2
    ensures n == base * (n / base) + n % base && n % base < base
    ensures n > 0 ==> n / base < n
    ensures n / base == 0 <==> n < base
  {
  }

  /** k digits are enough exactly for the numbers below base to the k. */
  lemma {:induction false} DigitsFitIff(value: nat, base: nat, k: nat)
    requires 2 <= base <= 16 && k > 0
    ensures |Digits(value, base)| <= k <==> value < Pow(base, k)
    decreases k
  {
    DivFacts(value, base);
    if value < base {
      PowGrows(base, k);
    } else if k == 1 {
      assert Pow(base, 1) == base * Pow(base, 0);
    } else {
      DigitsFitIff(value / base, base, k - 1);
      DivBelow(value, base, Pow(base, k - 1));
    }
  }

  lemma DivBelow(n: nat, base: nat, p: nat)
    requires base >= 2
    ensures n / base < p <==> n < base * p
  {
    DivFacts(n, base);
    if n / base < p { MulMono(base, n / base + 1, p); } else { MulMono(base, p, n / base); }
  }

  lemma MulMono(c: nat, a: nat, b: nat)
    requires a <= b
    ensures c * a <= c * b
  {
  }

  lemma {:induction false} PowGrows(base: nat, k: nat)
    requires base >= 2 && k > 0
    ensures base <= Pow(base, k)
    decreases k
  {
    if k == 1 {
      assert Pow(base, 1) == base * Pow(base, 0);
    } else {
      PowGrows(base, k - 1);
      MulMono(base, 1, Pow(base, k - 1));
    }
  }

  /** The 20-byte buffer holds every 32-bit number and its terminator in base 8, 10 and 16, but not in base 2. */
  lemma PrintBuffer(value: uint32)
    ensures |Digits(value, 8)| < 20 && |Digits(value, 10)| < 20 && |Digits(value, 16)| < 20
    ensures |Digits(value, 2)| <= 32
    ensures |Digits(value, 2)| < 20 <==> value < 0x8_0000
  {
    DigitsFitIff(value, 8, 11);
    assert Pow(8, 4) == 4096 && Pow(8, 8) == 16777216 && Pow(8, 11) == 0x2_0000_0000;
    DigitsFitIff(value, 10, 10);
    assert Pow(10, 10) == 10000000000;
    DigitsFitIff(value, 16, 8);
    assert Pow(16, 8) == TWO_32;
    DigitsFitIff(value, 2, 19);
    assert Pow(2, 10) == 1024 && Pow(2, 19) == 0x8_0000;
    DigitsFitIff(value, 2, 32);
    assert Pow(2, 24) == 16777216 && Pow(2, 32) == TWO_32;
  }

  function Reversed(s: text): (r: text)
    ensures |r| == |s|
  {
    if s == [] then [] else Reversed(s[1..]) + [s[0]]
  }

  lemma {:induction false} ReversedAppend(s: text, c: char)
    ensures Reversed(s + [c]) == [c] + Reversed(s)
  {
    if s == [] {
      assert [c][1..] == [];
    } else {
      assert (s + [c])[1..] == s[1..] + [c];
      ReversedAppend(s[1..], c);
    }
  }

  lemma {:induction false} ReversedAt(s: text, k: nat)
    requires k < |s|
    ensures |Reversed(s)| == |s| && Reversed(s)[k] == s[|s| - 1 - k]
  {
    if |s| > 1 { ReversedAt(s[1..], if k < |s| - 1 then k else 0); }
  }

  method NumToBase(number: uint32, buffer: array<char>, base: nat) returns (digits: nat)
    requires 2 <= base <= 16 && |Digits(number, base)| < buffer.Length
    modifies buffer
    ensures digits == |Digits(number, base)| && buffer[..digits] == Digits(number, base) && buffer[digits] == '\0'
  {
    digits := WriteDigits(number, buffer, base);
    buffer[digits] := '\0';
    ReverseInPlace(buffer, digits);
  }

  /** The digits, least significant first. */
  method WriteDigits(number: uint32, buffer: array<char>, base: nat) returns (digits: nat)
    requires 2 <= base <= 16 && |Digits(number, base)| < buffer.Length
    modifies buffer
    ensures digits == |Digits(number, base)| && Reversed(buffer[..digits]) == Digits(number, base)
  {
    var value: uint32 := number;
    digits := 0;
    while true
      invariant digits + |Digits(value, base)| == |Digits(number, base)|
      invariant Digits(number, base) == Digits(value, base) + Reversed(buffer[..digits])
      decreases value
    {
      ghost var before := buffer[..digits];
      DivFacts(value, base);
      var remainder, quotient: uint32 := value % base, value / base;
      buffer[digits] := DigitChar(remainder);
      digits := digits + 1;
      assert buffer[..digits] == before + [DigitChar(remainder)];
      ReversedAppend(before, DigitChar(remainder));
      if quotient == 0 {
        return;
      }
      value := quotient;
    }
  }

  /** The two pointers swap from both ends of the first n characters. */
  method ReverseInPlace(buffer: array<char>, n: nat)
    requires 0 < n < buffer.Length
    modifies buffer
    ensures buffer[..n] == Reversed(old(buffer[..n])) && buffer[n] == old(buffer[n])
  {
    var p1, p2 := 0, n - 1;
    while p1 < p2
      invariant p1 + p2 == n - 1 && p1 <= p2 + 1
      invariant forall k :: 0 <= k < p1 ==> buffer[k] == old(buffer[n - 1 - k]) && buffer[n - 1 - k] == old(buffer[k])
      invariant forall k :: p1 <= k <= p2 ==> buffer[k] == old(buffer[k])
      invariant buffer[n] == old(buffer[n])
    {
      buffer[p1], buffer[p2] := buffer[p2], buffer[p1];
      p1, p2 := p1 + 1, p2 - 1;
    }
    ghost var was := old(buffer[..n]);
    forall k | 0 <= k < n ensures |Reversed(was)| == n && buffer[..n][k] == Reversed(was)[k] {
      ReversedAt(was, k);
    }
    ReversedAt(was, 0);
  }

  // ----- Signed decimal text, and reading it back -----

  /** print_dec: the sign, then the magnitude as an unsigned number; negating INT_MIN wraps to itself. */
  function Decimal(n: int32): text {
    if n < 0 then "-" + Digits(ToUint32(Wrap32(n * -1)), 10) else Digits(n, 10)
  }

  predicate IsDigit(c: char) { '0' <= c <= '9' }

  predicate IsSpace(c: char) { c in {' ', '\t', '\n', '\U{0B}', '\U{0C}', '\r'} }

  // (char) -1 as an unsigned character
  const EOF_CHAR: char := '\U{FF}'

  /** A C string as an array of characters closed by NUL. */
  function At(s: text, i: nat): char
    requires i <= |s|
  {
    if i < |s| then s[i] else '\0'
  }

  function DigitValue(c: char): nat
    requires IsDigit(c)
  {
    (c - '0') as nat
  }

  /** The loop of read_dec from position i on: the number and the position behind it. */
  function ReadDigits(s: text, i: nat, number: int32): (r: (int32, nat))
    requires i <= |s|
    ensures i <= r.1 <= |s|
    decreases |s| - i
  {
    if IsDigit(At(s, i)) && 0 <= number <= INT_MAX - 1
    then ReadDigits(s, i + 1, Wrap32(number * 10 + DigitValue(s[i])))
    else (number, i)
  }

  /** read_dec at position i: the number and how many characters it took. */
  function ReadDec(s: text, i: nat): (int32, nat)
    requires i <= |s|
  {
    if At(s, i) == '-' then
      var (n, end) := ReadDigits(s, i + 1, 0);
      (Wrap32(n * -1), end - i)
    else
      var (n, end) := ReadDigits(s, i, 0);
      (n, end - i)
  }

  lemma {:induction false} DigitsAreDigits(value: nat, base: nat)
    requires 2 <= base <= 10
    ensures forall k :: 0 <= k < |Digits(value, base)| ==> IsDigit(Digits(value, base)[k])
    decreases value
  {
    if value >= base { DigitsAreDigits(value / base, base); }
  }

  /** The characters of d stand in s at position i. */
  predicate Has(s: text, i: nat, d: text) { i + |d| <= |s| && s[i..i + |d|] == d }

  lemma HasParts(s: text, i: nat, a: text, b: text)
    requires Has(s, i, a + b)
    ensures Has(s, i, a) && Has(s, i + |a|, b)
  {
    var t := s[i..i + |a + b|];
    assert s[i..i + |a|] == t[..|a|] == a;
    assert s[i + |a|..i + |a| + |b|] == t[|a|..] == b;
  }

  lemma HasFirst(s: text, i: nat, d: text)
    requires Has(s, i, d) && d != []
    ensures s[i] == d[0]
  {
  }

  lemma ReadStep(s: text, j: nat, value: nat, d: nat)
    requires j < |s| && d < 10 && s[j] == DigitChar(d) && value * 10 + d <= INT_MAX + 1
    ensures ReadDigits(s, j, value) == ReadDigits(s, j + 1, Wrap32(value * 10 + d))
  {
  }

  /** Reading the digits of a number up to 2147483648, the last step of which may wrap. */
  lemma {:induction false} ReadDigitsBack(s: text, i: nat, value: nat)
    requires value <= INT_MAX + 1 && Has(s, i, Digits(value, 10))
    ensures ReadDigits(s, i, 0) == ReadDigits(s, i + |Digits(value, 10)|, Wrap32(value))
    decreases value
  {
    if value < 10 {
      HasFirst(s, i, [DigitChar(value)]);
      ReadStep(s, i, 0, value);
    } else {
      var q, c := value / 10, [DigitChar(value % 10)];
      HasParts(s, i, Digits(q, 10), c);
      ReadDigitsBack(s, i, q);
      var j := i + |Digits(q, 10)|;
      HasFirst(s, j, c);
      ReadStep(s, j, q, value % 10);
    }
  }

  lemma MagnitudeOf(n: int)
    requires INT_MIN <= n < 0
    ensures ToUint32(Wrap32(n * -1)) == -n && Wrap32(Wrap32(-n) * -1) == n
  {
  }

  lemma ReadNegative(s: text, i: nat, v: int32, end: nat)
    requires i < |s| && s[i] == '-' && ReadDigits(s, i + 1, 0) == (v, end)
    ensures i < end && ReadDec(s, i) == (Wrap32(v * -1), end - i)
  {
  }

  lemma ReadPositive(s: text, i: nat, v: int32, end: nat)
    requires i <= |s| && At(s, i) != '-' && ReadDigits(s, i, 0) == (v, end)
    ensures i <= end && ReadDec(s, i) == (v, end - i)
  {
  }

  lemma ReadStops(s: text, i: nat, v: int32)
    requires i <= |s| && !IsDigit(At(s, i))
    ensures ReadDigits(s, i, v) == (v, i)
  {
  }

  /** Digits that no digit follows are read to their end. */
  lemma ReadsBack(s: text, i: nat, m: nat, d: text, end: nat, v: int32)
    requires m <= INT_MAX + 1 && d == Digits(m, 10) && end == i + |d| && v == Wrap32(m)
    requires Has(s, i, d) && !IsDigit(At(s, end))
    ensures ReadDigits(s, i, 0) == (v, end)
  {
    ReadDigitsBack(s, i, m);
    ReadStops(s, end, v);
  }

  lemma NoSign(s: text, i: nat, m: nat, d: text)
    requires d == Digits(m, 10) && Has(s, i, d)
    ensures At(s, i) != '-'
  {
    HasFirst(s, i, d);
    DigitsAreDigits(m, 10);
    assert IsDigit(d[0]);
  }

  /** read_dec inverts print_dec on all 32-bit ints, whatever follows but a digit. */
  lemma DecimalRoundTrip(s: text, i: nat, n: int32)
    requires Has(s, i, Decimal(n)) && !IsDigit(At(s, i + |Decimal(n)|))
    ensures ReadDec(s, i) == (n, |Decimal(n)|)
  {
    var end := i + |Decimal(n)|;
    if n < 0 {
      var m: nat := 0 - n as int;
      var d := Digits(m, 10);
      MagnitudeOf(n);
      HasFirst(s, i, "-" + d);
      HasParts(s, i, "-", d);
      ReadsBack(s, i + 1, m, d, end, Wrap32(m));
      ReadNegative(s, i, Wrap32(m), end);
    } else {
      NoSign(s, i, n, Digits(n, 10));
      ReadsBack(s, i, n, Digits(n, 10), end, n);
      ReadPositive(s, i, n, end);
    }
  }

  // ----- Numbers of any length, whose accumulation wraps -----

  lemma DigitTable(d: nat)
    requires d < 16
    ensures DigitChar(d) == "0123456789ABCDEF"[d] && DigitMeans("0123456789ABCDEF"[d]) == d
    ensures d < 10 ==> IsDigit(DigitChar(d)) && DigitValue(DigitChar(d)) == d
  {
  }

  /** Wrapping changes a number by a multiple of 2^32. */
  lemma WrapIs(n: int)
    ensures (Wrap32(n) - n) % TWO_32 == 0
  {
  }

  lemma WrapUnique(a: int32, b: int32)
    requires (a - b) % TWO_32 == 0
    ensures a == b
  {
  }

  lemma WrapStep(n: int, d: int)
    ensures Wrap32(Wrap32(n) * 10 + d) == Wrap32(n * 10 + d)
  {
    WrapIs(n);
    var q := (Wrap32(n) - n) / TWO_32;
    assert Wrap32(n) == n + TWO_32 * q;
    var x, y := Wrap32(n) * 10 + d, n * 10 + d;
    assert x == y + TWO_32 * (10 * q);
    WrapIs(x);
    WrapIs(y);
    var u, v := (Wrap32(x) - x) / TWO_32, (Wrap32(y) - y) / TWO_32;
    assert Wrap32(x) - Wrap32(y) == TWO_32 * (u - v + 10 * q);
    WrapUnique(Wrap32(x), Wrap32(y));
  }

  /** The digits in front of this one leave the accumulated number where the loop goes on. */
  ghost predicate Continues(d: text, k: nat)
    requires k < |d|
  {
    IsDigit(d[k]) && 0 <= Wrap32(NumberOf(d[..k], 10)) <= INT_MAX - 1
  }

  ghost predicate GoesOn(d: text) { forall k: nat {:trigger Continues(d, k)} :: k < |d| ==> Continues(d, k) }

  lemma ReadOne(s: text, j: nat, c: char, n: nat)
    requires j < |s| && s[j] == c && IsDigit(c) && 0 <= Wrap32(n) <= INT_MAX - 1
    ensures ReadDigits(s, j, Wrap32(n)) == ReadDigits(s, j + 1, Wrap32(n * 10 + DigitMeans(c)))
  {
    WrapStep(n, DigitValue(c));
  }

  lemma NumberTo(d: text, k: nat)
    requires 0 < k <= |d|
    ensures NumberOf(d[..k], 10) == NumberOf(d[..k - 1], 10) * 10 + DigitMeans(d[k - 1])
  {
    assert d[..k] == d[..k - 1] + [d[k - 1]];
    NumberSnoc(d[..k - 1], d[k - 1], 10);
  }

  lemma CharOf(s: text, i: nat, d: text, k: nat)
    requires Has(s, i, d) && k < |d|
    ensures i + k < |s| && s[i + k] == d[k]
  {
    assert s[i..i + |d|][k] == s[i + k];
  }

  lemma ReadStopsAt(s: text, end: nat, v: int32)
    requires end <= |s| && (IsDigit(At(s, end)) ==> !(0 <= v <= INT_MAX - 1))
    ensures ReadDigits(s, end, v) == (v, end)
  {
  }

  /** One more digit: c at j, behind digits that denote m. */
  lemma ReadMore(s: text, j: nat, c: char, m: nat, n: nat, r: (int32, nat))
    requires j < |s| && s[j] == c && IsDigit(c) && 0 <= Wrap32(m) <= INT_MAX - 1 && n == m * 10 + DigitMeans(c)
    requires r == ReadDigits(s, j, Wrap32(m))
    ensures r == ReadDigits(s, j + 1, Wrap32(n))
  {
    ReadOne(s, j, c, m);
  }

  lemma {:induction false} ReadsTo(s: text, i: nat, d: text, k: nat, n: nat, r: (int32, nat))
    requires Has(s, i, d) && GoesOn(d) && k <= |d| && n == NumberOf(d[..k], 10) && r == ReadDigits(s, i, 0)
    ensures r == ReadDigits(s, i + k, Wrap32(n))
    decreases k
  {
    if k > 0 {
      var m := NumberOf(d[..k - 1], 10);
      ReadsTo(s, i, d, k - 1, m, r);
      assert Continues(d, k - 1);
      NumberTo(d, k);
      CharOf(s, i, d, k - 1);
      ReadMore(s, i + k - 1, d[k - 1], m, n, r);
    }
  }

  /**
  The loop takes digits as long as the number before each, modulo 2^32, is from 0 to INT_MAX - 1, and
  gives the number they denote modulo 2^32.
  */
  lemma ReadsPrefix(s: text, i: nat, d: text)
    requires Has(s, i, d) && GoesOn(d)
    requires IsDigit(At(s, i + |d|)) ==> !(0 <= Wrap32(NumberOf(d, 10)) <= INT_MAX - 1)
    ensures ReadDigits(s, i, 0) == (Wrap32(NumberOf(d, 10)), i + |d|)
  {
    ReadsAndStops(s, i, d, NumberOf(d, 10), i + |d|, ReadDigits(s, i, 0));
  }

  lemma ReadsAndStops(s: text, i: nat, d: text, n: nat, end: nat, r: (int32, nat))
    requires Has(s, i, d) && GoesOn(d) && n == NumberOf(d, 10) && end == i + |d| && r == ReadDigits(s, i, 0)
    requires IsDigit(At(s, end)) ==> !(0 <= Wrap32(n) <= INT_MAX - 1)
    ensures r == (Wrap32(n), end)
  {
    assert d[..|d|] == d;
    ReadsTo(s, i, d, |d|, n, r);
    ReadStopsAt(s, end, Wrap32(n));
  }
}
