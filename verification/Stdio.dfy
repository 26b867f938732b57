/** The loops of vfprintf and vsscanf (stdio.c), tied to the functions of Formats. */
module Stdio {
  import opened Options
  import opened Numerals
  import opened Formats
  import opened Words

  // ----- Printing -----

  /** size is that of the buffer, 20 in the source. */
  method PrintNumber(number: uint32, base: nat, size: nat) returns (out: text)
    requires 2 <= base <= 16 && |Digits(number, base)| < size
    ensures out == Digits(number, base)
  {
    var buffer := new char[size];
    var digits := NumToBase(number, buffer, base);
    out := buffer[..digits];
  }

  method PrintDec(num: int32) returns (out: text)
    ensures out == Decimal(num)
  {
    PrintBuffer(ToUint32(if num < 0 then Wrap32(num * -1) else num));
    if num < 0 {
      var digits := PrintNumber(ToUint32(Wrap32(num * -1)), 10, 20);
      out := "-" + digits;
    } else {
      out := PrintNumber(ToUint32(num), 10, 20);
    }
  }

  method PrintOption(option: char, a: Arg) returns (out: text)
    requires option in PRINTF_FORMATS && Fits(option, a)
    ensures out == PrintArg(option, a)
  {
    if a.IntArg? { PrintBuffer(ToUint32(a.n)); }
    match option
    case 's' => out := a.s;
    case 'x' => out := PrintNumber(ToUint32(a.n), 16, 20);
    case 'd' => out := PrintDec(a.n);
    case 'o' => out := PrintNumber(ToUint32(a.n), 8, 20);
    case 'b' => out := PrintNumber(ToUint32(a.n), 2, 33);
    case _ => out := [(ToUint32(a.n) % 256) as char];
  }

  /** The characters that go to the file, and their number. */
  method Vfprintf(fmt: text, args: seq<Arg>) returns (out: text, written: nat)
    requires Printed(fmt, 0, args).Some?
    ensures Some(out) == Printed(fmt, 0, args) && written == |out|
  {
    out, written := [], 0;
    var j, k := 0, 0;
    assert args[0..] == args;
    NothingBefore(Printed(fmt, 0, args));
    while At(fmt, j) != '\0'
      invariant 0 <= j <= |fmt| && 0 <= k <= |args| && written == |out|
      invariant Printed(fmt, j, args[k..]).Some?
      invariant Printed(fmt, 0, args) == Then(out, Printed(fmt, j, args[k..]))
      decreases |fmt| - j
    {
      if fmt[j] != '%' {
        NextPiece(out, [fmt[j]], Printed(fmt, j + 1, args[k..]));
        out, written, j := out + [fmt[j]], written + 1, j + 1;
      } else if At(fmt, j + 1) !in PRINTF_FORMATS {
        NextPiece(out, "%", Printed(fmt, j + 1, args[k..]));
        out, written, j := out + "%", written + 1, j + 1;
      } else {
        assert args[k..][1..] == args[k + 1..];
        var piece := PrintOption(fmt[j + 1], args[k]);
        NextPiece(out, piece, Printed(fmt, j + 2, args[k + 1..]));
        out, written, j, k := out + piece, written + |piece|, j + 2, k + 1;
      }
    }
    assert out + [] == out;
  }

  lemma NothingBefore(t: Option<text>)
    ensures Then([], t) == t
  {
    if t.Some? { assert [] + t.value == t.value; }
  }

  lemma NextPiece(out: text, piece: text, tail: Option<text>)
    ensures Then(out, Then(piece, tail)) == Then(out + piece, tail)
  {
    if tail.Some? { assert out + (piece + tail.value) == out + piece + tail.value; }
  }

  // ----- Scanning -----

  method Skip(s: text, i: nat) returns (k: nat)
    requires i <= |s|
    ensures k == SkipSpaces(s, i)
  {
    k := i;
    while IsSpace(At(s, k))
      invariant i <= k <= |s| && SkipSpaces(s, k) == SkipSpaces(s, i)
      decreases |s| - k
    {
      k := k + 1;
    }
  }

  /** The characters up to a space, the end or the next format character. */
  method ReadStr(b: text, i: nat, next: char) returns (s: text, read: nat)
    requires i <= |b|
    ensures read == StringEnd(b, i, next) - i && s == b[i..i + read]
  {
    s, read := [], 0;
    while !EndsString(At(b, i + read), next)
      invariant i + read <= |b| && s == b[i..i + read]
      invariant StringEnd(b, i + read, next) == StringEnd(b, i, next)
      decreases |b| - read
    {
      s, read := s + [b[i + read]], read + 1;
    }
  }

  method ReadNumber(b: text, i: nat) returns (number: int32, read: nat)
    requires i <= |b|
    ensures (number, read) == ReadDec(b, i)
  {
    number := 0;
    var digits, negative, start := 0, 0, i;
    if At(b, i) == '-' {
      negative, start := 1, i + 1;
    }
    while !IsSpace(At(b, start + digits)) && At(b, start + digits) != '\0' && At(b, start + digits) != EOF_CHAR
      invariant start + digits <= |b|
      invariant ReadDigits(b, start, 0) == ReadDigits(b, start + digits, number)
      decreases |b| - digits
    {
      var c := At(b, start + digits);
      if c < '0' || c > '9' || !(0 <= number <= INT_MAX - 1) {
        break;
      }
      number := Wrap32(number * 10 + DigitValue(c));
      digits := digits + 1;
    }
    if negative == 1 {
      number := Wrap32(number * -1);
    }
    read := digits + negative;
  }

  method ReadOption(b: text, i: nat, option: char, next: char) returns (v: Value, read: nat)
    requires i <= |b| && option in SCANF_FORMATS
    ensures (v, read) == ReadArg(b, i, option, next)
  {
    match option
    case 's' =>
      var s, r := ReadStr(b, i, next);
      v, read := StrValue(s), r;
    case 'd' =>
      var n, r := ReadNumber(b, i);
      v, read := IntValue(n), r;
    case _ =>
      v, read := CharValue(At(b, i)), 1;
  }

  /** The returned count and the stored values, or that the scan left one of the strings. */
  method Vsscanf(b: text, f: text) returns (r: Scan)
    ensures r == ScanFrom(b, f, 0, 0, [])
  {
    var i: nat, j: nat, values := 0, 0, [];
    while i <= |b| && j <= |f| && At(b, i) != '\0' && At(f, j) != '\0'
      invariant ScanFrom(b, f, i, j, values) == ScanFrom(b, f, 0, 0, [])
      decreases |f| + 1 - j
    {
      j := Skip(f, j);
      i := Skip(b, i);
      if At(f, j) == '%' {
        if At(f, j + 1) !in SCANF_FORMATS {
          return Scanned(|values|, values);
        }
        var v, len := ReadOption(b, i, f[j + 1], At(f, j + 2));
        if len <= 0 {
          return Scanned(|values|, values + [v]);
        }
        i, j, values := i + len, j + 2, values + [v];
      } else {
        if At(b, i) != At(f, j) {
          return Scanned(|values|, values);
        }
        i, j := i + 1, j + 1;
      }
    }
    if i > |b| || j > |f| {
      return OverRead;
    }
    var j1 := Skip(f, j);
    var i1 := Skip(b, i);
    if At(f, j1) != '\0' || At(b, i1) != '\0' {
      return Scanned(-1, values);
    }
    return Scanned(|values|, values);
  }

  /** Printing any items and scanning the text with the same format gives the arguments back. */
  method PrintThenScan(xs: seq<Item>) returns (r: Scan)
    requires Scannable(xs)
    ensures r == if EndsInSpace(xs) then OverRead else Scanned(|Values(xs)|, Values(xs))
  {
    ScanAfterPrint(xs);
    var out, written := Vfprintf(Format(xs), Args(xs));
    r := Vsscanf(out, Format(xs));
  }
}
