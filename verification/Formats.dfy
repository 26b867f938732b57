/**
printf and scanf of the user library (stdio.c) as functions on format strings, and on which formats
the second inverts the first.
*/
module Formats {
  import opened Options
  import opened Numerals

  type cchar = c: char | c as int < 256

  // ----- Printing -----

  datatype Arg = IntArg(n: int32) | StrArg(s: text)

  const PRINTF_FORMATS: set<char> := {'s', 'x', 'd', 'o', 'b', 'c'}

  predicate Fits(option: char, a: Arg) { if option == 's' then a.StrArg? else a.IntArg? }

  /** print_arg for one supported option. */
  function PrintArg(option: char, a: Arg): text
    requires option in PRINTF_FORMATS && Fits(option, a)
  {
    match option
    case 's' => a.s
    case 'd' => Decimal(a.n)
    case 'x' => Digits(ToUint32(a.n), 16)
    case 'o' => Digits(ToUint32(a.n), 8)
    case 'b' => Digits(ToUint32(a.n), 2)
    case _ => [(ToUint32(a.n) % 256) as char]
  }

  /** The output from position j of the format on; None when the arguments do not match it. */
  function Printed(fmt: text, j: nat, args: seq<Arg>): Option<text>
    requires j <= |fmt|
    decreases |fmt| - j
  {
    if At(fmt, j) == '\0' then Some([])
    else if fmt[j] != '%' then Then([fmt[j]], Printed(fmt, j + 1, args))
    else if At(fmt, j + 1) !in PRINTF_FORMATS then Then("%", Printed(fmt, j + 1, args))
    else if args == [] || !Fits(fmt[j + 1], args[0]) then None
    else Then(PrintArg(fmt[j + 1], args[0]), Printed(fmt, j + 2, args[1..]))
  }

  function Then(head: text, tail: Option<text>): Option<text> {
    if tail.Some? then Some(head + tail.value) else None
  }

  // ----- Scanning -----

  datatype Value = IntValue(n: int32) | CharValue(c: char) | StrValue(s: text)

  const SCANF_FORMATS: set<char> := {'s', 'd', 'c'}

  /** Scanned: the returned count and what was stored. OverRead: a string was read past its NUL. */
  datatype Scan = Scanned(read: int, values: seq<Value>) | OverRead

  function SkipSpaces(s: text, i: nat): (k: nat)
    requires i <= |s|
    ensures i <= k <= |s| && !IsSpace(At(s, k))
    ensures forall m :: i <= m < k ==> IsSpace(s[m])
    decreases |s| - i
  {
    if IsSpace(At(s, i)) then SkipSpaces(s, i + 1) else i
  }

  predicate EndsString(c: char, next: char) { IsSpace(c) || c == '\0' || c == EOF_CHAR || c == next }

  /** Where read_str stops. */
  function StringEnd(s: text, i: nat, next: char): (k: nat)
    requires i <= |s|
    ensures i <= k <= |s| && EndsString(At(s, k), next)
    ensures forall m :: i <= m < k ==> !EndsString(s[m], next)
    decreases |s| - i
  {
    if EndsString(At(s, i), next) then i else StringEnd(s, i + 1, next)
  }

  /** read_arg: the stored value and how many characters it took. */
  function ReadArg(b: text, i: nat, option: char, next: char): (Value, nat)
    requires i <= |b| && option in SCANF_FORMATS
  {
    match option
    case 's' => (StrValue(b[i..StringEnd(b, i, next)]), StringEnd(b, i, next) - i)
    case 'd' => (IntValue(ReadDec(b, i).0), ReadDec(b, i).1)
    case _ => (CharValue(At(b, i)), 1)
  }

  /** vsscanf from position i of the input and j of the format on. */
  function ScanFrom(b: text, f: text, i: nat, j: nat, values: seq<Value>): Scan
    decreases |f| + 1 - j, 1
  {
    if i > |b| || j > |f| then OverRead
    else if At(b, i) == '\0' || At(f, j) == '\0' then ScanEnd(b, f, i, j, values)
    else ScanItem(b, f, SkipSpaces(b, i), SkipSpaces(f, j), values)
  }

  /** One turn of its loop, behind the spaces. */
  function ScanItem(b: text, f: text, i: nat, j: nat, values: seq<Value>): Scan
    requires i <= |b| && j <= |f|
    decreases |f| + 1 - j, 0
  {
    if At(f, j) == '%' then
      if At(f, j + 1) !in SCANF_FORMATS then Scanned(|values|, values)
      else
        var (v, len) := ReadArg(b, i, f[j + 1], At(f, j + 2));
        if len == 0 then Scanned(|values|, values + [v])
        else ScanFrom(b, f, i + len, j + 2, values + [v])
    else if At(b, i) != At(f, j) then Scanned(|values|, values)
    else ScanFrom(b, f, i + 1, j + 1, values)
  }

  function ScanEnd(b: text, f: text, i: nat, j: nat, values: seq<Value>): Scan
    requires i <= |b| && j <= |f|
  {
    if At(f, SkipSpaces(f, j)) != '\0' || At(b, SkipSpaces(b, i)) != '\0' then Scanned(-1, values)
    else Scanned(|values|, values)
  }

  // ----- Any input: what a scan may store -----

  /** The conversions of the format from j on, up to one that is not supported. */
  function Conversions(f: text, j: nat): seq<char>
    decreases |f| - j
  {
    if j >= |f| then []
    else if f[j] != '%' then Conversions(f, j + 1)
    else if At(f, j + 1) in SCANF_FORMATS then [f[j + 1]] + Conversions(f, j + 2)
    else []
  }

  predicate IsKind(option: char, v: Value) {
    match v
    case IntValue(_) => option == 'd'
    case CharValue(_) => option == 'c'
    case StrValue(_) => option == 's'
  }

  /** Each value is of the kind that its conversion asks for, in order. */
  ghost predicate Stored(options: seq<char>, vs: seq<Value>) {
    |vs| <= |options| && forall k :: 0 <= k < |vs| ==> IsKind(options[k], vs[k])
  }

  lemma {:induction false} SpacesHoldNoConversion(f: text, j: nat)
    requires j <= |f|
    ensures Conversions(f, SkipSpaces(f, j)) == Conversions(f, j)
    decreases |f| - j
  {
    if IsSpace(At(f, j)) { SpacesHoldNoConversion(f, j + 1); }
  }

  lemma KindOfArg(b: text, i: nat, option: char, next: char)
    requires i <= |b| && option in SCANF_FORMATS
    ensures IsKind(option, ReadArg(b, i, option, next).0)
  {
  }

  /** r ends a scan that had stored the values before, with the options still to come. */
  ghost predicate EndsWell(r: Scan, before: seq<Value>, options: seq<char>) {
    r.Scanned? ==>
      && before <= r.values && Stored(options, r.values[|before|..])
      && r.read in {|r.values|, |r.values| - 1, -1}
  }

  lemma MoreStored(r: Scan, before: seq<Value>, v: Value, option: char, options: seq<char>)
    requires IsKind(option, v) && EndsWell(r, before + [v], options)
    ensures EndsWell(r, before, [option] + options)
  {
    if r.Scanned? {
      var vs := r.values[|before|..];
      assert vs[0] == v && vs[1..] == r.values[|before + [v]|..];
    }
  }

  /**
  On any input and format, what a scan stores are values of the kinds that the format asks for, in its
  order; the answer is their number, one less when the last is an unread number or string, or -1.
  */
  lemma {:induction false} ScanStores(b: text, f: text, i: nat, j: nat, values: seq<Value>, r: Scan)
    requires r == ScanFrom(b, f, i, j, values)
    ensures EndsWell(r, values, Conversions(f, j))
    decreases |f| + 1 - j
  {
    if i <= |b| && j <= |f| && At(b, i) != '\0' && At(f, j) != '\0' {
      var i', j' := SkipSpaces(b, i), SkipSpaces(f, j);
      SpacesHoldNoConversion(f, j);
      if At(f, j') != '%' {
        if At(b, i') == At(f, j') { ScanStores(b, f, i' + 1, j' + 1, values, r); }
      } else if At(f, j' + 1) in SCANF_FORMATS {
        var (v, len) := ReadArg(b, i', f[j' + 1], At(f, j' + 2));
        KindOfArg(b, i', f[j' + 1], At(f, j' + 2));
        if len > 0 { ScanStores(b, f, i' + len, j' + 2, values + [v], r); }
        MoreStored(r, values, v, f[j' + 1], Conversions(f, j' + 2));
      }
    }
  }

  // ----- Formats with their arguments -----

  datatype Item = Lit(c: char) | Dec(n: int32) | Chr(ch: cchar) | Str(s: text)

  function ItemFormat(x: Item): (r: text)
    ensures r != []
  {
    match x
    case Lit(c) => [c]
    case Dec(_) => "%d"
    case Chr(_) => "%c"
    case Str(_) => "%s"
  }

  function ItemOutput(x: Item): text {
    match x
    case Lit(c) => [c]
    case Dec(n) => Decimal(n)
    case Chr(c) => [c]
    case Str(s) => s
  }

  function Format(xs: seq<Item>): text { if xs == [] then [] else ItemFormat(xs[0]) + Format(xs[1..]) }

  function Output(xs: seq<Item>): text { if xs == [] then [] else ItemOutput(xs[0]) + Output(xs[1..]) }

  function ItemArgs(x: Item): seq<Arg> {
    match x
    case Lit(_) => []
    case Dec(n) => [IntArg(n)]
    case Chr(c) => [IntArg(c as int)]
    case Str(s) => [StrArg(s)]
  }

  function ItemValues(x: Item): seq<Value> {
    match x
    case Lit(_) => []
    case Dec(n) => [IntValue(n)]
    case Chr(c) => [CharValue(c)]
    case Str(s) => [StrValue(s)]
  }

  function Args(xs: seq<Item>): seq<Arg> { if xs == [] then [] else ItemArgs(xs[0]) + Args(xs[1..]) }

  function Values(xs: seq<Item>): seq<Value> { if xs == [] then [] else ItemValues(xs[0]) + Values(xs[1..]) }

  /** What keeps the text of an item apart from what is printed behind it. */
  predicate Delimited(x: Item, rest: seq<Item>) {
    match x
    case Lit(c) => c != '%' && c != '\0'
    case Dec(_) => !IsDigit(At(Output(rest), 0))
    case Chr(c) => !IsSpace(c) && c != '\0'
    case Str(s) =>
      var next := At(Format(rest), 0);
      s != [] && (rest == [] || rest[0].Lit?) && forall k :: 0 <= k < |s| ==> !EndsString(s[k], next)
  }

  predicate Scannable(xs: seq<Item>) { xs == [] || (Delimited(xs[0], xs[1..]) && Scannable(xs[1..])) }

  /** The head of xs stands at position j of f, and the rest behind it. */
  lemma HeadAt(f: text, j: nat, head: text, rest: text)
    requires j <= |f| && f[j..] == head + rest
    ensures j + |head| <= |f| && f[j + |head|..] == rest && Has(f, j, head)
    ensures At(f, j + |head|) == At(rest, 0)
  {
  }

  lemma HeadChar(f: text, j: nat, head: text, rest: text, k: nat)
    requires j <= |f| && f[j..] == head + rest && k < |head|
    ensures j + k < |f| && f[j + k] == head[k]
  {
    assert f[j + k] == f[j..][k];
  }

  /** Printing one item and what follows it. */
  lemma PrintedStep(f: text, j: nat, x: Item, args: seq<Arg>)
    requires j + |ItemFormat(x)| <= |f| && f[j] == ItemFormat(x)[0]
    requires if x.Lit? then x.c != '%' && x.c != '\0' else f[j + 1] == ItemFormat(x)[1]
    ensures Printed(f, j, ItemArgs(x) + args) == Then(ItemOutput(x), Printed(f, j + |ItemFormat(x)|, args))
  {
    if !x.Lit? {
      var a := ItemArgs(x) + args;
      assert a[0] == ItemArgs(x)[0] && a[1..] == args;
      assert PrintArg(f[j + 1], a[0]) == ItemOutput(x);
    } else {
      assert ItemArgs(x) + args == args;
    }
  }

  lemma PrintedHead(f: text, j: nat, x: Item, rest: text, args: seq<Arg>)
    requires j <= |f| && f[j..] == ItemFormat(x) + rest && (x.Lit? ==> x.c != '%' && x.c != '\0')
    ensures j + |ItemFormat(x)| <= |f| && f[j + |ItemFormat(x)|..] == rest
    ensures Printed(f, j, ItemArgs(x) + args) == Then(ItemOutput(x), Printed(f, j + |ItemFormat(x)|, args))
  {
    var head := ItemFormat(x);
    HeadAt(f, j, head, rest);
    HeadChar(f, j, head, rest, 0);
    if |head| == 2 { HeadChar(f, j, head, rest, 1); }
    PrintedStep(f, j, x, args);
  }

  /** printf of the format with the arguments prints the items one after the other. */
  lemma {:induction false} PrintedItems(f: text, j: nat, xs: seq<Item>)
    requires j <= |f| && f[j..] == Format(xs) && Scannable(xs)
    ensures Printed(f, j, Args(xs)) == Some(Output(xs))
    decreases |xs|
  {
    if xs != [] {
      PrintedHead(f, j, xs[0], Format(xs[1..]), Args(xs[1..]));
      PrintedItems(f, j + |ItemFormat(xs[0])|, xs[1..]);
    }
  }

  /** No percent sign of f is followed by a supported option, and it holds no NUL. */
  ghost predicate Plain(f: text) {
    forall k :: 0 <= k < |f| ==> f[k] != '\0' && (f[k] == '%' ==> At(f, k + 1) !in PRINTF_FORMATS)
  }

  /** Text without conversions is printed as it is, percent signs included. */
  lemma {:induction false} PrintedPlain(f: text, j: nat, args: seq<Arg>)
    requires j <= |f| && Plain(f)
    ensures Printed(f, j, args) == Some(f[j..])
    decreases |f| - j
  {
    if j < |f| {
      PrintedPlain(f, j + 1, args);
      assert [f[j]] + f[j + 1..] == f[j..];
      if f[j] == '%' { assert "%" == [f[j]]; }
    } else {
      assert f[j..] == [];
    }
  }

  /** t is the number in the base: its digits, most significant first, with no 0 in front. */
  ghost predicate Spells(t: text, n: nat, base: nat) {
    && t != [] && NumberOf(t, base) == n && (forall c :: c in t ==> DigitMeans(c) < base)
    && (t[0] == '0' ==> |t| == 1)
  }

  /** A negative int as an unsigned one. */
  function Unsigned(n: int32): nat { if n < 0 then n + 0x1_0000_0000 else n }

  /** What each conversion prints of a number. */
  ghost predicate Shows(option: char, n: int, t: text)
    requires INT_MIN <= n <= INT_MAX
  {
    && (option == 'x' ==> Spells(t, Unsigned(n), 16))
    && (option == 'o' ==> Spells(t, Unsigned(n), 8))
    && (option == 'b' ==> Spells(t, Unsigned(n), 2))
    && (option == 'd' && n >= 0 ==> Spells(t, n, 10))
    && (option == 'd' && n < 0 ==> t != [] && t[0] == '-' && Spells(t[1..], -n, 10))
    && (option == 'c' ==> |t| == 1 && t[0] as int == n % 256)
  }

  /** Strings as they are, and numbers in the base of the conversion; only %d prints a sign. */
  lemma PrintArgMeans(option: char, a: Arg)
    requires option in PRINTF_FORMATS && Fits(option, a)
    ensures if a.StrArg? then PrintArg(option, a) == a.s else Shows(option, a.n, PrintArg(option, a))
  {
    if a.IntArg? {
      var u, n: int := ToUint32(a.n), a.n;
      assert u == Unsigned(a.n);
      match option
      case 'x' => DigitsSpell(u, 16);
      case 'o' => DigitsSpell(u, 8);
      case 'b' => DigitsSpell(u, 2);
      case 'd' => if n < 0 { MagnitudeOf(n); DigitsSpell(-n, 10); } else { DigitsSpell(n, 10); }
      case _ => assert n % 256 == u % 256;
    }
  }

  lemma DigitsSpell(n: nat, base: nat)
    requires 2 <= base <= 16
    ensures Spells(Digits(n, base), n, base)
  {
    DigitsDenote(n, base);
  }

  // ----- Scanning what was printed -----

  ghost predicate EndsInSpace(xs: seq<Item>) {
    xs != [] && xs[|xs| - 1].Lit? && IsSpace(xs[|xs| - 1].c)
  }

  predicate IsBlank(x: Item) { x.Lit? && IsSpace(x.c) }

  lemma {:induction false} DigitsNotSpace(n: int32)
    ensures Decimal(n) != [] && !IsSpace(Decimal(n)[0]) && Decimal(n)[0] != '\0'
  {
    if n >= 0 { DigitsAreDigits(n, 10); }
  }

  /** The first characters of non-empty scannable items. */
  lemma FirstChars(xs: seq<Item>)
    requires xs != [] && Scannable(xs)
    ensures Output(xs) != [] && Output(xs)[0] != '\0' && Format(xs) != [] && Format(xs)[0] != '\0'
    ensures !IsBlank(xs[0]) ==> !IsSpace(Output(xs)[0]) && !IsSpace(Format(xs)[0])
    ensures IsBlank(xs[0]) ==> IsSpace(Output(xs)[0]) && IsSpace(Format(xs)[0])
  {
    if xs[0].Dec? { DigitsNotSpace(xs[0].n); }
    if xs[0].Str? { assert !EndsString(xs[0].s[0], At(Format(xs[1..]), 0)); }
  }

  /** The output and the format of xs are what is left of both strings. */
  ghost predicate Remains(b: text, i: nat, f: text, j: nat, xs: seq<Item>) {
    i <= |b| && j <= |f| && b[i..] == Output(xs) && f[j..] == Format(xs)
  }

  lemma ItemNotEmpty(x: Item, rest: seq<Item>)
    requires Delimited(x, rest)
    ensures ItemOutput(x) != []
  {
  }

  /** read_arg on the printed text of an item takes exactly that text and recovers the argument. */
  lemma ReadBack(b: text, i: nat, x: Item, rest: seq<Item>, option: char)
    requires Delimited(x, rest) && !x.Lit? && Scannable(rest)
    requires Has(b, i, ItemOutput(x)) && At(b, i + |ItemOutput(x)|) == At(Output(rest), 0)
    requires option == ItemFormat(x)[1]
    ensures option in SCANF_FORMATS
    ensures ReadArg(b, i, option, At(Format(rest), 0)) == (ItemValues(x)[0], |ItemOutput(x)|) && ItemOutput(x) != []
  {
    ItemNotEmpty(x, rest);
    match x
    case Dec(n) =>
      DecimalRoundTrip(b, i, n);
    case Chr(c) =>
      HasFirst(b, i, ItemOutput(x));
    case Str(s) =>
      StrBack(b, i, s, rest);
  }

  /** read_str stops at the first character of what is printed next. */
  lemma StrBack(b: text, i: nat, s: text, rest: seq<Item>)
    requires Delimited(Str(s), rest) && Scannable(rest) && Has(b, i, s) && At(b, i + |s|) == At(Output(rest), 0)
    ensures StringEnd(b, i, At(Format(rest), 0)) == i + |s|
  {
  }

  lemma NoSkip(s: text, i: nat)
    requires i <= |s| && !IsSpace(At(s, i))
    ensures SkipSpaces(s, i) == i
  {
  }

  ghost function Expected(xs: seq<Item>, values: seq<Value>): Scan {
    if EndsInSpace(xs) then OverRead else Scanned(|values + Values(xs)|, values + Values(xs))
  }

  lemma ExpectedStep(xs: seq<Item>, values: seq<Value>)
    requires xs != [] && (|xs| > 1 || !IsBlank(xs[0]))
    ensures Expected(xs, values) == Expected(xs[1..], values + ItemValues(xs[0]))
  {
    assert values + Values(xs) == values + ItemValues(xs[0]) + Values(xs[1..]);
  }

  /** A blank at the head of both strings is skipped like a matched character. */
  lemma BlankStep(b: text, f: text, i: nat, j: nat, values: seq<Value>)
    requires i < |b| && j < |f| && IsSpace(b[i]) && IsSpace(f[j])
    requires At(b, i + 1) != '\0' && At(f, j + 1) != '\0'
    ensures ScanFrom(b, f, i, j, values) == ScanFrom(b, f, i + 1, j + 1, values)
  {
  }

  /** With only a blank left in both strings the loop runs past both terminators. */
  lemma LastBlank(b: text, f: text, i: nat, j: nat, values: seq<Value>)
    requires i + 1 == |b| && j + 1 == |f| && IsSpace(b[i]) && IsSpace(f[j])
    ensures ScanFrom(b, f, i, j, values) == OverRead
  {
    NoSkip(b, |b|);
    NoSkip(f, |f|);
    assert SkipSpaces(b, i) == |b| && SkipSpaces(f, j) == |f|;
    assert ScanFrom(b, f, |b| + 1, |f| + 1, values) == OverRead;
  }

  lemma LitStep(b: text, f: text, i: nat, j: nat, c: char, values: seq<Value>)
    requires i < |b| && j < |f| && b[i] == c && f[j] == c && !IsSpace(c) && c != '%' && c != '\0'
    ensures ScanFrom(b, f, i, j, values) == ScanFrom(b, f, i + 1, j + 1, values)
  {
  }

  /** A conversion at j reads v from the characters between i and i'. */
  ghost predicate ArgAt(b: text, f: text, i: nat, j: nat, v: Value, i': nat) {
    && i < i' <= |b| && b[i] != '\0' && !IsSpace(b[i])
    && j + 2 <= |f| && f[j] == '%' && f[j + 1] in SCANF_FORMATS
    && ReadArg(b, i, f[j + 1], At(f, j + 2)) == (v, i' - i)
  }

  lemma ArgStep(b: text, f: text, i: nat, j: nat, v: Value, i': nat, values: seq<Value>)
    requires ArgAt(b, f, i, j, v, i')
    ensures ScanFrom(b, f, i, j, values) == ScanFrom(b, f, i', j + 2, values + [v])
  {
    NoSkip(b, i);
    NoSkip(f, j);
  }

  /** The positions behind the first item, and the characters there. */
  ghost predicate Next(b: text, f: text, i: nat, j: nat, xs: seq<Item>, i': nat, j': nat)
    requires xs != []
  {
    && i' == i + |ItemOutput(xs[0])| <= |b| && j' == j + |ItemFormat(xs[0])| <= |f|
    && At(b, i') == At(Output(xs[1..]), 0) && At(f, j') == At(Format(xs[1..]), 0)
    && Has(b, i, ItemOutput(xs[0])) && Has(f, j, ItemFormat(xs[0]))
  }

  lemma NextItem(b: text, f: text, i: nat, j: nat, xs: seq<Item>) returns (i': nat, j': nat)
    requires xs != [] && Remains(b, i, f, j, xs)
    ensures Next(b, f, i, j, xs, i', j') && Remains(b, i', f, j', xs[1..])
  {
    var out, fmt := ItemOutput(xs[0]), ItemFormat(xs[0]);
    HeadAt(b, i, out, Output(xs[1..]));
    HeadAt(f, j, fmt, Format(xs[1..]));
    i', j' := i + |out|, j + |fmt|;
  }

  /** The scan passes a literal character. */
  lemma LitItem(b: text, f: text, i: nat, j: nat, xs: seq<Item>, values: seq<Value>, i': nat, j': nat, r: Scan)
    requires xs != [] && Scannable(xs) && xs[0].Lit? && (|xs| > 1 || !IsBlank(xs[0])) && Next(b, f, i, j, xs, i', j')
    requires r == ScanFrom(b, f, i, j, values)
    ensures r == ScanFrom(b, f, i', j', values + ItemValues(xs[0]))
  {
    HasFirst(b, i, ItemOutput(xs[0]));
    HasFirst(f, j, ItemFormat(xs[0]));
    if IsBlank(xs[0]) {
      FirstChars(xs[1..]);
      BlankStep(b, f, i, j, values);
    } else {
      LitStep(b, f, i, j, xs[0].c, values);
    }
    assert values + ItemValues(xs[0]) == values;
  }

  lemma ConversionAt(f: text, j: nat, x: Item)
    requires !x.Lit? && Has(f, j, ItemFormat(x))
    ensures f[j] == '%' && f[j + 1] == ItemFormat(x)[1] && f[j + 1] in SCANF_FORMATS && |ItemFormat(x)| == 2
  {
  }

  /** What stands at the two positions when a conversion is next. */
  lemma ArgReads(b: text, f: text, i: nat, j: nat, xs: seq<Item>, i': nat, j': nat) returns (v: Value)
    requires xs != [] && Scannable(xs) && !xs[0].Lit? && Next(b, f, i, j, xs, i', j')
    ensures j' == j + 2 && ItemValues(xs[0]) == [v] && ArgAt(b, f, i, j, v, i')
  {
    TailScannable(xs);
    v := ItemReads(b, f, i, j, xs[0], xs[1..], i', j');
  }

  lemma ItemReads(b: text, f: text, i: nat, j: nat, x: Item, rest: seq<Item>, i': nat, j': nat) returns (v: Value)
    requires Delimited(x, rest) && Scannable(rest) && !x.Lit?
    requires i' == i + |ItemOutput(x)| <= |b| && j' == j + |ItemFormat(x)| <= |f|
    requires At(b, i') == At(Output(rest), 0) && At(f, j') == At(Format(rest), 0)
    requires Has(b, i, ItemOutput(x)) && Has(f, j, ItemFormat(x))
    ensures j' == j + 2 && ItemValues(x) == [v] && ArgAt(b, f, i, j, v, i')
  {
    ConversionAt(f, j, x);
    ReadBack(b, i, x, rest, f[j + 1]);
    ItemStart(x, rest);
    HasFirst(b, i, ItemOutput(x));
    v := ItemValues(x)[0];
  }

  /** The scan passes a conversion and stores its argument. */
  lemma ArgItem(b: text, f: text, i: nat, j: nat, xs: seq<Item>, values: seq<Value>, i': nat, j': nat, r: Scan)
    requires xs != [] && Scannable(xs) && !xs[0].Lit? && Next(b, f, i, j, xs, i', j')
    requires r == ScanFrom(b, f, i, j, values)
    ensures r == ScanFrom(b, f, i', j', values + ItemValues(xs[0]))
  {
    var v := ArgReads(b, f, i, j, xs, i', j');
    ArgStep(b, f, i, j, v, i', values);
  }

  lemma ItemStart(x: Item, rest: seq<Item>)
    requires Delimited(x, rest) && !x.Lit?
    ensures ItemOutput(x) != [] && ItemOutput(x)[0] != '\0' && !IsSpace(ItemOutput(x)[0])
  {
    if x.Dec? { DigitsNotSpace(x.n); }
    if x.Str? { assert !EndsString(x.s[0], At(Format(rest), 0)); }
  }

  lemma TailScannable(xs: seq<Item>)
    requires xs != [] && Scannable(xs)
    ensures Delimited(xs[0], xs[1..]) && Scannable(xs[1..])
  {
  }

  /** The scan passes the first item and stores what it stands for. */
  lemma ScanStep(b: text, f: text, i: nat, j: nat, xs: seq<Item>, values: seq<Value>, r: Scan)
    returns (i': nat, j': nat)
    requires xs != [] && Remains(b, i, f, j, xs) && Scannable(xs) && (|xs| > 1 || !IsBlank(xs[0]))
    requires r == ScanFrom(b, f, i, j, values)
    ensures Remains(b, i', f, j', xs[1..]) && r == ScanFrom(b, f, i', j', values + ItemValues(xs[0]))
  {
    i', j' := NextItem(b, f, i, j, xs);
    if xs[0].Lit? {
      LitItem(b, f, i, j, xs, values, i', j', r);
    } else {
      ArgItem(b, f, i, j, xs, values, i', j', r);
    }
  }

  /**
  vsscanf with the format on what printf made of it recovers every argument, unless the format ends
  in a space: then it reads past the end of both strings.
  */
  lemma {:induction false} ScanItems(b: text, f: text, i: nat, j: nat, xs: seq<Item>, values: seq<Value>, r: Scan)
    requires Remains(b, i, f, j, xs) && Scannable(xs) && r == ScanFrom(b, f, i, j, values)
    ensures r == Expected(xs, values)
    decreases |xs|
  {
    if xs == [] {
      ScanNothing(b, f, values);
    } else if |xs| == 1 && IsBlank(xs[0]) {
      ScanLastBlank(b, f, i, j, xs, values);
    } else {
      var i', j' := ScanStep(b, f, i, j, xs, values, r);
      ExpectedStep(xs, values);
      TailScannable(xs);
      ScanItems(b, f, i', j', xs[1..], values + ItemValues(xs[0]), r);
    }
  }

  lemma ScanNothing(b: text, f: text, values: seq<Value>)
    ensures ScanFrom(b, f, |b|, |f|, values) == Expected([], values)
  {
  }

  lemma ScanLastBlank(b: text, f: text, i: nat, j: nat, xs: seq<Item>, values: seq<Value>)
    requires |xs| == 1 && IsBlank(xs[0]) && Remains(b, i, f, j, xs)
    ensures ScanFrom(b, f, i, j, values) == Expected(xs, values)
  {
    var i', j' := NextItem(b, f, i, j, xs);
    HasFirst(b, i, ItemOutput(xs[0]));
    HasFirst(f, j, ItemFormat(xs[0]));
    assert b[i'..] == [] && f[j'..] == [];
    LastBlank(b, f, i, j, values);
  }

  lemma PrintAll(xs: seq<Item>, fmt: text)
    requires Scannable(xs) && fmt == Format(xs)
    ensures Printed(fmt, 0, Args(xs)) == Some(Output(xs))
  {
    assert fmt[0..] == fmt;
    PrintedItems(fmt, 0, xs);
  }

  lemma ScanAll(xs: seq<Item>, out: text, fmt: text, r: Scan)
    requires Scannable(xs) && out == Output(xs) && fmt == Format(xs) && r == ScanFrom(out, fmt, 0, 0, [])
    ensures r == if EndsInSpace(xs) then OverRead else Scanned(|Values(xs)|, Values(xs))
  {
    assert fmt[0..] == fmt && out[0..] == out;
    ScanItems(out, fmt, 0, 0, xs, [], r);
    assert [] + Values(xs) == Values(xs);
  }

  /** printf, then scanf with the same format. */
  lemma ScanAfterPrint(xs: seq<Item>)
    requires Scannable(xs)
    ensures Printed(Format(xs), 0, Args(xs)) == Some(Output(xs))
    ensures ScanFrom(Output(xs), Format(xs), 0, 0, []) ==
            if EndsInSpace(xs) then OverRead else Scanned(|Values(xs)|, Values(xs))
  {
    PrintAll(xs, Format(xs));
    ScanAll(xs, Output(xs), Format(xs), ScanFrom(Output(xs), Format(xs), 0, 0, []));
  }
}
