/**
 What printf's conversions print, read back: numbers by the digits of their base, with atoi for
 decimal, and characters, strings and pointers as they stand in their field.
 */
module ReadBack {
  import opened Options
  import opened Integers
  import opened Format
  import opened Conversions
  import opened Printf

  // ----- Decimal, by atoi

  lemma {:induction false} SpacesSkipped(n: nat, t: string)
    ensures Unspaced(Repeated(' ', n) + t) == Unspaced(t)
  {
    var s := Repeated(' ', n) + t;
    if n == 0 {
      assert s == t;
    } else {
      SpacesSkipped(n - 1, t);
      assert s[1..] == Repeated(' ', n - 1) + t;
    }
  }

  ghost predicate AllDigits(s: string) { forall i :: 0 <= i < |s| ==> IsDigit(s[i]) }

  lemma ZerosAhead(n: nat, t: string)
    requires AllDigits(t)
    ensures AllDigits(Repeated('0', n) + t)
  {
  }

  lemma PlainDigits(v: nat, c: Conversion)
    requires BaseOk(BASE_D) && !c.group
    ensures AllDigits(Digits(v, BASE_D, c))
  {
    var t := Grouped(v, BASE_D, false, 0);
    forall i | 0 <= i < |t| ensures IsDigit(t[i]) {
      GroupedAreDigits(v, 0);
      assert t == Grouped(v, BASE_D, false, 0);
    }
    ZerosAhead(Missing(c.precision, |t|), t);
  }

  lemma DigitsFirst(digits: string, n: nat)
    requires AllDigits(digits)
    ensures var tail := digits + Repeated(' ', n); tail[..DigitRun(tail)] == digits
  {
    DigitRunIs(digits + Repeated(' ', n), |digits|);
  }

  /** A sign or none, digits, and spaces behind them. */
  lemma SignedMeans(sign: string, digits: string, n: nat)
    requires sign == "" || sign == "-" || sign == "+"
    requires AllDigits(digits)
    ensures var m: int := Value(BASE_D, digits);
      Meaning(sign + (digits + Repeated(' ', n))) == if sign == "-" then -m else m
  {
    hide Value, DigitRun, Meaning;
    var tail := digits + Repeated(' ', n);
    DigitsFirst(digits, n);
    if sign == "" && digits == "" {
      SpacesSkipped(n, "");
      assert sign + tail == Repeated(' ', n) + "";
      NoneDenoted();
    } else if sign == "" {
      assert sign + tail == tail && tail[0] == digits[0];
      NoSignMeans(tail);
    } else {
      assert (sign + tail)[0] == sign[0] && (sign + tail)[1..] == tail;
      SignMeans(sign + tail);
    }
  }

  lemma NoSignMeans(s: string)
    requires s != "" && IsDigit(s[0])
    ensures Meaning(s) == Value(BASE_D, s[..DigitRun(s)])
  {
    hide Value, DigitRun;
  }

  lemma SignMeans(s: string)
    requires s != "" && (s[0] == '+' || s[0] == '-')
    ensures var m: int := Value(BASE_D, s[1..][..DigitRun(s[1..])]); Meaning(s) == if s[0] == '-' then -m else m
  {
    hide Value, DigitRun;
  }

  lemma NoneDenoted()
    ensures Value(BASE_D, "") == 0 && DigitRun("") == 0 && forall s :: Unspaced(s) == "" ==> Meaning(s) == 0
  {
  }

  lemma LeadingSpaces(n: nat, t: string)
    ensures Meaning(Repeated(' ', n) + t) == Meaning(t)
  {
    SpacesSkipped(n, t);
  }

  /** A number in its field, by atoi: padding changes nothing. */
  lemma AssembledMeans(c: Conversion, pad: nat, sign: string, digits: string)
    requires AllDigits(digits) && (sign == "" || sign == "-" || sign == "+" || sign == " ")
    ensures var m: int := Value(BASE_D, digits);
      Meaning(Assembled(c, pad, sign, "", digits)) == if sign == "-" then -m else m
  {
    DecimalOk();
    var before, zeros := if !c.minus && !c.zero then pad else 0, if c.zero then pad else 0;
    var after := if c.minus then pad else 0;
    var number := Repeated('0', zeros) + digits;
    ValueLeadingZeros(BASE_D, zeros, digits);
    AssembledIs(c, pad, sign, "", digits);
    var text := number + Repeated(' ', after);
    NothingAhead(text);
    ZerosAhead(zeros, digits);
    hide *;
    LeadingSpaces(before, sign + text);
    if sign == " " {
      OneSpace(text);
      SignedMeans("", number, after);
    } else {
      SignedMeans(sign, number, after);
    }
  }

  lemma NothingAhead(text: string)
    ensures "" + text == text
  {
  }

  lemma AssembledIs(c: Conversion, pad: nat, sign: string, prefix: string, digits: string)
    ensures var before, zeros := if !c.minus && !c.zero then pad else 0, if c.zero then pad else 0;
      Assembled(c, pad, sign, prefix, digits) == Repeated(' ', before)
        + (sign + (prefix + ((Repeated('0', zeros) + digits) + Repeated(' ', if c.minus then pad else 0))))
  {
    var none := Repeated(' ', 0);
    assert none == "" && Repeated('0', 0) == "";
    var before := if !c.minus && !c.zero then Repeated(' ', pad) else "";
    var zeros := if c.zero then Repeated('0', pad) else "";
    var after := if c.minus then Repeated(' ', pad) else "";
    hide Repeated;
    assert before + sign + prefix + zeros + digits + after == before + (sign + (prefix + ((zeros + digits) + after)));
  }

  lemma OneSpace(text: string)
    ensures Meaning(" " + text) == Meaning(text)
  {
    assert (" " + text)[1..] == text;
  }

  /** atoi reads back what a decimal conversion prints, for every value, width, precision and
      combination of flags but the grouping one. */
  lemma AtoiInvertsConversion(v: nat, isSigned: bool, negative: bool, c: Conversion)
    requires !c.group
    ensures BaseOk(BASE_D)
    ensures var m: int := v;
      Meaning(IntegerText(v, isSigned, negative, BASE_D, c)) == if isSigned && negative then -m else m
  {
    DecimalOk();
    PlainDigits(v, c);
    DigitsDecode(v, BASE_D, c);
    AssembledMeans(c, PadCount(c.width, BodyLength(v, isSigned, negative, BASE_D, c)), Sign(isSigned, negative, c),
                   Digits(v, BASE_D, c));
    assert Prefix(v, BASE_D, c) == "";
    hide Digits, BodyLength, Meaning, Assembled, PadCount, Value;
  }

  // ----- Any base, by character

  /** The digits of a base of 8 or 16, the latter in lower or in upper case. */
  predicate IsDigitOf(base: nat, upper: bool, ch: char) {
    if base == 8 then '0' <= ch <= '7'
    else '0' <= ch <= '9' || (if upper then 'A' <= ch <= 'F' else 'a' <= ch <= 'f')
  }

  function DigitOf(ch: char): int {
    if ch <= '9' then ch as int - '0' as int
    else if ch <= 'F' then ch as int - 'A' as int + 10 else ch as int - 'a' as int + 10
  }

  ghost predicate DigitsOf(base: nat, upper: bool, s: string) {
    forall i :: 0 <= i < |s| ==> IsDigitOf(base, upper, s[i])
  }

  /** How many digits `s` begins with, and what digits denote. */
  ghost function RunOf(base: nat, upper: bool, s: string): (n: nat)
    ensures n <= |s|
  {
    if s == "" || !IsDigitOf(base, upper, s[0]) then 0 else 1 + RunOf(base, upper, s[1..])
  }

  ghost function Denoted(base: nat, s: string): int {
    if s == "" then 0 else Denoted(base, s[..|s| - 1]) * base + DigitOf(s[|s| - 1])
  }

  /** What follows any spaces, and in base 16 behind "0x" or "0X" if that is there. */
  ghost function Unprefixed(base: nat, upper: bool, s: string): string {
    var t := Unspaced(s);
    if base == 16 && |t| >= 2 && t[0] == '0' && t[1] == (if upper then 'X' else 'x') then t[2..] else t
  }

  /** The number that a text in that base begins with. */
  ghost function NumberIn(base: nat, upper: bool, s: string): int {
    var u := Unprefixed(base, upper, s);
    Denoted(base, u[..RunOf(base, upper, u)])
  }

  /** The table of a base has its digits in order. */
  ghost predicate TableOf(b: IntegerBase, upper: bool) {
    && b.base == |b.digits| && ',' !in b.digits
    && (forall d :: 0 <= d < |b.digits| ==> IsDigitOf(b.base, upper, b.digits[d]) && DigitOf(b.digits[d]) == d)
    && (b.x == if b.base == 16 then if upper then 'X' else 'x' else '\0')
  }

  lemma OctalTable()
    ensures BaseOk(BASE_O) && TableOf(BASE_O, false) && BASE_O.base == 8
  {
    BasesOk('o');
    var t := BASE_O.digits;
    assert t[0] == '0' && t[1] == '1' && t[2] == '2' && t[3] == '3'
      && t[4] == '4' && t[5] == '5' && t[6] == '6' && t[7] == '7';
  }

  lemma HexTable()
    ensures BaseOk(BASE_X) && TableOf(BASE_X, false) && BASE_X.base == 16
  {
    BasesOk('x');
    var t := BASE_X.digits;
    assert t[0] == '0' && t[1] == '1' && t[2] == '2' && t[3] == '3'
      && t[4] == '4' && t[5] == '5' && t[6] == '6' && t[7] == '7';
    assert t[8] == '8' && t[9] == '9' && t[10] == 'a' && t[11] == 'b'
      && t[12] == 'c' && t[13] == 'd' && t[14] == 'e' && t[15] == 'f';
  }

  lemma UpperTable()
    ensures BaseOk(BASE_XX) && TableOf(BASE_XX, true) && BASE_XX.base == 16
  {
    BasesOk('X');
    var t := BASE_XX.digits;
    assert t[0] == '0' && t[1] == '1' && t[2] == '2' && t[3] == '3'
      && t[4] == '4' && t[5] == '5' && t[6] == '6' && t[7] == '7';
    assert t[8] == '8' && t[9] == '9' && t[10] == 'A' && t[11] == 'B'
      && t[12] == 'C' && t[13] == 'D' && t[14] == 'E' && t[15] == 'F';
  }

  lemma {:induction false} RunIs(base: nat, upper: bool, s: string, n: nat)
    requires n <= |s| && DigitsOf(base, upper, s[..n]) && (n < |s| ==> !IsDigitOf(base, upper, s[n]))
    ensures RunOf(base, upper, s) == n
  {
    if n > 0 {
      assert s[..n][0] == s[0];
      assert s[1..][..n - 1] == s[..n][1..];
      RunIs(base, upper, s[1..], n - 1);
    }
  }

  /** Digits mean by the table what they mean by their characters. */
  lemma {:induction false} ValueDenoted(b: IntegerBase, upper: bool, s: string)
    requires BaseOk(b) && TableOf(b, upper) && forall i :: 0 <= i < |s| ==> s[i] in b.digits
    ensures Value(b, s) == Denoted(b.base, s) && DigitsOf(b.base, upper, s)
  {
    if s != "" {
      var t, ch := s[..|s| - 1], s[|s| - 1];
      ValueDenoted(b, upper, t);
      var d :| 0 <= d < |b.digits| && b.digits[d] == ch;
      IndexOfDigit(b.digits, d);
      assert s == t + [ch];
    }
  }

  lemma {:induction false} GroupedInTable(v: nat, b: IntegerBase, k: nat)
    requires BaseOk(b)
    ensures forall i :: 0 <= i < |Grouped(v, b, false, k)| ==> Grouped(v, b, false, k)[i] in b.digits
  {
    if v > 0 {
      DivShrink(v, b.base);
      GroupedInTable(v / b.base, b, k + 1);
      assert Grouped(v, b, false, k) == Grouped(v / b.base, b, false, k + 1) + [b.digits[v % b.base]];
    }
  }

  ghost predicate InTable(b: IntegerBase, s: string) { forall i :: 0 <= i < |s| ==> s[i] in b.digits }

  lemma ZerosInTable(b: IntegerBase, n: nat, s: string)
    requires BaseOk(b) && InTable(b, s)
    ensures InTable(b, Repeated('0', n) + s)
  {
    assert b.digits[0] in b.digits;
  }

  lemma DigitsInTable(v: nat, b: IntegerBase, c: Conversion)
    requires BaseOk(b) && !c.group
    ensures InTable(b, Digits(v, b, c))
  {
    var t := Grouped(v, b, false, 0);
    GroupedInTable(v, b, 0);
    ZerosInTable(b, Missing(c.precision, |t|), t);
    var u := Repeated('0', Missing(c.precision, |t|)) + t;
    ZerosInTable(b, 1, u);
    assert Repeated('0', 1) == "0";
  }

  /** Spaces, a prefix or none, digits, and spaces behind them. */
  lemma NumberInField(base: nat, upper: bool, before: nat, prefix: string, digits: string, after: nat)
    requires base == 8 || base == 16
    requires prefix == "" || (base == 16 && prefix == "0" + [if upper then 'X' else 'x'])
    requires DigitsOf(base, upper, digits)
    ensures NumberIn(base, upper, Repeated(' ', before) + (prefix + (digits + Repeated(' ', after))))
         == Denoted(base, digits)
  {
    var tail := digits + Repeated(' ', after);
    SpacesSkipped(before, prefix + tail);
    if prefix == "" && digits == "" {
      SpacesSkipped(after, "");
      assert prefix + tail == Repeated(' ', after) + "";
      NoneThere(base, upper, Repeated(' ', before) + (prefix + tail));
    } else {
      FieldUnprefixed(base, upper, prefix, digits, after);
      TailDenotes(base, upper, digits, after);
      hide Unspaced, RunOf, Denoted, IsDigitOf;
      assert Unprefixed(base, upper, Repeated(' ', before) + (prefix + tail)) == tail;
    }
  }

  lemma NoneThere(base: nat, upper: bool, s: string)
    requires Unspaced(s) == ""
    ensures NumberIn(base, upper, s) == Denoted(base, "")
  {
  }

  lemma FieldUnprefixed(base: nat, upper: bool, prefix: string, digits: string, after: nat)
    requires base == 8 || base == 16
    requires prefix == "" || (base == 16 && prefix == "0" + [if upper then 'X' else 'x'])
    requires DigitsOf(base, upper, digits) && (prefix != "" || digits != "")
    ensures var text := prefix + (digits + Repeated(' ', after));
      Unspaced(text) == text && Unprefixed(base, upper, text) == digits + Repeated(' ', after)
  {
    var tail := digits + Repeated(' ', after);
    var text := prefix + tail;
    if prefix != "" {
      assert text[0] == '0' && text[1] == prefix[1] && text[2..] == tail;
    } else {
      assert text == tail && IsDigitOf(base, upper, tail[0]);
      if |tail| >= 2 {
        assert tail[1] == if |digits| >= 2 then digits[1] else ' ';
        assert |digits| >= 2 ==> IsDigitOf(base, upper, digits[1]);
      }
    }
    assert !IsSpace(text[0]);
  }

  lemma TailDenotes(base: nat, upper: bool, digits: string, after: nat)
    requires DigitsOf(base, upper, digits)
    ensures var tail := digits + Repeated(' ', after); tail[..RunOf(base, upper, tail)] == digits
  {
    var tail := digits + Repeated(' ', after);
    assert tail[..|digits|] == digits;
    RunIs(base, upper, tail, |digits|);
  }

  /** What %o, %x and %X print reads back as the number, whatever the width, the precision and the flags
      but the grouping one. */
  lemma NumberInvertsConversion(v: nat, b: IntegerBase, upper: bool, c: Conversion)
    requires BaseOk(b) && TableOf(b, upper) && (b.base == 8 || b.base == 16) && !c.group
    ensures NumberIn(b.base, upper, IntegerText(v, false, false, b, c)) == v
    ensures c.pound && v != 0 && b.base == 16 && !c.zero && !c.minus ==>
      var t := Unspaced(IntegerText(v, false, false, b, c)); |t| >= 2 && t[..2] == "0" + [b.x]
  {
    var digits, prefix := Digits(v, b, c), Prefix(v, b, c);
    var pad := PadCount(c.width, BodyLength(v, false, false, b, c));
    var before, zeros := if !c.minus && !c.zero then pad else 0, if c.zero then pad else 0;
    var after, number := if c.minus then pad else 0, Repeated('0', zeros) + digits;
    DigitsInTable(v, b, c);
    DigitsDecode(v, b, c);
    ZerosInTable(b, zeros, digits);
    ValueLeadingZeros(b, zeros, digits);
    ValueDenoted(b, upper, number);
    AssembledIs(c, pad, "", prefix, digits);
    PrefixIs(v, b, c);
    hide Digits, BodyLength, PadCount, Value, Denoted, NumberIn, Assembled, Prefix, Unspaced, TableOf, BaseOk, DigitsOf;
    var text := prefix + (number + Repeated(' ', after));
    NothingAhead(text);
    NumberInField(b.base, upper, before, prefix, number, after);
    if prefix != "" {
      FieldUnprefixed(b.base, upper, prefix, number, after);
      SpacesSkipped(before, text);
      assert text[..2] == prefix;
    }
  }

  lemma PrefixIs(v: nat, b: IntegerBase, c: Conversion)
    requires b.x == '\0' <==> b.base == 8
    ensures Prefix(v, b, c) == if c.pound && v != 0 && b.base != 8 then "0" + [b.x] else ""
    ensures Prefix(v, b, c) != "" ==> |Prefix(v, b, c)| == 2
  {
  }

  // ----- Whole calls

  /** The format is one specification, which uses up the arguments: `m` is what it says, `ch` its
      conversion character. */
  ghost predicate Single(format: string, args: seq<Arg>, m: Parsed, ch: char) {
    && format != "" && format[0] == '%' && Peek(format, 1) != '%'
    && Complete(format[1..], args) && Behind(format[1..], args) == ("", [])
    && m == Meant(format[1..], Ints(args)) && ch == format[1..][m.next]
  }

  lemma SinglePrinted(format: string, args: seq<Arg>, m: Parsed, ch: char)
    requires Single(format, args, m, ch)
    ensures Proper(format, args) && m.stars <= |args| && Suits(ch, args[m.stars..])
    ensures Printed(format, args) == ConversionText(ch, m.c, m.size, args[m.stars..])
    ensures |args| == m.stars + Taken(ch)
  {
    hide Meant, Enough, Ints, ConversionText, Complete, Behind, SpecText;
    OneSpec(format, args);
    SpecIs(format[1..], args, m);
  }

  lemma OneSpec(s: string, args: seq<Arg>)
    requires s != "" && s[0] == '%' && Peek(s, 1) != '%' && Complete(s[1..], args) && Behind(s[1..], args) == ("", [])
    ensures Proper(s, args) && Printed(s, args) == SpecText(s[1..], args) && Unused(s, args) == []
  {
    hide Complete, Behind, SpecText;
  }

  /** The bits of an argument that a conversion of that size looks at. */
  function Bits(size: Size): nat {
    match size
    case CHAR => 8
    case SHORT => 16
    case INT => 32
    case LONG => 32
    case PTRDIFFT => 32
    case SIZET => 32
    case INTMAX => 64
    case LONGLONG => 64
  }

  lemma Powers()
    ensures Pow2(8) == 0x100 && Pow2(16) == 0x1_0000 && Pow2(32) == 0x1_0000_0000 && Pow2(64) == B64
  {
    assert Pow2(8) == 0x100;
    hide Pow2;
    Pow2Add(8, 8);
    Pow2Add(16, 16);
    Pow2Add(32, 32);
  }

  lemma ValuesArePowers(size: Size)
    ensures Values(size) == Pow2(Bits(size))
  {
    Powers();
    hide Pow2;
  }

  /** `n` has the argument's low bits, read in two's complement. */
  ghost predicate SignedPart(n: int, v: int, size: Size) {
    var p: int := Pow2(Bits(size));
    -p <= 2 * n < p && (n - v) % p == 0
  }

  lemma CutSigned(v: int, size: Size)
    ensures SignedPart(AsSigned(v, size), v, size)
  {
    ValuesArePowers(size);
    hide Pow2, Bits;
    TwosComplement(v, Values(size));
  }

  lemma TwosComplement(v: int, p: int)
    requires p > 0
    ensures var r := v % p; var n := if 2 * r >= p then r - p else r; -p <= 2 * n < p && (n - v) % p == 0
  {
    var q, r := v / p, v % p;
    assert v == p * q + r;
    if 2 * r >= p {
      assert r - p - v == p * (-q - 1);
      MultipleOf(p, -q - 1);
    } else {
      assert r - v == p * -q;
      MultipleOf(p, -q);
    }
  }

  lemma MultipleOf(p: int, k: int)
    requires p > 0
    ensures (p * k) % p == 0
  {
    DivUnique(p * k, p, k, 0);
  }

  /** %d and %i print the low bits of their argument as a signed number, for atoi to read. */
  lemma SignedReadsBack(format: string, args: seq<Arg>, m: Parsed, ch: char)
    requires Single(format, args, m, ch) && (ch == 'd' || ch == 'i') && !m.c.group
    ensures Proper(format, args) && m.stars < |args| && args[m.stars].Int?
    ensures SignedPart(Meaning(Printed(format, args)), args[m.stars].value, m.size)
  {
    SinglePrinted(format, args, m, ch);
    SignedTextIs(ch, m.c, m.size, args[m.stars..]);
    CutSigned(args[m.stars].value, m.size);
    hide *;
    SignedInverts(AsSigned(args[m.stars].value, m.size), m.c);
  }

  lemma SignedTextIs(ch: char, c: Conversion, size: Size, args: seq<Arg>)
    requires (ch == 'd' || ch == 'i') && Suits(ch, args)
    ensures args != [] && args[0].Int?
    ensures ConversionText(ch, c, size, args) == SignedText(AsSigned(args[0].value, size), c)
  {
    hide SignedText;
  }

  lemma SignedInverts(n: int, c: Conversion)
    requires !c.group
    ensures Meaning(SignedText(n, c)) == n
  {
    hide Meaning, IntegerText, BaseOk;
    AtoiInvertsConversion(Abs(n), true, n < 0, c);
  }

  lemma UnsignedTextIs(ch: char, c: Conversion, size: Size, args: seq<Arg>)
    requires IsUnsigned(ch) && Suits(ch, args)
    ensures args != [] && args[0].Int?
    ensures ConversionText(ch, c, size, args) == UnsignedText(AsUnsigned(args[0].value, size), ch, c)
    ensures AsUnsigned(args[0].value, size) == args[0].value % Pow2(Bits(size))
  {
    ValuesArePowers(size);
    hide UnsignedText, Pow2, Bits, Values;
  }

  lemma DecimalInverts(v: nat, c: Conversion)
    requires !c.group
    ensures Meaning(UnsignedText(v, 'u', c)) == v
  {
    hide Meaning, IntegerText, BaseOk;
    AtoiInvertsConversion(v, false, false, c);
  }

  lemma BaseInverts(v: nat, ch: char, c: Conversion)
    requires !c.group && (ch == 'o' || ch == 'x' || ch == 'X')
    ensures NumberIn(if ch == 'o' then 8 else 16, ch == 'X', UnsignedText(v, ch, c)) == v
  {
    OctalTable();
    HexTable();
    UpperTable();
    hide NumberIn, IntegerText, BaseOk, TableOf, Unspaced;
    NumberInvertsConversion(v, BaseOf(ch), ch == 'X', c);
  }

  /** %u prints them as an unsigned number, for atoi to read. */
  lemma UnsignedReadsBack(format: string, args: seq<Arg>, m: Parsed)
    requires Single(format, args, m, 'u') && !m.c.group
    ensures Proper(format, args) && m.stars < |args| && args[m.stars].Int?
    ensures Meaning(Printed(format, args)) == args[m.stars].value % Pow2(Bits(m.size))
  {
    SinglePrinted(format, args, m, 'u');
    UnsignedTextIs('u', m.c, m.size, args[m.stars..]);
    hide *;
    DecimalInverts(AsUnsigned(args[m.stars].value, m.size), m.c);
  }

  /** %o prints them in octal, %x and %X in hexadecimal, with small or with capital letters. */
  lemma BaseReadsBack(format: string, args: seq<Arg>, m: Parsed, ch: char)
    requires Single(format, args, m, ch) && (ch == 'o' || ch == 'x' || ch == 'X') && !m.c.group
    ensures Proper(format, args) && m.stars < |args| && args[m.stars].Int?
    ensures NumberIn(if ch == 'o' then 8 else 16, ch == 'X', Printed(format, args))
         == args[m.stars].value % Pow2(Bits(m.size))
  {
    SinglePrinted(format, args, m, ch);
    UnsignedTextIs(ch, m.c, m.size, args[m.stars..]);
    hide *;
    BaseInverts(AsUnsigned(args[m.stars].value, m.size), ch, m.c);
  }

  /** `text` in a field of that width, on the left if `left`, with spaces for the rest. */
  ghost predicate InField(out: string, text: string, width: nat, left: bool) {
    && |out| == (if width > |text| then width else |text|)
    && (if left then out[..|text|] == text else out[|out| - |text|..] == text)
    && forall i :: 0 <= i < |out| && (if left then i >= |text| else i < |out| - |text|) ==> out[i] == ' '
  }

  lemma PaddedInField(text: string, c: Conversion)
    ensures InField(PaddedText(text, c), text, c.width, c.minus)
  {
  }

  /** %c prints the character of its argument's low 8 bits, in its field. */
  lemma CharPrints(format: string, args: seq<Arg>, m: Parsed)
    requires Single(format, args, m, 'c')
    ensures Proper(format, args) && m.stars < |args| && args[m.stars].Int?
    ensures InField(Printed(format, args), [(args[m.stars].value % 256) as char], m.c.width, m.c.minus)
  {
    SinglePrinted(format, args, m, 'c');
    PaddedInField([(args[m.stars].value % 256) as char], m.c);
    hide InField, Printed, Single, Proper, PaddedText;
  }

  /** %s prints its string up to the precision, and "(null)" for a null pointer, in its field. */
  lemma StringPrints(format: string, args: seq<Arg>, m: Parsed) returns (text: string)
    requires Single(format, args, m, 's')
    ensures Proper(format, args) && m.stars < |args| && args[m.stars].Str?
    ensures InField(Printed(format, args), text, m.c.width, m.c.minus)
    ensures var s := if args[m.stars].text.None? then "(null)" else args[m.stars].text.value;
      text <= s && |text| == if 0 <= m.c.precision < |s| then m.c.precision else |s|
  {
    SinglePrinted(format, args, m, 's');
    text := Limited(args[m.stars].text, m.c.precision);
    PaddedInField(text, m.c);
    hide InField, Printed, Single, Proper, PaddedText;
  }

  /** %p prints the address in hexadecimal, behind "0x" unless it is null. */
  lemma PointerReadsBack(format: string, args: seq<Arg>, m: Parsed)
    requires Single(format, args, m, 'p')
    ensures Proper(format, args) && m.stars < |args| && args[m.stars].Ptr?
    ensures var out, address := Printed(format, args), args[m.stars].address % Pow2(32);
      && NumberIn(16, false, out) == address
      && (address != 0 ==> |Unspaced(out)| >= 2 && Unspaced(out)[..2] == "0x")
  {
    SinglePrinted(format, args, m, 'p');
    Powers();
    PointerText(m.c, m.size, args[m.stars..]);
    hide *;
    PointerInverts(args[m.stars].address % 0x1_0000_0000, PointerConversion(m.c));
  }

  lemma PointerText(c: Conversion, size: Size, args: seq<Arg>)
    requires Suits('p', args)
    ensures args != [] && args[0].Ptr?
    ensures ConversionText('p', c, size, args)
         == UnsignedText(args[0].address % 0x1_0000_0000, 'x', PointerConversion(c))
    ensures var d := PointerConversion(c); d.pound && !d.zero && !d.minus && !d.group
  {
    hide UnsignedText;
  }

  lemma PointerInverts(v: nat, c: Conversion)
    requires c.pound && !c.zero && !c.minus && !c.group
    ensures var out := UnsignedText(v, 'x', c);
      NumberIn(16, false, out) == v && (v != 0 ==> |Unspaced(out)| >= 2 && Unspaced(out)[..2] == "0x")
  {
    HexTable();
    hide NumberIn, IntegerText, TableOf, Unspaced, BaseOk;
    NumberInvertsConversion(v, BASE_X, false, c);
    assert "0" + ['x'] == "0x";
  }

  // ----- Where things stand in the field of a number

  /** Sign, prefix and digits in a field of the conversion's width: on the left, behind spaces, or with
      zeros between. */
  ghost predicate LaidOut(out: string, sign: string, prefix: string, digits: string, c: Conversion) {
    var body := |sign| + |prefix| + |digits|;
    var pad := if c.width > body then c.width - body else 0;
    if c.minus then out == sign + prefix + digits + seq(pad, _ => ' ')
    else if c.zero then out == sign + prefix + seq(pad, _ => '0') + digits
    else out == seq(pad, _ => ' ') + sign + prefix + digits
  }

  /** - for a negative number; for another, + or a space if the flags ask for it. */
  ghost predicate SignFor(sign: string, isSigned: bool, negative: bool, c: Conversion) {
    && (sign == "-" <==> isSigned && negative)
    && (sign == "+" <==> isSigned && !negative && c.plus)
    && (sign == " " <==> isSigned && !negative && !c.plus && c.space)
    && (sign != "" ==> sign == "-" || sign == "+" || sign == " ")
  }

  /** As many digits as the precision asks for, 63 at most, and beyond those no zero in front but the
      one that # gives in octal. */
  ghost predicate CountFor(digits: string, octal: bool, c: Conversion) {
    var least := if c.precision < 0 then 1 else if c.precision > 63 then 63 else c.precision;
    && |digits| >= least
    && (octal && c.pound ==> digits != "" && digits[0] == '0')
    && (|digits| > least && digits[0] == '0' ==>
          octal && c.pound && (|digits| == least + 1 || |digits| == 1 || digits[1] != '0'))
  }

  /** With the grouping flag every group of digits but the first has a comma ahead; without it there is none. */
  ghost predicate CommasFor(digits: string, group: nat, c: Conversion) {
    forall i :: 0 <= i < |digits| ==>
      && (digits[i] == ',' ==> c.group && (|digits| - 1 - i) % (group + 1) == group)
      && (c.group && (|digits| - 1 - i) % (group + 1) == group && digits[i] != ',' ==>
            forall j :: 0 <= j <= i ==> digits[j] == '0')
  }

  /** What is to the right of digit k of a grouped number, but for a comma behind that digit. */
  function Offset(k: nat, group: nat): nat
    requires group == 3 || group == 4
  {
    if k == 0 then 0 else k + (k - 1) / group
  }

  lemma NextOffset(k: nat, group: nat)
    requires group == 3 || group == 4
    ensures var comma := k > 0 && k % group == 0;
      && Offset(k + 1, group) == Offset(k, group) + (if comma then 2 else 1)
      && (comma ==> Offset(k, group) % (group + 1) == group)
      && (Offset(k, group) + if comma then 1 else 0) % (group + 1) != group
  {
    var q, r := k / group, k % group;
    if group == 3 {
      assert k == q * 3 + r;
    } else {
      assert k == q * 4 + r;
    }
    OffsetIs(q, r, group);
    hide Offset;
  }

  lemma OffsetIs(q: nat, r: nat, group: nat)
    requires r < group && (group == 3 || group == 4)
    ensures var k := q * group + r;
      && Offset(k, group) == (if r == 0 && q > 0 then q * (group + 1) - 1 else q * (group + 1) + r)
      && Offset(k + 1, group) == q * (group + 1) + r + 1
      && (q * (group + 1) + r) % (group + 1) == r
      && (q > 0 ==> (q * (group + 1) - 1) % (group + 1) == group)
  {
    var k := q * group + r;
    DivUnique(k, group, q, r);
    DivUnique(q * (group + 1) + r, group + 1, q, r);
    if r > 0 {
      DivUnique(k - 1, group, q, r - 1);
    } else if q > 0 {
      DivUnique(k - 1, group, q - 1, group - 1);
    }
    if q > 0 {
      DivUnique(q * (group + 1) - 1, group + 1, q - 1, group);
    }
  }

  ghost predicate CommasAt(s: string, ofs: nat, group: nat) {
    forall i :: 0 <= i < |s| ==> (s[i] == ',' <==> (|s| - 1 - i + ofs) % (group + 1) == group)
  }

  lemma CommasNext(t: string, d: char, comma: bool, ofs: nat, group: nat)
    requires CommasAt(t, ofs + (if comma then 2 else 1), group) && d != ','
    requires (comma ==> ofs % (group + 1) == group) && (ofs + if comma then 1 else 0) % (group + 1) != group
    ensures CommasAt(t + [d] + if comma then "," else "", ofs, group)
  {
    var s := t + [d] + if comma then "," else "";
    forall i | 0 <= i < |s| ensures s[i] == ',' <==> (|s| - 1 - i + ofs) % (group + 1) == group {
      if i < |t| {
        assert s[i] == t[i];
        assert |s| - 1 - i + ofs == |t| - 1 - i + (ofs + if comma then 2 else 1);
      }
    }
  }

  /** Every position of the comma, counted from the right end of the whole number. */
  lemma {:induction false} GroupedCommas(v: nat, b: IntegerBase, k: nat)
    requires BaseOk(b)
    ensures CommasAt(Grouped(v, b, true, k), Offset(k, b.group), b.group)
  {
    if v > 0 {
      DivShrink(v, b.base);
      GroupedCommas(v / b.base, b, k + 1);
      NextOffset(k, b.group);
      assert b.digits[v % b.base] in b.digits;
      hide CommasAt, Offset;
      CommasNext(Grouped(v / b.base, b, true, k + 1), b.digits[v % b.base], k > 0 && k % b.group == 0,
                 Offset(k, b.group), b.group);
    } else {
      assert Grouped(v, b, true, k) == "";
    }
  }

  lemma {:induction false} NoCommas(v: nat, b: IntegerBase, k: nat)
    requires BaseOk(b)
    ensures ',' !in Grouped(v, b, false, k)
  {
    if v > 0 {
      DivShrink(v, b.base);
      NoCommas(v / b.base, b, k + 1);
      assert Grouped(v, b, false, k) == Grouped(v / b.base, b, false, k + 1) + [b.digits[v % b.base]];
      assert b.digits[v % b.base] in b.digits;
    }
  }

  lemma {:induction false} NoZeroAhead(v: nat, b: IntegerBase, group: bool, k: nat)
    requires BaseOk(b) && v > 0
    ensures Grouped(v, b, group, k) != "" && Grouped(v, b, group, k)[0] != '0'
  {
    DivShrink(v, b.base);
    if v / b.base > 0 {
      NoZeroAhead(v / b.base, b, group, k + 1);
    } else {
      assert v % b.base == v && b.digits[v] != b.digits[0];
    }
  }

  lemma GroupedCommasFor(v: nat, b: IntegerBase, c: Conversion)
    requires BaseOk(b)
    ensures CommasFor(Grouped(v, b, c.group, 0), b.group, c)
  {
    if c.group {
      GroupedCommas(v, b, 0);
    } else {
      NoCommas(v, b, 0);
    }
  }

  lemma ZerosKeepCommas(n: nat, s: string, group: nat, c: Conversion)
    requires CommasFor(s, group, c)
    ensures CommasFor(Repeated('0', n) + s, group, c)
  {
    var t := Repeated('0', n) + s;
    forall i | 0 <= i < |t|
      ensures t[i] == ',' ==> c.group && (|t| - 1 - i) % (group + 1) == group
      ensures c.group && (|t| - 1 - i) % (group + 1) == group && t[i] != ',' ==> forall j :: 0 <= j <= i ==> t[j] == '0'
    {
      if i >= n {
        assert t[i] == s[i - n] && |t| - 1 - i == |s| - 1 - (i - n);
        assert forall j :: n <= j <= i ==> t[j] == s[j - n];
      }
    }
  }

  lemma DigitsLaid(v: nat, b: IntegerBase, c: Conversion)
    requires BaseOk(b)
    ensures CommasFor(Digits(v, b, c), b.group, c) && CountFor(Digits(v, b, c), b.base == 8, c)
  {
    var s := Grouped(v, b, c.group, 0);
    var n := Missing(c.precision, |s|);
    GroupedCommasFor(v, b, c);
    ZerosKeepCommas(n, s, b.group, c);
    ZerosKeepCommas(1, Repeated('0', n) + s, b.group, c);
    assert Repeated('0', 1) == "0";
    hide CommasFor, Grouped;
    if v > 0 {
      NoZeroAhead(v, b, c.group, 0);
    } else {
      assert s == "" by {
        NothingGrouped(b, c.group);
      }
    }
  }

  lemma NothingGrouped(b: IntegerBase, group: bool)
    requires BaseOk(b)
    ensures Grouped(0, b, group, 0) == ""
  {
  }

  /** All that format_integer prints, unless both - and 0 are in force. */
  lemma TextLaidOut(v: nat, isSigned: bool, negative: bool, b: IntegerBase, c: Conversion)
    returns (sign: string, prefix: string, digits: string)
    requires BaseOk(b) && !(c.minus && c.zero)
    ensures LaidOut(IntegerText(v, isSigned, negative, b, c), sign, prefix, digits, c)
    ensures SignFor(sign, isSigned, negative, c) && Value(b, digits) == v
    ensures prefix == if c.pound && v != 0 && b.x != '\0' then "0" + [b.x] else ""
    ensures CommasFor(digits, b.group, c) && CountFor(digits, b.base == 8, c)
  {
    sign, prefix, digits := Sign(isSigned, negative, c), Prefix(v, b, c), Digits(v, b, c);
    DigitsDecode(v, b, c);
    DigitsLaid(v, b, c);
    SignIs(isSigned, negative, c);
    AssembledLaid(c, sign, prefix, digits);
    TextIs(v, isSigned, negative, b, c);
    PrefixShown(v, b, c);
    hide *;
  }

  lemma TextIs(v: nat, isSigned: bool, negative: bool, b: IntegerBase, c: Conversion)
    requires BaseOk(b)
    ensures var sign, prefix, digits := Sign(isSigned, negative, c), Prefix(v, b, c), Digits(v, b, c);
      IntegerText(v, isSigned, negative, b, c)
        == Assembled(c, PadCount(c.width, |sign| + |prefix| + |digits|), sign, prefix, digits)
  {
    hide Assembled, Sign, Prefix, Digits, PadCount, BaseOk;
  }

  lemma PrefixShown(v: nat, b: IntegerBase, c: Conversion)
    ensures Prefix(v, b, c) == if c.pound && v != 0 && b.x != '\0' then "0" + [b.x] else ""
  {
  }

  lemma SignIs(isSigned: bool, negative: bool, c: Conversion)
    ensures SignFor(Sign(isSigned, negative, c), isSigned, negative, c)
  {
  }

  lemma AssembledLaid(c: Conversion, sign: string, prefix: string, digits: string)
    requires !(c.minus && c.zero)
    ensures LaidOut(Assembled(c, PadCount(c.width, |sign| + |prefix| + |digits|), sign, prefix, digits),
                    sign, prefix, digits, c)
  {
    assert sign + prefix + "" + digits == sign + prefix + digits;
    assert "" + sign + prefix == sign + prefix;
    assert sign + prefix + digits + "" == sign + prefix + digits;
  }

  predicate IsHex(ch: char) { ch == 'x' || ch == 'X' }

  lemma BaseIs(ch: char)
    ensures var b := BaseOf(ch);
      && BaseOk(b) && (b.base == 8 <==> ch == 'o') && b.group == (if IsHex(ch) then 4 else 3)
      && b.x == (if IsHex(ch) then ch else '\0')
  {
    BasesOk(ch);
  }

  /** In a whole call the flags, the width and the precision of the format lay the number out. */
  lemma NumberLaidOut(format: string, args: seq<Arg>, m: Parsed, ch: char)
    returns (sign: string, prefix: string, digits: string)
    requires Single(format, args, m, ch) && !(m.c.minus && m.c.zero)
    requires ch == 'd' || ch == 'i' || ch == 'u' || ch == 'o' || IsHex(ch)
    ensures Proper(format, args) && m.stars < |args| && args[m.stars].Int?
    ensures LaidOut(Printed(format, args), sign, prefix, digits, m.c)
    ensures var p: int := Pow2(Bits(m.size)); var low := args[m.stars].value % p;
      && SignFor(sign, ch == 'd' || ch == 'i', 2 * low >= p, m.c)
      && prefix == if m.c.pound && low != 0 && IsHex(ch) then "0" + [ch] else ""
    ensures CommasFor(digits, if IsHex(ch) then 4 else 3, m.c) && CountFor(digits, ch == 'o', m.c)
  {
    SinglePrinted(format, args, m, ch);
    Powers();
    ValuesArePowers(m.size);
    sign, prefix, digits := ConversionLaidOut(ch, m.c, m.size, args[m.stars..]);
    hide *;
  }

  lemma ConversionLaidOut(ch: char, c: Conversion, size: Size, args: seq<Arg>)
    returns (sign: string, prefix: string, digits: string)
    requires Suits(ch, args) && !(c.minus && c.zero)
    requires ch == 'd' || ch == 'i' || ch == 'u' || ch == 'o' || IsHex(ch)
    ensures args != [] && args[0].Int?
    ensures LaidOut(ConversionText(ch, c, size, args), sign, prefix, digits, c)
    ensures var low := args[0].value % Values(size);
      && SignFor(sign, ch == 'd' || ch == 'i', 2 * low >= Values(size), c)
      && prefix == if c.pound && low != 0 && IsHex(ch) then "0" + [ch] else ""
    ensures CommasFor(digits, if IsHex(ch) then 4 else 3, c) && CountFor(digits, ch == 'o', c)
  {
    hide IntegerText, LaidOut, SignFor, CommasFor, CountFor, BaseOk;
    BaseIs(ch);
    if ch == 'd' || ch == 'i' {
      SignedTextIs(ch, c, size, args);
      var n := AsSigned(args[0].value, size);
      sign, prefix, digits := TextLaidOut(Abs(n), true, n < 0, BASE_D, c);
    } else {
      UnsignedTextIs(ch, c, size, args);
      sign, prefix, digits := TextLaidOut(AsUnsigned(args[0].value, size), false, false, BaseOf(ch), c);
      UnsignedSign(sign, c, 2 * (args[0].value % Values(size)) >= Values(size));
    }
  }

  lemma UnsignedSign(sign: string, c: Conversion, negative: bool)
    requires SignFor(sign, false, false, c)
    ensures SignFor(sign, false, negative, c)
  {
  }

  /** A pointer likewise, by its width and precision alone. */
  lemma PointerLaidOut(format: string, args: seq<Arg>, m: Parsed) returns (prefix: string, digits: string)
    requires Single(format, args, m, 'p')
    ensures Proper(format, args) && m.stars < |args| && args[m.stars].Ptr?
    ensures var c := Conversion(false, false, false, true, false, false, m.c.width, m.c.precision);
      LaidOut(Printed(format, args), "", prefix, digits, c) && CommasFor(digits, 4, c) && CountFor(digits, false, c)
    ensures prefix == if args[m.stars].address % Pow2(32) != 0 then "0x" else ""
  {
    SinglePrinted(format, args, m, 'p');
    Powers();
    PointerText(m.c, m.size, args[m.stars..]);
    hide *;
    prefix, digits := AddressLaidOut(args[m.stars].address % 0x1_0000_0000, m.c);
  }

  lemma AddressLaidOut(v: nat, m: Conversion) returns (prefix: string, digits: string)
    ensures var c := Conversion(false, false, false, true, false, false, m.width, m.precision);
      && LaidOut(UnsignedText(v, 'x', PointerConversion(m)), "", prefix, digits, c)
      && CommasFor(digits, 4, c) && CountFor(digits, false, c)
    ensures prefix == if v != 0 then "0x" else ""
  {
    hide LaidOut, CommasFor, CountFor, IntegerText, BaseOk;
    BaseIs('x');
    var sign;
    sign, prefix, digits := TextLaidOut(v, false, false, BaseOf('x'), PointerConversion(m));
    assert "0" + ['x'] == "0x";
  }

  /** A conversion the kernel's printf does not do prints a note of that. */
  lemma UnsupportedPrints(format: string, args: seq<Arg>, m: Parsed, ch: char)
    requires Single(format, args, m, ch) && ch !in "diouxXcsp"
    ensures Proper(format, args)
    ensures Printed(format, args) ==
      "<<no %" + [ch] + if ch in "feEgGn" then " in kernel>>" else " conversion>>"
  {
    SinglePrinted(format, args, m, ch);
    NotDone(ch, m.c, m.size, args[m.stars..]);
    hide *;
  }

  lemma NotDone(ch: char, c: Conversion, size: Size, args: seq<Arg>)
    requires Suits(ch, args) && ch !in "diouxXcsp"
    ensures ConversionText(ch, c, size, args)
         == "<<no %" + [ch] + if ch in "feEgGn" then " in kernel>>" else " conversion>>"
  {
    var done, known := "diouxXcsp", "feEgGn";
    assert done[0] == 'd' && done[1] == 'i' && done[2] == 'o' && done[3] == 'u' && done[4] == 'x'
      && done[5] == 'X' && done[6] == 'c' && done[7] == 's' && done[8] == 'p';
    assert known[0] == 'f' && known[1] == 'e' && known[2] == 'E' && known[3] == 'g' && known[4] == 'G'
      && known[5] == 'n';
    assert ch in known <==> IsUnsupported(ch);
  }

  /** The letters of the size say how many bits of the argument count. */
  lemma SizeBits(u: string)
    ensures Bits(SizeAt(u).0) ==
      if "hh" <= u then 8 else if "h" <= u then 16 else if "ll" <= u || "j" <= u then 64 else 32
    ensures SizeAt(u).1 ==
      if "hh" <= u || "ll" <= u then 2
      else if "h" <= u || "j" <= u || "l" <= u || "t" <= u || "z" <= u then 1 else 0
  {
    var hh, ll := "hh", "ll";
    assert "h"[0] == 'h' && "j"[0] == 'j' && "l"[0] == 'l' && "t"[0] == 't' && "z"[0] == 'z';
    assert hh[0] == hh[1] == 'h' && ll[0] == ll[1] == 'l';
  }

  /** So does a whole call: printing an int with %d, in a text of any length, and reading it. */
  lemma DecimalReadsBack(n: I32)
    ensures Proper("%d", [Int(n)]) && Meaning(Printed("%d", [Int(n)])) == n && Unused("%d", [Int(n)]) == []
  {
    var args := [Int(n)];
    DecimalSpec(args);
    assert "%d"[1..] == "d" && "%d"[0] == '%' && Peek("%d", 1) == 'd';
    hide *;
    OneSpec("%d", args);
    AtoiInvertsConversion(Abs(n), true, n < 0, PLAIN);
  }

  lemma DecimalSpec(args: seq<Arg>)
    requires |args| == 1 && args[0].Int? && -0x8000_0000 <= args[0].value < 0x8000_0000
    ensures Complete("d", args) && Behind("d", args) == ("", [])
    ensures SpecText("d", args) == SignedText(args[0].value, PLAIN) && !PLAIN.group
  {
    var m := Parsed(PLAIN, INT, 0, 0);
    DecimalMeant(Ints(args));
    AllOfIt(args);
    DecimalValue(args);
    hide *;
    WholeSpec("d", args, m);
    SpecIs("d", args, m);
  }

  lemma AllOfIt(args: seq<Arg>)
    requires |args| == 1
    ensures args[0..] == args && args[1..] == [] && "d"[0] == 'd' && "d"[1..] == "" && |"d"| == 1
  {
  }

  lemma DecimalValue(args: seq<Arg>)
    requires |args| == 1 && args[0].Int? && -0x8000_0000 <= args[0].value < 0x8000_0000
    ensures Suits('d', args) && Taken('d') == 1 && !PLAIN.group
    ensures ConversionText('d', PLAIN, INT, args) == SignedText(args[0].value, PLAIN)
  {
    SignedTextIs('d', PLAIN, INT, args);
    hide SignedText;
  }

  lemma WholeSpec(s: string, args: seq<Arg>, m: Parsed)
    requires Enough(s, Ints(args)) && m == Meant(s, Ints(args))
    requires m.next < |s| && m.stars <= |args| && Suits(s[m.next], args[m.stars..])
    ensures Complete(s, args)
  {
    hide Meant, Enough, Ints;
  }

  lemma DecimalMeant(ints: seq<int>)
    ensures Enough("d", ints) && Meant("d", ints) == Parsed(PLAIN, INT, 0, 0)
  {
    assert WidthPart("d") == "d" && PrecisionPart("d", ints) == "d";
    assert Value(BASE_D, "d"[..0]) == 0;
  }
}
