/**
 Conversion specifications of printf format strings (parse_conversion in lib/stdio.c).

 A format string has no null in it, and reading past its end gives one.
 */
module Conversions {
  import opened Integers
  import opened Format

  /** The size of the argument to convert. */
  datatype Size = CHAR | SHORT | INT | INTMAX | LONG | LONGLONG | PTRDIFFT | SIZET

  /** The conversion, how many `*` arguments it took, and where its conversion character is. */
  datatype Parsed = Parsed(c: Conversion, size: Size, stars: nat, next: nat)

  function Peek(s: string, i: nat): char { if i < |s| then s[i] else '\0' }

  // ----- What a specification says

  predicate IsFlag(c: char) { c == '-' || c == '+' || c == ' ' || c == '#' || c == '0' || c == '\'' }

  /** How many flag characters `s` begins with. */
  ghost function FlagRun(s: string): (n: nat)
    ensures n <= |s| && (forall i :: 0 <= i < n ==> IsFlag(s[i])) && (n < |s| ==> !IsFlag(s[n]))
  {
    if s == "" || !IsFlag(s[0]) then 0 else 1 + FlagRun(s[1..])
  }

  lemma {:induction false} FlagRunIs(s: string, n: nat)
    requires n <= |s| && (forall i :: 0 <= i < n ==> IsFlag(s[i])) && (n < |s| ==> !IsFlag(s[n]))
    ensures FlagRun(s) == n
  {
    if n > 0 {
      FlagRunIs(s[1..], n - 1);
    }
  }

  ghost function Flags(s: string): string { s[..FlagRun(s)] }

  /** - overrides 0, and + overrides the space. */
  ghost function FlagsIn(f: string): Conversion {
    Conversion('-' in f, '+' in f, ' ' in f && '+' !in f, '#' in f, '0' in f && '-' !in f, '\'' in f, 0, -1)
  }

  /** A negative width means -, and a precision overrides 0. */
  ghost function Adjusted(c: Conversion, width: int, precision: int): Conversion {
    c.(minus := c.minus || width < 0, zero := c.zero && precision < 0, width := Abs(width), precision := precision)
  }

  /** A number or `*` at the beginning of a string: its value, characters and arguments. */
  datatype Field = Field(value: int, len: nat, stars: nat)

  ghost predicate Supplied(u: string, args: seq<int>) { Peek(u, 0) == '*' ==> args != [] }

  ghost function Number(u: string, args: seq<int>): (f: Field)
    requires Supplied(u, args)
    ensures f.len <= |u| && f.stars <= |args|
  {
    if Peek(u, 0) == '*' then Field(args[0], 1, 1) else Field(Value(BASE_D, u[..DigitRun(u)]), DigitRun(u), 0)
  }

  /** The precision: none without a point, and none if a negative argument gives it. */
  ghost function Precision(u: string, args: seq<int>): (f: Field)
    requires Peek(u, 0) == '.' ==> Supplied(u[1..], args)
    ensures f.len <= |u| && f.value >= -1
  {
    if Peek(u, 0) != '.' then Field(-1, 0, 0)
    else
      var f := Number(u[1..], args);
      Field(if f.value < 0 then -1 else f.value, 1 + f.len, f.stars)
  }

  function SizeAt(u: string): (r: (Size, nat))
    ensures r.1 <= |u|
  {
    if Peek(u, 0) == 'h' then if Peek(u, 1) == 'h' then (CHAR, 2) else (SHORT, 1)
    else if Peek(u, 0) == 'j' then (INTMAX, 1)
    else if Peek(u, 0) == 'l' then if Peek(u, 1) == 'l' then (LONGLONG, 2) else (LONG, 1)
    else if Peek(u, 0) == 't' then (PTRDIFFT, 1)
    else if Peek(u, 0) == 'z' then (SIZET, 1)
    else (INT, 0)
  }

  /** What follows the flags, and what follows the width. */
  ghost function WidthPart(s: string): string { s[FlagRun(s)..] }

  ghost function PrecisionPart(s: string, args: seq<int>): string
    requires Supplied(WidthPart(s), args)
  {
    WidthPart(s)[Number(WidthPart(s), args).len..]
  }

  /** There is an argument for each `*`. */
  ghost predicate Enough(s: string, args: seq<int>) {
    && Supplied(WidthPart(s), args)
    && var u, stars := PrecisionPart(s, args), Number(WidthPart(s), args).stars;
      Peek(u, 0) == '.' ==> Supplied(u[1..], args[stars..])
  }

  ghost function Meant(s: string, args: seq<int>): Parsed
    requires Enough(s, args)
  {
    var flags, w := Flags(s), Number(WidthPart(s), args);
    var p := Precision(PrecisionPart(s, args), args[w.stars..]);
    var t := SizeAt(PrecisionPart(s, args)[p.len..]);
    Parsed(Adjusted(FlagsIn(flags), w.value, p.value), t.0, w.stars + p.stars, |flags| + w.len + p.len + t.1)
  }

  // ----- parse_conversion

  /** A loop over digits. */
  method ParseNumber(s: string, i0: nat) returns (value: nat, i: nat)
    requires i0 <= |s|
    ensures i == i0 + DigitRun(s[i0..]) && value == Value(BASE_D, s[i0..][..DigitRun(s[i0..])])
  {
    hide Value;
    ghost var u := s[i0..];
    NoValue(u);
    i, value := i0, 0;
    while IsDigit(Peek(s, i))
      invariant i0 <= i <= |s| && forall k :: 0 <= k < i - i0 ==> IsDigit(u[k])
      invariant value == Value(BASE_D, u[..i - i0])
      decreases |s| - i
    {
      ValueNext(u, i - i0);
      value := value * 10 + (s[i] as int - '0' as int);
      i := i + 1;
    }
    DigitRunIs(u, i - i0);
  }

  /** A number or `*`. */
  method ParseField(s: string, i0: nat, args: seq<int>) returns (value: int, i: nat, stars: nat)
    requires i0 <= |s| && Supplied(s[i0..], args)
    ensures var f := Number(s[i0..], args); value == f.value && i == i0 + f.len && stars == f.stars
  {
    if Peek(s, i0) == '*' {
      return args[0], i0 + 1, 1;
    }
    value, i := ParseNumber(s, i0);
    stars := 0;
  }

  method ParseFlags(s: string) returns (c: Conversion, i: nat)
    ensures i == FlagRun(s) && c == FlagsIn(Flags(s))
  {
    c := PLAIN;
    i := 0;
    while IsFlag(Peek(s, i))
      invariant i <= |s| && forall k :: 0 <= k < i ==> IsFlag(s[k])
      invariant var f := s[..i];
        c == Conversion('-' in f, '+' in f, ' ' in f, '#' in f, '0' in f, '\'' in f, 0, -1)
      decreases |s| - i
    {
      assert s[..i + 1] == s[..i] + [s[i]];
      match s[i] {
        case '-' => c := c.(minus := true);
        case '+' => c := c.(plus := true);
        case ' ' => c := c.(space := true);
        case '#' => c := c.(pound := true);
        case '0' => c := c.(zero := true);
        case _ => c := c.(group := true);
      }
      i := i + 1;
    }
    FlagRunIs(s, i);
    if c.minus {
      c := c.(zero := false);
    }
    if c.plus {
      c := c.(space := false);
    }
  }

  method ParsePrecision(s: string, i0: nat, args: seq<int>) returns (precision: int, i: nat, stars: nat)
    requires i0 <= |s| && (Peek(s[i0..], 0) == '.' ==> Supplied(s[i0..][1..], args))
    ensures var f := Precision(s[i0..], args); precision == f.value && i == i0 + f.len && stars == f.stars
  {
    hide Number;
    if Peek(s, i0) != '.' {
      return -1, i0, 0;
    }
    assert s[i0..][1..] == s[i0 + 1..];
    precision, i, stars := ParseField(s, i0 + 1, args);
    if precision < 0 {
      precision := -1;
    }
  }

  method ParseConversion(s: string, args: seq<int>) returns (r: Parsed)
    requires Enough(s, args)
    ensures r == Meant(s, args) && r.next <= |s|
  {
    hide Number, Precision, FlagRun, FlagsIn, Supplied, SizeAt;
    var c, i := ParseFlags(s);
    var width, i1, stars := ParseField(s, i, args);
    assert s[i..][i1 - i..] == s[i1..];
    if width < 0 {
      width := -width;
      c := c.(minus := true);
    }
    c := c.(width := width);
    var precision, i2, more := ParsePrecision(s, i1, args[stars..]);
    assert s[i1..][i2 - i1..] == s[i2..];
    c := c.(precision := precision);
    if c.precision >= 0 {
      c := c.(zero := false);
    }
    var t := SizeAt(s[i2..]);
    r := Parsed(c, t.0, stars + more, i2 + t.1);
  }

  // ----- What parsing promises

  /** Both - and 0 are in force exactly for a 0 without a -, a negative `*` width and no precision. */
  lemma BothInForce(s: string, args: seq<int>)
    requires Enough(s, args)
    ensures var c := Meant(s, args).c;
      c.minus && c.zero <==>
        && '0' in Flags(s) && '-' !in Flags(s) && Peek(WidthPart(s), 0) == '*' && args[0] < 0 && c.precision < 0
  {
  }

  /** So for exactly these specifications is an integer shorter than its width padded twice. */
  lemma PaddedTwice(s: string, args: seq<int>, value: nat, isSigned: bool, negative: bool, b: IntegerBase)
    requires Enough(s, args) && BaseOk(b)
    ensures var c := Meant(s, args).c;
      var body := BodyLength(value, isSigned, negative, b, c);
      && |IntegerText(value, isSigned, negative, b, c)| >= (if c.width > body then c.width else body)
      && (|IntegerText(value, isSigned, negative, b, c)| > (if c.width > body then c.width else body) <==>
            && body < c.width && c.precision < 0
            && '0' in Flags(s) && '-' !in Flags(s) && Peek(WidthPart(s), 0) == '*' && args[0] < 0)
  {
    BothInForce(s, args);
    TextLength(value, isSigned, negative, b, Meant(s, args).c);
    hide Meant, IntegerText, BodyLength;
  }

  /** printf ("%0*d", -5, 7) prints the digit amid eight characters of padding, not four. */
  lemma PaddedTwiceExample()
    ensures Enough("0*d", [-5]) && BaseOk(BASE_D)
    ensures IntegerText(7, true, false, BASE_D, Meant("0*d", [-5]).c) == "00007    "
  {
    DecimalOk();
    FlagRunIs("0*d", 1);
    assert WidthPart("0*d") == "*d";
    assert PrecisionPart("0*d", [-5]) == "d";
    var c := Meant("0*d", [-5]).c;
    assert c == Conversion(true, false, false, false, true, false, 5, -1);
    DivShrink(7, 10);
    assert Grouped(7, BASE_D, false, 0) == "7";
    assert Digits(7, BASE_D, c) == "7";
    assert Repeated('0', 4) == "0000" && Repeated(' ', 4) == "    ";
  }

  // ----- Parsing inverts writing

  /** What parse_conversion can return. */
  predicate Normal(c: Conversion) {
    !(c.zero && (c.minus || c.precision >= 0)) && !(c.plus && c.space) && c.precision >= -1
  }

  function Only(b: bool, c: char): string { if b then [c] else "" }

  function FlagText(c: Conversion): string {
    Only(c.minus, '-') + Only(c.plus, '+') + Only(c.space, ' ') + Only(c.pound, '#') + Only(c.zero, '0')
      + Only(c.group, '\'')
  }

  function SizeText(z: Size): string {
    match z
    case CHAR => "hh"
    case SHORT => "h"
    case INT => ""
    case INTMAX => "j"
    case LONG => "l"
    case LONGLONG => "ll"
    case PTRDIFFT => "t"
    case SIZET => "z"
  }

  ghost function Decimal(n: nat): string { DecimalOk(); Grouped(n, BASE_D, false, 0) }

  /** A specification of the conversion, with the format's `rest` behind it. */
  ghost function Written(c: Conversion, z: Size, rest: string): string {
    FlagText(c) + (Decimal(c.width) + (PrecisionText(c.precision) + (SizeText(z) + rest)))
  }

  ghost function PrecisionText(precision: int): string {
    if precision < 0 then "" else "." + Decimal(precision)
  }

  lemma {:induction false} NoLeadingZero(v: nat, k: nat)
    requires BaseOk(BASE_D) && v > 0
    ensures Grouped(v, BASE_D, false, k) != "" && Grouped(v, BASE_D, false, k)[0] != '0'
  {
    DivShrink(v, 10);
    if v / 10 > 0 {
      NoLeadingZero(v / 10, k + 1);
    } else {
      assert BASE_D.digits[v] == Grouped(v, BASE_D, false, k)[0];
    }
  }

  /** A number is read up to the first character that is no digit. */
  lemma NumberWritten(n: nat, rest: string, args: seq<int>)
    requires rest != "" && !IsDigit(rest[0]) && rest[0] != '*'
    ensures Decimal(n) + rest != "" && (!IsFlag(rest[0]) ==> !IsFlag((Decimal(n) + rest)[0]))
    ensures Peek(Decimal(n) + rest, 0) != '*'
    ensures Number(Decimal(n) + rest, args) == Field(n, |Decimal(n)|, 0)
    ensures n > 0 ==> Peek(Decimal(n) + rest, 0) != '0' && IsDigit(Peek(Decimal(n) + rest, 0))
    ensures n == 0 ==> Decimal(n) + rest == rest
    ensures Supplied(Decimal(n) + rest, [])
  {
    DecimalOk();
    GroupedAreDigits(n, 0);
    ValueGrouped(n, BASE_D, false, 0);
    var d := Decimal(n);
    DigitRunIs(d + rest, |d|);
    assert (d + rest)[..|d|] == d;
    if n > 0 {
      NoLeadingZero(n, 0);
    }
  }

  lemma FlagTextHas(c: Conversion, x: char)
    ensures x in FlagText(c) <==>
      || (x == '-' && c.minus) || (x == '+' && c.plus) || (x == ' ' && c.space) || (x == '#' && c.pound)
      || (x == '0' && c.zero) || (x == '\'' && c.group)
  {
  }

  lemma FlagTextMeans(c: Conversion)
    requires Normal(c)
    ensures var f := FlagText(c); FlagsIn(f) == c.(width := 0, precision := -1) && forall x :: x in f ==> IsFlag(x)
  {
    var f := FlagText(c);
    forall x: char ensures x in f <==>
      || (x == '-' && c.minus) || (x == '+' && c.plus) || (x == ' ' && c.space) || (x == '#' && c.pound)
      || (x == '0' && c.zero) || (x == '\'' && c.group)
    {
      FlagTextHas(c, x);
    }
    hide FlagText;
  }

  lemma FlagsWritten(c: Conversion, rest: string)
    requires Normal(c) && rest != "" && !IsFlag(rest[0])
    ensures FlagRun(FlagText(c) + rest) == |FlagText(c)| && Flags(FlagText(c) + rest) == FlagText(c)
    ensures FlagsIn(FlagText(c)) == c.(width := 0, precision := -1)
  {
    FlagTextMeans(c);
    hide FlagText, FlagRun, FlagsIn, IsFlag;
    var f := FlagText(c);
    forall i | 0 <= i < |f| ensures IsFlag(f[i]) {
      assert f[i] in f;
    }
    FlagRunIs(f + rest, |f|);
    assert (f + rest)[..|f|] == f;
  }

  lemma PrecisionWritten(precision: int, rest: string, args: seq<int>)
    requires precision >= -1 && rest != "" && !IsDigit(rest[0]) && rest[0] != '*' && rest[0] != '.'
    ensures var u := PrecisionText(precision) + rest;
      (Peek(u, 0) == '.' ==> Supplied(u[1..], args))
      && Precision(u, args) == Field(precision, |PrecisionText(precision)|, 0)
  {
    var u := PrecisionText(precision) + rest;
    if precision >= 0 {
      assert u[1..] == Decimal(precision) + rest;
      NumberWritten(precision, rest, args);
    } else {
      assert u == rest;
    }
  }

  /** A character that ends a specification. */
  predicate EndsSpec(x: char) {
    !IsFlag(x) && !IsDigit(x) && x != '*' && x != '.' && x != 'h' && x != 'j' && x != 'l' && x != 't' && x != 'z'
  }

  lemma SizeWritten(z: Size, rest: string)
    requires rest != "" && EndsSpec(rest[0])
    ensures var s := SizeText(z) + rest;
      SizeAt(s) == (z, |SizeText(z)|) && s != "" && !IsFlag(s[0]) && !IsDigit(s[0]) && s[0] != '*' && s[0] != '.'
  {
  }

  /** Flags `f`, then `w` with the width `n` ahead of `u`, which has the precision `q` ahead of `sized`. */
  ghost predicate InParts(s: string, f: string, w: string, n: Field, u: string, q: Field, sized: string) {
    && FlagRun(s) == |f| && s[..|f|] == f && s[|f|..] == w
    && Supplied(w, []) && Number(w, []) == n && n.stars == 0 && w[n.len..] == u
    && (Peek(u, 0) == '.' ==> Supplied(u[1..], [])) && Precision(u, []) == q && q.stars == 0 && u[q.len..] == sized
  }

  /** The parts of a specification are parsed one after the other. */
  lemma MeantInParts(s: string, f: string, w: string, n: Field, u: string, q: Field, sized: string)
    requires InParts(s, f, w, n, u, q, sized)
    ensures Enough(s, [])
    ensures var t := SizeAt(sized);
      Meant(s, []) == Parsed(Adjusted(FlagsIn(f), n.value, q.value), t.0, 0, |f| + n.len + q.len + t.1)
  {
    hide Number, Precision, FlagRun, FlagsIn, SizeAt, Supplied, Adjusted;
    assert WidthPart(s) == w;
    assert PrecisionPart(s, []) == u;
    var none: seq<int> := [];
    assert none[0..] == none;
  }

  lemma Skipped(a: string, b: string)
    ensures (a + b)[..|a|] == a && (a + b)[|a|..] == b
  {
  }

  ghost function Plain(value: int, text: string): Field { Field(value, |text|, 0) }

  lemma WrittenInParts(c: Conversion, sized: string)
    requires Normal(c) && sized != ""
    requires !IsFlag(sized[0]) && !IsDigit(sized[0]) && sized[0] != '*' && sized[0] != '.'
    ensures var u := PrecisionText(c.precision) + sized; var w := Decimal(c.width) + u;
      InParts(FlagText(c) + w, FlagText(c), w, Plain(c.width, Decimal(c.width)), u,
              Plain(c.precision, PrecisionText(c.precision)), sized)
  {
    hide Number, Precision, FlagRun, FlagsIn, FlagText, Supplied, Flags;
    var u := PrecisionText(c.precision) + sized;
    PrecisionWritten(c.precision, sized, []);
    assert u != "" && !IsFlag(u[0]) && !IsDigit(u[0]) && u[0] != '*';
    NumberWritten(c.width, u, []);
    hide Decimal, PrecisionText, IsFlag;
    var w := Decimal(c.width) + u;
    FlagsWritten(c, w);
    Skipped(FlagText(c), w);
    Skipped(Decimal(c.width), u);
    Skipped(PrecisionText(c.precision), sized);
  }

  /** Whatever a parsed conversion says, writing it out and parsing it again says the same. */
  lemma ParseInvertsWriting(c: Conversion, z: Size, rest: string)
    requires Normal(c) && rest != "" && EndsSpec(rest[0])
    ensures var s := Written(c, z, rest); Enough(s, []) && Meant(s, []) == Parsed(c, z, 0, |s| - |rest|)
  {
    hide FlagsIn, FlagText, SizeText, SizeAt, EndsSpec, Enough, Meant, InParts, Decimal, PrecisionText;
    var sized := SizeText(z) + rest;
    SizeWritten(z, rest);
    WrittenInParts(c, sized);
    FlagTextMeans(c);
    var u := PrecisionText(c.precision) + sized;
    var w := Decimal(c.width) + u;
    MeantInParts(FlagText(c) + w, FlagText(c), w, Plain(c.width, Decimal(c.width)), u,
                 Plain(c.precision, PrecisionText(c.precision)), sized);
    assert Adjusted(c.(width := 0, precision := -1), c.width, c.precision) == c;
  }

  /** Every specification without both flags in force can be written without `*`. */
  lemma ParsedAgain(s: string, args: seq<int>, rest: string)
    requires Enough(s, args) && rest != "" && EndsSpec(rest[0])
    requires var c := Meant(s, args).c; !(c.minus && c.zero)
    ensures var r := Meant(s, args); var t := Written(r.c, r.size, rest);
      Enough(t, []) && Meant(t, []).c == r.c && Meant(t, []).size == r.size
  {
    var r := Meant(s, args);
    assert Normal(r.c);
    hide Meant, Enough;
    ParseInvertsWriting(r.c, r.size, rest);
  }
}
