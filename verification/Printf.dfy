/**
 The loop of printf over its format string (__vprintf and snprintf in lib/stdio.c).

 The arguments are a list of values, an int for every `*`, integer conversion and %c.  A
 format whose last conversion is cut off, or an argument that is missing or of another kind,
 leaves the call undefined in C.
 */
module Printf {
  import opened Options
  import opened Integers
  import opened Format
  import opened Conversions

  datatype Arg = Int(value: int) | Str(text: Option<string>) | Ptr(address: nat)

  /** The values of the ints that the list begins with. */
  function Ints(args: seq<Arg>): (ints: seq<int>)
    ensures |ints| <= |args|
  {
    if args != [] && args[0].Int? then [args[0].value] + Ints(args[1..]) else []
  }

  // ----- What is printed

  /** The number of values of an integer argument of that size. */
  function Values(size: Size): int {
    match size
    case CHAR => 0x100
    case SHORT => 0x1_0000
    case INT => 0x1_0000_0000
    case LONG => 0x1_0000_0000
    case PTRDIFFT => 0x1_0000_0000
    case SIZET => 0x1_0000_0000
    case INTMAX => B64
    case LONGLONG => B64
  }

  function AsUnsigned(v: int, size: Size): (r: nat)
    ensures r < Values(size) <= B64
  {
    v % Values(size)
  }

  function AsSigned(v: int, size: Size): (r: int)
    ensures -Values(size) <= 2 * r < Values(size) && (-Values(size) <= 2 * v < Values(size) ==> r == v)
  {
    var r := v % Values(size);
    if 2 * r >= Values(size) then r - Values(size) else r
  }

  predicate IsUnsigned(ch: char) { ch == 'o' || ch == 'u' || ch == 'x' || ch == 'X' }

  predicate IsUnsupported(ch: char) {
    ch == 'f' || ch == 'e' || ch == 'E' || ch == 'g' || ch == 'G' || ch == 'n'
  }

  predicate TakesInt(ch: char) { ch == 'd' || ch == 'i' || ch == 'c' || IsUnsigned(ch) }

  /** How many arguments a conversion takes, besides those for `*`. */
  function Taken(ch: char): nat { if TakesInt(ch) || ch == 's' || ch == 'p' then 1 else 0 }

  predicate Suits(ch: char, args: seq<Arg>) {
    && (TakesInt(ch) ==> args != [] && args[0].Int?)
    && (ch == 's' ==> args != [] && args[0].Str?)
    && (ch == 'p' ==> args != [] && args[0].Ptr?)
  }

  ghost function SignedText(v: int, c: Conversion): string {
    DecimalOk();
    IntegerText(Abs(v), true, v < 0, BASE_D, c)
  }

  function BaseOf(ch: char): IntegerBase {
    if ch == 'o' then BASE_O else if ch == 'x' then BASE_X else if ch == 'X' then BASE_XX else BASE_D
  }

  lemma BasesOk(ch: char)
    ensures BaseOk(BaseOf(ch))
  {
    DecimalOk();
    OctalOk();
    HexOk();
    HexUpperOk();
  }

  ghost function UnsignedText(v: nat, ch: char, c: Conversion): string {
    BasesOk(ch);
    IntegerText(v, false, false, BaseOf(ch), c)
  }

  ghost function PaddedText(s: string, c: Conversion): string {
    var pad := Repeated(' ', PadCount(c.width, |s|));
    if c.minus then s + pad else pad + s
  }

  /** A string argument as far as the precision goes. */
  function Limited(text: Option<string>, precision: int): string {
    var s := if text.None? then "(null)" else text.value;
    if 0 <= precision < |s| then s[..precision] else s
  }

  /** %p is %#x whatever the flags. */
  function PointerConversion(c: Conversion): Conversion {
    Conversion(false, false, false, true, false, false, c.width, c.precision)
  }

  ghost function ConversionText(ch: char, c: Conversion, size: Size, args: seq<Arg>): string
    requires Suits(ch, args)
  {
    if ch == 'd' || ch == 'i' then SignedText(AsSigned(args[0].value, size), c)
    else if IsUnsigned(ch) then UnsignedText(AsUnsigned(args[0].value, size), ch, c)
    else if ch == 'c' then PaddedText([(args[0].value % 256) as char], c)
    else if ch == 's' then PaddedText(Limited(args[0].text, c.precision), c)
    else if ch == 'p' then UnsignedText(args[0].address % 0x1_0000_0000, 'x', PointerConversion(c))
    else if IsUnsupported(ch) then "<<no %" + [ch] + " in kernel>>"
    else "<<no %" + [ch] + " conversion>>"
  }

  /** The specification at the front of `s` is all there, and so are its arguments. */
  ghost predicate Complete(s: string, args: seq<Arg>) {
    && Enough(s, Ints(args))
    && var m := Meant(s, Ints(args)); m.next < |s| && m.stars <= |args| && Suits(s[m.next], args[m.stars..])
  }

  /** What is left behind a specification, of the format and of the arguments. */
  ghost function Behind(s: string, args: seq<Arg>): (r: (string, seq<Arg>))
    requires Complete(s, args)
    ensures |r.0| < |s|
  {
    hide Meant, Enough, Ints;
    var m := Meant(s, Ints(args));
    (s[m.next + 1..], args[m.stars + Taken(s[m.next])..])
  }

  ghost function SpecText(s: string, args: seq<Arg>): string
    requires Complete(s, args)
  {
    var m := Meant(s, Ints(args));
    ConversionText(s[m.next], m.c, m.size, args[m.stars..])
  }

  ghost predicate Proper(format: string, args: seq<Arg>)
    decreases |format|
  {
    if format == "" then true
    else if format[0] != '%' then Proper(format[1..], args)
    else if Peek(format, 1) == '%' then Proper(format[2..], args)
    else Complete(format[1..], args) && Proper(Behind(format[1..], args).0, Behind(format[1..], args).1)
  }

  /** The whole output. */
  ghost function Printed(format: string, args: seq<Arg>): string
    requires Proper(format, args)
    decreases |format|
  {
    if format == "" then ""
    else if format[0] != '%' then [format[0]] + Printed(format[1..], args)
    else if Peek(format, 1) == '%' then "%" + Printed(format[2..], args)
    else
      SpecText(format[1..], args) + Printed(Behind(format[1..], args).0, Behind(format[1..], args).1)
  }

  // ----- __vprintf

  /** The switch over the conversion characters. */
  method Convert(ch: char, c: Conversion, size: Size, args: seq<Arg>) returns (out: string)
    requires Suits(ch, args)
    ensures out == ConversionText(ch, c, size, args)
  {
    hide IntegerText, BaseOk, PadCount;
    BasesOk(ch);
    DecimalOk();
    HexOk();
    if ch == 'd' || ch == 'i' {
      var value := AsSigned(args[0].value, size);
      out := FormatInteger(Abs(value), true, value < 0, BASE_D, c);
    } else if IsUnsigned(ch) {
      out := FormatInteger(AsUnsigned(args[0].value, size), false, false, BaseOf(ch), c);
    } else if ch == 'c' {
      out := FormatString([(args[0].value % 256) as char], c);
    } else if ch == 's' {
      out := FormatString(Limited(args[0].text, c.precision), c);
    } else if ch == 'p' {
      out := FormatInteger(args[0].address % 0x1_0000_0000, false, false, BASE_X, PointerConversion(c));
    } else if IsUnsupported(ch) {
      out := "<<no %" + [ch] + " in kernel>>";
    } else {
      out := "<<no %" + [ch] + " conversion>>";
    }
  }

  lemma LiteralStep(s: string, args: seq<Arg>)
    requires s != "" && s[0] != '%' && Proper(s, args)
    ensures Proper(s[1..], args) && Printed(s, args) == [s[0]] + Printed(s[1..], args)
  {
  }

  lemma PercentStep(s: string, args: seq<Arg>)
    requires s != "" && s[0] == '%' && Peek(s, 1) == '%' && Proper(s, args)
    ensures Proper(s[2..], args) && Printed(s, args) == "%" + Printed(s[2..], args)
  {
  }

  lemma SpecStep(s: string, args: seq<Arg>)
    requires s != "" && s[0] == '%' && Peek(s, 1) != '%' && Proper(s, args)
    ensures Complete(s[1..], args)
    ensures var r := Behind(s[1..], args);
      Proper(r.0, r.1) && Printed(s, args) == SpecText(s[1..], args) + Printed(r.0, r.1)
  {
    hide Complete, Behind, SpecText;
  }

  lemma EnoughOf(s: string, args: seq<Arg>)
    requires Complete(s, args)
    ensures Enough(s, Ints(args))
  {
  }

  lemma SpecIs(s: string, args: seq<Arg>, m: Parsed)
    requires Complete(s, args) && m == Meant(s, Ints(args))
    ensures m.next < |s| && m.stars + Taken(s[m.next]) <= |args| && Suits(s[m.next], args[m.stars..])
    ensures SpecText(s, args) == ConversionText(s[m.next], m.c, m.size, args[m.stars..])
    ensures Behind(s, args) == (s[m.next + 1..], args[m.stars + Taken(s[m.next])..])
  {
    hide Meant, Enough, ConversionText, Ints;
  }

  method Vprintf(format: string, args: seq<Arg>) returns (out: string)
    requires Proper(format, args)
    ensures out == Printed(format, args)
  {
    hide Meant, Enough, ConversionText, Suits, Proper, Printed, Ints, Complete, Behind, SpecText;
    out := "";
    var i, rest := 0, args;
    while i < |format|
      invariant i <= |format| && Proper(format[i..], rest)
      invariant Printed(format, args) == out + Printed(format[i..], rest)
    {
      ghost var s := format[i..];
      if format[i] != '%' {
        LiteralStep(s, rest);
        assert s[1..] == format[i + 1..];
        out := out + [format[i]];
        i := i + 1;
      } else if Peek(format, i + 1) == '%' {
        PercentStep(s, rest);
        assert s[2..] == format[i + 2..];
        out := out + "%";
        i := i + 2;
      } else {
        SpecStep(s, rest);
        assert s[1..] == format[i + 1..];
        EnoughOf(s[1..], rest);
        var p := ParseConversion(format[i + 1..], Ints(rest));
        SpecIs(s[1..], rest, p);
        var ch := format[i + 1..][p.next];
        var text := Convert(ch, p.c, p.size, rest[p.stars..]);
        assert s[1..][p.next + 1..] == format[i + p.next + 2..];
        out := out + text;
        i := i + p.next + 2;
        rest := rest[p.stars + Taken(ch)..];
      }
    }
    NothingLeft(format, rest);
  }

  lemma NothingLeft(format: string, args: seq<Arg>)
    ensures Proper(format[|format|..], args) && Printed(format[|format|..], args) == ""
  {
  }

  /** snprintf: what is printed, cut off at the size of the buffer and ended by a null. */
  method Snprintf(buffer: array<char>, bufSize: nat, format: string, args: seq<Arg>) returns (length: nat)
    requires Proper(format, args) && bufSize <= buffer.Length
    modifies buffer
    ensures length == |Printed(format, args)|
    ensures var out := Printed(format, args); var k := if |out| < bufSize then |out| else bufSize - 1;
      if bufSize == 0 then buffer[..] == old(buffer[..])
      else buffer[..] == out[..k] + ['\0'] + old(buffer[..])[k + 1..]
  {
    var out := Vprintf(format, args);
    length := Vsnprintf(buffer, bufSize, out);
  }

  // ----- Formats one after the other

  lemma NumberJoin(u: string, g: string, ints: seq<int>, ints': seq<int>)
    requires Supplied(u, ints) && Number(u, ints).len < |u| && ints <= ints'
    ensures Supplied(u + g, ints') && Number(u + g, ints') == Number(u, ints)
  {
    if u[0] != '*' {
      DigitRunIs(u + g, DigitRun(u));
      assert (u + g)[..DigitRun(u)] == u[..DigitRun(u)];
    }
  }

  lemma PrecisionJoin(u: string, g: string, ints: seq<int>, ints': seq<int>)
    requires (Peek(u, 0) == '.' ==> Supplied(u[1..], ints)) && Precision(u, ints).len < |u| && ints <= ints'
    ensures (Peek(u + g, 0) == '.' ==> Supplied((u + g)[1..], ints')) && Precision(u + g, ints') == Precision(u, ints)
  {
    hide Number, Supplied;
    if u[0] == '.' {
      assert (u + g)[1..] == u[1..] + g;
      NumberJoin(u[1..], g, ints, ints');
    }
  }

  lemma SizeJoin(u: string, g: string)
    requires SizeAt(u).1 < |u|
    ensures SizeAt(u + g) == SizeAt(u)
  {
  }

  lemma FlagsJoin(s: string, g: string)
    requires FlagRun(s) < |s|
    ensures FlagRun(s + g) == FlagRun(s) && Flags(s + g) == Flags(s) && WidthPart(s + g) == WidthPart(s) + g
  {
    FlagRunIs(s + g, FlagRun(s));
  }

  lemma {:induction false} IntsJoin(args: seq<Arg>, more: seq<Arg>)
    ensures Ints(args) <= Ints(args + more)
  {
    if args != [] && args[0].Int? {
      IntsJoin(args[1..], more);
      assert (args + more)[1..] == args[1..] + more;
    }
  }

  lemma DropFront(u: string, g: string, n: nat)
    requires n <= |u|
    ensures (u + g)[n..] == u[n..] + g
  {
  }

  /** The flags, the width `n`, what is behind it and the precision `q` of a specification. */
  ghost predicate Parts(s: string, ints: seq<int>, w: string, n: Field, u: string, q: Field) {
    && w == WidthPart(s) && Supplied(w, ints) && n == Number(w, ints) && u == w[n.len..]
    && (Peek(u, 0) == '.' ==> Supplied(u[1..], ints[n.stars..])) && q == Precision(u, ints[n.stars..])
  }

  lemma MeantParts(s: string, ints: seq<int>, w: string, n: Field, u: string, q: Field)
    requires Parts(s, ints, w, n, u, q)
    ensures Enough(s, ints)
    ensures var t := SizeAt(u[q.len..]);
      Meant(s, ints) == Parsed(Adjusted(FlagsIn(Flags(s)), n.value, q.value), t.0, n.stars + q.stars,
                               |Flags(s)| + n.len + q.len + t.1)
  {
    hide Number, Precision, FlagRun, FlagsIn, SizeAt, Adjusted, Supplied;
  }

  lemma PartsJoin(s: string, g: string, ints: seq<int>, ints': seq<int>, w: string, n: Field, u: string, q: Field)
    requires Parts(s, ints, w, n, u, q) && FlagRun(s) < |s| && n.len < |w| && q.len < |u| && ints <= ints'
    ensures Parts(s + g, ints', w + g, n, u + g, q)
  {
    hide Number, Precision, FlagRun, Flags, Supplied;
    FlagsJoin(s, g);
    NumberJoin(w, g, ints, ints');
    DropFront(w, g, n.len);
    assert ints[n.stars..] <= ints'[n.stars..];
    PrecisionJoin(u, g, ints[n.stars..], ints'[n.stars..]);
  }

  /** What a complete specification means does not depend on what comes behind it. */
  lemma MeantJoin(s: string, g: string, ints: seq<int>, ints': seq<int>)
    requires Enough(s, ints) && Meant(s, ints).next < |s| && ints <= ints'
    ensures Enough(s + g, ints') && Meant(s + g, ints') == Meant(s, ints)
  {
    hide Number, Precision, FlagRun, FlagsIn, SizeAt, Adjusted, Supplied;
    var w := WidthPart(s);
    var n := Number(w, ints);
    var u := PrecisionPart(s, ints);
    var q := Precision(u, ints[n.stars..]);
    assert Parts(s, ints, w, n, u, q);
    hide Parts, PrecisionPart;
    PartsJoin(s, g, ints, ints', w, n, u, q);
    FlagsJoin(s, g);
    DropFront(u, g, q.len);
    SizeJoin(u[q.len..], g);
    MeantParts(s, ints, w, n, u, q);
    MeantParts(s + g, ints', w + g, n, u + g, q);
  }

  lemma SpecJoin(s: string, g: string, args: seq<Arg>, more: seq<Arg>)
    requires Complete(s, args)
    ensures Complete(s + g, args + more) && SpecText(s + g, args + more) == SpecText(s, args)
    ensures Behind(s + g, args + more) == (Behind(s, args).0 + g, Behind(s, args).1 + more)
  {
    hide Meant, Enough, Ints, ConversionText;
    var m := Meant(s, Ints(args));
    IntsJoin(args, more);
    MeantJoin(s, g, Ints(args), Ints(args + more));
    assert (args + more)[m.stars..] == args[m.stars..] + more;
    SpecIs(s, args, m);
    TextJoin(s[m.next], m.c, m.size, args[m.stars..], more);
    SpecIs(s + g, args + more, m);
    assert (s + g)[m.next + 1..] == s[m.next + 1..] + g;
    var k := m.stars + Taken(s[m.next]);
    assert (args + more)[k..] == args[k..] + more;
  }

  lemma TextJoin(ch: char, c: Conversion, size: Size, args: seq<Arg>, more: seq<Arg>)
    requires Suits(ch, args)
    ensures Suits(ch, args + more) && ConversionText(ch, c, size, args + more) == ConversionText(ch, c, size, args)
  {
    hide SignedText, UnsignedText, PaddedText, Limited;
    var all := args + more;
    if TakesInt(ch) || ch == 's' || ch == 'p' {
      assert all != [] && all[0] == args[0];
    } else {
      assert ConversionText(ch, c, size, all) == ConversionText(ch, c, size, args);
    }
  }

  /** The arguments that a format leaves. */
  ghost function Unused(format: string, args: seq<Arg>): seq<Arg>
    requires Proper(format, args)
    decreases |format|
  {
    if format == "" then args
    else if format[0] != '%' then Unused(format[1..], args)
    else if Peek(format, 1) == '%' then Unused(format[2..], args)
    else Unused(Behind(format[1..], args).0, Behind(format[1..], args).1)
  }

  /** A format that uses up its arguments prints the same ahead of any other format and arguments. */
  lemma {:induction false} PrintedJoin(f: string, g: string, a: seq<Arg>, b: seq<Arg>)
    requires Proper(f, a) && Unused(f, a) == [] && Proper(g, b)
    ensures Proper(f + g, a + b) && Printed(f + g, a + b) == Printed(f, a) + Printed(g, b)
    decreases |f|
  {
    hide Complete, Behind, SpecText;
    if f == "" {
      assert f + g == g && a + b == b;
    } else if f[0] != '%' {
      assert (f + g)[1..] == f[1..] + g;
      PrintedJoin(f[1..], g, a, b);
    } else if Peek(f, 1) == '%' {
      assert (f + g)[2..] == f[2..] + g;
      PrintedJoin(f[2..], g, a, b);
    } else {
      assert (f + g)[1..] == f[1..] + g && |f| > 1 by {
        NotCutOff(f[1..], a);
      }
      SpecJoin(f[1..], g, a, b);
      PrintedJoin(Behind(f[1..], a).0, g, Behind(f[1..], a).1, b);
    }
  }

  lemma NotCutOff(s: string, args: seq<Arg>)
    requires Complete(s, args)
    ensures s != ""
  {
  }

  function Escaped(text: string): string {
    if text == "" then "" else (if text[0] == '%' then "%%" else [text[0]]) + Escaped(text[1..])
  }

  /** Any text is printed as it is once its percent signs are doubled. */
  lemma {:induction false} EscapedPrints(text: string)
    ensures Proper(Escaped(text), []) && Printed(Escaped(text), []) == text
  {
    if text != "" {
      var e := Escaped(text[1..]);
      EscapedPrints(text[1..]);
      if text[0] == '%' {
        assert Escaped(text)[2..] == e;
      } else {
        assert Escaped(text)[1..] == e;
      }
    }
  }
}
