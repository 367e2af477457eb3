/**
 Formatted output of integers and strings (lib/stdio.c), and the parser that reads decimal
 integers back (atoi in lib/stdlib.c).

 An `output` callback becomes the sequence of the characters that it is passed.
 */
module Format {
  import opened Integers
  import opened Order

  const B64: int := 0x1_0000_0000_0000_0000
  const BUF_SIZE: nat := 64

  /** Conversion flags, field width and precision; precision -1 means none was given. */
  datatype Conversion = Conversion(minus: bool, plus: bool, space: bool, pound: bool, zero: bool, group: bool,
                                   width: nat, precision: int)

  /** `x` is the character after "0x", or null. */
  datatype IntegerBase = IntegerBase(base: nat, digits: string, x: char, group: nat)

  const BASE_D := IntegerBase(10, "0123456789", '\0', 3)
  const BASE_O := IntegerBase(8, "01234567", '\0', 3)
  const BASE_X := IntegerBase(16, "0123456789abcdef", 'x', 4)
  const BASE_XX := IntegerBase(16, "0123456789ABCDEF", 'X', 4)

  ghost predicate BaseOk(b: IntegerBase) {
    && b.base >= 8 && |b.digits| == b.base && b.digits[0] == '0' && (b.group == 3 || b.group == 4)
    && Distinct(b.digits) && ',' !in b.digits
  }

  lemma DecimalOk()
    ensures BaseOk(BASE_D)
  {
    AscendingDistinct(BASE_D.digits);
  }

  lemma OctalOk()
    ensures BaseOk(BASE_O)
  {
    AscendingDistinct(BASE_O.digits);
  }

  lemma HexOk()
    ensures BaseOk(BASE_X)
  {
    AscendingDistinct(BASE_X.digits);
  }

  lemma HexUpperOk()
    ensures BaseOk(BASE_XX)
  {
    AscendingDistinct(BASE_XX.digits);
  }

  lemma AscendingDistinct(s: string)
    requires forall i :: 0 <= i < |s| - 1 ==> s[i] < s[i + 1]
    ensures Distinct(s)
  {
    forall i, j | 0 <= i < j < |s| ensures s[i] < s[j] {
      AscendingFar(s, i, j);
    }
  }

  lemma {:induction false} AscendingFar(s: string, i: nat, j: nat)
    requires forall k :: 0 <= k < |s| - 1 ==> s[k] < s[k + 1]
    requires i < j < |s|
    ensures s[i] < s[j]
  {
    if i + 1 < j {
      AscendingFar(s, i, j - 1);
    }
  }

  // ----- Digits and what they mean

  /** The digits of `v` with `k` more to their right, grouped if asked; none for 0. */
  ghost function Grouped(v: nat, b: IntegerBase, group: bool, k: nat): string
    requires BaseOk(b)
  {
    if v == 0 then ""
    else
      DivShrink(v, b.base);
      Grouped(v / b.base, b, group, k + 1) + [b.digits[v % b.base]]
        + if group && k > 0 && k % b.group == 0 then "," else ""
  }

  lemma DivShrink(v: nat, d: nat)
    requires v > 0 && d >= 2
    ensures 0 <= v / d < v && v == v / d * d + v % d
  {
    DivAtMost(v, d, v);
    DivAtLeast(v, d, 0);
  }

  ghost function IndexOf(s: string, c: char): nat {
    if s == "" || s[0] == c then 0 else 1 + IndexOf(s[1..], c)
  }

  lemma {:induction false} IndexOfDigit(s: string, i: nat)
    requires Distinct(s) && i < |s|
    ensures IndexOf(s, s[i]) == i
  {
    if i > 0 {
      IndexOfDigit(s[1..], i - 1);
    }
  }

  /** The number that digits, most significant first, denote; commas are skipped. */
  ghost function Value(b: IntegerBase, s: string): nat {
    if s == "" then 0
    else if s[|s| - 1] == ',' then Value(b, s[..|s| - 1])
    else Value(b, s[..|s| - 1]) * b.base + IndexOf(b.digits, s[|s| - 1])
  }

  lemma ValueDigit(b: IntegerBase, s: string, d: nat, comma: string)
    requires BaseOk(b) && d < b.base && (comma == "" || comma == ",")
    ensures Value(b, s + [b.digits[d]] + comma) == Value(b, s) * b.base + d
  {
    var t := s + [b.digits[d]];
    assert t[..|t| - 1] == s;
    IndexOfDigit(b.digits, d);
    assert b.digits[d] in b.digits;
    if comma == "," {
      assert (t + comma)[..|t|] == t;
    } else {
      assert t + comma == t;
    }
  }

  /** The printed digits decode to the value. */
  lemma {:induction false} ValueGrouped(v: nat, b: IntegerBase, group: bool, k: nat)
    requires BaseOk(b)
    ensures Value(b, Grouped(v, b, group, k)) == v
  {
    if v > 0 {
      DivShrink(v, b.base);
      ValueGrouped(v / b.base, b, group, k + 1);
      ValueDigit(b, Grouped(v / b.base, b, group, k + 1), v % b.base,
                 if group && k > 0 && k % b.group == 0 then "," else "");
    }
  }

  ghost function Repeated(c: char, n: nat): (s: string)
    ensures |s| == n
  {
    seq(n, _ => c)
  }

  lemma {:induction false} ValueLeadingZeros(b: IntegerBase, n: nat, s: string)
    requires BaseOk(b)
    ensures Value(b, Repeated('0', n) + s) == Value(b, s)
  {
    var t := Repeated('0', n) + s;
    if s != "" {
      ValueLeadingZeros(b, n, s[..|s| - 1]);
      assert t[..|t| - 1] == Repeated('0', n) + s[..|s| - 1];
    } else if n > 0 {
      ValueLeadingZeros(b, n - 1, "");
      assert t[..|t| - 1] == Repeated('0', n - 1) + "";
      IndexOfDigit(b.digits, 0);
      assert b.digits[0] in b.digits;
    } else {
      assert t == "";
    }
  }

  // ----- format_integer

  /** The digits as printed: grouped, zero-padded to the precision (63 at most), and in base 8
      with the # flag beginning with a zero. */
  ghost function Digits(value: nat, b: IntegerBase, c: Conversion): string
    requires BaseOk(b)
  {
    WithZeros(Grouped(value, b, c.group, 0), b.base, c)
  }

  ghost function WithZeros(s: string, base: nat, c: Conversion): string {
    var t := Repeated('0', Missing(c.precision, |s|)) + s;
    if c.pound && base == 8 && (t == "" || t[0] != '0') then "0" + t else t
  }

  /** How many zeros the precision asks for. */
  ghost function Missing(precision: int, len: nat): nat {
    var p := if precision < 0 then 1 else precision;
    var q := if p < BUF_SIZE - 1 then p else BUF_SIZE - 1;
    if len < q then q - len else 0
  }

  /** Whatever the flags, the printed digits decode to the value. */
  lemma DigitsDecode(value: nat, b: IntegerBase, c: Conversion)
    requires BaseOk(b)
    ensures Value(b, Digits(value, b, c)) == value
  {
    var s := Grouped(value, b, c.group, 0);
    ValueGrouped(value, b, c.group, 0);
    var n := Missing(c.precision, |s|);
    ValueLeadingZeros(b, n, s);
    assert Repeated('0', 1) == "0";
    ValueLeadingZeros(b, 1, Repeated('0', n) + s);
  }

  ghost function Sign(isSigned: bool, negative: bool, c: Conversion): string {
    if !isSigned then ""
    else if negative then "-"
    else if c.plus then "+"
    else if c.space then " "
    else ""
  }

  ghost function Prefix(value: nat, b: IntegerBase, c: Conversion): string {
    if c.pound && value != 0 && b.x != '\0' then "0" + [b.x] else ""
  }

  /** Sign, prefix and digits: what is printed but for padding. */
  ghost function BodyLength(value: nat, isSigned: bool, negative: bool, b: IntegerBase, c: Conversion): nat
    requires BaseOk(b)
  {
    |Sign(isSigned, negative, c)| + |Prefix(value, b, c)| + |Digits(value, b, c)|
  }

  ghost function PadCount(width: nat, len: nat): nat { if width > len then width - len else 0 }

  /** All that is output for an integer. */
  ghost function IntegerText(value: nat, isSigned: bool, negative: bool, b: IntegerBase, c: Conversion): string
    requires BaseOk(b)
  {
    var pad := PadCount(c.width, BodyLength(value, isSigned, negative, b, c));
    Assembled(c, pad, Sign(isSigned, negative, c), Prefix(value, b, c), Digits(value, b, c))
  }

  ghost function Assembled(c: Conversion, pad: nat, sign: string, prefix: string, digits: string): string {
    (if !c.minus && !c.zero then Repeated(' ', pad) else "") + sign + prefix
      + (if c.zero then Repeated('0', pad) else "") + digits + (if c.minus then Repeated(' ', pad) else "")
  }

  /** The width is honoured exactly, unless both - and 0 are in force, when the padding is doubled. */
  lemma TextLength(value: nat, isSigned: bool, negative: bool, b: IntegerBase, c: Conversion)
    requires BaseOk(b)
    ensures var body := BodyLength(value, isSigned, negative, b, c);
      |IntegerText(value, isSigned, negative, b, c)| ==
        (if c.width > body then c.width else body) + (if c.minus && c.zero then PadCount(c.width, body) else 0)
  {
    hide Digits, Sign, Prefix;
  }

  function Pow8(n: nat): (p: nat)
    ensures p > 0
  {
    if n == 0 then 1 else 8 * Pow8(n - 1)
  }

  lemma Pow8Of22()
    ensures B64 <= Pow8(22)
  {
    assert Pow8(11) == 0x2_0000_0000;
    assert Pow8(22) == 8 * (8 * (8 * (8 * (8 * (8 * (8 * (8 * (8 * (8 * (8 * Pow8(11)))))))))));
  }

  lemma FewerDigits(v: nat, base: nat, k: nat)
    requires 0 < v < Pow8(k) && base >= 8
    ensures k > 0 && v / base < Pow8(k - 1)
  {
    MulMono(8, base, Pow8(k - 1));
    DivAtMost(v, base, Pow8(k - 1));
  }

  /** The characters of `text`, last first. */
  ghost predicate Backwards(buf: seq<char>, text: string) {
    |buf| == |text| && forall i :: 0 <= i < |text| ==> buf[i] == text[|text| - 1 - i]
  }

  lemma BackwardsMore(buf: seq<char>, text: string, c: char)
    requires Backwards(buf, text)
    ensures Backwards(buf + [c], [c] + text)
  {
  }

  /** One more character into the buffer. */
  method Push(buf: array<char>, cp: nat, c: char, ghost text: string)
    requires cp < buf.Length && Backwards(buf[..cp], text)
    modifies buf
    ensures Backwards(buf[..cp + 1], [c] + text)
  {
    BackwardsMore(buf[..cp], text, c);
    hide Backwards;
    buf[cp] := c;
    assert buf[..cp + 1] == old(buf[..cp]) + [c];
  }

  ghost function Comma(b: IntegerBase, group: bool, k: nat): string
    requires BaseOk(b)
  {
    if group && k > 0 && k % b.group == 0 then "," else ""
  }

  lemma GroupedStep(v: nat, b: IntegerBase, group: bool, k: nat, text: string)
    requires BaseOk(b) && v > 0
    ensures v / b.base >= 0
    ensures Grouped(v, b, group, k) + text
      == Grouped(v / b.base, b, group, k + 1) + ([b.digits[v % b.base]] + (Comma(b, group, k) + text))
  {
    DivShrink(v, b.base);
  }

  method PushComma(buf: array<char>, cp0: nat, b: IntegerBase, group: bool, digitCnt: nat, ghost text: string)
    returns (cp: nat)
    requires cp0 < buf.Length && Backwards(buf[..cp0], text) && BaseOk(b)
    modifies buf
    ensures cp == cp0 + |Comma(b, group, digitCnt)| && cp <= buf.Length
    ensures Backwards(buf[..cp], Comma(b, group, digitCnt) + text)
  {
    hide Backwards;
    cp := cp0;
    assert "" + text == text && [','] + text == "," + text;
    if group && digitCnt > 0 && digitCnt % b.group == 0 {
      Push(buf, cp, ',', text);
      cp := cp + 1;
    }
  }

  /** One turn of the first loop: a comma where one is due, then the least significant digit. */
  method PushDigit(buf: array<char>, cp0: nat, value: nat, b: IntegerBase, group: bool, k: nat, ghost text: string)
    returns (cp: nat, ghost grown: string)
    requires value > 0 && BaseOk(b) && k < 22 && cp0 <= k + Commas(k, b.group) && cp0 + 2 <= buf.Length
    requires Backwards(buf[..cp0], text)
    modifies buf
    ensures cp <= buf.Length && cp <= k + 1 + Commas(k + 1, b.group) && Backwards(buf[..cp], grown)
    ensures Grouped(value, b, group, k) + text == Grouped(value / b.base, b, group, k + 1) + grown
  {
    assert 0 <= value % b.base < |b.digits| && value / b.base >= 0 by {
      DivShrink(value, b.base);
    }
    CommasStep(k, b.group);
    GroupedStep(value, b, group, k, text);
    hide BaseOk, Backwards, Grouped, Commas;
    cp := PushComma(buf, cp0, b, group, k, text);
    ghost var more := Comma(b, group, k) + text;
    Push(buf, cp, b.digits[value % b.base], more);
    cp, grown := cp + 1, [b.digits[value % b.base]] + more;
  }

  /** format_integer's first loop: digits from the least significant, into the buffer. */
  method AccumulateDigits(value0: nat, b: IntegerBase, group: bool, buf: array<char>) returns (cp: nat)
    requires value0 < B64 && BaseOk(b) && buf.Length == BUF_SIZE
    modifies buf
    ensures cp <= 29 && Backwards(buf[..cp], Grouped(value0, b, group, 0))
  {
    var value := value0;
    cp := 0;
    var digitCnt: nat := 0;
    ghost var text := "";
    Pow8Of22();
    assert b.base >= 8 && |b.digits| == b.base && (b.group == 3 || b.group == 4);
    hide Pow8, Backwards, BaseOk, Commas;
    NoneBackwards();
    CommasStep(0, b.group);
    assert Grouped(value, b, group, 0) + text == Grouped(value, b, group, 0);
    hide Grouped;
    while value > 0
      invariant digitCnt <= 22 && 0 <= value < Pow8(22 - digitCnt)
      invariant cp <= digitCnt + Commas(digitCnt, b.group)
      invariant Backwards(buf[..cp], text)
      invariant Grouped(value0, b, group, 0) == Grouped(value, b, group, digitCnt) + text
      decreases value
    {
      FewerDigits(value, b.base, 22 - digitCnt);
      DivShrink(value, b.base);
      CommasStep(digitCnt, b.group);
      cp, text := PushDigit(buf, cp, value, b, group, digitCnt, text);
      value := value / b.base;
      digitCnt := digitCnt + 1;
    }
    CommasStep(digitCnt, b.group);
    NothingLeft(b, group, digitCnt, text);
  }

  lemma NothingLeft(b: IntegerBase, group: bool, k: nat, text: string)
    requires BaseOk(b)
    ensures Grouped(0, b, group, k) + text == text
  {
  }

  /** How many commas `k` digits have at most. */
  ghost function Commas(k: nat, group: nat): nat
    requires group == 3 || group == 4
  {
    if k == 0 then 0 else if group == 3 then (k - 1) / 3 else (k - 1) / 4
  }

  lemma CommasStep(k: nat, group: nat)
    requires group == 3 || group == 4
    ensures Commas(k + 1, group) == Commas(k, group) + if k > 0 && k % group == 0 then 1 else 0
    ensures k <= 22 ==> Commas(k, group) <= 7
  {
  }

  lemma NoneBackwards()
    ensures Backwards([], "")
  {
  }

  /** The loop that appends zeros up to the precision. */
  method PadToPrecision(ghost s: string, precision: int, buf: array<char>, cp0: nat) returns (cp: nat)
    requires buf.Length == BUF_SIZE && cp0 <= 29 && Backwards(buf[..cp0], s)
    modifies buf
    ensures cp < BUF_SIZE && Backwards(buf[..cp], Repeated('0', Missing(precision, |s|)) + s)
  {
    cp := cp0;
    var p := if precision < 0 then 1 else precision;
    ghost var n, zeros := Missing(precision, |s|), 0;
    LastIsFirst(buf[..cp], s);
    NoZeros(s);
    MissingIs(precision, |s|, p);
    hide *;
    ghost var q := if p < 63 then p else 63;
    assert n == if cp0 < q then q - cp0 else 0;
    while cp < p && cp < BUF_SIZE - 1
      invariant cp == cp0 + zeros && zeros <= n
      invariant Backwards(buf[..cp], Repeated('0', zeros) + s)
      decreases BUF_SIZE - cp
    {
      PushZero(buf, cp, zeros, s);
      cp, zeros := cp + 1, zeros + 1;
    }
    assert zeros == n;
  }

  lemma MissingIs(precision: int, len: nat, p: int)
    requires p == if precision < 0 then 1 else precision
    ensures Missing(precision, len) == if len < p && len < 63 then (if p < 63 then p else 63) - len else 0
  {
  }

  method PushZero(buf: array<char>, cp: nat, ghost zeros: nat, ghost s: string)
    requires cp < buf.Length && Backwards(buf[..cp], Repeated('0', zeros) + s)
    modifies buf
    ensures Backwards(buf[..cp + 1], Repeated('0', zeros + 1) + s)
  {
    hide Backwards;
    MoreZeros(zeros, s);
    Push(buf, cp, '0', Repeated('0', zeros) + s);
  }

  lemma NoZeros(s: string)
    ensures Repeated('0', 0) + s == s
  {
  }

  /** The zeros for the precision and for # in base 8 follow. */
  method AppendZeros(ghost s: string, base: nat, c: Conversion, buf: array<char>, cp0: nat) returns (cp: nat)
    requires buf.Length == BUF_SIZE && cp0 <= 29 && Backwards(buf[..cp0], s)
    modifies buf
    ensures cp <= BUF_SIZE && Backwards(buf[..cp], WithZeros(s, base, c))
  {
    hide Backwards, Repeated, Missing;
    cp := PadToPrecision(s, c.precision, buf, cp0);
    ghost var text := Repeated('0', Missing(c.precision, |s|)) + s;
    LastIsFirst(buf[..cp], text);
    if c.pound && base == 8 && (cp == 0 || buf[cp - 1] != '0') {
      Push(buf, cp, '0', text);
      cp := cp + 1;
    }
  }

  lemma MoreZeros(n: nat, s: string)
    ensures Repeated('0', n + 1) + s == ['0'] + (Repeated('0', n) + s)
  {
  }

  lemma LastIsFirst(buf: seq<char>, text: string)
    requires Backwards(buf, text)
    ensures |buf| == |text| && (text != "" ==> buf[|buf| - 1] == text[0])
  {
  }

  /** output_dup. */
  method OutputDup(ch: char, cnt: int, out0: string) returns (out: string)
    ensures out == out0 + Repeated(ch, if cnt < 0 then 0 else cnt)
  {
    out := out0;
    var left := cnt;
    while left > 0
      invariant left <= (if cnt < 0 then 0 else cnt) && (cnt >= 0 ==> left >= 0)
      invariant out == out0 + Repeated(ch, if cnt < 0 then 0 else cnt - left)
    {
      out := out + [ch];
      left := left - 1;
    }
  }

  /** The buffer is output from its end. */
  method OutputBackwards(buf: array<char>, cp0: nat, out0: string, ghost text: string) returns (out: string)
    requires cp0 <= buf.Length && Backwards(buf[..cp0], text)
    ensures out == out0 + text
  {
    out := out0;
    var cp := cp0;
    while cp > 0
      invariant 0 <= cp <= cp0 && out == out0 + text[..cp0 - cp]
    {
      cp := cp - 1;
      assert buf[..cp0][cp] == text[cp0 - 1 - cp];
      assert text[..cp0 - cp] == text[..cp0 - cp - 1] + [buf[cp]];
      out := out + [buf[cp]];
    }
    assert text[..cp0] == text;
  }

  /** Formats within its 64-byte buffer, for any 64-bit value and any conversion. */
  method FormatInteger(value: nat, isSigned: bool, negative: bool, b: IntegerBase, c: Conversion) returns (out: string)
    requires value < B64 && BaseOk(b)
    ensures out == IntegerText(value, isSigned, negative, b, c)
  {
    hide Grouped, WithZeros, Backwards, Distinct, BaseOk, Assembled;
    var sign: char := '\0';
    if isSigned {
      if c.plus {
        sign := if negative then '-' else '+';
      } else if c.space {
        sign := if negative then '-' else ' ';
      } else if negative {
        sign := '-';
      }
    }
    assert Sign(isSigned, negative, c) == if sign == '\0' then "" else [sign];
    var x := if c.pound && value != 0 then b.x else '\0';
    assert Prefix(value, b, c) == if x == '\0' then "" else "0" + [x];
    ghost var digits := Digits(value, b, c);
    var buf := new char[BUF_SIZE];
    var cp := AccumulateDigits(value, b, c.group, buf);
    cp := AppendZeros(Grouped(value, b, c.group, 0), b.base, c, buf, cp);
    LastIsFirst(buf[..cp], digits);
    var padCnt: int := c.width - cp - (if x != '\0' then 2 else 0) - (if sign != '\0' then 1 else 0);
    if padCnt < 0 {
      padCnt := 0;
    }
    out := OutputParts(padCnt, sign, x, buf, cp, c, digits);
  }

  /** The output at the end of format_integer. */
  method OutputParts(padCnt: nat, sign: char, x: char, buf: array<char>, cp: nat, c: Conversion, ghost digits: string)
    returns (out: string)
    requires cp <= buf.Length && Backwards(buf[..cp], digits)
    ensures out == Assembled(c, padCnt, if sign == '\0' then "" else [sign], if x == '\0' then "" else "0" + [x],
                             digits)
  {
    hide Backwards, Repeated;
    out := "";
    if !c.minus && !c.zero {
      out := OutputDup(' ', padCnt, out);
    }
    ghost var out1 := out;
    if sign != '\0' {
      out := out + [sign];
    }
    ghost var out2 := out;
    assert out2 == out1 + if sign == '\0' then "" else [sign];
    if x != '\0' {
      out := out + ("0" + [x]);
    }
    ghost var out3 := out;
    assert out3 == out2 + if x == '\0' then "" else "0" + [x];
    if c.zero {
      out := OutputDup('0', padCnt, out);
    }
    assert out == out3 + if c.zero then Repeated('0', padCnt) else "";
    out := OutputBackwards(buf, cp, out, digits);
    ghost var out5 := out;
    if c.minus {
      out := OutputDup(' ', padCnt, out);
    }
    assert out == out5 + if c.minus then Repeated(' ', padCnt) else "";
  }

  // ----- format_string

  method FormatString(s: string, c: Conversion) returns (out: string)
    ensures var pad := Repeated(' ', PadCount(c.width, |s|)); out == if c.minus then s + pad else pad + s
  {
    out := "";
    if c.width > |s| && !c.minus {
      out := OutputDup(' ', c.width - |s|, out);
    }
    ghost var start := out;
    for i := 0 to |s|
      invariant out == start + s[..i]
    {
      out := out + [s[i]];
    }
    assert s[..|s|] == s;
    if c.width > |s| && c.minus {
      out := OutputDup(' ', c.width - |s|, out);
    }
  }

  // ----- vsnprintf

  class VsnprintfAux {
    const buffer: array<char>
    var p: nat // current output position
    var length: nat
    const maxLength: nat

    constructor (buffer: array<char>, bufSize: nat)
      ensures this.buffer == buffer && p == length == 0
      ensures maxLength == if bufSize > 0 then bufSize - 1 else 0
    {
      this.buffer := buffer;
      p, length := 0, 0;
      maxLength := if bufSize > 0 then bufSize - 1 else 0;
    }

    /** vsnprintf_helper: takes one character of output. */
    method Output(ch: char)
      requires maxLength <= buffer.Length && p == if length < maxLength then length else maxLength
      modifies this`p, this`length, buffer
      ensures length == old(length) + 1 && p == if length < maxLength then length else maxLength
      ensures buffer[..] ==
        if old(length) < maxLength then old(buffer[..])[old(length) := ch] else old(buffer[..])
    {
      if length < maxLength {
        buffer[p] := ch;
        p := p + 1;
      }
      length := length + 1;
    }
  }

  ghost function Stored(output: string, k: nat, was: string): string
    requires k <= |output| && k <= |was|
  {
    output[..k] + was[k..]
  }

  lemma StoredNext(output: string, i: nat, max: nat, was: string)
    requires i < |output| && max <= |was|
    ensures i < max ==> Stored(output, i, was)[i := output[i]] == Stored(output, i + 1, was)
  {
  }

  lemma StoredNone(output: string, was: string)
    ensures Stored(output, 0, was) == was
  {
  }

  lemma StoredEnd(output: string, k: nat, was: string)
    requires k <= |output| && k < |was|
    ensures Stored(output, k, was)[k := '\0'] == output[..k] + ['\0'] + was[k + 1..]
  {
  }

  /** Stores the longest prefix of the output that fits and a terminator, and returns the full length. */
  method Vsnprintf(buffer: array<char>, bufSize: nat, output: string) returns (length: nat)
    requires bufSize <= buffer.Length
    modifies buffer
    ensures length == |output|
    ensures var k := if |output| < bufSize then |output| else bufSize - 1;
      if bufSize == 0 then buffer[..] == old(buffer[..])
      else buffer[..] == output[..k] + ['\0'] + old(buffer[..])[k + 1..]
  {
    hide Stored;
    ghost var was := buffer[..];
    assert Stored(output, 0, was) == was by { StoredNone(output, was); }
    var aux := new VsnprintfAux(buffer, bufSize);
    for i := 0 to |output|
      modifies aux, buffer
      invariant aux.length == i && aux.p == if i < aux.maxLength then i else aux.maxLength
      invariant buffer[..] == Stored(output, aux.p, was)
    {
      StoredNext(output, i, aux.maxLength, was);
      aux.Output(output[i]);
    }
    if bufSize > 0 {
      buffer[aux.p] := '\0';
      StoredEnd(output, aux.p, was);
    }
    length := aux.length;
  }

  // ----- atoi

  predicate IsSpace(c: char) { c == ' ' || c == '\U{c}' || c == '\n' || c == '\r' || c == '\t' || c == '\U{b}' }

  predicate IsDigit(c: char) { '0' <= c <= '9' }

  /** The length of the digits that `s` begins with. */
  function DigitRun(s: string): (n: nat)
    ensures n <= |s| && (forall i :: 0 <= i < n ==> IsDigit(s[i])) && (n < |s| ==> !IsDigit(s[n]))
  {
    if s == "" || !IsDigit(s[0]) then 0 else 1 + DigitRun(s[1..])
  }

  ghost function Unspaced(s: string): string {
    if s != "" && IsSpace(s[0]) then Unspaced(s[1..]) else s
  }

  ghost function Unsigned(s: string): string {
    if s != "" && (s[0] == '+' || s[0] == '-') then s[1..] else s
  }

  /** What atoi's argument denotes: optional space, an optional sign, then decimal digits. */
  ghost function Meaning(s: string): int {
    var t := Unspaced(s);
    var u := Unsigned(t);
    var m: int := Value(BASE_D, u[..DigitRun(u)]);
    if t != "" && t[0] == '-' then -m else m
  }

  /** Nothing but the six space characters of C is skipped ahead of a number. */
  lemma SpaceSkipped(c: char, s: string)
    ensures Unspaced([c] + s) == if c == ' ' || 9 <= c as int <= 13 then Unspaced(s) else [c] + s
  {
    assert ([c] + s)[1..] == s;
  }

  lemma {:induction false} DigitRunIs(s: string, n: nat)
    requires n <= |s| && (forall i :: 0 <= i < n ==> IsDigit(s[i])) && (n < |s| ==> !IsDigit(s[n]))
    ensures DigitRun(s) == n
  {
    if n > 0 {
      DigitRunIs(s[1..], n - 1);
    }
  }

  lemma DecimalDigit(c: char)
    requires IsDigit(c)
    ensures IndexOf(BASE_D.digits, c) == c as int - '0' as int && BASE_D.digits[c as int - '0' as int] == c
  {
    DecimalOk();
    var i := c as int - '0' as int;
    assert BASE_D.digits[i] == c;
    IndexOfDigit(BASE_D.digits, i);
  }

  lemma {:induction false} PrefixValue(s: string, n: nat)
    requires n <= |s| && forall i :: 0 <= i < |s| ==> IsDigit(s[i])
    ensures Value(BASE_D, s[..n]) <= Value(BASE_D, s)
  {
    if n < |s| {
      PrefixValue(s[..|s| - 1], n);
      assert s[..|s| - 1][..n] == s[..n];
      assert s[|s| - 1] != ',';
    } else {
      assert s[..n] == s;
    }
  }

  method SkipSpaces(s: string) returns (p: nat)
    ensures p <= |s| && s[p..] == Unspaced(s)
  {
    p := 0;
    while p < |s| && IsSpace(s[p])
      invariant p <= |s| && Unspaced(s[p..]) == Unspaced(s)
    {
      assert s[p..][1..] == s[p + 1..];
      p := p + 1;
    }
  }

  /** atoi's digit loop, which counts downward since there is one more negative int. */
  method ParseDigits(u: string) returns (value: I32)
    requires Value(BASE_D, u[..DigitRun(u)]) <= 0x8000_0000
    ensures value == 0 - Value(BASE_D, u[..DigitRun(u)])
  {
    hide Value, IndexOf;
    var k, v := 0, 0;
    ghost var n := DigitRun(u);
    NoValue(u);
    while k < |u| && IsDigit(u[k])
      invariant k <= n && v == 0 - Value(BASE_D, u[..k]) && -0x8000_0000 <= v
    {
      ValueNext(u, k);
      PrefixValue(u[..n], k + 1);
      assert u[..n][..k + 1] == u[..k + 1];
      v := v * 10 - (u[k] as int - '0' as int);
      k := k + 1;
    }
    DigitRunIs(u, k);
    value := v;
  }

  lemma NoValue(u: string)
    ensures Value(BASE_D, u[..0]) == 0
  {
  }

  lemma ValueNext(u: string, k: nat)
    requires k < |u| && IsDigit(u[k])
    ensures Value(BASE_D, u[..k + 1]) == 10 * Value(BASE_D, u[..k]) + (u[k] as int - '0' as int)
  {
    DecimalDigit(u[k]);
    assert u[..k + 1][..k] == u[..k] && u[k] != ',';
  }

  /** Converts every string that denotes a 32-bit int, without overflow on the way. */
  method Atoi(s: string) returns (value: I32)
    requires -0x8000_0000 <= Meaning(s) < 0x8000_0000
    ensures value == Meaning(s)
  {
    hide Value, Unspaced;
    var p := SkipSpaces(s);
    ghost var t := s[p..];
    var negative := false;
    if p < |s| && s[p] == '+' {
      p := p + 1;
    } else if p < |s| && s[p] == '-' {
      negative := true;
      p := p + 1;
    }
    assert s[p..] == Unsigned(t);
    var v: int := ParseDigits(s[p..]);
    if !negative {
      v := -v;
    }
    value := v;
  }

  const PLAIN := Conversion(false, false, false, false, false, false, 0, -1)

  /** atoi reads back the "%d" rendering of every 32-bit int, the smallest included. */
  lemma AtoiInvertsPrinting(n: I32)
    ensures BaseOk(BASE_D) && Meaning(IntegerText(Abs(n), true, n < 0, BASE_D, PLAIN)) == n
  {
    DecimalOk();
    var digits := Digits(Abs(n), BASE_D, PLAIN);
    var text := IntegerText(Abs(n), true, n < 0, BASE_D, PLAIN);
    assert Repeated(' ', 0) == "";
    assert text == (if n < 0 then "-" else "") + digits;
    DigitsDecode(Abs(n), BASE_D, PLAIN);
    DigitsAreDigits(Abs(n));
    assert digits != "" && IsDigit(digits[0]);
    assert !IsSpace(text[0]) && Unspaced(text) == text;
    assert Unsigned(text) == digits;
    DigitRunIs(digits, |digits|);
    assert digits[..|digits|] == digits;
  }

  lemma DigitsAreDigits(v: nat)
    requires BaseOk(BASE_D)
    ensures var s := Digits(v, BASE_D, PLAIN); s != "" && forall i :: 0 <= i < |s| ==> IsDigit(s[i])
  {
    GroupedAreDigits(v, 0);
    if v > 0 {
      assert Grouped(v, BASE_D, false, 0) != "";
    }
  }

  lemma DecimalDigits(d: nat)
    requires d < 10
    ensures IsDigit(BASE_D.digits[d])
  {
    assert forall c :: c in BASE_D.digits ==> IsDigit(c);
  }

  lemma {:induction false} GroupedAreDigits(v: nat, k: nat)
    requires BaseOk(BASE_D)
    ensures var s := Grouped(v, BASE_D, false, k); forall i :: 0 <= i < |s| ==> IsDigit(s[i])
  {
    if v > 0 {
      DivShrink(v, 10);
      GroupedAreDigits(v / 10, k + 1);
      assert Grouped(v, BASE_D, false, k) == Grouped(v / 10, BASE_D, false, k + 1) + [BASE_D.digits[v % 10]];
      DecimalDigits(v % 10);
    }
  }
}
