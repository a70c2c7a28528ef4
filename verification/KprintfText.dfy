/**
  What kprintf puts out for a conversion, said of the text of the format: flags, width, precision,
  length and conversion character as a reader of the C standard would take them, and numbers written
  with their highest digit first. The walk over the format is proved to put out exactly that.
*/
module KprintfText {
  import opened Machine
  import opened Printf
  import opened Kprintf

  // ---------- Numbers, highest digit first ----------

  function DigitOf(d: nat, upper: bool): char
    requires d < 16
  {
    if d < 10 then '0' + d as char else (if upper then 'A' else 'a') + (d - 10) as char
  }

  function Written(value: nat, radix: nat, upper: bool): string
    requires 2 <= radix <= 16
  {
    if value == 0 then "" else Written(value / radix, radix, upper) + [DigitOf(value % radix, upper)]
  }

  /** A comma after every `size` characters, counted from the end. */
  function Grouped(s: string, size: nat): string
    requires size > 0
  {
    if |s| <= size then s else Grouped(s[..|s| - size], size) + "," + s[|s| - size..]
  }

  /** The digits of a number, in groups of three or four for the flag ' of C. */
  function DigitsText(value: nat, radix: nat, upper: bool, group: bool): string
    requires 2 <= radix <= 16
  {
    var digits := Written(value, radix, upper);
    if group then Grouped(digits, if radix == 16 then 4 else 3) else digits
  }

  /** The zero that # asks for in base 8. */
  function Finished(zeros: string, pound: bool): string {
    if pound && (zeros == "" || zeros[0] != '0') then "0" + zeros else zeros
  }

  /** A number: its digits, and zeros up to the precision, which is at least 1 if none is given and at most 63. */
  function NumberText(digits: string, precision: int, pound: bool): string {
    var least := if precision < 0 then 1 else if precision > 63 then 63 else precision;
    Finished(Filled('0', least - |digits|) + digits, pound)
  }

  function SignText(isSigned: bool, negative: bool, flags: string): string {
    if !isSigned then "" else if negative then "-" else if '+' in flags then "+" else if ' ' in flags then " " else ""
  }

  function PrefixText(value: nat, radix: nat, upper: bool, flags: string): string {
    if '#' in flags && radix == 16 && value != 0 then (if upper then "0X" else "0x") else ""
  }

  /** A field of the given width: blanks before or behind, or zeros between prefix and number. */
  function FieldText(sign: string, prefix: string, number: string, minus: bool, zero: bool, width: nat): string {
    var pad := width - |sign| - |prefix| - |number|;
    (if minus || zero then "" else Filled(' ', pad)) + sign + prefix + (if zero then Filled('0', pad) else "") + number
    + if minus then Filled(' ', pad) else ""
  }

  /** An integer as C lays it out. */
  function IntegerText(value: nat, isSigned: bool, negative: bool, radix: nat, upper: bool,
                       flags: string, minus: bool, zero: bool, width: nat, precision: int): string
    requires 2 <= radix <= 16
  {
    FieldText(SignText(isSigned, negative, flags), PrefixText(value, radix, upper, flags),
              NumberText(DigitsText(value, radix, upper, '\'' in flags), precision, '#' in flags && radix == 8),
              minus, zero, width)
  }

  function Filled(ch: char, n: int): string {
    if n <= 0 then "" else Filled(ch, n - 1) + [ch]
  }

  lemma {:induction false} FilledIs(ch: char, n: int)
    ensures Filled(ch, n) == Repeat(ch, if n < 0 then 0 else n)
  {
    if n > 0 { FilledIs(ch, n - 1); }
  }

  // ---------- The digits ----------

  lemma DigitOfIs(b: Base, d: nat)
    requires d < Radix(b)
    ensures DigitOf(d, b.UpperHex?) == DigitChar(b, d)
  {
    var lower, upper := "0123456789abcdef", "0123456789ABCDEF";
    assert d < 10 ==> lower[d] == upper[d] == '0' + d as char;
  }

  /** The digits produced lowest first, turned round, are the number with its highest digit first. */
  lemma {:induction false} DigitsWritten(value: nat, b: Base, count: nat)
    ensures Reversed(Digits(value, b, false, count)) == Written(value, Radix(b), b.UpperHex?)
  {
    if value != 0 {
      var d, high, rest := DigitStep(value, b, false, count);
      DigitsWritten(value / Radix(b), b, count + 1);
      assert "" + d + rest == d + rest;
      ReversedAppend(d, rest);
      assert Reversed(d) == d;
    }
  }

  /** A digit in front of a text comes with a comma if that is whole groups. */
  lemma {:induction false} GroupedCons(d: string, t: string, size: nat)
    requires |d| == 1 && (size == 3 || size == 4)
    ensures Grouped(d + t, size) == d + (Separator(|t|, size) + Grouped(t, size))
    decreases |t|
  {
    if |t| > size {
      var p, last := t[..|t| - size], t[|t| - size..];
      assert t == p + last;
      GroupedCons(d, p, size);
      SeparatorStep(|p|, size);
      GroupedConsStep(d, p, last, Separator(|p|, size), size);
    } else if |t| == size {
      GroupedWhole(d, t, size);
    } else {
      GroupedShort(d, t, size);
    }
  }

  lemma GroupedWhole(d: string, t: string, size: nat)
    requires |d| == 1 && |t| == size && (size == 3 || size == 4)
    ensures Grouped(d + t, size) == d + (Separator(|t|, size) + Grouped(t, size))
  {
    OneGroup(t, size);
    OneGroup(d, size);
    GroupedStep(d + t, d, t, size);
    Regrouped3(d, ",", t);
  }

  lemma GroupedShort(d: string, t: string, size: nat)
    requires |d| == 1 && |t| < size && (size == 3 || size == 4)
    ensures Grouped(d + t, size) == d + (Separator(|t|, size) + Grouped(t, size))
  {
    OneGroup(t, size);
    OneGroup(d + t, size);
    Regrouped3(d, "", t);
  }

  lemma OneGroup(t: string, size: nat)
    requires |t| <= size && size > 0
    ensures Grouped(t, size) == t
  {
  }

  lemma Regrouped3(d: string, c: string, t: string)
    ensures d + c + t == d + (c + t) && d + "" == d
  {
  }

  function Separator(n: nat, size: nat): string
    requires size == 3 || size == 4
  {
    if n > 0 && (if size == 3 then n % 3 == 0 else n % 4 == 0) then "," else ""
  }

  lemma SeparatorStep(n: nat, size: nat)
    requires n > 0 && (size == 3 || size == 4)
    ensures Separator(n + size, size) == Separator(n, size)
  {
    if size == 3 { assert (n + 3) % 3 == n % 3; } else { assert (n + 4) % 4 == n % 4; }
  }

  lemma GroupedConsStep(d: string, p: string, last: string, c: string, size: nat)
    requires |d| == 1 && size > 0 && |last| == size && p != "" && Grouped(d + p, size) == d + (c + Grouped(p, size))
    ensures Grouped(d + (p + last), size) == d + (c + Grouped(p + last, size))
  {
    assert d + (p + last) == (d + p) + last;
    GroupedStep(d + (p + last), d + p, last, size);
    GroupedStep(p + last, p, last, size);
    Regrouped5(d, c, Grouped(p, size), last);
  }

  lemma GroupedStep(s: string, p: string, last: string, size: nat)
    requires size > 0 && |last| == size && p != "" && s == p + last
    ensures Grouped(s, size) == Grouped(p, size) + "," + last
  {
    assert s[..|s| - size] == p && s[|s| - size..] == last;
  }

  lemma Regrouped5(d: string, c: string, g: string, last: string)
    ensures d + (c + g) + "," + last == d + (c + (g + "," + last))
  {
  }

  /** The digits, turned round in front of `t`, have their commas where the groups of the whole have them. */
  ghost predicate GroupsAs(written: string, digits: string, t: string, size: nat)
    requires size > 0
  {
    Grouped(written + t, size) == Reversed(digits) + Grouped(t, size)
  }

  /** With the flag for it, commas are put between groups counted from the lowest digit. */
  lemma {:induction false} DigitsGrouped(value: nat, b: Base, t: string)
    ensures GroupsAs(Written(value, Radix(b), b.UpperHex?), Digits(value, b, true, |t|), t, GroupSize(b))
    decreases value
  {
    if value == 0 {
      assert Written(value, Radix(b), b.UpperHex?) + t == t;
    } else {
      var d, high, rest := DigitStep(value, b, true, |t|);
      DigitsGrouped(value / Radix(b), b, d + t);
      GroupedDigit(d, high, rest, t, Comma(b, true, |t|), GroupSize(b));
    }
  }

  /** The lowest digit of a number, and the others. */
  lemma DigitStep(value: nat, b: Base, group: bool, count: nat) returns (d: string, high: string, rest: string)
    requires value > 0
    ensures |d| == 1 && high == Written(value / Radix(b), Radix(b), b.UpperHex?)
    ensures rest == Digits(value / Radix(b), b, group, count + 1)
    ensures Written(value, Radix(b), b.UpperHex?) == high + d
    ensures Digits(value, b, group, count) == Comma(b, group, count) + d + rest
  {
    DigitOfIs(b, value % Radix(b));
    d, high := [DigitChar(b, value % Radix(b))], Written(value / Radix(b), Radix(b), b.UpperHex?);
    rest := Digits(value / Radix(b), b, group, count + 1);
  }

  lemma GroupedDigit(d: string, high: string, rest: string, t: string, comma: string, size: nat)
    requires |d| == 1 && (size == 3 || size == 4) && comma == Separator(|t|, size)
    requires GroupsAs(high, rest, d + t, size)
    ensures GroupsAs(high + d, comma + d + rest, t, size)
  {
    assert high + d + t == high + (d + t);
    GroupedCons(d, t, size);
    ReversedAppend(comma + d, rest);
    ReversedAppend(comma, d);
    ReversedShort(d);
    ReversedShort(comma);
    Joins(Reversed(rest), d, comma, Grouped(t, size));
  }

  lemma ReversedShort(s: string)
    requires |s| <= 1
    ensures Reversed(s) == s
  {
  }

  lemma Joins(r: string, d: string, comma: string, g: string)
    ensures r + (d + (comma + g)) == r + (d + comma) + g
  {
  }

  // ---------- A field ----------

  lemma {:induction false} ReversedRepeat(ch: char, n: nat)
    ensures Reversed(Repeat(ch, n)) == Repeat(ch, n)
  {
    if n > 0 {
      ReversedRepeat(ch, n - 1);
      assert Repeat(ch, n)[1..] == Repeat(ch, n - 1);
    }
  }

  lemma {:induction false} ReversedEnds(s: string)
    requires s != ""
    ensures Reversed(s) != "" && Reversed(s)[0] == s[|s| - 1]
  {
    if |s| > 1 { ReversedEnds(s[1..]); }
  }

  lemma DigitsAre(value: nat, b: Base, group: bool)
    ensures Reversed(Digits(value, b, group, 0)) == DigitsText(value, Radix(b), b.UpperHex?, group)
  {
    var digits := Written(value, Radix(b), b.UpperHex?);
    if group {
      DigitsGrouped(value, b, "");
      assert digits + "" == digits;
      assert Reversed(Digits(value, b, true, 0)) + "" == Reversed(Digits(value, b, true, 0));
    } else {
      DigitsWritten(value, b, 0);
    }
  }

  lemma ZerosInFront(d: string, text: string, n: int)
    requires Reversed(d) == text
    ensures Reversed(d + Repeat('0', if n < 0 then 0 else n)) == Filled('0', n) + text
  {
    var k := if n < 0 then 0 else n;
    ReversedAppend(d, Repeat('0', k));
    ReversedRepeat('0', k);
    FilledIs('0', n);
  }

  lemma ZeroInFront(z: string)
    ensures Reversed(z + "0") == "0" + Reversed(z)
    ensures z == "" <==> Reversed(z) == ""
    ensures z != "" ==> (z[|z| - 1] != '0' <==> Reversed(z)[0] != '0')
  {
    ReversedAppend(z, "0");
    assert Reversed("0") == "0";
    if z != "" { ReversedEnds(z); }
  }

  /** The conversion has the flags of the text. */
  ghost predicate Agrees(c: Conversion, flags: string) {
    && c.plus == ('+' in flags) && c.space == (' ' in flags && '+' !in flags)
    && c.pound == ('#' in flags) && c.group == ('\'' in flags)
  }

  /** The content of the buffer, turned round. */
  lemma BodyWritten(value: nat, b: Base, c: Conversion)
    ensures Reversed(Body(value, b, c)) ==
            NumberText(DigitsText(value, Radix(b), b.UpperHex?, c.group), c.precision, c.pound && b.Octal?)
  {
    var d := Digits(value, b, c.group, 0);
    DigitsAre(value, b, c.group);
    BodyFinished(value, b, c, d);
    BodyReversed(d, DigitsText(value, Radix(b), b.UpperHex?, c.group), c.precision, c.pound && b.Octal?);
  }

  /** Digits with zeros up to the precision, and the zero of # in base 8, lowest first. */
  function BodyOf(d: string, precision: int, pound: bool): string {
    var least := if precision < 0 then 1 else if precision > 63 then 63 else precision;
    FinishedLast(d + Repeat('0', if least - |d| < 0 then 0 else least - |d|), pound)
  }

  lemma BodyReversed(d: string, text: string, precision: int, pound: bool)
    requires Reversed(d) == text
    ensures Reversed(BodyOf(d, precision, pound)) == NumberText(text, precision, pound)
  {
    var least := if precision < 0 then 1 else if precision > 63 then 63 else precision;
    var z := d + Repeat('0', if least - |d| < 0 then 0 else least - |d|);
    ReversedLength(d);
    ZerosInFront(d, text, least - |d|);
    FinishedReversed(z, Filled('0', least - |d|) + text, pound);
  }

  lemma {:induction false} ReversedLength(s: string)
    ensures |Reversed(s)| == |s|
  {
    if s != "" { ReversedLength(s[1..]); }
  }

  function FinishedLast(z: string, pound: bool): string {
    if pound && (z == "" || z[|z| - 1] != '0') then z + "0" else z
  }

  lemma FinishedReversed(z: string, text: string, pound: bool)
    requires Reversed(z) == text
    ensures Reversed(FinishedLast(z, pound)) == Finished(text, pound)
  {
    ZeroInFront(z);
  }

  lemma BodyFinished(value: nat, b: Base, c: Conversion, d: string)
    requires d == Digits(value, b, c.group, 0)
    ensures Body(value, b, c) == BodyOf(d, c.precision, c.pound && b.Octal?)
  {
    var precision := if c.precision < 0 then 1 else c.precision;
    var least := if c.precision < 0 then 1 else if c.precision > 63 then 63 else c.precision;
    assert Max(0, Min(precision, BUFFER - 1) - |d|) == if least - |d| < 0 then 0 else least - |d|;
  }

  lemma FieldIs(sign: string, prefix: string, number: string, c: Conversion)
    ensures Field(sign, prefix, number, Max(0, c.width - |sign| - |prefix| - |number|), c) ==
            FieldText(sign, prefix, number, c.minus, c.zero, c.width)
  {
    var pad := c.width - |sign| - |prefix| - |number|;
    FilledIs(' ', pad);
    FilledIs('0', pad);
  }

  /** format_integer puts out an integer as C lays it out. */
  lemma RenderedIs(value: nat, isSigned: bool, negative: bool, b: Base, c: Conversion, flags: string)
    requires Agrees(c, flags)
    ensures Rendered(value, isSigned, negative, b, c) ==
            IntegerText(value, isSigned, negative, Radix(b), b.UpperHex?, flags, c.minus, c.zero, c.width, c.precision)
  {
    BodyWritten(value, b, c);
    SignIs(isSigned, negative, c, flags);
    PrefixIs(value, b, c, flags);
    PadIs(value, isSigned, negative, b, c);
    FieldIs(Sign(isSigned, negative, c), Prefix(value, b, c), Reversed(Body(value, b, c)), c);
  }

  lemma SignIs(isSigned: bool, negative: bool, c: Conversion, flags: string)
    requires Agrees(c, flags)
    ensures Sign(isSigned, negative, c) == SignText(isSigned, negative, flags)
  {
  }

  lemma PrefixIs(value: nat, b: Base, c: Conversion, flags: string)
    requires Agrees(c, flags)
    ensures Prefix(value, b, c) == PrefixText(value, Radix(b), b.UpperHex?, flags)
  {
  }

  lemma PadIs(value: nat, isSigned: bool, negative: bool, b: Base, c: Conversion)
    ensures var sign, prefix, number := Sign(isSigned, negative, c), Prefix(value, b, c), Reversed(Body(value, b, c));
            Pad(value, isSigned, negative, b, c) == Max(0, c.width - |sign| - |prefix| - |number|)
  {
  }

  // ---------- The text of a conversion ----------

  predicate AllDigits(s: string) {
    forall i {:trigger s[i]} :: 0 <= i < |s| ==> '0' <= s[i] <= '9'
  }

  predicate AllFlags(s: string) {
    forall i {:trigger s[i]} :: 0 <= i < |s| ==> s[i] in "-+ #0'"
  }

  predicate IsWidth(s: string) {
    s == "*" || (AllDigits(s) && (s != "" ==> s[0] != '0'))
  }

  predicate IsPrecision(s: string) {
    s == "" || s == ".*" || (s[0] == '.' && AllDigits(s[1..]))
  }

  predicate IsLength(s: string) {
    s == "" || s == "h" || s == "hh" || s == "l" || s == "ll" || s == "j" || s == "t" || s == "z"
  }

  /** Flags, a width, a precision with its point, a length and a conversion character. */
  predicate IsSpec(flags: string, width: string, dot: string, mod: string, ch: char) {
    AllFlags(flags) && IsWidth(width) && IsPrecision(dot) && IsLength(mod) && ch !in "-+ #0'123456789*.hjltz%\0"
  }

  function Spec(flags: string, width: string, dot: string, mod: string, ch: char): string {
    "%" + (flags + (width + (dot + (mod + [ch]))))
  }

  /** A signed number of the given number of values. */
  function Complement(word: nat, values: nat): int
    requires values > 0
  {
    var low := word % values;
    if 2 * low < values then low else low - values
  }

  function Stars(width: string, dot: string): nat {
    (if width == "*" then 1 else 0) + if dot == ".*" then 1 else 0
  }

  function WidthSaid(width: string, args: seq<Arg>, k: nat): int {
    if width == "*" then Complement(WordAt(args, k), 0x1_0000_0000) else ValueOf(width, 10)
  }

  function PrecisionSaid(width: string, dot: string, args: seq<Arg>, k: nat): int
    requires dot != "" ==> |dot| >= 1
  {
    if dot == "" then -1
    else if dot == ".*" then
      var p := Complement(WordAt(args, if width == "*" then k + 1 else k), 0x1_0000_0000);
      if p < 0 then -1 else p
    else ValueOf(dot[1..], 10)
  }

  /** What a length leaves of an argument: 8 bits for hh, 16 for h, 32 for none and 64 for the others. */
  function UnsignedSaid(word: nat, mod: string): nat {
    if mod == "hh" then word % 0x100 else if mod == "h" then word % 0x1_0000
    else if mod == "" then word % 0x1_0000_0000 else word % 0x1_0000_0000_0000_0000
  }

  function SignedSaid(word: nat, mod: string): int {
    if mod == "hh" then Complement(word, 0x100) else if mod == "h" then Complement(word, 0x1_0000)
    else if mod == "" then Complement(word, 0x1_0000_0000) else Complement(word, 0x1_0000_0000_0000_0000)
  }

  /** The length that the text stands for. */
  function LengthSaid(mod: string): Length {
    if mod == "hh" then Char else if mod == "h" then Short else if mod == "" then Int else Long
  }

  lemma LengthIs(word: nat, mod: string)
    ensures UnsignedArg(word, LengthSaid(mod)) == UnsignedSaid(word, mod)
    ensures SignedArg(word, LengthSaid(mod)) == SignedSaid(word, mod)
  {
  }

  function StringText(text: string, minus: bool, width: nat): string {
    if minus then text + Filled(' ', width - |text|) else Filled(' ', width - |text|) + text
  }

  function AbsoluteOf(v: int): nat {
    if v < 0 then -v else v
  }

  /** What the text of a conversion asks to be put out, with the arguments from `k` on. */
  function Said(flags: string, width: string, dot: string, mod: string, ch: char, args: seq<Arg>, k: nat): string
    requires dot != "" ==> |dot| >= 1
  {
    SaidWith(flags, WidthSaid(width, args, k), PrecisionSaid(width, dot, args, k), mod, ch, args, k + Stars(width, dot))
  }

  /** The same with width `w` and precision `p`: a negative width means -, and 0 gives way to - and a precision. */
  function SaidWith(flags: string, w: int, p: int, mod: string, ch: char, args: seq<Arg>, j: nat): string {
    SaidOf(flags, '-' in flags || w < 0, '0' in flags && '-' !in flags && p < 0, AbsoluteOf(w), p, mod, ch, args, j)
  }

  /** The integer, character, string or pointer, or an apology. */
  function SaidOf(flags: string, minus: bool, zero: bool, width: nat, precision: int, mod: string, ch: char,
                  args: seq<Arg>, j: nat): string {
    var word := WordAt(args, j);
    match ch
    case 'd' | 'i' => SignedText(SignedSaid(word, mod), flags, minus, zero, width, precision)
    case 'o' | 'u' | 'x' | 'X' =>
      IntegerText(UnsignedSaid(word, mod), false, false, RadixOf(ch), ch == 'X', flags, minus, zero, width, precision)
    case 'c' => StringText([(word % 0x100) as char], minus, width)
    case 's' => StringText(CutText(BeforeNul(TextAt(args, j)), precision), minus, width)
    case 'p' =>
      IntegerText(word % 0x1_0000_0000_0000_0000, false, false, 16, false, "#", false, false, width, precision)
    case _ => "<<no %" + [ch] + if ch in "feEgGn" then " in kernel>>" else " conversion>>"
  }

  function RadixOf(ch: char): nat {
    match ch case 'o' => 8 case 'u' => 10 case _ => 16
  }

  /** The first characters of a text, up to the precision if there is one. */
  function CutText(t: string, precision: int): string {
    if precision < 0 || |t| <= precision then t else t[..precision]
  }

  function SignedText(v: int, flags: string, minus: bool, zero: bool, width: nat, precision: int): string {
    IntegerText(AbsoluteOf(v), true, v < 0, 10, false, flags, minus, zero, width, precision)
  }

  // ---------- Reading the text ----------

  /** The text stands in the format at `i`. */
  predicate Stands(f: string, i: nat, t: string) {
    i + |t| <= |f| && f[i..i + |t|] == t
  }

  /** Where two texts stand behind each other in the format, each stands in its place. */
  lemma Split(f: string, i: nat, t: string, part: string, rest: string)
    requires Stands(f, i, t) && t == part + rest
    ensures Stands(f, i, part) && Stands(f, i + |part|, rest)
  {
    assert f[i..i + |t|][..|part|] == f[i..i + |part|];
    assert f[i..i + |t|][|part|..] == f[i + |part|..i + |t|];
  }

  lemma CharIn(f: string, b: nat, s: string)
    requires Stands(f, b, s) && s != ""
    ensures CharAt(f, b) == s[0] && Stands(f, b + 1, s[1..])
  {
    Split(f, b, s, s[..1], s[1..]);
    assert f[b..b + 1][0] == f[b];
  }

  lemma {:induction false} FlagsRead(f: string, a: nat, flags: string, x: char)
    requires Stands(f, a, flags) && AllFlags(flags) && !IsFlag(CharAt(f, a + |flags|))
    requires IsFlag(x)
    ensures FlagEnd(f, a) == a + |flags| && HasFlag(f, a, x) == (x in flags)
    decreases |flags|
  {
    if flags != "" {
      CharIn(f, a, flags);
      FlagsRead(f, a + 1, flags[1..], x);
      assert flags == [flags[0]] + flags[1..];
    }
  }

  function ValueFrom(n: nat, s: string): nat
    requires AllDigits(s)
    decreases |s|
  {
    if s == "" then n else ValueFrom(n * 10 + (s[0] - '0') as nat, s[1..])
  }

  lemma {:induction false} ValueFromIs(p: string, s: string)
    requires AllDigits(s)
    ensures ValueFrom(ValueOf(p, 10), s) == ValueOf(p + s, 10)
    decreases |s|
  {
    if s == "" {
      assert p + s == p;
    } else {
      var q := p + [s[0]];
      assert q[..|q| - 1] == p;
      ValueFromIs(q, s[1..]);
      assert q + s[1..] == p + s;
    }
  }

  lemma {:induction false} NumberRead(f: string, b: nat, s: string, n: nat)
    requires Stands(f, b, s) && AllDigits(s) && !IsDigit(CharAt(f, b + |s|))
    ensures DigitEnd(f, b) == b + |s| && NumberFrom(f, b, n) == ValueFrom(n, s)
    decreases |s|
  {
    if s != "" {
      CharIn(f, b, s);
      NumberRead(f, b + 1, s[1..], n * 10 + (s[0] - '0') as nat);
    }
  }

  lemma FieldRead(f: string, b: nat, s: string, args: seq<Arg>, k: nat)
    requires Stands(f, b, s) && !IsDigit(CharAt(f, b + |s|)) && (s == "*" || AllDigits(s))
    requires s == "" ==> CharAt(f, b) != '*'
    ensures FieldEnd(f, b) == b + |s| && FieldArgs(f, b, k) == if s == "*" then k + 1 else k
    ensures FieldAt(f, b, args, k) == WidthSaid(s, args, k)
  {
    if s != "" { CharIn(f, b, s); }
    if s != "*" {
      NumberRead(f, b, s, 0);
      ValueFromIs("", s);
      assert "" + s == s;
    }
  }

  /** The format has the text of a conversion at `i`. */
  predicate SpecAt(f: string, i: nat, flags: string, width: string, dot: string, mod: string, ch: char) {
    IsSpec(flags, width, dot, mod, ch) && Stands(f, i, Spec(flags, width, dot, mod, ch))
  }

  /** Where the parts of the text stand: flags from `a`, width from `b`, precision from `c`, length from `d`. */
  lemma Parts(f: string, i: nat, flags: string, width: string, dot: string, mod: string, ch: char)
    returns (a: nat, b: nat, c: nat, d: nat, e: nat)
    requires Stands(f, i, Spec(flags, width, dot, mod, ch))
    ensures a == i + 1 && b == a + |flags| && c == b + |width| && d == c + |dot| && e == d + |mod|
    ensures e + 1 == i + |Spec(flags, width, dot, mod, ch)| && CharAt(f, i) == '%'
    ensures Stands(f, a, flags) && Stands(f, b, width) && Stands(f, c, dot) && Stands(f, d, mod) && Stands(f, e, [ch])
  {
    a := i + 1;
    b := a + |flags|;
    c := b + |width|;
    d := c + |dot|;
    e := d + |mod|;
    var r4 := mod + [ch];
    var r3 := dot + r4;
    var r2 := width + r3;
    var r1 := flags + r2;
    CharIn(f, i, Spec(flags, width, dot, mod, ch));
    Split(f, i, Spec(flags, width, dot, mod, ch), "%", r1);
    Split(f, a, r1, flags, r2);
    Split(f, b, r2, width, r3);
    Split(f, c, r3, dot, r4);
    Split(f, d, r4, mod, [ch]);
  }

  /** The character can stand in no part before the length. */
  predicate Apart(x: char) {
    !IsFlag(x) && !IsDigit(x) && x != '*' && x != '.' && x != '%'
  }

  lemma LengthApart(f: string, d: nat, mod: string, ch: char)
    requires IsLength(mod) && ch !in "-+ #0'123456789*.hjltz%\0" && Stands(f, d, mod) && Stands(f, d + |mod|, [ch])
    ensures Apart(CharAt(f, d))
  {
    CharIn(f, d + |mod|, [ch]);
    if mod != "" { CharIn(f, d, mod); }
  }

  lemma PrecisionApart(f: string, c: nat, dot: string)
    requires IsPrecision(dot) && Stands(f, c, dot) && Apart(CharAt(f, c + |dot|))
    ensures if dot == "" then Apart(CharAt(f, c)) else CharAt(f, c) == '.'
  {
    if dot != "" { CharIn(f, c, dot); }
  }

  lemma WidthApart(f: string, b: nat, width: string)
    requires IsWidth(width) && Stands(f, b, width) && (Apart(CharAt(f, b + |width|)) || CharAt(f, b + |width|) == '.')
    ensures !IsFlag(CharAt(f, b)) && CharAt(f, b) != '%' && (width == "" ==> CharAt(f, b) != '*')
  {
    if width != "" { CharIn(f, b, width); }
  }

  lemma LengthRead(f: string, d: nat, mod: string, ch: char)
    requires IsLength(mod) && ch !in "-+ #0'123456789*.hjltz%\0" && Stands(f, d, mod) && Stands(f, d + |mod|, [ch])
    ensures LengthEnd(f, d) == d + |mod| && LengthAt(f, d) == LengthSaid(mod)
  {
    CharIn(f, d + |mod|, [ch]);
    if mod != "" {
      CharIn(f, d, mod);
      if |mod| == 2 { CharIn(f, d + 1, mod[1..]); }
    }
  }

  lemma DotRead(f: string, c: nat, width: string, dot: string, args: seq<Arg>, k: nat)
    requires Stands(f, c, dot) && (CharAt(f, c) == '.' <==> dot != "")
    requires IsPrecision(dot)
    requires !IsDigit(CharAt(f, c + |dot|)) && CharAt(f, c + |dot|) != '*'
    ensures dot != "" ==>
              && FieldEnd(f, c + 1) == c + |dot| && FieldArgs(f, c + 1, k) == k + Stars("", dot)
              && Max(-1, FieldAt(f, c + 1, args, k)) == PrecisionSaid("", dot, args, k)
  {
    if dot != "" {
      CharIn(f, c, dot);
      FieldRead(f, c + 1, dot[1..], args, k);
      assert dot == "." + dot[1..];
    }
  }

  /** All six flags are read off the text. */
  lemma AllFlagsRead(f: string, a: nat, flags: string)
    requires Stands(f, a, flags) && AllFlags(flags) && !IsFlag(CharAt(f, a + |flags|))
    ensures FlagEnd(f, a) == a + |flags|
    ensures HasFlag(f, a, '-') == ('-' in flags) && HasFlag(f, a, '+') == ('+' in flags)
    ensures HasFlag(f, a, ' ') == (' ' in flags) && HasFlag(f, a, '#') == ('#' in flags)
    ensures HasFlag(f, a, '0') == ('0' in flags) && HasFlag(f, a, '\'') == ('\'' in flags)
  {
    FlagsRead(f, a, flags, '-');
    FlagsRead(f, a, flags, '+');
    FlagsRead(f, a, flags, ' ');
    FlagsRead(f, a, flags, '#');
    FlagsRead(f, a, flags, '0');
    FlagsRead(f, a, flags, '\'');
  }

  lemma PrecisionRead(f: string, a: nat, c: nat, width: string, dot: string, args: seq<Arg>, k: nat)
    requires WidthEnd(f, a) == c && WidthArgs(f, a, k) == if width == "*" then k + 1 else k
    requires Stands(f, c, dot) && (CharAt(f, c) == '.' <==> dot != "")
    requires IsPrecision(dot)
    requires !IsDigit(CharAt(f, c + |dot|)) && CharAt(f, c + |dot|) != '*'
    ensures PrecisionEnd(f, a) == c + |dot| && PrecisionArgs(f, a, k) == k + Stars(width, dot)
    ensures PrecisionOf(f, a, args, k) == PrecisionSaid(width, dot, args, k)
  {
    DotRead(f, c, width, dot, args, if width == "*" then k + 1 else k);
  }

  /** The conversion that a text asks for. */
  function ConversionSaid(flags: string, w: int, p: int): Conversion {
    Conversion('-' in flags || w < 0, '+' in flags, ' ' in flags && '+' !in flags, '#' in flags,
               '0' in flags && '-' !in flags && p < 0, '\'' in flags, AbsoluteOf(w), p)
  }

  lemma ConversionPut(f: string, a: nat, flags: string, args: seq<Arg>, k: nat, w: int, p: int)
    requires HasFlag(f, a, '-') == ('-' in flags) && HasFlag(f, a, '+') == ('+' in flags)
    requires HasFlag(f, a, ' ') == (' ' in flags) && HasFlag(f, a, '#') == ('#' in flags)
    requires HasFlag(f, a, '0') == ('0' in flags) && HasFlag(f, a, '\'') == ('\'' in flags)
    requires FieldAt(f, FlagEnd(f, a), args, k) == w && PrecisionOf(f, a, args, k) == p
    ensures ConversionAt(f, a, args, k) == ConversionSaid(flags, w, p)
  {
  }

  /** Flags and width. */
  lemma WidthRead(f: string, a: nat, b: nat, flags: string, width: string, args: seq<Arg>, k: nat)
    requires b == a + |flags| && AllFlags(flags) && IsWidth(width) && Stands(f, a, flags) && Stands(f, b, width)
    requires Apart(CharAt(f, b + |width|)) || CharAt(f, b + |width|) == '.'
    ensures FlagEnd(f, a) == b && WidthEnd(f, a) == b + |width|
    ensures WidthArgs(f, a, k) == if width == "*" then k + 1 else k
    ensures FieldAt(f, b, args, k) == WidthSaid(width, args, k) && CharAt(f, a) != '%'
  {
    WidthApart(f, b, width);
    FlagsRead(f, a, flags, '-');
    FieldRead(f, b, width, args, k);
    if flags != "" { CharIn(f, a, flags); }
  }

  /** Length and conversion character. */
  lemma CharacterRead(f: string, a: nat, d: nat, mod: string, ch: char)
    requires IsLength(mod) && ch !in "-+ #0'123456789*.hjltz%\0" && Stands(f, d, mod) && Stands(f, d + |mod|, [ch])
    requires PrecisionEnd(f, a) == d
    ensures SpecifierAt(f, a) == d + |mod| && CharAt(f, SpecifierAt(f, a)) == ch
    ensures LengthAt(f, PrecisionEnd(f, a)) == LengthSaid(mod)
  {
    LengthRead(f, d, mod, ch);
    CharIn(f, d + |mod|, [ch]);
  }

  /** What the parse finds: the conversion character, its length and the arguments for stars, ... */
  ghost predicate Ends(f: string, a: nat, e: nat, mod: string, ch: char, k: nat, stars: nat) {
    && SpecifierAt(f, a) == e && CharAt(f, e) == ch && LengthAt(f, PrecisionEnd(f, a)) == LengthSaid(mod)
    && PrecisionArgs(f, a, k) == k + stars && CharAt(f, a) != '%'
  }

  /** ... the flags, and the values of width and precision. */
  ghost predicate Fields(f: string, a: nat, flags: string, args: seq<Arg>, k: nat, w: int, p: int) {
    && Stands(f, a, flags) && !IsFlag(CharAt(f, a + |flags|))
    && FieldAt(f, a + |flags|, args, k) == w && PrecisionOf(f, a, args, k) == p
  }

  lemma PartsRead(f: string, a: nat, flags: string, width: string, dot: string, mod: string, ch: char,
                  args: seq<Arg>, k: nat, b: nat, c: nat, d: nat)
    requires IsSpec(flags, width, dot, mod, ch) && b == a + |flags| && c == b + |width| && d == c + |dot|
    requires Stands(f, a, flags) && Stands(f, b, width) && Stands(f, c, dot)
    requires Stands(f, d, mod) && Stands(f, d + |mod|, [ch])
    ensures Ends(f, a, d + |mod|, mod, ch, k, Stars(width, dot))
    ensures Fields(f, a, flags, args, k, WidthSaid(width, args, k), PrecisionSaid(width, dot, args, k))
  {
    LengthApart(f, d, mod, ch);
    PrecisionApart(f, c, dot);
    WidthApart(f, b, width);
    WidthRead(f, a, b, flags, width, args, k);
    PrecisionRead(f, a, c, width, dot, args, k);
    CharacterRead(f, a, d, mod, ch);
  }

  lemma SpecRead(f: string, i: nat, flags: string, width: string, dot: string, mod: string, ch: char,
                 args: seq<Arg>, k: nat) returns (e: nat)
    requires SpecAt(f, i, flags, width, dot, mod, ch)
    ensures CharAt(f, i) == '%' && e + 1 == i + |Spec(flags, width, dot, mod, ch)|
    ensures Ends(f, i + 1, e, mod, ch, k, Stars(width, dot))
    ensures Fields(f, i + 1, flags, args, k, WidthSaid(width, args, k), PrecisionSaid(width, dot, args, k))
  {
    var a, b, c, d, e' := Parts(f, i, flags, width, dot, mod, ch);
    e := e';
    PartsRead(f, a, flags, width, dot, mod, ch, args, k, b, c, d);
  }

  lemma FieldsConvert(f: string, a: nat, flags: string, args: seq<Arg>, k: nat, w: int, p: int)
    requires AllFlags(flags) && Fields(f, a, flags, args, k, w, p)
    ensures ConversionAt(f, a, args, k) == ConversionSaid(flags, w, p)
  {
    AllFlagsRead(f, a, flags);
    ConversionPut(f, a, flags, args, k, w, p);
  }

  /** The conversion that is parsed is the one the text asks for. */
  lemma ConversionRead(f: string, i: nat, flags: string, width: string, dot: string, mod: string, ch: char,
                       args: seq<Arg>, k: nat)
    requires SpecAt(f, i, flags, width, dot, mod, ch)
    ensures ConversionAt(f, i + 1, args, k) ==
            ConversionSaid(flags, WidthSaid(width, args, k), PrecisionSaid(width, dot, args, k))
  {
    var e := SpecRead(f, i, flags, width, dot, mod, ch, args, k);
    FieldsConvert(f, i + 1, flags, args, k, WidthSaid(width, args, k), PrecisionSaid(width, dot, args, k));
  }

  // ---------- What is put out ----------

  lemma PaddedIs(text: string, c: Conversion)
    ensures Padded(text, c) == StringText(text, c.minus, c.width)
  {
    FilledIs(' ', c.width - |text|);
  }

  /** A conversion puts out what its text asks for. */
  lemma ConvertedIs(flags: string, mod: string, ch: char, args: seq<Arg>, j: nat, c: Conversion, length: Length)
    requires Agrees(c, flags) && length == LengthSaid(mod)
    ensures Converted(ch, c, length, args, j) ==
            SaidOf(flags, c.minus, c.zero, c.width, c.precision, mod, ch, args, j)
  {
    if IsSigned(ch) {
      ConvertedSigned(flags, mod, ch, args, j, c, length);
    } else if IsUnsigned(ch) {
      ConvertedUnsigned(flags, mod, ch, args, j, c, length);
    } else {
      ConvertedOther(flags, mod, ch, args, j, c, length);
    }
  }

  lemma ConvertedSigned(flags: string, mod: string, ch: char, args: seq<Arg>, j: nat, c: Conversion, length: Length)
    requires Agrees(c, flags) && length == LengthSaid(mod) && IsSigned(ch)
    ensures Converted(ch, c, length, args, j) ==
            SaidOf(flags, c.minus, c.zero, c.width, c.precision, mod, ch, args, j)
  {
    var v := SignedArg(WordAt(args, j), length);
    LengthIs(WordAt(args, j), mod);
    RenderedIs(Magnitude(v), true, v < 0, Decimal, c, flags);
  }

  lemma ConvertedUnsigned(flags: string, mod: string, ch: char, args: seq<Arg>, j: nat, c: Conversion, length: Length)
    requires Agrees(c, flags) && length == LengthSaid(mod) && IsUnsigned(ch)
    ensures Converted(ch, c, length, args, j) ==
            SaidOf(flags, c.minus, c.zero, c.width, c.precision, mod, ch, args, j)
  {
    LengthIs(WordAt(args, j), mod);
    RenderedIs(UnsignedArg(WordAt(args, j), length), false, false, BaseFor(ch), c, flags);
  }

  lemma ConvertedOther(flags: string, mod: string, ch: char, args: seq<Arg>, j: nat, c: Conversion, length: Length)
    requires Agrees(c, flags) && length == LengthSaid(mod) && !IsSigned(ch) && !IsUnsigned(ch)
    ensures Converted(ch, c, length, args, j) ==
            SaidOf(flags, c.minus, c.zero, c.width, c.precision, mod, ch, args, j)
  {
    if ch == 'c' {
      PaddedIs([(WordAt(args, j) % 0x100) as char], c);
    } else if ch == 's' {
      PaddedIs(Clipped(TextAt(args, j), c.precision), c);
    } else if ch == 'p' {
      RenderedIs(WordAt(args, j) % TWO64, false, false, Hex, PointerFlags(c), "#");
    }
  }

  lemma ConvertedSaid(flags: string, w: int, p: int, mod: string, ch: char, args: seq<Arg>, j: nat, length: Length)
    requires length == LengthSaid(mod)
    ensures Converted(ch, ConversionSaid(flags, w, p), length, args, j) ==
            SaidWith(flags, w, p, mod, ch, args, j)
  {
    ConvertedIs(flags, mod, ch, args, j, ConversionSaid(flags, w, p), length);
  }

  /** How many arguments a conversion takes beside those of its stars. */
  function Taken(ch: char): nat {
    if ch in "diouxXcsp" then 1 else 0
  }

  lemma TakenIs(ch: char)
    ensures Taken(ch) == if TakesArg(ch) then 1 else 0
  {
    assert forall i {:trigger "diouxXcsp"[i]} :: 0 <= i < 9 ==> TakesArg("diouxXcsp"[i]);
    var s := "diouxXcsp";
    assert s[0] == 'd' && s[1] == 'i' && s[2] == 'o' && s[3] == 'u' && s[4] == 'x' && s[5] == 'X' && s[6] == 'c';
    assert s[7] == 's' && s[8] == 'p';
  }

  lemma PieceConverts(f: string, i: nat, e: nat, mod: string, ch: char, args: seq<Arg>, k: nat, stars: nat,
                      c: Conversion, length: Length, text: string)
    requires CharAt(f, i) == '%' && Ends(f, i + 1, e, mod, ch, k, stars)
    requires ConversionAt(f, i + 1, args, k) == c && LengthAt(f, PrecisionEnd(f, i + 1)) == length
    requires Converted(ch, c, length, args, k + stars) == text
    ensures Piece(f, i, args, k) == text
  {
  }

  /** What the walk puts out is settled by what the parse finds. */
  lemma PieceSaidOf(f: string, i: nat, e: nat, flags: string, w: int, p: int, mod: string, ch: char,
                    args: seq<Arg>, k: nat, stars: nat)
    requires AllFlags(flags) && CharAt(f, i) == '%'
    requires Ends(f, i + 1, e, mod, ch, k, stars) && Fields(f, i + 1, flags, args, k, w, p)
    ensures Piece(f, i, args, k) == SaidWith(flags, w, p, mod, ch, args, k + stars)
  {
    var length := LengthAt(f, PrecisionEnd(f, i + 1));
    FieldsConvert(f, i + 1, flags, args, k, w, p);
    ConvertedSaid(flags, w, p, mod, ch, args, k + stars, length);
    PieceConverts(f, i, e, mod, ch, args, k, stars, ConversionSaid(flags, w, p), length,
                  Converted(ch, ConversionSaid(flags, w, p), length, args, k + stars));
  }

  lemma PieceEnds(f: string, i: nat, e: nat, mod: string, ch: char, k: nat, stars: nat)
    requires CharAt(f, i) == '%' && Ends(f, i + 1, e, mod, ch, k, stars)
    ensures PieceEnd(f, i) == e + 1 && PieceArgs(f, i, k) == k + stars + Taken(ch)
  {
    TakenIs(ch);
  }

  /** Wherever the text of a conversion stands in a format, the walk puts out what the text asks for, ... */
  lemma PieceSaid(f: string, i: nat, flags: string, width: string, dot: string, mod: string, ch: char,
                  args: seq<Arg>, k: nat)
    requires SpecAt(f, i, flags, width, dot, mod, ch)
    ensures Piece(f, i, args, k) == Said(flags, width, dot, mod, ch, args, k)
  {
    var e := SpecRead(f, i, flags, width, dot, mod, ch, args, k);
    PieceSaidOf(f, i, e, flags, WidthSaid(width, args, k), PrecisionSaid(width, dot, args, k), mod, ch, args, k,
                Stars(width, dot));
  }

  /** ... goes on behind it, and takes an argument for each star and one for the conversion, if it needs one. */
  lemma PieceBehind(f: string, i: nat, flags: string, width: string, dot: string, mod: string, ch: char, k: nat)
    requires SpecAt(f, i, flags, width, dot, mod, ch)
    ensures CharAt(f, i) == '%' && PieceEnd(f, i) == i + |Spec(flags, width, dot, mod, ch)|
    ensures PieceArgs(f, i, k) == k + Stars(width, dot) + Taken(ch)
  {
    var e := SpecRead(f, i, flags, width, dot, mod, ch, [], k);
    PieceEnds(f, i, e, mod, ch, k, Stars(width, dot));
  }

  /** The output from `i` on is the text, and the output from `j` on with the arguments from `k'` on. */
  ghost predicate PutsOut(f: string, i: nat, args: seq<Arg>, k: nat, text: string, j: nat, k': nat) {
    Output(f, i, args, k) == text + Output(f, j, args, k')
  }

  lemma OutputStep(f: string, i: nat, args: seq<Arg>, k: nat, text: string, j: nat, k': nat)
    requires CharAt(f, i) == '%' && Piece(f, i, args, k) == text && PieceEnd(f, i) == j && PieceArgs(f, i, k) == k'
    ensures PutsOut(f, i, args, k, text, j, k')
  {
  }

  /** The output from a conversion on: what its text asks for, and the rest with the arguments that are left. */
  lemma OutputSaid(f: string, i: nat, flags: string, width: string, dot: string, mod: string, ch: char,
                   args: seq<Arg>, k: nat) returns (text: string, j: nat, k': nat)
    requires SpecAt(f, i, flags, width, dot, mod, ch)
    ensures text == Said(flags, width, dot, mod, ch, args, k)
    ensures j == i + |Spec(flags, width, dot, mod, ch)| && k' == k + Stars(width, dot) + Taken(ch)
    ensures PutsOut(f, i, args, k, text, j, k')
  {
    text, j, k' := Piece(f, i, args, k), PieceEnd(f, i), PieceArgs(f, i, k);
    PieceSaid(f, i, flags, width, dot, mod, ch, args, k);
    PieceBehind(f, i, flags, width, dot, mod, ch, k);
    OutputStep(f, i, args, k, text, j, k');
  }

  /** Two percent signs put out one, and any other character but a NUL is put out as it is. */
  lemma OtherPieces(f: string, i: nat, args: seq<Arg>, k: nat)
    requires CharAt(f, i) != '\0' && (CharAt(f, i) == '%' ==> CharAt(f, i + 1) == '%')
    ensures PutsOut(f, i, args, k, [CharAt(f, i)], if CharAt(f, i) == '%' then i + 2 else i + 1, k)
  {
  }

  // ---------- Reading the output back ----------

  /** A format that is one conversion puts out what that asks for. */
  lemma WholeOutput(flags: string, width: string, dot: string, mod: string, ch: char, args: seq<Arg>)
    requires IsSpec(flags, width, dot, mod, ch)
    ensures Output(Spec(flags, width, dot, mod, ch), 0, args, 0) == Said(flags, width, dot, mod, ch, args, 0)
  {
    var f := Spec(flags, width, dot, mod, ch);
    assert f[0..|f|] == f;
    var text, j, k := OutputSaid(f, 0, flags, width, dot, mod, ch, args, 0);
    NothingMore(f, j, args, k);
    assert text + "" == text;
  }

  /** `v` is the number, with a sign or without, that the low bits of `w` stand for where there are so many values. */
  ghost predicate Cuts(v: int, w: nat, values: nat, isSigned: bool)
    requires values > 0
  {
    v % values == w % values && if isSigned then 0 <= 2 * v + values < 2 * values else 0 <= v < values
  }

  /** 8 bits are left by hh, 16 by h, 32 without a length, and 64 by l, ll, j, t and z. */
  ghost predicate CutTo(v: int, w: nat, mod: string, isSigned: bool) {
    if mod == "hh" then Cuts(v, w, 0x100, isSigned)
    else if mod == "h" then Cuts(v, w, 0x1_0000, isSigned)
    else if mod == "" then Cuts(v, w, 0x1_0000_0000, isSigned)
    else Cuts(v, w, 0x1_0000_0000_0000_0000, isSigned)
  }

  lemma CutByte(w: nat)
    ensures Cuts(w % 0x100, w, 0x100, false) && Cuts(Complement(w, 0x100), w, 0x100, true)
  {
  }

  lemma CutShort(w: nat)
    ensures Cuts(w % 0x1_0000, w, 0x1_0000, false) && Cuts(Complement(w, 0x1_0000), w, 0x1_0000, true)
  {
  }

  lemma CutInt(w: nat)
    ensures Cuts(w % 0x1_0000_0000, w, 0x1_0000_0000, false)
    ensures Cuts(Complement(w, 0x1_0000_0000), w, 0x1_0000_0000, true)
  {
  }

  lemma CutLong(w: nat)
    ensures Cuts(w % 0x1_0000_0000_0000_0000, w, 0x1_0000_0000_0000_0000, false)
    ensures Cuts(Complement(w, 0x1_0000_0000_0000_0000), w, 0x1_0000_0000_0000_0000, true)
  {
  }

  lemma ArgumentCut(w: nat, mod: string)
    ensures CutTo(UnsignedSaid(w, mod), w, mod, false) && CutTo(SignedSaid(w, mod), w, mod, true)
  {
    CutByte(w);
    CutShort(w);
    CutInt(w);
    CutLong(w);
  }

  lemma SaidReadsBack(flags: string, w: int, p: int, mod: string, ch: char, args: seq<Arg>, j: nat)
    requires IsSigned(ch) || IsUnsigned(ch)
    ensures Meaning(SaidWith(flags, w, p, mod, ch, args, j), if IsSigned(ch) then 10 else Radix(BaseFor(ch))) ==
            if IsSigned(ch) then SignedSaid(WordAt(args, j), mod) else UnsignedSaid(WordAt(args, j), mod)
  {
    ConvertedSaid(flags, w, p, mod, ch, args, j, LengthSaid(mod));
    ConvertedReadsBack(ch, ConversionSaid(flags, w, p), LengthSaid(mod), args, j);
    LengthIs(WordAt(args, j), mod);
  }

  /**
    What any integer conversion puts out, read in base 8 for o, 10 for d, i and u, and 16 for x and X, is its
    argument cut to its length, signed for d and i: whatever the flags, the width and the precision.
  */
  lemma IntegerReadsBack(flags: string, width: string, dot: string, mod: string, ch: char, args: seq<Arg>)
    requires IsSpec(flags, width, dot, mod, ch) && ch in "diouxX"
    ensures var base := if ch == 'o' then 8 else if ch == 'x' || ch == 'X' then 16 else 10;
            CutTo(Meaning(Output(Spec(flags, width, dot, mod, ch), 0, args, 0), base),
                  WordAt(args, Stars(width, dot)), mod, ch == 'd' || ch == 'i')
  {
    WholeOutput(flags, width, dot, mod, ch, args);
    SaidReadsBack(flags, WidthSaid(width, args, 0), PrecisionSaid(width, dot, args, 0), mod, ch, args,
                  Stars(width, dot));
    ArgumentCut(WordAt(args, Stars(width, dot)), mod);
  }

  lemma {:induction false} WrittenDigits(value: nat, upper: bool)
    ensures HexDigits(Written(value, 16, upper), upper)
  {
    if value != 0 { WrittenDigits(value / 16, upper); }
  }

  predicate HexDigits(s: string, upper: bool) {
    forall i {:trigger s[i]} :: 0 <= i < |s| ==>
      '0' <= s[i] <= '9' || (if upper then 'A' <= s[i] <= 'F' else 'a' <= s[i] <= 'f')
  }

  /** Without flags, width and precision an unsigned number is its digits, or 0. */
  lemma PlainNumber(value: nat, radix: nat, upper: bool)
    requires 2 <= radix <= 16
    ensures IntegerText(value, false, false, radix, upper, "", false, false, 0, -1) ==
            if value == 0 then "0" else Written(value, radix, upper)
  {
    var digits := Written(value, radix, upper);
    var number := NumberText(digits, -1, false);
    assert Filled(' ', 0 - |number|) == "" && Filled('0', 1) == "0";
    assert value != 0 ==> Filled('0', 1 - |digits|) + digits == digits;
    assert FieldText("", "", number, false, false, 0) == number;
  }

  /** An unsigned conversion with nothing but a length. */
  lemma PlainSaid(mod: string, ch: char, args: seq<Arg>)
    requires ch == 'x' || ch == 'X'
    ensures Said("", "", "", mod, ch, args, 0) ==
            IntegerText(UnsignedSaid(WordAt(args, 0), mod), false, false, 16, ch == 'X', "", false, false, 0, -1)
  {
  }

  lemma PlainText(mod: string, ch: char, args: seq<Arg>, v: nat) returns (text: string)
    requires (ch == 'x' || ch == 'X') && v == UnsignedSaid(WordAt(args, 0), mod)
    ensures text == Said("", "", "", mod, ch, args, 0)
    ensures text == (if v == 0 then "0" else Written(v, 16, ch == 'X')) && HexDigits(text, ch == 'X')
  {
    PlainSaid(mod, ch, args);
    PlainNumber(v, 16, ch == 'X');
    WrittenDigits(v, ch == 'X');
    text := if v == 0 then "0" else Written(v, 16, ch == 'X');
  }

  lemma PlainSpec(mod: string, ch: char)
    requires IsLength(mod) && (ch == 'x' || ch == 'X')
    ensures IsSpec("", "", "", mod, ch) && Spec("", "", "", mod, ch) == "%" + mod + [ch]
  {
  }

  lemma WholeText(f: string, flags: string, width: string, dot: string, mod: string, ch: char, args: seq<Arg>,
                  text: string)
    requires IsSpec(flags, width, dot, mod, ch) && f == Spec(flags, width, dot, mod, ch)
    requires text == Said(flags, width, dot, mod, ch, args, 0)
    ensures text == Output(f, 0, args, 0)
  {
    WholeOutput(flags, width, dot, mod, ch, args);
  }

  /** A number in base 16, highest digit first, has small letters for x and capitals for X. */
  lemma PlainHex(mod: string, ch: char, args: seq<Arg>) returns (text: string)
    requires IsLength(mod) && (ch == 'x' || ch == 'X')
    ensures text == Output("%" + mod + [ch], 0, args, 0) && HexDigits(text, ch == 'X')
    ensures var v := UnsignedSaid(WordAt(args, 0), mod); text == if v == 0 then "0" else Written(v, 16, ch == 'X')
  {
    text := PlainText(mod, ch, args, UnsignedSaid(WordAt(args, 0), mod));
    PlainSpec(mod, ch);
    WholeText("%" + mod + [ch], "", "", "", mod, ch, args, text);
  }

  /** The format of the page fault messages: all 33 bits of the address are written. */
  lemma HexExample(mod: string, v: nat) returns (text: string)
    requires mod == "l" && v == 0x1_0000_00FF
    ensures text == Output("%" + mod + ['x'], 0, [Word(v)], 0) && text == "1000000ff"
  {
    text := PlainHex(mod, 'x', [Word(v)]);
    WrittenExample(v);
    assert UnsignedSaid(v, mod) == v;
  }

  lemma WrittenExample(v: nat)
    requires v == 0x1_0000_00FF
    ensures Written(v, 16, false) == "1000000ff"
  {
    assert Written(0x1_0000_00FF, 16, false) == "1000000ff";
  }
}
