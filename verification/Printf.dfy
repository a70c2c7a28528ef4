/**
  The integer conversion and the bounded output of kprintf: a conversion parsed
  from a format, digits produced in reverse in a buffer of 64 characters, and
  text cut off at the size of the caller's buffer.
*/
module Printf {
  import opened Machine

  const BUFFER: nat := 64

  /** The flags, field width and precision of a conversion; precision -1 if there is none. */
  datatype Conversion = Conversion(
    minus: bool, plus: bool, space: bool, pound: bool, zero: bool, group: bool,
    width: nat, precision: int)

  /** base_d, base_o, base_x and base_X. */
  datatype Base = Decimal | Octal | Hex | UpperHex

  function Radix(b: Base): nat {
    match b case Decimal => 10 case Octal => 8 case Hex => 16 case UpperHex => 16
  }

  function DigitChar(b: Base, d: nat): char
    requires d < Radix(b)
  {
    if b.UpperHex? then "0123456789ABCDEF"[d] else "0123456789abcdef"[d]
  }

  /** The character after the 0 of a prefix, if the base has one. */
  function X(b: Base): string {
    match b case Hex => "x" case UpperHex => "X" case _ => ""
  }

  function GroupSize(b: Base): nat {
    if b.Decimal? || b.Octal? then 3 else 4
  }

  function Repeat(ch: char, n: nat): (s: string)
    ensures |s| == n && forall i :: 0 <= i < n ==> s[i] == ch
  {
    seq(n, _ => ch)
  }

  // ---------- What an integer conversion writes ----------

  function Comma(b: Base, group: bool, count: nat): string {
    if group && count > 0 && count % GroupSize(b) == 0 then "," else ""
  }

  /** The digits of `value`, lowest first, with commas between groups; `count` digits went before. */
  function Digits(value: nat, b: Base, group: bool, count: nat): string
    decreases value
  {
    if value == 0 then "" else
      Comma(b, group, count) + [DigitChar(b, value % Radix(b))] + Digits(value / Radix(b), b, group, count + 1)
  }

  function Max(a: int, b: int): int {
    if a < b then b else a
  }

  function Min(a: int, b: int): int {
    if a < b then a else b
  }

  /** The content of the buffer: digits, zeros up to the precision, and the leading zero that # asks of base 8. */
  function Body(value: nat, b: Base, c: Conversion): string
  {
    var d := Digits(value, b, c.group, 0);
    var precision := if c.precision < 0 then 1 else c.precision;
    var z := d + Repeat('0', Max(0, Min(precision, BUFFER - 1) - |d|));
    if c.pound && b.Octal? && (z == "" || z[|z| - 1] != '0') then z + "0" else z
  }

  function Sign(isSigned: bool, negative: bool, c: Conversion): string {
    if !isSigned then "" else if negative then "-" else if c.plus then "+" else if c.space then " " else ""
  }

  function Prefix(value: nat, b: Base, c: Conversion): string {
    if c.pound && value > 0 && X(b) != "" then "0" + X(b) else ""
  }

  /** The number of characters that are not padding. */
  function Bare(value: nat, isSigned: bool, negative: bool, b: Base, c: Conversion): nat
  {
    |Sign(isSigned, negative, c)| + |Prefix(value, b, c)| + |Body(value, b, c)|
  }

  function Pad(value: nat, isSigned: bool, negative: bool, b: Base, c: Conversion): nat
  {
    Max(0, c.width - Bare(value, isSigned, negative, b, c))
  }

  function Reversed(s: string): (r: string)
    ensures |r| == |s|
  {
    if s == "" then "" else Reversed(s[1..]) + [s[0]]
  }

  /** What is written before the digits. */
  function Front(sign: string, x: string, pad: nat, c: Conversion): string {
    (if !c.minus && !c.zero then Repeat(' ', pad) else "") + sign + x + (if c.zero then Repeat('0', pad) else "")
  }

  /** A field as format_integer lays it out around the digits `r`. */
  function Field(sign: string, x: string, r: string, pad: nat, c: Conversion): string {
    Front(sign, x, pad, c) + r + if c.minus then Repeat(' ', pad) else ""
  }

  /** All that format_integer writes. */
  function Rendered(value: nat, isSigned: bool, negative: bool, b: Base, c: Conversion): string {
    Field(Sign(isSigned, negative, c), Prefix(value, b, c), Reversed(Body(value, b, c)),
          Pad(value, isSigned, negative, b, c), c)
  }

  // ---------- The field width ----------

  /**
    A conversion fills its field exactly, unless both `0` and `-` are in force:
    then the field is padded twice.
  */
  lemma WidthLaw(value: nat, isSigned: bool, negative: bool, b: Base, c: Conversion)
    ensures var n := |Rendered(value, isSigned, negative, b, c)|;
            var bare := Bare(value, isSigned, negative, b, c);
            && n == bare + Pad(value, isSigned, negative, b, c) * (if c.zero && c.minus then 2 else 1)
            && (n == Max(c.width, bare) <==> !(c.zero && c.minus) || c.width <= bare)
  {
  }

  /** The conversion `%0*d` of 7 in a field of width -5 takes 9 characters: 4 zeros, 7, 4 spaces. */
  lemma PaddedTwice()
    ensures Rendered(7, true, false, Decimal, Conversion(true, false, false, false, true, false, 5, -1)) == "00007    "
  {
    var c := Conversion(true, false, false, false, true, false, 5, -1);
    assert Digits(0, Decimal, false, 1) == "";
    assert Digits(7, Decimal, false, 0) == "7";
    assert Body(7, Decimal, c) == "7";
    assert Reversed("7") == "7";
    assert Repeat('0', 4) == "0000" && Repeat(' ', 4) == "    ";
    assert Front("", "", 4, c) == "0000";
  }

  // ---------- The buffer ----------

  function Power8(k: nat): nat {
    if k == 0 then 1 else 8 * Power8(k - 1)
  }

  /** At most one comma for each digit, and at most 22 digits. */
  lemma {:induction false} DigitsShort(value: nat, b: Base, group: bool, count: nat, k: nat)
    requires value < Power8(k)
    ensures |Digits(value, b, group, count)| <= 2 * k
    decreases k
  {
    if value != 0 {
      assert value / Radix(b) <= value / 8;
      DigitsShort(value / Radix(b), b, group, count + 1, k - 1);
    }
  }

  lemma DigitsFit(value: nat, b: Base, group: bool)
    requires value < TWO64
    ensures |Digits(value, b, group, 0)| <= 44
  {
    assert Power8(11) == 0x2_0000_0000;
    assert Power8(22) == 0x4_0000_0000_0000_0000;
    DigitsShort(value, b, group, 0, 22);
  }

  /** Whatever the flags and the precision, the buffer holds the body. */
  lemma BodyFits(value: nat, b: Base, c: Conversion)
    requires value < TWO64
    ensures |Body(value, b, c)| <= BUFFER
  {
    DigitsFit(value, b, c.group);
  }

  // ---------- Reading the digits back ----------

  function DigitValue(ch: char): nat {
    if '0' <= ch <= '9' then (ch - '0') as nat
    else if 'a' <= ch <= 'f' then (ch - 'a') as nat + 10
    else if 'A' <= ch <= 'F' then (ch - 'A') as nat + 10
    else 0
  }

  function Without(s: string, ch: char): string {
    if s == "" then "" else (if s[0] == ch then "" else [s[0]]) + Without(s[1..], ch)
  }

  /** The value of a numeral, highest digit first. */
  function ValueOf(s: string, base: nat): nat {
    if s == "" then 0 else ValueOf(s[..|s| - 1], base) * base + DigitValue(s[|s| - 1])
  }

  lemma DigitReadsBack(d: nat, b: Base)
    requires d < Radix(b)
    ensures DigitValue(DigitChar(b, d)) == d && DigitChar(b, d) != ','
  {
    assert "0123456789ABCDEF"[d] == "0123456789abcdef"[d] || d >= 10;
  }

  lemma {:induction false} WithoutAppend(s: string, t: string, ch: char)
    ensures Without(s + t, ch) == Without(s, ch) + Without(t, ch)
  {
    if s == "" {
      assert s + t == t;
    } else {
      assert (s + t)[1..] == s[1..] + t;
      WithoutAppend(s[1..], t, ch);
    }
  }

  lemma {:induction false} ReversedAppend(s: string, t: string)
    ensures Reversed(s + t) == Reversed(t) + Reversed(s)
  {
    if s == "" {
      assert s + t == t;
    } else {
      assert (s + t)[1..] == s[1..] + t;
      ReversedAppend(s[1..], t);
    }
  }

  /** The value of a buffer content, read from its end to its start. */
  function Reads(s: string, base: nat): nat {
    ValueOf(Without(Reversed(s), ','), base)
  }

  lemma ReadsDigitMore(rest: string, d: char, base: nat)
    requires d != ','
    ensures Reads([d] + rest, base) == Reads(rest, base) * base + DigitValue(d)
  {
    ReversedAppend([d], rest);
    WithoutAppend(Reversed(rest), [d], ',');
    assert Reversed([d]) == [d] && Without([d], ',') == [d];
    var w := Without(Reversed(rest), ',') + [d];
    assert w[..|w| - 1] == Without(Reversed(rest), ',') && w[|w| - 1] == d;
  }

  lemma ReadsCommaMore(rest: string, base: nat)
    ensures Reads("," + rest, base) == Reads(rest, base)
  {
    ReversedAppend(",", rest);
    WithoutAppend(Reversed(rest), ",", ',');
    assert Reversed(",") == "," && Without(",", ',') == "";
    assert Without(Reversed(rest), ',') + "" == Without(Reversed(rest), ',');
  }

  lemma ReadsGroupMore(rest: string, comma: string, base: nat)
    requires comma == "," || comma == ""
    ensures Reads(comma + rest, base) == Reads(rest, base)
  {
    if comma == "" {
      assert comma + rest == rest;
    } else {
      ReadsCommaMore(rest, base);
    }
  }

  lemma Remainder(value: nat, base: nat)
    requires base > 0
    ensures value / base * base + value % base == value
  {
  }

  /** Read from the buffer's end to its start, the digits mean the value. */
  lemma {:induction false} DigitsReadBack(value: nat, b: Base, group: bool, count: nat)
    ensures Reads(Digits(value, b, group, count), Radix(b)) == value
    decreases value
  {
    if value != 0 {
      var q, r := value / Radix(b), value % Radix(b);
      var rest := Digits(q, b, group, count + 1);
      DigitsReadBack(q, b, group, count + 1);
      DigitReadsBack(r, b);
      ReadsStep(rest, DigitChar(b, r), Comma(b, group, count), Radix(b));
      Remainder(value, Radix(b));
    }
  }

  lemma ReadsStep(rest: string, d: char, comma: string, base: nat)
    requires d != ',' && (comma == "," || comma == "")
    ensures Reads(comma + [d] + rest, base) == Reads(rest, base) * base + DigitValue(d)
  {
    ReadsDigitMore(rest, d, base);
    ReadsGroupMore([d] + rest, comma, base);
    assert comma + [d] + rest == comma + ([d] + rest);
  }

  lemma {:induction false} LeadingZero(s: string, base: nat)
    ensures ValueOf("0" + s, base) == ValueOf(s, base)
  {
    var z := "0" + s;
    if s == "" {
      assert z[..0] == "";
    } else {
      assert z[..|z| - 1] == "0" + s[..|s| - 1];
      LeadingZero(s[..|s| - 1], base);
    }
  }

  lemma ReadsZeroMore(s: string, base: nat)
    ensures Reads(s + "0", base) == Reads(s, base)
  {
    ReversedAppend(s, "0");
    assert Reversed("0") == "0";
    assert Without("0" + Reversed(s), ',') == "0" + Without(Reversed(s), ',');
    LeadingZero(Without(Reversed(s), ','), base);
  }

  lemma {:induction false} ReadsZerosMore(s: string, n: nat, base: nat)
    ensures Reads(s + Repeat('0', n), base) == Reads(s, base)
  {
    if n == 0 {
      assert s + Repeat('0', 0) == s;
    } else {
      assert s + Repeat('0', n) == s + Repeat('0', n - 1) + "0";
      ReadsZeroMore(s + Repeat('0', n - 1), base);
      ReadsZerosMore(s, n - 1, base);
    }
  }

  /** With its commas taken out, what is written between sign or prefix and the end is the value's numeral. */
  lemma BodyReadsBack(value: nat, b: Base, c: Conversion)
    ensures ValueOf(Without(Reversed(Body(value, b, c)), ','), Radix(b)) == value
  {
    var d := Digits(value, b, c.group, 0);
    var precision := if c.precision < 0 then 1 else c.precision;
    var n := Max(0, Min(precision, BUFFER - 1) - |d|);
    DigitsReadBack(value, b, c.group, 0);
    ReadsZerosMore(d, n, Radix(b));
    ReadsZeroMore(d + Repeat('0', n), Radix(b));
    assert Reads(Body(value, b, c), Radix(b)) == value;
  }

  // ---------- Reading the whole output back ----------

  function AfterSign(t: string): string {
    if t != "" && (t[0] == '-' || t[0] == '+') then t[1..] else t
  }

  function AfterPrefix(u: string): string {
    if |u| >= 2 && u[0] == '0' && (u[1] == 'x' || u[1] == 'X') then u[2..] else u
  }

  /** What an output means: without blanks, an optional sign, an optional 0x, and a numeral with commas. */
  function Meaning(text: string, base: nat): int {
    var t := Without(text, ' ');
    var n := ValueOf(Without(AfterPrefix(AfterSign(t)), ','), base);
    if t != "" && t[0] == '-' then 0 - n else n
  }

  predicate Numeral(ch: char) {
    ch != ' ' && ch != '-' && ch != '+' && ch != 'x' && ch != 'X'
  }

  ghost predicate AllNumeral(s: string) {
    forall i {:trigger s[i]} :: 0 <= i < |s| ==> Numeral(s[i])
  }

  lemma {:induction false} DigitsNumeral(value: nat, b: Base, group: bool, count: nat)
    ensures AllNumeral(Digits(value, b, group, count))
    decreases value
  {
    if value != 0 {
      DigitsNumeral(value / Radix(b), b, group, count + 1);
      DigitNumeral(value % Radix(b), b);
    }
  }

  lemma DigitNumeral(d: nat, b: Base)
    requires d < Radix(b)
    ensures Numeral(DigitChar(b, d))
  {
    DigitReadsBack(d, b);
  }

  lemma BodyNumeral(value: nat, b: Base, c: Conversion)
    ensures AllNumeral(Body(value, b, c))
  {
    DigitsNumeral(value, b, c.group, 0);
  }

  lemma {:induction false} ReversedNumeral(s: string)
    requires AllNumeral(s)
    ensures AllNumeral(Reversed(s))
  {
    if s != "" { ReversedNumeral(s[1..]); }
  }

  lemma {:induction false} WithoutAbsent(s: string, ch: char)
    requires forall i {:trigger s[i]} :: 0 <= i < |s| ==> s[i] != ch
    ensures Without(s, ch) == s
  {
    if s != "" { WithoutAbsent(s[1..], ch); }
  }

  lemma {:induction false} WithoutAll(ch: char, n: nat)
    ensures Without(Repeat(ch, n), ch) == ""
  {
    if n > 0 {
      assert Repeat(ch, n)[1..] == Repeat(ch, n - 1);
      WithoutAll(ch, n - 1);
    }
  }

  lemma {:induction false} LeadingZeros(n: nat, s: string, base: nat)
    ensures ValueOf(Without(Repeat('0', n) + s, ','), base) == ValueOf(Without(s, ','), base)
  {
    if n == 0 {
      assert Repeat('0', 0) + s == s;
    } else {
      var t := Repeat('0', n - 1) + s;
      assert Repeat('0', n) + s == "0" + t;
      WithoutAppend("0", t, ',');
      assert Without("0", ',') == "0";
      LeadingZero(Without(t, ','), base);
      LeadingZeros(n - 1, s, base);
    }
  }

  lemma PrefixTaken(prefix: string, z: string)
    requires (prefix == "" || prefix == "0x" || prefix == "0X") && AllNumeral(z)
    ensures AfterPrefix(prefix + z) == z
  {
    if prefix == "" {
      assert prefix + z == z;
    } else {
      assert (prefix + z)[1] == prefix[1] && (prefix + z)[2..] == z;
    }
  }

  lemma SignTaken(sign: string, u: string)
    requires sign == "" || sign == "-" || sign == "+"
    requires u != "" ==> u[0] != '-' && u[0] != '+'
    ensures AfterSign(sign + u) == u
    ensures sign == "-" <==> sign + u != "" && (sign + u)[0] == '-'
  {
    if sign == "" {
      assert sign + u == u;
    } else {
      assert (sign + u)[0] == sign[0] && (sign + u)[1..] == u;
    }
  }

  /** The sign, prefix and numeral of an output, as Meaning takes them apart. */
  lemma MeaningOfParts(sign: string, prefix: string, z: string, text: string, base: nat)
    requires sign == "" || sign == "-" || sign == "+"
    requires (prefix == "" || prefix == "0x" || prefix == "0X") && AllNumeral(z)
    requires Without(text, ' ') == sign + (prefix + z)
    ensures Meaning(text, base) == var n := ValueOf(Without(z, ','), base); if sign == "-" then 0 - n else n
  {
    var u := prefix + z;
    assert u != "" ==> u[0] == if prefix == "" then z[0] else '0';
    SignTaken(sign, u);
    PrefixTaken(prefix, z);
  }

  lemma FieldParts(sign: string, x: string, r: string, pad: nat, c: Conversion,
                   left: string, zeros: string, right: string)
    requires left == if !c.minus && !c.zero then Repeat(' ', pad) else ""
    requires zeros == (if c.zero then Repeat('0', pad) else "") && right == if c.minus then Repeat(' ', pad) else ""
    ensures Field(sign, x, r, pad, c) == left + (sign + (x + (zeros + r))) + right
  {
    assert left + sign + x + zeros + r == left + (sign + (x + (zeros + r)));
  }

  /** A field without its blank padding. */
  lemma FieldUnpadded(sign: string, x: string, r: string, pad: nat, c: Conversion)
    ensures Without(Field(sign, x, r, pad, c), ' ') ==
            Without(sign + (x + ((if c.zero then Repeat('0', pad) else "") + r)), ' ')
  {
    var zeros := if c.zero then Repeat('0', pad) else "";
    var left, right := if !c.minus && !c.zero then Repeat(' ', pad) else "", if c.minus then Repeat(' ', pad) else "";
    var inner := sign + (x + (zeros + r));
    FieldParts(sign, x, r, pad, c, left, zeros, right);
    WithoutAppend(left + inner, right, ' ');
    WithoutAppend(left, inner, ' ');
    WithoutAll(' ', pad);
  }

  /** Without blanks a field is sign, prefix, zeros and digits; a blank sign goes too. */
  lemma FieldBare(sign: string, x: string, r: string, pad: nat, c: Conversion)
    requires sign == "" || sign == " " || sign == "-" || sign == "+"
    requires (x == "" || x == "0x" || x == "0X") && AllNumeral(r)
    ensures Without(Field(sign, x, r, pad, c), ' ') ==
            (if sign == " " then "" else sign) + (x + (Repeat('0', if c.zero then pad else 0) + r))
  {
    var z := Repeat('0', if c.zero then pad else 0) + r;
    assert z == (if c.zero then Repeat('0', pad) else "") + r;
    FieldUnpadded(sign, x, r, pad, c);
    WithoutAppend(sign, x + z, ' ');
    WithoutAbsent(x + z, ' ');
    assert Without(sign, ' ') == if sign == " " then "" else sign;
  }

  /** A field means its digits, with its sign. */
  lemma FieldMeans(sign: string, x: string, r: string, pad: nat, c: Conversion, base: nat)
    requires sign == "" || sign == " " || sign == "-" || sign == "+"
    requires (x == "" || x == "0x" || x == "0X") && AllNumeral(r)
    ensures Meaning(Field(sign, x, r, pad, c), base) ==
            var n := ValueOf(Without(r, ','), base); if sign == "-" then 0 - n else n
  {
    var n := if c.zero then pad else 0;
    FieldBare(sign, x, r, pad, c);
    MeaningOfParts(if sign == " " then "" else sign, x, Repeat('0', n) + r, Field(sign, x, r, pad, c), base);
    LeadingZeros(n, r, base);
  }

  /** Padding, sign, prefix, commas and all: every output of format_integer means the number to be written. */
  lemma RenderedReadsBack(value: nat, isSigned: bool, negative: bool, b: Base, c: Conversion)
    ensures Meaning(Rendered(value, isSigned, negative, b, c), Radix(b)) ==
              if isSigned && negative then 0 - value else value
  {
    BodyNumeral(value, b, c);
    ReversedNumeral(Body(value, b, c));
    BodyReadsBack(value, b, c);
    FieldMeans(Sign(isSigned, negative, c), Prefix(value, b, c), Reversed(Body(value, b, c)),
               Pad(value, isSigned, negative, b, c), c, Radix(b));
  }

  // ---------- Bounded output ----------

  /** The auxiliary data of vsnkprintf: where the next character goes, and how many there were. */
  class Sink {
    const buffer: array<char>
    const size: nat
    const maxLength: nat
    var p: nat
    var length: nat
    /** History: all characters put out so far, and what the buffer held at the start. */
    ghost var text: string
    ghost const was: seq<char>

    ghost predicate Valid()
      reads this, buffer
    {
      && size <= buffer.Length == |was|
      && maxLength == (if size > 0 then size - 1 else 0)
      && length == |text| && p == Min(|text|, maxLength)
      && buffer[..p] == text[..p] && buffer[p..] == was[p..]
    }

    /** The start of vsnkprintf. */
    constructor (buffer: array<char>, size: nat)
      requires size <= buffer.Length
      ensures Valid() && text == "" && this.buffer == buffer && this.size == size && was == buffer[..]
    {
      this.buffer, this.size, p, length, text := buffer, size, 0, 0, "";
      maxLength := if size > 0 then size - 1 else 0;
      was := buffer[..];
    }

    /** vsnkprintf_helper. */
    method Emit(ch: char)
      requires Valid()
      modifies this`p, this`length, this`text, buffer
      ensures Valid() && text == old(text) + [ch]
    {
      ghost var t := text + [ch];
      assert t[..p] == text[..p];
      if length < maxLength {
        assert t[..p + 1] == text[..p] + [ch];
        buffer[p] := ch;
        p := p + 1;
      }
      length := length + 1;
      text := t;
    }

    /** output_dup. */
    method EmitTimes(ch: char, count: nat)
      requires Valid()
      modifies this`p, this`length, this`text, buffer
      ensures Valid() && text == old(text) + Repeat(ch, count)
    {
      for i := 0 to count
        invariant Valid() && text == old(text) + Repeat(ch, i)
      {
        assert Repeat(ch, i + 1) == Repeat(ch, i) + [ch];
        Emit(ch);
      }
    }

    method EmitAll(s: string)
      requires Valid()
      modifies this`p, this`length, this`text, buffer
      ensures Valid() && text == old(text) + s
    {
      for i := 0 to |s|
        invariant Valid() && text == old(text) + s[..i]
      {
        assert s[..i + 1] == s[..i] + [s[i]];
        Emit(s[i]);
      }
      assert s[..|s|] == s;
    }

    /**
      The end of vsnkprintf: whatever was put out, the buffer holds its first
      size - 1 characters and a terminator, and nothing else of it is touched.
    */
    method Finish() returns (n: nat)
      requires Valid()
      modifies buffer
      ensures n == |text| && Bounded(buffer[..], was, size, text)
    {
      if size > 0 {
        buffer[p] := '\0';
        assert buffer[..p] == text[..p];
        assert buffer[p + 1..] == was[p + 1..];
      } else {
        assert buffer[..] == buffer[..p] + buffer[p..];
        assert was[p..] == was;
      }
      n := length;
    }
  }

  /** What vsnkprintf promises about its buffer: the text, cut off to fit, and a terminator. */
  ghost predicate Bounded(now: seq<char>, was: seq<char>, size: nat, text: string) {
    if size == 0 then now == was
    else
      var n := Min(|text|, size - 1);
      && size <= |now| == |was|
      && now[..n] == text[..n] && now[n] == '\0' && now[n + 1..] == was[n + 1..]
  }

  // ---------- format_integer ----------

  /** The digits, in reverse, at the start of the buffer. */
  method PutDigits(value: nat, b: Base, c: Conversion, buf: array<char>) returns (cp: nat)
    requires value < TWO64 && buf.Length == BUFFER
    modifies buf
    ensures cp <= 44 && buf[..cp] == Digits(value, b, c.group, 0)
  {
    DigitsFit(value, b, c.group);
    ghost var all := Digits(value, b, c.group, 0);
    var v: nat, count: nat := value, 0;
    cp := 0;
    while v > 0
      invariant DigitsSplit(all, buf[..], cp, Digits(v, b, c.group, count))
    {
      var d := DigitChar(b, v % Radix(b));
      cp := PutDigit(Comma(b, c.group, count), d, buf, cp, all, Digits(v / Radix(b), b, c.group, count + 1));
      v := v / Radix(b);
      count := count + 1;
    }
    assert buf[..cp] + "" == buf[..cp];
  }

  /** The buffer up to `cp` and the digits still to come are all the digits. */
  ghost predicate DigitsSplit(all: string, buf: seq<char>, cp: nat, rest: string) {
    |buf| == BUFFER && |all| <= 44 && cp + |rest| == |all| && buf[..cp] + rest == all
  }

  /** One digit, and the comma before it if a group is full. */
  method PutDigit(comma: string, d: char, buf: array<char>, at: nat, ghost all: string, ghost rest: string)
    returns (cp: nat)
    requires buf.Length == BUFFER && (comma == "" || comma == ",") && DigitsSplit(all, buf[..], at, comma + [d] + rest)
    modifies buf
    ensures DigitsSplit(all, buf[..], cp, rest)
  {
    ghost var done := buf[..at];
    cp := at;
    if comma != "" {
      buf[cp] := ',';
      cp := cp + 1;
    }
    assert buf[..cp] == done + comma;
    buf[cp] := d;
    cp := cp + 1;
    assert buf[..cp] == done + comma + [d];
    assert done + comma + [d] + rest == done + (comma + [d] + rest);
  }

  /** The zeros behind the digits: they come first in the output. */
  method PutZeros(b: Base, c: Conversion, buf: array<char>, at: nat, ghost value: nat) returns (cp: nat)
    requires buf.Length == BUFFER && at <= 44 && buf[..at] == Digits(value, b, c.group, 0)
    modifies buf
    ensures cp <= BUFFER && buf[..cp] == Body(value, b, c)
  {
    cp := PutPrecision(c, buf, at);
    if c.pound && b.Octal? && (cp == 0 || buf[cp - 1] != '0') {
      ghost var z := buf[..cp];
      buf[cp] := '0';
      cp := cp + 1;
      assert buf[..cp] == z + "0";
    }
  }

  /** Zeros up to the precision, as far as the buffer goes. */
  method PutPrecision(c: Conversion, buf: array<char>, at: nat) returns (cp: nat)
    requires buf.Length == BUFFER && at <= 44
    modifies buf
    ensures cp < BUFFER
    ensures var precision := if c.precision < 0 then 1 else c.precision;
            buf[..cp] == old(buf[..at]) + Repeat('0', Max(0, Min(precision, BUFFER - 1) - at))
  {
    ghost var d := buf[..at];
    var precision := if c.precision < 0 then 1 else c.precision;
    cp := at;
    while cp < precision && cp < BUFFER - 1
      invariant at <= cp <= Max(at, Min(precision, BUFFER - 1)) && buf[..cp] == d + Repeat('0', cp - at)
    {
      PutZero(buf, cp, d, at);
      cp := cp + 1;
    }
  }

  method PutZero(buf: array<char>, cp: nat, ghost d: string, ghost at: nat)
    requires buf.Length == BUFFER && at <= cp < BUFFER && buf[..cp] == d + Repeat('0', cp - at)
    modifies buf
    ensures buf[..cp + 1] == d + Repeat('0', cp + 1 - at)
  {
    buf[cp] := '0';
    assert buf[..cp + 1] == buf[..cp] + "0";
    assert Repeat('0', cp + 1 - at) == Repeat('0', cp - at) + "0";
  }

  /** format_integer. The 64 characters of its buffer are enough for every value, base, flag and precision. */
  method FormatInteger(value: nat, isSigned: bool, negative: bool, b: Base, c: Conversion, sink: Sink)
    requires value < TWO64 && sink.Valid()
    modifies sink`p, sink`length, sink`text, sink.buffer
    ensures sink.Valid() && sink.text == old(sink.text) + Rendered(value, isSigned, negative, b, c)
  {
    var buf, cp := MakeBody(value, b, c);
    var sign, x := Sign(isSigned, negative, c), Prefix(value, b, c);
    var pad := c.width - cp - |x| - |sign|;
    if pad < 0 {
      pad := 0;
    }
    assert pad == Pad(value, isSigned, negative, b, c);
    EmitField(sign, x, pad, c, buf, cp, sink);
  }

  /** The buffer, filled. */
  method MakeBody(value: nat, b: Base, c: Conversion) returns (buf: array<char>, cp: nat)
    requires value < TWO64
    ensures fresh(buf) && buf.Length == BUFFER && cp <= BUFFER && buf[..cp] == Body(value, b, c)
  {
    buf := new char[BUFFER];
    cp := PutDigits(value, b, c, buf);
    cp := PutZeros(b, c, buf, cp, value);
  }

  /** The output, from the left to the right. */
  method EmitField(sign: string, x: string, pad: nat, c: Conversion, buf: array<char>, cp: nat, sink: Sink)
    requires sink.Valid() && cp <= buf.Length && buf != sink.buffer
    modifies sink`p, sink`length, sink`text, sink.buffer
    ensures sink.Valid()
    ensures sink.text == old(sink.text) + Field(sign, x, Reversed(buf[..cp]), pad, c)
  {
    ghost var t, f, r := sink.text, Front(sign, x, pad, c), Reversed(buf[..cp]);
    EmitFront(sign, x, pad, c, sink);
    EmitReversed(buf, cp, sink);
    assert t + f + r == t + (f + r);
    if c.minus {
      sink.EmitTimes(' ', pad);
      assert t + (f + r) + Repeat(' ', pad) == t + (f + r + Repeat(' ', pad));
    } else {
      assert f + r + "" == f + r;
    }
  }

  /** The output before the digits. */
  method EmitFront(sign: string, x: string, pad: nat, c: Conversion, sink: Sink)
    requires sink.Valid()
    modifies sink`p, sink`length, sink`text, sink.buffer
    ensures sink.Valid() && sink.text == old(sink.text) + Front(sign, x, pad, c)
  {
    if !c.minus && !c.zero {
      sink.EmitTimes(' ', pad);
    }
    ghost var left := if !c.minus && !c.zero then Repeat(' ', pad) else "";
    assert sink.text == old(sink.text) + left;
    sink.EmitAll(sign);
    sink.EmitAll(x);
    assert sink.text == old(sink.text) + (left + sign + x);
    if c.zero {
      sink.EmitTimes('0', pad);
    }
  }

  method EmitReversed(buf: array<char>, count: nat, sink: Sink)
    requires sink.Valid() && count <= buf.Length && buf != sink.buffer
    modifies sink`p, sink`length, sink`text, sink.buffer
    ensures sink.Valid() && sink.text == old(sink.text) + Reversed(buf[..count])
  {
    var cp: nat := count;
    ghost var s := buf[..count];
    assert s[..count] == s;
    while cp > 0
      invariant cp <= count && sink.Valid() && buf[..count] == s
      invariant sink.text + Reversed(s[..cp]) == old(sink.text) + Reversed(s)
    {
      cp := cp - 1;
      assert s[..cp + 1] == s[..cp] + [s[cp]];
      ReversedAppend(s[..cp], [s[cp]]);
      assert Reversed([s[cp]]) == [s[cp]];
      sink.Emit(buf[cp]);
    }
    assert s[..0] == "" && sink.text + "" == sink.text;
  }

  // ---------- parse_conversion ----------

  /** A character of a format, or of the memory from a format on; behind what is given there is a NUL. */
  function CharAt(f: string, i: nat): char {
    if i < |f| then f[i] else '\0'
  }

  predicate IsFlag(ch: char) {
    ch == '-' || ch == '+' || ch == ' ' || ch == '#' || ch == '0' || ch == '\''
  }

  predicate IsDigit(ch: char) {
    '0' <= ch <= '9'
  }

  /** The end of the flag characters that start at `i`. */
  function FlagEnd(f: string, i: nat): (e: nat)
    ensures e >= i && !IsFlag(CharAt(f, e)) && (i <= |f| ==> e <= |f|)
    decreases |f| - i
  {
    if IsFlag(CharAt(f, i)) then FlagEnd(f, i + 1) else i
  }

  /** Whether the flag `ch` is among those that start at `i`. */
  function HasFlag(f: string, i: nat, ch: char): bool
    decreases |f| - i
  {
    IsFlag(CharAt(f, i)) && (CharAt(f, i) == ch || HasFlag(f, i + 1, ch))
  }

  /** The end of the digits that start at `i`. */
  function DigitEnd(f: string, i: nat): (e: nat)
    ensures e >= i
    decreases |f| - i
  {
    if IsDigit(CharAt(f, i)) then DigitEnd(f, i + 1) else i
  }

  /** The digits from `i` on read as a decimal numeral, behind the digits already read as `n`. */
  function NumberFrom(f: string, i: nat, n: nat): nat
    decreases |f| - i
  {
    if IsDigit(CharAt(f, i)) then NumberFrom(f, i + 1, n * 10 + (CharAt(f, i) - '0') as nat) else n
  }

  /** An argument: a word, a string, or the null string. */
  datatype Arg = Word(bits: nat) | Text(s: string) | Null

  /** The number that the low bits of a word, below `modulus`, stand for in two's complement. */
  function Signed(bits: nat, modulus: nat): int
    requires modulus > 0
  {
    var low := bits % modulus;
    if 2 * low < modulus then low else low - modulus
  }

  /** An argument of another kind, or one that is missing, is undefined in C; here it reads as 0. */
  function WordAt(args: seq<Arg>, k: nat): nat {
    if k < |args| && args[k].Word? then args[k].bits else 0
  }

  /** An int argument. */
  function ArgAt(args: seq<Arg>, k: nat): int {
    Signed(WordAt(args, k), TWO32)
  }

  /** The width or precision at `i`: a number, or the next argument for `*`. */
  function FieldAt(f: string, i: nat, args: seq<Arg>, k: nat): int {
    if CharAt(f, i) == '*' then ArgAt(args, k) else NumberFrom(f, i, 0)
  }

  function FieldEnd(f: string, i: nat): nat {
    if CharAt(f, i) == '*' then i + 1 else DigitEnd(f, i)
  }

  function FieldArgs(f: string, i: nat, k: nat): nat {
    if CharAt(f, i) == '*' then k + 1 else k
  }

  method ParseNumber(f: string, start: nat) returns (n: nat, i: nat)
    ensures n == NumberFrom(f, start, 0) && i == DigitEnd(f, start)
  {
    n, i := 0, start;
    while IsDigit(CharAt(f, i))
      invariant NumberFrom(f, i, n) == NumberFrom(f, start, 0) && DigitEnd(f, i) == DigitEnd(f, start)
      decreases |f| - i
    {
      n := n * 10 + (CharAt(f, i) - '0') as nat;
      i := i + 1;
    }
  }

  method ParseField(f: string, start: nat, args: seq<Arg>, k: nat) returns (v: int, i: nat, k': nat)
    ensures v == FieldAt(f, start, args, k) && i == FieldEnd(f, start) && k' == FieldArgs(f, start, k)
  {
    i, k' := start, k;
    if CharAt(f, i) == '*' {
      v, i, k' := ArgAt(args, k), i + 1, k + 1;
    } else {
      v, i := ParseNumber(f, i);
    }
  }

  function WithFlag(c: Conversion, ch: char): Conversion {
    match ch
    case '-' => c.(minus := true)
    case '+' => c.(plus := true)
    case ' ' => c.(space := true)
    case '#' => c.(pound := true)
    case '0' => c.(zero := true)
    case _ => c.(group := true)
  }

  function WithFlags(f: string, i: nat, c: Conversion): Conversion
    decreases |f| - i
  {
    if IsFlag(CharAt(f, i)) then WithFlags(f, i + 1, WithFlag(c, CharAt(f, i))) else c
  }

  /** The flag that the character `ch` stands for. */
  function Flag(c: Conversion, ch: char): bool {
    match ch
    case '-' => c.minus
    case '+' => c.plus
    case ' ' => c.space
    case '#' => c.pound
    case '0' => c.zero
    case _ => c.group
  }

  lemma WithFlagSets(c: Conversion, ch: char, x: char)
    requires IsFlag(ch) && IsFlag(x)
    ensures Flag(WithFlag(c, x), ch) == (Flag(c, ch) || x == ch)
    ensures WithFlag(c, x).width == c.width && WithFlag(c, x).precision == c.precision
  {
  }

  /** A flag is set exactly if it was, or if its character is there. */
  lemma {:induction false} FlagCollected(f: string, i: nat, c: Conversion, ch: char)
    requires IsFlag(ch)
    ensures Flag(WithFlags(f, i, c), ch) == (Flag(c, ch) || HasFlag(f, i, ch))
    ensures WithFlags(f, i, c).width == c.width && WithFlags(f, i, c).precision == c.precision
    decreases |f| - i
  {
    var x := CharAt(f, i);
    if IsFlag(x) {
      WithFlagSets(c, ch, x);
      FlagCollected(f, i + 1, WithFlag(c, x), ch);
    }
  }

  function NoFlags(): Conversion {
    Conversion(false, false, false, false, false, false, 0, -1)
  }

  function FlagsAt(f: string, i: nat): Conversion {
    Conversion(HasFlag(f, i, '-'), HasFlag(f, i, '+'), HasFlag(f, i, ' '),
               HasFlag(f, i, '#'), HasFlag(f, i, '0'), HasFlag(f, i, '\''), 0, -1)
  }

  lemma FlagsCollected(f: string, i: nat)
    ensures WithFlags(f, i, NoFlags()) == FlagsAt(f, i)
  {
    FlagCollected(f, i, NoFlags(), '-');
    FlagCollected(f, i, NoFlags(), '+');
    FlagCollected(f, i, NoFlags(), ' ');
    FlagCollected(f, i, NoFlags(), '#');
    FlagCollected(f, i, NoFlags(), '0');
    FlagCollected(f, i, NoFlags(), '\'');
  }

  /** The flag loop. */
  method ParseFlags(f: string, start: nat) returns (c: Conversion, i: nat)
    ensures i == FlagEnd(f, start) && c == FlagsAt(f, start)
  {
    FlagsCollected(f, start);
    c, i := NoFlags(), start;
    while IsFlag(CharAt(f, i))
      invariant FlagEnd(f, i) == FlagEnd(f, start) && WithFlags(f, i, c) == WithFlags(f, start, NoFlags())
      decreases |f| - i
    {
      c := WithFlag(c, CharAt(f, i));
      i := i + 1;
    }
  }

  /** Where the field width ends. */
  function WidthEnd(f: string, start: nat): nat {
    FieldEnd(f, FlagEnd(f, start))
  }

  function WidthArgs(f: string, start: nat, k: nat): nat {
    FieldArgs(f, FlagEnd(f, start), k)
  }

  /** The precision, -1 for none or a negative one. */
  function PrecisionOf(f: string, start: nat, args: seq<Arg>, k: nat): int {
    var w := WidthEnd(f, start);
    if CharAt(f, w) != '.' then -1 else Max(-1, FieldAt(f, w + 1, args, WidthArgs(f, start, k)))
  }

  function PrecisionEnd(f: string, start: nat): nat {
    var w := WidthEnd(f, start);
    if CharAt(f, w) != '.' then w else FieldEnd(f, w + 1)
  }

  function PrecisionArgs(f: string, start: nat, k: nat): nat {
    var w := WidthEnd(f, start);
    if CharAt(f, w) != '.' then WidthArgs(f, start, k) else FieldArgs(f, w + 1, WidthArgs(f, start, k))
  }

  /**
    The flags, width and precision that a conversion asks for. The flag `0` gives way to `-` and
    to a precision, the flag space to `+`, and a negative width means `-`; but that `-` comes too
    late for the `0`.
  */
  function ConversionAt(f: string, start: nat, args: seq<Arg>, k: nat): Conversion {
    var width := FieldAt(f, FlagEnd(f, start), args, k);
    var precision := PrecisionOf(f, start, args, k);
    Conversion(
      HasFlag(f, start, '-') || width < 0, HasFlag(f, start, '+'),
      HasFlag(f, start, ' ') && !HasFlag(f, start, '+'), HasFlag(f, start, '#'),
      HasFlag(f, start, '0') && !HasFlag(f, start, '-') && precision < 0, HasFlag(f, start, '\''),
      if width < 0 then -width else width, precision)
  }

  /** The length modifiers, by the number of bits that they leave of an argument. */
  datatype Length = Char | Short | Int | Long

  function LengthAt(f: string, i: nat): Length {
    match CharAt(f, i)
    case 'h' => if CharAt(f, i + 1) == 'h' then Char else Short
    case 'j' => Long
    case 'l' => Long
    case 't' => Long
    case 'z' => Long
    case _ => Int
  }

  function LengthEnd(f: string, i: nat): nat {
    match CharAt(f, i)
    case 'h' => if CharAt(f, i + 1) == 'h' then i + 2 else i + 1
    case 'l' => if CharAt(f, i + 1) == 'l' then i + 2 else i + 1
    case 'j' => i + 1
    case 't' => i + 1
    case 'z' => i + 1
    case _ => i
  }

  method ParseLength(f: string, start: nat) returns (length: Length, i: nat)
    ensures length == LengthAt(f, start) && i == LengthEnd(f, start)
  {
    length, i := Int, start + 1;
    match CharAt(f, start) {
      case 'h' =>
        length := Short;
        if CharAt(f, i) == 'h' {
          length, i := Char, i + 1;
        }
      case 'l' =>
        length := Long;
        if CharAt(f, i) == 'l' {
          i := i + 1;
        }
      case 'j' => length := Long;
      case 't' => length := Long;
      case 'z' => length := Long;
      case _ => i := i - 1;
    }
  }

  /** Where the conversion character stands. */
  function SpecifierAt(f: string, start: nat): nat {
    LengthEnd(f, PrecisionEnd(f, start))
  }

  lemma SpecifierBehind(f: string, start: nat)
    ensures SpecifierAt(f, start) >= start
  {
  }

  /**
    ZERO and MINUS come out together exactly for a negative `*` width with the flag `0`, without
    `-` and without precision.
  */
  lemma ZeroAndMinus(f: string, start: nat, args: seq<Arg>, k: nat)
    ensures var c := ConversionAt(f, start, args, k);
            c.zero && c.minus <==>
              && HasFlag(f, start, '0') && !HasFlag(f, start, '-')
              && CharAt(f, FlagEnd(f, start)) == '*' && ArgAt(args, k) < 0 && PrecisionOf(f, start, args, k) < 0
  {
  }

  /** parse_conversion. */
  method ParseConversion(f: string, start: nat, args: seq<Arg>, k: nat)
    returns (c: Conversion, length: Length, i: nat, k': nat)
    ensures c == ConversionAt(f, start, args, k) && length == LengthAt(f, PrecisionEnd(f, start))
    ensures i == SpecifierAt(f, start) && k' == PrecisionArgs(f, start, k)
  {
    var width;
    c, width, i, k' := ParseWidth(f, start, args, k);
    if CharAt(f, i) == '.' {
      var precision;
      precision, i, k' := ParseField(f, i + 1, args, k');
      c := c.(precision := if precision < 0 then -1 else precision);
    }
    if c.precision >= 0 {
      c := c.(zero := false);
    }
    length, i := ParseLength(f, i);
  }

  /** Flags and field width. */
  method ParseWidth(f: string, start: nat, args: seq<Arg>, k: nat)
    returns (c: Conversion, width: int, i: nat, k': nat)
    ensures width == FieldAt(f, FlagEnd(f, start), args, k) && i == WidthEnd(f, start) && k' == WidthArgs(f, start, k)
    ensures c == Conversion(
              HasFlag(f, start, '-') || width < 0, HasFlag(f, start, '+'),
              HasFlag(f, start, ' ') && !HasFlag(f, start, '+'), HasFlag(f, start, '#'),
              HasFlag(f, start, '0') && !HasFlag(f, start, '-'), HasFlag(f, start, '\''),
              if width < 0 then -width else width, -1)
  {
    c, i := ParseFlags(f, start);
    if c.minus {
      c := c.(zero := false);
    }
    if c.plus {
      c := c.(space := false);
    }
    width, i, k' := ParseField(f, i, args, k);
    c := c.(width := if width < 0 then -width else width);
    if width < 0 {
      c := c.(minus := true);
    }
  }
}
