/**
  The walk over a format, from its text and arguments to the characters put out, and vsnkprintf,
  which keeps as many of them as its buffer holds.
*/
module Kprintf {
  import opened Machine
  import opened Printf

  // ---------- What a format puts out ----------

  /** What a length modifier leaves of an argument, without and with a sign. */
  function UnsignedArg(w: nat, length: Length): (v: nat)
    ensures v < TWO64
  {
    match length
    case Char => w % 0x100
    case Short => w % 0x1_0000
    case Int => w % TWO32
    case Long => w % TWO64
  }

  function SignedArg(w: nat, length: Length): int {
    match length
    case Char => Signed(w, 0x100)
    case Short => Signed(w, 0x1_0000)
    case Int => Signed(w, TWO32)
    case Long => Signed(w, TWO64)
  }

  /** What format_string puts out. */
  function Padded(text: string, c: Conversion): string {
    if c.width <= |text| then text
    else if c.minus then text + Repeat(' ', c.width - |text|)
    else Repeat(' ', c.width - |text|) + text
  }

  /** A string conversion fills its field, whatever the flags, and keeps its text together. */
  lemma PaddedFills(text: string, c: Conversion)
    ensures |Padded(text, c)| == Max(c.width, |text|)
    ensures if c.minus then text <= Padded(text, c) else Padded(text, c)[|Padded(text, c)| - |text|..] == text
  {
    if !c.minus && c.width > |text| {
      assert Padded(text, c)[c.width - |text|..] == text;
    }
  }

  /** The characters before the first NUL. */
  function BeforeNul(s: string): string {
    if s == "" || s[0] == '\0' then "" else [s[0]] + BeforeNul(s[1..])
  }

  /** What strnlen leaves of a string with the precision as its bound; -1, as a size, is no bound. */
  function Clipped(s: string, precision: int): string {
    var t := BeforeNul(s);
    if precision < 0 || |t| <= precision then t else t[..precision]
  }

  /** It is the longest start of the string that has no NUL and is within the bound. */
  lemma {:induction false} BeforeNulIs(s: string)
    ensures BeforeNul(s) <= s && '\0' !in BeforeNul(s)
    ensures |BeforeNul(s)| < |s| ==> s[|BeforeNul(s)|] == '\0'
  {
    if s != "" && s[0] != '\0' {
      BeforeNulIs(s[1..]);
    }
  }

  /** A string argument; NULL has a text of its own. */
  function TextAt(args: seq<Arg>, k: nat): string {
    if k < |args| && args[k].Text? then args[k].s else "(null)"
  }

  predicate IsSigned(ch: char) {
    ch == 'd' || ch == 'i'
  }

  predicate IsUnsigned(ch: char) {
    ch == 'o' || ch == 'u' || ch == 'x' || ch == 'X'
  }

  function BaseFor(ch: char): Base {
    match ch case 'o' => Octal case 'x' => Hex case 'X' => UpperHex case _ => Decimal
  }

  predicate IsUnsupported(ch: char) {
    ch == 'f' || ch == 'e' || ch == 'E' || ch == 'g' || ch == 'G' || ch == 'n'
  }

  /** Pointers are written as with the flag # alone. */
  function PointerFlags(c: Conversion): Conversion {
    Conversion(false, false, false, true, false, false, c.width, c.precision)
  }

  function Apology(ch: char): string {
    "<<no %" + [ch] + if IsUnsupported(ch) then " in kernel>>" else " conversion>>"
  }

  function Magnitude(v: int): nat {
    if v < 0 then -v else v
  }

  /** What the conversion `ch` puts out for the argument `k`. */
  function Converted(ch: char, c: Conversion, length: Length, args: seq<Arg>, k: nat): string {
    var w := WordAt(args, k);
    if IsSigned(ch) then
      var v := SignedArg(w, length);
      Rendered(Magnitude(v), true, v < 0, Decimal, c)
    else if IsUnsigned(ch) then Rendered(UnsignedArg(w, length), false, false, BaseFor(ch), c)
    else if ch == 'c' then Padded([(w % 0x100) as char], c)
    else if ch == 's' then Padded(Clipped(TextAt(args, k), c.precision), c)
    else if ch == 'p' then Rendered(w % TWO64, false, false, Hex, PointerFlags(c))
    else Apology(ch)
  }

  /** Whether a conversion takes an argument. */
  predicate TakesArg(ch: char) {
    IsSigned(ch) || IsUnsigned(ch) || ch == 'c' || ch == 's' || ch == 'p'
  }

  /** What the format puts out at `i`: a character, a percent sign, or a conversion. */
  function Piece(f: string, i: nat, args: seq<Arg>, k: nat): string {
    if CharAt(f, i) != '%' then [CharAt(f, i)]
    else if CharAt(f, i + 1) == '%' then "%"
    else
      var j := SpecifierAt(f, i + 1);
      Converted(CharAt(f, j), ConversionAt(f, i + 1, args, k), LengthAt(f, PrecisionEnd(f, i + 1)),
                args, PrecisionArgs(f, i + 1, k))
  }

  /** Where the walk goes on. */
  function PieceEnd(f: string, i: nat): (e: nat)
    ensures e > i
  {
    if CharAt(f, i) != '%' then i + 1
    else if CharAt(f, i + 1) == '%' then i + 2
    else SpecifierBehind(f, i + 1); SpecifierAt(f, i + 1) + 1
  }

  function PieceArgs(f: string, i: nat, k: nat): nat {
    if CharAt(f, i) != '%' || CharAt(f, i + 1) == '%' then k
    else PrecisionArgs(f, i + 1, k) + if TakesArg(CharAt(f, SpecifierAt(f, i + 1))) then 1 else 0
  }

  /** All that the format puts out from `i` on. */
  function Output(f: string, i: nat, args: seq<Arg>, k: nat): string
    decreases |f| - i
  {
    if CharAt(f, i) == '\0' then ""
    else Piece(f, i, args, k) + Output(f, PieceEnd(f, i), args, PieceArgs(f, i, k))
  }

  /** A format without conversions is put out as it stands. */
  lemma {:induction false} PlainOutput(f: string, i: nat, args: seq<Arg>, k: nat)
    requires i <= |f| && forall j {:trigger f[j]} :: i <= j < |f| ==> f[j] != '%' && f[j] != '\0'
    ensures Output(f, i, args, k) == f[i..]
    decreases |f| - i
  {
    if i < |f| {
      PlainOutput(f, i + 1, args, k);
      assert f[i..] == [f[i]] + f[i + 1..];
    }
  }

  /** An integer conversion, read back, means its argument, cut to its length and with its sign. */
  lemma ConvertedReadsBack(ch: char, c: Conversion, length: Length, args: seq<Arg>, k: nat)
    requires IsSigned(ch) || IsUnsigned(ch)
    ensures Meaning(Converted(ch, c, length, args, k), if IsSigned(ch) then 10 else Radix(BaseFor(ch))) ==
            if IsSigned(ch) then SignedArg(WordAt(args, k), length) else UnsignedArg(WordAt(args, k), length)
  {
    var w := WordAt(args, k);
    if IsSigned(ch) {
      var v := SignedArg(w, length);
      RenderedReadsBack(Magnitude(v), true, v < 0, Decimal, c);
    } else {
      RenderedReadsBack(UnsignedArg(w, length), false, false, BaseFor(ch), c);
    }
  }

  // ---------- A format and what lies behind it ----------

  /** Memory from a format on: its characters, the NUL, and whatever lies behind. */
  function Memory(f: string, behind: string): string {
    f + ['\0'] + behind
  }

  predicate NoNul(f: string) {
    forall i {:trigger f[i]} :: 0 <= i < |f| ==> f[i] != '\0'
  }

  lemma SameChar(f: string, behind: string, i: nat)
    requires i <= |f|
    ensures CharAt(Memory(f, behind), i) == CharAt(f, i)
  {
  }

  lemma {:induction false} SameFlags(f: string, behind: string, i: nat, ch: char)
    requires i <= |f|
    ensures FlagEnd(Memory(f, behind), i) == FlagEnd(f, i) <= |f|
    ensures HasFlag(Memory(f, behind), i, ch) == HasFlag(f, i, ch)
    decreases |f| - i
  {
    SameChar(f, behind, i);
    if IsFlag(CharAt(f, i)) { SameFlags(f, behind, i + 1, ch); }
  }

  lemma {:induction false} SameNumber(f: string, behind: string, i: nat, n: nat)
    requires i <= |f|
    ensures DigitEnd(Memory(f, behind), i) == DigitEnd(f, i) <= |f|
    ensures NumberFrom(Memory(f, behind), i, n) == NumberFrom(f, i, n)
    decreases |f| - i
  {
    SameChar(f, behind, i);
    if IsDigit(CharAt(f, i)) { SameNumber(f, behind, i + 1, n * 10 + (CharAt(f, i) - '0') as nat); }
  }

  lemma SameField(f: string, behind: string, i: nat, args: seq<Arg>, k: nat)
    requires i <= |f|
    ensures var m := Memory(f, behind);
            && FieldEnd(m, i) == FieldEnd(f, i) <= |f| && FieldArgs(m, i, k) == FieldArgs(f, i, k)
            && FieldAt(m, i, args, k) == FieldAt(f, i, args, k)
  {
    SameChar(f, behind, i);
    SameNumber(f, behind, i, 0);
  }

  lemma SameWidth(f: string, behind: string, i: nat, args: seq<Arg>, k: nat)
    requires i <= |f|
    ensures var m := Memory(f, behind);
            && WidthEnd(m, i) == WidthEnd(f, i) <= |f| && WidthArgs(m, i, k) == WidthArgs(f, i, k)
            && FieldAt(m, FlagEnd(m, i), args, k) == FieldAt(f, FlagEnd(f, i), args, k)
  {
    SameFlags(f, behind, i, '0');
    SameField(f, behind, FlagEnd(f, i), args, k);
  }

  lemma SamePrecision(f: string, behind: string, i: nat, args: seq<Arg>, k: nat)
    requires i <= |f|
    ensures var m := Memory(f, behind);
            && PrecisionEnd(m, i) == PrecisionEnd(f, i) <= |f| && PrecisionArgs(m, i, k) == PrecisionArgs(f, i, k)
            && PrecisionOf(m, i, args, k) == PrecisionOf(f, i, args, k)
  {
    SameWidth(f, behind, i, args, k);
    var w := WidthEnd(f, i);
    SameChar(f, behind, w);
    if CharAt(f, w) == '.' { SameField(f, behind, w + 1, args, WidthArgs(f, i, k)); }
  }

  lemma SameConversion(f: string, behind: string, i: nat, args: seq<Arg>, k: nat)
    requires i <= |f|
    ensures ConversionAt(Memory(f, behind), i, args, k) == ConversionAt(f, i, args, k)
  {
    SameWidth(f, behind, i, args, k);
    SamePrecision(f, behind, i, args, k);
    SameFlags(f, behind, i, '-');
    SameFlags(f, behind, i, '+');
    SameFlags(f, behind, i, ' ');
    SameFlags(f, behind, i, '#');
    SameFlags(f, behind, i, '0');
    SameFlags(f, behind, i, '\'');
  }

  lemma SameLength(f: string, behind: string, i: nat)
    requires i <= |f|
    ensures var m := Memory(f, behind);
            LengthEnd(m, i) == LengthEnd(f, i) <= |f| && LengthAt(m, i) == LengthAt(f, i)
  {
    SameChar(f, behind, i);
    if i < |f| { SameChar(f, behind, i + 1); }
  }

  /** A piece that begins within the format is the same whatever lies behind, and ends at its NUL or one further. */
  lemma SamePiece(f: string, behind: string, i: nat, args: seq<Arg>, k: nat)
    requires i < |f| && NoNul(f)
    ensures var m := Memory(f, behind);
            && Piece(m, i, args, k) == Piece(f, i, args, k) && PieceArgs(m, i, k) == PieceArgs(f, i, k)
            && PieceEnd(m, i) == PieceEnd(f, i) <= |f| + 1
            && (PieceEnd(f, i) == |f| + 1 <==> CutAt(f, i))
  {
    SameChar(f, behind, i);
    SameChar(f, behind, i + 1);
    SameConversion(f, behind, i + 1, args, k);
    SamePrecision(f, behind, i + 1, args, k);
    SameLength(f, behind, PrecisionEnd(f, i + 1));
    SameChar(f, behind, SpecifierAt(f, i + 1));
  }

  /** The conversion at `i` has no conversion character: the format ends inside it. */
  predicate CutAt(f: string, i: nat) {
    CharAt(f, i) == '%' && CharAt(f, i + 1) != '%' && SpecifierAt(f, i + 1) >= |f|
  }

  /** The walk from `i` on comes to a conversion that the end of the format cuts off. */
  predicate Cut(f: string, i: nat)
    decreases |f| - i
  {
    CharAt(f, i) != '\0' && (CutAt(f, i) || Cut(f, PieceEnd(f, i)))
  }

  /** Where the walk stops. */
  function WalkEnd(f: string, i: nat): nat
    decreases |f| - i
  {
    if CharAt(f, i) == '\0' then i else WalkEnd(f, PieceEnd(f, i))
  }

  /** The next argument when the walk stops. */
  function WalkArgs(f: string, i: nat, k: nat): nat
    decreases |f| - i
  {
    if CharAt(f, i) == '\0' then k else WalkArgs(f, PieceEnd(f, i), PieceArgs(f, i, k))
  }

  /** One piece further, in the format and in memory: the same is put out. */
  lemma BothStep(f: string, behind: string, i: nat, args: seq<Arg>, k: nat) returns (p: string, j: nat, k': nat)
    requires i < |f| && NoNul(f)
    ensures j == PieceEnd(f, i) && k' == PieceArgs(f, i, k) && i < j <= |f| + 1 && (j == |f| + 1 <==> CutAt(f, i))
    ensures Output(f, i, args, k) == p + Output(f, j, args, k')
    ensures Output(Memory(f, behind), i, args, k) == p + Output(Memory(f, behind), j, args, k')
  {
    SameChar(f, behind, i);
    SamePiece(f, behind, i, args, k);
    p, j, k' := Piece(f, i, args, k), PieceEnd(f, i), PieceArgs(f, i, k);
  }

  lemma {:induction false} WalkEndIs(f: string, i: nat)
    requires i <= |f| && NoNul(f)
    ensures WalkEnd(f, i) == if Cut(f, i) then |f| + 1 else |f|
    decreases |f| - i
  {
    if i < |f| {
      SamePiece(f, "", i, [], 0);
      if !CutAt(f, i) { WalkEndIs(f, PieceEnd(f, i)); }
    }
  }

  /** What the walk from `i` on puts out of the memory behind the format. */
  function Beyond(f: string, behind: string, i: nat, args: seq<Arg>, k: nat): string {
    if Cut(f, i) then Output(Memory(f, behind), |f| + 1, args, WalkArgs(f, i, k)) else ""
  }

  lemma BeyondStep(f: string, behind: string, i: nat, args: seq<Arg>, k: nat, j: nat, k': nat)
    requires i < |f| && NoNul(f) && !CutAt(f, i) && j == PieceEnd(f, i) && k' == PieceArgs(f, i, k)
    ensures Beyond(f, behind, i, args, k) == Beyond(f, behind, j, args, k')
  {
    WalkStep(f, i, k);
  }

  lemma BeyondAtCut(f: string, behind: string, i: nat, args: seq<Arg>, k: nat, j: nat, k': nat)
    requires Cut(f, i) && WalkArgs(f, i, k) == k' && j == |f| + 1
    ensures Beyond(f, behind, i, args, k) == Output(Memory(f, behind), j, args, k')
  {
  }

  lemma CutWalk(f: string, i: nat, k: nat, k': nat)
    requires i < |f| && NoNul(f) && CutAt(f, i) && PieceEnd(f, i) == |f| + 1 && k' == PieceArgs(f, i, k)
    ensures Cut(f, i) && WalkArgs(f, i, k) == k'
  {
    WalkStep(f, i, k);
    assert WalkArgs(f, |f| + 1, k') == k';
  }

  lemma WalkStep(f: string, i: nat, k: nat)
    requires CharAt(f, i) != '\0'
    ensures WalkArgs(f, i, k) == WalkArgs(f, PieceEnd(f, i), PieceArgs(f, i, k))
    ensures Cut(f, i) <==> CutAt(f, i) || Cut(f, PieceEnd(f, i))
  {
  }

  lemma NothingMore(f: string, j: nat, args: seq<Arg>, k: nat)
    requires |f| <= j
    ensures Output(f, j, args, k) == ""
  {
  }

  lemma Regrouped(whole: string, p: string, x: string, y: string, part: string)
    requires whole == p + (x + y) && part == p + x
    ensures whole == part + y
  {
  }

  /** From `i` on memory puts out what the format does, and what the walk meets beyond it. */
  ghost predicate Continues(f: string, behind: string, i: nat, args: seq<Arg>, k: nat) {
    Output(Memory(f, behind), i, args, k) == Output(f, i, args, k) + Beyond(f, behind, i, args, k)
  }

  lemma ContinuesAtCut(f: string, behind: string, i: nat, args: seq<Arg>, k: nat)
    requires i < |f| && NoNul(f) && CutAt(f, i)
    ensures Continues(f, behind, i, args, k)
  {
    var p, j, k' := BothStep(f, behind, i, args, k);
    CutWalk(f, i, k, k');
    BeyondAtCut(f, behind, i, args, k, j, k');
    NothingMore(f, j, args, k');
    var rest := Beyond(f, behind, i, args, k);
    assert "" + rest == rest;
    Regrouped(Output(Memory(f, behind), i, args, k), p, "", rest, Output(f, i, args, k));
  }

  lemma ContinuesStep(f: string, behind: string, i: nat, args: seq<Arg>, k: nat)
    requires i < |f| && NoNul(f) && !CutAt(f, i)
    requires Continues(f, behind, PieceEnd(f, i), args, PieceArgs(f, i, k))
    ensures Continues(f, behind, i, args, k)
  {
    var p, j, k' := BothStep(f, behind, i, args, k);
    BeyondStep(f, behind, i, args, k, j, k');
    Regrouped(Output(Memory(f, behind), i, args, k), p, Output(f, j, args, k'), Beyond(f, behind, i, args, k),
              Output(f, i, args, k));
  }

  /**
    The walk over a format stops at its NUL if and only if no conversion is cut off (see WalkEndIs).
    Otherwise it steps over the NUL, and what lies behind is taken for the rest of the format.
  */
  lemma {:induction false} WalkPastEnd(f: string, behind: string, i: nat, args: seq<Arg>, k: nat)
    requires i <= |f| && NoNul(f)
    ensures Continues(f, behind, i, args, k)
    decreases |f| - i
  {
    if i == |f| {
      SameChar(f, behind, i);
    } else if CutAt(f, i) {
      ContinuesAtCut(f, behind, i, args, k);
    } else {
      SamePiece(f, behind, i, args, k);
      WalkPastEnd(f, behind, PieceEnd(f, i), args, PieceArgs(f, i, k));
      ContinuesStep(f, behind, i, args, k);
    }
  }

  /** The output depends on the format and its arguments alone if and only if no conversion is cut off. */
  lemma OutputOfFormatAlone(f: string, args: seq<Arg>)
    requires NoNul(f)
    ensures !Cut(f, 0) <==>
            forall behind {:trigger Memory(f, behind)} ::
              Output(Memory(f, behind), 0, args, 0) == Output(f, 0, args, 0)
  {
    forall behind ensures !Cut(f, 0) ==> Output(Memory(f, behind), 0, args, 0) == Output(f, 0, args, 0) {
      WalkPastEnd(f, behind, 0, args, 0);
    }
    if Cut(f, 0) {
      var m, n, k := Memory(f, "x"), |f| + 1, WalkArgs(f, 0, 0);
      WalkPastEnd(f, "x", 0, args, 0);
      assert CharAt(m, n) == 'x' && CharAt(m, n + 1) == '\0';
      assert Output(m, n + 1, args, k) == "";
      assert Output(m, n, args, k) == "x";
      assert Beyond(f, "x", 0, args, 0) == "x";
      assert |Output(m, 0, args, 0)| == |Output(f, 0, args, 0)| + 1;
    }
  }

  /** A lone percent sign is cut off: what lies behind its NUL is put out too. */
  lemma LonePercent(behind: string, args: seq<Arg>)
    ensures Cut("%", 0) && WalkEnd("%", 0) == 2
    ensures Output(Memory("%", behind), 0, args, 0) == Output("%", 0, args, 0) + Output(Memory("%", behind), 2, args, 0)
  {
    var f := "%";
    assert CharAt(f, 0) == '%' && CharAt(f, 1) == '\0';
    assert FlagEnd(f, 1) == 1 && DigitEnd(f, 1) == 1;
    assert SpecifierAt(f, 1) == 1;
    assert PieceEnd(f, 0) == 2 && PieceArgs(f, 0, 0) == 0;
    WalkEndIs(f, 0);
    WalkPastEnd(f, behind, 0, args, 0);
    CutWalk(f, 0, 0, 0);
    BeyondAtCut(f, behind, 0, args, 0, 2, 0);
  }

  // ---------- Putting it out ----------

  /** format_string. */
  method FormatString(text: string, c: Conversion, sink: Sink)
    requires sink.Valid()
    modifies sink`p, sink`length, sink`text, sink.buffer
    ensures sink.Valid() && sink.text == old(sink.text) + Padded(text, c)
  {
    if c.width > |text| && !c.minus {
      sink.EmitTimes(' ', c.width - |text|);
    }
    sink.EmitAll(text);
    if c.width > |text| && c.minus {
      sink.EmitTimes(' ', c.width - |text|);
    }
  }

  lemma MagnitudeFits(w: nat, length: Length)
    ensures Magnitude(SignedArg(w, length)) < TWO64
  {
  }

  /** The switch on the conversion character. */
  method Convert(ch: char, c: Conversion, length: Length, args: seq<Arg>, k: nat, sink: Sink)
    requires sink.Valid()
    modifies sink`p, sink`length, sink`text, sink.buffer
    ensures sink.Valid() && sink.text == old(sink.text) + Converted(ch, c, length, args, k)
  {
    var w := WordAt(args, k);
    if IsSigned(ch) {
      var v := SignedArg(w, length);
      MagnitudeFits(w, length);
      FormatInteger(Magnitude(v), true, v < 0, Decimal, c, sink);
    } else if IsUnsigned(ch) {
      FormatInteger(UnsignedArg(w, length), false, false, BaseFor(ch), c, sink);
    } else if ch == 'c' {
      FormatString([(w % 0x100) as char], c, sink);
    } else if ch == 's' {
      FormatString(Clipped(TextAt(args, k), c.precision), c, sink);
    } else if ch == 'p' {
      FormatInteger(w % TWO64, false, false, Hex, PointerFlags(c), sink);
    } else {
      sink.EmitAll(Apology(ch));
    }
  }

  /** One round of __vkprintf. */
  method PutPiece(f: string, i: nat, args: seq<Arg>, k: nat, sink: Sink) returns (i': nat, k': nat)
    requires sink.Valid()
    modifies sink`p, sink`length, sink`text, sink.buffer
    ensures sink.Valid() && sink.text == old(sink.text) + Piece(f, i, args, k)
    ensures i' == PieceEnd(f, i) && k' == PieceArgs(f, i, k)
  {
    if CharAt(f, i) != '%' {
      sink.Emit(CharAt(f, i));
      return i + 1, k;
    }
    if CharAt(f, i + 1) == '%' {
      sink.Emit('%');
      return i + 2, k;
    }
    var c, length;
    c, length, i', k' := ParseConversion(f, i + 1, args, k);
    var ch := CharAt(f, i');
    Convert(ch, c, length, args, k', sink);
    i', k' := i' + 1, if TakesArg(ch) then k' + 1 else k';
  }

  /** __vkprintf. */
  method Vkprintf(f: string, args: seq<Arg>, sink: Sink)
    requires sink.Valid()
    modifies sink`p, sink`length, sink`text, sink.buffer
    ensures sink.Valid() && sink.text == old(sink.text) + Output(f, 0, args, 0)
  {
    var i: nat, k: nat := 0, 0;
    while CharAt(f, i) != '\0'
      invariant sink.Valid() && sink.text + Output(f, i, args, k) == old(sink.text) + Output(f, 0, args, 0)
      decreases |f| - i
    {
      ghost var t, p, rest := sink.text, Piece(f, i, args, k), Output(f, PieceEnd(f, i), args, PieceArgs(f, i, k));
      assert t + (p + rest) == t + p + rest;
      i, k := PutPiece(f, i, args, k, sink);
    }
    assert sink.text + "" == sink.text;
  }

  /**
    vsnkprintf, for the memory `f` from the format on: the buffer holds the first size - 1
    characters of the output and a NUL, nothing else of it is touched, and the length of the output
    is returned.
  */
  method Vsnkprintf(buffer: array<char>, size: nat, f: string, args: seq<Arg>) returns (n: nat)
    requires size <= buffer.Length
    modifies buffer
    ensures n == |Output(f, 0, args, 0)|
    ensures Bounded(buffer[..], old(buffer[..]), size, Output(f, 0, args, 0))
  {
    var sink := new Sink(buffer, size);
    Vkprintf(f, args, sink);
    assert "" + Output(f, 0, args, 0) == Output(f, 0, args, 0);
    n := sink.Finish();
  }
}
