/** Reading back what printf writes: the syntax of a directive, the value of every number conversion,
    and the place of a text in its field. */
module PrintfText {
  import opened CArith
  import opened CText
  import opened NumberText
  import opened FormatNumber
  import opened Printf
  import Scan

  // ----- the syntax of a directive -----

  const FLAGS := "-0+ #"

  /** Flags and the characters that add to them, in any order and number. */
  function Collect(f: Flags, t: string): Flags {
    Flags(f.left || '-' in t, f.zero || '0' in t, f.plus || '+' in t, f.space || ' ' in t, f.alternate || '#' in t)
  }

  lemma CollectFirst(f: Flags, c: char, t: string)
    requires c in FLAGS
    ensures IsFlag(c) && Collect(AddFlag(f, c), t) == Collect(f, [c] + t)
  {
    assert forall x :: x in [c] + t <==> x == c || x in t;
  }

  lemma OtherThanFlag(c: char)
    requires c !in FLAGS
    ensures !IsFlag(c)
  {
    assert FLAGS[0] == '-' && FLAGS[1] == '0' && FLAGS[2] == '+' && FLAGS[3] == ' ' && FLAGS[4] == '#';
  }

  lemma {:induction false} FlagsParse(s: string, i: nat, j: nat, f: Flags)
    requires i <= j <= |s| && (forall k :: i <= k < j ==> s[k] in FLAGS) && (j == |s| || s[j] !in FLAGS)
    ensures FlagsEnd(s, i) == j
    ensures FlagsFrom(s, i, f) == Collect(f, s[i..j])
    decreases j - i
  {
    hide AddFlag, Collect, IsFlag;
    if i < j {
      CollectFirst(f, s[i], s[i + 1..j]);
      FlagsParse(s, i + 1, j, AddFlag(f, s[i]));
      assert s[i..j] == [s[i]] + s[i + 1..j];
    } else {
      CollectNone(f, s[i..j]);
      if j < |s| {
        OtherThanFlag(s[j]);
      }
    }
  }

  lemma CollectNone(f: Flags, t: string)
    requires t == ""
    ensures Collect(f, t) == f
  {
  }

  /** A run of digits is read from left to right as the number it denotes. */
  lemma {:induction false} NumberParse(s: string, i: nat, j: nat, before: string)
    requires i <= j <= |s| && (forall k :: i <= k < j ==> IsDigit(s[k])) && (j == |s| || !IsDigit(s[j]))
    requires Scan.AllDigits(before, 10)
    ensures NumberEnd(s, i) == j
    ensures Scan.AllDigits(before + s[i..j], 10)
    ensures NumberFrom(s, i, Scan.Value(before, 10)) == Scan.Value(before + s[i..j], 10)
    decreases j - i
  {
    hide Scan.Value;
    if i < j {
      Scan.ValueAppend(before, s[i], 10);
      NumberParse(s, i + 1, j, before + [s[i]]);
      assert before + s[i..j] == before + [s[i]] + s[i + 1..j];
    } else {
      assert before + s[i..j] == before;
    }
  }

  /** A width or a precision: left out, a number, or a star. */
  datatype Size = Omitted | Number(n: nat) | Star

  function SizeText(z: Size): string {
    match z
    case Omitted => ""
    case Number(n) => Digits(n, 10, false)
    case Star => "*"
  }

  function SizeArgs(z: Size): nat { if z.Star? then 1 else 0 }

  function SizeValue(z: Size, a: nat, args: Args): int {
    match z
    case Omitted => 0
    case Number(n) => n
    case Star => AsInt(args.slot(a))
  }

  lemma DecimalDigits(n: nat)
    ensures forall k :: 0 <= k < |Digits(n, 10, false)| ==> IsDigit(Digits(n, 10, false)[k])
    ensures n > 0 ==> Digits(n, 10, false)[0] != '0'
    decreases n
  {
    if n >= 10 {
      QuotientShrinks(n, 10);
      DecimalDigits(n / 10);
    }
  }

  lemma AmountParses(s: string, i: nat, z: Size, a: nat, args: Args)
    requires var j := i + |SizeText(z)|;
             && j <= |s| && s[i..j] == SizeText(z)
             && (z.Star? || j == |s| || (!IsDigit(s[j]) && (z.Omitted? ==> s[j] != '*')))
    ensures AmountAt(s, i, a, args) == Amount(SizeValue(z, a, args), i + |SizeText(z)|, a + SizeArgs(z))
  {
    hide Digits, NumberEnd, NumberFrom, Scan.Value;
    var j := i + |SizeText(z)|;
    assert forall k :: i <= k < j ==> s[k] == SizeText(z)[k - i];
    match z {
      case Star =>
      case Omitted =>
        Scan.EmptyValue(10);
        NumberParse(s, i, j, "");
        assert "" + s[i..j] == "";
      case Number(n) =>
        DecimalDigits(n);
        Scan.EmptyValue(10);
        NumberParse(s, i, j, "");
        assert "" + s[i..j] == Digits(n, 10, false);
        Scan.ValueOfDigits(n, 10, false);
    }
  }

  /** A directive as it is written between the percent sign and the conversion letter. */
  datatype Syntax = Syntax(flags: string, width: Size, precision: Option<Size>, longs: nat)
  {
    predicate Valid() {
      && (forall k :: 0 <= k < |flags| ==> flags[k] in FLAGS)
      && (width.Number? ==> width.n > 0) && longs <= 2
    }
  }

  function PrecisionText(p: Option<Size>): string { if p.Some? then "." + SizeText(p.value) else "" }

  function LongText(longs: nat): string
    requires longs <= 2
  {
    if longs == 0 then "" else if longs == 1 then "l" else "ll"
  }

  function Spell(x: Syntax): string
    requires x.Valid()
  {
    x.flags + SizeText(x.width) + PrecisionText(x.precision) + LongText(x.longs)
  }

  /** What it means: a star takes the next argument, a negative width is the - flag, the - flag
      overrides the 0 flag, and a negative precision is none. */
  function Meaning(x: Syntax, end: nat, a: nat, args: Args): Directive {
    var w := SizeValue(x.width, a, args);
    var b := a + SizeArgs(x.width);
    var p := if x.precision.Some? then SizeValue(x.precision.value, b, args) else -1;
    var left := '-' in x.flags || w < 0;
    Directive(Flags(left, '0' in x.flags && !left, '+' in x.flags, ' ' in x.flags, '#' in x.flags),
              if w < 0 then -w else w, p >= 0, if p >= 0 then p else 0, x.longs > 0, end,
              b + if x.precision.Some? then SizeArgs(x.precision.value) else 0)
  }

  /** A character that ends a directive. */
  predicate IsLetter(c: char) { c !in FLAGS && !IsDigit(c) && c != '*' && c != '.' && c != 'l' }

  lemma SizeStart(z: Size)
    ensures z.Star? ==> SizeText(z) == "*"
    ensures z.Number? ==> SizeText(z) != "" && IsDigit(SizeText(z)[0]) && (z.n > 0 ==> SizeText(z)[0] != '0')
    ensures SizeText(z) == "" <==> z.Omitted?
  {
    if z.Number? {
      DecimalDigits(z.n);
    }
  }

  /** The directive is parsed as it was written. */
  lemma DirectiveParses(s: string, i: nat, x: Syntax, a: nat, args: Args)
    requires x.Valid() && i + |Spell(x)| < |s| && s[i..i + |Spell(x)|] == Spell(x) && IsLetter(s[i + |Spell(x)|])
    ensures DirectiveAt(s, i, a, args) == Meaning(x, i + |Spell(x)|, a, args)
  {
    hide FlagsFrom, FlagsEnd, AmountAt, SizeText, PrecisionText, SizeValue, SizeArgs, Spell, IsLetter;
    PartsParse(s, i, x, a, args);
  }

  lemma PartsParse(s: string, i: nat, x: Syntax, a: nat, args: Args)
    requires x.Valid() && i + |Spell(x)| < |s| && s[i..i + |Spell(x)|] == Spell(x) && IsLetter(s[i + |Spell(x)|])
    ensures var i1 := i + |x.flags|;
            var i2 := i1 + |SizeText(x.width)|;
            var i3 := i2 + |PrecisionText(x.precision)|;
            var b := a + SizeArgs(x.width);
            && i3 + x.longs == i + |Spell(x)| < |s|
            && FlagsEnd(s, i) == i1 && FlagsFrom(s, i, Flags(false, false, false, false, false))
               == Flags('-' in x.flags, '0' in x.flags, '+' in x.flags, ' ' in x.flags, '#' in x.flags)
            && AmountAt(s, i1, a, args) == Amount(SizeValue(x.width, a, args), i2, b)
            && (s[i2] == '.' <==> x.precision.Some?)
            && (if x.precision.Some? then
                  var z := x.precision.value;
                  AmountAt(s, i2 + 1, b, args) == Amount(SizeValue(z, b, args), i3, b + SizeArgs(z))
                else i2 == i3)
            && (s[i3] == 'l' <==> x.longs > 0) && (x.longs > 0 ==> (s[i3 + 1] == 'l' <==> x.longs == 2))
  {
    hide FlagsFrom, FlagsEnd, AmountAt, SizeText, PrecisionText, SizeValue, SizeArgs, Spell, IsLetter, FLAGS, IsDigit;
    Slices(s, i, x);
    Boundaries(s, i, x);
    FlagsPart(s, i, x);
    AmountParses(s, i + |x.flags|, x.width, a, args);
    if x.precision.Some? {
      AmountParses(s, i + |x.flags| + |SizeText(x.width)| + 1, x.precision.value, a + SizeArgs(x.width), args);
    }
  }

  lemma FlagsPart(s: string, i: nat, x: Syntax)
    requires i + |x.flags| < |s| && s[i..i + |x.flags|] == x.flags && s[i + |x.flags|] !in FLAGS
    requires forall k :: i <= k < i + |x.flags| ==> s[k] in FLAGS
    ensures FlagsEnd(s, i) == i + |x.flags|
    ensures FlagsFrom(s, i, Flags(false, false, false, false, false))
         == Flags('-' in x.flags, '0' in x.flags, '+' in x.flags, ' ' in x.flags, '#' in x.flags)
  {
    hide FlagsFrom, FlagsEnd, FLAGS;
    FlagsParse(s, i, i + |x.flags|, Flags(false, false, false, false, false));
  }

  /** What follows each part cannot continue it. */
  lemma Boundaries(s: string, i: nat, x: Syntax)
    requires x.Valid() && i + |Spell(x)| < |s| && s[i..i + |Spell(x)|] == Spell(x) && IsLetter(s[i + |Spell(x)|])
    ensures var i1 := i + |x.flags|;
            var i2 := i1 + |SizeText(x.width)|;
            var i3 := i2 + |PrecisionText(x.precision)|;
            && i3 + x.longs < |s| && s[i1] !in FLAGS
            && !IsDigit(s[i2]) && s[i2] != '*' && !IsDigit(s[i3]) && s[i3] != '*'
            && (x.precision.None? ==> s[i2] != '.') && (x.longs == 0 ==> s[i3] != 'l')
            && s[i3 + x.longs] != 'l'
  {
    hide SizeText, PrecisionText, Spell, FLAGS;
    Slices(s, i, x);
    SizeStart(x.width);
    var i1 := i + |x.flags|;
    var i2 := i1 + |SizeText(x.width)|;
    var i3 := i2 + |PrecisionText(x.precision)|;
    assert s[i3] == if x.longs > 0 then 'l' else s[i + |Spell(x)|];
    assert s[i2] == if x.precision.Some? then '.' else s[i3];
    if x.width.Omitted? {
      assert s[i1] == s[i2];
    } else {
      assert s[i1] == s[i1..i2][0];
      assert s[i1] == SizeText(x.width)[0];
      assert x.width.Star? ==> s[i1] == '*';
      assert x.width.Number? ==> '1' <= s[i1] <= '9';
    }
    NoFlag(s[i1]);
  }

  lemma NoFlag(c: char)
    requires c == '*' || '1' <= c <= '9' || c == '.' || c == 'l' || IsLetter(c)
    ensures c !in FLAGS
  {
    forall k | 0 <= k < |FLAGS|
      ensures FLAGS[k] != c
    {
    }
  }

  /** Where the parts of a directive stand. */
  lemma Slices(s: string, i: nat, x: Syntax)
    requires x.Valid() && i + |Spell(x)| < |s| && s[i..i + |Spell(x)|] == Spell(x)
    ensures var i1 := i + |x.flags|;
            var i2 := i1 + |SizeText(x.width)|;
            var i3 := i2 + |PrecisionText(x.precision)|;
            && i3 + x.longs == i + |Spell(x)|
            && s[i..i1] == x.flags && s[i1..i2] == SizeText(x.width)
            && (forall k :: i <= k < i1 ==> s[k] in FLAGS)
            && (if x.precision.Some? then
                  && i3 == i2 + 1 + |SizeText(x.precision.value)|
                  && s[i2] == '.' && s[i2 + 1..i3] == SizeText(x.precision.value)
                else i2 == i3)
            && (forall k :: i3 <= k < i3 + x.longs ==> s[k] == 'l')
  {
    hide SizeText;
    var f, w, p, l := x.flags, SizeText(x.width), PrecisionText(x.precision), LongText(x.longs);
    assert Spell(x) == f + w + p + l;
    hide Spell;
    Cut(s, i, f, w, p, l);
    var i1 := i + |f|;
    var i2 := i1 + |w|;
    var i3 := i2 + |p|;
    CharsOf(s, i, i1, f);
    CharsOf(s, i3, i3 + |l|, l);
    if x.precision.Some? {
      CharsOf(s, i2, i3, p);
      assert s[i2 + 1..i3] == s[i2..i3][1..];
    }
  }

  lemma CharsOf(s: string, i: nat, j: nat, t: string)
    requires i <= j <= |s| && s[i..j] == t
    ensures |t| == j - i && forall k :: i <= k < j ==> s[k] == t[k - i]
  {
    assert forall k :: i <= k < j ==> s[k] == s[i..j][k - i];
  }

  lemma Cut(s: string, i: nat, f: string, w: string, p: string, l: string)
    requires i + |f + w + p + l| <= |s| && s[i..i + |f + w + p + l|] == f + w + p + l
    ensures var i1, i2, i3 := i + |f|, i + |f| + |w|, i + |f| + |w| + |p|;
            s[i..i1] == f && s[i1..i2] == w && s[i2..i3] == p && s[i3..i3 + |l|] == l
  {
    var t := f + w + p + l;
    var a, b, c := |f|, |f| + |w|, |f| + |w| + |p|;
    assert t[..a] == f && t[a..b] == w && t[b..c] == p && t[c..] == l;
    SliceOf(s, i, t, 0, a);
    SliceOf(s, i, t, a, b);
    SliceOf(s, i, t, b, c);
    SliceOf(s, i, t, c, |t|);
  }

  lemma SliceOf(s: string, i: nat, t: string, u: nat, v: nat)
    requires i + |t| <= |s| && s[i..i + |t|] == t && u <= v <= |t|
    ensures s[i + u..i + v] == t[u..v]
  {
    forall k | 0 <= k < v - u
      ensures s[i + u..i + v][k] == t[u..v][k]
    {
      assert s[i..i + |t|][u + k] == s[i + (u + k)];
    }
  }

  // ----- the number conversions -----

  predicate IsSigned(c: char) { c == 'd' || c == 'i' }

  predicate IsNumeric(c: char) { IsSigned(c) || c == 'u' || c == 'o' || c == 'x' || c == 'X' || c == 'p' }

  function BaseOf(c: char): (b: nat)
    ensures b == 8 || b == 10 || b == 16
  {
    match c
    case 'o' => 8
    case 'x' => 16
    case 'X' => 16
    case 'p' => 16
    case _ => 10
  }

  /** How many values the type of the argument has. */
  function Modulus(c: char, d: Directive): int { if d.long || c == 'p' then UINT64_LIMIT else 0x1_0000_0000 }

  /** The value of an argument word as the type that letter and length name. */
  predicate IsValue(v: int, c: char, d: Directive, word: int) {
    var m := Modulus(c, d);
    && (v - word) % m == 0
    && if IsSigned(c) then -m / 2 <= v < m / 2 else 0 <= v < m
  }

  function SignFor(v: int, c: char, d: Directive): string {
    if v < 0 then "-"
    else if IsSigned(c) && d.flags.plus then "+"
    else if IsSigned(c) && d.flags.space then " "
    else ""
  }

  function PrefixFor(v: int, c: char, d: Directive): string {
    if c == 'p' then "0x"
    else if !d.flags.alternate || v == 0 then ""
    else if c == 'o' then "0"
    else if c == 'x' then "0x"
    else if c == 'X' then "0X"
    else ""
  }

  /** No digit at all for zero with precision zero. */
  function DigitsFor(v: int, c: char, d: Directive): string {
    if v == 0 && d.hasPrecision && d.precision == 0 then ""
    else Digits(Magnitude(v), BaseOf(c), c == 'X')
  }

  /** A number in its field: blanks, sign, prefix, zeros, digits, blanks. */
  datatype Shape = Shape(before: nat, sign: string, prefix: string, zeros: nat, digits: string, after: nat)
  {
    function Text(): string {
      Repeat(' ', before) + (sign + prefix + Repeat('0', zeros) + digits) + Repeat(' ', after)
    }
  }

  lemma DivisionOf(q: int, m: int)
    requires m > 0
    ensures q * m % m == 0
  {
    SameQuotient(q * m, m, q, q * m / m);
  }

  /** The words are read modulo 2^32 or 2^64 into the range of their type. */
  lemma ValueOfWord(c: char, d: Directive, word: int) returns (v: int)
    requires IsNumeric(c)
    ensures IsValue(v, c, d, word)
    ensures v == if IsSigned(c) then Signed(d, word) else if c == 'p' then AsUnsignedLong(word) else Unsigned(d, word)
  {
    var m := Modulus(c, d);
    if IsSigned(c) {
      v := Signed(d, word);
      var h := m / 2;
      assert v == (word + h) % m - h;
      assert v - word == -((word + h) / m) * m;
      DivisionOf(-((word + h) / m), m);
    } else {
      v := if c == 'p' then AsUnsignedLong(word) else Unsigned(d, word);
      assert v == word % m;
      assert v - word == -(word / m) * m;
      DivisionOf(-(word / m), m);
    }
  }

  function SpecFor(v: int, c: char, d: Directive): Spec {
    NumberSpec(d, BaseOf(c), c == 'X', IsSigned(c), PrefixFor(v, c, d))
  }

  lemma ConversionIsField(c: char, d: Directive, word: int, args: Args) returns (v: int)
    requires IsNumeric(c) && Printable(d)
    ensures IsValue(v, c, d, word)
    ensures Conversion(c, d, word, args) == NumberField(Magnitude(v), v < 0, SpecFor(v, c, d))
  {
    hide NumberField, Signed, Unsigned, AsUnsignedLong, IsValue;
    v := ValueOfWord(c, d, word);
    ValueRange(v, c, d, word);
  }

  lemma ValueRange(v: int, c: char, d: Directive, word: int)
    requires IsValue(v, c, d, word)
    ensures !IsSigned(c) ==> v >= 0
    ensures Magnitude(v) < UINT64_LIMIT
  {
  }

  /** What a number looks like in its field, for every letter, flag, width and precision. */
  predicate Fits(h: Shape, v: int, c: char, d: Directive) {
    && h.sign == SignFor(v, c, d) && h.prefix == PrefixFor(v, c, d) && h.digits == DigitsFor(v, c, d)
    && |h.Text()| == Max(d.width, |h.sign| + |h.prefix| + Max(if d.hasPrecision then d.precision else 0, |h.digits|))
    && (if d.flags.left then h.before == 0 else h.after == 0)
    && if d.hasPrecision then h.zeros == Max(0, d.precision - |h.digits|)
       else if d.flags.zero && !d.flags.left then h.before == 0
       else h.zeros == 0
  }

  /** Every number conversion prints the value of its word in that shape. */
  lemma NumberShape(c: char, d: Directive, word: int, args: Args) returns (v: int, h: Shape)
    requires IsNumeric(c) && Printable(d)
    ensures IsValue(v, c, d, word) && Fits(h, v, c, d) && Conversion(c, d, word, args) == h.Text()
  {
    hide Conversion, IsValue;
    v := ConversionIsField(c, d, word, args);
    ValueRange(v, c, d, word);
    h := FieldShape(v, c, d);
  }

  lemma FieldShape(v: int, c: char, d: Directive) returns (h: Shape)
    requires Printable(d) && (!IsSigned(c) ==> v >= 0)
    ensures Fits(h, v, c, d) && NumberField(Magnitude(v), v < 0, SpecFor(v, c, d)) == h.Text()
  {
    hide Repeat, Digits, Body;
    var n, negative, f := Magnitude(v), v < 0, SpecFor(v, c, d);
    var pad, zeros := PadCount(n, negative, f), ZeroCount(n, negative, f);
    FieldLength(n, negative, f);
    BodyLength(n, negative, f);
    BodyParts(n, negative, f);
    h := Shape(if f.leftAlign then 0 else pad, SignText(negative, f), f.prefix, zeros, DigitText(n, f),
               if f.leftAlign then pad else 0);
    NoBlank();
    var body := Body(n, negative, f);
    assert "" + body + Repeat(' ', pad) == body + Repeat(' ', pad);
    assert Repeat(' ', pad) + body + "" == Repeat(' ', pad) + body;
  }

  lemma NoBlank()
    ensures Repeat(' ', 0) == ""
  {
  }

  // ----- the scanner reads every number back -----

  /** Nothing that a number of any base could go on with. */
  predicate Separates(tail: string) {
    tail == "" || (!Scan.IsDigitIn(tail[0], 16) && tail[0] != 'x' && tail[0] != 'X')
  }

  lemma FitsWidth(n: nat, negative: bool, f: Spec, width: int)
    requires f.Valid()
    requires |NumberField(n, negative, f)| <= if width > 0 then width else INT_MAX
    ensures |Scan.VisibleSign(negative, f)| + |Scan.HexPrefix(f)| + |Scan.Block(n, negative, f)|
         <= if width > 0 then width else INT_MAX
  {
    hide NumberField, Scan.Block, Scan.VisibleSign, Scan.HexPrefix, Scan.After;
    var lead := Scan.FieldSplit(n, negative, f, "");
    assert NumberField(n, negative, f) + "" == NumberField(n, negative, f);
  }

  lemma ReadsBackEasily(n: nat, negative: bool, f: Spec, tail: string, width: int)
    requires f.Valid() && Separates(tail)
    requires |NumberField(n, negative, f)| <= if width > 0 then width else INT_MAX
    ensures Scan.ReadsBack(n, negative, f, tail, width)
  {
    hide NumberField, Scan.Block, Scan.VisibleSign, Scan.HexPrefix, PadCount;
    FitsWidth(n, negative, f, width);
  }

  /** What is printed for a word, with any letter, flags, width and precision that leave a digit, is
      read back in the base of the letter as the value of the word, if the scan width takes the field
      and no digit follows it. */
  lemma NumberReadsBack(c: char, d: Directive, word: int, args: Args, tail: string, width: int)
    returns (v: int, after: nat)
    requires IsNumeric(c) && Printable(d) && Separates(tail)
    requires |Conversion(c, d, word, args)| <= if width > 0 then width else INT_MAX
    ensures IsValue(v, c, d, word)
    ensures v != 0 || !d.hasPrecision || d.precision != 0 ==>
              var s := Conversion(c, d, word, args) + tail;
              && |tail| <= after <= |s|
              && Scan.ScanField(s, width, BaseOf(c), true) == Scan.Parsed(Magnitude(v), v < 0, |s| - after)
              && forall k :: |s| - after <= k < |s| - |tail| ==> s[k] == ' '
  {
    hide Conversion, IsValue, NumberField, Scan.ScanField, Scan.ReadsBack;
    v := ConversionIsField(c, d, word, args);
    ValueRange(v, c, d, word);
    var n, f := Magnitude(v), SpecFor(v, c, d);
    after := |Scan.After(n, v < 0, f, tail)|;
    if v != 0 || !d.hasPrecision || d.precision != 0 {
      HasDigits(n, f);
      ReadsBackEasily(n, v < 0, f, tail, width);
      Scan.ScanUndoesFormat(n, v < 0, f, tail, width, true);
      hide Scan.PrefixFits, DigitText;
      BehindDigits(n, v < 0, f, tail);
    }
  }

  /** What stands between the digits and the tail is blank. */
  lemma BehindDigits(n: nat, negative: bool, f: Spec, tail: string)
    requires f.Valid()
    ensures var s, after := NumberField(n, negative, f) + tail, |Scan.After(n, negative, f, tail)|;
            |tail| <= after <= |s| && forall k :: |s| - after <= k < |s| - |tail| ==> s[k] == ' '
  {
    hide Body, PadCount;
  }

  // ----- the text conversions -----

  /** A text in a field: as wide as text and width require, the text on the side the - flag says, and
      blanks on the other. */
  predicate Holds(field: string, text: string, width: int, left: bool) {
    && |field| == Max(width, |text|)
    && if left then field[..|text|] == text && forall k :: |text| <= k < |field| ==> field[k] == ' '
       else field[|field| - |text|..] == text && forall k :: 0 <= k < |field| - |text| ==> field[k] == ' '
  }

  lemma PaddedHolds(text: string, width: int, left: bool)
    ensures Holds(Padded(text, width, left), text, width, left)
  {
  }

  /** %s shows the string, or as many of its characters as the precision allows, and a note for a null
      pointer; %c shows one character. */
  lemma TextShape(d: Directive, word: int, args: Args)
    requires Printable(d)
    ensures var str := if word == 0 then "(null)" else args.text(word);
            var n := if d.hasPrecision then Min(d.precision, |str|) else |str|;
            Holds(Conversion('s', d, word, args), str[..n], d.width, d.flags.left)
    ensures Holds(Conversion('c', d, word, args), [(word % 256) as char], d.width, d.flags.left)
  {
    hide Padded, Holds;
    var str := if word == 0 then "(null)" else args.text(word);
    assert str[..|str|] == str;
    PaddedHolds(TextOf(d, word, args), d.width, d.flags.left);
    PaddedHolds([(AsInt(word) % 256) as char], d.width, d.flags.left);
    LowByte(word);
  }

  lemma LowByte(word: int)
    ensures AsInt(word) % 256 == word % 256
  {
    var q := (word + 0x8000_0000) / 0x1_0000_0000;
    assert AsInt(word) == word - q * 0x1_0000_0000;
    assert word == 256 * (word / 256) + word % 256;
    SameQuotient(AsInt(word), 256, AsInt(word) / 256, word / 256 - q * 0x100_0000);
  }

  // ----- whole formats -----

  /** The letters that take an argument. */
  const ARGUMENT_LETTERS := "diuoxXpsc"

  lemma ArgumentLetters(c: char)
    ensures TakesArgument(c) <==> c in ARGUMENT_LETTERS
  {
    assert ARGUMENT_LETTERS == ['d', 'i', 'u', 'o', 'x', 'X', 'p', 's', 'c'];
  }

  /** A directive within a format prints its conversion of the next argument, and the rest follows with
      the arguments after it. */
  lemma DirectiveRenders(s: string, i: nat, x: Syntax, a: nat, args: Args)
    requires i < |s| && s[i] == '%' && x.Valid()
    requires i + 1 + |Spell(x)| < |s| && s[i + 1..i + 1 + |Spell(x)|] == Spell(x) && IsLetter(s[i + 1 + |Spell(x)|])
    ensures var end := i + 1 + |Spell(x)|;
            var c, d := s[end], Meaning(x, end, a, args);
            var next := d.used + if c in ARGUMENT_LETTERS then 1 else 0;
            && (WellFormed(s, i, a, args) <==> Printable(d) && WellFormed(s, end + 1, next, args))
            && (WellFormed(s, i, a, args) ==>
                  Render(s, i, a, args) == Conversion(c, d, args.slot(d.used), args) + Render(s, end + 1, next, args))
  {
    hide Conversion, Spell, Meaning, DirectiveAt, IsLetter, TakesArgument;
    DirectiveParses(s, i + 1, x, a, args);
    MeaningEnds(x, i + 1 + |Spell(x)|, a, args);
    ArgumentLetters(s[i + 1 + |Spell(x)|]);
  }

  lemma MeaningEnds(x: Syntax, end: nat, a: nat, args: Args)
    ensures Meaning(x, end, a, args).end == end
  {
  }

  /** One directive on its own: it is well formed exactly when width and precision are `int`s, and
      prints exactly its conversion. */
  lemma OneDirective(x: Syntax, c: char, args: Args)
    requires x.Valid() && IsLetter(c)
    ensures var s, d := "%" + Spell(x) + [c], Meaning(x, 1 + |Spell(x)|, 0, args);
            && (WellFormed(s, 0, 0, args) <==> Printable(d))
            && (Printable(d) ==> Render(s, 0, 0, args) == Conversion(c, d, args.slot(d.used), args))
  {
    hide Conversion, Spell, Meaning, IsLetter, WellFormed, Render;
    var s, end := "%" + Spell(x) + [c], 1 + |Spell(x)|;
    var d := Meaning(x, end, 0, args);
    assert s[1..end] == Spell(x) && s[end] == c && end + 1 == |s|;
    DirectiveRenders(s, 0, x, 0, args);
    var next := d.used + if c in ARGUMENT_LETTERS then 1 else 0;
    RenderEnd(s, next, args);
    if Printable(d) {
      assert Conversion(c, d, args.slot(d.used), args) + "" == Conversion(c, d, args.slot(d.used), args);
    }
  }

  /** A number printed with any directive is read back by the scanner: the value of the argument that
      follows those of the stars. */
  lemma PrintedNumberReadsBack(x: Syntax, c: char, args: Args, width: int) returns (v: int, after: nat)
    requires x.Valid() && IsLetter(c) && IsNumeric(c) && Printable(Meaning(x, 1 + |Spell(x)|, 0, args))
    ensures WellFormed("%" + Spell(x) + [c], 0, 0, args)
    ensures var d := Meaning(x, 1 + |Spell(x)|, 0, args);
            var text := Render("%" + Spell(x) + [c], 0, 0, args);
            && IsValue(v, c, d, args.slot(SizeArgs(x.width) + if x.precision.Some? then SizeArgs(x.precision.value) else 0))
            && (|text| <= (if width > 0 then width else INT_MAX) && (v != 0 || !d.hasPrecision || d.precision != 0) ==>
                  && after <= |text|
                  && Scan.ScanField(text, width, BaseOf(c), true) == Scan.Parsed(Magnitude(v), v < 0, |text| - after)
                  && forall k :: |text| - after <= k < |text| ==> text[k] == ' ')
  {
    hide Conversion, Spell, IsLetter, IsNumeric, WellFormed, Render, IsValue, Scan.ScanField;
    OneDirective(x, c, args);
    var d := Meaning(x, 1 + |Spell(x)|, 0, args);
    var text := Conversion(c, d, args.slot(d.used), args);
    assert text + "" == text;
    if |text| <= if width > 0 then width else INT_MAX {
      v, after := NumberReadsBack(c, d, args.slot(d.used), args, "", width);
    } else {
      v := ConversionIsField(c, d, args.slot(d.used), args);
      after := 0;
    }
  }

  /** Escaped text is printed as it is and takes no argument. */
  lemma {:induction false} EscapedTextIsLiteral(s: string, i: nat, text: string, a: nat, args: Args)
    requires i <= |s| && s[i..] == Escape(text)
    ensures WellFormed(s, i, a, args) && Render(s, i, a, args) == text
    decreases |text|
  {
    hide WellFormed, Render;
    if text == "" {
      RenderEnd(s, a, args);
    } else {
      var n := if text[0] == '%' then 2 else 1;
      assert s[i..][0] == s[i] && (n == 2 ==> s[i..][1] == s[i + 1]);
      assert s[i + n..] == s[i..][n..];
      assert Escape(text)[n..] == Escape(text[1..]);
      EscapedTextIsLiteral(s, i + n, text[1..], a, args);
      LiteralStep(s, i, a, args);
      assert [text[0]] + text[1..] == text;
    }
  }

  lemma LiteralStep(s: string, i: nat, a: nat, args: Args)
    requires i < |s| && (s[i] == '%' ==> i + 1 < |s| && s[i + 1] == '%')
    requires WellFormed(s, i + (if s[i] == '%' then 2 else 1), a, args)
    ensures WellFormed(s, i, a, args)
    ensures Render(s, i, a, args) == [s[i]] + Render(s, i + (if s[i] == '%' then 2 else 1), a, args)
  {
    if s[i] == '%' {
      PercentStep(s, i, a, args);
    } else {
      hide DirectiveAt, Conversion;
    }
  }

  lemma PercentStep(s: string, i: nat, a: nat, args: Args)
    requires i + 1 < |s| && s[i] == '%' && s[i + 1] == '%' && WellFormed(s, i + 2, a, args)
    ensures WellFormed(s, i, a, args) && Render(s, i, a, args) == "%" + Render(s, i + 2, a, args)
  {
    hide WellFormed, Render;
    var x := Syntax("", Omitted, None, 0);
    assert Spell(x) == "" && s[i + 1..i + 1] == "";
    DirectiveRenders(s, i, x, a, args);
    UnknownLetter('%', Meaning(x, i + 1, a, args), args.slot(a), args);
  }

  /** A doubled percent sign is one; an unknown letter is printed behind its percent sign. Neither takes
      an argument. */
  lemma UnknownLetter(c: char, d: Directive, word: int, args: Args)
    requires Printable(d) && c !in ARGUMENT_LETTERS
    ensures Conversion(c, d, word, args) == if c == '%' then "%" else ['%', c]
    ensures !TakesArgument(c)
  {
    ArgumentLetters(c);
  }
}
