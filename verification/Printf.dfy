/** menios_vsnprintf and its measure-then-render callers (user/libc/stdio.c). */
module Printf {
  import opened CArith
  import opened CText
  import opened FormatNumber
  import opened Scan
  import Descriptor
  import Stream

  const SIZE_MAX: nat := Stream.SIZE_MAX

  /** The variadic arguments: slot i holds the i-th 64-bit word passed, and a word read as a string
      pointer leads to its text; 0 is NULL. */
  datatype Args = Args(slot: nat -> int, text: int -> string)
  {
    ghost predicate Valid() { forall word :: NUL !in text(word) }
  }

  function AsInt(word: int): int { ToInt32(word) }

  function AsUnsigned(word: int): int { ToUint32(word) }

  function AsLong(word: int): (r: int)
    ensures IsInt64(r) && (IsInt64(word) ==> r == word)
  {
    (word + 0x8000_0000_0000_0000) % UINT64_LIMIT - 0x8000_0000_0000_0000
  }

  function AsUnsignedLong(word: int): (r: int)
    ensures 0 <= r < UINT64_LIMIT
  {
    word % UINT64_LIMIT
  }

  // ----- the syntax of a directive -----

  datatype Flags = Flags(left: bool, zero: bool, plus: bool, space: bool, alternate: bool)

  predicate IsFlag(c: char) { c == '-' || c == '0' || c == '+' || c == ' ' || c == '#' }

  function AddFlag(f: Flags, c: char): Flags {
    match c
    case '-' => f.(left := true)
    case '0' => f.(zero := true)
    case '+' => f.(plus := true)
    case ' ' => f.(space := true)
    case '#' => f.(alternate := true)
    case _ => f
  }

  function FlagsEnd(s: string, i: nat): (j: nat)
    requires i <= |s|
    ensures i <= j <= |s|
    decreases |s| - i
  {
    if i < |s| && IsFlag(s[i]) then FlagsEnd(s, i + 1) else i
  }

  function FlagsFrom(s: string, i: nat, f: Flags): Flags
    requires i <= |s|
    decreases |s| - i
  {
    if i < |s| && IsFlag(s[i]) then FlagsFrom(s, i + 1, AddFlag(f, s[i])) else f
  }

  function NumberEnd(s: string, i: nat): (j: nat)
    requires i <= |s|
    ensures i <= j <= |s|
    decreases |s| - i
  {
    if i < |s| && IsDigit(s[i]) then NumberEnd(s, i + 1) else i
  }

  function NumberFrom(s: string, i: nat, v: nat): nat
    requires i <= |s|
    decreases |s| - i
  {
    if i < |s| && IsDigit(s[i]) then NumberFrom(s, i + 1, v * 10 + (s[i] as int - '0' as int)) else v
  }

  /** A width or precision: a run of digits, or `*` for the next argument. */
  datatype Amount = Amount(value: int, end: nat, used: nat)

  function AmountAt(s: string, i: nat, a: nat, args: Args): (r: Amount)
    requires i <= |s|
    ensures i <= r.end <= |s|
  {
    if At(s, i) == '*' && i < |s| then Amount(AsInt(args.slot(a)), i + 1, a + 1)
    else Amount(NumberFrom(s, i, 0), NumberEnd(s, i), a)
  }

  /** Everything between the percent sign and the conversion character. */
  datatype Directive = Directive(
    flags: Flags, width: int, hasPrecision: bool, precision: int, long: bool, end: nat, used: nat)

  function DirectiveAt(s: string, i: nat, a: nat, args: Args): (d: Directive)
    requires i <= |s|
    ensures i <= d.end <= |s|
  {
    var flags := FlagsFrom(s, i, Flags(false, false, false, false, false));
    var w := AmountAt(s, FlagsEnd(s, i), a, args);
    var left := flags.left || w.value < 0;
    var width := if w.value < 0 then -w.value else w.value;
    var dot := At(s, w.end) == '.' && w.end < |s|;
    var p := if dot then AmountAt(s, w.end + 1, w.used, args) else Amount(0, w.end, w.used);
    var j := p.end;
    var long := At(s, j) == 'l' && j < |s|;
    var k := if !long then j else if j + 1 < |s| && s[j + 1] == 'l' then j + 2 else j + 1;
    Directive(flags.(left := left, zero := flags.zero && !left), width, dot && p.value >= 0,
              if p.value >= 0 then p.value else 0, long, k, p.used)
  }

  // ----- what a directive prints -----

  function NumberSpec(d: Directive, base: nat, upper: bool, signed: bool, prefix: string): Spec {
    Spec(base, upper, d.flags.left, d.flags.zero, d.width, d.hasPrecision, d.precision,
         signed && d.flags.plus, signed && d.flags.space, prefix)
  }

  function Padded(text: string, width: int, left: bool): string {
    var pad := Repeat(' ', Max(0, width - |text|));
    if left then text + pad else pad + text
  }

  function TextOf(d: Directive, word: int, args: Args): string {
    var str := if word == 0 then "(null)" else args.text(word);
    if d.hasPrecision && 0 <= d.precision < |str| then str[..d.precision] else str
  }

  predicate TakesArgument(c: char) {
    c == 'd' || c == 'i' || c == 'u' || c == 'o' || c == 'x' || c == 'X' || c == 'p' || c == 's' || c == 'c'
  }

  predicate Printable(d: Directive) { IsInt32(d.width) && 0 <= d.precision <= INT_MAX }

  function Conversion(c: char, d: Directive, word: int, args: Args): string
    requires Printable(d)
  {
    match c
    case 'd' => SignedField(d, word)
    case 'i' => SignedField(d, word)
    case 'u' => NumberField(Unsigned(d, word), false, NumberSpec(d, 10, false, false, ""))
    case 'o' =>
      var v := Unsigned(d, word);
      NumberField(v, false, NumberSpec(d, 8, false, false, if d.flags.alternate && v != 0 then "0" else ""))
    case 'x' =>
      var v := Unsigned(d, word);
      NumberField(v, false, NumberSpec(d, 16, false, false, if d.flags.alternate && v != 0 then "0x" else ""))
    case 'X' =>
      var v := Unsigned(d, word);
      NumberField(v, false, NumberSpec(d, 16, true, false, if d.flags.alternate && v != 0 then "0X" else ""))
    case 'p' => NumberField(AsUnsignedLong(word), false, NumberSpec(d, 16, false, false, "0x"))
    case 's' => Padded(TextOf(d, word, args), d.width, d.flags.left)
    case 'c' => Padded([(AsInt(word) % 256) as char], d.width, d.flags.left)
    case '%' => "%"
    case _ => "%" + [c]
  }

  function Signed(d: Directive, word: int): int { if d.long then AsLong(word) else AsInt(word) }

  function Unsigned(d: Directive, word: int): nat {
    if d.long then AsUnsignedLong(word) else AsUnsigned(word)
  }

  function SignedField(d: Directive, word: int): string
    requires Printable(d)
  {
    var v := Signed(d, word);
    NumberField(if v < 0 then -v else v, v < 0, NumberSpec(d, 10, false, true, ""))
  }

  /** A string argument short enough for strlen, whatever the precision. */
  predicate Measurable(c: char, word: int, args: Args) {
    c == 's' && word != 0 ==> |args.text(word)| < STRLEN_WRAP
  }

  /** Every string the format prints from i on can be measured. */
  predicate Counted(s: string, i: nat, a: nat, args: Args)
    requires i <= |s| && WellFormed(s, i, a, args)
    decreases |s| - i
  {
    if i == |s| then true
    else if s[i] != '%' then Counted(s, i + 1, a, args)
    else
      var d := DirectiveAt(s, i + 1, a, args);
      && Measurable(s[d.end], args.slot(d.used), args)
      && Counted(s, d.end + 1, d.used + (if TakesArgument(s[d.end]) then 1 else 0), args)
  }

  /** The format does not end inside a directive, and its widths and precisions are `int`s. */
  predicate WellFormed(s: string, i: nat, a: nat, args: Args)
    requires i <= |s|
    decreases |s| - i
  {
    if i == |s| then true
    else if s[i] != '%' then WellFormed(s, i + 1, a, args)
    else
      var d := DirectiveAt(s, i + 1, a, args);
      && d.end < |s| && Printable(d)
      && WellFormed(s, d.end + 1, d.used + (if TakesArgument(s[d.end]) then 1 else 0), args)
  }

  /** The complete output of a format from i on. */
  function Render(s: string, i: nat, a: nat, args: Args): string
    requires i <= |s| && WellFormed(s, i, a, args)
    decreases |s| - i
  {
    if i == |s| then ""
    else if s[i] != '%' then [s[i]] + Render(s, i + 1, a, args)
    else
      var d := DirectiveAt(s, i + 1, a, args);
      var c := s[d.end];
      Conversion(c, d, args.slot(d.used), args)
      + Render(s, d.end + 1, d.used + (if TakesArgument(c) then 1 else 0), args)
  }

  // ----- the formatter -----

  method ParseFlags(s: string, start: nat) returns (f: Flags, i: nat)
    requires start <= |s| && NUL !in s
    ensures f == FlagsFrom(s, start, Flags(false, false, false, false, false)) && i == FlagsEnd(s, start)
  {
    f, i := Flags(false, false, false, false, false), start;
    var parsing := true;
    while parsing
      invariant start <= i <= |s|
      invariant FlagsFrom(s, start, Flags(false, false, false, false, false)) == FlagsFrom(s, i, f)
      invariant FlagsEnd(s, start) == FlagsEnd(s, i)
      invariant !parsing ==> !(i < |s| && IsFlag(s[i]))
      decreases |s| - i, parsing
    {
      match At(s, i)
      case '-' => f := f.(left := true); i := i + 1;
      case '0' => f := f.(zero := true); i := i + 1;
      case '+' => f := f.(plus := true); i := i + 1;
      case ' ' => f := f.(space := true); i := i + 1;
      case '#' => f := f.(alternate := true); i := i + 1;
      case _ => parsing := false;
    }
  }

  method ParseNumber(s: string, start: nat) returns (v: nat, i: nat)
    requires start <= |s|
    ensures v == NumberFrom(s, start, 0) && i == NumberEnd(s, start)
  {
    v, i := 0, start;
    while IsDigit(At(s, i))
      invariant start <= i <= |s|
      invariant NumberFrom(s, start, 0) == NumberFrom(s, i, v)
      invariant NumberEnd(s, start) == NumberEnd(s, i)
      decreases |s| - i
    {
      v := v * 10 + (s[i] as int - '0' as int);
      i := i + 1;
    }
  }

  /** A star or a run of digits. */
  method ParseAmount(s: string, i: nat, a: nat, args: Args) returns (r: Amount)
    requires i <= |s| && NUL !in s
    ensures r == AmountAt(s, i, a, args)
  {
    if At(s, i) == '*' {
      r := Amount(AsInt(args.slot(a)), i + 1, a + 1);
    } else {
      var v, end := ParseNumber(s, i);
      r := Amount(v, end, a);
    }
  }

  method ParseDirective(s: string, start: nat, a: nat, args: Args) returns (d: Directive)
    requires start <= |s| && NUL !in s
    ensures d == DirectiveAt(s, start, a, args)
  {
    hide FlagsFrom;
    hide FlagsEnd;
    hide AmountAt;
    var flags, i := ParseFlags(s, start);
    var w := ParseAmount(s, i, a, args);
    var width := w.value;
    if width < 0 {
      flags := flags.(left := true);
      width := -width;
    }
    i := w.end;
    var hasPrecision, precision, used := false, 0, w.used;
    if At(s, i) == '.' {
      var p := ParseAmount(s, i + 1, w.used, args);
      hasPrecision, precision, i, used := true, p.value, p.end, p.used;
      if precision < 0 {
        hasPrecision, precision := false, 0;
      }
    }
    var long := false;
    if At(s, i) == 'l' {
      long := true;
      i := i + 1;
      if At(s, i) == 'l' {
        i := i + 1;
      }
    }
    if flags.left {
      flags := flags.(zero := false);
    }
    d := Directive(flags, width, hasPrecision, precision, long, i, used);
  }

  method PutPadded(buffer: FormatBuffer, text: string, width: int, left: bool)
    requires buffer.Valid() && buffer.Room(|Padded(text, width, left)|)
    modifies buffer`index, buffer`written, buffer`emitted, buffer.start
    ensures buffer.Valid() && buffer.emitted == old(buffer.emitted) + Padded(text, width, left)
    ensures buffer.start != null ==> buffer.start[buffer.Reach()..] == old(buffer.start[buffer.Reach()..])
  {
    var padLen := 0;
    if width > 0 && width > |text| {
      padLen := width - |text|;
    }
    PaddedParts(text, width, left, padLen);
    hide FormatBuffer.Valid, Repeat, Padded;
    PutField(buffer, "", "", 0, text, padLen, left);
  }

  lemma PaddedParts(text: string, width: int, left: bool, pad: nat)
    requires pad == Max(0, width - |text|)
    ensures var body := "" + "" + Repeat('0', 0) + text;
            Padded(text, width, left) == if left then body + Repeat(' ', pad) else Repeat(' ', pad) + body
    ensures |Padded(text, width, left)| == |text| + pad
  {
    assert "" + "" + Repeat('0', 0) + text == text;
  }

  /** One conversion. */
  method PutConversion(buffer: FormatBuffer, c: char, d: Directive, word: int, args: Args) returns (hangs: bool)
    requires buffer.Valid() && Printable(d) && args.Valid() && buffer.Room(|Conversion(c, d, word, args)|)
    modifies buffer`index, buffer`written, buffer`emitted, buffer.start
    ensures hangs <==> !Measurable(c, word, args)
    ensures !hangs ==> buffer.Valid() && buffer.emitted == old(buffer.emitted) + Conversion(c, d, word, args)
    ensures buffer.start != null ==> buffer.start[buffer.Reach()..] == old(buffer.start[buffer.Reach()..])
  {
    hide NumberField;
    hide Padded;
    hide FormatBuffer.Valid;
    hangs := false;
    if c == 'd' || c == 'i' {
      var value := Signed(d, word);
      var negative := value < 0;
      var magnitude := if negative then -(value + 1) + 1 else value;
      PutNumber(buffer, magnitude, negative, NumberSpec(d, 10, false, true, ""));
    } else if c == 'u' || c == 'o' {
      var value := Unsigned(d, word);
      var base := if c == 'o' then 8 else 10;
      var prefix := "";
      if c == 'o' && d.flags.alternate && value != 0 {
        prefix := "0";
      }
      PutNumber(buffer, value, false, NumberSpec(d, base, false, false, prefix));
    } else if c == 'x' || c == 'X' {
      var value := Unsigned(d, word);
      var prefix := "";
      if d.flags.alternate && value != 0 {
        prefix := if c == 'X' then "0X" else "0x";
      }
      PutNumber(buffer, value, false, NumberSpec(d, 16, c == 'X', false, prefix));
    } else if c == 'p' {
      PutNumber(buffer, AsUnsignedLong(word), false, NumberSpec(d, 16, false, false, "0x"));
    } else if c == 's' {
      var str := if word == 0 then "(null)" else args.text(word);
      var len;
      assert (str + [NUL])[..|str|] == str;
      len, hangs := Strlen(str + [NUL], |str|);
      if hangs {
        return;
      }
      if d.hasPrecision && d.precision < len {
        len := d.precision;
      }
      assert str[..|str|] == str;
      PutPadded(buffer, str[..len], d.width, d.flags.left);
    } else if c == 'c' {
      PutPadded(buffer, [(AsInt(word) % 256) as char], d.width, d.flags.left);
    } else {
      buffer.Putc('%');
      if c != '%' {
        buffer.Putc(c);
      }
    }
  }

  /** menios_vsnprintf. The result is the length of the full output whatever the capacity, and the
      destination holds the longest prefix of it that leaves room for the terminator (section
      7.21.6.5 of ISO/IEC 9899:2011). */
  method Vsnprintf(dest: array?<char>, size: nat, format: string, args: Args) returns (r: int, hangs: bool)
    requires NUL !in format && WellFormed(format, 0, 0, args) && args.Valid()
    requires dest != null ==> size <= dest.Length || |Render(format, 0, 0, args)| < dest.Length
    modifies dest
    ensures hangs <==> !Counted(format, 0, 0, args)
    ensures !hangs ==>
            var full := Render(format, 0, 0, args);
            && r == ToInt32(|full|)
            && (dest != null && size > 0 ==>
                  var n := Min(|full|, size - 1);
                  dest[..n] == full[..n] && dest[n] == NUL)
    ensures dest != null && size <= dest.Length ==> dest[size..] == old(dest[size..])
  {
    hide Render, WellFormed, Counted;
    var buffer := new FormatBuffer(dest, size);
    var i: nat, a: nat := 0, 0;
    ghost var full := Render(format, 0, 0, args);
    assert "" + full == full;
    while i < |format|
      invariant 0 <= i <= |format| && WellFormed(format, i, a, args)
      invariant buffer.start == dest && buffer.capacity == size && buffer.Valid()
      invariant fresh(buffer)
      invariant buffer.emitted + Render(format, i, a, args) == full
      invariant Counted(format, 0, 0, args) == Counted(format, i, a, args)
      invariant dest != null && size <= dest.Length ==> dest[size..] == old(dest[size..])
    {
      hangs, i, a := PutNext(buffer, format, i, a, args, full);
      if hangs {
        return 0, true;
      }
    }
    RenderEnd(format, a, args);
    assert buffer.emitted + "" == buffer.emitted;
    if dest != null && size > 0 {
      var terminator := if buffer.index < size then buffer.index else size - 1;
      dest[terminator] := NUL;
    }
    r, hangs := ToInt32(buffer.written), false;
  }

  /** One turn of the format loop: an ordinary character or a directive. */
  method PutNext(buffer: FormatBuffer, format: string, start: nat, used: nat, args: Args, ghost full: string)
    returns (hangs: bool, i: nat, a: nat)
    requires start < |format| && NUL !in format && WellFormed(format, start, used, args) && args.Valid()
    requires buffer.Valid() && buffer.emitted + Render(format, start, used, args) == full
    requires buffer.start != null ==> buffer.capacity <= buffer.start.Length || |full| < buffer.start.Length
    modifies buffer`index, buffer`written, buffer`emitted, buffer.start
    ensures buffer.start != null ==> buffer.start[buffer.Reach()..] == old(buffer.start[buffer.Reach()..])
    ensures hangs ==> !Counted(format, start, used, args)
    ensures !hangs ==>
              && start < i <= |format| && WellFormed(format, i, a, args)
              && buffer.Valid() && buffer.emitted + Render(format, i, a, args) == full
              && Counted(format, start, used, args) == Counted(format, i, a, args)
  {
    hide Conversion, DirectiveAt, Render, WellFormed, Counted, Measurable, FormatBuffer.Valid;
    hangs, i, a := false, start + 1, used;
    RenderStep(format, start, used, args);
    ghost var e, piece := buffer.emitted, [format[start]];
    assert |e| + |Render(format, start, used, args)| == |full|;
    if format[start] != '%' {
      buffer.Putc(format[start]);
    } else {
      var d := ParseDirective(format, start + 1, used, args);
      var c := format[d.end];
      var word := args.slot(d.used);
      piece := Conversion(c, d, word, args);
      hangs := PutConversion(buffer, c, d, word, args);
      if hangs {
        return;
      }
      i := d.end + 1;
      a := d.used + if TakesArgument(c) then 1 else 0;
    }
    Regrouped(e, piece, Render(format, i, a, args));
  }

  lemma Regrouped(a: string, b: string, c: string)
    ensures a + (b + c) == a + b + c
  {
  }

  lemma RenderEnd(s: string, a: nat, args: Args)
    ensures WellFormed(s, |s|, a, args) && Render(s, |s|, a, args) == "" && Counted(s, |s|, a, args)
  {
  }

  lemma RenderStep(s: string, i: nat, a: nat, args: Args)
    requires i < |s| && WellFormed(s, i, a, args)
    ensures s[i] != '%' ==>
              && WellFormed(s, i + 1, a, args) && Render(s, i, a, args) == [s[i]] + Render(s, i + 1, a, args)
              && Counted(s, i, a, args) == Counted(s, i + 1, a, args)
    ensures s[i] == '%' ==>
              var d := DirectiveAt(s, i + 1, a, args);
              && d.end < |s| && Printable(d)
              && var next := d.used + (if TakesArgument(s[d.end]) then 1 else 0);
              && WellFormed(s, d.end + 1, next, args)
              && Render(s, i, a, args)
                 == Conversion(s[d.end], d, args.slot(d.used), args) + Render(s, d.end + 1, next, args)
              && Counted(s, i, a, args)
                 == (Measurable(s[d.end], args.slot(d.used), args) && Counted(s, d.end + 1, next, args))
  {
    hide DirectiveAt, Conversion, Measurable;
  }

  /** vsprintf passes the largest size there is: on a destination with room for the text, all of it. */
  method Vsprintf(dest: array?<char>, format: string, args: Args) returns (r: int, hangs: bool)
    requires NUL !in format && WellFormed(format, 0, 0, args) && args.Valid()
    requires dest != null ==> |Render(format, 0, 0, args)| < dest.Length <= SIZE_MAX
    modifies dest
    ensures dest == null ==> r == -1 && !hangs
    ensures dest != null ==> (hangs <==> !Counted(format, 0, 0, args))
    ensures dest != null && !hangs ==>
              var full := Render(format, 0, 0, args);
              r == ToInt32(|full|) && dest[..|full|] == full && dest[|full|] == NUL
  {
    hide Render, WellFormed, Counted;
    if dest == null {
      return -1, false;
    }
    r, hangs := Vsnprintf(dest, SIZE_MAX, format, args);
    ghost var full := Render(format, 0, 0, args);
    assert full[..|full|] == full;
  }

  /** svprintf measures, then renders into exactly that much room: the text is complete unless its
      length does not fit an `int`. */
  method Svprintf(str: array<char>, format: string, args: Args) returns (r: int, hangs: bool)
    requires NUL !in format && WellFormed(format, 0, 0, args) && args.Valid()
    requires |Render(format, 0, 0, args)| < str.Length
    modifies str
    ensures hangs <==> !Counted(format, 0, 0, args)
    ensures !hangs ==>
            var full := Render(format, 0, 0, args);
            && r == ToInt32(|full|)
            && (r < 0 ==> str[..] == old(str[..]))
            && (r >= 0 ==> r <= |full| && str[..r] == full[..r] && str[r] == NUL && str[r + 1..] == old(str[r + 1..]))
            && (|full| <= INT_MAX <==> r == |full|)
  {
    hide Render;
    hide WellFormed;
    hide Counted;
    var needed, again;
    needed, hangs := Vsnprintf(null, 0, format, args);
    if hangs {
      return 0, true;
    }
    NarrowingShrinks(|Render(format, 0, 0, args)|);
    if needed < 0 {
      return needed, false;
    }
    again, hangs := Vsnprintf(str, needed + 1, format, args);
    r := needed;
  }

  lemma NarrowingShrinks(n: nat)
    ensures ToInt32(n) <= n && (n <= INT_MAX <==> ToInt32(n) == n)
  {
  }

  /** The `long long` the scanner stores for a parsed integer. */
  function ScannedLong(p: Parsed): int
    requires p.Parsed?
  {
    if p.negative then AsLong(-AsLong(p.value)) else AsLong(p.value)
  }

  /** %ld and %ld undo each other on every `long`, the most negative one included, whatever flags,
      width and precision it was printed with, if a digit is printed at all. */
  lemma LongRoundTrip(d: Directive, v: int, tail: string, width: int)
    requires Printable(d) && d.long && IsInt64(v)
    requires v == 0 ==> !(d.hasPrecision && d.precision == 0)
    requires ReadsBack(if v < 0 then -v else v, v < 0, NumberSpec(d, 10, false, true, ""), tail, width)
    ensures var p := ScanField(SignedField(d, v) + tail, width, 10, true);
            p.Parsed? && ScannedLong(p) == v
  {
    hide AsLong;
    hide NumberField;
    hide Body;
    hide PadCount;
    hide DigitText;
    hide ScanField;
    hide ReadsBack;
    hide After;
    var f, n := NumberSpec(d, 10, false, true, ""), if v < 0 then -v else v;
    HasDigits(n, f);
    StoresBack(v);
    ScanUndoesFormat(n, v < 0, f, tail, width, true);
  }

  lemma StoresBack(v: int)
    requires IsInt64(v)
    ensures AsLong(v) == v
    ensures v < 0 ==> AsLong(-AsLong(-v)) == v
  {
  }

  lemma HasDigits(n: nat, f: Spec)
    requires f.Valid() && (n == 0 ==> !(f.hasPrecision && f.precision == 0))
    ensures DigitText(n, f) != ""
  {
  }

  function AsBytes(text: string): (b: seq<Descriptor.Byte>)
    ensures |b| == |text|
  {
    seq(|text|, i requires 0 <= i < |text| => (text[i] as int % 256) as Descriptor.Byte)
  }

  lemma BytesOfPrefix(text: string, n: nat, k: nat)
    requires k <= n <= |text|
    ensures AsBytes(text[..n])[..k] == AsBytes(text[..k])
  {
  }

  /** menios_write_formatted: measure, render into a buffer of that size, hand it to fwrite. The
      stream accepts a prefix of the rendered text at its position, of k characters: all of it when
      the length fits an `int` and no write fails. The result is a length exactly when that much of
      the text was accepted. */
  method WriteFormatted(stream: Stream.Stream, format: string, args: Args)
    returns (r: int, hangs: bool, ghost k: nat)
    requires NUL !in format && WellFormed(format, 0, 0, args) && args.Valid()
    requires stream.Valid()
    modifies stream, stream.fd, stream.buffer
    ensures hangs <==> !Counted(format, 0, 0, args)
    ensures stream.fd.stalls == old(stream.fd.stalls) ==> stream.Valid()
    ensures var full := Render(format, 0, 0, args);
            !hangs && stream.fd.stalls == old(stream.fd.stalls) ==>
              && k <= |full|
              && stream.accepted == old(stream.accepted) + AsBytes(full[..k])
              && stream.Contents() == Descriptor.Overlay(old(stream.Contents()), old(stream.Position()), AsBytes(full[..k]))
              && stream.Position() == old(stream.Position()) + k
    ensures var full := Render(format, 0, 0, args);
            !hangs && |full| <= INT_MAX ==>
              && (r == |full| <==> k == |full|) && (r == -1 <==> k < |full|)
              && ((stream.canWrite && stream.fd.stalls == old(stream.fd.stalls)
                   && stream.fd.faults == old(stream.fd.faults)) ==> k == |full|)
  {
    hide Render;
    hide WellFormed;
    hide Counted;
    hide AsBytes;
    hide Descriptor.Overlay;
    hide Stream.Stream.Contents;
    hide Stream.Stream.Position;
    hide Stream.Stream.Shape;
    hide Stream.Stream.Conserved;
    ghost var full := Render(format, 0, 0, args);
    k := 0;
    NothingWritten(stream);
    assert full[..0] == "";
    var required, again;
    required, hangs := Vsnprintf(null, 0, format, args);
    if hangs {
      return 0, true, 0;
    }
    NarrowingShrinks(|full|);
    if required < 0 {
      return -1, false, 0;
    }
    var length := required;
    var buffer := new char[length + 1];
    again, hangs := Vsnprintf(buffer, length + 1, format, args);
    var data := AsBytes(buffer[..length]);
    assert buffer[..length] == full[..length];
    var written;
    assert |data| == 1 * length;
    written, k := stream.Fwrite(data, 1, length);
    BytesOfPrefix(full, length, k);
    r := if written == length then required else -1;
  }

  lemma NothingWritten(stream: Stream.Stream)
    requires stream.Valid()
    ensures AsBytes("") == []
    ensures stream.accepted + AsBytes("") == stream.accepted
    ensures Descriptor.Overlay(stream.Contents(), stream.Position(), AsBytes("")) == stream.Contents()
  {
    Descriptor.OverlayNothing(stream.Contents(), stream.Position());
  }
}
