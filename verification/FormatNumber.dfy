/** The output buffer and the number formatter behind the printf family (user/libc/stdio.c). */
module FormatNumber {
  import opened CArith
  import opened NumberText

  function Min(a: nat, b: nat): nat { if a <= b then a else b }

  function Max(a: int, b: int): int { if a >= b then a else b }

  function Repeat(c: char, n: nat): (r: string)
    ensures |r| == n
    ensures forall i :: 0 <= i < n ==> r[i] == c
  {
    seq(n, _ => c)
  }

  /** fmt_buffer_t: counts every character and stores those that leave room for a terminator. */
  class FormatBuffer {
    const start: array?<char>
    const capacity: nat
    var index: nat
    var written: nat
    /** Everything put so far, stored or not. */
    ghost var emitted: string

    /** The stated capacity is there, or at least room for n more characters and a terminator. */
    ghost predicate Room(n: nat)
      reads this
    {
      start != null ==> capacity <= start.Length || |emitted| + n < start.Length
    }

    /** Where the storage ends for this buffer. */
    ghost function Reach(): nat
      requires start != null
    {
      Min(capacity, start.Length)
    }

    ghost predicate Valid()
      reads this, start
    {
      && index == written == |emitted| && Room(0)
      && (start != null && capacity > 0 ==>
            var n := Min(index, capacity - 1);
            start[..n] == emitted[..n])
    }

    constructor (start: array?<char>, capacity: nat)
      requires start != null ==> capacity <= start.Length || start.Length > 0
      ensures this.start == start && this.capacity == capacity
      ensures Valid() && emitted == ""
    {
      this.start, this.capacity := start, capacity;
      index, written := 0, 0;
      emitted := "";
    }

    /** buffer_putc. */
    method Putc(ch: char)
      requires Valid() && Room(1)
      modifies this`index, this`written, this`emitted, start
      ensures Valid() && emitted == old(emitted) + [ch]
      ensures start != null ==> start[Reach()..] == old(start[Reach()..])
    {
      if start != null && capacity > 0 && index < capacity - 1 {
        start[index] := ch;
      }
      index := index + 1;
      written := written + 1;
      emitted := emitted + [ch];
    }

    /** buffer_puts. */
    method Puts(text: string)
      requires Valid() && Room(|text|)
      modifies this`index, this`written, this`emitted, start
      ensures Valid() && emitted == old(emitted) + text
      ensures start != null ==> start[Reach()..] == old(start[Reach()..])
    {
      var i := 0;
      while i < |text|
        invariant 0 <= i <= |text|
        invariant Valid() && emitted == old(emitted) + text[..i]
        invariant start != null ==> start[Reach()..] == old(start[Reach()..])
      {
        Putc(text[i]);
        i := i + 1;
      }
    }

    method PutRepeated(ch: char, n: nat)
      requires Valid() && Room(n)
      modifies this`index, this`written, this`emitted, start
      ensures Valid() && emitted == old(emitted) + Repeat(ch, n)
      ensures start != null ==> start[Reach()..] == old(start[Reach()..])
    {
      var i := 0;
      while i < n
        invariant 0 <= i <= n
        invariant Valid() && emitted == old(emitted) + Repeat(ch, i)
        invariant start != null ==> start[Reach()..] == old(start[Reach()..])
      {
        Putc(ch);
        i := i + 1;
      }
    }
  }

  /** The flags, width and precision a number is printed with. */
  datatype Spec = Spec(
    base: nat, upper: bool, leftAlign: bool, zeroPad: bool, width: int,
    hasPrecision: bool, precision: int, forceSign: bool, spaceSign: bool, prefix: string)
  {
    predicate Valid() {
      (base == 8 || base == 10 || base == 16) && IsInt32(width) && IsInt32(precision) && |prefix| <= 2
    }
  }

  // ----- what is printed -----

  function SignText(negative: bool, f: Spec): string {
    if negative then "-" else if f.forceSign then "+" else if f.spaceSign then " " else ""
  }

  /** Zero printed with precision zero has no digits. */
  function DigitText(n: nat, f: Spec): string
    requires f.Valid()
  {
    if n == 0 && f.hasPrecision && f.precision == 0 then "" else Digits(n, f.base, f.upper)
  }

  /** A precision asks for that many digits; failing one, the 0 flag fills the field. */
  function ZeroCount(n: nat, negative: bool, f: Spec): nat
    requires f.Valid()
  {
    var digits := |DigitText(n, f)|;
    if f.hasPrecision then Max(0, f.precision - digits)
    else if f.zeroPad && !f.leftAlign then Max(0, f.width - (|SignText(negative, f)| + |f.prefix| + digits))
    else 0
  }

  function Body(n: nat, negative: bool, f: Spec): string
    requires f.Valid()
  {
    SignText(negative, f) + f.prefix + Repeat('0', ZeroCount(n, negative, f)) + DigitText(n, f)
  }

  function PadCount(n: nat, negative: bool, f: Spec): nat
    requires f.Valid()
  {
    Max(0, f.width - |Body(n, negative, f)|)
  }

  function NumberField(n: nat, negative: bool, f: Spec): string
    requires f.Valid()
  {
    var pad := Repeat(' ', PadCount(n, negative, f));
    if f.leftAlign then Body(n, negative, f) + pad else pad + Body(n, negative, f)
  }

  lemma BodyLength(n: nat, negative: bool, f: Spec)
    requires f.Valid()
    ensures |Body(n, negative, f)|
         == |SignText(negative, f)| + |f.prefix| + ZeroCount(n, negative, f) + |DigitText(n, f)|
  {
  }

  /** The field is exactly as wide as its contents, its precision and its width require. */
  lemma FieldLength(n: nat, negative: bool, f: Spec)
    requires f.Valid()
    ensures |NumberField(n, negative, f)|
         == Max(f.width, |SignText(negative, f)| + |f.prefix|
                         + Max(if f.hasPrecision then f.precision else 0, |DigitText(n, f)|))
  {
  }

  // ----- how it is printed -----

  lemma {:induction false} PowerMonotone(a: nat, b: nat, k: nat)
    requires a <= b
    ensures Power(a, k) <= Power(b, k)
  {
    if k > 0 {
      PowerMonotone(a, b, k - 1);
      MulMonotone(Power(a, k - 1), Power(b, k - 1), a);
      MulMonotone(a, b, Power(b, k - 1));
    }
  }

  lemma PowersOfEight()
    ensures Power(8, 22) > UINT64_LIMIT
  {
    assert Power(8, 5) == 0x8000;
    assert Power(8, 10) == 0x8000 * Power(8, 5);
    assert Power(8, 15) == 0x8000 * Power(8, 10);
    assert Power(8, 20) == 0x8000 * Power(8, 15);
  }

  /** A 64-bit number has at most 22 digits in the bases used, so the 64-character digit buffer
      always suffices. */
  lemma DigitsFit(n: nat, base: nat, upper: bool)
    requires n < UINT64_LIMIT && 8 <= base <= 16
    ensures |Digits(n, base, upper)| <= 22
  {
    PowersOfEight();
    PowerMonotone(8, base, 22);
    DigitCount(n, base, upper, 22);
  }

  function Leading(n: nat, base: nat, upper: bool): string
    requires 2 <= base <= 16
  {
    if n == 0 then "" else Digits(n, base, upper)
  }

  lemma LeadingStep(n: nat, base: nat, upper: bool)
    requires 2 <= base <= 16 && n > 0
    ensures 0 <= n % base < 16 && n / base < n
    ensures Leading(n, base, upper) == Leading(n / base, base, upper) + [DigitChar(n % base, upper)]
  {
    if n < base {
      assert n / base == 0 && n % base == n;
    } else {
      QuotientShrinks(n, base);
    }
  }

  /** The digit loop, least significant digit first. */
  method BackwardDigits(n: nat, base: nat, upper: bool) returns (buf: string)
    requires n < UINT64_LIMIT && 8 <= base <= 16
    ensures Reverse(buf) == Digits(n, base, upper)
  {
    hide Digits;
    var digits := if upper then "0123456789ABCDEF" else "0123456789abcdef";
    var magnitude := n;
    buf := "";
    if magnitude == 0 {
      buf := "0";
    } else {
      DigitsFit(n, base, upper);
      while magnitude != 0 && |buf| < 64
        invariant magnitude >= 0 && |buf| + |Leading(magnitude, base, upper)| <= 22
        invariant Leading(magnitude, base, upper) + Reverse(buf) == Digits(n, base, upper)
        decreases magnitude
      {
        LeadingStep(magnitude, base, upper);
        ghost var rest, c := Leading(magnitude / base, base, upper), DigitChar(magnitude % base, upper);
        ReverseAppend(buf, c);
        assert rest + ([c] + Reverse(buf)) == rest + [c] + Reverse(buf);
        buf := buf + [digits[magnitude % base]];
        magnitude := magnitude / base;
      }
    }
  }

  /** format_number puts exactly the field. */
  method PutNumber(buffer: FormatBuffer, magnitude: nat, negative: bool, f: Spec)
    requires buffer.Valid() && f.Valid() && magnitude < UINT64_LIMIT
    requires buffer.Room(|NumberField(magnitude, negative, f)|)
    modifies buffer`index, buffer`written, buffer`emitted, buffer.start
    ensures buffer.Valid()
    ensures buffer.emitted == old(buffer.emitted) + NumberField(magnitude, negative, f)
    ensures buffer.start != null ==> buffer.start[buffer.Reach()..] == old(buffer.start[buffer.Reach()..])
  {
    var digitsBuf := BackwardDigits(magnitude, f.base, f.upper);
    OnlyZeroIsZero(magnitude, f.base, f.upper);
    hide Digits;
    var digits := |digitsBuf|;
    if f.hasPrecision && f.precision == 0 && digits == 1 && digitsBuf[0] == '0' {
      digits := 0;
    }
    assert digitsBuf[..|digitsBuf|] == digitsBuf;
    var digitText := Reverse(digitsBuf[..digits]);
    assert digitText == DigitText(magnitude, f);
    var sign, zeroCount, padLen := Layout(digits, negative, f);
    BodyLength(magnitude, negative, f);
    assert zeroCount == ZeroCount(magnitude, negative, f);
    hide Body;
    hide ZeroCount;
    hide DigitText;
    assert padLen == PadCount(magnitude, negative, f);
    PutField(buffer, sign, f.prefix, zeroCount, digitText, padLen, f.leftAlign);
    BodyParts(magnitude, negative, f);
  }

  lemma BodyParts(n: nat, negative: bool, f: Spec)
    requires f.Valid()
    ensures Body(n, negative, f)
         == SignText(negative, f) + f.prefix + Repeat('0', ZeroCount(n, negative, f)) + DigitText(n, f)
  {
  }

  /** How many zeros and blanks the field takes around that many digits. */
  method Layout(digits: nat, negative: bool, f: Spec) returns (sign: string, zeroCount: nat, padLen: nat)
    requires f.Valid()
    ensures sign == SignText(negative, f)
    ensures zeroCount ==
              if f.hasPrecision then Max(0, f.precision - digits)
              else if f.zeroPad && !f.leftAlign then Max(0, f.width - (|sign| + |f.prefix| + digits))
              else 0
    ensures padLen == Max(0, f.width - (|sign| + |f.prefix| + zeroCount + digits))
  {
    var zeroPad := f.zeroPad;
    if f.leftAlign {
      zeroPad := false;
    }
    sign := "";
    if negative {
      sign := "-";
    } else if f.forceSign {
      sign := "+";
    } else if f.spaceSign {
      sign := " ";
    }
    zeroCount := 0;
    if f.hasPrecision {
      if f.precision > digits {
        zeroCount := f.precision - digits;
      }
      zeroPad := false;
    } else if zeroPad && !f.leftAlign && f.width > 0 {
      var needed := f.width - (|sign| + |f.prefix| + digits);
      if needed > 0 {
        zeroCount := needed;
      }
    }
    var contentLen := |sign| + |f.prefix| + zeroCount + digits;
    padLen := 0;
    if f.width > 0 && f.width > contentLen {
      padLen := f.width - contentLen;
    }
  }

  method PutField(
    buffer: FormatBuffer, sign: string, prefix: string, zeros: nat, digits: string, pad: nat, left: bool)
    requires buffer.Valid() && buffer.Room(|sign| + |prefix| + zeros + |digits| + pad)
    modifies buffer`index, buffer`written, buffer`emitted, buffer.start
    ensures buffer.Valid()
    ensures var body := sign + prefix + Repeat('0', zeros) + digits;
            buffer.emitted == old(buffer.emitted)
              + if left then body + Repeat(' ', pad) else Repeat(' ', pad) + body
    ensures buffer.start != null ==> buffer.start[buffer.Reach()..] == old(buffer.start[buffer.Reach()..])
  {
    hide Repeat;
    ghost var e := buffer.emitted;
    ghost var p, z := Repeat(' ', pad), Repeat('0', zeros);
    if !left {
      buffer.PutRepeated(' ', pad);
    }
    ghost var e1 := buffer.emitted;
    buffer.Puts(sign);
    buffer.Puts(prefix);
    buffer.PutRepeated('0', zeros);
    buffer.Puts(digits);
    assert buffer.emitted == e1 + (sign + prefix + z + digits);
    ghost var e2 := buffer.emitted;
    if left {
      buffer.PutRepeated(' ', pad);
      assert e + (sign + prefix + z + digits) + p == e + ((sign + prefix + z + digits) + p);
    } else {
      assert e + p + (sign + prefix + z + digits) == e + (p + (sign + prefix + z + digits));
    }
  }

  /** The numeral "0" belongs to zero alone. */
  lemma OnlyZeroIsZero(n: nat, base: nat, upper: bool)
    requires 8 <= base <= 16
    ensures |Digits(n, base, upper)| == 1 && Digits(n, base, upper)[0] == '0' <==> n == 0
  {
    if n >= base {
      QuotientShrinks(n, base);
    }
  }
}
