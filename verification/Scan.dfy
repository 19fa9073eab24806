/** The integer scanner of the scanf family (user/libc/stdio.c) and its round trip with the
    number formatter. */
module Scan {
  import opened CArith
  import opened CText
  import opened NumberText
  import opened FormatNumber

  datatype Parsed = NoParse | Parsed(value: int, negative: bool, cursor: nat)

  predicate IsSpace(c: char) {
    c == ' ' || c == '\t' || c == '\n' || c == '\U{000B}' || c == '\U{000C}' || c == '\r'
  }

  /** The characters the scanner skips. */
  const WHITE := " \t\n\U{000B}\U{000C}\r"

  lemma WhiteIsSpace(c: char)
    ensures c in WHITE <==> IsSpace(c)
  {
    assert WHITE == [' ', '\t', '\n', '\U{000B}', '\U{000C}', '\r'];
  }

  /** skip_input_whitespace. */
  function SkipSpace(s: string, i: nat): (j: nat)
    requires i <= |s|
    ensures i <= j <= |s|
    decreases |s| - i
  {
    if i < |s| && IsSpace(s[i]) then SkipSpace(s, i + 1) else i
  }

  function DigitValue(c: char): int {
    if '0' <= c <= '9' then c as int - '0' as int
    else if 'a' <= c <= 'z' then c as int - 'a' as int + 10
    else if 'A' <= c <= 'Z' then c as int - 'A' as int + 10
    else -1
  }

  predicate IsDigitIn(c: char, base: int) { 0 <= DigitValue(c) < base }

  // ----- the scanner's specification -----

  /** How many of the next `room` characters are digits of the base. */
  function RunLength(s: string, i: nat, base: int, room: nat): (n: nat)
    requires i <= |s|
    ensures i + n <= |s| && n <= room
    ensures forall k :: i <= k < i + n ==> IsDigitIn(s[k], base)
    ensures n < room ==> i + n == |s| || !IsDigitIn(s[i + n], base)
    decreases |s| - i
  {
    if room > 0 && i < |s| && IsDigitIn(s[i], base) then 1 + RunLength(s, i + 1, base, room - 1) else 0
  }

  /** The number a run of digits denotes. */
  function Value(s: string, base: int): (v: int)
    requires base >= 2 && forall k :: 0 <= k < |s| ==> IsDigitIn(s[k], base)
    ensures v >= 0
  {
    if s == "" then 0
    else
      assert IsDigitIn(s[|s| - 1], base);
      MulMonotone(0, Value(s[..|s| - 1], base), base);
      Value(s[..|s| - 1], base) * base + DigitValue(s[|s| - 1])
  }

  predicate HexPrefixAt(s: string, i: nat, room: int) {
    room >= 2 && At(s, i) == '0' && (At(s, i + 1) == 'x' || At(s, i + 1) == 'X')
  }

  /** The base a hint of 0 resolves to. */
  function BaseFor(s: string, i: nat, hint: int, room: int): (b: int)
    requires hint == 0 || 2 <= hint
    ensures b >= 2
  {
    if hint != 0 then hint
    else if HexPrefixAt(s, i, room) then 16
    else if At(s, i) == '0' then 8
    else 10
  }

  /** parse_integer as a value: sign, optional 0x, then the longest run of digits that the width
      allows, reduced modulo 2^64. */
  function ParseFrom(s: string, i: nat, width: int, hint: int, allowSign: bool): Parsed
    requires i <= |s| && (hint == 0 || 2 <= hint <= 36)
  {
    var limit := if width > 0 then width else INT_MAX;
    if allowSign && i < |s| && (s[i] == '+' || s[i] == '-') then
      ParseUnsigned(s, i + 1, limit - 1, hint, s[i] == '-')
    else ParseUnsigned(s, i, limit, hint, false)
  }

  function ParseUnsigned(s: string, p: nat, room: int, hint: int, negative: bool): Parsed
    requires p <= |s| && (hint == 0 || 2 <= hint <= 36)
  {
    var base := BaseFor(s, p, hint, room);
    if base == 16 && HexPrefixAt(s, p, room) then ParseDigits(s, p + 2, room - 2, base, negative)
    else ParseDigits(s, p, room, base, negative)
  }

  function ParseDigits(s: string, q: nat, room: int, base: int, negative: bool): Parsed
    requires q <= |s| && base >= 2
  {
    if room <= 0 then NoParse
    else
      var n := RunLength(s, q, base, room);
      if n == 0 then NoParse
      else Parsed(Value(s[q..q + n], base) % UINT64_LIMIT, negative, q + n)
  }

  /** An integer conversion of the scanner: leading white space, then the number. */
  function ScanField(s: string, width: int, hint: int, allowSign: bool): Parsed
    requires hint == 0 || 2 <= hint <= 36
  {
    ParseFrom(s, SkipSpace(s, 0), width, hint, allowSign)
  }

  // ----- the scanner -----

  method SkipInputWhitespace(s: string, i: nat) returns (j: nat)
    requires i <= |s|
    ensures j == SkipSpace(s, i)
  {
    j := i;
    while j < |s| && IsSpace(s[j])
      invariant i <= j <= |s| && SkipSpace(s, i) == SkipSpace(s, j)
    {
      j := j + 1;
    }
  }

  /** parse_integer. */
  method ParseInteger(s: string, cursor: nat, width: int, hint: int, allowSign: bool) returns (r: Parsed)
    requires cursor <= |s| && NUL !in s
    requires hint == 0 || 2 <= hint <= 36
    ensures r == ParseFrom(s, cursor, width, hint, allowSign)
  {
    hide ParseDigits;
    var p := cursor;
    var remaining := if width > 0 then width else INT_MAX;
    var negative := false;
    if allowSign && At(s, p) != NUL && remaining > 0 {
      if At(s, p) == '+' || At(s, p) == '-' {
        negative := At(s, p) == '-';
        p := p + 1;
        remaining := remaining - 1;
      }
    }
    assert ParseFrom(s, cursor, width, hint, allowSign) == ParseUnsigned(s, p, remaining, hint, negative);
    if remaining <= 0 {
      NoRoom(s, p, remaining, BaseFor(s, p, hint, remaining), negative);
      return NoParse;
    }
    var base := hint;
    var prefixLen := 0;
    if (base == 0 || base == 16) && HexPrefixAt(s, p, remaining) {
      prefixLen := 2;
      if base == 0 {
        base := 16;
      }
    }
    if base == 0 {
      if At(s, p) == '0' {
        base := 8;
      } else {
        base := 10;
      }
    }
    if prefixLen > 0 {
      p := p + prefixLen;
      remaining := remaining - prefixLen;
    }
    assert ParseFrom(s, cursor, width, hint, allowSign) == ParseDigits(s, p, remaining, base, negative);
    if remaining <= 0 {
      NoRoom(s, p, remaining, base, negative);
      return NoParse;
    }
    r := ScanDigits(s, p, remaining, base, negative);
  }

  lemma NoRoom(s: string, q: nat, room: int, base: int, negative: bool)
    requires q <= |s| && base >= 2 && room <= 0
    ensures ParseDigits(s, q, room, base, negative) == NoParse
  {
  }

  /** The digit loop of parse_integer. */
  method ScanDigits(s: string, start: nat, room: nat, base: int, negative: bool) returns (r: Parsed)
    requires start <= |s| && NUL !in s && 2 <= base <= 36 && room > 0
    ensures r == ParseDigits(s, start, room, base, negative)
  {
    var value, digits := 0, 0;
    var p, remaining := start, room;
    ghost var n := RunLength(s, start, base, room);
    while remaining > 0 && At(s, p) != NUL
      invariant p == start + digits && digits <= n && remaining == room - digits
      invariant value == Value(s[start..p], base) % UINT64_LIMIT
    {
      var digit := DigitValue(At(s, p));
      if digit < 0 || digit >= base {
        break;
      }
      assert digits < n by { assert IsDigitIn(s[start + digits], base); }
      assert s[start..p + 1][..p - start] == s[start..p];
      WrapStep(Value(s[start..p], base), base, digit);
      value := (value * base + digit) % UINT64_LIMIT;
      p := p + 1;
      remaining := remaining - 1;
      digits := digits + 1;
    }
    assert digits == n;
    if digits == 0 {
      return NoParse;
    }
    r := Parsed(value, negative, p);
  }

  /** Reducing at every step reduces the whole. */
  lemma WrapStep(v: int, base: int, digit: int)
    ensures (v % UINT64_LIMIT * base + digit) % UINT64_LIMIT == (v * base + digit) % UINT64_LIMIT
  {
    var q, r := v / UINT64_LIMIT, v % UINT64_LIMIT;
    assert v * base + digit == UINT64_LIMIT * (q * base) + (r * base + digit);
    ModShift(r * base + digit, q * base);
  }

  lemma ModShift(a: int, k: int)
    ensures (UINT64_LIMIT * k + a) % UINT64_LIMIT == a % UINT64_LIMIT
  {
    var x := UINT64_LIMIT * k + a;
    assert (k + a / UINT64_LIMIT) * UINT64_LIMIT <= x < (k + a / UINT64_LIMIT) * UINT64_LIMIT + UINT64_LIMIT;
    SameQuotient(x, UINT64_LIMIT, x / UINT64_LIMIT, k + a / UINT64_LIMIT);
  }

  // ----- scanning undoes formatting -----

  predicate AllDigits(s: string, base: int) { forall k :: 0 <= k < |s| ==> IsDigitIn(s[k], base) }

  lemma DigitCharValue(d: int, base: int, upper: bool)
    requires 0 <= d < base <= 16
    ensures DigitValue(DigitChar(d, upper)) == d
  {
  }

  lemma ValueAppend(t: string, c: char, base: int)
    requires base >= 2 && AllDigits(t, base) && IsDigitIn(c, base)
    ensures AllDigits(t + [c], base)
    ensures Value(t + [c], base) == Value(t, base) * base + DigitValue(c)
  {
    assert (t + [c])[..|t|] == t;
  }

  lemma {:induction false} ValueOfDigits(n: nat, base: nat, upper: bool)
    requires 2 <= base <= 16
    ensures AllDigits(Digits(n, base, upper), base)
    ensures Value(Digits(n, base, upper), base) == n
    decreases n
  {
    hide Value;
    hide DigitValue;
    hide DigitChar;
    var c := DigitChar(n % base, upper);
    DigitCharValue(n % base, base, upper);
    if n < base {
      EmptyValue(base);
      SmallRemainder(n, base);
      ValueAppend("", c, base);
      assert Digits(n, base, upper) == "" + [c];
    } else {
      QuotientShrinks(n, base);
      var t := Digits(n / base, base, upper);
      ValueOfDigits(n / base, base, upper);
      assert Digits(n, base, upper) == t + [c];
      hide Digits;
      ValueAppend(t, c, base);
      assert n == n / base * base + n % base;
    }
  }

  lemma SmallRemainder(n: nat, base: nat)
    requires n < base
    ensures n % base == n
  {
  }

  lemma EmptyValue(base: int)
    requires base >= 2
    ensures Value("", base) == 0
  {
  }

  lemma {:induction false} LeadingZeros(k: nat, s: string, base: int)
    requires base >= 2 && AllDigits(s, base)
    ensures AllDigits(Repeat('0', k) + s, base)
    ensures Value(Repeat('0', k) + s, base) == Value(s, base)
    decreases |s|, k
  {
    var t := Repeat('0', k) + s;
    if s != "" {
      LeadingZeros(k, s[..|s| - 1], base);
      assert t[..|t| - 1] == Repeat('0', k) + s[..|s| - 1];
    } else if k > 0 {
      LeadingZeros(k - 1, "", base);
      assert t[..k - 1] == Repeat('0', k - 1) + "";
    }
  }

  lemma {:induction false} SkipSpaceTo(s: string, i: nat, j: nat)
    requires i <= j <= |s|
    requires forall k :: i <= k < j ==> IsSpace(s[k])
    requires j == |s| || !IsSpace(s[j])
    ensures SkipSpace(s, i) == j
    decreases j - i
  {
    if i < j {
      SkipSpaceTo(s, i + 1, j);
    }
  }

  /** The scanner takes exactly a block of digits if no digit follows it or the room ends with it. */
  lemma RunIs(s: string, i: nat, block: string, base: int, room: nat)
    requires i + |block| <= |s| && s[i..i + |block|] == block
    requires AllDigits(block, base) && |block| <= room
    ensures RunLength(s, i, base, room) == |block| <==>
              |block| == room || i + |block| == |s| || !IsDigitIn(s[i + |block|], base)
  {
    var n := RunLength(s, i, base, room);
    forall k | i <= k < i + |block|
      ensures IsDigitIn(s[k], base)
    {
      assert s[i..i + |block|][k - i] == s[k];
    }
  }

  /** Nothing continues a block of digits: the text or the room ends with it, or a character follows
      that is no digit and does not turn a lone 0 into a 0x. */
  predicate Stops(hex: bool, block: string, trail: string, base: int, room: int) {
    || trail == "" || |block| == room
    || (!IsDigitIn(trail[0], base) && !(base == 16 && !hex && block == "0" && (trail[0] == 'x' || trail[0] == 'X')))
  }

  /** Digits with no sign or prefix before them, in a text that may go on. */
  lemma DigitsScan(s: string, p: nat, block: string, trail: string, base: int, room: int, negative: bool)
    requires p <= |s| && s[p..] == block + trail
    requires 2 <= base <= 16
    requires block != "" && AllDigits(block, base) && |block| <= room
    ensures ParseDigits(s, p, room, base, negative)
            == Parsed(Value(block, base) % UINT64_LIMIT, negative, p + |block|)
            <==> trail == "" || |block| == room || !IsDigitIn(trail[0], base)
    ensures HexPrefixAt(s, p, room) && base == 16 <==>
              base == 16 && room >= 2 && block == "0" && trail != "" && (trail[0] == 'x' || trail[0] == 'X')
  {
    hide Value;
    hide RunLength;
    var n := |block|;
    assert s[p..p + n] == block by { assert (block + trail)[..n] == block; }
    assert forall k :: 0 <= k < |s| - p ==> s[p + k] == (block + trail)[k];
    assert trail != "" ==> s[p + n] == trail[0];
    assert n > 1 ==> s[p + 1] == block[1] && IsDigitIn(block[1], base);
    assert n == 1 ==> (block == "0" <==> s[p] == '0');
    RunIs(s, p, block, base, room);
  }

  /** What is parsed never exceeds the room. */
  lemma CursorBound(s: string, p: nat, room: int, base: int, negative: bool)
    requires p <= |s| && 2 <= base <= 36
    ensures var r := ParseUnsigned(s, p, room, base, negative); r.Parsed? ==> p < r.cursor <= p + room
    ensures var r := ParseUnsigned(s, p, room, base, negative);
            r.Parsed? && base == 16 && HexPrefixAt(s, p, room) ==> r.cursor >= p + 3
  {
    hide Value;
  }

  /** The same behind an optional 0x. */
  lemma PrefixScan(s: string, p: nat, hex: bool, block: string, trail: string, base: int, room: int, negative: bool)
    requires p <= |s|
    requires hex ==> base == 16 && p + 2 <= |s| && s[p] == '0' && (s[p + 1] == 'x' || s[p + 1] == 'X')
    requires var q := if hex then p + 2 else p; s[q..] == block + trail
    requires base == 8 || base == 10 || base == 16
    requires block != "" && AllDigits(block, base)
    ensures var left := room - if hex then 2 else 0;
            ParseUnsigned(s, p, room, base, negative)
            == Parsed(Value(block, base) % UINT64_LIMIT, negative, |s| - |trail|)
            <==> |block| <= left && Stops(hex, block, trail, base, left)
  {
    hide ParseDigits;
    hide Value;
    hide IsDigitIn;
    var left := room - if hex then 2 else 0;
    CursorBound(s, p, room, base, negative);
    if |block| > left {
    } else if hex {
      DigitsScan(s, p + 2, block, trail, base, left, negative);
    } else {
      DigitsScan(s, p, block, trail, base, left, negative);
    }
  }

  /** The prefixes the # flag and %p produce. */
  predicate PrefixFits(f: Spec) {
    || f.prefix == ""
    || (f.base == 8 && f.prefix == "0")
    || (f.base == 16 && (f.prefix == "0x" || f.prefix == "0X"))
  }

  function HexPrefix(f: Spec): string { if f.base == 16 then f.prefix else "" }

  function VisibleSign(negative: bool, f: Spec): string {
    if negative then "-" else if f.forceSign then "+" else ""
  }

  /** The printed digits, leading zeros and an octal prefix included. */
  function Block(n: nat, negative: bool, f: Spec): string
    requires f.Valid()
  {
    (if f.base == 16 then "" else f.prefix) + Repeat('0', ZeroCount(n, negative, f)) + DigitText(n, f)
  }

  /** A space in place of a sign is a blank like any other. */
  function SignBlank(negative: bool, f: Spec): string {
    if !negative && !f.forceSign && f.spaceSign then " " else ""
  }

  lemma BodySplit(n: nat, negative: bool, f: Spec)
    requires f.Valid()
    ensures Body(n, negative, f)
         == SignBlank(negative, f) + (VisibleSign(negative, f) + (HexPrefix(f) + Block(n, negative, f)))
  {
    hide ZeroCount;
    hide DigitText;
    hide Repeat;
    hide Body;
    var z, digits := Repeat('0', ZeroCount(n, negative, f)), DigitText(n, f);
    BodyParts(n, negative, f);
    var st, blank, sign := SignText(negative, f), SignBlank(negative, f), VisibleSign(negative, f);
    assert st == blank + sign;
    hide SignText;
    hide SignBlank;
    hide VisibleSign;
    var inner := if f.base == 16 then "" else f.prefix;
    assert f.prefix == HexPrefix(f) + inner;
    hide HexPrefix;
    Reassociate(blank, sign, HexPrefix(f), inner, z, digits);
  }

  lemma Reassociate(a: string, b: string, c: string, d: string, e: string, g: string)
    ensures a + b + (c + d) + e + g == a + (b + (c + (d + e + g)))
  {
    assert a + b + (c + d) + e + g == a + b + (c + d + e + g);
    assert c + d + e + g == c + (d + e + g);
    assert a + b + (c + (d + e + g)) == a + (b + (c + (d + e + g)));
  }

  lemma BlockValue(n: nat, negative: bool, f: Spec)
    requires f.Valid() && PrefixFits(f) && DigitText(n, f) != ""
    ensures Block(n, negative, f) != "" && AllDigits(Block(n, negative, f), f.base)
    ensures Value(Block(n, negative, f), f.base) == n
  {
    var z, digits := ZeroCount(n, negative, f), DigitText(n, f);
    ValueOfDigits(n, f.base, f.upper);
    var all := z + if f.base == 8 then |f.prefix| else 0;
    LeadingZeros(all, digits, f.base);
    hide Value;
    hide Digits;
    hide ZeroCount;
    hide DigitText;
    hide IsDigitIn;
    if f.base == 8 && f.prefix == "0" {
      assert "0" + Repeat('0', z) == Repeat('0', all);
    } else if f.base != 16 {
      assert "" + Repeat('0', z) == Repeat('0', all);
    }
    assert "" + Repeat('0', z) == Repeat('0', z);
    assert Block(n, negative, f) == Repeat('0', all) + digits;
  }

  /** What follows the digits: the padding of a left-aligned field, then the rest of the text. */
  function After(n: nat, negative: bool, f: Spec, tail: string): string
    requires f.Valid()
  {
    if f.leftAlign then Repeat(' ', PadCount(n, negative, f)) + tail else tail
  }

  /** A printed number, taken apart: blanks, a visible sign, an optional 0x, digits, and the rest. */
  lemma FieldSplit(n: nat, negative: bool, f: Spec, tail: string) returns (lead: string)
    requires f.Valid()
    ensures NumberField(n, negative, f) + tail
         == lead + (VisibleSign(negative, f) + (HexPrefix(f) + (Block(n, negative, f) + After(n, negative, f, tail))))
    ensures forall k :: 0 <= k < |lead| ==> lead[k] == ' '
  {
    hide Body;
    hide Block;
    hide PadCount;
    hide VisibleSign;
    hide HexPrefix;
    var pad, body := Repeat(' ', PadCount(n, negative, f)), Body(n, negative, f);
    var blank, sign, hex, block := SignBlank(negative, f), VisibleSign(negative, f), HexPrefix(f), Block(n, negative, f);
    lead := if f.leftAlign then blank else pad + blank;
    assert NumberField(n, negative, f) == if f.leftAlign then body + pad else pad + body;
    hide NumberField;
    hide SignBlank;
    hide Repeat;
    BodySplit(n, negative, f);
    Wrap(pad, body, blank, sign, hex, block, tail, f.leftAlign);
  }

  lemma Wrap(
    pad: string, body: string, blank: string, sign: string, hex: string, block: string, tail: string, left: bool)
    requires body == blank + (sign + (hex + block))
    ensures left ==> body + pad + tail == blank + (sign + (hex + (block + (pad + tail))))
    ensures !left ==> pad + body + tail == pad + blank + (sign + (hex + (block + tail)))
  {
    if left {
      assert body + pad + tail == body + (pad + tail);
      Regroup(blank, sign, hex, block, pad + tail);
    } else {
      assert pad + body + tail == pad + (body + tail);
      Regroup(blank, sign, hex, block, tail);
      var rest := sign + (hex + (block + tail));
      assert pad + (blank + rest) == pad + blank + rest;
    }
  }

  lemma Regroup(a: string, b: string, c: string, d: string, e: string)
    ensures a + (b + (c + d)) + e == a + (b + (c + (d + e)))
  {
    assert c + d + e == c + (d + e);
    assert b + (c + d) + e == b + (c + d + e);
    assert a + (b + (c + d)) + e == a + (b + (c + d) + e);
  }

  /** A part and what stands behind it, in a text that goes on with both. */
  lemma Behind(s: string, i: nat, part: string, rest: string)
    requires i <= |s| && s[i..] == part + rest
    ensures i + |part| <= |s| && s[i..i + |part|] == part && s[i + |part|..] == rest
    ensures part != "" ==> s[i] == part[0] && s[i + |part| - 1] == part[|part| - 1]
  {
    assert s[i..][..|part|] == s[i..i + |part|];
    assert s[i..][|part|..] == s[i + |part|..];
    assert (part + rest)[..|part|] == part && (part + rest)[|part|..] == rest;
    assert part != "" ==> s[i..i + |part|][0] == s[i] && s[i..i + |part|][|part| - 1] == s[i + |part| - 1];
  }

  /** When the scanner stops right after a printed number: its sign, prefix and digits fit the scan
      width, and nothing continues them. */
  predicate ReadsBack(n: nat, negative: bool, f: Spec, tail: string, width: int)
    requires f.Valid()
  {
    var limit := if width > 0 then width else INT_MAX;
    var left := limit - |VisibleSign(negative, f)| - |HexPrefix(f)|;
    var block := Block(n, negative, f);
    |block| <= left && Stops(HexPrefix(f) != "", block, After(n, negative, f, tail), f.base, left)
  }

  /** Scanning what the formatter prints gives back the magnitude and the sign and stops right
      after the number, for every 64-bit magnitude, base 8, 10 or 16, and every mix of flags, width,
      precision and prefix that leaves a digit: exactly when the text after it lets it. */
  lemma ScanUndoesFormat(n: nat, negative: bool, f: Spec, tail: string, width: int, allowSign: bool)
    requires f.Valid() && n < UINT64_LIMIT && PrefixFits(f) && DigitText(n, f) != ""
    requires allowSign || (!negative && !f.forceSign)
    ensures var s := NumberField(n, negative, f) + tail;
            ScanField(s, width, f.base, allowSign) == Parsed(n, negative, |s| - |After(n, negative, f, tail)|)
            <==> ReadsBack(n, negative, f, tail, width)
  {
    hide NumberField;
    hide Body;
    hide Block;
    hide Value;
    hide DigitText;
    hide PadCount;
    hide ParseFrom;
    hide SkipSpace;
    hide IsDigitIn;
    hide DigitValue;
    hide After;
    hide Stops;
    var s, trail := NumberField(n, negative, f) + tail, After(n, negative, f, tail);
    var sign, hex, block := VisibleSign(negative, f), HexPrefix(f), Block(n, negative, f);
    var lead := FieldSplit(n, negative, f, tail);
    BlockValue(n, negative, f);
    assert WHITE[0] == ' ';
    ShapeScan(s, lead, sign, hex, block, trail, f.base, width, allowSign);
  }

  /** Scanning any text of that shape. */
  lemma ShapeScan(
    s: string, lead: string, sign: string, hex: string, block: string, trail: string,
    base: int, width: int, allowSign: bool)
    requires s == lead + (sign + (hex + (block + trail)))
    requires forall k :: 0 <= k < |lead| ==> lead[k] in WHITE
    requires sign == "" || (allowSign && (sign == "-" || sign == "+"))
    requires hex == "" || (base == 16 && (hex == "0x" || hex == "0X"))
    requires base == 8 || base == 10 || base == 16
    requires block != "" && AllDigits(block, base)
    ensures var left := (if width > 0 then width else INT_MAX) - |sign| - |hex|;
            ParseFrom(s, SkipSpace(s, 0), width, base, allowSign)
            == Parsed(Value(block, base) % UINT64_LIMIT, sign == "-", |s| - |trail|)
            <==> |block| <= left && Stops(hex != "", block, trail, base, left)
  {
    hide Value;
    hide ParseFrom;
    hide SkipSpace;
    hide IsDigitIn;
    hide Stops;
    var i := |lead|;
    ShapeFacts(s, lead, sign, hex, block, trail);
    DigitIsVisible(block[0], base);
    SpacesOf(s, lead);
    SkipSpaceTo(s, 0, i);
    ScanAt(s, i, sign, hex, block, trail, base, width, allowSign);
  }

  lemma SpacesOf(s: string, lead: string)
    requires lead <= s && forall k :: 0 <= k < |lead| ==> lead[k] in WHITE
    ensures forall k :: 0 <= k < |lead| ==> IsSpace(s[k])
  {
    forall k | 0 <= k < |lead|
      ensures IsSpace(s[k])
    {
      WhiteIsSpace(lead[k]);
    }
  }

  lemma DigitIsVisible(c: char, base: int)
    requires IsDigitIn(c, base)
    ensures !IsSpace(c) && c != '+' && c != '-'
  {
  }

  lemma ShapeFacts(s: string, lead: string, sign: string, hex: string, block: string, trail: string)
    requires s == lead + (sign + (hex + (block + trail)))
    requires |sign| <= 1 && (hex == "" || |hex| == 2) && block != ""
    ensures var i, p, q := |lead|, |lead| + |sign|, |lead| + |sign| + |hex|;
            && q < |s| && s[..i] == lead && s[q..] == block + trail && s[q] == block[0]
            && (sign != "" ==> s[i] == sign[0])
            && (hex != "" ==> s[p] == hex[0] && s[p + 1] == hex[1])
  {
    Front(s, lead, sign + (hex + (block + trail)));
    AfterLead(s, |lead|, sign, hex, block, trail);
  }

  lemma AfterLead(s: string, i: nat, sign: string, hex: string, block: string, trail: string)
    requires i <= |s| && s[i..] == sign + (hex + (block + trail))
    requires |sign| <= 1 && (hex == "" || |hex| == 2) && block != ""
    ensures var p, q := i + |sign|, i + |sign| + |hex|;
            && q < |s| && s[q..] == block + trail && s[q] == block[0]
            && (sign != "" ==> s[i] == sign[0])
            && (hex != "" ==> s[p] == hex[0] && s[p + 1] == hex[1])
  {
    Behind(s, i, sign, hex + (block + trail));
    BehindSignFacts(s, i + |sign|, hex, block, trail);
  }

  lemma BehindSignFacts(s: string, p: nat, hex: string, block: string, trail: string)
    requires p <= |s| && s[p..] == hex + (block + trail) && (hex == "" || |hex| == 2) && block != ""
    ensures var q := p + |hex|;
            && q < |s| && s[q..] == block + trail && s[q] == block[0]
            && (hex != "" ==> s[p] == hex[0] && s[p + 1] == hex[1])
  {
    Behind(s, p, hex, block + trail);
    assert s[p + |hex|..][0] == s[p + |hex|];
  }

  lemma Front(s: string, part: string, rest: string)
    requires s == part + rest
    ensures |part| <= |s| && s[..|part|] == part && s[|part|..] == rest
  {
  }

  lemma ScanAt(
    s: string, i: nat, sign: string, hex: string, block: string, trail: string,
    base: int, width: int, allowSign: bool)
    requires var p, q := i + |sign|, i + |sign| + |hex|;
             && q < |s| && s[q..] == block + trail && block != "" && s[q] == block[0]
             && (sign != "" ==> s[i] == sign[0])
             && (hex != "" ==> |hex| == 2 && s[p] == hex[0] && s[p + 1] == hex[1])
    requires sign == "" || (allowSign && (sign == "-" || sign == "+"))
    requires hex == "" || (base == 16 && (hex == "0x" || hex == "0X"))
    requires base == 8 || base == 10 || base == 16
    requires AllDigits(block, base)
    ensures var left := (if width > 0 then width else INT_MAX) - |sign| - |hex|;
            ParseFrom(s, i, width, base, allowSign)
            == Parsed(Value(block, base) % UINT64_LIMIT, sign == "-", |s| - |trail|)
            <==> |block| <= left && Stops(hex != "", block, trail, base, left)
  {
    hide Value, ParseUnsigned, ParseFrom, Stops;
    var p, room := i + |sign|, (if width > 0 then width else INT_MAX) - |sign|;
    DigitIsVisible(block[0], base);
    hide IsDigitIn, IsSpace;
    assert sign == "" ==> s[i] == if hex != "" then '0' else block[0];
    SignStep(s, i, sign, width, base, allowSign);
    BehindSign(s, p, hex, block, trail, base, room, sign == "-");
  }

  lemma BehindSign(
    s: string, p: nat, hex: string, block: string, trail: string, base: int, room: int, negative: bool)
    requires p + |hex| < |s| && s[p + |hex|..] == block + trail
    requires hex == "" || (base == 16 && (hex == "0x" || hex == "0X") && s[p] == hex[0] && s[p + 1] == hex[1])
    requires base == 8 || base == 10 || base == 16
    requires block != "" && AllDigits(block, base)
    ensures var left := room - |hex|;
            ParseUnsigned(s, p, room, base, negative)
            == Parsed(Value(block, base) % UINT64_LIMIT, negative, |s| - |trail|)
            <==> |block| <= left && Stops(hex != "", block, trail, base, left)
  {
    hide Value, ParseUnsigned, Stops, IsDigitIn;
    if hex == "" {
      PrefixScan(s, p, false, block, trail, base, room, negative);
    } else {
      PrefixScan(s, p, true, block, trail, base, room, negative);
    }
  }

  lemma SignStep(s: string, i: nat, sign: string, width: int, base: int, allowSign: bool)
    requires i < |s| && (base == 0 || 2 <= base <= 36)
    requires if sign == "" then s[i] != '+' && s[i] != '-' else allowSign && (sign == "-" || sign == "+") && s[i] == sign[0]
    ensures ParseFrom(s, i, width, base, allowSign)
         == ParseUnsigned(s, i + |sign|, (if width > 0 then width else INT_MAX) - |sign|, base, sign == "-")
  {
    hide ParseUnsigned;
  }

  // ----- a base that the text itself shows -----

  /** The digits show their base: 0x for 16, a further digit behind a 0 for 8, no 0 in front for 10. */
  predicate ShowsBase(hex: string, block: string, base: int) {
    if base == 16 then hex != ""
    else if base == 8 then |block| >= 2 && block[0] == '0'
    else block != "" && block[0] != '0'
  }

  /** Without a given base, behind the sign. */
  lemma BaseIsFound(
    s: string, p: nat, hex: string, block: string, trail: string, base: int, room: int, negative: bool)
    requires p + |hex| < |s| && s[p + |hex|..] == block + trail && s[p + |hex|] == (block + trail)[0]
    requires hex == "" || (base == 16 && (hex == "0x" || hex == "0X") && s[p] == hex[0] && s[p + 1] == hex[1])
    requires base == 8 || base == 10 || base == 16
    requires block != "" && AllDigits(block, base) && ShowsBase(hex, block, base)
    ensures var r := Parsed(Value(block, base) % UINT64_LIMIT, negative, |s| - |trail|);
            ParseUnsigned(s, p, room, 0, negative) == r <==> ParseUnsigned(s, p, room, base, negative) == r
  {
    hide Value, RunLength;
    assert |s| - |trail| == p + |hex| + |block| by {
      assert |s[p + |hex|..]| == |block + trail|;
    }
    if base == 16 && room < 2 {
      CursorBound(s, p, room, 16, negative);
      OneCharacter(s, p, room, negative);
    } else {
      if base == 8 {
        SecondDigit(s, p, block, trail);
      }
      hide IsDigitIn;
      assert BaseFor(s, p, 0, room) == base;
    }
  }

  lemma OneCharacter(s: string, p: nat, room: int, negative: bool)
    requires p <= |s| && room < 2
    ensures var r := ParseUnsigned(s, p, room, 0, negative); r.Parsed? ==> r.cursor <= p + 1
  {
    hide Value;
  }

  lemma SecondDigit(s: string, p: nat, block: string, trail: string)
    requires p < |s| && s[p..] == block + trail && |block| >= 2 && AllDigits(block, 8)
    ensures p + 1 < |s| && s[p + 1] != 'x' && s[p + 1] != 'X'
  {
    assert s[p..][1] == s[p + 1] && (block + trail)[1] == block[1];
    assert IsDigitIn(block[1], 8);
  }

  /** What the formatter prints so that it shows its base, %#x, %#o and a plain %d, is read back without
      a given base (%i) under the same condition as with it. */
  lemma ScanFindsBase(n: nat, negative: bool, f: Spec, tail: string, width: int, allowSign: bool)
    requires f.Valid() && n < UINT64_LIMIT && PrefixFits(f) && DigitText(n, f) != ""
    requires allowSign || (!negative && !f.forceSign)
    requires ShowsBase(HexPrefix(f), Block(n, negative, f), f.base)
    ensures var s := NumberField(n, negative, f) + tail;
            ScanField(s, width, 0, allowSign) == Parsed(n, negative, |s| - |After(n, negative, f, tail)|)
            <==> ReadsBack(n, negative, f, tail, width)
  {
    hide NumberField, Body, Block, Value, DigitText, PadCount, ParseFrom, SkipSpace, IsDigitIn, DigitValue;
    hide After, ReadsBack, ShowsBase, VisibleSign, HexPrefix;
    ScanUndoesFormat(n, negative, f, tail, width, allowSign);
    var s, trail := NumberField(n, negative, f) + tail, After(n, negative, f, tail);
    var sign, hex, block := VisibleSign(negative, f), HexPrefix(f), Block(n, negative, f);
    var lead := FieldSplit(n, negative, f, tail);
    BlockValue(n, negative, f);
    SignAndPrefix(negative, f);
    ShapeNeedsNoBase(s, lead, sign, hex, block, trail, f.base, width, allowSign);
  }

  lemma SignAndPrefix(negative: bool, f: Spec)
    requires PrefixFits(f)
    ensures var sign := VisibleSign(negative, f);
            (sign == "" || sign == "-" || sign == "+") && (sign == "-" <==> negative) && (sign == "+" ==> f.forceSign)
    ensures var hex := HexPrefix(f); hex == "" || (f.base == 16 && (hex == "0x" || hex == "0X"))
  {
  }

  lemma ShapeNeedsNoBase(
    s: string, lead: string, sign: string, hex: string, block: string, trail: string,
    base: int, width: int, allowSign: bool)
    requires s == lead + (sign + (hex + (block + trail)))
    requires forall k :: 0 <= k < |lead| ==> lead[k] == ' '
    requires sign == "" || (allowSign && (sign == "-" || sign == "+"))
    requires hex == "" || (base == 16 && (hex == "0x" || hex == "0X"))
    requires base == 8 || base == 10 || base == 16
    requires block != "" && AllDigits(block, base) && ShowsBase(hex, block, base)
    ensures var r := Parsed(Value(block, base) % UINT64_LIMIT, sign == "-", |s| - |trail|);
            ScanField(s, width, 0, allowSign) == r <==> ScanField(s, width, base, allowSign) == r
  {
    hide Value, ParseFrom, ParseUnsigned, SkipSpace, ShowsBase;
    ShapeFacts(s, lead, sign, hex, block, trail);
    DigitIsVisible(block[0], base);
    hide IsDigitIn;
    BlanksSkipped(s, lead);
    hide IsSpace;
    var room := (if width > 0 then width else INT_MAX) - |sign|;
    SignStep(s, |lead|, sign, width, 0, allowSign);
    SignStep(s, |lead|, sign, width, base, allowSign);
    BaseIsFound(s, |lead| + |sign|, hex, block, trail, base, room, sign == "-");
  }

  lemma BlanksSkipped(s: string, lead: string)
    requires lead <= s && (forall k :: 0 <= k < |lead| ==> lead[k] == ' ') && |lead| < |s| && !IsSpace(s[|lead|])
    ensures SkipSpace(s, 0) == |lead|
  {
    SkipSpaceTo(s, 0, |lead|);
  }
}
