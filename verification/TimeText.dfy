/** Reading back what strftime writes: every directive gives its field, and a date and a time give
    the second they were made from. */
module TimeText {
  import opened CArith
  import opened CText
  import opened BrokenDownTime
  import opened Calendar
  import opened NumberText
  import opened Strftime
  import Scan

  // ----- numbers of a fixed width -----

  /** A text of exactly `width` decimal digits that denotes v. */
  predicate Reads(text: Option<string>, width: nat, v: int) {
    && text.Some? && |text.value| == width
    && Scan.AllDigits(text.value, 10) && Scan.Value(text.value, 10) == v
  }

  lemma OneDigit(d: int)
    requires 0 <= d <= 9
    ensures Reads(Some([DigitChar(d, false)]), 1, d)
  {
    var c := DigitChar(d, false);
    Scan.DigitCharValue(d, 10, false);
    Scan.EmptyValue(10);
    Scan.ValueAppend("", c, 10);
    assert "" + [c] == [c];
  }

  /** One more digit on the right. */
  lemma NextDigit(text: string, v: int, d: int)
    requires 0 <= d <= 9 && Reads(Some(text), |text|, v)
    ensures Reads(Some(text + [DigitChar(d, false)]), |text| + 1, v * 10 + d)
  {
    Scan.DigitCharValue(d, 10, false);
    Scan.ValueAppend(text, DigitChar(d, false), 10);
  }

  lemma TwoDigitsRead(v: int)
    ensures if 0 <= v <= 99 then Reads(TwoDigits(v), 2, v) else TwoDigits(v) == None
  {
    hide Reads;
    if 0 <= v <= 99 {
      OneDigit(v / 10);
      NextDigit([DigitChar(v / 10, false)], v / 10, v % 10);
      assert TwoDigits(v).value == [DigitChar(v / 10, false)] + [DigitChar(v % 10, false)];
    }
  }

  lemma ThreeDigitsRead(v: int)
    ensures if 0 <= v <= 999 then Reads(ThreeDigits(v), 3, v) else ThreeDigits(v) == None
  {
    hide Reads;
    if 0 <= v <= 999 {
      var a, b, c := v / 100, v / 10 % 10, v % 10;
      OneDigit(a);
      NextDigit([DigitChar(a, false)], a, b);
      NextDigit([DigitChar(a, false)] + [DigitChar(b, false)], a * 10 + b, c);
      Hundreds(v);
      assert ThreeDigits(v).value == [DigitChar(a, false)] + [DigitChar(b, false)] + [DigitChar(c, false)];
    }
  }

  lemma Hundreds(v: int)
    requires 0 <= v <= 999
    ensures 0 <= v / 100 <= 9 && (v / 100 * 10 + v / 10 % 10) * 10 + v % 10 == v
  {
  }

  // ----- each directive gives its field back -----

  /** The numeric directives, each with its field and its width; out of range there is no text. */
  lemma NumbersReadBack(t: Fields, zone: Zone)
    requires zone.Valid()
    ensures if 0 <= t.mon + 1 <= 99 then Reads(Directive('m', t, zone), 2, t.mon + 1)
            else Directive('m', t, zone).None?
    ensures if 0 <= t.mday <= 99 then Reads(Directive('d', t, zone), 2, t.mday) else Directive('d', t, zone).None?
    ensures if 0 <= t.hour <= 99 then Reads(Directive('H', t, zone), 2, t.hour) else Directive('H', t, zone).None?
    ensures if 0 <= t.min <= 99 then Reads(Directive('M', t, zone), 2, t.min) else Directive('M', t, zone).None?
    ensures if 0 <= t.sec <= 99 then Reads(Directive('S', t, zone), 2, t.sec) else Directive('S', t, zone).None?
    ensures Reads(Directive('y', t, zone), 2, (t.year + 1900) % 100)
    ensures if 0 <= t.yday + 1 <= 999 then Reads(Directive('j', t, zone), 3, t.yday + 1)
            else Directive('j', t, zone).None?
  {
    hide Reads, TwoDigits, ThreeDigits;
    TwoDigitsRead(t.mon + 1);
    TwoDigitsRead(t.mday);
    TwoDigitsRead(t.hour);
    TwoDigitsRead(t.min);
    TwoDigitsRead(t.sec);
    TwoDigitsRead(t.year % 100);
    ThreeDigitsRead(t.yday + 1);
    assert (t.year + 1900) % 100 == t.year % 100;
  }

  /** %I and %p together give the hour back: twelve stands for the first hour of its half. */
  lemma TwelveHoursReadBack(t: Fields, zone: Zone) returns (h12: int)
    requires zone.Valid()
    ensures var p := Directive('p', t, zone);
            if 0 <= t.hour <= 23 then
              && Reads(Directive('I', t, zone), 2, h12) && 1 <= h12 <= 12 && (p == Some("AM") || p == Some("PM"))
              && t.hour == h12 % 12 + if p == Some("PM") then 12 else 0
            else Directive('I', t, zone).None? && p.None?
  {
    hide Reads, TwoDigits;
    h12 := if t.hour % 12 == 0 then 12 else t.hour % 12;
    TwoDigitsRead(h12);
  }

  /** %e is %d with a blank for a leading zero. */
  lemma DayReadsBack(t: Fields, zone: Zone)
    requires zone.Valid()
    ensures var e, d := Directive('e', t, zone), Directive('d', t, zone);
            if 0 <= t.mday <= 31 then
              && e.Some? && d.Some? && |e.value| == |d.value| == 2
              && e.value == if d.value[0] == '0' then [' ', d.value[1]] else d.value
            else e.None?
  {
    if 0 <= t.mday <= 9 {
      assert t.mday / 10 == 0 && t.mday % 10 == t.mday;
    }
  }

  /** The abbreviation is the first three letters, different names stand for different months, and
      the year starts with January. */
  lemma MonthsReadBack(t: Fields, u: Fields, zone: Zone)
    requires zone.Valid()
    ensures var b, B := Directive('b', t, zone), Directive('B', t, zone);
            if 0 <= t.mon <= 11 then b.Some? && B.Some? && |B.value| >= 3 && b.value == B.value[..3]
            else b.None? && B.None?
    ensures 0 <= t.mon <= 11 && Directive('b', t, zone) == Directive('b', u, zone) ==> t.mon == u.mon
    ensures t.mon == 0 ==> Directive('B', t, zone) == Some("January")
  {
    AbbreviationsAreStarts();
    MonthNamesDiffer();
  }

  lemma AbbreviationsAreStarts()
    ensures forall m :: 0 <= m <= 11 ==> |MONTH_FULL_NAMES[m]| >= 3 && MONTH_NAMES[m] == MONTH_FULL_NAMES[m][..3]
    ensures forall w :: 0 <= w <= 6 ==> |WEEKDAY_FULL_NAMES[w]| >= 3 && WEEKDAY_NAMES[w] == WEEKDAY_FULL_NAMES[w][..3]
  {
  }

  /** The last two letters of a month tell it from the others. */
  lemma MonthNamesDiffer()
    ensures forall m, n :: 0 <= m < n <= 11 ==> MONTH_NAMES[m] != MONTH_NAMES[n]
  {
    forall m, n | 0 <= m < n <= 11
      ensures MONTH_NAMES[m] != MONTH_NAMES[n]
    {
      var a, b := MONTH_NAMES[m], MONTH_NAMES[n];
      assert a[0] != b[0] || a[1] != b[1] || a[2] != b[2];
    }
  }

  lemma WeekdaysReadBack(t: Fields, u: Fields, zone: Zone)
    requires zone.Valid()
    ensures var a, A := Directive('a', t, zone), Directive('A', t, zone);
            if 0 <= t.wday <= 6 then a.Some? && A.Some? && |A.value| >= 3 && a.value == A.value[..3]
            else a.None? && A.None?
    ensures 0 <= t.wday <= 6 && Directive('a', t, zone) == Directive('a', u, zone) ==> t.wday == u.wday
    ensures t.wday == 0 ==> Directive('A', t, zone) == Some("Sunday")
  {
    AbbreviationsAreStarts();
    WeekdayNamesDiffer();
  }

  lemma WeekdayNamesDiffer()
    ensures forall m, n :: 0 <= m < n <= 6 ==> WEEKDAY_NAMES[m] != WEEKDAY_NAMES[n]
  {
    forall m, n | 0 <= m < n <= 6
      ensures WEEKDAY_NAMES[m] != WEEKDAY_NAMES[n]
    {
      var a, b := WEEKDAY_NAMES[m], WEEKDAY_NAMES[n];
      assert a[0] != b[0] || a[1] != b[1];
    }
  }

  /** %z gives the offset back to the minute: a sign, two digits of hours and two of minutes. */
  lemma OffsetReadsBack(t: Fields, zone: Zone) returns (hours: int, minutes: int)
    requires zone.Valid()
    ensures var z := Directive('z', t, zone);
            && z.Some? && |z.value| == 5 && z.value[0] == (if zone.offset < 0 then '-' else '+')
            && Reads(Some(z.value[1..3]), 2, hours) && Reads(Some(z.value[3..5]), 2, minutes) && minutes <= 59
            && 0 <= (if zone.offset < 0 then -zone.offset else zone.offset) - (hours * 3600 + minutes * 60) < 60
  {
    hide Reads, ZoneText, TwoDigits;
    var m := Magnitude(zone.offset);
    hours, minutes := m / 3600, m % 3600 / 60;
    TwoDigitsRead(hours);
    TwoDigitsRead(minutes);
    OffsetParts(m);
    ZonePieces(zone.offset, hours, minutes);
  }

  lemma ZonePieces(offset: int, hours: int, minutes: int)
    requires -86400 < offset < 86400 && hours == Magnitude(offset) / 3600 && minutes == Magnitude(offset) % 3600 / 60
    requires 0 <= hours <= 23 && 0 <= minutes <= 59
    ensures var z := ZoneText(offset);
            && |z| == 5 && z[0] == (if offset < 0 then '-' else '+')
            && Some(z[1..3]) == TwoDigits(hours) && Some(z[3..5]) == TwoDigits(minutes)
  {
    var h, m := TwoDigits(hours).value, TwoDigits(minutes).value;
    hide TwoDigits;
    var z := ZoneText(offset);
    assert z == [if offset < 0 then '-' else '+'] + h + m;
    assert z[1..3] == h && z[3..5] == m;
  }

  lemma OffsetParts(m: int)
    requires 0 <= m < 86400
    ensures 0 <= m / 3600 <= 23 && 0 <= m % 3600 / 60 <= 59
    ensures m == m / 3600 * 3600 + m % 3600 / 60 * 60 + m % 60
  {
    ClockSplit(m);
  }

  /** %Y is read back by the integer scanner: any year, with its sign, up to the first character
      that is no digit. */
  lemma YearReadsBack(t: Fields, zone: Zone, tail: string)
    requires zone.Valid() && IsInt32(t.year) && (tail == "" || !IsDigit(tail[0]))
    ensures var y, year := Directive('Y', t, zone), t.year + 1900;
            y.Some? && Scan.ScanField(y.value + tail, 0, 10, true) == Scan.Parsed(Magnitude(year), year < 0, |y.value|)
  {
    hide SignedDecimal, Scan.ScanField;
    SignedReadsBack(t.year + 1900, tail);
  }

  lemma SignedReadsBack(v: int, tail: string)
    requires Magnitude(v) < Power(10, 10) && (tail == "" || !IsDigit(tail[0]))
    ensures Scan.ScanField(SignedDecimal(v) + tail, 0, 10, true)
         == Scan.Parsed(Magnitude(v), v < 0, |SignedDecimal(v)|)
  {
    hide Scan.Value, Scan.ParseFrom, Scan.SkipSpace;
    var sign, block := if v < 0 then "-" else "", Digits(Magnitude(v), 10, false);
    var s := SignedDecimal(v) + tail;
    Scan.ValueOfDigits(Magnitude(v), 10, false);
    DigitCount(Magnitude(v), 10, false, 10);
    hide Digits;
    TenDigits();
    hide Power;
    assert SignedDecimal(v) == sign + block;
    Parts(sign, block, tail);
    assert Scan.Stops(false, block, tail, 10, INT_MAX - |sign|);
    Scan.ShapeScan(s, "", sign, "", block, tail, 10, 0, true);
  }

  lemma Parts(sign: string, block: string, tail: string)
    ensures sign + block + tail == "" + (sign + ("" + (block + tail)))
  {
  }

  lemma TenDigits()
    ensures Power(10, 10) == 10_000_000_000
  {
    assert Power(10, 5) == 100_000;
    assert Power(10, 10) == 100_000 * Power(10, 5);
  }

  // ----- whole formats -----

  lemma RenderFirst(format: string, n: nat, t: Fields, zone: Zone)
    requires format != "" && zone.Valid() && n == NextElement(format, 0)
    ensures Render(format, t, zone) == Join(Element(format, 0, t, zone), Render(format[n..], t, zone))
  {
    hide Render, Element, Join;
    assert format[0..] == format;
    RenderElement(format, 0, t, zone);
  }

  /** Escaped text is rendered as it is, whatever follows it. */
  lemma {:induction false} EscapedTextIsLiteral(text: string, rest: string, t: Fields, zone: Zone)
    requires zone.Valid()
    ensures Render(Escape(text) + rest, t, zone) == Join(Some(text), Render(rest, t, zone))
    decreases |text|
  {
    hide Render, Join;
    if text == "" {
      assert Escape(text) + rest == rest;
      hide Escape;
      JoinUnit(Render(rest, t, zone));
    } else {
      hide Escape;
      var more := Escape(text[1..]) + rest;
      LiteralThen(text[0], more, t, zone);
      EscapeFirst(text, rest);
      EscapedTextIsLiteral(text[1..], rest, t, zone);
      JoinAssociates([text[0]], text[1..], Render(rest, t, zone));
      assert [text[0]] + text[1..] == text;
    }
  }

  lemma EscapeFirst(text: string, rest: string)
    requires text != ""
    ensures Escape(text) + rest == Escape([text[0]]) + (Escape(text[1..]) + rest)
  {
    var first, more := Escape([text[0]]), Escape(text[1..]);
    assert Escape(text) == first + more by {
      EscapeOne(text[0]);
    }
    hide Escape;
    Regroup(first, more, rest);
  }

  lemma EscapeOne(c: char)
    ensures Escape([c]) == if c == '%' then "%%" else [c]
  {
    assert [c][1..] == "";
  }

  lemma LiteralThen(c: char, rest: string, t: Fields, zone: Zone)
    requires zone.Valid()
    ensures Render(Escape([c]) + rest, t, zone) == Join(Some([c]), Render(rest, t, zone))
  {
    hide Render, Join;
    EscapeOne(c);
    hide Escape;
    if c == '%' {
      DirectiveThen('%', rest, t, zone);
    } else {
      CharThen(c, rest, t, zone);
    }
  }

  /** %n, %t and %Z stand for a new line, a tabulator and the name of the zone, as if written out. */
  lemma SpelledOut(rest: string, t: Fields, zone: Zone)
    requires zone.Valid()
    ensures Render("%n" + rest, t, zone) == Render(Escape("\n") + rest, t, zone)
    ensures Render("%t" + rest, t, zone) == Render(Escape("\t") + rest, t, zone)
    ensures Render("%Z" + rest, t, zone) == Render(Escape(zone.name) + rest, t, zone)
  {
    hide Render;
    DirectiveThen('n', rest, t, zone);
    EscapedTextIsLiteral("\n", rest, t, zone);
    DirectiveThen('t', rest, t, zone);
    EscapedTextIsLiteral("\t", rest, t, zone);
    DirectiveThen('Z', rest, t, zone);
    EscapedTextIsLiteral(zone.name, rest, t, zone);
  }

  lemma DirectiveThen(c: char, rest: string, t: Fields, zone: Zone)
    requires zone.Valid() && !IsComposite(c)
    ensures Render(['%', c] + rest, t, zone) == Join(Directive(c, t, zone), Render(rest, t, zone))
  {
    hide Render, Directive, Join;
    var f := ['%', c] + rest;
    assert f[0] == '%' && f[1] == c && f[2..] == rest;
    RenderFirst(f, 2, t, zone);
  }

  lemma CompositeThen(c: char, rest: string, t: Fields, zone: Zone)
    requires zone.Valid() && IsComposite(c)
    ensures Render(['%', c] + rest, t, zone) == Join(Render(Expansion(c), t, zone), Render(rest, t, zone))
  {
    hide Render, Directive, Expansion, Join;
    var f := ['%', c] + rest;
    assert f[0] == '%' && f[1] == c && f[2..] == rest;
    RenderFirst(f, 2, t, zone);
  }

  lemma CharThen(c: char, rest: string, t: Fields, zone: Zone)
    requires zone.Valid() && c != '%'
    ensures Render([c] + rest, t, zone) == Join(Some([c]), Render(rest, t, zone))
  {
    hide Render, Join;
    var f := [c] + rest;
    assert f[0] == c && f[1..] == rest;
    RenderFirst(f, 1, t, zone);
  }

  /** The format does not end inside a directive. */
  predicate Complete(format: string) {
    format == "" || (if format[0] != '%' then Complete(format[1..]) else |format| >= 2 && Complete(format[2..]))
  }

  lemma JoinJoin(a: Option<string>, b: Option<string>, c: Option<string>)
    ensures Join(Join(a, b), c) == Join(a, Join(b, c))
  {
    if a.Some? && b.Some? {
      JoinAssociates(a.value, b.value, c);
    }
  }

  /** Rendering works piece by piece: a format put together renders to the texts put together, and
      fails exactly when a part fails. */
  lemma {:induction false} RenderConcat(f: string, g: string, t: Fields, zone: Zone)
    requires zone.Valid() && Complete(f)
    ensures Render(f + g, t, zone) == Join(Render(f, t, zone), Render(g, t, zone))
    decreases |f|
  {
    hide Render, Join;
    if f == "" {
      assert f + g == g;
      RenderOfNothing(t, zone);
      JoinUnit(Render(g, t, zone));
    } else {
      var n := if f[0] == '%' then 2 else 1;
      RenderFirst(f, n, t, zone);
      RenderFirst(f + g, n, t, zone);
      assert (f + g)[n..] == f[n..] + g;
      SameElement(f, g, t, zone);
      RenderConcat(f[n..], g, t, zone);
      JoinJoin(Element(f, 0, t, zone), Render(f[n..], t, zone), Render(g, t, zone));
    }
  }

  lemma SameElement(f: string, g: string, t: Fields, zone: Zone)
    requires zone.Valid() && f != "" && Complete(f)
    ensures Element(f + g, 0, t, zone) == Element(f, 0, t, zone)
  {
    hide Render, Directive;
    assert (f + g)[0] == f[0] && (|f| >= 2 ==> (f + g)[1] == f[1]);
  }

  /** %T is %R with the seconds. */
  lemma ClockWithSeconds(t: Fields, zone: Zone)
    requires zone.Valid()
    ensures Render("%T", t, zone) == Render("%R:%S", t, zone)
  {
    hide Render, Join;
    RenderOfNothing(t, zone);
    CompositeThen('T', "", t, zone);
    CompositeThen('R', ":%S", t, zone);
    var f, g := "%H:%M", ":%S";
    assert Complete(f) by {
      assert f[2..] == ":%M" && f[2..][1..] == "%M" && f[2..][1..][2..] == "";
    }
    RenderConcat(f, g, t, zone);
    assert f + g == "%H:%M:%S" && ['%', 'T'] + "" == "%T" && ['%', 'R'] + g == "%R:%S";
    JoinNothing(Render("%H:%M:%S", t, zone));
  }

  lemma JoinNothing(x: Option<string>)
    ensures Join(x, Some("")) == x
  {
    if x.Some? {
      assert x.value + "" == x.value;
    }
  }

  /** A directive, a separator, a directive, a separator, a directive. */
  lemma ThreeDirectives(a: char, b: char, c: char, sep: char, t: Fields, zone: Zone)
    requires zone.Valid() && !IsComposite(a) && !IsComposite(b) && !IsComposite(c) && sep != '%'
    requires Directive(a, t, zone).Some? && Directive(b, t, zone).Some? && Directive(c, t, zone).Some?
    ensures Render(['%', a, sep, '%', b, sep, '%', c], t, zone)
         == Some(Directive(a, t, zone).value + [sep] + Directive(b, t, zone).value + [sep] + Directive(c, t, zone).value)
  {
    hide Directive;
    hide Render;
    var x, y, z := Directive(a, t, zone).value, Directive(b, t, zone).value, Directive(c, t, zone).value;
    var f1, f2, f3, f4 := [sep, '%', b, sep, '%', c], ['%', b, sep, '%', c], [sep, '%', c], ['%', c];
    RenderOfNothing(t, zone);
    DirectiveThen(c, "", t, zone);
    assert ['%', c] + "" == f4;
    CharThen(sep, f4, t, zone);
    assert [sep] + f4 == f3;
    DirectiveThen(b, f3, t, zone);
    assert ['%', b] + f3 == f2;
    CharThen(sep, f2, t, zone);
    assert [sep] + f2 == f1;
    DirectiveThen(a, f1, t, zone);
    assert ['%', a] + f1 == ['%', a, sep, '%', b, sep, '%', c];
    assert z + "" == z;
    Chain(x, y, z, [sep]);
  }

  lemma Chain(x: string, y: string, z: string, sep: string)
    ensures x + (sep + (y + (sep + z))) == x + sep + y + sep + z
  {
  }

  /** A date and a time of day, read from a text: the year with the integer scanner, then five numbers
      of two digits between their separators. */
  predicate ReadsAs(text: string, t: Fields) {
    var p := Scan.ScanField(text, 0, 10, true);
    && p.Parsed? && p.cursor <= |text|
    && t.year + 1900 == (if p.negative then -p.value else p.value)
    && var rest := text[p.cursor..];
    && |rest| == 15
    && rest[0] == '-' && rest[3] == '-' && rest[6] == ' ' && rest[9] == ':' && rest[12] == ':'
    && Reads(Some(rest[1..3]), 2, t.mon + 1) && Reads(Some(rest[4..6]), 2, t.mday)
    && Reads(Some(rest[7..9]), 2, t.hour) && Reads(Some(rest[10..12]), 2, t.min) && Reads(Some(rest[13..15]), 2, t.sec)
  }

  /** Six texts set as a date and a time of day. */
  function Stamp(y: string, m: string, d: string, hour: string, min: string, sec: string): string {
    y + (['-'] + m + ['-'] + d + [' '] + hour + [':'] + min + [':'] + sec)
  }

  lemma StampText(t: Fields, zone: Zone)
    requires zone.Valid()
    requires forall c :: c in {'Y', 'm', 'd', 'H', 'M', 'S'} ==> Directive(c, t, zone).Some?
    ensures Render("%F %T", t, zone)
         == Some(Stamp(Directive('Y', t, zone).value, Directive('m', t, zone).value, Directive('d', t, zone).value,
                       Directive('H', t, zone).value, Directive('M', t, zone).value, Directive('S', t, zone).value))
  {
    hide Directive, Render;
    RenderOfNothing(t, zone);
    CompositeThen('F', " %T", t, zone);
    assert ['%', 'F'] + " %T" == "%F %T";
    CharThen(' ', "%T", t, zone);
    assert [' '] + "%T" == " %T";
    CompositeThen('T', "", t, zone);
    assert ['%', 'T'] + "" == "%T";
    ThreeDirectives('Y', 'm', 'd', '-', t, zone);
    assert Expansion('F') == ['%', 'Y', '-', '%', 'm', '-', '%', 'd'];
    ThreeDirectives('H', 'M', 'S', ':', t, zone);
    assert Expansion('T') == ['%', 'H', ':', '%', 'M', ':', '%', 'S'];
    StampJoin(Directive('Y', t, zone).value, Directive('m', t, zone).value, Directive('d', t, zone).value,
              Directive('H', t, zone).value, Directive('M', t, zone).value, Directive('S', t, zone).value);
  }

  lemma StampJoin(y: string, m: string, d: string, hour: string, min: string, sec: string)
    ensures (y + ['-'] + m + ['-'] + d) + ([' '] + ((hour + [':'] + min + [':'] + sec) + ""))
         == Stamp(y, m, d, hour, min, sec)
  {
    var date, time := ['-'] + m + ['-'] + d, hour + [':'] + min + [':'] + sec;
    assert time + "" == time;
    assert y + ['-'] + m + ['-'] + d == y + date;
    assert date + ([' '] + time) == ['-'] + m + ['-'] + d + [' '] + hour + [':'] + min + [':'] + sec;
    assert y + date + ([' '] + time) == y + (date + ([' '] + time));
  }

  lemma StampParts(y: string, m: string, d: string, hour: string, min: string, sec: string)
    requires |m| == |d| == |hour| == |min| == |sec| == 2
    ensures var rest := Stamp(y, m, d, hour, min, sec)[|y|..];
            && |rest| == 15
            && rest[0] == '-' && rest[3] == '-' && rest[6] == ' ' && rest[9] == ':' && rest[12] == ':'
            && rest[1..3] == m && rest[4..6] == d && rest[7..9] == hour && rest[10..12] == min && rest[13..15] == sec
  {
    var rest := ['-'] + m + ['-'] + d + [' '] + hour + [':'] + min + [':'] + sec;
    assert (y + rest)[|y|..] == rest;
    assert rest == ['-', m[0], m[1], '-', d[0], d[1], ' ', hour[0], hour[1], ':', min[0], min[1], ':', sec[0], sec[1]];
    assert rest[1..3] == m;
    assert rest[4..6] == d;
    assert rest[7..9] == hour;
    assert rest[10..12] == min;
    assert rest[13..15] == sec;
  }

  /** In the ranges that two digits hold. */
  predicate TwoDigitFields(t: Fields) {
    && 0 <= t.mon + 1 <= 99 && 0 <= t.mday <= 99 && 0 <= t.hour <= 99 && 0 <= t.min <= 99 && 0 <= t.sec <= 99
    && IsInt32(t.year)
  }

  /** Every such time is printed by "%F %T" so that the six numbers read from the text are its fields. */
  lemma StampReadsBack(t: Fields, zone: Zone)
    requires zone.Valid() && TwoDigitFields(t)
    ensures var text := Render("%F %T", t, zone);
            text.Some? && ReadsAs(text.value, t) && |text.value| <= 27
  {
    hide Directive, Render, Stamp;
    NumbersReadBack(t, zone);
    YearLength(t, zone);
    StampText(t, zone);
    hide Scan.Value, Scan.ScanField;
    var y, m, d := Directive('Y', t, zone).value, Directive('m', t, zone).value, Directive('d', t, zone).value;
    var hour, min, sec := Directive('H', t, zone).value, Directive('M', t, zone).value, Directive('S', t, zone).value;
    StampParts(y, m, d, hour, min, sec);
    var text := Stamp(y, m, d, hour, min, sec);
    StampSplit(y, m, d, hour, min, sec);
    YearReadsBack(t, zone, text[|y|..]);
  }

  lemma StampSplit(y: string, m: string, d: string, hour: string, min: string, sec: string)
    ensures var text := Stamp(y, m, d, hour, min, sec); |y| <= |text| && text == y + text[|y|..]
  {
  }

  lemma YearLength(t: Fields, zone: Zone)
    requires zone.Valid() && IsInt32(t.year)
    ensures Directive('Y', t, zone).Some? && |Directive('Y', t, zone).value| <= 11
  {
    var year := t.year + 1900;
    TenDigits();
    DigitCount(Magnitude(year), 10, false, 10);
  }

  /** A text is read in one way only. */
  lemma ReadOnce(text: string, t: Fields, u: Fields)
    requires ReadsAs(text, t) && ReadsAs(text, u)
    ensures u == t.(wday := u.wday, yday := u.yday, isdst := u.isdst)
  {
  }

  /** The fields of a stored time are in range. */
  lemma StoredIsPrintable(v: int)
    ensures TwoDigitFields(FieldsOf(v))
  {
    hide DateOf, Weekday, DayOfYear;
    ClockSplit(v % DAY);
    DaysOfDateOf(v / DAY);
  }

  /** The reading of a text counts to the second v, exactly as long as the year of v fits a
      `struct tm`, and tm_to_seconds agrees as long as the calendar year is an `int`. */
  ghost predicate CountsBack(text: string, v: int) {
    forall u :: ReadsAs(text, u) ==>
      && (LinearCount(u) == v <==> FIRST_STORED <= v <= LAST_STORED)
      && (FIRST_SECOND <= v <= LAST_SECOND ==> Count(u) == v)
  }

  /** Printing any second as a date and a time, and counting the six numbers read from the text, gives
      the second back. */
  lemma PrintedSecondReadsBack(v: int, zone: Zone)
    requires zone.Valid()
    ensures var text := Render("%F %T", FieldsOf(v), zone);
            text.Some? && |text.value| <= 27 && ReadsAs(text.value, FieldsOf(v)) && CountsBack(text.value, v)
  {
    hide Render, FieldsOf, ReadsAs, Count, LinearCount;
    StoredIsPrintable(v);
    StampReadsBack(FieldsOf(v), zone);
    var text := Render("%F %T", FieldsOf(v), zone).value;
    forall u | ReadsAs(text, u)
      ensures LinearCount(u) == v <==> FIRST_STORED <= v <= LAST_STORED
      ensures FIRST_SECOND <= v <= LAST_SECOND ==> Count(u) == v
    {
      ReadOnce(text, FieldsOf(v), u);
      StoredCount(v, u);
    }
  }

  lemma StoredCount(v: int, u: Fields)
    requires u == FieldsOf(v).(wday := u.wday, yday := u.yday, isdst := u.isdst)
    ensures LinearCount(u) == v <==> FIRST_STORED <= v <= LAST_STORED
    ensures FIRST_SECOND <= v <= LAST_SECOND ==> Count(u) == v
  {
    hide LinearCount, Count, CalendarFields, DateOf;
    NormalisationIsIdempotent(v);
    OnlySixCount(FieldsOf(v), u);
    CountOfCalendar(v);
    var t := CalendarFields(v);
    CountTellsYears(t, u.year, t.year);
    OnlySixCount(t.(year := u.year), u);
    assert t.(year := t.year) == t;
    YearOfCalendar(v);
    YearFitsRange(v);
  }

  /** The derived fields do not count. */
  lemma OnlySixCount(t: Fields, u: Fields)
    requires u == t.(wday := u.wday, yday := u.yday, isdst := u.isdst)
    ensures LinearCount(u) == LinearCount(t) && Count(u) == Count(t)
  {
    hide DaysFromCivil;
  }

  /** The same of the code: gmtime and strftime into a buffer. */
  method PrintSecond(tm: Tm, v: int, zone: Zone) returns (dest: array<char>, n: nat)
    requires zone.Valid()
    modifies tm
    ensures fresh(dest) && n < dest.Length && dest[n] == NUL
    ensures ReadsAs(dest[..n], FieldsOf(v)) && CountsBack(dest[..n], v)
  {
    hide Render, Counted, FieldsOf, ReadsAs, CountsBack;
    tm.FromSeconds(v);
    dest := new char[32];
    FieldsAreInts(v);
    PrintedSecondReadsBack(v, zone);
    SmallIsCounted("%F %T", 0, 0, FieldsOf(v), zone, 32);
    var hangs;
    n, hangs := Strftime.Strftime(dest, 32, Some("%F %T"), Some(tm.Value()), zone);
  }
}
