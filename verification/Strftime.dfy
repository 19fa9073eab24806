/** strftime of src/libc/time.c: all of the rendered text, or an empty string. */
module Strftime {
  import opened CArith
  import opened CText
  import opened BrokenDownTime
  import opened NumberText
  import FormatNumber

  /** What tz_parse_env leaves in the zone cache. */
  datatype Zone = Zone(offset: int, name: string)
  {
    predicate Valid() {
      -86400 < offset < 86400 && |name| <= 15 && NUL !in name
    }
  }

  // ----- what a directive stands for -----

  predicate Clean(text: Option<string>) { text.Some? ==> NUL !in text.value }

  function TwoDigits(v: int): (r: Option<string>)
    ensures Clean(r) && (r.Some? ==> |r.value| == 2)
  {
    if v < 0 || v > 99 then None else Some([DigitChar(v / 10, false), DigitChar(v % 10, false)])
  }

  function ThreeDigits(v: int): (r: Option<string>)
    ensures Clean(r)
  {
    if v < 0 || v > 999 then None
    else Some([DigitChar(v / 100, false), DigitChar(v / 10 % 10, false), DigitChar(v % 10, false)])
  }

  function SpacePadded(v: int): (r: Option<string>)
    ensures Clean(r)
  {
    if v < 0 || v > 31 then None
    else if v >= 10 then TwoDigits(v) else Some([' ', DigitChar(v, false)])
  }

  function SignedDecimal(v: int): (r: string)
    ensures NUL !in r && |r| >= 1
  {
    if v < 0 then "-" + Digits(-v, 10, false) else Digits(v, 10, false)
  }

  function ZoneText(offset: int): (r: string)
    requires -86400 < offset < 86400
    ensures NUL !in r
  {
    var magnitude := if offset >= 0 then offset else -offset;
    var hours, minutes := magnitude / 3600, magnitude % 3600 / 60;
    assert 0 <= hours <= 23 && 0 <= minutes <= 59;
    [if offset >= 0 then '+' else '-'] + TwoDigits(hours).value + TwoDigits(minutes).value
  }

  const WEEKDAY_NAMES := ["Sun", "Mon", "Tue", "Wed", "Thu", "Fri", "Sat"]
  const WEEKDAY_FULL_NAMES := ["Sunday", "Monday", "Tuesday", "Wednesday", "Thursday", "Friday", "Saturday"]
  const MONTH_NAMES := ["Jan", "Feb", "Mar", "Apr", "May", "Jun", "Jul", "Aug", "Sep", "Oct", "Nov", "Dec"]
  const MONTH_FULL_NAMES :=
    ["January", "February", "March", "April", "May", "June", "July", "August", "September", "October",
     "November", "December"]

  function WeekdayName(w: int, full: bool): (r: Option<string>)
    ensures Clean(r)
  {
    if w < 0 || w > 6 then None else Some(if full then WEEKDAY_FULL_NAMES[w] else WEEKDAY_NAMES[w])
  }

  function MonthName(m: int, full: bool): (r: Option<string>)
    ensures Clean(r)
  {
    if m < 0 || m > 11 then None else Some(if full then MONTH_FULL_NAMES[m] else MONTH_NAMES[m])
  }

  predicate IsComposite(c: char) { c == 'R' || c == 'T' || c == 'F' }

  /** The format a composite directive abbreviates. */
  function Expansion(c: char): (f: string)
    requires IsComposite(c)
    ensures !HasComposite(f) && NUL !in f
  {
    if c == 'R' then "%H:%M" else if c == 'T' then "%H:%M:%S" else "%Y-%m-%d"
  }

  predicate HasComposite(format: string) {
    exists i :: 0 <= i < |format| && IsComposite(format[i])
  }

  /** Every directive but the composite ones; None when the field is out of range. */
  function Directive(c: char, t: Fields, zone: Zone): (r: Option<string>)
    requires zone.Valid() && !IsComposite(c)
    ensures Clean(r)
  {
    match c
    case '%' => Some("%")
    case 'a' => WeekdayName(t.wday, false)
    case 'A' => WeekdayName(t.wday, true)
    case 'b' => MonthName(t.mon, false)
    case 'B' => MonthName(t.mon, true)
    case 'd' => TwoDigits(t.mday)
    case 'e' => SpacePadded(t.mday)
    case 'H' => TwoDigits(t.hour)
    case 'I' => if t.hour < 0 || t.hour > 23 then None else TwoDigits(if t.hour % 12 == 0 then 12 else t.hour % 12)
    case 'j' => ThreeDigits(t.yday + 1)
    case 'm' => TwoDigits(t.mon + 1)
    case 'M' => TwoDigits(t.min)
    case 'n' => Some("\n")
    case 'p' => if t.hour < 0 || t.hour > 23 then None else Some(if t.hour >= 12 then "PM" else "AM")
    case 'S' => TwoDigits(t.sec)
    case 't' => Some("\t")
    case 'y' => TwoDigits(t.year % 100)
    case 'Y' => Some(SignedDecimal(t.year + 1900))
    case 'z' => Some(ZoneText(zone.offset))
    case 'Z' => Some(zone.name)
    case _ => None
  }

  function Join(a: Option<string>, b: Option<string>): Option<string> {
    if a.Some? && b.Some? then Some(a.value + b.value) else None
  }

  /** The full rendering of a format, or None when some directive cannot be rendered. */
  function Render(format: string, t: Fields, zone: Zone): Option<string>
    requires zone.Valid()
    decreases HasComposite(format), |format|
  {
    if format == [] then Some("")
    else if format[0] != '%' then TailHasComposite(format, 1); Join(Some([format[0]]), Render(format[1..], t, zone))
    else if |format| == 1 then None
    else
      TailHasComposite(format, 2);
      var first :=
        if IsComposite(format[1]) then Render(Expansion(format[1]), t, zone)
        else Directive(format[1], t, zone);
      Join(first, Render(format[2..], t, zone))
  }

  lemma TailHasComposite(format: string, k: nat)
    requires k <= |format|
    ensures HasComposite(format[k..]) ==> HasComposite(format)
  {
    if HasComposite(format[k..]) {
      var i :| 0 <= i < |format[k..]| && IsComposite(format[k..][i]);
      assert IsComposite(format[i + k]);
    }
  }

  lemma JoinUnit(x: Option<string>)
    ensures Join(Some(""), x) == x
  {
    if x.Some? {
      assert "" + x.value == x.value;
    }
  }

  lemma JoinAssociates(a: string, b: string, x: Option<string>)
    ensures Join(Some(a), Join(Some(b), x)) == Join(Some(a + b), x)
  {
    if x.Some? {
      assert a + (b + x.value) == a + b + x.value;
    }
  }

  lemma {:induction false} RenderHasNoNul(format: string, t: Fields, zone: Zone)
    requires zone.Valid() && NUL !in format
    ensures Render(format, t, zone).Some? ==> NUL !in Render(format, t, zone).value
    decreases HasComposite(format), |format|
  {
    hide Directive;
    if format != [] && format[0] != '%' {
      TailHasComposite(format, 1);
      RenderHasNoNul(format[1..], t, zone);
    } else if |format| >= 2 {
      TailHasComposite(format, 2);
      RenderHasNoNul(format[2..], t, zone);
      if IsComposite(format[1]) {
        RenderHasNoNul(Expansion(format[1]), t, zone);
      }
    }
  }

  /** A composite directive never renders to nothing, so a nested result of 0 means failure. */
  lemma CompositeIsNotEmpty(c: char, t: Fields, zone: Zone)
    requires zone.Valid() && IsComposite(c)
    ensures Render(Expansion(c), t, zone).Some? ==> |Render(Expansion(c), t, zone).value| > 0
  {
    var f := Expansion(c);
    assert f[0] == '%' && (f[1] == 'H' || f[1] == 'Y');
  }

  // ----- appending to the destination -----

  /** The effect of an append: it succeeds exactly when text and terminator fit below `max`. */
  twostate predicate Appends(dest: array<char>, base: nat, max: nat, pos: nat, new data: string, ok: bool, end: nat)
    reads dest
  {
    && base + max <= dest.Length && pos < max
    && (ok <==> pos + |data| < max)
    && (ok ==>
          && end == pos + |data|
          && dest[base..base + end] == old(dest[base..base + pos]) + data
          && dest[base + end] == NUL)
    && OutsideUnchanged(dest, base, max)
  }

  twostate predicate OutsideUnchanged(dest: array<char>, base: nat, max: nat)
    requires base + max <= dest.Length
    reads dest
  {
    dest[..base] == old(dest[..base]) && dest[base + max..] == old(dest[base + max..])
  }

  /** The effect of a directive: an append of its text, or failure when it has none. */
  twostate predicate AppendsOrFails(
    dest: array<char>, base: nat, max: nat, pos: nat, new text: Option<string>, ok: bool, end: nat)
    requires base + max <= dest.Length
    reads dest
  {
    if text.Some? then Appends(dest, base, max, pos, text.value, ok, end) else !ok && OutsideUnchanged(dest, base, max)
  }

  method AppendBuffer(dest: array<char>, base: nat, max: nat, pos: nat, data: string)
    returns (ok: bool, end: nat)
    requires base + max <= dest.Length && pos < max
    modifies dest
    ensures Appends(dest, base, max, pos, data, ok, end)
  {
    end := pos;
    if pos + |data| >= max {
      return false, end;
    }
    var i := 0;
    while i < |data|
      invariant 0 <= i <= |data|
      invariant dest[base..base + pos + i] == old(dest[base..base + pos]) + data[..i]
      invariant OutsideUnchanged(dest, base, max)
    {
      dest[base + pos + i] := data[i];
      i := i + 1;
    }
    end := pos + |data|;
    dest[base + end] := NUL;
    ok := true;
  }

  method AppendChar(dest: array<char>, base: nat, max: nat, pos: nat, ch: char)
    returns (ok: bool, end: nat)
    requires base + max <= dest.Length && pos < max
    modifies dest
    ensures Appends(dest, base, max, pos, [ch], ok, end)
  {
    end := pos;
    if pos + 1 >= max {
      return false, end;
    }
    dest[base + pos] := ch;
    end := pos + 1;
    dest[base + end] := NUL;
    ok := true;
  }

  /** append_signed_number: digits are produced backwards and appended one character at a time. */
  method AppendSignedNumber(dest: array<char>, base: nat, max: nat, pos: nat, value: int)
    returns (ok: bool, end: nat)
    requires base + max <= dest.Length && pos < max
    requires IsInt64(value) && IsInt64(-value)
    modifies dest
    ensures Appends(dest, base, max, pos, SignedDecimal(value), ok, end)
  {
    hide Digits;
    hide Reverse;
    end := pos;
    var magnitude: nat := if value < 0 then -value else value;
    var buf := FormatNumber.BackwardDigits(magnitude, 10, false);
    if value < 0 {
      ok, end := AppendChar(dest, base, max, pos, '-');
      if !ok {
        return;
      }
    }
    ghost var before, sign := old(dest[base..base + pos]), if value < 0 then "-" else "";
    assert dest[base..base + end] == before + sign;
    ok, end := AppendBackwards(dest, base, max, end, buf);
    assert SignedDecimal(value) == sign + Reverse(buf);
    hide SignedDecimal;
    Regroup(before, sign, Reverse(buf));
  }

  lemma Regroup(a: string, b: string, c: string)
    ensures a + b + c == a + (b + c)
  {
  }

  method AppendBackwards(dest: array<char>, base: nat, max: nat, pos: nat, buf: string)
    returns (ok: bool, end: nat)
    requires base + max <= dest.Length && pos < max && |buf| >= 1
    modifies dest
    ensures Appends(dest, base, max, pos, Reverse(buf), ok, end)
  {
    end := pos;
    var index := |buf|;
    while index > 0
      invariant 0 <= index <= |buf|
      invariant end == pos + |buf| - index < max
      invariant dest[base..base + end] == old(dest[base..base + pos]) + Reverse(buf)[..|buf| - index]
      invariant index < |buf| ==> dest[base + end] == NUL
      invariant OutsideUnchanged(dest, base, max)
    {
      index := index - 1;
      assert Reverse(buf)[|buf| - 1 - index] == buf[index];
      ok, end := AppendChar(dest, base, max, end, buf[index]);
      if !ok {
        return;
      }
    }
    ok := true;
  }

  method AppendTwoDigits(dest: array<char>, base: nat, max: nat, pos: nat, value: int)
    returns (ok: bool, end: nat)
    requires base + max <= dest.Length && pos < max
    modifies dest
    ensures AppendsOrFails(dest, base, max, pos, TwoDigits(value), ok, end)
  {
    end := pos;
    if value < 0 || value > 99 {
      return false, end;
    }
    var tens, units := WriteTwoDigits(value);
    ok, end := AppendBuffer(dest, base, max, pos, [tens, units]);
  }

  method AppendThreeDigits(dest: array<char>, base: nat, max: nat, pos: nat, value: int)
    returns (ok: bool, end: nat)
    requires base + max <= dest.Length && pos < max
    modifies dest
    ensures AppendsOrFails(dest, base, max, pos, ThreeDigits(value), ok, end)
  {
    end := pos;
    if value < 0 || value > 999 {
      return false, end;
    }
    var buf := [('0' as int + value / 100) as char, ('0' as int + value / 10 % 10) as char,
                ('0' as int + value % 10) as char];
    assert buf == ThreeDigits(value).value;
    ok, end := AppendBuffer(dest, base, max, pos, buf);
  }

  method AppendWeekday(dest: array<char>, base: nat, max: nat, pos: nat, wday: int, full: bool)
    returns (ok: bool, end: nat)
    requires base + max <= dest.Length && pos < max
    modifies dest
    ensures AppendsOrFails(dest, base, max, pos, WeekdayName(wday, full), ok, end)
  {
    end := pos;
    if wday < 0 || wday > 6 {
      return false, end;
    }
    var name := if full then WEEKDAY_FULL_NAMES[wday] else WEEKDAY_NAMES[wday];
    ok, end := AppendBuffer(dest, base, max, pos, name);
  }

  method AppendMonth(dest: array<char>, base: nat, max: nat, pos: nat, month: int, full: bool)
    returns (ok: bool, end: nat)
    requires base + max <= dest.Length && pos < max
    modifies dest
    ensures AppendsOrFails(dest, base, max, pos, MonthName(month, full), ok, end)
  {
    end := pos;
    if month < 0 || month > 11 {
      return false, end;
    }
    var name := if full then MONTH_FULL_NAMES[month] else MONTH_NAMES[month];
    ok, end := AppendBuffer(dest, base, max, pos, name);
  }

  /** The two characters of write_two_digits_space. */
  method AppendDay(dest: array<char>, base: nat, max: nat, pos: nat, value: int)
    returns (ok: bool, end: nat)
    requires base + max <= dest.Length && pos < max
    modifies dest
    ensures AppendsOrFails(dest, base, max, pos, SpacePadded(value), ok, end)
  {
    end := pos;
    if value < 0 || value > 31 {
      return false, end;
    }
    var tens, units := ' ', '0';
    if value >= 10 {
      tens, units := WriteTwoDigits(value);
    } else {
      units := ('0' as int + value) as char;
    }
    ok, end := AppendBuffer(dest, base, max, pos, [tens, units]);
  }

  method AppendZone(dest: array<char>, base: nat, max: nat, pos: nat, offset: int)
    returns (ok: bool, end: nat)
    requires base + max <= dest.Length && pos < max
    requires -86400 < offset < 86400
    modifies dest
    ensures Appends(dest, base, max, pos, ZoneText(offset), ok, end)
  {
    var buf := ZoneBuffer(offset);
    hide ZoneText;
    ok, end := AppendBuffer(dest, base, max, pos, buf);
  }

  method ZoneBuffer(offset: int) returns (buf: string)
    requires -86400 < offset < 86400
    ensures buf == ZoneText(offset)
  {
    var sign := if offset >= 0 then '+' else '-';
    var absOffset := if offset >= 0 then offset else -offset;
    var hours := CDiv(absOffset, 3600);
    var minutes := CDiv(CMod(absOffset, 3600), 60);
    assert hours == absOffset / 3600 && minutes == absOffset % 3600 / 60;
    ZoneTextIs(offset, hours, minutes);
    hide TwoDigits, CDiv, CMod, ZoneText;
    var h1, h0 := WriteTwoDigits(hours);
    var m1, m0 := WriteTwoDigits(minutes);
    buf := [sign, h1, h0, m1, m0];
    assert buf == [sign] + [h1, h0] + [m1, m0];
  }

  lemma ZoneTextIs(offset: int, hours: int, minutes: int)
    requires -86400 < offset < 86400
    requires var magnitude := if offset >= 0 then offset else -offset;
             hours == magnitude / 3600 && minutes == magnitude % 3600 / 60
    ensures 0 <= hours <= 23 && 0 <= minutes <= 59
    ensures ZoneText(offset)
         == [if offset >= 0 then '+' else '-'] + TwoDigits(hours).value + TwoDigits(minutes).value
  {
    hide TwoDigits;
  }

  /** write_two_digits. */
  method WriteTwoDigits(value: int) returns (tens: char, units: char)
    requires 0 <= value <= 99
    ensures TwoDigits(value) == Some([tens, units])
  {
    tens, units := ('0' as int + value / 10) as char, ('0' as int + value % 10) as char;
  }

  /** The answer to a field that has no text. */
  method Refuse(dest: array<char>, base: nat, max: nat, pos: nat) returns (ok: bool, end: nat)
    requires base + max <= dest.Length && pos < max
    ensures AppendsOrFails(dest, base, max, pos, None, ok, end)
  {
    ok, end := false, pos;
  }

  /** Every directive but %R, %T and %F. */
  method AppendDirective(
    dest: array<char>, base: nat, max: nat, pos: nat, spec: char, t: Fields, zone: Zone)
    returns (ok: bool, end: nat)
    requires base + max <= dest.Length && pos < max
    requires zone.Valid() && t.AreInts() && !IsComposite(spec)
    modifies dest
    ensures AppendsOrFails(dest, base, max, pos, Directive(spec, t, zone), ok, end)
  {
    end := pos;
    hide SignedDecimal;
    hide TwoDigits;
    hide ThreeDigits;
    hide SpacePadded;
    hide WeekdayName;
    hide MonthName;
    hide ZoneText;
    hide Appends;
    hide OutsideUnchanged;
    match spec
    case '%' => ok, end := AppendChar(dest, base, max, pos, '%');
    case 'a' => ok, end := AppendWeekday(dest, base, max, pos, t.wday, false);
    case 'A' => ok, end := AppendWeekday(dest, base, max, pos, t.wday, true);
    case 'b' => ok, end := AppendMonth(dest, base, max, pos, t.mon, false);
    case 'B' => ok, end := AppendMonth(dest, base, max, pos, t.mon, true);
    case 'd' => ok, end := AppendTwoDigits(dest, base, max, pos, t.mday);
    case 'e' => ok, end := AppendDay(dest, base, max, pos, t.mday);
    case 'H' => ok, end := AppendTwoDigits(dest, base, max, pos, t.hour);
    case 'I' =>
      if t.hour < 0 || t.hour > 23 {
        ok, end := Refuse(dest, base, max, pos);
      } else {
        var hour12 := t.hour % 12;
        if hour12 == 0 {
          hour12 := 12;
        }
        ok, end := AppendTwoDigits(dest, base, max, pos, hour12);
      }
    case 'j' => ok, end := AppendThreeDigits(dest, base, max, pos, t.yday + 1);
    case 'm' => ok, end := AppendTwoDigits(dest, base, max, pos, t.mon + 1);
    case 'M' => ok, end := AppendTwoDigits(dest, base, max, pos, t.min);
    case 'n' => ok, end := AppendChar(dest, base, max, pos, '\n');
    case 'p' =>
      if t.hour < 0 || t.hour > 23 {
        ok, end := Refuse(dest, base, max, pos);
      } else {
        ok, end := AppendBuffer(dest, base, max, pos, if t.hour >= 12 then "PM" else "AM");
      }
    case 'S' => ok, end := AppendTwoDigits(dest, base, max, pos, t.sec);
    case 't' => ok, end := AppendChar(dest, base, max, pos, '\t');
    case 'y' =>
      var year := CMod(t.year, 100);
      if year < 0 {
        year := year + 100;
      }
      ok, end := AppendTwoDigits(dest, base, max, pos, year);
    case 'Y' => ok, end := AppendSignedNumber(dest, base, max, pos, t.year + 1900);
    case 'z' => ok, end := AppendZone(dest, base, max, pos, zone.offset);
    case 'Z' => ok, end := AppendBuffer(dest, base, max, pos, zone.name);
    case _ => ok, end := Refuse(dest, base, max, pos);
  }

  /** The text of the element that starts at i: an ordinary character or a directive. */
  function Element(format: string, i: nat, t: Fields, zone: Zone): Option<string>
    requires i < |format| && zone.Valid()
  {
    if format[i] != '%' then Some([format[i]])
    else if i + 1 == |format| then None
    else if IsComposite(format[i + 1]) then Render(Expansion(format[i + 1]), t, zone)
    else Directive(format[i + 1], t, zone)
  }

  function NextElement(format: string, i: nat): (n: nat)
    requires i < |format|
    ensures i < n <= |format|
  {
    if format[i] == '%' && i + 1 < |format| then i + 2 else i + 1
  }

  lemma RenderElement(format: string, i: nat, t: Fields, zone: Zone)
    requires i < |format| && zone.Valid()
    ensures Render(format[i..], t, zone)
         == Join(Element(format, i, t, zone), Render(format[NextElement(format, i)..], t, zone))
  {
    hide Directive;
    assert format[i..][1..] == format[i + 1..];
    if i + 1 < |format| {
      assert format[i..][2..] == format[i + 2..];
    }
  }

  predicate IsCompositeAt(format: string, i: nat) {
    i + 1 < |format| && format[i] == '%' && IsComposite(format[i + 1])
  }

  /** The length after an element is measured with the 16-bit strlen exactly for %R, %T and %F. */
  predicate Measurable(format: string, i: nat, end: nat) {
    IsCompositeAt(format, i) ==> end < STRLEN_WRAP
  }

  /** From element i on, with `len` characters rendered: every composite directive that still fits
      ends below 65536, so its length can be measured. */
  predicate Counted(format: string, i: nat, len: nat, t: Fields, zone: Zone, max: nat)
    requires i <= |format| && zone.Valid()
    decreases |format| - i
  {
    i < |format| ==>
      var text := Element(format, i, t, zone);
      text.Some? && len + |text.value| < max ==>
        var end := len + |text.value|;
        Measurable(format, i, end) && Counted(format, NextElement(format, i), end, t, zone, max)
  }

  /** Without composite directives nothing is measured. */
  lemma {:induction false} NoComposite(format: string, i: nat, len: nat, t: Fields, zone: Zone, max: nat)
    requires i <= |format| && zone.Valid() && !HasComposite(format)
    ensures Counted(format, i, len, t, zone, max)
    decreases |format| - i
  {
    hide Element, HasComposite;
    if i < |format| {
      var text := Element(format, i, t, zone);
      PlainElement(format, i);
      NoComposite(format, NextElement(format, i), len + if text.Some? then |text.value| else 0, t, zone, max);
    }
  }

  lemma PlainElement(format: string, i: nat)
    requires !HasComposite(format)
    ensures !IsCompositeAt(format, i)
  {
    if i + 1 < |format| {
      assert !IsComposite(format[i + 1]);
    }
  }

  /** In a destination of at most 64 KiB everything that fits can be measured. */
  lemma {:induction false} SmallIsCounted(format: string, i: nat, len: nat, t: Fields, zone: Zone, max: nat)
    requires i <= |format| && zone.Valid() && max <= STRLEN_WRAP
    ensures Counted(format, i, len, t, zone, max)
    decreases |format| - i
  {
    hide Element;
    if i < |format| {
      var text := Element(format, i, t, zone);
      SmallIsCounted(format, NextElement(format, i), len + if text.Some? then |text.value| else 0, t, zone, max);
    }
  }

  /** Plain characters are copied without being measured. */
  lemma {:induction false} PlainPrefix(format: string, i: nat, n: nat, t: Fields, zone: Zone, max: nat)
    requires i <= n <= |format| && n < max && zone.Valid() && '%' !in format[..n]
    ensures Counted(format, i, i, t, zone, max) == Counted(format, n, n, t, zone, max)
    decreases n - i
  {
    if i < n {
      assert format[..n][i] == format[i];
      PlainPrefix(format, i + 1, n, t, zone, max);
    }
  }

  /** A clock time after any plain text, where the whole fits: the call hangs exactly when text and
      clock together reach 65536 characters. */
  lemma LongTextHangs(plain: string, t: Fields, zone: Zone, max: nat)
    requires '%' !in plain && zone.Valid() && 0 <= t.hour <= 23 && 0 <= t.min <= 59 && |plain| + 5 < max
    ensures !Counted(plain + "%R", 0, 0, t, zone, max) <==> |plain| + 5 >= STRLEN_WRAP
  {
    var format, n := plain + "%R", |plain|;
    assert format[..n] == plain && format[n] == '%' && format[n + 1] == 'R';
    PlainPrefix(format, 0, n, t, zone, max);
    ClockLength(t, zone);
    hide Render;
    CountedEnd(format, n + 5, t, zone, max);
    CountedStep(format, n, n, t, zone, max);
  }

  lemma ClockLength(t: Fields, zone: Zone)
    requires zone.Valid() && 0 <= t.hour <= 23 && 0 <= t.min <= 59
    ensures Render("%H:%M", t, zone).Some? && |Render("%H:%M", t, zone).value| == 5
  {
    assert TwoDigits(t.hour).Some? && TwoDigits(t.min).Some?;
    hide TwoDigits;
    var f := "%H:%M";
    assert f[2..] == ":%M" && ":%M"[1..] == "%M" && "%M"[2..] == "";
    RenderOfNothing(t, zone);
    assert Render("%M", t, zone) == Join(TwoDigits(t.min), Some(""));
    assert Render(":%M", t, zone) == Join(Some(":"), Render("%M", t, zone));
    assert Render(f, t, zone) == Join(TwoDigits(t.hour), Render(":%M", t, zone));
  }

  /** %R, %T and %F: render the expansion where the text ends, then measure the whole text. The call
      hangs exactly when the text fits but is too long for strlen. */
  method AppendComposite(
    dest: array<char>, base: nat, max: nat, pos: nat, spec: char, t: Fields, zone: Zone)
    returns (ok: bool, end: nat, hangs: bool)
    requires base + max <= dest.Length && pos < max
    requires zone.Valid() && t.AreInts() && IsComposite(spec)
    requires NUL !in dest[base..base + pos]
    modifies dest
    ensures OutsideUnchanged(dest, base, max)
    ensures var text := Render(Expansion(spec), t, zone);
            && (hangs <==> text.Some? && STRLEN_WRAP <= pos + |text.value| < max)
            && (!hangs ==> AppendsOrFails(dest, base, max, pos, text, ok, end))
    decreases false, 3
  {
    RenderHasNoNul(Expansion(spec), t, zone);
    hide Render;
    hide Expansion;
    hangs, end := false, pos;
    var n := RenderNested(dest, base, max, pos, spec, t, zone);
    ok := n != 0;
    if ok {
      end, hangs := MeasureText(dest, base, pos + n);
    }
  }

  /** The nested call on the rest of the destination: the length of the text, or 0 if it fails. */
  method RenderNested(
    dest: array<char>, base: nat, max: nat, pos: nat, spec: char, t: Fields, zone: Zone)
    returns (n: nat)
    requires base + max <= dest.Length && pos < max
    requires zone.Valid() && t.AreInts() && IsComposite(spec)
    modifies dest
    ensures OutsideUnchanged(dest, base, max)
    ensures var text := Render(Expansion(spec), t, zone);
            if text.Some? && pos + |text.value| < max then
              && n == |text.value| > 0 && dest[base + pos + n] == NUL
              && dest[base..base + pos + n] == old(dest[base..base + pos]) + text.value
            else n == 0
    decreases false, 2
  {
    CompositeIsNotEmpty(spec, t, zone);
    NoComposite(Expansion(spec), 0, 0, t, zone, max - pos);
    hide Render;
    hide Expansion;
    hide Counted;
    var hangs;
    n, hangs := StrftimeInto(dest, base + pos, max - pos, Expansion(spec), t, zone);
    assert dest[..base] == dest[..base + pos][..base];
    SliceJoin(dest[..], base, base + pos, base + pos + n);
    assert dest[..base + pos][base..] == old(dest[base..base + pos]);
  }

  /** strlen of the text that starts at `base`. */
  method MeasureText(dest: array<char>, base: nat, ghost n: nat) returns (len: nat, hangs: bool)
    requires base + n < dest.Length && NUL !in dest[base..base + n] && dest[base + n] == NUL
    ensures hangs <==> n >= STRLEN_WRAP
    ensures !hangs ==> len == n
  {
    assert dest[base..][..n] == dest[base..base + n];
    len, hangs := Strlen(dest[base..], n);
  }

  lemma SliceJoin(all: string, i: nat, j: nat, k: nat)
    requires i <= j <= k <= |all|
    ensures all[i..k] == all[..j][i..] + all[j..k]
  {
  }

  /** One pass of the format loop. A composite directive renders its expansion in place. */
  method AppendElement(
    dest: array<char>, base: nat, max: nat, pos: nat, format: string, i: nat, t: Fields, zone: Zone)
    returns (ok: bool, end: nat, next: nat, hangs: bool)
    requires base + max <= dest.Length && pos < max && i < |format|
    requires NUL !in format && zone.Valid() && t.AreInts()
    requires NUL !in dest[base..base + pos]
    modifies dest
    ensures OutsideUnchanged(dest, base, max) && next == NextElement(format, i)
    ensures var text := Element(format, i, t, zone);
            && (hangs <==> text.Some? && pos + |text.value| < max && !Measurable(format, i, pos + |text.value|))
            && (!hangs ==> AppendsOrFails(dest, base, max, pos, text, ok, end))
    decreases HasComposite(format), 0
  {
    hide Directive;
    hide Render;
    ok, end, next, hangs := false, pos, i + 1, false;
    if format[i] != '%' {
      ok, end := AppendChar(dest, base, max, pos, format[i]);
    } else if i + 1 < |format| {
      next := i + 2;
      var spec := format[i + 1];
      if IsComposite(spec) {
        ok, end, hangs := AppendComposite(dest, base, max, pos, spec, t, zone);
      } else {
        ok, end := AppendDirective(dest, base, max, pos, spec, t, zone);
      }
    }
  }

  /** strftime on a destination, format and time that are present, with room for a terminator. It
      hangs exactly when a composite directive ends beyond what strlen can count. */
  method StrftimeInto(dest: array<char>, base: nat, max: nat, format: string, t: Fields, zone: Zone)
    returns (r: nat, hangs: bool)
    requires 0 < max && base + max <= dest.Length
    requires NUL !in format && zone.Valid() && t.AreInts()
    modifies dest
    ensures hangs <==> !Counted(format, 0, 0, t, zone, max)
    ensures !hangs ==>
              var full := Render(format, t, zone);
              if full.Some? && |full.value| < max then
                r == |full.value| && dest[base..base + r] == full.value && dest[base + r] == NUL
              else
                r == 0 && dest[base] == NUL
    ensures OutsideUnchanged(dest, base, max)
    decreases HasComposite(format), 1
  {
    hide Element, Render, HasComposite, Measurable, Counted, Join;
    var pos: nat := 0;
    dest[base] := NUL;
    var i := 0;
    assert format[i..] == format;
    ghost var text := "";
    JoinUnit(Render(format, t, zone));
    while i < |format|
      invariant 0 <= i <= |format| && pos < max
      invariant dest[base..base + pos] == text && dest[base + pos] == NUL && NUL !in text
      invariant Render(format, t, zone) == Join(Some(text), Render(format[i..], t, zone))
      invariant Counted(format, 0, 0, t, zone, max) == Counted(format, i, pos, t, zone, max)
      invariant OutsideUnchanged(dest, base, max)
    {
      ghost var piece := Element(format, i, t, zone);
      RenderedSoFar(format, i, text, t, zone);
      ElementHasNoNul(format, i, t, zone);
      CountedStep(format, i, pos, t, zone, max);
      var ok, end, next;
      ok, end, next, hangs := AppendElement(dest, base, max, pos, format, i, t, zone);
      if hangs {
        return 0, true;
      }
      if !ok {
        dest[base] := NUL;
        return 0, false;
      }
      pos, i, text := end, next, text + piece.value;
    }
    assert format[i..] == "";
    AllRendered(text, t, zone);
    CountedEnd(format, pos, t, zone, max);
    r, hangs := pos, false;
  }

  /** One element moves from the rest of the format to the text. */
  lemma RenderedSoFar(format: string, i: nat, text: string, t: Fields, zone: Zone)
    requires i < |format| && zone.Valid()
    requires Render(format, t, zone) == Join(Some(text), Render(format[i..], t, zone))
    ensures var full, piece := Render(format, t, zone), Element(format, i, t, zone);
            if piece.Some? then
              && full == Join(Some(text + piece.value), Render(format[NextElement(format, i)..], t, zone))
              && (full.Some? ==> |full.value| >= |text| + |piece.value|)
            else full.None?
  {
    hide Render, Element;
    RenderElement(format, i, t, zone);
    var piece := Element(format, i, t, zone);
    if piece.Some? {
      JoinAssociates(text, piece.value, Render(format[NextElement(format, i)..], t, zone));
    }
  }

  lemma AllRendered(text: string, t: Fields, zone: Zone)
    requires zone.Valid()
    ensures Join(Some(text), Render("", t, zone)) == Some(text)
  {
    assert text + "" == text;
  }

  lemma CountedStep(format: string, i: nat, len: nat, t: Fields, zone: Zone, max: nat)
    requires i < |format| && zone.Valid()
    ensures var text := Element(format, i, t, zone);
            if text.Some? && len + |text.value| < max then
              Counted(format, i, len, t, zone, max) ==
                (Measurable(format, i, len + |text.value|)
                 && Counted(format, NextElement(format, i), len + |text.value|, t, zone, max))
            else Counted(format, i, len, t, zone, max)
  {
    hide Element, Measurable;
  }

  lemma CountedEnd(format: string, len: nat, t: Fields, zone: Zone, max: nat)
    requires zone.Valid()
    ensures Counted(format, |format|, len, t, zone, max)
  {
  }

  lemma RenderOfNothing(t: Fields, zone: Zone)
    requires zone.Valid()
    ensures Render("", t, zone) == Some("")
  {
  }

  lemma ElementHasNoNul(format: string, i: nat, t: Fields, zone: Zone)
    requires i < |format| && NUL !in format && zone.Valid()
    ensures Clean(Element(format, i, t, zone))
  {
    if format[i] == '%' && i + 1 < |format| && IsComposite(format[i + 1]) {
      RenderHasNoNul(Expansion(format[i + 1]), t, zone);
    }
  }

  /** strftime with its argument checks: a missing argument or no room gives 0, and an empty
      string where there is a place for one. */
  method Strftime(dest: array?<char>, max: nat, format: Option<string>, t: Option<Fields>, zone: Zone)
    returns (r: nat, hangs: bool)
    requires dest != null ==> max <= dest.Length
    requires format.Some? ==> NUL !in format.value
    requires zone.Valid() && (t.Some? ==> t.value.AreInts())
    modifies if dest == null then {} else {dest}
    ensures dest == null || max == 0 || format.None? || t.None? ==> r == 0 && !hangs
    ensures dest != null && max > 0 && (format.None? || t.None?) ==> dest[0] == NUL && dest[1..] == old(dest[1..])
    ensures dest != null && max == 0 ==> dest[..] == old(dest[..])
    ensures dest != null && max > 0 && format.Some? && t.Some? ==>
              (hangs <==> !Counted(format.value, 0, 0, t.value, zone, max))
    ensures dest != null && max > 0 && format.Some? && t.Some? && !hangs ==>
              var full := Render(format.value, t.value, zone);
              if full.Some? && |full.value| < max then
                r == |full.value| && dest[..r] == full.value && dest[r] == NUL
              else
                r == 0 && dest[0] == NUL
    ensures dest != null ==> dest[max..] == old(dest[max..])
  {
    hide Counted, Render;
    if dest == null || format.None? || t.None? || max == 0 {
      if dest != null && max > 0 {
        dest[0] := NUL;
      }
      return 0, false;
    }
    r, hangs := StrftimeInto(dest, 0, max, format.value, t.value, zone);
  }
}
