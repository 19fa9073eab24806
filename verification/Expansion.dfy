/** Variable expansion of a command line (shell_expand_variables of app/mosh/mosh.c). */
module Expansion {
  import opened CText

  /** A name buffer holds 31 characters and a terminator. */
  const MAX_NAME: nat := 31

  predicate IsIdentStart(c: char) { 'a' <= c <= 'z' || 'A' <= c <= 'Z' || c == '_' }

  predicate IsIdentChar(c: char) { IsIdentStart(c) || IsDigit(c) }

  /** Shell variables and environment together; an unset name has an empty value. */
  type Vars = map<string, string>

  function ValueOf(vars: Vars, name: string): string { if name in vars then vars[name] else "" }

  // ----- the expansion -----

  /** Where the name that starts at i ends. */
  datatype NameKind = Braced | Numeric | Identifier

  predicate Continues(kind: NameKind, c: char) {
    match kind
    case Braced => c != '}'
    case Numeric => IsDigit(c)
    case Identifier => IsIdentChar(c)
  }

  function NameEnd(s: string, i: nat, kind: NameKind): (j: nat)
    requires i <= |s|
    ensures i <= j <= |s|
    decreases |s| - i
  {
    if i < |s| && Continues(kind, s[i]) then NameEnd(s, i + 1, kind) else i
  }

  /** A piece of output and where the input continues. */
  datatype Piece = Piece(text: string, next: nat)

  /** What stands for a dollar sign at i: itself when no usable name follows, else a value, which
      is not looked at again. */
  function Dollar(s: string, i: nat, vars: Vars): (p: Piece)
    requires i < |s|
    ensures i < p.next <= |s|
  {
    var literal := Piece("$", i + 1);
    var c := At(s, i + 1);
    if i + 1 == |s| then literal
    else if c == '$' then Piece("$", i + 2)
    else if c == '{' then
      var end := NameEnd(s, i + 2, Braced);
      if end == |s| || end == i + 2 || end - (i + 2) > MAX_NAME then literal
      else Piece(ValueOf(vars, s[i + 2..end]), end + 1)
    else if IsDigit(c) then Named(s, i, Numeric, vars)
    else if IsIdentStart(c) then Named(s, i, Identifier, vars)
    else literal
  }

  function Named(s: string, i: nat, kind: NameKind, vars: Vars): (p: Piece)
    requires i + 1 < |s|
    ensures i < p.next <= |s|
  {
    var end := NameEnd(s, i + 1, kind);
    if end == i + 1 || end - (i + 1) > MAX_NAME then Piece("$", i + 1)
    else Piece(ValueOf(vars, s[i + 1..end]), end)
  }

  /** The next piece: a dollar, a quoted character, or the character itself. */
  function Next(s: string, i: nat, vars: Vars): (p: Piece)
    requires i < |s|
    ensures i < p.next <= |s|
  {
    if s[i] == '$' then Dollar(s, i, vars)
    else if s[i] == '\\' && i + 1 < |s| then Piece([s[i + 1]], i + 2)
    else Piece([s[i]], i + 1)
  }

  function Expand(s: string, i: nat, vars: Vars): string
    requires i <= |s|
    decreases |s| - i
  {
    if i == |s| then "" else Next(s, i, vars).text + Expand(s, Next(s, i, vars).next, vars)
  }

  // ----- facts about the expansion -----

  predicate IsPlain(c: char) { c != '$' && c != '\\' }

  /** Text without dollars and backslashes is copied. */
  lemma {:induction false} PlainTextIsCopied(s: string, i: nat, vars: Vars)
    requires i <= |s| && forall k :: i <= k < |s| ==> IsPlain(s[k])
    ensures Expand(s, i, vars) == s[i..]
    decreases |s| - i
  {
    if i < |s| {
      PlainTextIsCopied(s, i + 1, vars);
      assert s[i..] == [s[i]] + s[i + 1..];
    }
  }

  /** Expansion looks only forward: what stands before a position does not matter. */
  lemma {:induction false} ExpandShift(s: string, i: nat, k: nat, vars: Vars)
    requires k <= i <= |s|
    ensures Expand(s, i, vars) == Expand(s[k..], i - k, vars)
    decreases |s| - i
  {
    hide Next;
    if i < |s| {
      NextShift(s, i, k, vars);
      ExpandShift(s, Next(s, i, vars).next, k, vars);
    }
  }

  lemma NextShift(s: string, i: nat, k: nat, vars: Vars)
    requires k <= i < |s|
    ensures var p := Next(s, i, vars); Next(s[k..], i - k, vars) == Piece(p.text, p.next - k)
  {
    hide NameEnd, Continues, Named;
    if i + 1 < |s| {
      NamedShift(s, i, k, Numeric, vars);
      NamedShift(s, i, k, Identifier, vars);
      NameEndShift(s, i + 2, k, Braced);
      SliceShift(s, i + 2, NameEnd(s, i + 2, Braced), k);
    }
  }

  lemma NamedShift(s: string, i: nat, k: nat, kind: NameKind, vars: Vars)
    requires k <= i && i + 1 < |s|
    ensures var p := Named(s, i, kind, vars); Named(s[k..], i - k, kind, vars) == Piece(p.text, p.next - k)
  {
    hide NameEnd;
    NameEndShift(s, i + 1, k, kind);
    SliceShift(s, i + 1, NameEnd(s, i + 1, kind), k);
  }

  lemma SliceShift(s: string, i: nat, j: nat, k: nat)
    requires k <= i <= j <= |s|
    ensures s[k..][i - k..j - k] == s[i..j]
  {
  }

  lemma {:induction false} NameEndShift(s: string, i: nat, k: nat, kind: NameKind)
    requires k <= i <= |s|
    ensures NameEnd(s, i, kind) == k + NameEnd(s[k..], i - k, kind)
    decreases |s| - i
  {
    if i < |s| && Continues(kind, s[i]) {
      NameEndShift(s, i + 1, k, kind);
    }
  }

  lemma {:induction false} NameEndIs(s: string, i: nat, j: nat, kind: NameKind)
    requires i <= j <= |s| && forall k :: i <= k < j ==> Continues(kind, s[k])
    requires j == |s| || !Continues(kind, s[j])
    ensures NameEnd(s, i, kind) == j
    decreases j - i
  {
    if i < j {
      NameEndIs(s, i + 1, j, kind);
    }
  }

  lemma BracedNext(name: string, rest: string, vars: Vars)
    requires name != "" && '}' !in name
    ensures Next("${" + name + "}" + rest, 0, vars)
         == if |name| <= MAX_NAME then Piece(ValueOf(vars, name), |name| + 3) else Piece("$", 1)
  {
    var s, end := "${" + name + "}" + rest, 2 + |name|;
    assert s[0] == '$' && s[1] == '{' && s[end] == '}';
    assert s[2..end] == name;
    assert forall k :: 2 <= k < end ==> s[k] == s[2..end][k - 2];
    NameEndIs(s, 2, end, Braced);
    hide NameEnd;
  }

  /** A braced name stands for its value, which is not scanned again; a name that is too long for
      the name buffer leaves the dollar sign as it is. */
  lemma BracedName(name: string, rest: string, vars: Vars)
    requires name != "" && '}' !in name
    ensures Expand("${" + name + "}" + rest, 0, vars)
         == if |name| <= MAX_NAME then ValueOf(vars, name) + Expand(rest, 0, vars)
            else "$" + Expand("{" + name + "}" + rest, 0, vars)
  {
    hide Expand, Next;
    var s := "${" + name + "}" + rest;
    BracedNext(name, rest, vars);
    ExpandStep(s, 0, vars);
    var k := if |name| <= MAX_NAME then |name| + 3 else 1;
    ExpandShift(s, k, k, vars);
    assert s[|name| + 3..] == rest;
    assert s[1..] == "{" + name + "}" + rest;
  }

  lemma NamedIs(name: string, rest: string, kind: NameKind, vars: Vars)
    requires name != "" && forall k :: 0 <= k < |name| ==> Continues(kind, name[k])
    requires rest == "" || !Continues(kind, rest[0])
    ensures Named("$" + name + rest, 0, kind, vars)
         == if |name| <= MAX_NAME then Piece(ValueOf(vars, name), |name| + 1) else Piece("$", 1)
  {
    hide Continues;
    var s, end := "$" + name + rest, 1 + |name|;
    assert s[1..end] == name;
    assert forall k :: 1 <= k < end ==> s[k] == s[1..end][k - 1];
    NameEndIs(s, 1, end, kind);
    hide NameEnd;
  }

  /** A name that is used or, when it is too long, left behind a literal dollar. */
  lemma NamedExpands(name: string, rest: string, kind: NameKind, vars: Vars)
    requires name != "" && forall k :: 0 <= k < |name| ==> Continues(kind, name[k])
    requires rest == "" || !Continues(kind, rest[0])
    requires var s := "$" + name + rest; Next(s, 0, vars) == Named(s, 0, kind, vars)
    ensures Expand("$" + name + rest, 0, vars)
         == if |name| <= MAX_NAME then ValueOf(vars, name) + Expand(rest, 0, vars)
            else "$" + Expand(name + rest, 0, vars)
  {
    hide Expand, Next, Continues, Named;
    var s := "$" + name + rest;
    NamedIs(name, rest, kind, vars);
    var k := if |name| <= MAX_NAME then |name| + 1 else 1;
    ExpandStep(s, 0, vars);
    ExpandShift(s, k, k, vars);
    assert s[|name| + 1..] == rest;
    assert s[1..] == name + rest;
  }

  /** A bare identifier stands for its value up to the first character that cannot continue it. */
  lemma BareName(name: string, rest: string, vars: Vars)
    requires name != "" && IsIdentStart(name[0]) && forall k :: 0 <= k < |name| ==> IsIdentChar(name[k])
    requires rest == "" || !IsIdentChar(rest[0])
    ensures Expand("$" + name + rest, 0, vars)
         == if |name| <= MAX_NAME then ValueOf(vars, name) + Expand(rest, 0, vars)
            else "$" + Expand(name + rest, 0, vars)
  {
    hide Expand, Named;
    assert ("$" + name + rest)[1] == name[0];
    NamedExpands(name, rest, Identifier, vars);
  }

  /** A positional parameter takes all the digits that follow the dollar. */
  lemma NumericName(number: string, rest: string, vars: Vars)
    requires number != "" && forall k :: 0 <= k < |number| ==> IsDigit(number[k])
    requires rest == "" || !IsDigit(rest[0])
    ensures Expand("$" + number + rest, 0, vars)
         == if |number| <= MAX_NAME then ValueOf(vars, number) + Expand(rest, 0, vars)
            else "$" + Expand(number + rest, 0, vars)
  {
    hide Expand, Named;
    assert ("$" + number + rest)[1] == number[0] && IsDigit(number[0]);
    NamedExpands(number, rest, Numeric, vars);
  }

  /** A first piece and where it leaves off decide the expansion. */
  lemma ExpandsTo(s: string, text: string, next: nat, vars: Vars)
    requires s != "" && Next(s, 0, vars) == Piece(text, next)
    ensures Expand(s, 0, vars) == text + Expand(s[next..], 0, vars)
  {
    hide Expand, Next;
    ExpandStep(s, 0, vars);
    ExpandShift(s, next, next, vars);
  }

  /** Two dollars are one. */
  lemma DoubleDollar(rest: string, vars: Vars)
    ensures Expand("$$" + rest, 0, vars) == "$" + Expand(rest, 0, vars)
  {
    hide Expand, Named, NameEnd;
    var s := "$$" + rest;
    assert s[0] == '$' && s[1] == '$';
    ExpandsTo(s, "$", 2, vars);
    assert s[2..] == rest;
  }

  /** A dollar stays where no name can start: at the end, or before any other character. */
  lemma LoneDollar(rest: string, vars: Vars)
    requires rest == "" || !(rest[0] == '$' || rest[0] == '{' || IsIdentChar(rest[0]))
    ensures Expand("$" + rest, 0, vars) == "$" + Expand(rest, 0, vars)
  {
    hide Expand, Named, NameEnd;
    var s := "$" + rest;
    assert s[0] == '$' && (rest != "" ==> s[1] == rest[0]);
    ExpandsTo(s, "$", 1, vars);
    assert s[1..] == rest;
  }

  /** It also stays before an empty brace and before one that is never closed. */
  lemma EmptyBrace(rest: string, vars: Vars)
    ensures Expand("${}" + rest, 0, vars) == "$" + Expand("{}" + rest, 0, vars)
  {
    hide Expand, Named;
    var s := "${}" + rest;
    assert s[0] == '$' && s[1] == '{' && s[2] == '}';
    NameEndIs(s, 2, 2, Braced);
    ExpandsTo(s, "$", 1, vars);
    assert s[1..] == "{}" + rest;
  }

  lemma UnclosedBrace(rest: string, vars: Vars)
    requires '}' !in rest
    ensures Expand("${" + rest, 0, vars) == "$" + Expand("{" + rest, 0, vars)
  {
    hide Expand, Named;
    var s := "${" + rest;
    assert s[0] == '$' && s[1] == '{' && s[2..] == rest;
    assert forall k :: 2 <= k < |s| ==> s[k] == rest[k - 2];
    NameEndIs(s, 2, |s|, Braced);
    ExpandsTo(s, "$", 1, vars);
    assert s[1..] == "{" + rest;
  }

  /** A variable that was assigned stands for that value, one that is not set for nothing. */
  lemma AssignedValueStands(name: string, value: string, rest: string, vars: Vars)
    requires 0 < |name| <= MAX_NAME && '}' !in name
    ensures var after := vars[name := value];
            Expand("${" + name + "}" + rest, 0, after) == value + Expand(rest, 0, after)
    ensures name !in vars ==> Expand("${" + name + "}" + rest, 0, vars) == Expand(rest, 0, vars)
  {
    hide Expand;
    BracedName(name, rest, vars[name := value]);
    BracedName(name, rest, vars);
    assert "" + Expand(rest, 0, vars) == Expand(rest, 0, vars);
  }

  /** Any other character stands for itself, and so does a backslash with nothing behind it. */
  lemma OrdinaryChar(c: char, rest: string, vars: Vars)
    requires IsPlain(c) || (c == '\\' && rest == "")
    ensures Expand([c] + rest, 0, vars) == [c] + Expand(rest, 0, vars)
  {
    hide Expand, Dollar;
    var s := [c] + rest;
    assert s[0] == c;
    ExpandsTo(s, [c], 1, vars);
    assert s[1..] == rest;
  }

  /** A backslash in front of every character. */
  function Quote(t: string): string { if t == "" then "" else ['\\', t[0]] + Quote(t[1..]) }

  lemma QuotedChar(c: char, rest: string, vars: Vars)
    ensures Expand(['\\', c] + rest, 0, vars) == [c] + Expand(rest, 0, vars)
  {
    hide Expand, Dollar;
    var s := ['\\', c] + rest;
    assert s[0] == '\\' && s[1] == c;
    ExpandsTo(s, [c], 2, vars);
    assert s[2..] == rest;
  }

  /** Quoting protects any text from expansion, whatever follows. */
  lemma {:induction false} QuotedTextIsLiteral(t: string, rest: string, vars: Vars)
    ensures Expand(Quote(t) + rest, 0, vars) == t + Expand(rest, 0, vars)
    decreases |t|
  {
    hide Expand;
    if t == "" {
      assert Quote(t) + rest == rest;
    } else {
      QuotedTextIsLiteral(t[1..], rest, vars);
      QuotedChar(t[0], Quote(t[1..]) + rest, vars);
      assert Quote(t) + rest == ['\\', t[0]] + (Quote(t[1..]) + rest);
      assert [t[0]] + t[1..] == t;
    }
  }

  // ----- the expander -----

  /** shell_append_text: all of the text, or failure when it and a terminator do not fit. */
  method AppendText(output: array<char>, capacity: nat, index: nat, text: string) returns (ok: bool, end: nat)
    requires index < capacity <= output.Length
    modifies output
    ensures ok <==> index + |text| < capacity
    ensures ok ==> end == index + |text| && output[..end] == old(output[..index]) + text
    ensures output[capacity..] == old(output[capacity..])
  {
    end := index;
    var k := 0;
    while k < |text|
      invariant 0 <= k <= |text| && end == index + k < capacity
      invariant output[..end] == old(output[..index]) + text[..k]
      invariant output[capacity..] == old(output[capacity..])
    {
      if end + 1 >= capacity {
        return false, end;
      }
      output[end] := text[k];
      end := end + 1;
      k := k + 1;
    }
    output[end] := NUL;
    ok := true;
  }

  /** Collect a name into its buffer; characters beyond the buffer only set the overflow flag. */
  method ScanName(s: string, start: nat, kind: NameKind) returns (name: string, overflow: bool, ptr: nat)
    requires start <= |s| && NUL !in s
    ensures ptr == NameEnd(s, start, kind)
    ensures overflow <==> ptr - start > MAX_NAME
    ensures !overflow ==> name == s[start..ptr]
  {
    name, overflow, ptr := "", false, start;
    while At(s, ptr) != NUL && Continues(kind, At(s, ptr))
      invariant start <= ptr <= |s| && NameEnd(s, start, kind) == NameEnd(s, ptr, kind)
      invariant |name| <= MAX_NAME && (overflow <==> ptr - start > MAX_NAME)
      invariant !overflow ==> name == s[start..ptr]
      invariant overflow ==> |name| == MAX_NAME
      decreases |s| - ptr
    {
      assert s[start..ptr + 1] == s[start..ptr] + [s[ptr]];
      if |name| + 1 >= MAX_NAME + 1 {
        overflow := true;
      } else {
        name := name + [s[ptr]];
      }
      ptr := ptr + 1;
    }
  }

  /** shell_expand_dollar, as the piece it appends. */
  method ExpandDollar(s: string, cursor: nat, vars: Vars) returns (p: Piece)
    requires cursor < |s| && NUL !in s && s[cursor] == '$'
    ensures p == Dollar(s, cursor, vars)
  {
    var next := At(s, cursor + 1);
    if next == NUL {
      return Piece("$", cursor + 1);
    }
    if next == '$' {
      return Piece("$", cursor + 2);
    }
    var name, overflow, ptr;
    if next == '{' {
      name, overflow, ptr := ScanName(s, cursor + 2, Braced);
      if At(s, ptr) != '}' {
        NameEndStops(s, cursor + 2, Braced);
        return Piece("$", cursor + 1);
      }
      if overflow || |name| == 0 {
        return Piece("$", cursor + 1);
      }
      return Piece(ValueOf(vars, name), ptr + 1);
    }
    if IsDigit(next) {
      name, overflow, ptr := ScanName(s, cursor + 1, Numeric);
    } else if IsIdentStart(next) {
      name, overflow, ptr := ScanName(s, cursor + 1, Identifier);
    } else {
      return Piece("$", cursor + 1);
    }
    if |name| == 0 || overflow {
      return Piece("$", cursor + 1);
    }
    p := Piece(ValueOf(vars, name), ptr);
  }

  lemma {:induction false} NameEndStops(s: string, i: nat, kind: NameKind)
    requires i <= |s|
    ensures var j := NameEnd(s, i, kind); j == |s| || !Continues(kind, s[j])
    decreases |s| - i
  {
    if i < |s| && Continues(kind, s[i]) {
      NameEndStops(s, i + 1, kind);
    }
  }

  /** shell_expand_variables: terminates on every line, succeeds exactly when the expansion is
      shorter than the capacity, and then leaves exactly the expansion, terminated. */
  method ExpandVariables(input: string, output: array<char>, capacity: nat, vars: Vars) returns (ok: bool)
    requires NUL !in input && capacity <= output.Length
    modifies output
    ensures ok <==> |Expand(input, 0, vars)| < capacity
    ensures ok ==>
              var full := Expand(input, 0, vars);
              output[..|full|] == full && output[|full|] == NUL
    ensures output[capacity..] == old(output[capacity..])
  {
    hide Dollar, Expand;
    if capacity == 0 {
      return false;
    }
    var index: nat := 0;
    output[0] := NUL;
    var cursor: nat := 0;
    ghost var full := Expand(input, 0, vars);
    ghost var done := "";
    assert done + full == full;
    while At(input, cursor) != NUL
      invariant cursor <= |input| && index < capacity
      invariant output[..index] == done && done + Expand(input, cursor, vars) == full
      invariant output[capacity..] == old(output[capacity..])
      decreases |input| - cursor
    {
      var ch := input[cursor];
      ghost var piece := Next(input, cursor, vars);
      ExpandStep(input, cursor, vars);
      Regroup(done, piece.text, Expand(input, piece.next, vars));
      if ch == '$' {
        var p := ExpandDollar(input, cursor, vars);
        ok, index := AppendText(output, capacity, index, p.text);
        if !ok {
          return false;
        }
        cursor := p.next;
      } else {
        if ch == '\\' && At(input, cursor + 1) != NUL {
          cursor := cursor + 1;
          ch := input[cursor];
        }
        if index + 1 >= capacity {
          return false;
        }
        output[index] := ch;
        index := index + 1;
        cursor := cursor + 1;
      }
      done := done + piece.text;
    }
    ExpandEnd(input, vars);
    output[index] := NUL;
    ok := true;
  }

  lemma ExpandStep(s: string, i: nat, vars: Vars)
    requires i < |s|
    ensures Expand(s, i, vars) == Next(s, i, vars).text + Expand(s, Next(s, i, vars).next, vars)
  {
  }

  lemma ExpandEnd(s: string, vars: Vars)
    ensures Expand(s, |s|, vars) == ""
  {
  }

  lemma Regroup(a: string, b: string, c: string)
    ensures a + (b + c) == a + b + c && |a + (b + c)| == |a| + |b| + |c|
  {
  }
}
