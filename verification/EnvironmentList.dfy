/** The environment as a list of "name=value" texts, and the finite map it stands for. */
module EnvironmentList {
  import opened CText

  predicate IsValidName(name: string) { name != "" && '=' !in name }

  /** What the lookups compare: the name, then an equals sign. */
  predicate Matches(text: string, name: string) {
    |text| > |name| && text[..|name|] == name && text[|name|] == '='
  }

  function Entry(name: string, value: string): string { name + "=" + value }

  /** The first entry for a name, or the length of the list. */
  function FindKey(l: seq<string>, name: string): (i: nat)
    ensures i <= |l|
    ensures i < |l| ==> Matches(l[i], name)
    ensures forall j :: 0 <= j < i ==> !Matches(l[j], name)
  {
    if l == [] then 0
    else if Matches(l[0], name) then 0
    else 1 + FindKey(l[1..], name)
  }

  function Lookup(l: seq<string>, name: string): Option<string> {
    var i := FindKey(l, name);
    if i < |l| then Some(l[i][|name| + 1..]) else None
  }

  function WithEntry(l: seq<string>, name: string, text: string): seq<string> {
    var i := FindKey(l, name);
    if i < |l| then l[i := text] else l + [text]
  }

  function Without(l: seq<string>, name: string): seq<string> {
    var i := FindKey(l, name);
    if i < |l| then l[..i] + l[i + 1..] else l
  }

  ghost predicate Unique(l: seq<string>) {
    forall i, j, name ::
      0 <= i < j < |l| && '=' !in name && Matches(l[i], name) ==> !Matches(l[j], name)
  }

  // ----- lookups after an update -----

  /** FindKey is determined by what it finds. */
  lemma FindKeyIs(l: seq<string>, name: string, i: nat)
    requires i <= |l| && (i < |l| ==> Matches(l[i], name))
    requires forall j :: 0 <= j < i ==> !Matches(l[j], name)
    ensures FindKey(l, name) == i
  {
  }

  lemma LongerNameHasEquals(text: string, a: string, b: string)
    requires Matches(text, a) && Matches(text, b) && |a| < |b|
    ensures '=' in b
  {
    assert text[..|b|][|a|] == '=';
  }

  /** An entry has only one name. */
  lemma OneName(text: string, a: string, b: string)
    requires '=' !in a && '=' !in b && Matches(text, a)
    ensures Matches(text, b) <==> a == b
  {
    if Matches(text, b) {
      if |a| < |b| {
        LongerNameHasEquals(text, a, b);
        assert false;
      } else if |b| < |a| {
        LongerNameHasEquals(text, b, a);
        assert false;
      }
    }
  }

  /** An update changes the looked-up value of its own name and of no other, on any list. */
  lemma LookupWithEntry(l: seq<string>, name: string, text: string, other: string)
    requires '=' !in name && '=' !in other && Matches(text, name)
    ensures Lookup(WithEntry(l, name, text), other)
         == if other == name then Some(text[|name| + 1..]) else Lookup(l, other)
  {
    var i, k := FindKey(l, name), FindKey(l, other);
    var m := WithEntry(l, name, text);
    if other == name {
      FindKeyIs(m, name, i);
    } else {
      OneName(text, name, other);
      if i < |l| {
        OneName(l[i], name, other);
      }
      FindKeyIs(m, other, if k < |l| then k else |m|);
    }
  }

  lemma LookupWithoutOther(l: seq<string>, name: string, other: string)
    requires '=' !in name && '=' !in other && other != name
    ensures Lookup(Without(l, name), other) == Lookup(l, other)
  {
    var i, k := FindKey(l, name), FindKey(l, other);
    if i < |l| {
      var m := Without(l, name);
      OneName(l[i], name, other);
      FindKeyIs(m, other, if k > i then k - 1 else k);
    }
  }

  function Occurrences(l: seq<string>, name: string): nat {
    if l == [] then 0 else (if Matches(l[0], name) then 1 else 0) + Occurrences(l[1..], name)
  }

  lemma {:induction false} OccurrencesFound(l: seq<string>, name: string)
    ensures Occurrences(l, name) == 0 <==> FindKey(l, name) == |l|
  {
    if l != [] {
      OccurrencesFound(l[1..], name);
    }
  }

  lemma {:induction false} OccurrencesWithout(l: seq<string>, name: string)
    ensures Occurrences(Without(l, name), name)
         == if Occurrences(l, name) == 0 then 0 else Occurrences(l, name) - 1
  {
    if l != [] {
      OccurrencesFound(l, name);
      if Matches(l[0], name) {
        assert Without(l, name) == l[1..];
      } else {
        OccurrencesWithout(l[1..], name);
        var m := Without(l, name);
        assert FindKey(l, name) == 1 + FindKey(l[1..], name);
        assert m[1..] == Without(l[1..], name) && m[0] == l[0];
      }
    }
  }

  /** unsetenv removes the first entry only, so the name is gone exactly when there was at most one
      entry for it. */
  lemma UnsetRemovesExactlyWhenSingle(l: seq<string>, name: string)
    ensures Lookup(Without(l, name), name).None? <==> Occurrences(l, name) <= 1
  {
    OccurrencesWithout(l, name);
    OccurrencesFound(Without(l, name), name);
  }

  // ----- uniqueness and the map -----

  /** With a name listed twice, unsetting it uncovers the second value. */
  lemma UnsetUncoversSecond(name: string, v: string, w: string)
    ensures Lookup(Without([Entry(name, v), Entry(name, w)], name), name) == Some(w)
  {
    var l := [Entry(name, v), Entry(name, w)];
    EntryMatches(name, v);
    EntryMatches(name, w);
    FindKeyIs(l, name, 0);
    assert Without(l, name) == [Entry(name, w)];
    FindKeyIs([Entry(name, w)], name, 0);
  }

  lemma UniqueWithEntry(l: seq<string>, name: string, text: string)
    requires Unique(l) && '=' !in name && Matches(text, name)
    ensures Unique(WithEntry(l, name, text))
  {
    var k, m := FindKey(l, name), WithEntry(l, name, text);
    forall i, j, n | 0 <= i < j < |m| && '=' !in n && Matches(m[i], n)
      ensures !Matches(m[j], n)
    {
      OneName(text, name, n);
      if i != k && j != k {
        assert Matches(l[i], n);
      }
    }
  }

  lemma UniqueWithout(l: seq<string>, name: string)
    requires Unique(l)
    ensures Unique(Without(l, name))
  {
    var k, m := FindKey(l, name), Without(l, name);
    forall i, j, n | 0 <= i < j < |m| && '=' !in n && Matches(m[i], n)
      ensures !Matches(m[j], n)
    {
      assert m[i] == l[if i < k then i else i + 1] && m[j] == l[if j < k then j else j + 1];
    }
  }

  /** The list stands for the map: every valid name looks up what the map holds. */
  ghost predicate Represents(l: seq<string>, m: map<string, string>) {
    forall name :: IsValidName(name) ==> Lookup(l, name) == if name in m then Some(m[name]) else None
  }

  /** setenv and putenv refine map update. */
  lemma UpdateRefinesMap(l: seq<string>, m: map<string, string>, name: string, text: string)
    requires Represents(l, m) && IsValidName(name) && Matches(text, name)
    ensures Represents(WithEntry(l, name, text), m[name := text[|name| + 1..]])
  {
    forall other | IsValidName(other)
      ensures Lookup(WithEntry(l, name, text), other)
           == if other in m[name := text[|name| + 1..]] then Some(m[name := text[|name| + 1..]][other]) else None
    {
      LookupWithEntry(l, name, text, other);
    }
  }

  lemma GoneWhenUnique(l: seq<string>, name: string)
    requires Unique(l) && '=' !in name
    ensures Lookup(Without(l, name), name) == None
  {
    var i, m := FindKey(l, name), Without(l, name);
    forall j | 0 <= j < |m|
      ensures !Matches(m[j], name)
    {
      if i < |l| {
        assert m[j] == l[if j < i then j else j + 1];
      }
    }
    FindKeyIs(m, name, |m|);
  }

  /** With unique names unsetenv refines map removal. */
  lemma UnsetRefinesMap(l: seq<string>, m: map<string, string>, name: string)
    requires Represents(l, m) && IsValidName(name) && Unique(l)
    ensures Represents(Without(l, name), m - {name})
  {
    hide Without;
    hide Lookup;
    GoneWhenUnique(l, name);
    hide Unique;
    forall other | IsValidName(other)
      ensures Lookup(Without(l, name), other) == if other in m - {name} then Some((m - {name})[other]) else None
    {
      if other != name {
        LookupWithoutOther(l, name, other);
      }
    }
  }

  // ----- whole runs -----

  datatype Op =
    | Setenv(name: string, value: string, overwrite: bool)
    | Putenv(text: string)
    | Unsetenv(name: string)
    | Clearenv

  function IndexOfEquals(s: string): (i: nat)
    ensures i <= |s| && '=' !in s[..i] && (i < |s| ==> s[i] == '=')
  {
    if s == "" || s[0] == '=' then 0
    else
      var i := 1 + IndexOfEquals(s[1..]);
      assert s[..i] == [s[0]] + s[1..][..i - 1];
      i
  }

  /** The list after a call; an invalid name or a text without one changes nothing. */
  function Apply(l: seq<string>, op: Op): seq<string> {
    match op
    case Setenv(name, value, overwrite) =>
      if !IsValidName(name) || (FindKey(l, name) < |l| && !overwrite) then l
      else WithEntry(l, name, Entry(name, value))
    case Putenv(text) =>
      var i := IndexOfEquals(text);
      if i == |text| || i == 0 then l else WithEntry(l, text[..i], text)
    case Unsetenv(name) => if !IsValidName(name) then l else Without(l, name)
    case Clearenv => []
  }

  function ApplyToMap(m: map<string, string>, op: Op): map<string, string> {
    match op
    case Setenv(name, value, overwrite) =>
      if !IsValidName(name) || (name in m && !overwrite) then m else m[name := value]
    case Putenv(text) =>
      var i := IndexOfEquals(text);
      if i == |text| || i == 0 then m else m[text[..i] := text[i + 1..]]
    case Unsetenv(name) => m - {name}
    case Clearenv => map[]
  }

  lemma ApplyRefinesMap(l: seq<string>, m: map<string, string>, op: Op)
    requires Unique(l) && Represents(l, m)
    requires forall name :: name in m ==> IsValidName(name)
    ensures Unique(Apply(l, op)) && Represents(Apply(l, op), ApplyToMap(m, op))
    ensures forall name :: name in ApplyToMap(m, op) ==> IsValidName(name)
  {
    hide Represents;
    hide Unique;
    hide WithEntry;
    hide Without;
    match op
    case Setenv(name, value, overwrite) =>
      if IsValidName(name) {
        var text := Entry(name, value);
        EntryMatches(name, value);
        UpdateRefinesMap(l, m, name, text);
        UniqueWithEntry(l, name, text);
        PresentExactly(l, m, name);
      }
    case Putenv(text) =>
      var i := IndexOfEquals(text);
      if 0 < i < |text| {
        UpdateRefinesMap(l, m, text[..i], text);
        UniqueWithEntry(l, text[..i], text);
      }
    case Unsetenv(name) =>
      if IsValidName(name) {
        UnsetRefinesMap(l, m, name);
        UniqueWithout(l, name);
      } else {
        assert m - {name} == m;
      }
    case Clearenv =>
      NothingRepresented();
  }

  lemma EntryMatches(name: string, value: string)
    ensures Matches(Entry(name, value), name) && Entry(name, value)[|name| + 1..] == value
  {
  }

  lemma PresentExactly(l: seq<string>, m: map<string, string>, name: string)
    requires Represents(l, m) && IsValidName(name)
    ensures FindKey(l, name) < |l| <==> name in m
  {
    assert Lookup(l, name).Some? <==> FindKey(l, name) < |l|;
  }

  lemma NothingRepresented()
    ensures Unique([]) && Represents([], map[])
  {
  }

  function Run(l: seq<string>, ops: seq<Op>): seq<string>
    decreases |ops|
  {
    if ops == [] then l else Run(Apply(l, ops[0]), ops[1..])
  }

  function RunOnMap(m: map<string, string>, ops: seq<Op>): map<string, string>
    decreases |ops|
  {
    if ops == [] then m else RunOnMap(ApplyToMap(m, ops[0]), ops[1..])
  }

  /** Every run of the four calls from a list with unique names is a run on the finite map. */
  lemma {:induction false} RunRefinesMap(l: seq<string>, m: map<string, string>, ops: seq<Op>)
    requires Unique(l) && Represents(l, m)
    requires forall name :: name in m ==> IsValidName(name)
    ensures Unique(Run(l, ops)) && Represents(Run(l, ops), RunOnMap(m, ops))
    decreases |ops|
  {
    if ops != [] {
      ApplyRefinesMap(l, m, ops[0]);
      RunRefinesMap(Apply(l, ops[0]), ApplyToMap(m, ops[0]), ops[1..]);
    }
  }

  // ----- calls that never return -----

  /** A text that strlen cannot measure. */
  predicate Long(text: string) { |text| >= STRLEN_WRAP }

  predicate AnyLong(l: seq<string>) { exists i :: 0 <= i < |l| && Long(l[i]) }

  /** Whether a call gets as far as to make the environment's arrays its own. */
  predicate Changes(l: seq<string>, op: Op) {
    match op
    case Setenv(name, value, overwrite) => IsValidName(name) && (FindKey(l, name) < |l| ==> overwrite)
    case Putenv(text) => 0 < IndexOfEquals(text) < |text|
    case Unsetenv(name) => IsValidName(name)
    case Clearenv => true
  }

  /** A call hangs on a name or value too long to measure, and the first change, which copies every
      entry (`cloned` is false), on an entry too long to copy. */
  predicate Hangs(l: seq<string>, cloned: bool, op: Op) {
    || (Changes(l, op) && !cloned && AnyLong(l))
    || match op
       case Setenv(name, value, overwrite) => IsValidName(name) && (Long(name) || (Changes(l, op) && Long(value)))
       case Unsetenv(name) => IsValidName(name) && Long(name)
       case _ => false
  }

  /** Some call of a run hangs. */
  predicate RunHangs(l: seq<string>, cloned: bool, ops: seq<Op>)
    decreases |ops|
  {
    ops != [] &&
    (Hangs(l, cloned, ops[0]) || RunHangs(Apply(l, ops[0]), cloned || Changes(l, ops[0]), ops[1..]))
  }

  /** The names and values of a call can be measured. */
  predicate Short(op: Op) {
    match op
    case Setenv(name, value, _) => !Long(name) && !Long(value)
    case Unsetenv(name) => !Long(name)
    case _ => true
  }

  /** A run never hangs if its names and values can be measured and so can the entries it starts from,
      unless they have been copied before: what it adds is never measured as a whole. */
  lemma {:induction false} ShortRunReturns(l: seq<string>, cloned: bool, ops: seq<Op>)
    requires cloned || !AnyLong(l)
    requires forall i :: 0 <= i < |ops| ==> Short(ops[i])
    ensures !RunHangs(l, cloned, ops)
    decreases |ops|
  {
    hide AnyLong, FindKey;
    if ops != [] {
      assert !Changes(l, ops[0]) ==> Apply(l, ops[0]) == l;
      ShortRunReturns(Apply(l, ops[0]), cloned || Changes(l, ops[0]), ops[1..]);
    }
  }

  /** Setting any variable to a value of 65536 characters or more hangs, and to a shorter one it does
      not once the entries are copied. */
  lemma LongValueHangs(l: seq<string>, name: string, value: string)
    requires IsValidName(name) && !Long(name)
    ensures Hangs(l, true, Setenv(name, value, true)) <==> |value| >= STRLEN_WRAP
  {
  }

  /** One entry that is too long makes the first change of any kind hang, clearing included. */
  lemma LongEntryHangs(l: seq<string>, i: nat)
    requires i < |l| && Long(l[i])
    ensures Hangs(l, false, Clearenv) && !Hangs(l, true, Clearenv)
  {
  }
}
