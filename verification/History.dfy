/** The command history ring of app/mosh/mosh.c. */
module History {

  const LIMIT: nat := 16
  const LINE_MAX: nat := 255

  function Truncated(line: string): string { if |line| <= LINE_MAX then line else line[..LINE_MAX] }

  function LastOf(l: seq<string>): seq<string> { if |l| <= LIMIT then l else l[|l| - LIMIT..] }

  /** What a line adds to the list of kept lines: nothing if it is empty or repeats the last. */
  function Keep(kept: seq<string>, line: string): seq<string> {
    if line == "" || (kept != [] && kept[|kept| - 1] == line) then kept else kept + [Truncated(line)]
  }

  /** All lines ever worth keeping. */
  function KeptOf(lines: seq<string>): seq<string> {
    if lines == [] then [] else Keep(KeptOf(lines[..|lines| - 1]), lines[|lines| - 1])
  }

  /** One addition seen through the window of the last sixteen. */
  lemma WindowKeep(kept: seq<string>, line: string)
    ensures LastOf(Keep(LastOf(kept), line)) == LastOf(Keep(kept, line))
  {
    if |kept| > LIMIT {
      var w, t := LastOf(kept), Truncated(line);
      assert w[|w| - 1] == kept[|kept| - 1];
      assert LastOf(w + [t]) == LastOf(kept + [t]);
    }
  }

  /** history_physical_index of a ring with this write position and length. */
  function Physical(next: nat, length: nat, i: nat): (p: nat)
    requires next < LIMIT && length <= LIMIT
    ensures p < LIMIT
  {
    if length == 0 then 0
    else
      var base := (next + LIMIT - length) % LIMIT;
      (base + i) % LIMIT
  }

  /** The ring read in logical order, oldest line first. */
  function Ring(entries: seq<string>, next: nat, length: nat): (l: seq<string>)
    requires |entries| == LIMIT && next < LIMIT && length <= LIMIT
    ensures |l| == length
  {
    seq(length, i requires 0 <= i < length => entries[Physical(next, length, i)])
  }

  /** Without the nested remainder: the window ends right before the write position. */
  function Slot(next: nat, length: nat, i: nat): (p: nat)
    requires next < LIMIT && i < length <= LIMIT
    ensures p < LIMIT
  {
    var x := next + LIMIT - length + i;
    if x >= LIMIT then x - LIMIT else x
  }

  lemma RingAt(entries: seq<string>, next: nat, length: nat, i: nat)
    requires |entries| == LIMIT && next < LIMIT && i < length <= LIMIT
    ensures Ring(entries, next, length)[i] == entries[Slot(next, length, i)]
  {
    assert Physical(next, length, i) == Slot(next, length, i);
  }

  /** Writing at the write position appends to the window and pushes the oldest line out. */
  lemma RingAdd(entries: seq<string>, next: nat, length: nat, t: string)
    requires |entries| == LIMIT && next < LIMIT && length <= LIMIT
    ensures Ring(entries[next := t], (next + 1) % LIMIT, if length < LIMIT then length + 1 else length)
         == LastOf(Ring(entries, next, length) + [t])
  {
    hide Ring;
    var next2 := (next + 1) % LIMIT;
    assert next2 == if next + 1 == LIMIT then 0 else next + 1;
    var length2 := if length < LIMIT then length + 1 else length;
    var before, after := Ring(entries, next, length) + [t], Ring(entries[next := t], next2, length2);
    forall i | 0 <= i < length2
      ensures after[i] == LastOf(before)[i]
    {
      RingAt(entries[next := t], next2, length2, i);
      var k := if length < LIMIT then i else i + 1;
      if k < length {
        RingAt(entries, next, length, k);
      }
      assert LastOf(before)[i] == before[k];
    }
  }

  class History {
    const entries: array<string>
    var length: nat
    var next: nat

    predicate Valid()
      reads this
    {
      entries.Length == LIMIT && length <= LIMIT && next < LIMIT
    }

    function PhysicalIndex(i: nat): (p: nat)
      requires Valid()
      reads this
      ensures p < LIMIT
    {
      Physical(next, length, i)
    }

    /** history_get. */
    function Get(i: nat): string
      requires Valid()
      reads this, entries
    {
      if i >= length then "" else entries[PhysicalIndex(i)]
    }

    /** The history, oldest line first. */
    function Lines(): (l: seq<string>)
      requires Valid()
      reads this, entries
      ensures |l| == length
    {
      Ring(entries[..], next, length)
    }

    lemma LinesAt(i: nat)
      requires Valid() && i < length
      ensures Lines()[i] == Get(i)
    {
    }

    /** history_reset. */
    constructor ()
      ensures Valid() && Lines() == []
    {
      entries := new string[LIMIT](_ => "");
      length, next := 0, 0;
    }

    /** history_add. */
    method Add(line: string)
      requires Valid()
      modifies this, entries
      ensures Valid() && Lines() == LastOf(Keep(old(Lines()), line))
    {
      hide Ring;
      hide Physical;
      assert LastOf(Lines()) == Lines();
      if line == "" {
        return;
      }
      if length > 0 {
        var last := PhysicalIndex(length - 1);
        LinesAt(length - 1);
        if entries[last] == line {
          return;
        }
      }
      RingAdd(entries[..], next, length, Truncated(line));
      hide LastOf;
      hide Truncated;
      entries[next] := Truncated(line);
      next := (next + 1) % LIMIT;
      if length < LIMIT {
        length := length + 1;
      }
      assert entries[..] == old(entries[..])[old(next) := Truncated(line)];
    }

    /** After any run of additions the logical indices read back exactly the last sixteen lines of
        the input with empty lines and consecutive repeats removed. */
    method AddAll(lines: seq<string>)
      requires Valid() && Lines() == []
      modifies this, entries
      ensures Valid() && Lines() == LastOf(KeptOf(lines))
      ensures forall i :: 0 <= i < length ==> Get(i) == LastOf(KeptOf(lines))[i]
    {
      hide Ring;
      hide Physical;
      hide Keep;
      assert lines[..0] == [];
      for i := 0 to |lines|
        invariant Valid() && Lines() == LastOf(KeptOf(lines[..i]))
      {
        KeptStep(lines, i);
        hide KeptOf;
        hide LastOf;
        WindowKeep(KeptOf(lines[..i]), lines[i]);
        Add(lines[i]);
      }
      assert lines[..|lines|] == lines;
      hide KeptOf;
      hide LastOf;
      forall i | 0 <= i < length
        ensures Get(i) == LastOf(KeptOf(lines))[i]
      {
        LinesAt(i);
      }
    }
  }

  lemma KeptStep(lines: seq<string>, i: nat)
    requires i < |lines|
    ensures KeptOf(lines[..i + 1]) == Keep(KeptOf(lines[..i]), lines[i])
  {
    assert lines[..i + 1][..i] == lines[..i];
  }

  predicate NoRepeats(k: seq<string>) {
    && (forall i :: 0 <= i < |k| ==> k[i] != "")
    && (forall i :: 0 < i < |k| ==> k[i - 1] != k[i])
  }

  /** The lines that are not empty. */
  function NonEmpty(lines: seq<string>): seq<string> {
    if lines == [] then []
    else
      var init, line := NonEmpty(lines[..|lines| - 1]), lines[|lines| - 1];
      if line == "" then init else init + [line]
  }

  /** No line too long for its slot follows a line with the same stored form. */
  predicate NoLongRepeat(n: seq<string>) {
    forall i :: 0 < i < |n| && |n[i]| > LINE_MAX ==> Truncated(n[i - 1]) != Truncated(n[i])
  }

  lemma {:induction false} LastKept(lines: seq<string>)
    ensures KeptOf(lines) == [] <==> NonEmpty(lines) == []
    ensures var k, n := KeptOf(lines), NonEmpty(lines); k != [] ==> k[|k| - 1] == Truncated(n[|n| - 1])
  {
    if lines != [] {
      LastKept(lines[..|lines| - 1]);
    }
  }

  lemma NoRepeatsAppend(k: seq<string>, t: string)
    ensures NoRepeats(k + [t]) <==> NoRepeats(k) && t != "" && (k == [] || k[|k| - 1] != t)
  {
    var r := k + [t];
    assert forall i :: 0 <= i < |k| ==> r[i] == k[i];
    assert r[|k|] == t;
    if NoRepeats(r) {
      forall i | 0 < i < |k|
        ensures k[i - 1] != k[i]
      {
        assert r[i - 1] != r[i];
      }
      assert k != [] ==> r[|k| - 1] != r[|k|];
    }
  }

  lemma NoLongRepeatAppend(n: seq<string>, line: string)
    ensures NoLongRepeat(n + [line]) <==>
              NoLongRepeat(n) && (n == [] || |line| <= LINE_MAX || Truncated(n[|n| - 1]) != Truncated(line))
  {
    var r := n + [line];
    assert forall i :: 0 <= i < |n| ==> r[i] == n[i];
    assert r[|n|] == line;
    if NoLongRepeat(r) {
      forall i | 0 < i < |n| && |n[i]| > LINE_MAX
        ensures Truncated(n[i - 1]) != Truncated(n[i])
      {
        assert r[i - 1] == n[i - 1] && r[i] == n[i];
      }
    }
  }

  /** Consecutive kept lines differ exactly when no line longer than a slot repeats, in its stored
      form, the non-empty line before it: a repeat is recognised by its full text. */
  lemma {:induction false} KeptHasNoRepeats(lines: seq<string>)
    ensures NoRepeats(KeptOf(lines)) <==> NoLongRepeat(NonEmpty(lines))
  {
    hide NoRepeats, NoLongRepeat;
    if lines == [] {
      NothingRepeats();
    } else {
      var init, line := lines[..|lines| - 1], lines[|lines| - 1];
      KeptHasNoRepeats(init);
      LastKept(init);
      NoLongRepeatAppend(NonEmpty(init), line);
      NoRepeatsAppend(KeptOf(init), Truncated(line));
    }
  }

  lemma {:induction false} NonEmptyAreShort(lines: seq<string>)
    requires forall i :: 0 <= i < |lines| ==> |lines[i]| <= LINE_MAX
    ensures forall i :: 0 <= i < |NonEmpty(lines)| ==> |NonEmpty(lines)[i]| <= LINE_MAX
  {
    if lines != [] {
      NonEmptyAreShort(lines[..|lines| - 1]);
    }
  }

  /** The command loop cuts its lines to a slot before adding them, so there nothing is kept twice. */
  lemma ShortLinesAreKeptOnce(lines: seq<string>)
    requires forall i :: 0 <= i < |lines| ==> |lines[i]| <= LINE_MAX
    ensures NoRepeats(KeptOf(lines))
  {
    hide NonEmpty, KeptOf;
    NonEmptyAreShort(lines);
    KeptHasNoRepeats(lines);
  }

  /** A longer line given to history_add twice is kept twice. */
  lemma LongLineIsKeptTwice(line: string)
    requires |line| > LINE_MAX
    ensures KeptOf([line, line]) == [Truncated(line), Truncated(line)]
  {
    assert [line, line][..1] == [line] && [line][..0] == [];
    assert KeptOf([line]) == [Truncated(line)];
  }

  lemma NothingRepeats()
    ensures NoRepeats([]) && NoLongRepeat([])
  {
  }
}
