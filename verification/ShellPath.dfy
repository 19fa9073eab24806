/** canonicalize_path of app/mosh/mosh.c. Leaving a directory cuts the text right after the slash in
    front of it, so a later component is preceded by one slash too many; as a list of components
    the result is nevertheless the same as realpath's. */
module ShellPath {
  import opened CText
  import opened PathText
  import Realpath

  const MAX_DEPTH: nat := 64

  /** The output text and where each component in it starts. */
  datatype Canon = TooLong | Canon(text: string, starts: seq<nat>)

  // ----- the fold over components -----

  function Push(text: string, starts: seq<nat>, c: string, capacity: nat): Canon {
    var open := if |text| > 1 then text + "/" else text;
    if (|text| > 1 && |text| + 1 >= capacity) || |starts| >= MAX_DEPTH || |open| + |c| >= capacity then TooLong
    else Canon(open + c, starts + [|open|])
  }

  function Step(k: Canon, c: string, capacity: nat): Canon
    requires Sound(k)
  {
    if k.TooLong? || c == "." then k
    else if c == ".." then
      (if k.starts == [] then k else Canon(k.text[..k.starts[|k.starts| - 1]], k.starts[..|k.starts| - 1]))
    else Push(k.text, k.starts, c, capacity)
  }

  /** Every start is a position in the text, in order. */
  predicate Sound(k: Canon) {
    k.Canon? ==>
      && |k.text| >= 1 && k.text[0] == '/'
      && (forall i :: 0 <= i < |k.starts| ==> 1 <= k.starts[i] <= |k.text| && k.text[k.starts[i] - 1] == '/')
      && (forall i, j :: 0 <= i < j < |k.starts| ==> k.starts[i] <= k.starts[j])
  }

  lemma StepSound(k: Canon, c: string, capacity: nat)
    requires Sound(k)
    ensures Sound(Step(k, c, capacity))
  {
  }

  function RunFrom(k: Canon, comps: seq<string>, capacity: nat): Canon
    requires Sound(k)
    decreases |comps|
  {
    if comps == [] then k
    else
      StepSound(k, comps[0], capacity);
      RunFrom(Step(k, comps[0], capacity), comps[1..], capacity)
  }

  const ROOT := Canon("/", [])

  lemma {:induction false} TooLongStays(comps: seq<string>, capacity: nat)
    ensures RunFrom(TooLong, comps, capacity) == TooLong
    decreases |comps|
  {
    if comps != [] {
      TooLongStays(comps[1..], capacity);
    }
  }

  // ----- the text always spells the resolved stack -----

  /** The text up to each start spells the names before it, and all of it spells all of them. */
  predicate Spells(k: Canon, stack: seq<string>)
    requires Sound(k)
  {
    k.Canon? ==>
      && |k.starts| == |stack| && Components(k.text) == stack
      && forall i :: 0 <= i < |k.starts| ==> Components(k.text[..k.starts[i]]) == stack[..i]
  }

  lemma TrailingSlash(text: string)
    requires |text| >= 1 && text[|text| - 1] == '/'
    ensures Components(text) == Components(text[..|text| - 1])
  {
    var x := text[..|text| - 1];
    ComponentsSplit(x, "");
    assert text == x + "/" + "";
    assert Components(x) + [] == Components(x);
  }

  /** Opening a new component and filling it in. */
  lemma OpenSpells(text: string, c: string)
    requires |text| >= 1 && text[0] == '/' && IsName(c)
    ensures var open := if |text| > 1 then text + "/" else text;
            Components(open) == Components(text) && Components(open + c) == Components(text) + [c]
  {
    hide Components;
    var open := if |text| > 1 then text + "/" else text;
    TrailingSlash(open);
    var x := open[..|open| - 1];
    ComponentsSplit(x, c);
    FirstComponent(c, "");
    assert c + "" == c && Components("") == [] by { NothingInEmpty(); }
    assert open + c == x + "/" + c;
    assert |text| > 1 ==> x == text;
    assert |text| == 1 ==> open == text;
  }

  lemma NothingInEmpty()
    ensures Components("") == []
  {
  }

  lemma PushSpells(text: string, starts: seq<nat>, c: string, capacity: nat, stack: seq<string>)
    requires Sound(Canon(text, starts)) && Spells(Canon(text, starts), stack) && IsName(c)
    ensures Sound(Push(text, starts, c, capacity)) && Spells(Push(text, starts, c, capacity), stack + [c])
  {
    hide Components;
    var k := Push(text, starts, c, capacity);
    StepSound(Canon(text, starts), c, capacity);
    if k.Canon? {
      OpenSpells(text, c);
      var open := if |text| > 1 then text + "/" else text;
      assert k.text[..|open|] == open;
      forall i | 0 <= i < |k.starts|
        ensures Components(k.text[..k.starts[i]]) == (stack + [c])[..i]
      {
        if i < |starts| {
          assert k.text[..starts[i]] == text[..starts[i]];
          assert (stack + [c])[..i] == stack[..i];
        } else {
          assert (stack + [c])[..i] == stack;
        }
      }
    }
  }

  lemma StepSpells(k: Canon, c: string, capacity: nat, stack: seq<string>)
    requires Sound(k) && Spells(k, stack) && IsComponent(c)
    ensures Sound(Step(k, c, capacity)) && Spells(Step(k, c, capacity), Enter(stack, c))
  {
    StepSound(k, c, capacity);
    if k.Canon? && c == ".." && k.starts != [] {
      var n := |k.starts| - 1;
      var cut := k.starts[n];
      forall i | 0 <= i < n
        ensures Components(k.text[..cut][..k.starts[i]]) == stack[..n][..i]
      {
        assert k.text[..cut][..k.starts[i]] == k.text[..k.starts[i]];
        assert stack[..n][..i] == stack[..i];
      }
    } else if k.Canon? && c != "." && c != ".." {
      PushSpells(k.text, k.starts, c, capacity, stack);
    }
  }

  lemma {:induction false} RunSpells(k: Canon, comps: seq<string>, capacity: nat, stack: seq<string>)
    requires Sound(k) && Spells(k, stack)
    requires forall i :: 0 <= i < |comps| ==> IsComponent(comps[i])
    ensures Sound(RunFrom(k, comps, capacity))
    ensures Spells(RunFrom(k, comps, capacity), Resolve(stack, comps))
    decreases |comps|
  {
    if comps != [] {
      StepSpells(k, comps[0], capacity, stack);
      RunSpells(Step(k, comps[0], capacity), comps[1..], capacity, Enter(stack, comps[0]));
    }
  }

  /** Whenever the shell and realpath both succeed on an absolute path, their results have the same
      components: the lexical resolution of the input's. */
  lemma ShellAgreesWithRealpath(input: string, capacity: nat)
    requires NUL !in input
    requires RunFrom(ROOT, Components(input), capacity).Canon?
    ensures Components(RunFrom(ROOT, Components(input), capacity).text) == Resolve([], Components(input))
    ensures Realpath.ResolveFitting([], Components(input)).Stack? ==>
              Components(RunFrom(ROOT, Components(input), capacity).text)
              == Components(PathOf(Realpath.ResolveFitting([], Components(input)).names))
  {
    ComponentsAreComponents(input);
    RootHasNoComponents();
    RunSpells(ROOT, Components(input), capacity, []);
    if Realpath.ResolveFitting([], Components(input)).Stack? {
      Realpath.ResultIsCanonical([], input);
      ComponentsOfPath(Realpath.ResolveFitting([], Components(input)).names);
    }
  }

  // ----- exactly when the text is canonical too -----

  /** Leaving a directory below the top leaves its slash behind, until the text is cut back to the
      root. */
  function StaysTidy(depth: nat, tidy: bool, comps: seq<string>): bool
    decreases |comps|
  {
    if comps == [] then tidy
    else if comps[0] == "." then StaysTidy(depth, tidy, comps[1..])
    else if comps[0] == ".." then StaysTidy(if depth == 0 then 0 else depth - 1, depth <= 1, comps[1..])
    else StaysTidy(depth + 1, tidy, comps[1..])
  }

  /** The first component starts right after the leading slash. */
  predicate Anchored(k: Canon) {
    k.Canon? ==> if k.starts == [] then k.text == "/" else k.starts[0] == 1
  }

  ghost predicate TidyIs(k: Canon, stack: seq<string>, tidy: bool) {
    k.Canon? ==> (tidy <==> k.text == PathOf(stack))
  }

  lemma StepTidy(k: Canon, c: string, capacity: nat, stack: seq<string>, tidy: bool)
    requires Sound(k) && Spells(k, stack) && Anchored(k) && AreNames(stack) && IsComponent(c)
    requires TidyIs(k, stack, tidy)
    ensures Anchored(Step(k, c, capacity)) && AreNames(Enter(stack, c))
    ensures TidyIs(Step(k, c, capacity), Enter(stack, c), if c == ".." then |stack| <= 1 else tidy)
  {
    if k.Canon? && c == ".." && stack != [] {
      PopTidy(k, stack);
    } else if k.Canon? && c != "." && c != ".." {
      PushTidy(k, c, capacity, stack);
    }
    hide PathOf;
    hide Components;
  }

  lemma PopTidy(k: Canon, stack: seq<string>)
    requires k.Canon? && Sound(k) && Spells(k, stack) && Anchored(k) && AreNames(stack) && stack != []
    ensures var n := |stack| - 1;
            var text := k.text[..k.starts[n]];
            && (n == 0 ==> text == "/")
            && (text == PathOf(stack[..n]) <==> n == 0)
  {
    hide Components;
    var n := |stack| - 1;
    var cut := k.starts[n];
    if n > 0 {
      NoTrailingSlash(stack[..n]);
      hide PathOf;
      assert k.text[..cut][cut - 1] == '/';
    } else {
      assert k.text[..1] == "/" && stack[..0] == [];
    }
  }

  lemma PushTidy(k: Canon, c: string, capacity: nat, stack: seq<string>)
    requires k.Canon? && Sound(k) && Spells(k, stack) && Anchored(k) && AreNames(stack) && IsName(c)
    ensures var r := Push(k.text, k.starts, c, capacity);
            r.Canon? ==> r.starts[0] == 1 && (r.text == PathOf(stack + [c]) <==> k.text == PathOf(stack))
  {
    Realpath.PushedPath(stack, c);
    if stack == [] {
      assert k.text == "/" == PathOf([]);
    } else {
      LongerThanRoot(k, stack);
      hide PathOf;
      hide Components;
      SameEnding(k.text, PathOf(stack), "/" + c);
      assert k.text + "/" + c == k.text + ("/" + c);
      assert PathOf(stack) + "/" + c == PathOf(stack) + ("/" + c);
    }
  }

  lemma LongerThanRoot(k: Canon, stack: seq<string>)
    requires Sound(k) && Spells(k, stack) && k.Canon? && stack != []
    ensures |k.text| > 1
  {
    RootHasNoComponents();
    var text := k.text;
    assert |text| == 1 ==> text == "/";
  }

  lemma RootHasNoComponents()
    ensures Components("/") == []
  {
    assert "/"[1..] == "";
  }

  lemma SameEnding(a: string, b: string, e: string)
    ensures a + e == b + e <==> a == b
  {
    if a + e == b + e {
      assert |a| == |b|;
      assert a == (a + e)[..|a|] && b == (b + e)[..|a|];
    }
  }

  lemma {:induction false} RunTidy(k: Canon, comps: seq<string>, capacity: nat, stack: seq<string>, tidy: bool)
    requires Sound(k) && Spells(k, stack) && Anchored(k) && AreNames(stack) && TidyIs(k, stack, tidy)
    requires forall i :: 0 <= i < |comps| ==> IsComponent(comps[i])
    ensures TidyIs(RunFrom(k, comps, capacity), Resolve(stack, comps), StaysTidy(|stack|, tidy, comps))
    decreases |comps|
  {
    hide Step;
    hide Components;
    hide PathOf;
    hide Spells;
    hide Sound;
    if comps != [] {
      StepSpells(k, comps[0], capacity, stack);
      StepTidy(k, comps[0], capacity, stack, tidy);
      var next := Step(k, comps[0], capacity);
      RunTidy(next, comps[1..], capacity, Enter(stack, comps[0]), if comps[0] == ".." then |stack| <= 1 else tidy);
    }
  }

  /** The shell's text is the canonical one, not merely an equivalent one, exactly when no ".."
      leaves a directory below the top without the path returning to the root afterwards. */
  lemma CanonicalExactlyWhenTidy(input: string, capacity: nat)
    requires NUL !in input
    requires RunFrom(ROOT, Components(input), capacity).Canon?
    ensures RunFrom(ROOT, Components(input), capacity).text == PathOf(Resolve([], Components(input)))
            <==> StaysTidy(0, true, Components(input))
  {
    ComponentsAreComponents(input);
    RootHasNoComponents();
    RunTidy(ROOT, Components(input), capacity, [], true);
  }

  // ----- the loop over the buffer -----

  /** The room a list of components takes at most, each behind a slash. */
  function Room(comps: seq<string>): nat
    decreases |comps|
  {
    if comps == [] then 0 else |comps[0]| + 1 + Room(comps[1..])
  }

  /** Whatever is short and shallow enough succeeds. */
  lemma {:induction false} RoomEnough(k: Canon, comps: seq<string>, capacity: nat)
    requires Sound(k) && k.Canon? && |k.text| + Room(comps) < capacity && |k.starts| + |comps| <= MAX_DEPTH
    ensures RunFrom(k, comps, capacity).Canon?
    decreases |comps|
  {
    if comps != [] {
      StepSound(k, comps[0], capacity);
      RoomEnough(Step(k, comps[0], capacity), comps[1..], capacity);
    }
  }

  /** Going down two directories and up one, as in "/a/b/..", succeeds with a text that is not the
      canonical one. */
  lemma ExtraSlash(a: string, b: string, capacity: nat)
    requires IsName(a) && IsName(b) && |a| + |b| + 6 < capacity
    ensures var input := Slashed([a, b]) + "/" + "..";
            var k := RunFrom(ROOT, Components(input), capacity);
            Components(input) == [a, b, ".."] && k.Canon? && k.text != PathOf([a])
  {
    var input := Slashed([a, b]) + "/" + "..";
    UpComponents(a, b);
    hide Components, RunFrom, Step;
    UpResolves(a, b);
    RoomOfThree(a, b, "..");
    hide Room;
    RoomEnough(ROOT, [a, b, ".."], capacity);
    CanonicalExactlyWhenTidy(input, capacity);
  }

  lemma RoomOfThree(a: string, b: string, c: string)
    ensures Room([a, b, c]) == |a| + |b| + |c| + 3
  {
    assert [a, b, c][1..] == [b, c] && [b, c][1..] == [c] && [c][1..] == [];
    assert Room([c]) == |c| + 1;
  }

  lemma UpComponents(a: string, b: string)
    requires IsName(a) && IsName(b)
    ensures var input := Slashed([a, b]) + "/" + ".."; NUL !in input && Components(input) == [a, b, ".."]
  {
    hide Components, SegmentEnd;
    TwoSlashed(a, b);
    hide Slashed;
    ComponentsOfSlashed([a, b]);
    ComponentsSplit(Slashed([a, b]), "..");
    FirstComponent("..", "");
    NothingInEmpty();
    assert ".." + "" == "..";
    assert [a, b] + ([".."] + []) == [a, b, ".."];
  }

  lemma TwoSlashed(a: string, b: string)
    requires NUL !in a && NUL !in b
    ensures NUL !in Slashed([a, b])
  {
    SlashedPush([a], b);
    SlashedPush([], a);
    assert [] + [a] == [a] && [a] + [b] == [a, b];
  }

  lemma UpResolves(a: string, b: string)
    requires IsName(a) && IsName(b)
    ensures Resolve([], [a, b, ".."]) == [a] && !StaysTidy(0, true, [a, b, ".."])
  {
    assert [a, b, ".."][1..] == [b, ".."] && [b, ".."][1..] == [".."] && [".."][1..] == [];
    assert [] + [a] == [a] && [a] + [b] == [a, b] && [a, b][..1] == [a];
    assert Resolve([a, b], [".."]) == Resolve([a], []);
    assert Resolve([a], [b, ".."]) == Resolve([a, b], [".."]);
    assert StaysTidy(2, true, [".."]) == StaysTidy(1, false, []);
    assert StaysTidy(1, true, [b, ".."]) == StaysTidy(2, true, [".."]);
  }

  /** How much of the output may be written. The terminator of the root is stored before any check,
      so with a capacity of 1 it lands one byte beyond it. */
  function Reach(capacity: nat): nat { if capacity == 1 then 2 else capacity }

  /** canonicalize_path. */
  method CanonicalizePath(input: string, output: array<char>, capacity: nat) returns (ok: bool)
    requires NUL !in input && Reach(capacity) <= output.Length
    modifies output
    ensures capacity == 0 ==> !ok
    ensures capacity > 0 ==>
              var k := RunFrom(ROOT, Components(input), capacity);
              && (ok <==> k.Canon?)
              && (ok ==> |k.text| < Reach(capacity) && output[..|k.text|] == k.text && output[|k.text|] == NUL)
              && (ok ==> (|k.text| < capacity <==> capacity != 1))
    ensures output[Reach(capacity)..] == old(output[Reach(capacity)..])
    ensures capacity == 1 ==> output[1] == NUL
  {
    hide Components;
    hide RunFrom;
    hide Step;
    if capacity == 0 {
      return false;
    }
    var outLen := 1;
    var starts: seq<nat> := [];
    output[0] := '/';
    output[outLen] := NUL;
    var i := 0;
    assert input[0..] == input;
    if At(input, 0) == '/' {
      DropSlash(input, 0);
      i := i + 1;
    }
    ghost var goal := RunFrom(ROOT, Components(input), capacity);
    assert output[..outLen] == "/";
    while true
      invariant 0 <= i <= |input| && 1 <= outLen < Reach(capacity)
      invariant output[outLen] == NUL && output[Reach(capacity)..] == old(output[Reach(capacity)..])
      invariant Sound(Canon(output[..outLen], starts))
      invariant RunFrom(Canon(output[..outLen], starts), Components(input[i..]), capacity) == goal
      decreases |input| - i
    {
      i := Realpath.SkipSlashes(input, i);
      if At(input, i) == NUL {
        NothingLeft(Canon(output[..outLen], starts), input[i..], capacity);
        break;
      }
      var start := i;
      i := ScanSegment(input, start);
      var seg := input[start..i];
      NextComponent(Canon(output[..outLen], starts), input, start, i, capacity);
      ok, outLen, starts := EnterSegment(output, outLen, starts, seg, capacity);
      if !ok {
        TooLongStays(Components(input[i..]), capacity);
        return;
      }
    }
    if outLen == 1 {
      output[0] := '/';
      output[1] := NUL;
    }
    ok := true;
  }

  method ScanSegment(s: string, start: nat) returns (i: nat)
    requires start < |s| && NUL !in s && s[start] != '/'
    ensures start < i <= |s| && '/' !in s[start..i] && (i == |s| || s[i] == '/')
  {
    i := start;
    while At(s, i) != NUL && At(s, i) != '/'
      invariant start <= i <= |s| && '/' !in s[start..i]
      decreases |s| - i
    {
      assert s[start..i + 1] == s[start..i] + [s[i]];
      i := i + 1;
    }
  }

  lemma DropSlash(s: string, i: nat)
    requires i < |s| && s[i] == '/'
    ensures Components(s[i..]) == Components(s[i + 1..])
  {
    assert s[i..][1..] == s[i + 1..];
  }

  lemma NothingLeft(k: Canon, rest: string, capacity: nat)
    requires Sound(k) && rest == ""
    ensures RunFrom(k, Components(rest), capacity) == k
  {
  }

  lemma NextComponent(k: Canon, s: string, start: nat, end: nat, capacity: nat)
    requires Sound(k) && start < end <= |s| && '/' !in s[start..end]
    requires end == |s| || s[end] == '/'
    ensures Sound(Step(k, s[start..end], capacity))
    ensures RunFrom(k, Components(s[start..]), capacity)
         == RunFrom(Step(k, s[start..end], capacity), Components(s[end..]), capacity)
  {
    StepSound(k, s[start..end], capacity);
    FirstComponent(s[start..end], s[end..]);
    assert s[start..] == s[start..end] + s[end..];
    hide Step;
    hide Components;
  }

  /** One component: skip it, cut back to where the last one started, or append it. */
  method EnterSegment(output: array<char>, outLen: nat, starts: seq<nat>, seg: string, capacity: nat)
    returns (ok: bool, len: nat, marks: seq<nat>)
    requires 1 <= outLen < Reach(capacity) <= output.Length && output[outLen] == NUL && seg != ""
    requires Sound(Canon(output[..outLen], starts))
    modifies output
    ensures output[Reach(capacity)..] == old(output[Reach(capacity)..])
    ensures capacity == 1 ==> output[1] == NUL
    ensures var k := Step(Canon(old(output[..outLen]), starts), seg, capacity);
            && (ok <==> k.Canon?)
            && (ok ==> 1 <= len < Reach(capacity) && output[len] == NUL && k == Canon(output[..len], marks))
  {
    len, marks := outLen, starts;
    if |seg| == 1 && seg[0] == '.' {
      return true, len, marks;
    }
    if |seg| == 2 && seg[0] == '.' && seg[1] == '.' {
      if |marks| > 0 {
        len := marks[|marks| - 1];
        output[len] := NUL;
        marks := marks[..|marks| - 1];
        assert output[..len] == old(output[..outLen])[..len];
      }
      return true, len, marks;
    }
    ok, len, marks := AppendSegment(output, outLen, starts, seg, capacity);
  }

  method AppendSegment(output: array<char>, outLen: nat, starts: seq<nat>, seg: string, capacity: nat)
    returns (ok: bool, len: nat, marks: seq<nat>)
    requires 1 <= outLen < Reach(capacity) <= output.Length && seg != ""
    modifies output
    ensures output[Reach(capacity)..] == old(output[Reach(capacity)..])
    ensures capacity == 1 ==> output[1] == old(output[1])
    ensures var k := Push(old(output[..outLen]), starts, seg, capacity);
            && (ok <==> k.Canon?)
            && (ok ==> 1 <= len < Reach(capacity) && output[len] == NUL && k == Canon(output[..len], marks))
  {
    len, marks := outLen, starts;
    ok := false;
    if len > 1 {
      if len + 1 >= capacity {
        return;
      }
      output[len] := '/';
      len := len + 1;
    }
    if |marks| >= MAX_DEPTH {
      return;
    }
    ghost var open := output[..len];
    assert open == if outLen > 1 then old(output[..outLen]) + "/" else old(output[..outLen]);
    marks := marks + [len];
    ok, len := CopySegment(output, len, seg, capacity);
    if ok {
      output[len] := NUL;
    }
  }

  method CopySegment(output: array<char>, start: nat, seg: string, capacity: nat) returns (ok: bool, len: nat)
    requires start <= capacity <= output.Length && seg != ""
    modifies output
    ensures output[capacity..] == old(output[capacity..])
    ensures ok <==> start + |seg| < capacity
    ensures ok ==> len == start + |seg| && output[..len] == old(output[..start]) + seg
  {
    len := start;
    for j := 0 to |seg|
      invariant len == start + j && (j > 0 ==> len < capacity)
      invariant output[..len] == old(output[..start]) + seg[..j]
      invariant output[capacity..] == old(output[capacity..])
    {
      if len + 1 >= capacity {
        return false, len;
      }
      output[len] := seg[j];
      len := len + 1;
    }
    ok := true;
  }
}
