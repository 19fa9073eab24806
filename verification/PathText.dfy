/** Slash-separated paths as lists of components. */
module PathText {
  import opened CText

  /** The length of the text before the first slash. */
  function SegmentEnd(s: string): (k: nat)
    ensures k <= |s| && '/' !in s[..k]
    ensures k < |s| ==> s[k] == '/'
  {
    if s == "" || s[0] == '/' then 0
    else
      var k := 1 + SegmentEnd(s[1..]);
      assert s[..k] == [s[0]] + s[1..][..k - 1];
      k
  }

  /** The non-empty components of a path. */
  function Components(s: string): seq<string>
    decreases |s|
  {
    if s == "" then []
    else if s[0] == '/' then Components(s[1..])
    else
      var k := SegmentEnd(s);
      [s[..k]] + Components(s[k..])
  }

  predicate IsComponent(c: string) { c != "" && '/' !in c && NUL !in c }

  /** A component that is not resolved away. */
  predicate IsName(c: string) { IsComponent(c) && c != "." && c != ".." }

  predicate AreNames(stack: seq<string>) { forall i :: 0 <= i < |stack| ==> IsName(stack[i]) }

  /** One component of lexical resolution: "." stays, ".." leaves the last directory. */
  function Enter(stack: seq<string>, c: string): seq<string> {
    if c == "." then stack
    else if c == ".." then (if stack == [] then [] else stack[..|stack| - 1])
    else stack + [c]
  }

  function Resolve(stack: seq<string>, comps: seq<string>): seq<string>
    decreases |comps|
  {
    if comps == [] then stack else Resolve(Enter(stack, comps[0]), comps[1..])
  }

  /** Each component behind its own slash. */
  function Slashed(stack: seq<string>): string {
    if stack == [] then "" else Slashed(stack[..|stack| - 1]) + "/" + stack[|stack| - 1]
  }

  /** The canonical text of a list of names. */
  function PathOf(stack: seq<string>): (s: string)
    ensures |s| >= 1 && s[0] == '/'
  {
    if stack == [] then "/" else SlashedStart(stack); Slashed(stack)
  }

  lemma {:induction false} SlashedStart(stack: seq<string>)
    ensures stack != [] ==> |Slashed(stack)| >= 1 && Slashed(stack)[0] == '/'
  {
    if |stack| > 1 {
      SlashedStart(stack[..|stack| - 1]);
    }
  }

  lemma SlashedPush(stack: seq<string>, c: string)
    ensures Slashed(stack + [c]) == Slashed(stack) + "/" + c
  {
    assert (stack + [c])[..|stack|] == stack;
  }

  // ----- splitting and joining -----

  lemma {:induction false} SegmentOf(c: string, rest: string)
    requires '/' !in c && (rest == "" || rest[0] == '/')
    ensures SegmentEnd(c + rest) == |c|
  {
    if c == "" {
      assert c + rest == rest;
    } else {
      SegmentOf(c[1..], rest);
      assert (c + rest)[1..] == c[1..] + rest;
    }
  }

  lemma FirstComponent(c: string, rest: string)
    requires c != "" && '/' !in c && (rest == "" || rest[0] == '/')
    ensures Components(c + rest) == [c] + Components(rest)
  {
    SegmentOf(c, rest);
    var s := c + rest;
    assert s[..|c|] == c && s[|c|..] == rest;
  }

  /** A slash separates: the components on its two sides do not mix. */
  lemma {:induction false} ComponentsSplit(a: string, b: string)
    ensures Components(a + "/" + b) == Components(a) + Components(b)
    decreases |a|
  {
    var s := a + "/" + b;
    if a == "" {
      assert s[1..] == b;
    } else if a[0] == '/' {
      ComponentsSplit(a[1..], b);
      assert s[1..] == a[1..] + "/" + b;
    } else {
      var k := SegmentEnd(a);
      ComponentsSplit(a[k..], b);
      var rest := a[k..] + "/" + b;
      assert s == a[..k] + rest;
      FirstComponent(a[..k], rest);
    }
  }

  lemma {:induction false} ComponentsOfSlashed(stack: seq<string>)
    requires AreNames(stack)
    ensures Components(Slashed(stack)) == stack
  {
    if stack != [] {
      var init, c := stack[..|stack| - 1], stack[|stack| - 1];
      ComponentsOfSlashed(init);
      ComponentsSplit(Slashed(init), c);
      FirstComponent(c, "");
      assert c + "" == c;
    }
  }

  lemma ComponentsOfPath(stack: seq<string>)
    requires AreNames(stack)
    ensures Components(PathOf(stack)) == stack
  {
    ComponentsOfSlashed(stack);
  }

  lemma {:induction false} ComponentsAreComponents(s: string)
    requires NUL !in s
    ensures forall i :: 0 <= i < |Components(s)| ==> IsComponent(Components(s)[i])
    decreases |s|
  {
    if s != "" {
      if s[0] == '/' {
        ComponentsAreComponents(s[1..]);
      } else {
        var k := SegmentEnd(s);
        ComponentsAreComponents(s[k..]);
      }
    }
  }

  /** Resolving leaves only names: no ".", no "..", nothing empty. */
  lemma {:induction false} ResolveNames(stack: seq<string>, comps: seq<string>)
    requires AreNames(stack) && forall i :: 0 <= i < |comps| ==> IsComponent(comps[i])
    ensures AreNames(Resolve(stack, comps))
    decreases |comps|
  {
    if comps != [] {
      ResolveNames(Enter(stack, comps[0]), comps[1..]);
    }
  }

  /** Names resolve to themselves. */
  lemma {:induction false} ResolveNothing(stack: seq<string>, names: seq<string>)
    requires AreNames(names)
    ensures Resolve(stack, names) == stack + names
    decreases |names|
  {
    if names != [] {
      ResolveNothing(stack + [names[0]], names[1..]);
      assert stack + [names[0]] + names[1..] == stack + names;
    } else {
      assert stack + names == stack;
    }
  }

  /** Resolving goes on from where it stands. */
  lemma {:induction false} ResolveConcat(stack: seq<string>, a: seq<string>, b: seq<string>)
    ensures Resolve(stack, a + b) == Resolve(Resolve(stack, a), b)
    decreases |a|
  {
    hide Enter;
    if a == [] {
      assert a + b == b;
    } else {
      assert (a + b)[1..] == a[1..] + b;
      ResolveConcat(Enter(stack, a[0]), a[1..], b);
    }
  }

  /** A "." anywhere changes nothing. */
  lemma DotVanishes(stack: seq<string>, a: seq<string>, b: seq<string>)
    ensures Resolve(stack, a + ["."] + b) == Resolve(stack, a + b)
  {
    hide Resolve;
    ResolveConcat(stack, a + ["."], b);
    ResolveConcat(stack, a, ["."]);
    ResolveConcat(stack, a, b);
    ResolveOne(Resolve(stack, a), ".");
  }

  /** A ".." anywhere takes back the name before it. */
  lemma UpTakesBack(stack: seq<string>, a: seq<string>, name: string, b: seq<string>)
    requires IsName(name)
    ensures Resolve(stack, a + [name, ".."] + b) == Resolve(stack, a + b)
  {
    hide Resolve;
    var base := Resolve(stack, a);
    ResolveConcat(stack, a + [name, ".."], b);
    ResolveConcat(stack, a, [name, ".."]);
    ResolveConcat(stack, a, b);
    ResolveConcat(base, [name], [".."]);
    assert [name] + [".."] == [name, ".."];
    ResolveOne(base, name);
    ResolveOne(base + [name], "..");
    assert (base + [name])[..|base|] == base;
  }

  /** At the root it changes nothing. */
  lemma UpAtRoot(b: seq<string>)
    ensures Resolve([], [".."] + b) == Resolve([], b)
  {
    hide Resolve;
    ResolveConcat([], [".."], b);
    ResolveOne([], "..");
  }

  lemma ResolveOne(stack: seq<string>, c: string)
    ensures Resolve(stack, [c]) == Enter(stack, c)
  {
    assert [c][1..] == [];
  }

  /** A canonical path ends in a slash only if it is the root. */
  lemma NoTrailingSlash(stack: seq<string>)
    requires AreNames(stack) && stack != []
    ensures PathOf(stack)[|PathOf(stack)| - 1] != '/'
  {
    var c := stack[|stack| - 1];
    assert IsName(c);
  }
}
