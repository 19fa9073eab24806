/** realpath of user/libc/realpath.c: editing a character buffer in place is a fold over a stack of
    path components. */
module Realpath {
  import opened CText
  import opened PathText

  const PATH_MAX: nat := 256

  datatype Error = NoSuchEntry | NameTooLong | StatFailed

  datatype Outcome = Resolved(text: string) | Failed(error: Error)

  /** What `stat` says about the canonical path. */
  datatype Stat = Found | Missing | Refused

  // ----- the fold, with its length limits -----

  /** append_component has room for the text and, beyond the terminator, one more byte. */
  predicate Fits(stack: seq<string>) { |PathOf(stack)| + 1 < PATH_MAX }

  datatype Stack = Overflow | Stack(names: seq<string>)

  /** Resolve, giving up at the first component that is too long or does not fit. */
  function ResolveFitting(stack: seq<string>, comps: seq<string>): Stack
    decreases |comps|
  {
    if comps == [] then Stack(stack)
    else
      var c := comps[0];
      var next := Enter(stack, c);
      if |c| >= PATH_MAX || (c != "." && c != ".." && !Fits(next)) then Overflow
      else ResolveFitting(next, comps[1..])
  }

  /** When nothing overflows the limits make no difference. */
  lemma {:induction false} FittingIsResolve(stack: seq<string>, comps: seq<string>)
    ensures ResolveFitting(stack, comps).Stack? ==> ResolveFitting(stack, comps).names == Resolve(stack, comps)
    decreases |comps|
  {
    if comps != [] {
      FittingIsResolve(Enter(stack, comps[0]), comps[1..]);
    }
  }

  lemma {:induction false} ShorterFits(stack: seq<string>, more: seq<string>)
    requires Fits(stack + more)
    ensures stack != [] || more == [] ==> Fits(stack)
    decreases |more|
  {
    if more != [] {
      var init, c := more[..|more| - 1], more[|more| - 1];
      assert stack + more == (stack + init) + [c];
      SlashedPush(stack + init, c);
      ShorterFits(stack, init);
    } else {
      assert stack + more == stack;
    }
  }

  /** Names that fit as a whole fit one after the other. */
  lemma {:induction false} NamesFit(stack: seq<string>, names: seq<string>)
    requires AreNames(names) && Fits(stack + names)
    ensures ResolveFitting(stack, names) == Stack(stack + names)
    decreases |names|
  {
    if names != [] {
      var c := names[0];
      assert stack + names == (stack + [c]) + names[1..];
      ShorterFits(stack + [c], names[1..]);
      SlashedPush(stack, c);
      NamesFit(stack + [c], names[1..]);
    } else {
      assert stack + names == stack;
    }
  }

  /** realpath of a result is the result: on canonical text the resolution does nothing. */
  lemma Idempotent(names: seq<string>)
    requires AreNames(names) && Fits(names)
    ensures ResolveFitting([], Components(PathOf(names))) == Stack(names)
  {
    ComponentsOfPath(names);
    assert [] + names == names;
    NamesFit([], names);
  }

  // ----- the buffer -----

  class PathBuffer {
    const path: array<char>
    var length: nat

    constructor ()
      ensures fresh(path) && path.Length == PATH_MAX && Holds([])
    {
      path := new char[PATH_MAX];
      length := 1;
      new;
      path[0], path[1] := '/', NUL;
    }

    /** The buffer holds the canonical text of the stack. */
    ghost predicate Holds(stack: seq<string>)
      reads this, path
    {
      && path.Length == PATH_MAX && AreNames(stack)
      && length < PATH_MAX && path[..length] == PathOf(stack) && path[length] == NUL
    }

    method SetRoot()
      requires path.Length == PATH_MAX
      modifies this, path
      ensures Holds([])
    {
      path[0], path[1] := '/', NUL;
      length := 1;
    }

    /** trim_trailing_slashes. */
    method TrimTrailingSlashes(ghost stack: seq<string>)
      requires path.Length == PATH_MAX && AreNames(stack)
      requires |PathOf(stack)| <= length < PATH_MAX && path[length] == NUL
      requires path[..|PathOf(stack)|] == PathOf(stack)
      requires forall i :: |PathOf(stack)| <= i < length ==> path[i] == '/'
      modifies this, path
      ensures Holds(stack)
    {
      ghost var n := |PathOf(stack)|;
      if stack != [] {
        NoTrailingSlash(stack);
        assert path[..n][n - 1] == path[n - 1];
      }
      while length > 1 && path[length - 1] == '/'
        invariant n <= length < PATH_MAX && path[length] == NUL
        invariant path[..n] == PathOf(stack)
        invariant stack != [] ==> path[n - 1] != '/'
        invariant forall i :: n <= i < length ==> path[i] == '/'
        decreases length
      {
        path[length - 1] := NUL;
        length := length - 1;
      }
      assert n == length;
    }

    /** pop_component. */
    method PopComponent(ghost stack: seq<string>)
      requires Holds(stack)
      modifies this, path
      ensures Holds(Enter(stack, ".."))
    {
      if length <= 1 {
        SetRoot();
        return;
      }
      ghost var init, c := stack[..|stack| - 1], stack[|stack| - 1];
      ghost var cut := |Slashed(init)|;
      ghost var text := path[..length];
      assert text == Slashed(init) + "/" + c;
      assert path[cut] == text[cut] == '/';
      assert IsName(c);
      forall i | cut < i < length
        ensures path[i] != '/'
      {
        assert path[i] == text[i] == c[i - (cut + 1)];
      }
      var pos := length;
      while pos > 0 && path[pos - 1] != '/'
        invariant cut + 1 <= pos <= length
      {
        pos := pos - 1;
      }
      if pos <= 1 {
        SetRoot();
        return;
      }
      path[pos - 1] := NUL;
      length := pos - 1;
      assert path[..length] == text[..cut];
    }

    /** The current directory, without trailing slashes. */
    method Load(cwd: string, ghost base: seq<string>)
      requires path.Length == PATH_MAX && IsCwd(cwd, base)
      modifies this, path
      ensures Holds(base)
    {
      forall i | 0 <= i < |cwd| {
        path[i] := cwd[i];
      }
      path[|cwd|] := NUL;
      length := |cwd|;
      TrimTrailingSlashes(base);
    }

    /** The three cases of the component loop. */
    method EnterComponent(component: string, ghost stack: seq<string>) returns (ok: bool)
      requires Holds(stack) && IsComponent(component)
      modifies this, path
      ensures ok <==> component == "." || component == ".." || Fits(Enter(stack, component))
      ensures ok ==> Holds(Enter(stack, component))
    {
      var compLen := |component|;
      ok := true;
      if compLen == 0 || (compLen == 1 && component[0] == '.') {
        assert component == ".";
      } else if compLen == 2 && component[0] == '.' && component[1] == '.' {
        assert component == "..";
        PopComponent(stack);
      } else {
        ok := AppendComponent(component, stack);
      }
    }

    /** append_component: a name is appended exactly when the longer path fits, and nothing is
        appended for an empty component. */
    method AppendComponent(component: string, ghost stack: seq<string>) returns (ok: bool)
      requires Holds(stack) && (component == "" || IsName(component))
      modifies this, path
      ensures component == "" ==> ok && Holds(stack)
      ensures component != "" ==> (ok <==> Fits(stack + [component]))
      ensures component != "" ==> Holds(if ok then stack + [component] else stack)
    {
      if |component| == 0 {
        return true;
      }
      var needed := length + |component| + 1;
      if length > 1 {
        needed := needed + 1;
      }
      PushedPath(stack, component);
      hide PathOf;
      if needed >= PATH_MAX {
        return false;
      }
      ghost var text := path[..length];
      assert length > 1 ==> path[length - 1] == text[length - 1];
      if length > 1 && path[length - 1] != '/' {
        path[length] := '/';
        length := length + 1;
      }
      assert path[..length] == if stack == [] then text else text + "/";
      WriteText(component);
      ok := true;
    }

    /** memcpy at the end of the text, and a new terminator. */
    method WriteText(text: string)
      requires path.Length == PATH_MAX && length + |text| < PATH_MAX
      modifies this, path
      ensures length == old(length) + |text|
      ensures path[..length] == old(path[..length]) + text && path[length] == NUL
    {
      forall i | 0 <= i < |text| {
        path[length + i] := text[i];
      }
      length := length + |text|;
      path[length] := NUL;
    }
  }

  /** The text of a longer path, and why only the root is one character long or ends in a slash. */
  lemma PushedPath(stack: seq<string>, c: string)
    requires AreNames(stack)
    ensures PathOf(stack + [c]) == (if stack == [] then PathOf(stack) else PathOf(stack) + "/") + c
    ensures stack == [] <==> |PathOf(stack)| == 1
    ensures stack != [] ==> PathOf(stack)[|PathOf(stack)| - 1] != '/'
  {
    SlashedPush(stack, c);
    if stack != [] {
      NoTrailingSlash(stack);
      var d := stack[|stack| - 1];
      assert IsName(d);
    } else {
      assert "" + "/" + c == "/" + c;
    }
  }

  // ----- realpath -----

  /** The current directory as getcwd reports it: canonical, up to trailing slashes. */
  predicate IsCwd(cwd: string, base: seq<string>) {
    && AreNames(base) && |PathOf(base)| <= |cwd| < PATH_MAX && cwd[..|PathOf(base)|] == PathOf(base)
    && forall i :: |PathOf(base)| <= i < |cwd| ==> cwd[i] == '/'
  }

  method SkipSlashes(path: string, start: nat) returns (i: nat)
    requires start <= |path|
    ensures start <= i <= |path| && At(path, i) != '/'
    ensures Components(path[i..]) == Components(path[start..])
  {
    i := start;
    while At(path, i) == '/'
      invariant start <= i <= |path|
      invariant Components(path[i..]) == Components(path[start..])
      decreases |path| - i
    {
      assert path[i..][1..] == path[i + 1..];
      i := i + 1;
    }
  }

  /** The component at i, or a failure if it does not fit its 256-byte buffer. */
  method ReadComponent(path: string, i: nat) returns (ok: bool, component: string)
    requires i < |path| && path[i] != '/' && NUL !in path
    ensures ok <==> SegmentEnd(path[i..]) < PATH_MAX
    ensures ok ==> component == path[i..][..SegmentEnd(path[i..])]
  {
    var n := 0;
    ghost var rest := path[i..];
    ghost var k := SegmentEnd(rest);
    component := "";
    assert forall j :: i <= j < i + k ==> path[j] == rest[..k][j - i];
    while At(path, i + n) != NUL && At(path, i + n) != '/'
      invariant 0 <= n <= k && n < PATH_MAX && component == rest[..n]
      decreases |path| - n
    {
      assert i + n < |path| && rest[n] == path[i + n];
      assert n < k;
      if n + 1 >= PATH_MAX {
        return false, component;
      }
      component := component + [path[i + n]];
      n := n + 1;
    }
    ok := true;
  }

  /** realpath. For an absolute path the result is "/" and the stack fold of its components; a
      relative one starts from the current directory. The call fails for an empty path, when a
      component or an intermediate path is too long, and when `stat` is refused. */
  method Realpath(path: string, cwd: string, ghost base: seq<string>, stat: Stat) returns (r: Outcome)
    requires NUL !in path && NUL !in cwd && IsCwd(cwd, base)
    ensures path == "" ==> r == Failed(NoSuchEntry)
    ensures path != "" ==>
              var resolved := ResolveFitting(if path[0] == '/' then [] else base, Components(path));
              r == match resolved
                   case Overflow => Failed(NameTooLong)
                   case Stack(names) => if stat == Refused then Failed(StatFailed) else Resolved(PathOf(names))
  {
    if path == "" {
      return Failed(NoSuchEntry);
    }
    hide Components;
    hide ResolveFitting;
    hide PathOf;
    var canonical := new PathBuffer();
    ghost var stack: seq<string> := [];
    if path[0] != '/' {
      canonical.Load(cwd, base);
      stack := base;
    }
    assert path[0..] == path;
    var iter := 0;
    if path[0] == '/' {
      iter := SkipSlashes(path, 0);
    }
    ghost var names;
    var ok;
    ok, names := WalkComponents(canonical, path, iter, stack);
    if !ok {
      return Failed(NameTooLong);
    }
    if stat == Refused {
      return Failed(StatFailed);
    }
    r := Resolved(canonical.path[..canonical.length]);
  }

  /** The component loop. */
  method WalkComponents(canonical: PathBuffer, path: string, start: nat, ghost base: seq<string>)
    returns (ok: bool, ghost stack: seq<string>)
    requires canonical.Holds(base) && NUL !in path
    requires start <= |path| && At(path, start) != '/'
    modifies canonical, canonical.path
    ensures ResolveFitting(base, Components(path[start..])) == if ok then Stack(stack) else Overflow
    ensures ok ==> canonical.Holds(stack)
  {
    hide Components;
    hide ResolveFitting;
    hide PathOf;
    hide Fits;
    hide Enter;
    hide SegmentEnd;
    hide IsComponent;
    hide PathBuffer.Holds;
    ok, stack := true, base;
    var iter := start;
    ghost var goal := ResolveFitting(base, Components(path[start..]));
    while At(path, iter) != NUL
      invariant 0 <= iter <= |path| && At(path, iter) != '/'
      invariant canonical.Holds(stack)
      invariant ResolveFitting(stack, Components(path[iter..])) == goal
      decreases |path| - iter
    {
      FoldStep(stack, path, iter);
      var fits, component := ReadComponent(path, iter);
      if !fits {
        return false, stack;
      }
      ok := canonical.EnterComponent(component, stack);
      if !ok {
        return false, stack;
      }
      stack := Enter(stack, component);
      iter := SkipSlashes(path, iter + |component|);
    }
    ok := true;
    FoldEnd(stack, path[iter..]);
  }

  lemma FoldEnd(stack: seq<string>, rest: string)
    requires rest == ""
    ensures ResolveFitting(stack, Components(rest)) == Stack(stack)
  {
  }

  /** One component of the fold, in terms of the text. */
  lemma FoldStep(stack: seq<string>, path: string, i: nat)
    requires i < |path| && path[i] != '/' && NUL !in path
    ensures var rest := path[i..];
            var k := SegmentEnd(rest);
            var c := rest[..k];
            && IsComponent(c)
            && ResolveFitting(stack, Components(rest))
               == if k >= PATH_MAX || (c != "." && c != ".." && !Fits(Enter(stack, c))) then Overflow
                  else ResolveFitting(Enter(stack, c), Components(path[i + k..]))
  {
    var rest := path[i..];
    var k := SegmentEnd(rest);
    assert rest[k..] == path[i + k..];
    assert rest[0] == path[i] && k > 0;
    assert rest[..k] == path[i..i + k];
    assert Components(rest) == [rest[..k]] + Components(path[i + k..]);
    hide Components, SegmentEnd, Fits, Enter;
    assert ([rest[..k]] + Components(path[i + k..]))[1..] == Components(path[i + k..]);
  }

  /** Every successful result consists of names and is the lexical resolution, from the root or from
      the current directory. Resolving it again gives it back exactly when it leaves the byte that
      append_component wants beyond the terminator, and it does unless the current directory itself
      is too long for that and the path only says "here". */
  lemma ResultIsCanonical(base: seq<string>, path: string)
    requires NUL !in path && AreNames(base) && |PathOf(base)| < PATH_MAX
    requires ResolveFitting(base, Components(path)).Stack?
    ensures var names := ResolveFitting(base, Components(path)).names;
            && AreNames(names) && names == Resolve(base, Components(path))
            && (ResolveFitting([], Components(PathOf(names))) == Stack(names) <==> Fits(names))
            && (Fits(names) <==> Fits(base) || exists i :: 0 <= i < |Components(path)| && Components(path)[i] != ".")
  {
    hide Components, PathOf, Slashed;
    var comps := Components(path);
    ComponentsAreComponents(path);
    FittingIsResolve(base, comps);
    ResolveNames(base, comps);
    NearlyFits(base, comps);
    var names := Resolve(base, comps);
    if Fits(names) {
      Idempotent(names);
    } else if ResolveFitting([], Components(PathOf(names))).Stack? {
      RootFits();
      FittingFits([], Components(PathOf(names)));
    }
  }

  lemma RootFits()
    ensures Fits([])
  {
  }

  lemma {:induction false} NearlyFits(base: seq<string>, comps: seq<string>)
    requires |PathOf(base)| < PATH_MAX && AreNames(base) && ResolveFitting(base, comps).Stack?
    ensures Fits(ResolveFitting(base, comps).names) <==>
              Fits(base) || exists i :: 0 <= i < |comps| && comps[i] != "."
    decreases |comps|
  {
    if comps != [] {
      var next := Enter(base, comps[0]);
      if comps[0] == "." {
        NearlyFits(base, comps[1..]);
        assert forall i :: 1 <= i < |comps| ==> comps[i] == comps[1..][i - 1];
        assert forall i :: 0 <= i < |comps| - 1 ==> comps[1..][i] == comps[i + 1];
      } else {
        if comps[0] == ".." {
          PoppedFits(base);
        }
        FittingFits(next, comps[1..]);
      }
    }
  }

  lemma PoppedFits(base: seq<string>)
    requires |PathOf(base)| < PATH_MAX && AreNames(base)
    ensures Fits(Enter(base, ".."))
  {
    if base != [] {
      var init, c := base[..|base| - 1], base[|base| - 1];
      assert base == init + [c];
      SlashedPush(init, c);
    }
  }

  lemma {:induction false} FittingFits(stack: seq<string>, comps: seq<string>)
    requires Fits(stack) && ResolveFitting(stack, comps).Stack?
    ensures Fits(ResolveFitting(stack, comps).names)
    decreases |comps|
  {
    if comps != [] {
      if comps[0] == ".." && stack != [] {
        var init := stack[..|stack| - 1];
        assert stack == init + [stack[|stack| - 1]];
        if init != [] {
          ShorterFits(init, [stack[|stack| - 1]]);
        }
      }
      FittingFits(Enter(stack, comps[0]), comps[1..]);
    }
  }
}
