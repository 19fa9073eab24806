/** Incremental reverse search over the history (app/mosh/mosh.c). */
module ReverseSearch {
  import opened History
  import CArith
  import opened CText

  const QUERY_MAX: nat := 255

  const CTRL_R: char := '\U{0012}'
  const CTRL_G: char := '\U{0007}'
  const BACKSPACE: char := '\U{0008}'
  const DELETE: char := '\U{007f}'

  // ----- substring search -----

  predicate OccursAt(haystack: string, needle: string, i: nat) {
    i + |needle| <= |haystack| && haystack[i..i + |needle|] == needle
  }

  predicate Contains(haystack: string, needle: string) {
    exists i :: 0 <= i <= |haystack| && OccursAt(haystack, needle, i)
  }

  lemma OccurrenceAt(haystack: string, needle: string, i: nat, j: nat)
    requires OccursAt(haystack, needle, i) && j < |needle|
    ensures i + j < |haystack| && haystack[i + j] == needle[j]
  {
    assert haystack[i..i + |needle|][j] == haystack[i + j];
  }

  /** str_find_substring: the first occurrence, or -1. */
  method FindSubstring(haystack: string, needle: string) returns (r: int)
    requires NUL !in haystack && NUL !in needle
    ensures r >= 0 ==> OccursAt(haystack, needle, r) && forall i :: 0 <= i < r ==> !OccursAt(haystack, needle, i)
    ensures r < 0 ==> !Contains(haystack, needle)
  {
    if needle == "" {
      assert OccursAt(haystack, needle, 0);
      return 0;
    }
    var i := 0;
    while i < |haystack|
      invariant 0 <= i <= |haystack|
      invariant forall k :: 0 <= k < i ==> !OccursAt(haystack, needle, k)
    {
      var j := 0;
      while j < |needle| && i + j < |haystack| && haystack[i + j] == needle[j]
        invariant 0 <= j <= |needle| && i + j <= |haystack|
        invariant haystack[i..i + j] == needle[..j]
      {
        assert haystack[i..i + j + 1] == haystack[i..i + j] + [haystack[i + j]];
        assert needle[..j + 1] == needle[..j] + [needle[j]];
        j := j + 1;
      }
      if j == |needle| {
        assert needle[..j] == needle;
        return i;
      }
      if OccursAt(haystack, needle, i) {
        OccurrenceAt(haystack, needle, i, j);
        assert false;
      }
      i := i + 1;
    }
    r := -1;
  }

  // ----- which entries a query visits -----

  predicate Hits(lines: seq<string>, query: string, i: nat) {
    i < |lines| && (query == "" || Contains(lines[i], query))
  }

  /** The newest hit older than `start`, or -1. */
  function Older(lines: seq<string>, query: string, start: nat): (r: int)
    requires start <= |lines|
    ensures -1 <= r < start
    ensures r >= 0 ==> Hits(lines, query, r)
    ensures forall i :: r < i < start ==> !Hits(lines, query, i)
  {
    if start == 0 then -1
    else if Hits(lines, query, start - 1) then start - 1
    else Older(lines, query, start - 1)
  }

  /** All hits older than `start`, newest first. */
  function HitsBelow(lines: seq<string>, query: string, start: nat): (h: seq<nat>)
    requires start <= |lines|
    ensures forall k :: 0 <= k < |h| ==> h[k] < start && Hits(lines, query, h[k])
  {
    if start == 0 then []
    else if Hits(lines, query, start - 1) then [start - 1] + HitsBelow(lines, query, start - 1)
    else HitsBelow(lines, query, start - 1)
  }

  predicate Descending(h: seq<nat>) { forall j, k :: 0 <= j < k < |h| ==> h[k] < h[j] }

  /** The list of hits is complete and goes from the newest to the oldest. */
  lemma {:induction false} HitsBelowIsAll(lines: seq<string>, query: string, start: nat)
    requires start <= |lines|
    ensures forall i :: 0 <= i < start && Hits(lines, query, i) ==> i in HitsBelow(lines, query, start)
    ensures Descending(HitsBelow(lines, query, start))
  {
    hide Hits;
    if start > 0 {
      HitsBelowIsAll(lines, query, start - 1);
      var h, rest := HitsBelow(lines, query, start), HitsBelow(lines, query, start - 1);
      assert h == (if Hits(lines, query, start - 1) then [start - 1] + rest else rest);
      hide HitsBelow;
    }
  }

  /** Where Ctrl-R goes from a hit: to the next older one, and from the oldest to the newest. */
  function NextHit(lines: seq<string>, query: string, at: nat): int
    requires at <= |lines|
  {
    var r := Older(lines, query, at);
    if r >= 0 then r else Older(lines, query, |lines|)
  }

  function Visit(lines: seq<string>, query: string, presses: nat): int {
    if presses == 0 then Older(lines, query, |lines|)
    else
      var at := Visit(lines, query, presses - 1);
      if 0 <= at <= |lines| then NextHit(lines, query, at) else -1
  }

  lemma {:induction false} OlderIsFirst(lines: seq<string>, query: string, start: nat)
    requires start <= |lines|
    ensures var h := HitsBelow(lines, query, start); Older(lines, query, start) == if h == [] then -1 else h[0]
  {
    if start > 0 && !Hits(lines, query, start - 1) {
      OlderIsFirst(lines, query, start - 1);
    }
  }

  /** Behind the k-th hit comes the (k+1)-th. */
  lemma {:induction false} OlderIsNext(lines: seq<string>, query: string, start: nat, k: nat)
    requires start <= |lines| && k < |HitsBelow(lines, query, start)|
    ensures var h := HitsBelow(lines, query, start);
            Older(lines, query, h[k]) == if k + 1 < |h| then h[k + 1] else -1
  {
    hide Hits;
    if Hits(lines, query, start - 1) {
      if k == 0 {
        OlderIsFirst(lines, query, start - 1);
      } else {
        OlderIsNext(lines, query, start - 1, k - 1);
      }
    } else {
      OlderIsNext(lines, query, start - 1, k);
    }
  }

  lemma NextOfHit(lines: seq<string>, query: string, k: nat)
    requires k < |HitsBelow(lines, query, |lines|)|
    ensures var h := HitsBelow(lines, query, |lines|);
            h[k] <= |lines| && NextHit(lines, query, h[k]) == h[if k + 1 < |h| then k + 1 else 0]
  {
    hide HitsBelow;
    hide Older;
    OlderIsFirst(lines, query, |lines|);
    OlderIsNext(lines, query, |lines|, k);
  }

  /** Pressing Ctrl-R again and again with a fixed query visits exactly the entries that contain it,
      newest to oldest, and then starts over at the newest. */
  lemma {:induction false} VisitsCycle(lines: seq<string>, query: string, presses: nat)
    requires HitsBelow(lines, query, |lines|) != []
    ensures var h := HitsBelow(lines, query, |lines|);
            Visit(lines, query, presses) == h[presses % |h|]
  {
    hide HitsBelow;
    hide Older;
    hide Hits;
    hide NextHit;
    var h := HitsBelow(lines, query, |lines|);
    if presses == 0 {
      OlderIsFirst(lines, query, |lines|);
    } else {
      VisitsCycle(lines, query, presses - 1);
      var k := (presses - 1) % |h|;
      NextOfHit(lines, query, k);
      Successor(presses - 1, |h|);
    }
  }

  lemma Successor(n: nat, m: nat)
    requires m > 0
    ensures (n + 1) % m == if n % m + 1 < m then n % m + 1 else 0
  {
    var q, r := n / m, n % m;
    var q2 := if r + 1 < m then q else q + 1;
    assert q2 * m <= n + 1 < q2 * m + m && (n + 1) / m * m <= n + 1 < (n + 1) / m * m + m;
    CArith.SameQuotient(n + 1, m, q2, (n + 1) / m);
  }

  // ----- what the keys do -----

  predicate IsErase(ch: char) { ch == BACKSPACE || ch == DELETE }

  predicate IsPrintable(ch: char) { '\U{0020}' <= ch < '\U{007f}' }

  predicate IsSearchKey(ch: char) { ch == CTRL_R || IsErase(ch) || IsPrintable(ch) }

  /** The query after one search key. */
  function Edit(query: string, ch: char): (q: string)
    ensures |query| <= QUERY_MAX ==> |q| <= QUERY_MAX
  {
    if IsErase(ch) then (if query == "" then "" else query[..|query| - 1])
    else if IsPrintable(ch) && |query| < QUERY_MAX then query + [ch]
    else query
  }

  /** The query, and the entry found for it or -1. */
  datatype View = View(query: string, found: int)

  /** A key that changes the query finds its newest hit; Ctrl-R goes on to the next older one; any
      other key changes nothing. */
  function Press(lines: seq<string>, v: View, ch: char): View {
    var q := Edit(v.query, ch);
    if q != v.query then View(q, Older(lines, q, |lines|))
    else if ch != CTRL_R then v
    else View(q, if 0 <= v.found <= |lines| then NextHit(lines, q, v.found) else Older(lines, q, |lines|))
  }

  function PressAll(lines: seq<string>, v: View, keys: seq<char>): View {
    if keys == [] then v else Press(lines, PressAll(lines, v, keys[..|keys| - 1]), keys[|keys| - 1])
  }

  lemma PressOne(lines: seq<string>, v: View, keys: seq<char>, i: nat)
    requires i < |keys|
    ensures PressAll(lines, v, keys[..i + 1]) == Press(lines, PressAll(lines, v, keys[..i]), keys[i])
  {
    assert keys[..i + 1][..i] == keys[..i];
  }

  lemma {:induction false} PressConcat(lines: seq<string>, v: View, a: seq<char>, b: seq<char>)
    ensures PressAll(lines, v, a + b) == PressAll(lines, PressAll(lines, v, a), b)
    decreases |b|
  {
    hide Press;
    if b == [] {
      assert a + b == a;
    } else {
      var init := b[..|b| - 1];
      PressConcat(lines, v, a, init);
      assert (a + b)[..|a + b| - 1] == a + init;
    }
  }

  /** One key, n times. */
  function Same(ch: char, n: nat): seq<char> { seq(n, _ => ch) }

  predicate IsTyped(text: string) { forall i :: 0 <= i < |text| ==> ' ' <= text[i] <= '~' }

  /** Typing a text after a query puts it behind the query, and shows the newest entry that contains
      the whole. */
  lemma {:induction false} TypingSearches(lines: seq<string>, v: View, text: string)
    requires IsTyped(text) && text != "" && |v.query| + |text| <= QUERY_MAX
    ensures var q := v.query + text; PressAll(lines, v, text) == View(q, Older(lines, q, |lines|))
    decreases |text|
  {
    hide Older;
    var init, last := text[..|text| - 1], text[|text| - 1];
    assert v.query + text == v.query + init + [last];
    if init == "" {
      assert v.query + init == v.query;
    } else {
      TypingSearches(lines, v, init);
    }
  }

  /** As many erasing keys undo it: the old query is back, and its newest entry. */
  lemma {:induction false} ErasingUndoes(lines: seq<string>, v: View, text: string, erase: char)
    requires IsErase(erase) && text != ""
    ensures PressAll(lines, View(v.query + text, v.found), Same(erase, |text|))
         == View(v.query, Older(lines, v.query, |lines|))
    decreases |text|
  {
    hide Older;
    var n := |text| - 1;
    var init, keys := text[..n], Same(erase, |text|);
    var w := View(v.query + text, v.found);
    assert (v.query + text)[..|v.query + text| - 1] == v.query + init;
    var first := Press(lines, w, erase);
    assert first.query == v.query + init;
    assert keys == [erase] + Same(erase, n);
    PressConcat(lines, w, [erase], Same(erase, n));
    assert PressAll(lines, w, [erase]) == first by {
      assert [erase][..0] == [];
    }
    if n == 0 {
      assert v.query + init == v.query && Same(erase, n) == [];
    } else {
      ErasingUndoes(lines, View(v.query, first.found), init, erase);
    }
  }

  /** Ctrl-R again and again on a query just typed visits its entries. */
  lemma {:induction false} RepeatedPresses(lines: seq<string>, query: string, presses: nat)
    ensures PressAll(lines, View(query, Older(lines, query, |lines|)), Same(CTRL_R, presses))
         == View(query, Visit(lines, query, presses))
    decreases presses
  {
    hide Older, NextHit;
    if presses > 0 {
      var keys := Same(CTRL_R, presses);
      assert keys[..presses - 1] == Same(CTRL_R, presses - 1);
      RepeatedPresses(lines, query, presses - 1);
      NothingVisited(lines, query, presses - 1);
    }
  }

  /** Without a first hit there is none later, and with one there always is. */
  lemma {:induction false} NothingVisited(lines: seq<string>, query: string, presses: nat)
    ensures var at := Visit(lines, query, presses);
            at < |lines| && (at < 0 <==> Older(lines, query, |lines|) < 0) && (at < 0 ==> at == -1)
  {
    if presses > 0 {
      NothingVisited(lines, query, presses - 1);
    }
  }

  /** A typed text and then Ctrl-R some more times: the entries that contain the text, newest to
      oldest and round again, or none. */
  lemma SearchedFor(lines: seq<string>, found: int, text: string, presses: nat)
    requires IsTyped(text) && 0 < |text| <= QUERY_MAX
    ensures var h := HitsBelow(lines, text, |lines|);
            PressAll(lines, View("", found), text + Same(CTRL_R, presses))
            == View(text, if h == [] then -1 else h[presses % |h|])
  {
    hide PressAll, Older, HitsBelow, Visit;
    assert "" + text == text;
    TypingSearches(lines, View("", found), text);
    PressConcat(lines, View("", found), text, Same(CTRL_R, presses));
    RepeatedPresses(lines, text, presses);
    NothingVisited(lines, text, presses);
    OlderIsFirst(lines, text, |lines|);
    if HitsBelow(lines, text, |lines|) != [] {
      VisitsCycle(lines, text, presses);
    }
  }

  // ----- the search itself -----

  /** The line being edited. */
  class LineState {
    var buffer: string
    var length: nat
    var cursor: nat
    const totalCapacity: nat

    constructor (capacity: nat)
      requires 1 <= capacity <= LINE_MAX + 1
      ensures Valid() && buffer == "" && totalCapacity == capacity
    {
      totalCapacity := capacity;
      buffer, length, cursor := "", 0, 0;
    }

    predicate Valid()
      reads this
    {
      && 1 <= totalCapacity <= LINE_MAX + 1
      && length == |buffer| < totalCapacity && cursor <= length
    }

    /** Copy a text in, cut to what the buffer holds. */
    method Show(text: string)
      requires 1 <= totalCapacity <= LINE_MAX + 1
      modifies this
      ensures Valid() && cursor == length
      ensures buffer == if |text| < totalCapacity then text else text[..totalCapacity - 1]
    {
      buffer := if |text| < totalCapacity then text else text[..totalCapacity - 1];
      length := |buffer|;
      cursor := length;
    }
  }

  class Search {
    const history: History
    var active: bool
    var haveMatch: bool
    var savedValid: bool
    var query: string
    var searchIndex: nat
    var matchIndex: nat
    var savedBuffer: string
    var savedLength: nat
    var savedCursor: nat

    /** reverse_search_reset. */
    constructor (history: History)
      requires history.Valid() && forall i :: 0 <= i < history.length ==> NUL !in history.Get(i)
      ensures this.history == history && Valid() && !active
    {
      this.history := history;
      active, haveMatch, savedValid := false, false, false;
      query, searchIndex, matchIndex := "", history.length, history.length;
      savedBuffer, savedLength, savedCursor := "", 0, 0;
    }

    ghost predicate Valid()
      reads this, history, history.entries
    {
      && history.Valid() && |query| <= QUERY_MAX && NUL !in query
      && (forall i :: 0 <= i < history.length ==> NUL !in history.Get(i))
      && searchIndex <= history.length && matchIndex <= history.length
      && (haveMatch ==> matchIndex < history.length && Hits(history.Lines(), query, matchIndex))
      && (active && !haveMatch ==> searchIndex == history.length)
      && (active ==> savedValid && savedLength == |savedBuffer| <= LINE_MAX && savedCursor <= savedLength)
    }

    twostate predicate SavedUnchanged()
      reads this
    {
      savedBuffer == old(savedBuffer) && savedLength == old(savedLength) && savedCursor == old(savedCursor)
    }

    /** The query and the match as the keys see them. */
    ghost function Current(): View
      reads this
    {
      View(query, if haveMatch then matchIndex else -1)
    }

    /** reverse_search_scan. */
    method Scan(start: nat) returns (r: int)
      requires Valid() && start <= history.length
      ensures r == Older(history.Lines(), query, start)
    {
      var idx := start;
      while idx > 0
        invariant 0 <= idx <= start
        invariant Older(history.Lines(), query, start) == Older(history.Lines(), query, idx)
      {
        idx := idx - 1;
        var entry := history.Get(idx);
        history.LinesAt(idx);
        var found := 0;
        if query != "" {
          found := FindSubstring(entry, query);
          assert found >= 0 ==> Contains(entry, query);
        }
        if found >= 0 {
          return idx;
        }
      }
      r := -1;
    }

    /** The hit a search step moves to, or -1: the next one below the starting point, or the newest
        again if there was a match before or the query is empty. */
    ghost function Target(advance: bool): int
      requires Valid()
      reads this, history, history.entries
    {
      var lines := history.Lines();
      var first := Older(lines, query, if advance && haveMatch then matchIndex else searchIndex);
      if first < 0 && (haveMatch || query == "") then Older(lines, query, |lines|) else first
    }

    method FindTarget(advance: bool) returns (r: int)
      requires Valid()
      ensures r == Target(advance)
      ensures -1 <= r < history.length && (r >= 0 ==> Hits(history.Lines(), query, r))
    {
      var start := searchIndex;
      if advance && haveMatch {
        start := matchIndex;
      }
      r := Scan(start);
      if r < 0 && haveMatch {
        r := Scan(history.length);
      } else if r < 0 && query == "" {
        r := Scan(history.length);
      }
    }

    /** reverse_search_apply: show the hit the search moves to, or report that there is none. */
    method Apply(state: LineState, advance: bool)
      requires Valid() && active && state.Valid()
      modifies this`haveMatch, this`searchIndex, this`matchIndex, state
      ensures Valid() && active && state.Valid()
      ensures haveMatch <==> old(Target(advance)) >= 0
      ensures haveMatch ==> matchIndex == old(Target(advance)) && Shows(state, history.Get(matchIndex))
      ensures !haveMatch ==> unchanged(state)
    {
      hide Target;
      hide Hits;
      var r := FindTarget(advance);
      if r >= 0 {
        haveMatch, matchIndex, searchIndex := true, r, r;
        state.Show(history.Get(r));
        return;
      }
      haveMatch, searchIndex := false, history.length;
    }

    /** reverse_search_start: a line not being searched is saved first, and the newest entry shown; on
        a search under way it is one more step. */
    method Start(state: LineState)
      requires Valid() && state.Valid()
      modifies this, state
      ensures Valid() && active && state.Valid()
      ensures if haveMatch then Shows(state, history.Get(matchIndex)) else unchanged(state)
      ensures !old(active) ==>
                && query == ""
                && savedBuffer == old(state.buffer) && savedLength == old(state.length) && savedCursor == old(state.cursor)
                && (haveMatch <==> history.length > 0)
                && (haveMatch ==> matchIndex == Visit(history.Lines(), query, 0))
      ensures old(active) ==>
                && query == old(query) && SavedUnchanged()
                && (haveMatch <==> old(Target(true)) >= 0) && (haveMatch ==> matchIndex == old(Target(true)))
    {
      if active {
        hide Target;
        Apply(state, true);
        return;
      }
      Begin(state);
    }

    method Begin(state: LineState)
      requires Valid() && !active && state.Valid()
      modifies this, state
      ensures Valid() && active && state.Valid() && query == ""
      ensures savedBuffer == old(state.buffer) && savedLength == old(state.length) && savedCursor == old(state.cursor)
      ensures haveMatch <==> history.length > 0
      ensures haveMatch ==> matchIndex == Visit(history.Lines(), query, 0) && Shows(state, history.Get(matchIndex))
      ensures !haveMatch ==> unchanged(state)
    {
      active, haveMatch := true, false;
      query := "";
      searchIndex, matchIndex := history.length, history.length;
      savedBuffer := state.buffer;
      savedLength := |savedBuffer|;
      savedCursor := state.cursor;
      savedValid := true;
      Apply(state, false);
    }

    /** reverse_search_next: Ctrl-R starts a search, or moves a match to the next older hit,
        cyclically. */
    method Next(state: LineState)
      requires Valid() && state.Valid()
      modifies this, state
      ensures Valid() && active && state.Valid()
      ensures if haveMatch then Shows(state, history.Get(matchIndex)) else unchanged(state)
      ensures !old(active) ==>
                && query == ""
                && savedBuffer == old(state.buffer) && savedLength == old(state.length) && savedCursor == old(state.cursor)
                && (haveMatch <==> history.length > 0)
                && (haveMatch ==> matchIndex == Visit(history.Lines(), query, 0))
      ensures old(active) ==> query == old(query) && SavedUnchanged()
      ensures old(active && haveMatch) ==>
                haveMatch && matchIndex == NextHit(history.Lines(), query, old(matchIndex))
      ensures old(active && !haveMatch) ==>
                && (haveMatch <==> Older(history.Lines(), query, history.length) >= 0)
                && (haveMatch ==> matchIndex == Visit(history.Lines(), query, 0))
    {
      if !active {
        Start(state);
        return;
      }
      hide Older;
      if haveMatch && matchIndex > 0 {
        searchIndex := matchIndex;
      }
      if haveMatch {
        StillHit();
      }
      Apply(state, true);
    }

    /** A match stays a hit of the whole history. */
    lemma StillHit()
      requires Valid() && haveMatch
      ensures Older(history.Lines(), query, history.length) >= 0
    {
    }

    /** reverse_search_append_char. */
    method AppendChar(state: LineState, ch: char)
      requires Valid() && active && state.Valid() && ch != NUL
      modifies this, state
      ensures Valid() && active && state.Valid() && SavedUnchanged()
      ensures query == if |old(query)| < QUERY_MAX then old(query) + [ch] else old(query)
      ensures query == old(query) ==> Current() == old(Current())
      ensures query != old(query) && haveMatch ==> matchIndex == Visit(history.Lines(), query, 0)
      ensures query != old(query) ==> (haveMatch <==> Older(history.Lines(), query, history.length) >= 0)
      ensures if query != old(query) && haveMatch then Shows(state, history.Get(matchIndex)) else unchanged(state)
    {
      hide Older;
      if |query| + 1 >= QUERY_MAX + 1 {
        return;
      }
      query := query + [ch];
      haveMatch := false;
      searchIndex := history.length;
      Apply(state, false);
    }

    /** reverse_search_backspace. */
    method Backspace(state: LineState)
      requires Valid() && active && state.Valid()
      modifies this, state
      ensures Valid() && active && state.Valid() && SavedUnchanged()
      ensures query == if old(query) == "" then "" else old(query)[..|old(query)| - 1]
      ensures query == old(query) ==> Current() == old(Current())
      ensures query != old(query) && haveMatch ==> matchIndex == Visit(history.Lines(), query, 0)
      ensures query != old(query) ==> (haveMatch <==> Older(history.Lines(), query, history.length) >= 0)
      ensures if query != old(query) && haveMatch then Shows(state, history.Get(matchIndex)) else unchanged(state)
    {
      hide Older;
      if query == "" {
        return;
      }
      query := query[..|query| - 1];
      haveMatch := false;
      searchIndex := history.length;
      Apply(state, false);
    }

    /** Put the saved line back (the common part of accept without a match and of cancel). */
    method RestoreSaved(state: LineState)
      requires Valid() && active && state.Valid()
      modifies state
      ensures state.Valid()
      ensures var room := state.totalCapacity;
              state.buffer == if savedLength < room then savedBuffer else savedBuffer[..room - 1]
      ensures state.cursor == if savedCursor <= state.length then savedCursor else state.length
    {
      state.Show(savedBuffer);
      state.cursor := if savedCursor <= state.length then savedCursor else state.length;
    }

    method Reset()
      requires Valid()
      modifies this
      ensures Valid() && !active && SavedUnchanged()
    {
      active, haveMatch, savedValid := false, false, false;
      query := "";
      searchIndex, matchIndex := history.length, history.length;
    }

    /** A key that stays in the search. */
    method HandleKey(state: LineState, ch: char)
      requires Valid() && active && state.Valid() && IsSearchKey(ch)
      modifies this, state
      ensures Valid() && active && state.Valid() && SavedUnchanged()
      ensures Current() == Press(history.Lines(), old(Current()), ch)
      ensures if haveMatch && (query != old(query) || ch == CTRL_R) then Shows(state, history.Get(matchIndex))
              else unchanged(state)
    {
      hide Older;
      if ch == CTRL_R {
        Next(state);
      } else if ch == BACKSPACE || ch == DELETE {
        Backspace(state);
      } else {
        AppendChar(state, ch);
      }
    }

    /** reverse_search_handle_char. A key that stays in the search changes query and match as
        specified and shows the match; the others end the search. The key is consumed unless it ends
        the search by accepting. */
    method HandleChar(state: LineState, ch: char) returns (consumed: bool)
      requires Valid() && active && state.Valid()
      modifies this, state
      ensures Valid() && state.Valid()
      ensures consumed <==> IsSearchKey(ch) || ch == CTRL_G
      ensures IsSearchKey(ch) ==> active && SavedUnchanged()
      ensures IsSearchKey(ch) ==> Current() == Press(history.Lines(), old(Current()), ch)
      ensures IsSearchKey(ch) ==>
                if haveMatch && (query != old(query) || ch == CTRL_R) then Shows(state, history.Get(matchIndex))
                else unchanged(state)
      ensures !IsSearchKey(ch) ==> !active
      ensures !consumed && old(haveMatch) ==> state.buffer == old(state.buffer) && state.cursor == old(state.cursor)
      ensures (ch == CTRL_G || (!consumed && !old(haveMatch))) && old(savedLength) < state.totalCapacity ==>
                state.buffer == old(savedBuffer) && state.cursor == old(savedCursor)
    {
      hide Press, Current;
      if ch == CTRL_R || ch == BACKSPACE || ch == DELETE {
        HandleKey(state, ch);
        return true;
      }
      if ch == CTRL_G {
        RestoreSaved(state);
        Reset();
        return true;
      }
      if '\U{0020}' <= ch < '\U{007f}' {
        HandleKey(state, ch);
        return true;
      }
      if !haveMatch && savedValid {
        RestoreSaved(state);
      }
      Reset();
      consumed := false;
    }

    /** Any sequence of search keys, through the key handler: query and match are the fold of the keys,
        and the line shows the match whenever there is one. */
    method PressKeys(state: LineState, keys: seq<char>)
      requires Valid() && active && state.Valid()
      requires forall i :: 0 <= i < |keys| ==> IsSearchKey(keys[i])
      requires haveMatch ==> Shows(state, history.Get(matchIndex))
      modifies this, state
      ensures Valid() && active && state.Valid() && SavedUnchanged()
      ensures Current() == PressAll(history.Lines(), old(Current()), keys)
      ensures haveMatch ==> Shows(state, history.Get(matchIndex))
    {
      assert history.Valid();
      hide Valid, Shows, Older, Press;
      for i := 0 to |keys|
        invariant Valid() && active && state.Valid() && SavedUnchanged()
        invariant Current() == PressAll(history.Lines(), old(Current()), keys[..i])
        invariant haveMatch ==> Shows(state, history.Get(matchIndex))
      {
        PressOne(history.Lines(), old(Current()), keys, i);
        var consumed := HandleChar(state, keys[i]);
      }
      assert keys[..|keys|] == keys;
    }

    /** Ctrl-R, a text, and Ctrl-R some more times: the search shows the entries that contain the text,
        newest to oldest and round again, or has no match when none does. */
    method SearchFor(state: LineState, text: string, presses: nat)
      requires Valid() && !active && state.Valid()
      requires IsTyped(text) && 0 < |text| <= QUERY_MAX
      modifies this, state
      ensures Valid() && active && state.Valid() && query == text
      ensures var h := HitsBelow(history.Lines(), text, history.length);
              if h == [] then !haveMatch
              else haveMatch && matchIndex == h[presses % |h|] && Shows(state, history.Get(matchIndex))
    {
      assert history.Valid();
      hide Valid, Shows, PressAll, Older, HitsBelow, Visit;
      Next(state);
      SearchedFor(history.Lines(), Current().found, text, presses);
      PressKeys(state, text + Same(CTRL_R, presses));
    }

    /** Ctrl-G after any sequence of search keys gives the line, its length and its cursor back
        exactly as they were. */
    method SearchAndCancel(state: LineState, keys: seq<char>)
      requires Valid() && !active && state.Valid()
      requires forall i :: 0 <= i < |keys| ==> IsSearchKey(keys[i])
      modifies this, state
      ensures Valid() && !active && state.Valid()
      ensures state.buffer == old(state.buffer) && state.length == old(state.length) && state.cursor == old(state.cursor)
    {
      Start(state);
      for i := 0 to |keys|
        invariant Valid() && active && state.Valid()
        invariant savedBuffer == old(state.buffer) && savedLength == old(state.length) && savedCursor == old(state.cursor)
      {
        var consumed := HandleChar(state, keys[i]);
      }
      var consumed := HandleChar(state, CTRL_G);
    }

    /** Pressing Ctrl-R `presses` times after the query found its newest hit. */
    method PressRepeatedly(state: LineState, presses: nat)
      requires Valid() && active && haveMatch && state.Valid()
      requires matchIndex == Visit(history.Lines(), query, 0)
      modifies this, state
      ensures Valid() && active && haveMatch && query == old(query)
      ensures var h := HitsBelow(history.Lines(), query, history.length);
              h != [] && matchIndex == h[presses % |h|]
      ensures presses > 0 ==> Shows(state, history.Get(matchIndex))
    {
      hide Older;
      hide HitsBelow;
      hide NextHit;
      OlderIsFirst(history.Lines(), query, history.length);
      for i := 0 to presses
        invariant Valid() && active && haveMatch && state.Valid() && query == old(query)
        invariant matchIndex == Visit(history.Lines(), query, i)
        invariant i > 0 ==> Shows(state, history.Get(matchIndex))
      {
        NothingVisited(history.Lines(), query, i);
        NothingVisited(history.Lines(), query, i + 1);
        var consumed := HandleChar(state, CTRL_R);
      }
      VisitsCycle(history.Lines(), query, presses);
    }
  }

  /** The line shows the entry, as much of it as the buffer holds. */
  predicate Shows(state: LineState, entry: string)
    requires 1 <= state.totalCapacity
    reads state
  {
    state.buffer == (if |entry| < state.totalCapacity then entry else entry[..state.totalCapacity - 1])
    && state.cursor == state.length
  }
}
