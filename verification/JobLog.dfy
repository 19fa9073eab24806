/** What the shell does to the processes of a job, and what any record of it must look like. */
module JobLog {
  import opened CArith
  import opened WaitStatus

  const ECHILD: int := 10

  /** A call that concerns one segment: its slot, the process id used, and for a wait the result. */
  datatype Event =
    | Waited(slot: nat, pid: int, result: int, status: int)
    | Signalled(slot: nat, pid: int)

  /** The wait that ends a segment: it reported the end, or failed for good. */
  predicate Reaps(e: Event) {
    && e.Waited?
    && if e.result == e.pid then !IsStopped(e.status) else e.result < 0 && e.result != -ECHILD
  }

  predicate Stops(e: Event) { e.Waited? && e.result == e.pid && IsStopped(e.status) }

  lemma StopsReapsNot(e: Event)
    ensures Stops(e) ==> !Reaps(e)
  {
  }

  /** The answer that the process is gone reaps its slot, and the answer that it was stopped leaves
      it live. */
  lemma AnswerDecides(e: Event, f: Fate)
    requires e.Waited? && e.result == e.pid && e.status == Encode(f)
    ensures IsEnd(f) ==> Reaps(e) && !Stops(e)
    ensures f.Stop? || f.Continue? ==> Stops(e) && !Reaps(e)
  {
    hide Encode;
    DecodeUndoesEncode(f);
  }

  /** A wait answered with the end of its process; signals sent on the way do not count. */
  ghost predicate Ended(e: Event) { e.Waited? ==> e.result == e.pid && EndStatus(e.status) }

  lemma EndedReaps(e: Event)
    requires e.Waited? && Ended(e)
    ensures Reaps(e) && !Stops(e)
  {
    EndIsNotStopped(e.status);
  }

  /** A wait that fails for good reaps, and one that reports on no change, or on another process, does
      nothing. */
  lemma OtherAnswers(e: Event)
    requires e.Waited? && e.result != e.pid
    ensures e.result >= 0 ==> !Reaps(e) && !Stops(e)
    ensures e.result < 0 && e.result != -ECHILD ==> Reaps(e) && !Stops(e)
  {
  }

  /** The answer that there is no such child neither reaps nor stops: the slot stays live. */
  lemma NoChildIsSilent(e: Event)
    requires e.Waited? && e.pid > 0 && e.result == -ECHILD
    ensures !Reaps(e) && !Stops(e)
  {
  }

  /** The status a wait leaves for its segment. */
  function Recorded(e: Event, before: int): int
    requires e.Waited?
  {
    if e.result == e.pid then e.status else if Reaps(e) then ToInt32(e.result) else before
  }

  /** The pid slots after the recorded calls: a reaped one changes sign. */
  function PidsAfter(start: seq<int>, log: seq<Event>): (p: seq<int>)
    ensures |p| == |start|
  {
    if log == [] then start
    else
      var p, e := PidsAfter(start, log[..|log| - 1]), log[|log| - 1];
      if Reaps(e) && e.slot < |p| then p[e.slot := -p[e.slot]] else p
  }

  /** The statuses of n segments after the recorded calls. */
  function StatusesAfter(n: nat, log: seq<Event>): (r: seq<int>)
    ensures |r| == n
  {
    if log == [] then seq(n, _ => 0)
    else
      var r, e := StatusesAfter(n, log[..|log| - 1]), log[|log| - 1];
      if e.Waited? && e.slot < n then r[e.slot := Recorded(e, r[e.slot])] else r
  }

  /** Every recorded call used the process id its slot held at that moment, and it was live. */
  predicate WellLogged(start: seq<int>, log: seq<Event>) {
    forall k :: 0 <= k < |log| ==>
      log[k].slot < |start| && PidsAfter(start, log[..k])[log[k].slot] == log[k].pid > 0
  }

  lemma AppendPids(start: seq<int>, log: seq<Event>, e: Event)
    requires e.slot < |start|
    ensures PidsAfter(start, log + [e])
         == var p := PidsAfter(start, log); if Reaps(e) then p[e.slot := -p[e.slot]] else p
  {
    hide Reaps;
    assert (log + [e])[..|log|] == log;
  }

  lemma AppendEvent(start: seq<int>, log: seq<Event>, e: Event)
    requires WellLogged(start, log)
    requires e.slot < |start| && PidsAfter(start, log)[e.slot] == e.pid > 0
    ensures WellLogged(start, log + [e])
    ensures PidsAfter(start, log + [e])
         == if Reaps(e) then PidsAfter(start, log)[e.slot := -e.pid] else PidsAfter(start, log)
  {
    hide Reaps, PidsAfter;
    AppendPids(start, log, e);
    var r := log + [e];
    forall k | 0 <= k < |r|
      ensures r[k].slot < |start| && PidsAfter(start, r[..k])[r[k].slot] == r[k].pid > 0
    {
      assert r[..k] == log[..k];
      if k == |log| {
        assert log[..k] == log;
      }
    }
  }

  lemma AppendStatus(n: nat, log: seq<Event>, e: Event)
    requires e.slot < n
    ensures var before := StatusesAfter(n, log);
            StatusesAfter(n, log + [e]) == if e.Waited? then before[e.slot := Recorded(e, before[e.slot])] else before
  {
    hide Recorded;
    assert (log + [e])[..|log|] == log;
  }

  /** Some recorded wait ended the segment. */
  predicate WasReaped(log: seq<Event>, s: nat) {
    exists k :: 0 <= k < |log| && Reaps(log[k]) && log[k].slot == s
  }

  lemma WasReapedStep(log: seq<Event>, s: nat)
    requires log != []
    ensures var n := |log| - 1;
            WasReaped(log, s) <==> WasReaped(log[..n], s) || (Reaps(log[n]) && log[n].slot == s)
  {
    hide Reaps;
    var n := |log| - 1;
    assert forall k :: 0 <= k < n ==> log[k] == log[..n][k];
  }

  /** Over any run a pid slot changes at most once, from p to -p, exactly when a wait reaped it. */
  lemma {:induction false} SlotFlipsAtMostOnce(start: seq<int>, log: seq<Event>, s: nat)
    requires WellLogged(start, log) && s < |start|
    ensures PidsAfter(start, log)[s] == if WasReaped(log, s) then -start[s] else start[s]
    ensures WasReaped(log, s) ==> start[s] > 0
    decreases |log|
  {
    hide Reaps, WasReaped;
    if log == [] {
      NothingReaped(s);
    } else {
      var n := |log| - 1;
      PrefixLogged(start, log, n);
      SlotFlipsAtMostOnce(start, log[..n], s);
      WasReapedStep(log, s);
      hide WellLogged;
    }
  }

  lemma NothingReaped(s: nat)
    ensures !WasReaped([], s)
  {
  }

  lemma PrefixLogged(start: seq<int>, log: seq<Event>, n: nat)
    requires WellLogged(start, log) && n <= |log|
    ensures WellLogged(start, log[..n])
    ensures forall k :: n <= k < |log| ==> log[k].slot < |start|
    ensures n < |log| ==> PidsAfter(start, log[..n])[log[n].slot] == log[n].pid > 0
  {
    hide PidsAfter;
    assert forall k :: 0 <= k < n ==> log[..n][..k] == log[..k];
  }

  /** Once a segment is reaped, nothing is ever waited for or signalled in its slot again. */
  lemma ReapedIsLeftAlone(start: seq<int>, log: seq<Event>, k: nat, l: nat)
    requires WellLogged(start, log) && k < l < |log| && Reaps(log[k])
    ensures log[l].slot != log[k].slot
  {
    hide Reaps, PidsAfter;
    var prefix, s := log[..l], log[k].slot;
    PrefixLogged(start, log, l);
    assert prefix[k] == log[k] && s < |start|;
    SlotFlipsAtMostOnce(start, prefix, s);
    hide WellLogged;
  }

  /** Calls that reap nothing leave every slot as it was. */
  lemma {:induction false} SilentKeepsPids(start: seq<int>, log: seq<Event>, n: nat)
    requires n <= |log| && forall k :: n <= k < |log| ==> !Reaps(log[k])
    ensures PidsAfter(start, log) == PidsAfter(start, log[..n])
    decreases |log|
  {
    hide Reaps;
    if n == |log| {
      assert log[..n] == log;
    } else {
      var init := log[..|log| - 1];
      assert init[..n] == log[..n];
      SilentKeepsPids(start, init, n);
    }
  }

  /** The status kept for a reaped segment is that of the wait that reaped it, whatever came after. */
  lemma {:induction false} ReapedStatusIsFinal(start: seq<int>, log: seq<Event>, k: nat)
    requires WellLogged(start, log) && k < |log| && Reaps(log[k])
    ensures log[k].slot < |start|
    ensures StatusesAfter(|start|, log)[log[k].slot]
         == if log[k].result == log[k].pid then log[k].status else ToInt32(log[k].result)
    decreases |log|
  {
    hide PidsAfter;
    var n := |log| - 1;
    if k < n {
      var init := log[..n];
      assert forall i :: 0 <= i < n ==> init[..i] == log[..i] && init[i] == log[i];
      ReapedStatusIsFinal(start, init, k);
      ReapedIsLeftAlone(start, log, k, n);
    }
  }
}
