/** The job table of app/mosh/mosh.c, driven by arbitrary `waitpid` results. */
module Jobs {
  import opened CArith
  import opened JobLog
  import opened WaitStatus

  const MAX_JOBS: nat := 16
  const MAX_SEGMENTS: nat := 8

  datatype State = Running | Stopped | Done

  datatype PollEvent = NoEvent | Exited | HasStopped

  /** One pass of the poller reports an event or, when it blocks, goes round again. */
  datatype Pass = Report(event: PollEvent) | Again

  class Job {
    var inUse: bool
    var id: int
    var state: State
    var background: bool
    var foreground: bool
    var segmentCount: nat
    var pids: seq<int>
    var statuses: seq<int>
    var lastStatus: int
    /** The pids the job started with and the record of calls made for it since. */
    ghost var start: seq<int>
    ghost var log: seq<Event>

    /** A cleared slot of the table. */
    constructor ()
      ensures Valid() && !inUse
    {
      inUse, id, state := false, 0, Running;
      background, foreground, segmentCount, lastStatus := false, false, 0, 0;
      pids, statuses := [], [];
      start, log := [], [];
    }

    ghost predicate Valid()
      reads this
    {
      && |pids| == |statuses| == segmentCount == |start| <= MAX_SEGMENTS
      && WellLogged(start, log) && pids == PidsAfter(start, log) && statuses == StatusesAfter(|start|, log)
    }

    predicate NoneLive()
      requires |pids| == segmentCount
      reads this
    {
      forall i :: 0 <= i < segmentCount ==> pids[i] <= 0
    }

    /** In use, outside the foreground, and with nothing left to wait for. */
    predicate Finished()
      requires |pids| == segmentCount
      reads this
    {
      inUse && !foreground && NoneLive()
    }

    /** What no call on a job in use changes: its identity, its processes, and its past. */
    twostate predicate Continues()
      reads this
    {
      && inUse == old(inUse) && id == old(id) && segmentCount == old(segmentCount)
      && start == old(start) && old(log) <= log
    }

    /** job_raw_status. */
    function RawStatus(): int
      requires |statuses| == segmentCount
      reads this
    {
      if segmentCount == 0 then 0 else statuses[segmentCount - 1]
    }

    /** job_send_signal: every live process of the job and no other. */
    method SendSignal()
      requires Valid()
      modifies this`log
      ensures Valid() && Continues()
      ensures |log| == |old(log)| + LiveCount(pids)
      ensures forall k :: |old(log)| <= k < |log| ==> log[k].Signalled?
      ensures InOrder(log, |old(log)|)
    {
      hide PidsAfter, StatusesAfter, WellLogged;
      for i := 0 to segmentCount
        invariant Valid() && Continues()
        invariant |log| == |old(log)| + LiveCount(pids[..i])
        invariant forall k :: |old(log)| <= k < |log| ==> log[k].Signalled? && log[k].slot < i
        invariant InOrder(log, |old(log)|)
      {
        var pid := pids[i];
        assert pids[..i + 1][..i] == pids[..i];
        if pid > 0 {
          var e := Signalled(i, pid);
          AppendEvent(start, log, e);
          AppendStatus(segmentCount, log, e);
          log := log + [e];
        }
      }
      assert pids[..segmentCount] == pids;
    }

    /** The interrupt and stop requests a blocking pass hands on before it waits. */
    method ForwardSignals()
      requires Valid()
      modifies this`log
      ensures Valid() && Continues()
      ensures forall k :: |old(log)| <= k < |log| ==> !Stops(log[k])
    {
      hide PidsAfter, StatusesAfter, WellLogged;
      var sigint: bool := *;
      var sigtstp: bool := *;
      if sigint {
        SendSignal();
      }
      if sigtstp {
        SendSignal();
      }
    }

    /** One `waitpid` for slot i, whatever it answers. */
    method WaitSlot(i: nat) returns (stopped: bool)
      requires Valid() && i < segmentCount && pids[i] > 0
      modifies this
      ensures Valid() && Continues() && |log| == |old(log)| + 1
      ensures var e := log[|old(log)|];
              && e.Waited? && e.slot == i
              && pids == (if Reaps(e) then old(pids)[i := -old(pids)[i]] else old(pids))
              && (stopped <==> Stops(e))
              && (stopped ==> lastStatus == e.status)
      ensures stopped ==> state == Stopped && !foreground && !background
      ensures !stopped ==> state == old(state) && foreground == old(foreground) && background == old(background)
    {
      hide PidsAfter, StatusesAfter, WellLogged;
      var pid := pids[i];
      var result: int := *;
      var status: int := *;
      ghost var e := Waited(i, pid, result, status);
      AppendEvent(start, log, e);
      AppendStatus(segmentCount, log, e);
      log := log + [e];
      stopped := false;
      if result == pid {
        if IsStopped(status) {
          statuses := statuses[i := status];
          state, foreground, background := Stopped, false, false;
          lastStatus := status;
          return true;
        }
        ContinuedLooksStopped(status);
        statuses := statuses[i := status];
        pids := pids[i := -pid];
      } else if result < 0 && result != -ECHILD {
        pids := pids[i := -pid];
        statuses := statuses[i := ToInt32(result)];
      } else {
        assert statuses[i := statuses[i]] == statuses;
      }
    }

    /** The wait loop of a pass: every live process once, in order, until one has stopped. */
    method WaitRound() returns (stopped: bool)
      requires Valid()
      modifies this
      ensures Valid() && Continues()
      ensures stopped <==> exists k :: |old(log)| <= k < |log| && Stops(log[k])
      ensures stopped ==> state == Stopped && !foreground && !background
      ensures stopped ==> log != [] && Stops(log[|log| - 1]) && lastStatus == log[|log| - 1].status && !NoneLive()
      ensures !stopped ==>
                && state == old(state) && foreground == old(foreground) && background == old(background)
                && |log| == |old(log)| + LiveCount(old(pids))
      ensures (forall k :: |old(log)| <= k < |log| ==> log[k].Waited?) && InOrder(log, |old(log)|)
      ensures AllReaped(log, |old(log)|) ==> NoneLive()
      ensures forall i :: 0 <= i < segmentCount ==>
                pids[i] == old(pids)[i] || (old(pids)[i] > 0 && pids[i] == -old(pids)[i])
    {
      hide PidsAfter, StatusesAfter, WellLogged, Stops, Reaps, InOrder, RoundLog, RoundPids, AllReaped;
      assert |pids| == segmentCount;
      hide Job.Valid;
      stopped := false;
      ghost var n := |log|;
      RoundStarts(log, pids);
      for i := 0 to segmentCount
        invariant Valid() && Continues()
        invariant state == old(state) && foreground == old(foreground) && background == old(background)
        invariant |pids| == segmentCount && |log| == n + LiveCount(old(pids)[..i])
        invariant RoundLog(log, n, i) && forall k :: n <= k < |log| ==> !Stops(log[k])
        invariant RoundPids(old(pids), pids, i, AllReaped(log, n))
      {
        LiveCountStep(old(pids), i);
        RoundNext(old(pids), pids, i, AllReaped(log, n));
        if pids[i] > 0 {
          ghost var seen, before := log, pids;
          stopped := WaitSlot(i);
          assert log[..|seen|] == seen;
          RoundGrows(log, n, i);
          RoundWaits(old(pids), before, pids, i, log, n);
          if stopped {
            StopsReapsNot(log[|log| - 1]);
            assert pids[i] > 0;
            RoundMeans(old(pids), pids, i + 1, log, n);
            return;
          }
        } else {
          RoundSkips(old(pids), pids, i, log, n);
        }
      }
      assert old(pids)[..segmentCount] == old(pids);
      RoundMeans(old(pids), pids, segmentCount, log, n);
    }

    /** One pass of job_poll_status. A job is reported exited exactly when a pass starts with no
        live process, and stopped exactly when one of its waits finds a stopped process. */
    method PollPass(block: bool) returns (r: Pass)
      requires Valid()
      modifies this
      ensures Valid() && Continues()
      ensures r == Report(Exited) || r == Report(HasStopped) || r == if block then Again else Report(NoEvent)
      ensures r == Report(Exited) <==> old(NoneLive())
      ensures r == Report(HasStopped) <==> exists k :: |old(log)| <= k < |log| && Stops(log[k])
      ensures r == Report(Exited) ==> state == Done && lastStatus == RawStatus() && pids == old(pids) && log == old(log)
      ensures r == Report(HasStopped) ==>
                && state == Stopped && !foreground && !background
                && log != [] && Stops(log[|log| - 1]) && lastStatus == log[|log| - 1].status && !NoneLive()
      ensures r != Report(HasStopped) ==> foreground == old(foreground) && background == old(background)
      ensures r == Report(NoEvent) ==> |log| == |old(log)| + LiveCount(old(pids))
      ensures AllEnded(log, |old(log)|) ==> NoneLive()
      ensures forall i :: 0 <= i < segmentCount ==>
                pids[i] == old(pids)[i] || (old(pids)[i] > 0 && pids[i] == -old(pids)[i])
    {
      hide PidsAfter, StatusesAfter, WellLogged, Stops;
      if NoneLive() {
        state := Done;
        lastStatus := RawStatus();
        return Report(Exited);
      }
      if block {
        ForwardSignals();
      }
      ghost var signalled := log;
      var stopped := WaitRound();
      assert forall k :: 0 <= k < |signalled| ==> log[k] == signalled[k];
      if AllEnded(log, |old(log)|) {
        AllReap(log, |signalled|);
      }
      r := if stopped then Report(HasStopped) else if block then Again else Report(NoEvent);
    }

    /** The blocking poll, followed for some number of passes, with the pid slots between them. Passes
        that reap something are at most as many as live processes, so a poll that goes on and on is
        one whose waits report nothing. */
    method PollBlocking(passes: nat) returns (r: Pass, ghost history: seq<seq<int>>)
      requires Valid()
      modifies this
      ensures Valid() && Continues()
      ensures r == Report(Exited) || r == Report(HasStopped) || r == Again
      ensures r == Report(Exited) ==> state == Done && NoneLive()
      ensures r == Report(HasStopped) ==>
                && state == Stopped && !NoneLive()
                && log != [] && Stops(log[|log| - 1]) && lastStatus == log[|log| - 1].status
      ensures r == Again ==> foreground == old(foreground) && background == old(background)
      ensures r == Again ==> forall k :: |old(log)| <= k < |log| ==> !Stops(log[k])
      ensures r == Again ==>
                && |history| == passes + 1 && history[0] == old(pids) && history[passes] == pids
                && Changes(history) + LiveCount(pids) <= LiveCount(old(pids))
      ensures !old(NoneLive()) && Silent(log, |old(log)|) ==> r == Again && pids == old(pids)
      ensures passes >= 2 && AllEnded(log, |old(log)|) ==> r == Report(Exited)
    {
      hide PidsAfter, StatusesAfter, WellLogged, Stops, Reaps, LiveCount;
      r, history := Again, [pids];
      for n := 0 to passes
        invariant Valid() && Continues() && r == Again
        invariant foreground == old(foreground) && background == old(background)
        invariant forall k :: |old(log)| <= k < |log| ==> !Stops(log[k])
        invariant |history| == n + 1 && history[0] == old(pids) && history[n] == pids
        invariant Changes(history) + LiveCount(pids) <= LiveCount(old(pids))
        invariant n >= 1 && AllEnded(log, |old(log)|) ==> NoneLive()
        invariant n >= 2 ==> !AllEnded(log, |old(log)|)
      {
        ghost var before, seen := pids, log;
        r := PollPass(true);
        if r != Again {
          StillSilent(start, old(log), log);
          return;
        }
        LiveCountDrops(before, pids);
        assert (history + [pids])[..n + 1] == history;
        history := history + [pids];
        assert forall k :: 0 <= k < |seen| ==> log[k] == seen[k];
      }
      StillSilent(start, old(log), log);
    }

    /** The wait of job_wait_foreground up to its clean-up, and the status it returns. */
    method AwaitForeground(passes: nat) returns (r: Pass, status: int)
      requires Valid()
      modifies this
      ensures Valid() && Continues()
      ensures r == Report(Exited) || r == Report(HasStopped) || r == Again
      ensures r == Report(Exited) ==> state == Done && NoneLive() && status == RawStatus()
      ensures r == Report(HasStopped) ==>
                && state == Stopped && !foreground && !NoneLive()
                && log != [] && Stops(log[|log| - 1]) && status == log[|log| - 1].status
      ensures r == Again ==> foreground && !background
      ensures passes >= 2 && AllEnded(log, |old(log)|) ==> r == Report(Exited)
    {
      hide PidsAfter, StatusesAfter, WellLogged, Stops;
      foreground := true;
      background := false;
      status := 0;
      ghost var history;
      r, history := PollBlocking(passes);
      if r == Again {
        return;
      }
      status := if state == Done then RawStatus() else lastStatus;
      if state != Done {
        foreground := false;
      }
    }

    /** The whole wait of job_wait_foreground: a job that ended gives its slot back. Its processes had
        then all been reaped, and the status is that of its last one. */
    method WaitInForeground(passes: nat) returns (r: Pass, status: int, ghost final: seq<Event>)
      requires Valid() && inUse
      modifies this
      ensures Valid()
      ensures r == Report(Exited) || r == Report(HasStopped) || r == Again
      ensures r == Report(Exited) ==> !inUse && old(log) <= final && EndedWith(old(start), final, status)
      ensures r != Report(Exited) ==> Continues() && log == final
      ensures r == Report(HasStopped) ==>
                state == Stopped && !foreground && !NoneLive() && StoppedLast(final) && status == final[|final| - 1].status
      ensures r == Again ==> foreground
      ensures passes >= 2 && AllEnded(final, |old(log)|) ==> r == Report(Exited)
    {
      hide PidsAfter, StatusesAfter, WellLogged, Stops;
      r, status := AwaitForeground(passes);
      final := log;
      if r == Report(Exited) {
        Release();
      }
    }

    /** job_release. */
    method Release()
      modifies this
      ensures Valid() && !inUse && id == 0 && segmentCount == 0 && !foreground && !background && lastStatus == 0
    {
      inUse, id, state := false, 0, Running;
      background, foreground, segmentCount, lastStatus := false, false, 0, 0;
      pids, statuses := [], [];
      start, log := [], [];
    }

    /** The slot filled in by job_allocate. */
    method Fill(newId: int, newPids: seq<int>, inBackground: bool)
      requires |newPids| <= MAX_SEGMENTS
      modifies this
      ensures Valid() && inUse && id == newId && state == Running && lastStatus == 0
      ensures start == newPids == pids && log == [] && background == inBackground && foreground == !inBackground
    {
      inUse, id, state := true, newId, Running;
      background, foreground := inBackground, !inBackground;
      segmentCount, lastStatus := |newPids|, 0;
      pids, statuses := newPids, seq(|newPids|, _ => 0);
      start, log := newPids, [];
    }
  }

  /** The record of a job that ended: no process is live, and the status is the last segment's. */
  ghost predicate EndedWith(start: seq<int>, log: seq<Event>, status: int) {
    && WellLogged(start, log) && (forall i :: 0 <= i < |start| ==> PidsAfter(start, log)[i] <= 0)
    && status == if start == [] then 0 else StatusesAfter(|start|, log)[|start| - 1]
  }

  predicate StoppedLast(log: seq<Event>) { log != [] && Stops(log[|log| - 1]) }

  /** From event n on, each slot is used at most once and in ascending order. */
  predicate InOrder(log: seq<Event>, n: nat) {
    forall k, l :: n <= k < l < |log| ==> log[k].slot < log[l].slot
  }

  /** From event n on, only waits, at most one for each slot below i, in order. */
  predicate RoundLog(log: seq<Event>, n: nat, i: nat) {
    InOrder(log, n) && forall k :: n <= k < |log| ==> log[k].Waited? && log[k].slot < i
  }

  predicate AllReaped(log: seq<Event>, n: nat) { forall k :: n <= k < |log| ==> Reaps(log[k]) }

  /** A round that has come to slot i: a slot before it is as it was or has been reaped, and none is
      live if every wait reaped. */
  predicate RoundPids(before: seq<int>, pids: seq<int>, i: nat, reaped: bool) {
    && |before| == |pids| && (forall k :: i <= k < |pids| ==> pids[k] == before[k])
    && (forall k :: 0 <= k < i && k < |pids| ==>
          (pids[k] == before[k] || (before[k] > 0 && pids[k] == -before[k])) && (reaped ==> pids[k] <= 0))
  }

  lemma RoundStarts(log: seq<Event>, pids: seq<int>)
    ensures RoundLog(log, |log|, 0) && AllReaped(log, |log|) && RoundPids(pids, pids, 0, true)
  {
  }

  lemma RoundNext(before: seq<int>, pids: seq<int>, i: nat, reaped: bool)
    requires RoundPids(before, pids, i, reaped) && i < |pids|
    ensures |before| == |pids| && pids[i] == before[i]
  {
  }

  lemma RoundGrows(log: seq<Event>, n: nat, i: nat)
    requires n < |log| && RoundLog(log[..|log| - 1], n, i) && log[|log| - 1].Waited? && log[|log| - 1].slot == i
    ensures RoundLog(log, n, i + 1)
    ensures AllReaped(log, n) <==> AllReaped(log[..|log| - 1], n) && Reaps(log[|log| - 1])
  {
    hide Reaps;
    var init := log[..|log| - 1];
    assert forall k :: 0 <= k < |init| ==> init[k] == log[k];
  }

  lemma RoundWaits(before: seq<int>, mid: seq<int>, pids: seq<int>, i: nat, log: seq<Event>, n: nat)
    requires n < |log| && i < |mid| && mid[i] > 0
    requires RoundPids(before, mid, i, AllReaped(log[..|log| - 1], n))
    requires pids == if Reaps(log[|log| - 1]) then mid[i := -mid[i]] else mid
    requires AllReaped(log, n) <==> AllReaped(log[..|log| - 1], n) && Reaps(log[|log| - 1])
    ensures RoundPids(before, pids, i + 1, AllReaped(log, n))
  {
    hide AllReaped, Reaps;
  }

  lemma RoundSkips(before: seq<int>, pids: seq<int>, i: nat, log: seq<Event>, n: nat)
    requires i < |pids| && pids[i] <= 0 && RoundPids(before, pids, i, AllReaped(log, n)) && RoundLog(log, n, i)
    ensures RoundPids(before, pids, i + 1, AllReaped(log, n)) && RoundLog(log, n, i + 1)
  {
    hide AllReaped, InOrder;
  }

  /** What a round comes to. */
  lemma RoundMeans(before: seq<int>, pids: seq<int>, i: nat, log: seq<Event>, n: nat)
    requires i <= |pids| && RoundPids(before, pids, i, AllReaped(log, n)) && RoundLog(log, n, i)
    ensures InOrder(log, n) && forall k :: n <= k < |log| ==> log[k].Waited?
    ensures |before| == |pids| && forall k :: 0 <= k < |pids| ==>
              pids[k] == before[k] || (before[k] > 0 && pids[k] == -before[k])
    ensures i == |pids| && AllReaped(log, n) ==> forall k :: 0 <= k < |pids| ==> pids[k] <= 0
  {
    hide AllReaped, InOrder;
  }

  function LiveCount(pids: seq<int>): nat {
    if pids == [] then 0
    else LiveCount(pids[..|pids| - 1]) + if pids[|pids| - 1] > 0 then 1 else 0
  }

  lemma LiveCountStep(pids: seq<int>, i: nat)
    requires i < |pids|
    ensures LiveCount(pids[..i + 1]) == LiveCount(pids[..i]) + if pids[i] > 0 then 1 else 0
  {
    assert pids[..i + 1][..i] == pids[..i];
  }

  /** From event n on, every wait was answered with the end of its process. */
  ghost predicate AllEnded(log: seq<Event>, n: nat) { forall k :: n <= k < |log| ==> Ended(log[k]) }

  lemma AllReap(log: seq<Event>, n: nat)
    requires AllEnded(log, n) && forall k :: n <= k < |log| ==> log[k].Waited?
    ensures forall k :: n <= k < |log| ==> Reaps(log[k]) && !Stops(log[k])
  {
    forall k | n <= k < |log|
      ensures Reaps(log[k]) && !Stops(log[k])
    {
      EndedReaps(log[k]);
    }
  }

  /** From event n on, no wait reaped or found a stopped process. In particular no wait did that was
      answered with ECHILD. */
  predicate Silent(log: seq<Event>, n: nat) {
    forall k :: n <= k < |log| ==> !Reaps(log[k]) && !Stops(log[k])
  }

  lemma StillSilent(start: seq<int>, before: seq<Event>, log: seq<Event>)
    requires before <= log
    ensures Silent(log, |before|) ==> PidsAfter(start, log) == PidsAfter(start, before)
  {
    hide Reaps, Stops;
    if Silent(log, |before|) {
      SilentKeepsPids(start, log, |before|);
      assert log[..|before|] == before;
    }
  }

  /** Whatever number of passes it is given, a job with a live process whose waits are all answered
      with ECHILD is never reported. */
  lemma NoChildrenAreSilent(log: seq<Event>, n: nat)
    requires forall k :: n <= k < |log| ==> log[k].pid > 0 && (log[k].Waited? ==> log[k].result == -ECHILD)
    ensures Silent(log, n)
  {
    forall k | n <= k < |log|
      ensures !Reaps(log[k]) && !Stops(log[k])
    {
      if log[k].Waited? {
        NoChildIsSilent(log[k]);
      }
    }
  }

  /** How often consecutive states differ. */
  function Changes(history: seq<seq<int>>): nat {
    if |history| <= 1 then 0
    else
      var n := |history| - 1;
      Changes(history[..n]) + if history[n] != history[n - 1] then 1 else 0
  }

  /** A process that is reaped is one live process fewer. */
  lemma {:induction false} LiveCountDrops(p: seq<int>, q: seq<int>)
    requires |p| == |q| && forall i :: 0 <= i < |p| ==> q[i] == p[i] || (p[i] > 0 && q[i] == -p[i])
    ensures LiveCount(q) <= LiveCount(p) && (q != p ==> LiveCount(q) < LiveCount(p))
  {
    if p != [] {
      var n := |p| - 1;
      LiveCountDrops(p[..n], q[..n]);
      assert p == p[..n] + [p[n]] && q == q[..n] + [q[n]];
    }
  }

  class JobTable {
    const jobs: seq<Job>
    var nextJobId: int
    /** Whether the id counter has gone round. */
    ghost var wrapped: bool

    /** The table at start-up: no job, ids from 1. */
    constructor ()
      ensures Valid() && nextJobId == 1 && !wrapped
      ensures forall i :: 0 <= i < MAX_JOBS ==> fresh(jobs[i]) && !jobs[i].inUse
    {
      var table: seq<Job> := [];
      for i := 0 to MAX_JOBS
        invariant |table| == i
        invariant forall j :: 0 <= j < i ==> fresh(table[j]) && table[j].Valid() && !table[j].inUse
        invariant forall j, k :: 0 <= j < k < i ==> table[j] != table[k]
      {
        var job := new Job();
        table := table + [job];
      }
      jobs := table;
      nextJobId, wrapped := 1, false;
    }

    ghost predicate Distinct() {
      |jobs| == MAX_JOBS && forall i, j :: 0 <= i < j < MAX_JOBS ==> jobs[i] != jobs[j]
    }

    /** Until the counter wraps, jobs in use have different ids, all below the counter. */
    ghost predicate IdsUnique()
      requires Distinct()
      reads this, jobs
    {
      !wrapped ==>
        && (forall i :: 0 <= i < MAX_JOBS && jobs[i].inUse ==> 1 <= jobs[i].id < nextJobId)
        && (forall i, j :: 0 <= i < j < MAX_JOBS && jobs[i].inUse && jobs[j].inUse ==> jobs[i].id != jobs[j].id)
    }

    ghost predicate Valid()
      reads this, jobs
    {
      && Distinct() && 1 <= nextJobId <= INT_MAX && IdsUnique()
      && forall i :: 0 <= i < MAX_JOBS ==> jobs[i].Valid()
    }

    /** job_allocate: the first free slot, a new id, and the given processes. */
    method Allocate(pids: seq<int>, background: bool) returns (job: Job?)
      requires Valid() && |pids| <= MAX_SEGMENTS
      modifies this, jobs
      ensures Valid() && (old(wrapped) ==> wrapped)
      ensures job == null <==> forall i :: 0 <= i < MAX_JOBS ==> old(jobs[i].inUse)
      ensures job == null ==> unchanged(this) && forall i :: 0 <= i < MAX_JOBS ==> unchanged(jobs[i])
      ensures job != null ==>
                && job in jobs && !old(job.inUse) && job.inUse && job.id == old(nextJobId)
                && job.start == job.pids == pids && job.state == Running
                && job.background == background && job.foreground == !background
                && nextJobId == (if old(nextJobId) == INT_MAX then 1 else old(nextJobId) + 1)
                && forall j :: j in jobs && j != job ==> unchanged(j)
      ensures forall i, k :: 0 <= k < i < MAX_JOBS && jobs[i] == job ==> old(jobs[k].inUse)
      ensures job != null && !old(wrapped) ==> forall j :: j in jobs && j.inUse && j != job ==> j.id != job.id
    {
      var slot := 0;
      while slot < MAX_JOBS && jobs[slot].inUse
        invariant 0 <= slot <= MAX_JOBS
        invariant forall k :: 0 <= k < slot ==> jobs[k].inUse
      {
        slot := slot + 1;
      }
      if slot == MAX_JOBS {
        return null;
      }
      job := jobs[slot];
      job.Fill(nextJobId, pids, background);
      if nextJobId == INT_MAX {
        nextJobId := 1;
        wrapped := true;
      } else {
        nextJobId := nextJobId + 1;
      }
    }

    /** jobs_poll_updates: a job outside the foreground leaves the table exactly when it had no live
        process left; every other job stays with its identity and its past. */
    method PollUpdates()
      requires Valid()
      modifies this, jobs
      ensures Valid() && nextJobId == old(nextJobId) && wrapped == old(wrapped)
      ensures forall i :: 0 <= i < MAX_JOBS ==>
                (jobs[i].inUse <==> old(jobs[i].inUse) && !old(jobs[i].Finished()))
      ensures forall i :: 0 <= i < MAX_JOBS && jobs[i].inUse ==> jobs[i].Continues()
    {
      hide PidsAfter, StatusesAfter, WellLogged;
      hide Job.Finished;
      hide Job.NoneLive;
      for n := 0 to MAX_JOBS
        invariant Valid() && nextJobId == old(nextJobId) && wrapped == old(wrapped)
        invariant forall i :: n <= i < MAX_JOBS ==> unchanged(jobs[i])
        invariant forall i :: 0 <= i < n ==>
          (jobs[i].inUse <==> old(jobs[i].inUse) && !old(jobs[i].Finished()))
        invariant forall i :: 0 <= i < n && jobs[i].inUse ==> jobs[i].Continues()
      {
        PollOne(n);
      }
    }

    method PollOne(n: nat)
      requires Valid() && n < MAX_JOBS
      modifies jobs[n]
      ensures Valid()
      ensures jobs[n].inUse <==> old(jobs[n].inUse) && !old(jobs[n].Finished())
      ensures jobs[n].inUse ==> jobs[n].Continues()
    {
      hide PidsAfter, StatusesAfter, WellLogged, Stops, AllEnded;
      var job := jobs[n];
      if !job.inUse {
        return;
      }
      if job.foreground {
        return;
      }
      var r := job.PollPass(false);
      if r == Report(Exited) {
        job.Release();
      }
    }

    /** job_wait_foreground, followed for some number of passes: a job that ends is released with the
        status of its last process, one that stops stays in the table; then the others are polled. */
    method WaitForeground(n: nat, passes: nat) returns (r: Pass, status: int, ghost final: seq<Event>)
      requires Valid() && n < MAX_JOBS && jobs[n].inUse
      modifies this, jobs
      ensures Valid() && nextJobId == old(nextJobId) && wrapped == old(wrapped)
      ensures r == Report(Exited) || r == Report(HasStopped) || r == Again
      ensures old(jobs[n].log) <= final
      ensures r == Report(Exited) ==> !jobs[n].inUse && EndedWith(old(jobs[n].start), final, status)
      ensures r == Report(HasStopped) ==>
                jobs[n].inUse && jobs[n].Continues() && StoppedLast(final) && status == final[|final| - 1].status
      ensures r == Again ==> jobs[n].inUse && jobs[n].foreground && jobs[n].Continues()
      ensures passes >= 2 && AllEnded(final, |old(jobs[n].log)|) ==> r == Report(Exited)
    {
      hide PidsAfter, StatusesAfter, WellLogged, Stops;
      hide Job.Finished;
      hide Job.NoneLive;
      hide EndedWith;
      r, status, final := WaitOne(n, passes);
      if r != Again {
        PollUpdates();
      }
    }

    method WaitOne(n: nat, passes: nat) returns (r: Pass, status: int, ghost final: seq<Event>)
      requires Valid() && n < MAX_JOBS && jobs[n].inUse
      modifies jobs[n]
      ensures Valid()
      ensures r == Report(Exited) || r == Report(HasStopped) || r == Again
      ensures old(jobs[n].log) <= final
      ensures r == Report(Exited) ==> !jobs[n].inUse && EndedWith(old(jobs[n].start), final, status)
      ensures r != Report(Exited) ==> jobs[n].Continues()
      ensures r == Report(HasStopped) ==>
                !jobs[n].Finished() && StoppedLast(final) && status == final[|final| - 1].status
      ensures r == Again ==> jobs[n].foreground
      ensures passes >= 2 && AllEnded(final, |old(jobs[n].log)|) ==> r == Report(Exited)
    {
      hide PidsAfter, StatusesAfter, WellLogged, Stops, EndedWith;
      r, status, final := jobs[n].WaitInForeground(passes);
    }
  }
}
