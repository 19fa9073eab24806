/** The test-and-test-and-set spinlock of include/kernel/spinlock.h, as interleaved atomic steps of
    any number of threads. */
module Spinlock {

  type Thread = nat

  /** Where a thread stands: outside, about to exchange in spinlock_lock, spinning on plain reads,
      about to exchange in spinlock_trylock, or holding the lock. */
  datatype Place = Outside | Locking | Spinning | Trying | Holding

  datatype Event = Acquired(thread: Thread) | Released(thread: Thread)

  /** The lock word, every thread's place, and the order of acquisitions and releases so far. */
  datatype State = State(word: int, place: Thread -> Place, history: seq<Event>)

  ghost predicate Init(s: State) {
    s.word == 0 && (forall t :: s.place(t) == Outside) && s.history == []
  }

  ghost predicate Moves(s: State, s': State, t: Thread, to: Place) {
    s'.place(t) == to && forall u :: u != t ==> s'.place(u) == s.place(u)
  }

  /** A call of spinlock_lock or spinlock_trylock begins. */
  ghost predicate Call(s: State, s': State, t: Thread) {
    && s.place(t) == Outside && (Moves(s, s', t, Locking) || Moves(s, s', t, Trying))
    && s'.word == s.word && s'.history == s.history
  }

  /** atomic_exchange of 1: the lock is taken by the thread that reads 0. */
  ghost predicate Exchange(s: State, s': State, t: Thread) {
    && (s.place(t) == Locking || s.place(t) == Trying)
    && s'.word == 1
    && if s.word == 0 then Moves(s, s', t, Holding) && s'.history == s.history + [Acquired(t)]
       else Moves(s, s', t, if s.place(t) == Locking then Spinning else Outside) && s'.history == s.history
  }

  /** spinlock_is_locked: keep spinning while the word is not 0, else try the exchange again. */
  ghost predicate Spin(s: State, s': State, t: Thread) {
    && s.place(t) == Spinning
    && Moves(s, s', t, if s.word != 0 then Spinning else Locking)
    && s'.word == s.word && s'.history == s.history
  }

  /** spinlock_unlock, called by the holder. */
  ghost predicate Unlock(s: State, s': State, t: Thread) {
    && s.place(t) == Holding && s'.word == 0
    && Moves(s, s', t, Outside) && s'.history == s.history + [Released(t)]
  }

  /** A step taken by one given thread. */
  ghost predicate StepOf(s: State, s': State, t: Thread) {
    Call(s, s', t) || Exchange(s, s', t) || Spin(s, s', t) || Unlock(s, s', t)
  }

  ghost predicate Step(s: State, s': State) { exists t :: StepOf(s, s', t) }

  ghost predicate Run(states: seq<State>) {
    && |states| > 0 && Init(states[0])
    && forall i :: 0 <= i < |states| - 1 ==> Step(states[i], states[i + 1])
  }

  /** Acquisitions and releases alternate, each release by the thread that acquired. */
  predicate Alternates(h: seq<Event>) {
    && (forall i :: 0 <= i < |h| ==> (h[i].Acquired? <==> i % 2 == 0))
    && (forall i :: 0 <= i < |h| && i % 2 == 1 ==> h[i].thread == h[i - 1].thread)
  }

  /** The word is 1 exactly while some thread holds the lock, at most one does, and the history ends
      with its acquisition. */
  ghost predicate Invariant(s: State) {
    && (s.word == 0 || s.word == 1)
    && (s.word == 1 <==> exists t :: s.place(t) == Holding)
    && (forall t, u :: s.place(t) == Holding && s.place(u) == Holding ==> t == u)
    && Alternates(s.history)
    && (s.word == 1 <==> |s.history| % 2 == 1)
    && (forall t :: s.place(t) == Holding ==> s.history != [] && s.history[|s.history| - 1] == Acquired(t))
  }

  lemma StepKeepsInvariant(s: State, s': State)
    requires Invariant(s) && Step(s, s')
    ensures Invariant(s')
  {
    var t :| StepOf(s, s', t);
    if Unlock(s, s', t) {
      UnlockKeepsInvariant(s, s', t);
    } else if Exchange(s, s', t) {
      ExchangeKeepsInvariant(s, s', t);
    } else {
      forall u
        ensures s'.place(u) == Holding <==> s.place(u) == Holding
      {
      }
    }
  }

  lemma ExchangeKeepsInvariant(s: State, s': State, t: Thread)
    requires Invariant(s) && Exchange(s, s', t)
    ensures Invariant(s')
  {
    if s.word == 0 {
      assert s'.place(t) == Holding;
      AppendAlternates(s.history, Acquired(t));
    } else {
      var h :| s.place(h) == Holding;
      assert s'.place(h) == Holding;
    }
  }

  lemma UnlockKeepsInvariant(s: State, s': State, t: Thread)
    requires Invariant(s) && Unlock(s, s', t)
    ensures Invariant(s')
  {
    assert s.place(t) == Holding;
    AppendAlternates(s.history, Released(t));
    forall u
      ensures s'.place(u) != Holding
    {
    }
  }

  lemma AppendAlternates(h: seq<Event>, e: Event)
    requires Alternates(h)
    requires if |h| % 2 == 0 then e.Acquired? else e == Released(h[|h| - 1].thread)
    ensures Alternates(h + [e])
  {
    var r := h + [e];
    forall i | 0 <= i < |r|
      ensures r[i].Acquired? <==> i % 2 == 0
      ensures i % 2 == 1 ==> r[i].thread == r[i - 1].thread
    {
    }
  }

  lemma {:induction false} RunKeepsInvariant(states: seq<State>, i: nat)
    requires Run(states) && i < |states|
    ensures Invariant(states[i])
  {
    if i > 0 {
      RunKeepsInvariant(states, i - 1);
      assert Step(states[i - 1], states[i - 1 + 1]);
      StepKeepsInvariant(states[i - 1], states[i]);
    }
  }

  /** Mutual exclusion, for any number of threads and any interleaving: at every moment at most one
      thread holds the lock, and the word is 1 exactly while one does. */
  lemma MutualExclusion(states: seq<State>, i: nat, t: Thread, u: Thread)
    requires Run(states) && i < |states|
    ensures states[i].place(t) == Holding && states[i].place(u) == Holding ==> t == u
    ensures states[i].place(t) == Holding ==> states[i].word == 1
    ensures states[i].word == 1 ==> exists h :: states[i].place(h) == Holding
  {
    RunKeepsInvariant(states, i);
  }

  /** Between two acquisitions there is a release by the first owner. */
  lemma NoOverlap(states: seq<State>, i: nat, a: nat, b: nat)
    requires Run(states) && i < |states|
    requires a < b < |states[i].history| && states[i].history[a].Acquired? && states[i].history[b].Acquired?
    ensures a + 1 < b && states[i].history[a + 1] == Released(states[i].history[a].thread)
  {
    RunKeepsInvariant(states, i);
    var h := states[i].history;
    assert h[a + 1].Acquired? <==> (a + 1) % 2 == 0;
  }

  // ----- progress -----

  /** From any state of a run in which the lock is free, a spinning thread holds it after its next two
      steps, if nobody else moves in between. */
  lemma FreeLockIsTaken(states: seq<State>, i: nat, t: Thread)
    requires Run(states) && i + 2 < |states|
    requires states[i].word == 0 && states[i].place(t) == Spinning
    requires StepOf(states[i], states[i + 1], t) && StepOf(states[i + 1], states[i + 2], t)
    ensures states[i + 2].place(t) == Holding && states[i + 2].history == states[i].history + [Acquired(t)]
  {
    assert Spin(states[i], states[i + 1], t);
    assert Exchange(states[i + 1], states[i + 2], t);
  }

  /** One exchange, of a lock or of a try, takes the lock exactly when nobody holds it. */
  lemma TakenExactlyWhenFree(states: seq<State>, i: nat, s': State, t: Thread)
    requires Run(states) && i < |states| && Exchange(states[i], s', t)
    ensures s'.place(t) == Holding <==> forall u: Thread :: states[i].place(u) != Holding
  {
    RunKeepsInvariant(states, i);
  }

  function Placed(s: State, t: Thread, to: Place): Thread -> Place {
    (u: Thread) => if u == t then to else s.place(u)
  }

  /** No state of a run is a dead end for a thread that wants the lock: at most a release by the holder,
      one read and one exchange later it can hold it, nobody else having moved. */
  lemma WaiterCanAcquire(states: seq<State>, t: Thread) returns (more: seq<State>)
    requires Run(states)
    requires var p := states[|states| - 1].place(t); p == Locking || p == Spinning
    ensures Run(states + more) && |more| <= 3 && more != []
    ensures more[|more| - 1].place(t) == Holding
    ensures forall k, u: Thread :: 0 <= k < |more| && u != t && states[|states| - 1].place(u) != Holding ==>
              more[k].place(u) == states[|states| - 1].place(u)
  {
    var s := states[|states| - 1];
    RunKeepsInvariant(states, |states| - 1);
    more := [];
    if s.word == 1 {
      var h :| s.place(h) == Holding;
      var free := State(0, Placed(s, h, Outside), s.history + [Released(h)]);
      assert StepOf(s, free, h);
      Extend(states, free);
      more, s := [free], free;
    }
    if s.place(t) == Spinning {
      var ready := State(0, Placed(s, t, Locking), s.history);
      assert StepOf(s, ready, t);
      Extend(states + more, ready);
      assert states + more + [ready] == states + (more + [ready]);
      more, s := more + [ready], ready;
    }
    var held := State(1, Placed(s, t, Holding), s.history + [Acquired(t)]);
    assert StepOf(s, held, t);
    Extend(states + more, held);
    assert states + more + [held] == states + (more + [held]);
    more := more + [held];
  }

  lemma Extend(states: seq<State>, s: State)
    requires Run(states) && Step(states[|states| - 1], s)
    ensures Run(states + [s])
  {
    hide Step;
    var r := states + [s];
    forall i | 0 <= i < |r| - 1
      ensures Step(r[i], r[i + 1])
    {
      if i < |states| - 1 {
        assert r[i + 1] == states[i + 1];
      }
    }
  }
}
