/** The kernel's writer-preferring readers-writer lock (src/kernel/proc/krwlock.c), as interleaved
    steps of any finite number of threads. Each step is one stretch of code run under the lock's
    mutex: from taking it to releasing it or going to sleep on a condition variable. */
module RwLock {

  type Thread = nat

  datatype Place =
    | Outside | Reading | Writing
    | ReaderAsleep | ReaderWoken | WriterAsleep | WriterWoken

  type Places = map<Thread, Place>

  datatype State = State(readers: int, writersWaiting: int, writerActive: bool, place: Places)

  function At(place: Places, p: Place): set<Thread> {
    set t | t in place && place[t] == p
  }

  function Count(place: Places, p: Place): nat {
    |At(place, p)|
  }

  predicate Init(s: State) {
    s.readers == 0 && s.writersWaiting == 0 && !s.writerActive && forall t :: t in s.place ==> s.place[t] == Outside
  }

  predicate Is(s: State, t: Thread, p: Place) {
    t in s.place && s.place[t] == p
  }

  function Moved(s: State, t: Thread, p: Place): State {
    s.(place := s.place[t := p])
  }

  /** kcondvar_signal on the writers' condition variable: one sleeper wakes, if there is one. Any
      choice of sleeper is allowed, so in particular the queue order. */
  predicate SignalsWriter(s: State, s': State) {
    if Count(s.place, WriterAsleep) == 0 then s' == s
    else exists w :: w in s.place && s.place[w] == WriterAsleep && s' == Moved(s, w, WriterWoken)
  }

  /** kcondvar_broadcast on the readers' condition variable. */
  function WakeReaders(place: Places): Places {
    map t | t in place :: if place[t] == ReaderAsleep then ReaderWoken else place[t]
  }

  predicate RdLock(s: State, s': State, t: Thread) {
    && (Is(s, t, Outside) || Is(s, t, ReaderWoken))
    && s' == if s.writerActive || s.writersWaiting > 0 then Moved(s, t, ReaderAsleep)
             else Moved(s, t, Reading).(readers := s.readers + 1)
  }

  predicate TryRdLock(s: State, s': State, t: Thread) {
    && Is(s, t, Outside)
    && s' == if !s.writerActive && s.writersWaiting == 0 then Moved(s, t, Reading).(readers := s.readers + 1) else s
  }

  predicate RdUnlock(s: State, s': State, t: Thread) {
    && Is(s, t, Reading)
    && var n := if s.readers > 0 then s.readers - 1 else s.readers;
       var u := Moved(s, t, Outside).(readers := n);
       if n == 0 && s.writersWaiting > 0 then SignalsWriter(u, s') else s' == u
  }

  /** krwlock_wrlock from its first line: announce, then test. */
  predicate WrLock(s: State, s': State, t: Thread) {
    && Is(s, t, Outside)
    && WriterTests(s.(writersWaiting := s.writersWaiting + 1), s', t)
  }

  predicate WriterTests(s: State, s': State, t: Thread) {
    s' == if s.writerActive || s.readers > 0 then Moved(s, t, WriterAsleep)
          else Moved(s, t, Writing).(writersWaiting := s.writersWaiting - 1, writerActive := true)
  }

  predicate WrResume(s: State, s': State, t: Thread) {
    Is(s, t, WriterWoken) && WriterTests(s, s', t)
  }

  predicate TryWrLock(s: State, s': State, t: Thread) {
    && Is(s, t, Outside)
    && s' == if !s.writerActive && s.readers == 0 then Moved(s, t, Writing).(writerActive := true) else s
  }

  predicate WrUnlock(s: State, s': State, t: Thread) {
    && Is(s, t, Writing)
    && var u := Moved(s, t, Outside).(writerActive := false);
       if s.writersWaiting > 0 then SignalsWriter(u, s') else s' == u.(place := WakeReaders(u.place))
  }

  predicate StepBy(s: State, s': State, t: Thread) {
    || RdLock(s, s', t) || TryRdLock(s, s', t) || RdUnlock(s, s', t)
    || WrLock(s, s', t) || WrResume(s, s', t) || TryWrLock(s, s', t) || WrUnlock(s, s', t)
  }

  ghost predicate Step(s: State, s': State) {
    exists t :: StepBy(s, s', t)
  }

  ghost predicate Run(states: seq<State>) {
    && |states| > 0 && Init(states[0])
    && forall i :: 0 <= i < |states| - 1 ==> Step(states[i], states[i + 1])
  }

  /** The three fields count the threads they are meant to count, and readers and a writer never
      hold the lock together. */
  predicate Counts(s: State) {
    && s.readers == Count(s.place, Reading)
    && s.writersWaiting == Count(s.place, WriterAsleep) + Count(s.place, WriterWoken)
    && Count(s.place, Writing) == (if s.writerActive then 1 else 0)
    && (s.writerActive ==> s.readers == 0)
  }

  /** No wake-up is lost: a reader sleeps only while a writer holds or awaits the lock, and when the
      lock is free a sleeping writer has a woken one ahead of it. */
  predicate NoLostWakeup(s: State) {
    && (Count(s.place, ReaderAsleep) > 0 ==> s.writerActive || s.writersWaiting > 0)
    && (Count(s.place, WriterAsleep) > 0 && !s.writerActive && s.readers == 0 ==> Count(s.place, WriterWoken) > 0)
  }

  predicate Invariant(s: State) {
    Counts(s) && NoLostWakeup(s)
  }

  lemma MoveCounts(place: Places, t: Thread, p: Place, q: Place)
    requires t in place
    ensures Count(place[t := p], q)
         == Count(place, q) + (if q == p then 1 else 0) - (if q == place[t] then 1 else 0)
  {
    var now, was := At(place[t := p], q), At(place, q);
    if q == p {
      assert now == was + {t};
    } else {
      assert now == was - {t};
    }
  }

  lemma MoveAllCounts(place: Places, t: Thread, p: Place)
    requires t in place
    ensures forall q :: Count(place[t := p], q)
                     == Count(place, q) + (if q == p then 1 else 0) - (if q == place[t] then 1 else 0)
  {
    forall q {
      MoveCounts(place, t, p, q);
    }
  }

  lemma WakeCounts(place: Places)
    ensures Count(WakeReaders(place), ReaderAsleep) == 0
    ensures forall q :: q != ReaderAsleep && q != ReaderWoken ==> Count(WakeReaders(place), q) == Count(place, q)
  {
    var now := WakeReaders(place);
    assert At(now, ReaderAsleep) == {};
    forall q | q != ReaderAsleep && q != ReaderWoken
      ensures Count(now, q) == Count(place, q)
    {
      assert At(now, q) == At(place, q);
    }
  }

  /** Counts and the sleeping readers' clause survive a signal, which supplies a woken writer. */
  lemma SignalKeeps(s: State, s': State)
    requires Counts(s) && s.writersWaiting > 0 && SignalsWriter(s, s')
    ensures Invariant(s')
  {
    hide Count;
    if Count(s.place, WriterAsleep) != 0 {
      var w :| w in s.place && s.place[w] == WriterAsleep && s' == Moved(s, w, WriterWoken);
      MoveAllCounts(s.place, w, WriterWoken);
    }
  }

  lemma UnlockKeeps(s: State, s': State, t: Thread)
    requires Invariant(s) && (RdUnlock(s, s', t) || WrUnlock(s, s', t))
    ensures Invariant(s')
  {
    hide Count, SignalsWriter, WakeReaders;
    MoveAllCounts(s.place, t, Outside);
    var reading := Is(s, t, Reading);
    OccupiedPlace(s.place, t);
    var u := if reading then Moved(s, t, Outside).(readers := s.readers - 1)
             else Moved(s, t, Outside).(writerActive := false);
    assert Counts(u);
    if s.writersWaiting > 0 && u.readers == 0 {
      SignalKeeps(u, s');
    } else if !reading {
      WakeCounts(u.place);
    }
  }

  lemma OccupiedPlace(place: Places, t: Thread)
    requires t in place
    ensures Count(place, place[t]) > 0
  {
    assert t in At(place, place[t]);
  }

  lemma LockKeeps(s: State, s': State, t: Thread)
    requires Invariant(s)
    requires RdLock(s, s', t) || TryRdLock(s, s', t) || WrLock(s, s', t) || WrResume(s, s', t) || TryWrLock(s, s', t)
    ensures Invariant(s')
  {
    hide Count;
    OccupiedPlace(s.place, t);
    if s'.place != s.place {
      MoveAllCounts(s.place, t, s'.place[t]);
    }
  }

  lemma {:induction false} RunKeepsInvariant(states: seq<State>, i: nat)
    requires Run(states) && i < |states|
    ensures Invariant(states[i])
  {
    if i == 0 {
      InitHolds(states[0]);
    } else {
      RunKeepsInvariant(states, i - 1);
      assert Step(states[i - 1], states[i - 1 + 1]);
      var t :| StepBy(states[i - 1], states[i], t);
      if RdUnlock(states[i - 1], states[i], t) || WrUnlock(states[i - 1], states[i], t) {
        UnlockKeeps(states[i - 1], states[i], t);
      } else {
        LockKeeps(states[i - 1], states[i], t);
      }
    }
  }

  lemma InitHolds(s: State)
    requires Init(s)
    ensures Invariant(s)
  {
    forall p | p != Outside
      ensures Count(s.place, p) == 0
    {
      assert At(s.place, p) == {};
    }
  }

  /** At no moment of any run does a writer hold the lock together with any other thread. */
  lemma WritersExclude(states: seq<State>, i: nat, w: Thread, t: Thread)
    requires Run(states) && i < |states|
    requires Is(states[i], w, Writing) && w != t
    ensures !Is(states[i], t, Writing) && !Is(states[i], t, Reading)
  {
    RunKeepsInvariant(states, i);
    var place := states[i].place;
    OccupiedPlace(place, w);
    if Is(states[i], t, Reading) {
      OccupiedPlace(place, t);
      assert false;
    } else if Is(states[i], t, Writing) {
      assert {w, t} <= At(place, Writing);
      SubsetCount({w, t}, At(place, Writing));
      assert false;
    }
  }

  lemma SubsetCount(a: set<Thread>, b: set<Thread>)
    requires a <= b
    ensures |a| <= |b|
  {
    assert b == a + (b - a);
  }

  /** While a thread sleeps on the lock some thread is not asleep on it: one holds the lock, or a
      writer has been woken and will test again. So the lock never strands its sleepers. */
  lemma SleepersAreNotStranded(states: seq<State>, i: nat, t: Thread)
    requires Run(states) && i < |states|
    requires Is(states[i], t, ReaderAsleep) || Is(states[i], t, WriterAsleep)
    ensures exists u :: Is(states[i], u, Reading) || Is(states[i], u, Writing) || Is(states[i], u, WriterWoken)
  {
    RunKeepsInvariant(states, i);
    var s := states[i];
    OccupiedPlace(s.place, t);
    var p := if s.writerActive then Writing else if s.readers > 0 then Reading else WriterWoken;
    assert |At(s.place, p)| > 0;
    var u :| u in At(s.place, p);
    assert Is(s, u, p);
  }

  ghost predicate Anyone(s: State, p: Place) { exists t :: Is(s, t, p) }

  ghost predicate WriterWaits(s: State) { Anyone(s, WriterAsleep) || Anyone(s, WriterWoken) }

  lemma CountTells(s: State, p: Place)
    ensures Count(s.place, p) > 0 <==> Anyone(s, p)
  {
    if Count(s.place, p) > 0 {
      var t :| t in At(s.place, p);
      assert Is(s, t, p);
    } else if Anyone(s, p) {
      var t :| Is(s, t, p);
      OccupiedPlace(s.place, t);
      assert false;
    }
  }

  /** In every state of a run a call takes the lock at once exactly when it may: for reading while
      nobody writes or waits to write, for writing while nobody holds the lock. */
  lemma LockedExactlyWhenFree(states: seq<State>, i: nat, s': State, t: Thread)
    requires Run(states) && i < |states|
    ensures var s := states[i];
            && (RdLock(s, s', t) || TryRdLock(s, s', t) ==>
                  (Is(s', t, Reading) <==> !Anyone(s, Writing) && !WriterWaits(s)))
            && (WrLock(s, s', t) || TryWrLock(s, s', t) || WrResume(s, s', t) ==>
                  (Is(s', t, Writing) <==> !Anyone(s, Writing) && !Anyone(s, Reading)))
  {
    hide Count, Anyone;
    RunKeepsInvariant(states, i);
    var s := states[i];
    CountTells(s, Reading);
    CountTells(s, Writing);
    CountTells(s, WriterAsleep);
    CountTells(s, WriterWoken);
  }

  /** Writers are preferred: as long as one waits, no thread starts to read. */
  lemma {:induction false} WritersComeFirst(states: seq<State>, i: nat, j: nat, t: Thread)
    requires Run(states) && i <= j < |states| && forall k :: i <= k < j ==> WriterWaits(states[k])
    ensures Is(states[j], t, Reading) ==> Is(states[i], t, Reading)
    decreases j
  {
    hide WriterWaits;
    if i < j {
      var s, s' := states[j - 1], states[j];
      WritersComeFirst(states, i, j - 1, t);
      assert Step(states[j - 1], states[j - 1 + 1]);
      var u :| StepBy(s, s', u);
      LockedExactlyWhenFree(states, j - 1, s', u);
      if Is(s', t, Reading) {
        OthersDoNotRead(s, s', t, u);
      }
    }
  }

  /** A step starts no other thread reading, and its own only by a call for it. */
  lemma OthersDoNotRead(s: State, s': State, t: Thread, u: Thread)
    requires StepBy(s, s', u) && Is(s', t, Reading)
    ensures Is(s, t, Reading) || (t == u && (RdLock(s, s', u) || TryRdLock(s, s', u)))
  {
    hide Count;
  }
}
