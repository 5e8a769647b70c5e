/** The writer-preferred readers-writer lock, as a step machine over any number of threads. */
module RWLock {
  import opened Ranking

  // A critical section of the condition variable is one step; waiting puts a thread to sleep, `notify_all` wakes
  // every sleeper, and an awake waiter has to take the mutex again and retest.

  datatype Phase = Idle | RSleep | RAwake | Reading | WSleep | WAwake | Writing

  datatype Lock = Lock(readers: int, writer: bool, waiting: int, phase: map<nat, Phase>)

  function NewLock(threads: set<nat>): Lock {
    Lock(0, false, 0, map t | t in threads :: Idle)
  }

  function Woken(p: Phase): Phase {
    if p == RSleep then RAwake else if p == WSleep then WAwake else p
  }

  function NotifyAll(s: Lock): Lock {
    s.(phase := map t | t in s.phase :: Woken(s.phase[t]))
  }

  /** The reader's test, on arrival and after every wakeup. */
  function TryRead(s: Lock, t: nat): Lock {
    if s.writer || s.waiting > 0 then s.(phase := s.phase[t := RSleep])
    else s.(readers := s.readers + 1, phase := s.phase[t := Reading])
  }

  /** The writer's test; it has already announced itself in `waiting`. */
  function TryWrite(s: Lock, t: nat): Lock {
    if s.writer || s.readers > 0 then s.(phase := s.phase[t := WSleep])
    else s.(waiting := s.waiting - 1, writer := true, phase := s.phase[t := Writing])
  }

  function EndRead(s: Lock, t: nat): Lock {
    var s1 := s.(readers := s.readers - 1, phase := s.phase[t := Idle]);
    if s1.readers == 0 then NotifyAll(s1) else s1
  }

  function EndWrite(s: Lock, t: nat): Lock {
    NotifyAll(s.(writer := false, phase := s.phase[t := Idle]))
  }

  /** Thread `t` takes one step. A sleeping thread has none. */
  ghost predicate Step(s: Lock, t: nat, s': Lock) {
    t in s.phase &&
    match s.phase[t]
    case Idle => s' == TryRead(s, t) || s' == TryWrite(s.(waiting := s.waiting + 1), t)
    case RAwake => s' == TryRead(s, t)
    case WAwake => s' == TryWrite(s, t)
    case Reading => s' == EndRead(s, t)
    case Writing => s' == EndWrite(s, t)
    case RSleep => false
    case WSleep => false
  }

  // ---------- the invariant ----------

  ghost function In(s: Lock, p: Phase): set<nat> { set t | t in s.phase && s.phase[t] == p }

  ghost function Count(s: Lock, p: Phase): nat { |In(s, p)| }

  /** The counters count the threads in each phase. */
  ghost predicate Counted(s: Lock) {
    && s.readers == Count(s, Reading)
    && s.waiting == Count(s, WSleep) + Count(s, WAwake)
    && Count(s, Writing) == if s.writer then 1 else 0
  }

  /** A writer holds the lock alone. */
  ghost predicate Exclusive(s: Lock) {
    s.writer ==> s.readers == 0
  }

  /** No wakeup is lost: while the lock is free, nobody sleeps unless an awake writer is about to take it. */
  ghost predicate NoneForgotten(s: Lock) {
    !s.writer && s.readers == 0 && Count(s, RSleep) + Count(s, WSleep) > 0 ==> Count(s, WAwake) > 0
  }

  ghost predicate Inv(s: Lock) {
    Counted(s) && Exclusive(s) && NoneForgotten(s)
  }

  lemma NewLockInv(threads: set<nat>)
    ensures Inv(NewLock(threads))
  {
    var s := NewLock(threads);
    forall p | p != Idle ensures Count(s, p) == 0 {
      assert In(s, p) == {};
    }
  }

  // ---------- how the phases are counted ----------

  ghost function Placed(s: Lock, t: nat, p: Phase): Lock {
    s.(phase := s.phase[t := p])
  }

  lemma PlacedGain(s: Lock, t: nat, p: Phase)
    requires t in s.phase && s.phase[t] != p
    ensures Count(Placed(s, t, p), p) == Count(s, p) + 1
  {
    assert In(Placed(s, t, p), p) == In(s, p) + {t};
  }

  lemma PlacedLoss(s: Lock, t: nat, p: Phase)
    requires t in s.phase && s.phase[t] != p
    ensures Count(Placed(s, t, p), s.phase[t]) == Count(s, s.phase[t]) - 1
  {
    assert In(Placed(s, t, p), s.phase[t]) == In(s, s.phase[t]) - {t};
  }

  lemma PlacedKeep(s: Lock, t: nat, p: Phase, q: Phase)
    requires t in s.phase && q != p && q != s.phase[t]
    ensures Count(Placed(s, t, p), q) == Count(s, q)
  {
    assert In(Placed(s, t, p), q) == In(s, q);
  }

  lemma PlacedCounts(s: Lock, t: nat, p: Phase)
    requires t in s.phase && s.phase[t] != p
    ensures Count(Placed(s, t, p), s.phase[t]) == Count(s, s.phase[t]) - 1
    ensures Count(Placed(s, t, p), p) == Count(s, p) + 1
    ensures forall q :: q != p && q != s.phase[t] ==> Count(Placed(s, t, p), q) == Count(s, q)
    ensures Placed(s, t, p).phase.Keys == s.phase.Keys
  {
    hide Count;
    PlacedGain(s, t, p);
    PlacedLoss(s, t, p);
    forall q | q != p && q != s.phase[t] {
      PlacedKeep(s, t, p, q);
    }
  }

  lemma NobodyAsleep(s: Lock, q: Phase)
    requires q == RSleep || q == WSleep
    ensures Count(NotifyAll(s), q) == 0
  {
    assert In(NotifyAll(s), q) == {};
  }

  /** Sleepers join their awake counterparts. */
  lemma AwakeJoined(s: Lock, awake: Phase, asleep: Phase)
    requires (awake, asleep) == (RAwake, RSleep) || (awake, asleep) == (WAwake, WSleep)
    ensures Count(NotifyAll(s), awake) == Count(s, awake) + Count(s, asleep)
  {
    assert In(NotifyAll(s), awake) == In(s, awake) + In(s, asleep);
    assert In(s, awake) !! In(s, asleep);
  }

  lemma OthersStay(s: Lock, q: Phase)
    requires q == Reading || q == Writing || q == Idle
    ensures Count(NotifyAll(s), q) == Count(s, q)
  {
    assert In(NotifyAll(s), q) == In(s, q);
  }

  lemma NotifiedCounts(s: Lock)
    ensures var s' := NotifyAll(s);
            && Count(s', RSleep) == 0 && Count(s', WSleep) == 0
            && Count(s', RAwake) == Count(s, RAwake) + Count(s, RSleep)
            && Count(s', WAwake) == Count(s, WAwake) + Count(s, WSleep)
            && Count(s', Reading) == Count(s, Reading) && Count(s', Writing) == Count(s, Writing) && Count(s', Idle) == Count(s, Idle)
            && s'.phase.Keys == s.phase.Keys
  {
    hide Count;
    NobodyAsleep(s, RSleep);
    NobodyAsleep(s, WSleep);
    AwakeJoined(s, RAwake, RSleep);
    AwakeJoined(s, WAwake, WSleep);
    OthersStay(s, Reading);
    OthersStay(s, Writing);
    OthersStay(s, Idle);
  }

  lemma SomeoneIn(s: Lock, p: Phase)
    ensures Count(s, p) > 0 <==> exists t :: t in s.phase && s.phase[t] == p
  {
    if Count(s, p) > 0 {
      var t :| t in In(s, p);
    }
    if t :| t in s.phase && s.phase[t] == p {
      assert t in In(s, p);
    }
  }

  /** Phase counts depend on the phases alone. */
  lemma SameCounts(s: Lock, s': Lock)
    requires s'.phase == s.phase
    ensures forall q :: Count(s', q) == Count(s, q)
  {
    forall q ensures Count(s', q) == Count(s, q) {
      assert In(s', q) == In(s, q);
    }
  }

  // ---------- every step keeps the invariant ----------

  lemma TryReadKeeps(s: Lock, t: nat)
    requires Inv(s) && t in s.phase && (s.phase[t] == Idle || s.phase[t] == RAwake)
    ensures Inv(TryRead(s, t))
  {
    PlacedCounts(s, t, RSleep);
    PlacedCounts(s, t, Reading);
    SameCounts(Placed(s, t, Reading), TryRead(s, t).(phase := Placed(s, t, Reading).phase));
    hide Count;
  }

  /** The writer's test, for a new arrival or an awake waiter. */
  lemma TryWriteKeeps(s: Lock, t: nat, announced: Lock)
    requires Inv(s) && t in s.phase
    requires (s.phase[t] == Idle && announced == s.(waiting := s.waiting + 1)) || (s.phase[t] == WAwake && announced == s)
    ensures Inv(TryWrite(announced, t))
  {
    var s' := TryWrite(announced, t);
    PlacedCounts(s, t, WSleep);
    PlacedCounts(s, t, Writing);
    if announced.writer || announced.readers > 0 {
      SameCounts(Placed(s, t, WSleep), s');
    } else {
      SameCounts(Placed(s, t, Writing), s');
    }
    hide Count;
  }

  lemma EndReadKeeps(s: Lock, t: nat)
    requires Inv(s) && t in s.phase && s.phase[t] == Reading
    ensures Inv(EndRead(s, t))
  {
    var s1 := s.(readers := s.readers - 1, phase := s.phase[t := Idle]);
    PlacedCounts(s, t, Idle);
    SameCounts(Placed(s, t, Idle), s1);
    NotifiedCounts(s1);
    hide Count;
  }

  lemma EndWriteKeeps(s: Lock, t: nat)
    requires Inv(s) && t in s.phase && s.phase[t] == Writing
    ensures Inv(EndWrite(s, t))
  {
    var s1 := s.(writer := false, phase := s.phase[t := Idle]);
    PlacedCounts(s, t, Idle);
    SameCounts(Placed(s, t, Idle), s1);
    NotifiedCounts(s1);
    hide Count;
  }

  /** Every step of every thread keeps the lock's invariant. */
  lemma StepKeepsInv(s: Lock, t: nat, s': Lock)
    requires Inv(s) && Step(s, t, s')
    ensures Inv(s') && s'.phase.Keys == s.phase.Keys
  {
    hide Inv;
    match s.phase[t]
    case Idle =>
      TryReadKeeps(s, t);
      TryWriteKeeps(s, t, s.(waiting := s.waiting + 1));
    case RAwake => TryReadKeeps(s, t);
    case WAwake => TryWriteKeeps(s, t, s);
    case Reading => EndReadKeeps(s, t);
    case Writing => EndWriteKeeps(s, t);
    case _ =>
  }

  // ---------- runs ----------

  ghost predicate Run(states: seq<Lock>, threads: seq<nat>) {
    && |states| == |threads| + 1
    && forall i :: 0 <= i < |threads| ==> Step(states[i], threads[i], states[i + 1])
  }

  lemma {:induction false} RunKeepsInv(states: seq<Lock>, threads: seq<nat>, i: nat)
    requires Run(states, threads) && Inv(states[0]) && i < |states|
    ensures Inv(states[i]) && states[i].phase.Keys == states[0].phase.Keys
  {
    hide Inv, Step;
    if i > 0 {
      RunKeepsInv(states, threads, i - 1);
      StepKeepsInv(states[i - 1], threads[i - 1], states[i]);
    }
  }

  /** Mutual exclusion in every interleaving: a writer never coexists with another writer or with a reader. */
  lemma WriterAlone(states: seq<Lock>, threads: seq<nat>, i: nat, t: nat, u: nat)
    requires Run(states, threads) && Inv(states[0]) && i < |states|
    requires t in states[i].phase && u in states[i].phase && t != u && states[i].phase[t] == Writing
    ensures states[i].phase[u] != Writing && states[i].phase[u] != Reading
  {
    RunKeepsInv(states, threads, i);
    Alone(states[i], t, u);
  }

  lemma Alone(s: Lock, t: nat, u: nat)
    requires Inv(s) && t in s.phase && u in s.phase && t != u && s.phase[t] == Writing
    ensures s.phase[u] != Writing && s.phase[u] != Reading && s.writer
  {
    assert t in In(s, Writing);
    SubsetSize({t}, In(s, Writing));
    assert s.phase[u] == Writing ==> u in In(s, Writing);
    assert s.phase[u] == Reading ==> u in In(s, Reading);
  }

  // ---------- writer preference ----------

  /** While a writer waits, no reader gets in. */
  lemma NoReaderOvertakes(s: Lock, t: nat, s': Lock, u: nat)
    requires s.waiting > 0 && Step(s, t, s') && u in s'.phase && s'.phase[u] == Reading
    ensures u in s.phase && s.phase[u] == Reading
  {
  }

  /** How many more steps can pass before a writer must have entered. */
  ghost function Rank(s: Lock): int {
    s.readers * (|s.phase| + 1) + Count(s, Idle) + Count(s, RAwake) + Count(s, WAwake)
  }

  lemma FewUnsettled(s: Lock)
    ensures Count(s, Idle) + Count(s, RAwake) + Count(s, WAwake) <= |s.phase|
  {
    var A, B, C := In(s, Idle), In(s, RAwake), In(s, WAwake);
    assert A !! B && (A + B) !! C;
    assert |A + B + C| == |A| + |B| + |C|;
    SubsetSize(A + B + C, s.phase.Keys);
  }

  lemma SameThreads(s: Lock, s': Lock)
    requires s'.phase.Keys == s.phase.Keys
    ensures |s'.phase| == |s.phase|
  {
    assert |s'.phase.Keys| == |s.phase.Keys|;
  }

  /** With a writer waiting and none active, every step either lets a writer in or uses up rank. */
  lemma RankFalls(s: Lock, t: nat, s': Lock)
    requires Inv(s) && Inv(s') && Step(s, t, s') && s.waiting > 0 && !s.writer && !s'.writer
    ensures Rank(s') < Rank(s) && s'.waiting > 0
  {
    match s.phase[t]
    case Reading => EndReadRank(s, t);
    case Writing => SomeoneIn(s, Writing);
    case Idle =>
      SettledRank(s, t, RSleep, s.(phase := s.phase[t := RSleep]));
      SettledRank(s, t, WSleep, s.(waiting := s.waiting + 1, phase := s.phase[t := WSleep]));
    case RAwake => SettledRank(s, t, RSleep, s.(phase := s.phase[t := RSleep]));
    case WAwake => SettledRank(s, t, WSleep, s.(phase := s.phase[t := WSleep]));
    case _ =>
  }

  lemma SettledRank(s: Lock, t: nat, p: Phase, s': Lock)
    requires t in s.phase && (s.phase[t] == Idle || s.phase[t] == RAwake || s.phase[t] == WAwake) && (p == RSleep || p == WSleep)
    requires s'.phase == s.phase[t := p] && s'.readers == s.readers
    ensures Rank(s') < Rank(s)
  {
    PlacedCounts(s, t, p);
    SameCounts(Placed(s, t, p), s');
    SameThreads(s, s');
    hide Count;
  }

  lemma EndReadRank(s: Lock, t: nat)
    requires Inv(s) && t in s.phase && s.phase[t] == Reading
    ensures Rank(EndRead(s, t)) < Rank(s)
  {
    hide Count, EndRead, Inv;
    var s' := EndRead(s, t);
    EndReadFields(s, t);
    SameThreads(s, s');
    FewUnsettled(s');
    OneReaderLess(s.readers, |s.phase| + 1);
  }

  lemma EndReadFields(s: Lock, t: nat)
    requires t in s.phase
    ensures EndRead(s, t).readers == s.readers - 1 && EndRead(s, t).phase.Keys == s.phase.Keys
  {
  }

  lemma OneReaderLess(r: int, n: nat)
    ensures (r - 1) * n == r * n - n
  {
  }

  /** Under any scheduling whatever, a waiting writer is kept out for a bounded number of steps: a stretch of a
      run with a writer waiting and none inside is no longer than its initial rank. */
  lemma {:induction false} WriterWaitsBoundedly(states: seq<Lock>, threads: seq<nat>)
    requires Run(states, threads) && Inv(states[0]) && states[0].waiting > 0
    requires forall i :: 0 <= i < |states| ==> !states[i].writer
    ensures |threads| <= Rank(states[0])
    decreases |threads|
  {
    RankNatural(states[0]);
    hide Inv, Rank, Step;
    if threads != [] {
      assert Step(states[0], threads[0], states[1]);
      StepKeepsInv(states[0], threads[0], states[1]);
      RankFalls(states[0], threads[0], states[1]);
      WriterWaitsBoundedly(states[1..], threads[1..]);
    }
  }

  lemma RankNatural(s: Lock)
    requires Inv(s)
    ensures Rank(s) >= 0
  {
    assert s.readers * (|s.phase| + 1) >= 0;
  }

  /** Nor can a run get stuck first: while any thread sleeps, some thread inside or awake can step. */
  lemma SomeoneCanStep(s: Lock) returns (t: nat, s': Lock)
    requires Inv(s) && Count(s, RSleep) + Count(s, WSleep) > 0
    ensures Step(s, t, s') && s.phase[t] != Idle
  {
    if s.writer {
      SomeoneIn(s, Writing);
      t :| t in s.phase && s.phase[t] == Writing;
      s' := EndWrite(s, t);
    } else if s.readers > 0 {
      SomeoneIn(s, Reading);
      t :| t in s.phase && s.phase[t] == Reading;
      s' := EndRead(s, t);
    } else {
      SomeoneIn(s, WAwake);
      t :| t in s.phase && s.phase[t] == WAwake;
      s' := TryWrite(s, t);
    }
  }

  /** When the lock is free, the next step of any awake waiting writer takes it. */
  lemma AwakeWriterEnters(s: Lock, t: nat, s': Lock)
    requires !s.writer && s.readers == 0 && t in s.phase && s.phase[t] == WAwake && Step(s, t, s')
    ensures s'.writer && s'.phase[t] == Writing
  {
  }

  // ---------- who gets in ----------

  /** A reader is kept out only by a writer, inside or waiting: after its test it is in, and counted, or asleep. */
  lemma ReaderGate(s: Lock, t: nat, s': Lock)
    requires Step(s, t, s') && (s.phase[t] == RAwake || (s.phase[t] == Idle && t in s'.phase && s'.phase[t] in {RSleep, Reading}))
    ensures t in s'.phase && s'.phase == s.phase[t := s'.phase[t]]
    ensures !s.writer && s.waiting <= 0 ==> s'.phase[t] == Reading && s'.readers == s.readers + 1
    ensures s.writer || s.waiting > 0 ==> s'.phase[t] == RSleep && s'.readers == s.readers
  {
  }

  /** A thread that goes to sleep as a reader found a writer inside or waiting. */
  lemma ReaderSleepsOnlyForWriter(s: Lock, t: nat, s': Lock)
    requires Step(s, t, s') && t in s'.phase && s'.phase[t] == RSleep
    ensures s.writer || s.waiting > 0
  {
  }

  /** A writer is kept out exactly by someone inside. */
  lemma WriterGate(s: Lock, t: nat, s': Lock)
    requires Step(s, t, s') && (s.phase[t] == WAwake || (s.phase[t] == Idle && t in s'.phase && s'.phase[t] in {WSleep, Writing}))
    ensures t in s'.phase && s'.phase == s.phase[t := s'.phase[t]] && s'.readers == s.readers
    ensures !s.writer && s.readers <= 0 ==> s'.phase[t] == Writing && s'.writer
    ensures s.writer || s.readers > 0 ==> s'.phase[t] == WSleep && s'.writer == s.writer
  {
  }

  /** With no writer inside or waiting, an idle thread can enter as a reader, whoever else is reading. */
  lemma ReaderCanEnter(s: Lock, t: nat) returns (s': Lock)
    requires t in s.phase && s.phase[t] == Idle && !s.writer && s.waiting == 0
    ensures Step(s, t, s') && s'.phase == s.phase[t := Reading] && s'.readers == s.readers + 1 && !s'.writer && s'.waiting == 0
  {
    s' := TryRead(s, t);
  }

  /** An idle thread can arrive as a reader or as a writer at any time. */
  lemma ArrivalIsFree(s: Lock, t: nat) returns (asReader: Lock, asWriter: Lock)
    requires t in s.phase && s.phase[t] == Idle
    ensures Step(s, t, asReader) && asReader.phase == s.phase[t := if s.writer || s.waiting > 0 then RSleep else Reading]
    ensures Step(s, t, asWriter) && asWriter.phase == s.phase[t := if s.writer || s.readers > 0 then WSleep else Writing]
    ensures asWriter.phase[t] == WSleep ==> asWriter.waiting == s.waiting + 1
  {
    asReader, asWriter := TryRead(s, t), TryWrite(s.(waiting := s.waiting + 1), t);
  }

  /** Leaving wakes everyone when it frees the lock, and otherwise no one. */
  lemma LeavingWakes(s: Lock, t: nat, s': Lock, u: nat)
    requires Step(s, t, s') && u in s.phase && u != t
    ensures s.phase[t] == Writing || (s.phase[t] == Reading && s.readers == 1) ==>
              u in s'.phase && s'.phase[u] == match s.phase[u] case RSleep => RAwake case WSleep => WAwake case p => p
    ensures !(s.phase[t] == Writing || (s.phase[t] == Reading && s.readers == 1)) ==> u in s'.phase && s'.phase[u] == s.phase[u]
  {
  }

  ghost predicate AllReading(s: Lock, T: set<nat>) {
    T <= s.phase.Keys && forall t :: t in s.phase ==> s.phase[t] == if t in T then Reading else Idle
  }

  /** Any number of searches run at once: some run brings all threads into their read sections together. */
  lemma {:induction false} AllCanRead(threads: set<nat>, T: set<nat>) returns (states: seq<Lock>, who: seq<nat>)
    requires T <= threads
    ensures Run(states, who) && states[0] == NewLock(threads)
    ensures var s := states[|states| - 1]; AllReading(s, T) && s.readers == |T| && !s.writer && s.waiting == 0 && s.phase.Keys == threads
  {
    if T == {} {
      states, who := [NewLock(threads)], [];
    } else {
      var t :| t in T;
      var front, tids := AllCanRead(threads, T - {t});
      var s := front[|front| - 1];
      var s' := ReaderCanEnter(s, t);
      states, who := front + [s'], tids + [t];
      OneMoreStep(front, tids, t, s');
      assert |T| == |T - {t}| + 1;
    }
  }

  lemma OneMoreStep(states: seq<Lock>, who: seq<nat>, t: nat, s': Lock)
    requires Run(states, who) && Step(states[|states| - 1], t, s')
    ensures Run(states + [s'], who + [t])
  {
    hide Step;
    var next, tids := states + [s'], who + [t];
    forall i | 0 <= i < |tids| ensures Step(next[i], tids[i], next[i + 1]) {
      assert i < |who| ==> Step(states[i], who[i], states[i + 1]);
    }
  }
}
