/** Searches, inserts and deletes interleaved under the lock, one small read or update at a time. */
module Isolation {
  import opened RWLock

  // A thread inside a read section takes micro-steps of `read` on its own state, given the shared data; a thread
  // inside a write section takes micro-steps of `write`, which may also change the data in place. A section starts
  // in a state that asks for it and may be left only when it is done. The trace of a section records, after each
  // micro-step, the thread's state and the data as it saw them; the log has the traces in the order sections left.

  datatype Prog<!L, !D> = Prog(asksRead: L -> bool, asksWrite: L -> bool, read: (L, D, L) -> bool, write: (L, D, L, D) -> bool, done: L -> bool)

  datatype Section<L, D> = Section(writing: bool, trace: seq<(L, D)>)

  datatype Sys<L, D> = Sys(lock: Lock, data: D, run: map<nat, seq<(L, D)>>, log: seq<Section<L, D>>)

  // ---------- sections run alone ----------

  ghost predicate Reads<L, D>(p: Prog<L, D>, d: D, trace: seq<(L, D)>, i: nat) {
    i + 1 < |trace| && p.read(trace[i].0, d, trace[i + 1].0)
  }

  /** A read section, or the beginning of one, that saw nothing but `d`. */
  ghost predicate ReadAlone<L, D>(p: Prog<L, D>, d: D, trace: seq<(L, D)>) {
    && |trace| > 0 && p.asksRead(trace[0].0)
    && (forall i: nat :: i < |trace| ==> trace[i].1 == d)
    && forall i: nat :: i + 1 < |trace| ==> Reads(p, d, trace, i)
  }

  ghost predicate Writes<L, D>(p: Prog<L, D>, trace: seq<(L, D)>, i: nat) {
    i + 1 < |trace| && p.write(trace[i].0, trace[i].1, trace[i + 1].0, trace[i + 1].1)
  }

  /** A write section, or the beginning of one, that started on `d` and saw only its own changes. */
  ghost predicate WriteAlone<L, D>(p: Prog<L, D>, d: D, trace: seq<(L, D)>) {
    && |trace| > 0 && p.asksWrite(trace[0].0) && trace[0].1 == d
    && forall i: nat :: i + 1 < |trace| ==> Writes(p, trace, i)
  }

  ghost predicate Complete<L, D>(p: Prog<L, D>, trace: seq<(L, D)>) {
    |trace| > 0 && p.done(trace[|trace| - 1].0)
  }

  /** The data after running the logged sections one after the other. */
  function Replay<L, D>(d0: D, log: seq<Section<L, D>>): D {
    if log == [] then d0 else
    var last := log[|log| - 1];
    if last.writing && |last.trace| > 0 then last.trace[|last.trace| - 1].1 else Replay(d0, log[..|log| - 1])
  }

  /** Section `i` ran to its end exactly as it would alone on the data the earlier ones left. */
  ghost predicate RanAlone<L, D>(p: Prog<L, D>, d0: D, log: seq<Section<L, D>>, i: nat) {
    && i < |log| && Complete(p, log[i].trace)
    && if log[i].writing then WriteAlone(p, Replay(d0, log[..i]), log[i].trace) else ReadAlone(p, Replay(d0, log[..i]), log[i].trace)
  }

  ghost predicate Sequential<L, D>(p: Prog<L, D>, d0: D, log: seq<Section<L, D>>) {
    forall i: nat :: i < |log| ==> RanAlone(p, d0, log, i)
  }

  // ---------- the interleaved system ----------

  ghost predicate Inside<L, D>(s: Sys<L, D>, t: nat, ph: Phase) {
    t in s.lock.phase && s.lock.phase[t] == ph
  }

  ghost predicate Leaves<L, D>(p: Prog<L, D>, s: Sys<L, D>, t: nat, s': Sys<L, D>) {
    && t in s.run && Complete(p, s.run[t])
    && s'.run == s.run - {t} && s'.log == s.log + [Section(Inside(s, t, Writing), s.run[t])]
  }

  ghost predicate Enters<L, D>(p: Prog<L, D>, s: Sys<L, D>, t: nat, s': Sys<L, D>) {
    && s'.log == s.log
    && if Inside(s', t, Reading) || Inside(s', t, Writing) then
         && t in s'.run && s'.run == s.run[t := s'.run[t]] && |s'.run[t]| == 1 && s'.run[t][0].1 == s.data
         && if Inside(s', t, Reading) then p.asksRead(s'.run[t][0].0) else p.asksWrite(s'.run[t][0].0)
       else s'.run == s.run
  }

  /** A thread takes a step of the lock; entering a section starts its trace, leaving logs it. */
  ghost predicate LockStep<L, D>(p: Prog<L, D>, s: Sys<L, D>, t: nat, s': Sys<L, D>) {
    && Step(s.lock, t, s'.lock) && s'.data == s.data && t in s'.lock.phase
    && if Inside(s, t, Reading) || Inside(s, t, Writing) then Leaves(p, s, t, s') else Enters(p, s, t, s')
  }

  ghost predicate ReadStep<L, D>(p: Prog<L, D>, s: Sys<L, D>, t: nat, l: L, s': Sys<L, D>) {
    && Inside(s, t, Reading) && t in s.run && |s.run[t]| > 0
    && p.read(s.run[t][|s.run[t]| - 1].0, s.data, l)
    && s' == s.(run := s.run[t := s.run[t] + [(l, s.data)]])
  }

  ghost predicate WriteStep<L, D>(p: Prog<L, D>, s: Sys<L, D>, t: nat, l: L, d: D, s': Sys<L, D>) {
    && Inside(s, t, Writing) && t in s.run && |s.run[t]| > 0
    && p.write(s.run[t][|s.run[t]| - 1].0, s.data, l, d)
    && s' == s.(data := d, run := s.run[t := s.run[t] + [(l, d)]])
  }

  ghost predicate Next<L(!new), D(!new)>(p: Prog<L, D>, s: Sys<L, D>, t: nat, s': Sys<L, D>) {
    LockStep(p, s, t, s') || (exists l :: ReadStep(p, s, t, l, s')) || exists l, d :: WriteStep(p, s, t, l, d, s')
  }

  // ---------- the invariant ----------

  ghost predicate ReaderOk<L, D>(p: Prog<L, D>, s: Sys<L, D>, t: nat) {
    t in s.run && ReadAlone(p, s.data, s.run[t])
  }

  ghost predicate WriterOk<L, D>(p: Prog<L, D>, d0: D, s: Sys<L, D>, t: nat) {
    t in s.run && WriteAlone(p, Replay(d0, s.log), s.run[t]) && s.run[t][|s.run[t]| - 1].1 == s.data
  }

  ghost predicate Isolated<L(!new), D(!new)>(p: Prog<L, D>, d0: D, s: Sys<L, D>) {
    && Inv(s.lock)
    && Sequential(p, d0, s.log)
    && (!s.lock.writer ==> s.data == Replay(d0, s.log))
    && (forall t :: Inside(s, t, Reading) ==> ReaderOk(p, s, t))
    && forall t :: Inside(s, t, Writing) ==> WriterOk(p, d0, s, t)
  }

  lemma ReadOneMore<L, D>(p: Prog<L, D>, d: D, trace: seq<(L, D)>, l: L)
    requires ReadAlone(p, d, trace) && p.read(trace[|trace| - 1].0, d, l)
    ensures ReadAlone(p, d, trace + [(l, d)])
  {
    var next := trace + [(l, d)];
    forall i: nat | i + 1 < |next| ensures Reads(p, d, next, i) {
      assert i + 1 < |trace| ==> Reads(p, d, trace, i);
    }
  }

  lemma WriteOneMore<L, D>(p: Prog<L, D>, d: D, trace: seq<(L, D)>, l: L, d': D)
    requires WriteAlone(p, d, trace) && p.write(trace[|trace| - 1].0, trace[|trace| - 1].1, l, d')
    ensures WriteAlone(p, d, trace + [(l, d')])
  {
    var next := trace + [(l, d')];
    forall i: nat | i + 1 < |next| ensures Writes(p, next, i) {
      assert i + 1 < |trace| ==> Writes(p, trace, i);
    }
  }

  lemma LogOneMore<L, D>(p: Prog<L, D>, d0: D, log: seq<Section<L, D>>, c: Section<L, D>)
    requires Sequential(p, d0, log) && Complete(p, c.trace)
    requires if c.writing then WriteAlone(p, Replay(d0, log), c.trace) else ReadAlone(p, Replay(d0, log), c.trace)
    ensures Sequential(p, d0, log + [c])
  {
    hide ReadAlone, WriteAlone, Complete, Replay;
    var next := log + [c];
    forall i: nat | i < |next| ensures RanAlone(p, d0, next, i) {
      assert i <= |log| && next[..i] == log[..i];
      assert log[..|log|] == log;
      assert i < |log| ==> RanAlone(p, d0, log, i);
    }
  }

  lemma ReadKeeps<L(!new), D(!new)>(p: Prog<L, D>, d0: D, s: Sys<L, D>, t: nat, l: L, s': Sys<L, D>)
    requires Isolated(p, d0, s) && ReadStep(p, s, t, l, s')
    ensures Isolated(p, d0, s')
  {
    NoWriterBeside(s, t);
    assert ReaderOk(p, s, t);
    hide Inv, Replay, Sequential, WriteAlone, ReadAlone;
    forall u ensures !Inside(s', u, Writing) {
      assert !Inside(s, u, Writing);
    }
    forall u | Inside(s', u, Reading) ensures ReaderOk(p, s', u) {
      assert Inside(s, u, Reading) && ReaderOk(p, s, u);
      if u == t {
        ReadOneMore(p, s.data, s.run[t], l);
      }
    }
  }

  lemma NoWriterBeside<L, D>(s: Sys<L, D>, t: nat)
    requires Inv(s.lock) && Inside(s, t, Reading)
    ensures !s.lock.writer && forall u :: !Inside(s, u, Writing)
  {
    forall u ensures !Inside(s, u, Writing) {
      if Inside(s, u, Writing) && u != t {
        Alone(s.lock, u, t);
      }
    }
    SomeoneIn(s.lock, Reading);
    hide Count;
  }

  lemma NobodyBeside<L, D>(s: Sys<L, D>, t: nat)
    requires Inv(s.lock) && Inside(s, t, Writing)
    ensures s.lock.writer && forall u :: (Inside(s, u, Writing) ==> u == t) && !Inside(s, u, Reading)
  {
    SomeoneIn(s.lock, Writing);
    forall u ensures (Inside(s, u, Writing) ==> u == t) && !Inside(s, u, Reading) {
      if u != t && u in s.lock.phase {
        Alone(s.lock, t, u);
      }
    }
  }

  lemma WriteKeeps<L(!new), D(!new)>(p: Prog<L, D>, d0: D, s: Sys<L, D>, t: nat, l: L, d: D, s': Sys<L, D>)
    requires Isolated(p, d0, s) && WriteStep(p, s, t, l, d, s')
    ensures Isolated(p, d0, s')
  {
    NobodyBeside(s, t);
    assert WriterOk(p, d0, s, t);
    WriteOneMore(p, Replay(d0, s.log), s.run[t], l, d);
    hide Inv, Replay, Sequential, ReadAlone, WriteAlone;
    forall u | Inside(s', u, Writing) ensures WriterOk(p, d0, s', u) {
      assert Inside(s, u, Writing);
    }
    forall u ensures !Inside(s', u, Reading) {
      assert !Inside(s, u, Reading);
    }
  }

  /** Leaving a read section logs what it computed; the replayed data stay the same. */
  lemma LeaveReadKeeps<L(!new), D(!new)>(p: Prog<L, D>, d0: D, s: Sys<L, D>, t: nat, s': Sys<L, D>)
    requires Isolated(p, d0, s) && LockStep(p, s, t, s') && Inside(s, t, Reading)
    ensures Isolated(p, d0, s')
  {
    StepKeepsInv(s.lock, t, s'.lock);
    NoWriterBeside(s, t);
    OthersHold(s, t, s');
    assert ReaderOk(p, s, t) && !Inside(s, t, Writing);
    LogOneMore(p, d0, s.log, Section(false, s.run[t]));
    assert s'.log[..|s'.log| - 1] == s.log;
    assert Replay(d0, s'.log) == Replay(d0, s.log);
    hide Inv, Step, ReadAlone, WriteAlone, Complete, Sequential, Replay;
    forall u | Inside(s', u, Reading) ensures ReaderOk(p, s', u) {
      assert Inside(s, u, Reading) && ReaderOk(p, s, u);
    }
  }

  lemma LeaveWriteKeeps<L(!new), D(!new)>(p: Prog<L, D>, d0: D, s: Sys<L, D>, t: nat, s': Sys<L, D>)
    requires Isolated(p, d0, s) && LockStep(p, s, t, s') && Inside(s, t, Writing)
    ensures Isolated(p, d0, s')
  {
    StepKeepsInv(s.lock, t, s'.lock);
    NobodyBeside(s, t);
    OthersHold(s, t, s');
    assert WriterOk(p, d0, s, t);
    LogOneMore(p, d0, s.log, Section(true, s.run[t]));
    hide Inv, Step, ReadAlone, WriteAlone, Complete, Sequential;
    forall u ensures !Inside(s', u, Reading) && !Inside(s', u, Writing) {
      assert !Inside(s, u, Reading) && (Inside(s, u, Writing) ==> u == t);
    }
  }

  /** A step of one thread moves no other thread in or out of a section; a leaving thread is out. */
  lemma OthersHold<L, D>(s: Sys<L, D>, t: nat, s': Sys<L, D>)
    requires Inv(s.lock) && Step(s.lock, t, s'.lock)
    ensures forall u :: u != t ==> (Inside(s', u, Reading) <==> Inside(s, u, Reading)) && (Inside(s', u, Writing) <==> Inside(s, u, Writing))
    ensures Inside(s, t, Reading) ==> !Inside(s', t, Reading) && !Inside(s', t, Writing) && s'.lock.writer == s.lock.writer
    ensures Inside(s, t, Writing) ==> !Inside(s', t, Reading) && !Inside(s', t, Writing) && !s'.lock.writer
    ensures s'.lock.writer && !s.lock.writer ==> Inside(s', t, Writing)
    ensures !Inside(s, t, Writing) && s.lock.writer ==> s'.lock.writer
  {
    hide Inv;
  }

  lemma EnterKeeps<L(!new), D(!new)>(p: Prog<L, D>, d0: D, s: Sys<L, D>, t: nat, s': Sys<L, D>)
    requires Isolated(p, d0, s) && LockStep(p, s, t, s') && !Inside(s, t, Reading) && !Inside(s, t, Writing)
    ensures Isolated(p, d0, s')
  {
    StepKeepsInv(s.lock, t, s'.lock);
    OthersHold(s, t, s');
    if Inside(s', t, Reading) { NoWriterBeside(s', t); }
    if Inside(s', t, Writing) { EntersFree(s, t, s'); }
    hide Inv, Step, Replay, Sequential, Complete;
    forall u | Inside(s', u, Reading) ensures ReaderOk(p, s', u) {
      if u != t {
        assert Inside(s, u, Reading) && ReaderOk(p, s, u);
      }
    }
    forall u | Inside(s', u, Writing) ensures WriterOk(p, d0, s', u) {
      if u != t {
        assert Inside(s, u, Writing) && WriterOk(p, d0, s, u);
      }
    }
  }

  lemma EntersFree<L, D>(s: Sys<L, D>, t: nat, s': Sys<L, D>)
    requires Step(s.lock, t, s'.lock) && !Inside(s, t, Writing) && Inside(s', t, Writing)
    ensures !s.lock.writer
  {
  }

  lemma NextKeeps<L(!new), D(!new)>(p: Prog<L, D>, d0: D, s: Sys<L, D>, t: nat, s': Sys<L, D>)
    requires Isolated(p, d0, s) && Next(p, s, t, s')
    ensures Isolated(p, d0, s')
  {
    hide Isolated, LockStep, ReadStep, WriteStep;
    if LockStep(p, s, t, s') {
      if Inside(s, t, Reading) {
        LeaveReadKeeps(p, d0, s, t, s');
      } else if Inside(s, t, Writing) {
        LeaveWriteKeeps(p, d0, s, t, s');
      } else {
        EnterKeeps(p, d0, s, t, s');
      }
    } else if l :| ReadStep(p, s, t, l, s') {
      ReadKeeps(p, d0, s, t, l, s');
    } else {
      var l, d :| WriteStep(p, s, t, l, d, s');
      WriteKeeps(p, d0, s, t, l, d, s');
    }
  }

  // ---------- whole runs ----------

  ghost predicate SysRun<L(!new), D(!new)>(p: Prog<L, D>, d0: D, threads: set<nat>, states: seq<Sys<L, D>>, who: seq<nat>) {
    && |states| == |who| + 1
    && states[0] == Sys(NewLock(threads), d0, map[], [])
    && forall i :: 0 <= i < |who| ==> Next(p, states[i], who[i], states[i + 1])
  }

  lemma InitiallyIsolated<L(!new), D(!new)>(p: Prog<L, D>, d0: D, threads: set<nat>)
    ensures Isolated(p, d0, Sys(NewLock(threads), d0, map[], []))
  {
    NewLockInv(threads);
    hide Inv;
  }

  lemma {:induction false} RunIsolated<L(!new), D(!new)>(p: Prog<L, D>, d0: D, threads: set<nat>, states: seq<Sys<L, D>>, who: seq<nat>, i: nat)
    requires SysRun(p, d0, threads, states, who) && i < |states|
    ensures Isolated(p, d0, states[i])
  {
    hide Isolated, Next;
    if i == 0 {
      InitiallyIsolated(p, d0, threads);
    } else {
      RunIsolated(p, d0, threads, states, who, i - 1);
      NextKeeps(p, d0, states[i - 1], who[i - 1], states[i]);
    }
  }

  /** Snapshot isolation and serialisability: in every interleaving, every finished section ran exactly as it would
      alone, one after the other in the order they left, a read section on one unchanged value; and the data are the
      outcome of that sequence whenever no writer is inside. */
  lemma Serialisable<L(!new), D(!new)>(p: Prog<L, D>, d0: D, threads: set<nat>, states: seq<Sys<L, D>>, who: seq<nat>, i: nat)
    requires SysRun(p, d0, threads, states, who) && i < |states|
    ensures Sequential(p, d0, states[i].log)
    ensures !states[i].lock.writer ==> states[i].data == Replay(d0, states[i].log)
  {
    RunIsolated(p, d0, threads, states, who, i);
  }

  /** A read section in progress has seen one value of the data from its start, which is their present value. */
  lemma ReaderSeesOneValue<L(!new), D(!new)>(p: Prog<L, D>, d0: D, threads: set<nat>, states: seq<Sys<L, D>>, who: seq<nat>, i: nat, t: nat)
    requires SysRun(p, d0, threads, states, who) && i < |states| && Inside(states[i], t, Reading)
    ensures t in states[i].run && forall j: nat :: j < |states[i].run[t]| ==> states[i].run[t][j].1 == states[i].data
  {
    RunIsolated(p, d0, threads, states, who, i);
    assert ReaderOk(p, states[i], t);
  }
}
