/** The index under its lock: every interleaving of searches, inserts and deletes is some sequential history. */
module Concurrent {
  import opened Types
  import opened Ranked
  import opened Graph
  import opened Answers
  import opened Runs
  import opened Isolation

  datatype Query = Query(q: Vec, k: nat, ef: Option<int>, filter: Option<Filter>)

  /** A program whose sections work on an index: what a section was asked for, and what a search answered. */
  datatype Service<!L> = Service(prog: Prog<L, Index>, op: L -> Op, query: L -> Query, answer: L -> seq<(string, real)>)

  ghost predicate MayAnswer(metric: Metric, d: Index, qu: Query, res: seq<(string, real)>)
    requires Inv(d)
  {
    Searched(metric, d, qu.q, qu.k, qu.ef, qu.filter, res)
  }

  /** Run alone on a sound index, a write section does what its operation may do, and a read section answers what its
      query may be answered. */
  ghost predicate ServesWrites<L(!new)>(metric: Metric, sv: Service<L>) {
    forall d: Index, trace: seq<(L, Index)> :: Inv(d) && WriteAlone(sv.prog, d, trace) && Complete(sv.prog, trace) ==>
      Step(metric, d, sv.op(trace[0].0), trace[|trace| - 1].1)
  }

  ghost predicate ServesReads<L(!new)>(metric: Metric, sv: Service<L>) {
    forall d: Index, trace: seq<(L, Index)> :: Inv(d) && ReadAlone(sv.prog, d, trace) && Complete(sv.prog, trace) ==>
      MayAnswer(metric, d, sv.query(trace[0].0), sv.answer(trace[|trace| - 1].0))
  }

  // ---------- the sequential history in a log ----------

  /** The operations of the write sections, in the order they left. */
  function OpsOf<L>(sv: Service<L>, log: seq<Section<L, Index>>): seq<Op> {
    if log == [] then [] else
    var front, last := OpsOf(sv, log[..|log| - 1]), log[|log| - 1];
    if last.writing && |last.trace| > 0 then front + [sv.op(last.trace[0].0)] else front
  }

  /** The index before and after each of them. */
  function StatesOf<L>(d0: Index, log: seq<Section<L, Index>>): (states: seq<Index>)
    ensures |states| > 0 && states[0] == d0
  {
    if log == [] then [d0] else
    var front, last := StatesOf(d0, log[..|log| - 1]), log[|log| - 1];
    if last.writing && |last.trace| > 0 then front + [last.trace[|last.trace| - 1].1] else front
  }

  lemma {:induction false} StatesMatch<L>(sv: Service<L>, d0: Index, log: seq<Section<L, Index>>)
    ensures |StatesOf(d0, log)| == |OpsOf(sv, log)| + 1 && StatesOf(d0, log)[|OpsOf(sv, log)|] == Replay(d0, log)
  {
    if log != [] {
      StatesMatch(sv, d0, log[..|log| - 1]);
    }
  }

  /** The history of a log begins with the history of each of its beginnings. */
  lemma {:induction false} StatesPrefix<L>(sv: Service<L>, d0: Index, log: seq<Section<L, Index>>, j: nat)
    requires j <= |log|
    ensures StatesOf(d0, log[..j]) <= StatesOf(d0, log) && OpsOf(sv, log[..j]) <= OpsOf(sv, log)
  {
    if j == |log| {
      assert log[..j] == log;
    } else {
      var front := log[..|log| - 1];
      assert front[..j] == log[..j];
      StatesPrefix(sv, d0, front, j);
    }
  }

  lemma SequentialFront<L>(p: Prog<L, Index>, d0: Index, log: seq<Section<L, Index>>)
    requires Sequential(p, d0, log) && log != []
    ensures Sequential(p, d0, log[..|log| - 1]) && RanAlone(p, d0, log, |log| - 1)
  {
    hide WriteAlone, ReadAlone, Complete, Replay;
    var front := log[..|log| - 1];
    forall i: nat | i < |front| ensures RanAlone(p, d0, front, i) {
      assert RanAlone(p, d0, log, i) && front[..i] == log[..i];
    }
  }

  lemma {:induction false} LogIsRun<L(!new)>(metric: Metric, sv: Service<L>, d0: Index, log: seq<Section<L, Index>>)
    requires ServesWrites(metric, sv) && Sequential(sv.prog, d0, log)
    requires 1 <= d0.dim && 2 <= d0.M <= d0.efc && d0 == EmptyIndex(d0.dim, d0.M, d0.efc)
    ensures Run(metric, StatesOf(d0, log), OpsOf(sv, log))
  {
    if log != [] {
      var front, last := log[..|log| - 1], log[|log| - 1];
      SequentialFront(sv.prog, d0, log);
      LogIsRun(metric, sv, d0, front);
      StatesMatch(sv, d0, front);
      var states, ops := StatesOf(d0, front), OpsOf(sv, front);
      if last.writing {
        LastWrite(metric, sv, d0, log);
        RunOneMore(metric, states, ops, sv.op(last.trace[0].0), last.trace[|last.trace| - 1].1);
      } else {
        assert StatesOf(d0, log) == states && OpsOf(sv, log) == ops;
      }
    }
  }

  lemma LastWrite<L(!new)>(metric: Metric, sv: Service<L>, d0: Index, log: seq<Section<L, Index>>)
    requires ServesWrites(metric, sv) && log != [] && RanAlone(sv.prog, d0, log, |log| - 1) && log[|log| - 1].writing
    ensures var last := log[|log| - 1];
            && |last.trace| > 0
            && (Inv(Replay(d0, log[..|log| - 1])) ==> Step(metric, Replay(d0, log[..|log| - 1]), sv.op(last.trace[0].0), last.trace[|last.trace| - 1].1))
  {
    hide Inv, Step, Replay;
  }

  lemma RunOneMore(metric: Metric, states: seq<Index>, ops: seq<Op>, op: Op, s': Index)
    requires Run(metric, states, ops) && (Inv(states[|ops|]) ==> Step(metric, states[|ops|], op, s'))
    ensures Run(metric, states + [s'], ops + [op])
  {
    hide Inv, Step;
  }

  // ---------- concurrent histories ----------

  /** Every interleaving is a sequential history of its write sections in the order they left; every search answers
      what it may answer at its place in that history. */
  lemma ConcurrentIsSequential<L(!new)>(metric: Metric, sv: Service<L>, d0: Index, threads: set<nat>, sys: seq<Sys<L, Index>>, who: seq<nat>, i: nat)
    requires ServesWrites(metric, sv) && ServesReads(metric, sv) && SysRun(sv.prog, d0, threads, sys, who) && i < |sys|
    requires 1 <= d0.dim && 2 <= d0.M <= d0.efc && d0 == EmptyIndex(d0.dim, d0.M, d0.efc)
    ensures var log := sys[i].log;
            && Run(metric, StatesOf(d0, log), OpsOf(sv, log))
            && forall j: nat :: j < |log| && !log[j].writing ==> AnsweredInPlace(metric, sv, d0, log, j)
  {
    hide *;
    Serialisable(sv.prog, d0, threads, sys, who, i);
    var log := sys[i].log;
    LogIsRun(metric, sv, d0, log);
    forall j: nat | j < |log| && !log[j].writing ensures AnsweredInPlace(metric, sv, d0, log, j) {
      ReadInPlace(metric, sv, d0, log, j);
    }
  }

  /** Read section `j` answered its query on the index as the writes before it in the log had left it. */
  ghost predicate AnsweredInPlace<L(!new)>(metric: Metric, sv: Service<L>, d0: Index, log: seq<Section<L, Index>>, j: nat) {
    && j < |log| && |log[j].trace| > 0
    && var m := |OpsOf(sv, log[..j])|;
    && m < |StatesOf(d0, log)| && Inv(StatesOf(d0, log)[m])
    && MayAnswer(metric, StatesOf(d0, log)[m], sv.query(log[j].trace[0].0), sv.answer(log[j].trace[|log[j].trace| - 1].0))
  }

  lemma ReadInPlace<L(!new)>(metric: Metric, sv: Service<L>, d0: Index, log: seq<Section<L, Index>>, j: nat)
    requires ServesReads(metric, sv) && Sequential(sv.prog, d0, log) && Run(metric, StatesOf(d0, log), OpsOf(sv, log))
    requires j < |log| && !log[j].writing
    ensures AnsweredInPlace(metric, sv, d0, log, j)
  {
    StatesMatch(sv, d0, log[..j]);
    StatesPrefix(sv, d0, log, j);
    var m := |OpsOf(sv, log[..j])|;
    assert StatesOf(d0, log)[m] == Replay(d0, log[..j]);
    RunKeepsInv(metric, StatesOf(d0, log), OpsOf(sv, log), m);
    assert RanAlone(sv.prog, d0, log, j);
    hide Inv, MayAnswer, Run, Replay, StatesOf, OpsOf;
  }

  /** A concurrent search returns at most `k` distinct ids, nearest first, each with its true distance, each live and
      satisfying the filter at its place in the history. */
  lemma ConcurrentSearchSound<L(!new)>(metric: Metric, sv: Service<L>, d0: Index, log: seq<Section<L, Index>>, j: nat)
    requires AnsweredInPlace(metric, sv, d0, log, j)
    ensures var m, qu, res := |OpsOf(sv, log[..j])|, sv.query(log[j].trace[0].0), sv.answer(log[j].trace[|log[j].trace| - 1].0);
            && Inv(StatesOf(d0, log)[m])
            && |res| <= qu.k && Sorted(res) && Reports(AnswerDist(metric, StatesOf(d0, log)[m], qu.q, qu.filter), res)
  {
    hide Inv, Searched;
    var m, qu, res := |OpsOf(sv, log[..j])|, sv.query(log[j].trace[0].0), sv.answer(log[j].trace[|log[j].trace| - 1].0);
    SearchSound(metric, StatesOf(d0, log)[m], qu.q, qu.k, qu.ef, qu.filter, res);
  }

  /** Once a delete of a stored id has left its section, no search that leaves later returns the id. */
  lemma ConcurrentNeverReturned<L(!new)>(metric: Metric, sv: Service<L>, d0: Index, log: seq<Section<L, Index>>, vid: string, i: nat, j: nat)
    requires Run(metric, StatesOf(d0, log), OpsOf(sv, log)) && i < j < |log| && AnsweredInPlace(metric, sv, d0, log, j)
    requires log[i].writing && |log[i].trace| > 0 && sv.op(log[i].trace[0].0) == DeleteOp(vid) && vid in Replay(d0, log[..i]).idMap
    ensures vid !in Ids(sv.answer(log[j].trace[|log[j].trace| - 1].0))
  {
    WritePlace(sv, d0, log, i, j);
    hide *;
    PlaceParts(metric, sv, d0, log, j);
    var qu := sv.query(log[j].trace[0].0);
    NeverReturnedAgain(metric, StatesOf(d0, log), OpsOf(sv, log), vid, |OpsOf(sv, log[..i])|, |OpsOf(sv, log[..j])|,
      qu.q, qu.k, qu.ef, qu.filter, sv.answer(log[j].trace[|log[j].trace| - 1].0));
  }

  lemma PlaceParts<L(!new)>(metric: Metric, sv: Service<L>, d0: Index, log: seq<Section<L, Index>>, j: nat)
    requires AnsweredInPlace(metric, sv, d0, log, j)
    ensures var m, qu := |OpsOf(sv, log[..j])|, sv.query(log[j].trace[0].0);
            && m < |StatesOf(d0, log)| && Inv(StatesOf(d0, log)[m])
            && Searched(metric, StatesOf(d0, log)[m], qu.q, qu.k, qu.ef, qu.filter, sv.answer(log[j].trace[|log[j].trace| - 1].0))
  {
    hide Inv, Searched;
  }

  lemma WritePlace<L>(sv: Service<L>, d0: Index, log: seq<Section<L, Index>>, i: nat, j: nat)
    requires i < j < |log| && log[i].writing && |log[i].trace| > 0
    ensures var m, n := |OpsOf(sv, log[..i])|, |OpsOf(sv, log[..j])|;
            && m < n < |StatesOf(d0, log)| && m < |OpsOf(sv, log)|
            && OpsOf(sv, log)[m] == sv.op(log[i].trace[0].0) && StatesOf(d0, log)[m] == Replay(d0, log[..i])
  {
    StatesMatch(sv, d0, log[..i]);
    StatesMatch(sv, d0, log[..j]);
    StatesPrefix(sv, d0, log, i);
    StatesPrefix(sv, d0, log, i + 1);
    StatesPrefix(sv, d0, log, j);
    StatesPrefix(sv, d0, log[..j], i + 1);
    assert log[..j][..i + 1] == log[..i + 1];
    assert log[..i + 1][..i] == log[..i];
    StatesMatch(sv, d0, log);
  }
}
