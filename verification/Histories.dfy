/** Driving the index object through a whole history. */
module Histories {
  import opened Types
  import opened Graph
  import opened Runs
  import Hnsw

  /** One operation on the object is one step of its value. */
  method Perform(index: Hnsw.HNSWIndex, op: Op)
    requires index.Valid()
    modifies index, index.nodes.Values
    ensures index.Valid() && fresh(index.nodes.Values - old(index.nodes.Values))
    ensures Inv(old(index.View())) && Step(index.metric, old(index.View()), op, index.View())
  {
    hide Inv, Added;
    index.ValidParts();
    index.ViewReads();
    match op
    case AddOp(vid, vec, meta, level) =>
      var r := index.Add(vid, vec, meta, level);
    case DeleteOp(vid) =>
      var found := index.Delete(vid);
  }

  lemma OneMoreState(metric: Metric, states: seq<Index>, ops: seq<Op>, n: nat, s': Index)
    requires n < |ops| && Run(metric, states, ops[..n]) && Inv(states[n]) && Step(metric, states[n], ops[n], s')
    ensures Run(metric, states + [s'], ops[..n + 1])
  {
    hide Inv, Step;
  }

  lemma FirstState(metric: Metric, s: Index, ops: seq<Op>)
    requires 1 <= s.dim && 2 <= s.M <= s.efc && s == EmptyIndex(s.dim, s.M, s.efc)
    ensures Run(metric, [s], ops[..0])
  {
  }

  /** Whatever operations are performed on a new index object, for whatever levels are drawn, its values are a run: so every
      history has a run, and what is proved of runs holds of the object after it. */
  method PerformAll(metric: Metric, dim: nat, M: nat, efc: nat, ops: seq<Op>) returns (index: Hnsw.HNSWIndex, ghost states: seq<Index>)
    requires 1 <= dim && 2 <= M <= efc
    ensures fresh(index) && index.Valid() && index.metric == metric
    ensures Run(metric, states, ops) && states[0] == EmptyIndex(dim, M, efc) && states[|ops|] == index.View()
  {
    hide *;
    index := new Hnsw.HNSWIndex(metric, dim, M, efc);
    states := [index.View()];
    EmptyFields(dim, M, efc);
    FirstState(metric, index.View(), ops);
    for n := 0 to |ops|
      invariant fresh(index) && fresh(index.nodes.Values) && index.Valid() && index.metric == metric
      invariant |states| == n + 1 && Run(metric, states, ops[..n]) && states[0] == EmptyIndex(dim, M, efc) && states[n] == index.View()
    {
      Perform(index, ops[n]);
      OneMoreState(metric, states, ops, n, index.View());
      states := states + [index.View()];
    }
    assert ops[..|ops|] == ops;
  }

  lemma EmptyFields(dim: nat, M: nat, efc: nat)
    ensures EmptyIndex(dim, M, efc).dim == dim && EmptyIndex(dim, M, efc).M == M && EmptyIndex(dim, M, efc).efc == efc
  {
  }
}
