/** The parts put together: a coordinator over small graph indexes answers exactly. */
module SmallCluster {
  import opened Types
  import opened Ranking
  import opened Ranked
  import opened Graph
  import opened GraphInvariant
  import opened Answers
  import opened Runs
  import opened LayerShape
  import opened SmallIndex
  import opened Cluster
  import opened Merge
  import opened Coordinator
  import opened Sharded

  /** Every shard is small enough never to have pruned its bottom layer, holds no tombstones and is covered by the beam. */
  ghost predicate SmallShards(c: State, k: nat, ef: Option<int>) {
    forall n :: n in c.shards ==>
      var s := c.shards[n];
      s.deleted == {} && |s.nodes| <= 2 * s.M + 1 && Wide(k, s.efc, ef, |s.nodes|)
  }

  /** `res` is what an exhaustive scan of the index would answer. */
  ghost predicate Exact(metric: Metric, s: Index, q: Vec, k: nat, res: seq<(string, real)>) {
    Inv(s) && IsRanking(LiveDist(metric, Live(s), q), Live(s).Keys, k, res)
  }

  lemma {:induction false} ShardStaysConnected(metric: Metric, hash: string -> nat, dim: nat, states: seq<State>, ops: seq<Op>, n: nat, name: string)
    requires ClusterRun(metric, hash, dim, states, ops) && n < |states| && name in states[n].shards
    requires |states[n].shards[name].nodes| <= 2 * states[n].shards[name].M + 1
    ensures Inv(states[n].shards[name]) && LayerOk(states[n].shards[name], 0)
  {
    hide *;
    RunLength(metric, hash, dim, states, ops);
    AllShardsSound(metric, hash, dim, states, ops, n);
    if n == 0 {
      FreshShard(metric, hash, dim, states, ops, name);
    } else {
      AllShardsSound(metric, hash, dim, states, ops, n - 1);
      var changed := ShardStep(metric, hash, dim, states, ops, n - 1, name);
      var s, s' := states[n - 1].shards[name], states[n].shards[name];
      if changed {
        StepOn(metric, s, ops[n - 1], s', 0);
        BottomSizes(s, s');
        ShardStaysConnected(metric, hash, dim, states, ops, n - 1, name);
        BottomCap(s.M);
        StepKeepsLayer(metric, s, ops[n - 1], s', 0);
      } else {
        ShardStaysConnected(metric, hash, dim, states, ops, n - 1, name);
      }
    }
  }

  lemma BottomSizes(s: Index, s': Index)
    requires On(s.nodes, 0) <= On(s'.nodes, 0)
    ensures |s.nodes| <= |s'.nodes| && |On(s'.nodes, 0)| == |s'.nodes|
  {
    BottomIsAll(s.nodes);
    BottomIsAll(s'.nodes);
    SubsetSize(s.nodes.Keys, s'.nodes.Keys);
    assert |s.nodes| == |s.nodes.Keys| && |s'.nodes| == |s'.nodes.Keys|;
  }

  lemma BottomCap(M: nat)
    ensures Cap(M, 0) == 2 * M
  {
  }

  lemma FreshShard(metric: Metric, hash: string -> nat, dim: nat, states: seq<State>, ops: seq<Op>, name: string)
    requires ClusterRun(metric, hash, dim, states, ops) && name in states[0].shards
    ensures LayerOk(states[0].shards[name], 0)
  {
    var s := states[0].shards[name];
    assert s == EmptyIndex(dim, s.M, s.efc);
  }

  /** One cluster operation either is one operation of the shard or leaves it alone. */
  lemma ShardStep(metric: Metric, hash: string -> nat, dim: nat, states: seq<State>, ops: seq<Op>, i: nat, name: string) returns (changed: bool)
    requires ClusterRun(metric, hash, dim, states, ops) && i < |ops| && i + 1 < |states| && name in states[i + 1].shards
    requires forall m :: m in states[i].shards ==> Inv(states[i].shards[m])
    ensures name in states[i].shards
    ensures if changed then Step(metric, states[i].shards[name], ops[i], states[i + 1].shards[name])
            else states[i + 1].shards[name] == states[i].shards[name]
  {
    hide Inv, Step, RouteOf;
    assert ClusterStep(metric, hash, states[i], ops[i], states[i + 1]);
    var r := RouteOf(states[i].ring, hash(ops[i].vid));
    changed := r.Owned? && r.node in states[i].shards && r.node == name;
  }

  /** After any history through one coordinator, as long as no shard has outgrown 2M+1 vectors and nothing was
      deleted, a search whose width covers each shard answers exactly as one exhaustive scan of everything stored. */
  lemma SmallClusterExact(metric: Metric, hash: string -> nat, dim: nat, states: seq<State>, ops: seq<Op>, n: nat,
                          q: Vec, k: int, ef: Option<int>, r: Result<seq<(string, real)>, Error>)
    requires ClusterRun(metric, hash, dim, states, ops) && n < |states| && 1 <= k && |q| == dim
    requires SmallShards(states[n], k, ef) && Asked(metric, states[n], q, k, ef, None, r)
    ensures var live := ContentsAfter(dim, ops[..n]).live;
            r.Ok? && IsRanking(LiveDist(metric, live, q), live.Keys, k, r.value)
  {
    hide *;
    RunLength(metric, hash, dim, states, ops);
    var names, lists := Answered(metric, hash, dim, states, ops, n, q, k, ef, None, r);
    AllShardsSound(metric, hash, dim, states, ops, n);
    NamesCover(metric, states[n], q, k, ef, None, names, lists);
    forall i | 0 <= i < |names|
      ensures Exact(metric, states[n].shards[names[i]], q, k, lists[i])
    {
      ShardExact(metric, hash, dim, states, ops, n, q, k, ef, names, lists, i);
    }
    PartsExact(metric, states[n], names, q, lists, k);
    ShardedEqualsSingle(metric, hash, dim, states, ops, n, names, q, k, None, lists);
    UnfilteredDist(metric, ContentsAfter(dim, ops[..n]), q);
    LiveDistKeys(metric, ContentsAfter(dim, ops[..n]).live, q);
  }

  lemma ShardExact(metric: Metric, hash: string -> nat, dim: nat, states: seq<State>, ops: seq<Op>, n: nat,
                   q: Vec, k: nat, ef: Option<int>, names: seq<string>, lists: seq<seq<(string, real)>>, i: nat)
    requires ClusterRun(metric, hash, dim, states, ops) && n < |states| && SmallShards(states[n], k, ef)
    requires Collected(metric, states[n], q, k, ef, None, {}, names, lists) && i < |names| == |lists| && names[i] in states[n].shards
    requires Inv(states[n].shards[names[i]])
    ensures Exact(metric, states[n].shards[names[i]], q, k, lists[i])
  {
    hide Inv, Searched, ClusterRun, Symmetric, Connected, IsRanking, Live, LiveDist;
    var s := states[n].shards[names[i]];
    ShardStaysConnected(metric, hash, dim, states, ops, n, names[i]);
    ConnectedExact(metric, s, q, k, ef, lists[i]);
  }

  lemma LiveDistKeys(metric: Metric, live: map<string, Vec>, q: Vec)
    ensures LiveDist(metric, live, q).Keys == live.Keys
  {
  }

  lemma PartsExact(metric: Metric, c: State, names: seq<string>, q: Vec, lists: seq<seq<(string, real)>>, k: nat)
    requires |lists| == |names| && forall m :: m in names ==> m in c.shards && Inv(c.shards[m])
    requires forall i :: 0 <= i < |names| ==> Exact(metric, c.shards[names[i]], q, k, lists[i])
    ensures ShardsExact(PartDists(metric, c, names, q, None), lists, k)
  {
    hide Inv, Live, IsRanking, AnswerDist, LiveDist;
    var parts := PartDists(metric, c, names, q, None);
    forall i | 0 <= i < |lists| ensures IsRanking(parts[i], parts[i].Keys, k, lists[i]) {
      assert Exact(metric, c.shards[names[i]], q, k, lists[i]);
      LiveAnswers(metric, c.shards[names[i]], q);
      LiveDistKeys(metric, Live(c.shards[names[i]]), q);
    }
  }
}
