/** What the coordinator answers, by what all shards together store. */
module Sharded {
  import opened Types
  import opened Ranked
  import opened Graph
  import opened Answers
  import opened Runs
  import opened Ring
  import opened Merge
  import opened Cluster
  import opened Coordinator
  import Hnsw

  lemma AllShardsSound(metric: Metric, hash: string -> nat, dim: nat, states: seq<State>, ops: seq<Op>, n: nat)
    requires ClusterRun(metric, hash, dim, states, ops) && n < |states|
    ensures forall m :: m in states[n].shards ==> Inv(states[n].shards[m])
  {
    ClusterRunStores(metric, hash, dim, states, ops, n);
    hide Inv, ClusterRun, ContentsOf, PartOf;
    var all := ContentsAfter(dim, ops[..n]);
    forall m | m in states[n].shards ensures Inv(states[n].shards[m]) {
      assert ShardStores(hash, dim, states[n].ring, m, states[n].shards[m], all);
    }
  }

  /** A search the coordinator does not refuse has collected one answer from each shard. */
  lemma Answered(metric: Metric, hash: string -> nat, dim: nat, states: seq<State>, ops: seq<Op>, n: nat,
                 q: Vec, k: int, ef: Option<int>, filter: Option<Filter>, r: Result<seq<(string, real)>, Error>)
      returns (names: seq<string>, lists: seq<seq<(string, real)>>)
    requires ClusterRun(metric, hash, dim, states, ops) && n < |states| && 1 <= k && |q| == dim && n <= |ops|
    requires Asked(metric, states[n], q, k, ef, filter, r)
    ensures Collected(metric, states[n], q, k, ef, filter, {}, names, lists) && r == Ok(Merged(lists, k))
  {
    ClusterRunStores(metric, hash, dim, states, ops, n);
    hide Inv, ClusterRun, ContentsOf, PartOf, Collected, RouteOf, Merged, ContentsAfter;
    var c := states[n];
    assert c.shards != map[] by {
      var h: nat := 0;
      assert RouteOf(c.ring, h).Owned? && RouteOf(c.ring, h).node in c.shards;
    }
    forall m | m in c.shards ensures c.shards[m].dim == |q| {
      assert ShardStores(hash, dim, c.ring, m, c.shards[m], ContentsAfter(dim, ops[..n]));
    }
    names, lists :| Collected(metric, c, q, k, ef, filter, {}, names, lists) && r == Ok(Merged(lists, k));
  }

  lemma NamesCover(metric: Metric, c: State, q: Vec, k: int, ef: Option<int>, filter: Option<Filter>, names: seq<string>, lists: seq<seq<(string, real)>>)
    requires Collected(metric, c, q, k, ef, filter, {}, names, lists)
    ensures Enumerates(c, names) && |lists| == |names| && forall i :: 0 <= i < |names| ==> names[i] in c.shards
    ensures forall m :: m in names ==> m in c.shards
  {
    hide Searched, Inv;
  }

  /** Every shard has the coordinator's dimension, and there is one. */
  lemma ShardsAlike(metric: Metric, hash: string -> nat, dim: nat, states: seq<State>, ops: seq<Op>, n: nat)
    requires ClusterRun(metric, hash, dim, states, ops) && n < |states|
    ensures states[n].shards != map[] && forall m :: m in states[n].shards ==> Inv(states[n].shards[m]) && states[n].shards[m].dim == dim
  {
    RunLength(metric, hash, dim, states, ops);
    ClusterRunStores(metric, hash, dim, states, ops, n);
    StoresInv(hash, dim, states[n], ContentsAfter(dim, ops[..n]));
    hide Inv, ClusterRun, ShardStores, RouteOf, ContentsAfter;
    var h: nat := 0;
    assert RouteOf(states[n].ring, h).Owned? && RouteOf(states[n].ring, h).node in states[n].shards;
  }

  /** After any history the coordinator refuses a search exactly when a single index would: for `k` below 1, else for a
      query of the wrong dimension. */
  lemma SearchRefusedIff(metric: Metric, hash: string -> nat, dim: nat, states: seq<State>, ops: seq<Op>, n: nat,
                         q: Vec, k: int, ef: Option<int>, filter: Option<Filter>, r: Result<seq<(string, real)>, Error>)
    requires ClusterRun(metric, hash, dim, states, ops) && n < |states| && Asked(metric, states[n], q, k, ef, filter, r)
    ensures k < 1 ==> r == Err(Refused(Hnsw.BadK))
    ensures k >= 1 && |q| != dim ==> r == Err(Refused(Hnsw.BadShape))
    ensures k >= 1 && |q| == dim ==> r.Ok?
  {
    ShardsAlike(metric, hash, dim, states, ops, n);
    hide ClusterRun, Inv, Collected;
    var m :| m in states[n].shards;
    assert states[n].shards[m].dim == dim;
  }

  lemma ListsReport(metric: Metric, c: State, q: Vec, k: nat, ef: Option<int>, filter: Option<Filter>, names: seq<string>, lists: seq<seq<(string, real)>>)
    requires Collected(metric, c, q, k, ef, filter, {}, names, lists) && forall m :: m in names ==> m in c.shards && Inv(c.shards[m])
    ensures ShardReports(PartDists(metric, c, names, q, filter), lists)
  {
    hide Inv, Searched, Reports;
    var parts := PartDists(metric, c, names, q, filter);
    forall i | 0 <= i < |lists| ensures Reports(parts[i], lists[i]) {
      SearchSound(metric, c.shards[names[i]], q, k, ef, filter, lists[i]);
    }
  }

  /** After any history, with shards however large and approximate, a sharded search returns at most `k` distinct ids,
      nearest first, each with its true distance, each stored, not deleted and satisfying the filter. */
  lemma ShardedSearchSound(metric: Metric, hash: string -> nat, dim: nat, states: seq<State>, ops: seq<Op>, n: nat,
                           q: Vec, k: int, ef: Option<int>, filter: Option<Filter>, r: Result<seq<(string, real)>, Error>)
    requires ClusterRun(metric, hash, dim, states, ops) && n < |states| && 1 <= k && |q| == dim && n <= |ops|
    requires Asked(metric, states[n], q, k, ef, filter, r)
    ensures r.Ok? && |r.value| <= k && Sorted(r.value)
    ensures Reports(ContentsDist(metric, ContentsAfter(dim, ops[..n]), q, filter), r.value)
  {
    hide *;
    var names, lists := Answered(metric, hash, dim, states, ops, n, q, k, ef, filter, r);
    AllShardsSound(metric, hash, dim, states, ops, n);
    NamesCover(metric, states[n], q, k, ef, filter, names, lists);
    ListsReport(metric, states[n], q, k, ef, filter, names, lists);
    ClusterRunStores(metric, hash, dim, states, ops, n);
    var all := ContentsAfter(dim, ops[..n]);
    var d, parts := ContentsDist(metric, all, q, filter), PartDists(metric, states[n], names, q, filter);
    ShardsSplit(metric, hash, dim, states[n], all, names, q, filter);
    MergedRanks(d, parts, lists, k);
    RankingSays(d, AllIds(lists), k, Merged(lists, k));
  }

  lemma RankingSays(d: map<string, real>, S: set<string>, k: nat, xs: seq<(string, real)>)
    requires S <= d.Keys && IsRanking(d, S, k, xs)
    ensures |xs| <= k && Sorted(xs) && Reports(d, xs)
  {
    IdsSize(d, xs);
  }

  lemma HomeKnows(metric: Metric, hash: string -> nat, dim: nat, states: seq<State>, ops: seq<Op>, n: nat, vid: string) returns (home: string)
    requires ClusterRun(metric, hash, dim, states, ops) && n < |states| && n <= |ops|
    ensures RouteOf(states[n].ring, hash(vid)) == Owned(home) && home in states[n].shards && states[n].shards[home].dim == dim
    ensures vid in states[n].shards[home].idMap <==> vid in ContentsAfter(dim, ops[..n]).used
  {
    ShardsAlike(metric, hash, dim, states, ops, n);
    ClusterRunStores(metric, hash, dim, states, ops, n);
    hide Inv, ClusterRun, ShardStores, RouteOf, ContentsAfter;
    home := RouteOf(states[n].ring, hash(vid)).node;
    StoredOnlyAtHome(hash, dim, states[n], ContentsAfter(dim, ops[..n]), home, vid);
  }

  /** After any history the coordinator refuses an insert exactly when a single index would, for the same reason, and
      otherwise reports the owner of the id. */
  lemma InsertRefusedIff(metric: Metric, hash: string -> nat, dim: nat, states: seq<State>, ops: seq<Op>, n: nat, vid: string, vec: Vec)
    requires ClusterRun(metric, hash, dim, states, ops) && n < |states| && n <= |ops|
    ensures var used, r := ContentsAfter(dim, ops[..n]).used, Reply(hash, states[n], vid, vec);
            && (|vec| != dim ==> r == Err(Refused(Hnsw.BadShape)))
            && (|vec| == dim && vid in used ==> r == Err(Refused(Hnsw.DuplicateId)))
            && (|vec| == dim && vid !in used ==> r.Ok? && RouteOf(states[n].ring, hash(vid)) == Owned(r.value))
  {
    hide Inv, ClusterRun, RouteOf, ContentsAfter;
    var home := HomeKnows(metric, hash, dim, states, ops, n, vid);
  }

  /** And a delete reports true exactly for an id that some insert of the history stored. */
  lemma DeleteKnowsIff(metric: Metric, hash: string -> nat, dim: nat, states: seq<State>, ops: seq<Op>, n: nat, vid: string)
    requires ClusterRun(metric, hash, dim, states, ops) && n < |states| && n <= |ops|
    ensures OwnerKnows(hash, states[n], vid) <==> vid in ContentsAfter(dim, ops[..n]).used
  {
    hide Inv, ClusterRun, RouteOf, ContentsAfter;
    var home := HomeKnows(metric, hash, dim, states, ops, n, vid);
  }
}
