/** A sharded index as a value: a ring that never changes after construction and one index per shard. */
module Cluster {
  import opened Types
  import opened Ranking
  import opened Ranked
  import opened Graph
  import opened Answers
  import opened Runs
  import opened Ring
  import opened HashRing
  import opened Merge

  datatype State = State(ring: RingState, shards: map<string, Index>)

  // ---------- routing ----------

  lemma SuccessorExists(points: set<nat>, h: nat) returns (p: nat)
    requires points != {}
    ensures Successor(points, h, p)
  {
    var d := map x | x in points :: x as real;
    var after := set x | x in points && h < x;
    assert forall x, y :: x in points && y in points ==> (d[x] <= d[y] <==> x <= y);
    if after != {} {
      p := Nearest(d, after);
      assert p in after && forall q :: q in points && h < q ==> q in after;
    } else {
      p := Nearest(d, points);
      assert forall q :: q in points && h < q ==> q in after;
    }
  }

  lemma RouteExists(s: RingState, h: nat)
    ensures exists r :: LooksUp(s, h, r)
  {
    if s.points == [] {
      assert LooksUp(s, h, NoNodes);
    } else {
      assert s.points[0] in Elements(s.points);
      var p := SuccessorExists(Elements(s.points), h);
      assert LooksUp(s, h, if p in s.owner then Owned(s.owner[p]) else Missing);
    }
  }

  /** Where the ring sends a key with this hash. */
  ghost function RouteOf(s: RingState, h: nat): (r: Lookup)
    ensures LooksUp(s, h, r)
  {
    RouteExists(s, h);
    var r :| LooksUp(s, h, r);
    r
  }

  lemma RouteIs(s: RingState, h: nat, r: Lookup)
    requires LooksUp(s, h, r)
    ensures RouteOf(s, h) == r
  {
    LookupUnique(s, h, r, RouteOf(s, h));
  }

  /** Every key is sent to a shard that exists. */
  ghost predicate Routable(c: State) {
    forall h: nat :: RouteOf(c.ring, h).Owned? && RouteOf(c.ring, h).node in c.shards
  }

  ghost predicate Populated(s: RingState) {
    Total(s) && (forall p :: p in s.owner ==> s.owner[p] in s.members) && (s.members != {} ==> s.points != [])
  }

  lemma AddPopulated(l: Layout, s: RingState, node: string)
    requires Populated(s) && l.virtualNodes >= 1
    ensures Populated(Ring.AddNode(l, s, node)) && Ring.AddNode(l, s, node).members == s.members + {node}
  {
    if node in s.members {
      assert s.members + {node} == s.members;
    } else {
      var s0 := s.(members := s.members + {node});
      PlacedOwner(l, s0, node, l.virtualNodes);
      PlacedTotal(l, s0, node, l.virtualNodes);
      PointInAll(l, node, 0, l.virtualNodes);
      hide PlacedUpTo, PointsUpTo, Ascending;
      var t := Ring.AddNode(l, s, node);
      assert Point(l, node, 0) in Elements(t.points);
    }
  }

  lemma {:induction false} AddAllPopulated(l: Layout, names: seq<string>)
    requires l.virtualNodes >= 1
    ensures Populated(AddAll(l, EMPTY_RING, names)) && forall n :: n in AddAll(l, EMPTY_RING, names).members <==> n in names
  {
    if names != [] {
      var front := names[..|names| - 1];
      AddAllPopulated(l, front);
      hide Populated, Ring.AddNode;
      AddPopulated(l, AddAll(l, EMPTY_RING, front), names[|names| - 1]);
      assert names == front + [names[|names| - 1]];
    }
  }

  /** A coordinator with at least one shard can place every id, even if virtual points collide. */
  lemma NewRingRoutes(l: Layout, names: seq<string>, c: State)
    requires l.virtualNodes >= 1 && names != [] && c.ring == AddAll(l, EMPTY_RING, names) && forall n :: n in names ==> n in c.shards
    ensures Routable(c)
  {
    AddAllPopulated(l, names);
    assert names[0] in c.ring.members;
    forall h: nat ensures RouteOf(c.ring, h).Owned? && RouteOf(c.ring, h).node in c.shards {
      PopulatedRoute(c.ring, h);
    }
  }

  lemma PopulatedRoute(s: RingState, h: nat)
    requires Populated(s) && s.members != {}
    ensures RouteOf(s, h).Owned? && RouteOf(s, h).node in s.members
  {
    var r := RouteOf(s, h);
    var p :| Successor(Elements(s.points), h, p) && r == if p in s.owner then Owned(s.owner[p]) else Missing;
    SuccessorIn(Elements(s.points), h, p);
  }

  // ---------- steps ----------

  /** An operation goes to the owner of its id and touches no other shard. */
  ghost predicate ClusterStep(metric: Metric, hash: string -> nat, c: State, op: Op, c': State)
    requires forall n :: n in c.shards ==> Inv(c.shards[n])
  {
    var r := RouteOf(c.ring, hash(op.vid));
    if r.Owned? && r.node in c.shards then
      && c'.ring == c.ring && c'.shards.Keys == c.shards.Keys
      && Step(metric, c.shards[r.node], op, c'.shards[r.node])
      && forall n :: n in c.shards && n != r.node ==> c'.shards[n] == c.shards[n]
    else c' == c
  }

  ghost predicate SentTo(hash: string -> nat, ring: RingState, v: string, n: string) {
    RouteOf(ring, hash(v)) == Owned(n)
  }

  /** The part of some contents that the ring sends to shard `n`. */
  ghost function PartOf(hash: string -> nat, ring: RingState, n: string, all: Contents): Contents {
    Contents(map v | v in all.live && SentTo(hash, ring, v, n) :: all.live[v],
             map v | v in all.metas && SentTo(hash, ring, v, n) :: all.metas[v],
             set v | v in all.used && SentTo(hash, ring, v, n))
  }

  /** Shard by shard, the cluster stores `all`: each shard is a sound index holding exactly its part. */
  ghost predicate Stores(hash: string -> nat, dim: nat, c: State, all: Contents) {
    && Routable(c)
    && forall n :: n in c.shards ==> ShardStores(hash, dim, c.ring, n, c.shards[n], all)
  }

  ghost predicate ShardStores(hash: string -> nat, dim: nat, ring: RingState, n: string, s: Index, all: Contents) {
    Inv(s) && s.dim == dim && ContentsOf(s) == PartOf(hash, ring, n, all)
  }

  /** Each id is stored on exactly the shard the ring names, and on no other. */
  lemma StoredOnlyAtHome(hash: string -> nat, dim: nat, c: State, all: Contents, n: string, v: string)
    requires Stores(hash, dim, c, all) && n in c.shards
    ensures v in c.shards[n].idMap <==> v in all.used && RouteOf(c.ring, hash(v)) == Owned(n)
  {
    assert ShardStores(hash, dim, c.ring, n, c.shards[n], all);
    ContentsFields(c.shards[n]);
    hide ContentsOf, Inv;
  }

  /** Taking a part and applying an operation commute. */
  lemma ApplyPart(hash: string -> nat, dim: nat, ring: RingState, n: string, all: Contents, op: Op)
    ensures PartOf(hash, ring, n, Apply(dim, all, op)) ==
            if SentTo(hash, ring, op.vid, n) then Apply(dim, PartOf(hash, ring, n, all), op) else PartOf(hash, ring, n, all)
  {
    hide SentTo;
    var whole, part := Apply(dim, all, op), PartOf(hash, ring, n, all);
    var lhs := PartOf(hash, ring, n, whole);
    var rhs := if SentTo(hash, ring, op.vid, n) then Apply(dim, part, op) else part;
    assert lhs.live == rhs.live;
    assert lhs.metas == rhs.metas;
    assert lhs.used == rhs.used;
  }

  lemma StoresInv(hash: string -> nat, dim: nat, c: State, all: Contents)
    requires Stores(hash, dim, c, all)
    ensures forall n :: n in c.shards ==> Inv(c.shards[n]) && c.shards[n].dim == dim
  {
  }

  /** One step through the coordinator changes the stored contents as a single index's would change. */
  lemma StepStores(metric: Metric, hash: string -> nat, dim: nat, c: State, all: Contents, op: Op, c': State)
    requires Stores(hash, dim, c, all) && (forall n :: n in c.shards ==> Inv(c.shards[n])) && ClusterStep(metric, hash, c, op, c')
    ensures Stores(hash, dim, c', Apply(dim, all, op))
  {
    hide Inv, Step, PartOf, ContentsOf, RouteOf;
    var home := RouteOf(c.ring, hash(op.vid)).node;
    assert Routable(c');
    forall n | n in c'.shards ensures ShardStores(hash, dim, c'.ring, n, c'.shards[n], Apply(dim, all, op)) {
      assert ShardStores(hash, dim, c.ring, n, c.shards[n], all);
      ApplyPart(hash, dim, c.ring, n, all, op);
      if n == home {
        StepKeepsInv(metric, c.shards[n], op, c'.shards[n]);
        StepContents(metric, c.shards[n], op, c'.shards[n]);
      }
    }
  }

  // ---------- histories ----------

  ghost predicate ClusterRun(metric: Metric, hash: string -> nat, dim: nat, states: seq<State>, ops: seq<Op>) {
    && |states| == |ops| + 1
    && Routable(states[0])
    && (forall n :: n in states[0].shards ==>
          var s := states[0].shards[n]; 1 <= dim && 2 <= s.M <= s.efc && s == EmptyIndex(dim, s.M, s.efc))
    && forall i :: 0 <= i < |ops| ==>
         ((forall n :: n in states[i].shards ==> Inv(states[i].shards[n])) ==> ClusterStep(metric, hash, states[i], ops[i], states[i + 1]))
  }

  lemma EmptyStores(metric: Metric, hash: string -> nat, dim: nat, states: seq<State>, ops: seq<Op>)
    requires ClusterRun(metric, hash, dim, states, ops)
    ensures Stores(hash, dim, states[0], NO_CONTENTS)
  {
    var c := states[0];
    forall n | n in c.shards ensures ShardStores(hash, dim, c.ring, n, c.shards[n], NO_CONTENTS) {
      var s := c.shards[n];
      EmptyInv(dim, s.M, s.efc);
      assert Live(s) == map[] && LiveMeta(s) == map[];
    }
  }

  /** After any history through the coordinator, the shards together store what one index would. */
  lemma {:induction false} ClusterRunStores(metric: Metric, hash: string -> nat, dim: nat, states: seq<State>, ops: seq<Op>, n: nat)
    requires ClusterRun(metric, hash, dim, states, ops) && n < |states|
    ensures Stores(hash, dim, states[n], ContentsAfter(dim, ops[..n]))
  {
    if n == 0 {
      EmptyStores(metric, hash, dim, states, ops);
    } else {
      ClusterRunStores(metric, hash, dim, states, ops, n - 1);
      hide Stores, ClusterStep, Inv, EmptyIndex;
      assert ops[..n][..n - 1] == ops[..n - 1] && ops[..n][n - 1] == ops[n - 1];
      StoresInv(hash, dim, states[n - 1], ContentsAfter(dim, ops[..n - 1]));
      StepStores(metric, hash, dim, states[n - 1], ContentsAfter(dim, ops[..n - 1]), ops[n - 1], states[n]);
    }
  }

  lemma RunLength(metric: Metric, hash: string -> nat, dim: nat, states: seq<State>, ops: seq<Op>)
    requires ClusterRun(metric, hash, dim, states, ops)
    ensures |states| == |ops| + 1
  {
  }

  // ---------- search ----------

  /** Every shard, once, in some order. */
  ghost predicate Enumerates(c: State, names: seq<string>) {
    && (forall n :: n in c.shards <==> n in names)
    && forall i, j :: 0 <= i < j < |names| ==> names[i] != names[j]
  }

  /** The distances each shard can answer with. */
  ghost function PartDists(metric: Metric, c: State, names: seq<string>, q: Vec, filter: Option<Filter>): seq<map<string, real>>
    requires forall n :: n in names ==> n in c.shards && Inv(c.shards[n])
  {
    seq(|names|, i requires 0 <= i < |names| => AnswerDist(metric, c.shards[names[i]], q, filter))
  }

  /** What each shard can answer with are the distances of its part of the whole. */
  lemma PartsOfWhole(metric: Metric, hash: string -> nat, dim: nat, c: State, all: Contents, names: seq<string>, q: Vec, filter: Option<Filter>)
    requires Stores(hash, dim, c, all) && forall n :: n in names ==> n in c.shards && Inv(c.shards[n])
    ensures var parts := PartDists(metric, c, names, q, filter);
            forall i :: 0 <= i < |names| ==> parts[i] == ContentsDist(metric, PartOf(hash, c.ring, names[i], all), q, filter)
  {
    var parts := PartDists(metric, c, names, q, filter);
    forall i | 0 <= i < |names| ensures parts[i] == ContentsDist(metric, PartOf(hash, c.ring, names[i], all), q, filter) {
      assert ShardStores(hash, dim, c.ring, names[i], c.shards[names[i]], all);
      hide Inv, Stores, ContentsOf, PartOf, AnswerDist, ContentsDist;
      AnswersOfContents(metric, c.shards[names[i]], q, filter);
    }
  }

  lemma PartsSplit(metric: Metric, hash: string -> nat, ring: RingState, all: Contents, names: seq<string>, q: Vec, filter: Option<Filter>,
                   parts: seq<map<string, real>>)
    requires |parts| == |names|
    requires forall i :: 0 <= i < |names| ==> parts[i] == ContentsDist(metric, PartOf(hash, ring, names[i], all), q, filter)
    requires forall i, j :: 0 <= i < j < |names| ==> names[i] != names[j]
    ensures Split(ContentsDist(metric, all, q, filter), parts)
  {
    hide RouteOf;
    var d := ContentsDist(metric, all, q, filter);
    forall i, x | 0 <= i < |parts| && x in parts[i] ensures x in d && d[x] == parts[i][x] && SentTo(hash, ring, x, names[i]) {
      assert x in ContentsDist(metric, PartOf(hash, ring, names[i], all), q, filter);
    }
    forall i, j | 0 <= i < j < |parts| ensures parts[i].Keys !! parts[j].Keys {
      forall x | x in parts[i] ensures x !in parts[j] {
        assert SentTo(hash, ring, x, names[i]);
      }
    }
  }

  lemma InPart(metric: Metric, hash: string -> nat, ring: RingState, all: Contents, n: string, q: Vec, filter: Option<Filter>, x: string)
    requires x in ContentsDist(metric, all, q, filter) && SentTo(hash, ring, x, n)
    ensures x in ContentsDist(metric, PartOf(hash, ring, n, all), q, filter)
  {
    hide SentTo;
  }

  /** The shards split what may be answered between them. */
  lemma ShardsSplit(metric: Metric, hash: string -> nat, dim: nat, c: State, all: Contents, names: seq<string>, q: Vec, filter: Option<Filter>)
    requires Stores(hash, dim, c, all) && Enumerates(c, names) && forall n :: n in names ==> n in c.shards && Inv(c.shards[n])
    ensures var d, parts := ContentsDist(metric, all, q, filter), PartDists(metric, c, names, q, filter);
            Split(d, parts) && AllKeys(parts) == d.Keys
  {
    var d, parts := ContentsDist(metric, all, q, filter), PartDists(metric, c, names, q, filter);
    PartsOfWhole(metric, hash, dim, c, all, names, q, filter);
    hide Inv, Stores, AllKeys, RouteOf, ContentsDist, PartOf, AnswerDist, Split;
    PartsSplit(metric, hash, c.ring, all, names, q, filter, parts);
    forall x ensures x in AllKeys(parts) <==> x in d {
      InAllKeys(parts, x);
      if x in d {
        HomeListed(hash, c, names, x, dim, all);
        var i :| 0 <= i < |names| && SentTo(hash, c.ring, x, names[i]);
        InPart(metric, hash, c.ring, all, names[i], q, filter, x);
      } else {
        InWhole(d, parts);
      }
    }
  }

  lemma InWhole(d: map<string, real>, parts: seq<map<string, real>>)
    requires Split(d, parts)
    ensures forall i, x :: 0 <= i < |parts| && x in parts[i] ==> x in d
  {
  }

  lemma HomeListed(hash: string -> nat, c: State, names: seq<string>, x: string, dim: nat, all: Contents)
    requires Stores(hash, dim, c, all) && Enumerates(c, names)
    ensures exists i :: 0 <= i < |names| && SentTo(hash, c.ring, x, names[i])
  {
    hide ShardStores;
    var n := RouteOf(c.ring, hash(x)).node;
    assert n in names;
  }

  /** Sharded equals single: after any history, if each shard answers exactly, fan-out and merge answers
      exactly for everything the same history would have stored in one index and the filter lets through. */
  lemma ShardedEqualsSingle(metric: Metric, hash: string -> nat, dim: nat, states: seq<State>, ops: seq<Op>, n: nat,
                            names: seq<string>, q: Vec, k: nat, filter: Option<Filter>, lists: seq<seq<(string, real)>>)
    requires ClusterRun(metric, hash, dim, states, ops) && n < |states| && Enumerates(states[n], names)
    requires forall s :: s in names ==> s in states[n].shards && Inv(states[n].shards[s])
    requires ShardsExact(PartDists(metric, states[n], names, q, filter), lists, k)
    ensures var d := ContentsDist(metric, ContentsAfter(dim, ops[..n]), q, filter); IsRanking(d, d.Keys, k, Merged(lists, k))
  {
    hide ClusterRun, Inv, Enumerates, ShardsExact, Merged, ContentsAfter, PartDists, Stores, ContentsDist;
    RunLength(metric, hash, dim, states, ops);
    ClusterRunStores(metric, hash, dim, states, ops, n);
    var all := ContentsAfter(dim, ops[..n]);
    ShardsSplit(metric, hash, dim, states[n], all, names, q, filter);
    MergeExact(ContentsDist(metric, all, q, filter), PartDists(metric, states[n], names, q, filter), lists, k);
  }

  /** Approximate shards: with distinct distances, the true top-`k` members that reach the client are exactly
      those some shard found, so the shards alone decide recall, with or without a filter. */
  lemma ShardsDecideRecall(metric: Metric, hash: string -> nat, dim: nat, states: seq<State>, ops: seq<Op>, n: nat,
                           names: seq<string>, q: Vec, k: nat, ef: Option<int>, filter: Option<Filter>, lists: seq<seq<(string, real)>>)
    requires ClusterRun(metric, hash, dim, states, ops) && n < |states| && Enumerates(states[n], names)
    requires forall s :: s in names ==> s in states[n].shards && Inv(states[n].shards[s])
    requires |lists| == |names| && forall i :: 0 <= i < |names| ==> Searched(metric, states[n].shards[names[i]], q, k, ef, filter, lists[i])
    requires Distinct(ContentsDist(metric, ContentsAfter(dim, ops[..n]), q, filter))
    ensures var d := ContentsDist(metric, ContentsAfter(dim, ops[..n]), q, filter);
            && Top(d, k, d.Keys) * Ids(Merged(lists, k)) == Top(d, k, d.Keys) * AllIds(lists)
            && Reports(d, Merged(lists, k)) && Sorted(Merged(lists, k)) && |Merged(lists, k)| <= k
  {
    var parts := PartDists(metric, states[n], names, q, filter);
    assert ShardReports(parts, lists) by {
      hide ClusterRun, Inv, Searched, Distinct, ContentsAfter;
      forall i | 0 <= i < |names| ensures Reports(parts[i], lists[i]) {
        SearchSound(metric, states[n].shards[names[i]], q, k, ef, filter, lists[i]);
      }
    }
    hide ClusterRun, Inv, Searched, Enumerates, Merged, ContentsAfter, PartDists, Stores, ShardReports, Distinct, ContentsDist;
    RunLength(metric, hash, dim, states, ops);
    ClusterRunStores(metric, hash, dim, states, ops, n);
    var all := ContentsAfter(dim, ops[..n]);
    var d := ContentsDist(metric, all, q, filter);
    ShardsSplit(metric, hash, dim, states[n], all, names, q, filter);
    MergeLosesNothing(d, parts, lists, k);
    MergedRanks(d, parts, lists, k);
    IdsSize(d, Merged(lists, k));
  }

  // ---------- counting ----------

  ghost function SumLive(c: State, names: seq<string>): nat
    requires forall n :: n in names ==> n in c.shards && Inv(c.shards[n])
  {
    if names == [] then 0 else
    var last := |names| - 1;
    SumLive(c, names[..last]) + |Live(c.shards[names[last]])|
  }

  /** The live ids of some of the shards. */
  ghost function LiveAt(hash: string -> nat, ring: RingState, all: Contents, names: seq<string>): set<string> {
    set v | v in all.live && exists i :: 0 <= i < |names| && SentTo(hash, ring, v, names[i])
  }

  lemma {:induction false} SumCounts(hash: string -> nat, dim: nat, c: State, all: Contents, names: seq<string>)
    requires Stores(hash, dim, c, all) && forall n :: n in names ==> n in c.shards && Inv(c.shards[n])
    requires forall i, j :: 0 <= i < j < |names| ==> names[i] != names[j]
    ensures SumLive(c, names) == |LiveAt(hash, c.ring, all, names)|
  {
    if names == [] {
      assert LiveAt(hash, c.ring, all, names) == {};
    } else {
      var last := |names| - 1;
      SumCounts(hash, dim, c, all, names[..last]);
      var s := c.shards[names[last]];
      assert ShardStores(hash, dim, c.ring, names[last], s, all);
      ContentsFields(s);
      hide Stores, Inv, Live, ContentsOf;
      LastPart(hash, c.ring, all, names);
      assert |Live(s)| == |Live(s).Keys|;
    }
  }

  lemma LastPart(hash: string -> nat, ring: RingState, all: Contents, names: seq<string>)
    requires names != [] && forall i, j :: 0 <= i < j < |names| ==> names[i] != names[j]
    ensures var last := |names| - 1;
            |LiveAt(hash, ring, all, names)| == |LiveAt(hash, ring, all, names[..last])| + |PartOf(hash, ring, names[last], all).live.Keys|
  {
    var last := |names| - 1;
    var A, B := LiveAt(hash, ring, all, names[..last]), PartOf(hash, ring, names[last], all).live.Keys;
    LastPartSets(hash, ring, all, names);
    hide LiveAt, PartOf;
    assert |A + B| == |A| + |B|;
  }

  lemma LastPartSets(hash: string -> nat, ring: RingState, all: Contents, names: seq<string>)
    requires names != [] && forall i, j :: 0 <= i < j < |names| ==> names[i] != names[j]
    ensures var last := |names| - 1;
            var A, B := LiveAt(hash, ring, all, names[..last]), PartOf(hash, ring, names[last], all).live.Keys;
            A !! B && LiveAt(hash, ring, all, names) == A + B
  {
    hide RouteOf;
    var last := |names| - 1;
    var A, B := LiveAt(hash, ring, all, names[..last]), PartOf(hash, ring, names[last], all).live.Keys;
    forall v ensures v in LiveAt(hash, ring, all, names) <==> v in A + B {
      if i :| 0 <= i < |names| && SentTo(hash, ring, v, names[i]) {
        assert i < last ==> names[..last][i] == names[i];
      }
    }
  }

  /** Shard live counts add up to the number of live ids. */
  lemma CountsAddUp(metric: Metric, hash: string -> nat, dim: nat, states: seq<State>, ops: seq<Op>, n: nat, names: seq<string>)
    requires ClusterRun(metric, hash, dim, states, ops) && n < |states| && Enumerates(states[n], names)
    requires forall s :: s in names ==> s in states[n].shards && Inv(states[n].shards[s])
    ensures SumLive(states[n], names) == |ContentsAfter(dim, ops[..n]).live|
  {
    hide ClusterRun, Inv, ContentsAfter, Stores;
    RunLength(metric, hash, dim, states, ops);
    ClusterRunStores(metric, hash, dim, states, ops, n);
    var all := ContentsAfter(dim, ops[..n]);
    SumCounts(hash, dim, states[n], all, names);
    forall v | v in all.live ensures v in LiveAt(hash, states[n].ring, all, names) {
      HomeListed(hash, states[n], names, v, dim, all);
    }
    assert LiveAt(hash, states[n].ring, all, names) == all.live.Keys;
  }
}
