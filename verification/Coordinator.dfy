/** The coordinator object: writes go to the owning shard, searches fan out to all shards and merge.

    The shards are index objects that share no memory, so an operation on one leaves the others as they were. Each
    method is one step of the value `Cluster.State`. */
module Coordinator {
  import opened Types
  import opened Graph
  import opened Runs
  import opened Ring
  import opened HashRing
  import opened Merge
  import opened Cluster
  import Hnsw

  datatype Error = NoShards | Refused(e: Hnsw.Error)

  class Coordinator {
    const metric: Metric
    const ring: ConsistentHashRing
    const shards: map<string, Hnsw.HNSWIndex>

    ghost function View(): State
      reads ring, shards.Values, set s, n | s in shards.Values && n in s.nodes.Values :: n
    {
      State(ring.View(), map n | n in shards :: shards[n].View())
    }

    /** Shards share no object. */
    ghost predicate Apart()
      reads shards.Values
    {
      forall m, n :: m in shards && n in shards && m != n ==>
        shards[m] != shards[n] && shards[m].nodes.Values !! shards[n].nodes.Values
    }

    ghost predicate Sound()
      reads shards.Values, set s, n | s in shards.Values && n in s.nodes.Values :: n
    {
      forall n :: n in shards ==> shards[n].Valid() && shards[n].metric == metric
    }

    ghost predicate Valid()
      reads ring, shards.Values, set s, n | s in shards.Values && n in s.nodes.Values :: n
    {
      && ring.Valid() && Apart() && Sound()
      && (if shards == map[] then ring.sortedPoints == [] else Routable(View()))
    }

    /** `names` lists the shard ids in the order the mapping yields them. */
    constructor (metric: Metric, hash: string -> nat, shards: map<string, Hnsw.HNSWIndex>, names: seq<string>, virtualNodes: nat)
      requires virtualNodes >= 1 && forall n :: n in shards <==> n in names
      requires forall n :: n in shards ==> shards[n].Valid() && shards[n].metric == metric
      requires forall m, n :: m in shards && n in shards && m != n ==>
                 shards[m] != shards[n] && shards[m].nodes.Values !! shards[n].nodes.Values
      ensures Valid() && this.shards == shards && ring.hash == hash && fresh(ring)
      ensures View() == State(AddAll(Layout(hash, virtualNodes), EMPTY_RING, names), map n | n in shards :: shards[n].View())
    {
      var r := new ConsistentHashRing(hash, names, virtualNodes);
      this.metric, this.ring, this.shards := metric, r, shards;
      new;
      hide *;
      MakeApart();
      MakeSound();
      ViewReads();
      MakeValid(Layout(hash, virtualNodes), names);
    }

    method Route(vid: string) returns (owner: Lookup)
      requires Valid()
      ensures owner == RouteOf(View().ring, ring.hash(vid))
      ensures if shards == map[] then owner == NoNodes else owner.Owned? && owner.node in shards
    {
      owner := ring.GetNode(vid);
      RouteIs(ring.View(), ring.hash(vid), owner);
    }

    /** Insert on one shard; no other shard is touched. */
    method AddAt(n: string, vid: string, vector: Vec, meta: Option<Meta>, level: nat) returns (r: Result<(), Hnsw.Error>)
      requires n in shards && Apart() && Sound()
      modifies shards[n], shards[n].nodes.Values
      ensures Apart() && Sound()
      ensures r == if |vector| != old(shards[n].View()).dim then Err(Hnsw.BadShape)
                   else if vid in old(shards[n].View()).idMap then Err(Hnsw.DuplicateId) else Ok(())
      ensures Inv(old(shards[n].View())) && Step(metric, old(shards[n].View()), AddOp(vid, vector, meta, level), shards[n].View())
      ensures forall m :: m in shards && m != n ==> shards[m].View() == old(shards[m].View())
      ensures ring.View() == old(ring.View())
    {
      hide *;
      ApartFrom(n);
      SoundAt(n);
      shards[n].ValidParts();
      shards[n].ViewReads();
      ghost var s := shards[n].View();
      r := shards[n].Add(vid, vector, meta, level);
      AddedStep(metric, s, vid, vector, meta, level, shards[n].View(), r);
      assert forall m :: m in shards && m != n ==> shards[m].nodes == old(shards[m].nodes);
      MakeApart();
      MakeSound();
    }

    method DeleteAt(n: string, vid: string) returns (found: bool)
      requires n in shards && Apart() && Sound()
      modifies shards[n]
      ensures Apart() && Sound()
      ensures found == (vid in old(shards[n].idMap))
      ensures Inv(old(shards[n].View())) && Step(metric, old(shards[n].View()), DeleteOp(vid), shards[n].View())
      ensures forall m :: m in shards && m != n ==> shards[m].View() == old(shards[m].View())
      ensures ring.View() == old(ring.View())
    {
      hide *;
      ApartFrom(n);
      SoundAt(n);
      shards[n].ValidParts();
      ghost var s := shards[n].View();
      shards[n].ViewReads();
      found := shards[n].Delete(vid);
      DeletedStep(metric, s, vid, shards[n].View());
      assert forall m :: m in shards && m != n ==> shards[m].nodes == old(shards[m].nodes);
      MakeApart();
      MakeSound();
    }

    /** Insert a vector on the shard that owns its id. */
    method Index(vid: string, vector: Vec, meta: Option<Meta>, level: nat) returns (r: Result<string, Error>)
      requires Valid()
      modifies shards.Values, set s, n | s in shards.Values && n in s.nodes.Values :: n
      ensures Valid() && Stepped(metric, ring.hash, old(View()), AddOp(vid, vector, meta, level), View())
      ensures r == Reply(ring.hash, old(View()), vid, vector)
    {
      hide *;
      ValidParts();
      ghost var c := View();
      ViewReads();
      var owner := Route(vid);
      if owner.NoNodes? {
        NowhereToGo(metric, ring.hash, c, AddOp(vid, vector, meta, level), owner);
        ReplyNowhere(ring.hash, c, vid, vector);
        return Err(NoShards);
      }
      var n := owner.node;
      var added := AddAt(n, vid, vector, meta, level);
      r := if added.Ok? then Ok(n) else Err(Refused(added.error));
      ReplyFrom(ring.hash, c, vid, vector, n, added, r);
      ViewReads();
      OneShardStepped(metric, ring.hash, c, AddOp(vid, vector, meta, level), View(), n);
      StillValid(c);
    }

    /** Ask every shard, then merge and keep the `k` nearest. */
    method Search(query: Vec, k: int, ef: Option<int>, filter: Option<Filter>) returns (r: Result<seq<(string, real)>, Error>)
      requires Valid()
      ensures Asked(metric, View(), query, k, ef, filter, r)
    {
      hide *;
      ValidParts();
      ViewReads();
      if shards == map[] {
        AskedNobody(metric, View(), query, k, ef, filter);
        return Ok([]);
      }
      var pending := shards.Keys;
      var lists: seq<seq<(string, real)>> := [];
      ghost var names: seq<string> := [];
      NothingCollected(metric, View(), query, k, ef, filter);
      while pending != {}
        invariant pending <= shards.Keys && Collected(metric, View(), query, k, ef, filter, pending, names, lists)
      {
        var n :| n in pending;
        SoundAt(n);
        var answer := shards[n].Search(query, k, ef, filter);
        ViewReads();
        ValidParts();
        shards[n].ViewReads();
        if answer.Err? {
          AskedRefused(metric, View(), query, k, ef, filter, n, answer.error);
          return Err(Refused(answer.error));
        }
        CollectedOneMore(metric, View(), query, k, ef, filter, pending, names, lists, n, answer.value);
        pending, names, lists := pending - {n}, names + [n], lists + [answer.value];
      }
      SomeoneCollected(metric, View(), query, k, ef, filter, names, lists);
      AskedAll(metric, View(), query, k, ef, filter, pending, names, lists);
      r := Ok(Merged(lists, k));
    }

    /** Delete an id from its owning shard. */
    method Delete(vid: string) returns (found: bool)
      requires Valid()
      modifies shards.Values
      ensures Valid() && Stepped(metric, ring.hash, old(View()), DeleteOp(vid), View())
      ensures found == OwnerKnows(ring.hash, old(View()), vid)
    {
      hide *;
      ValidParts();
      ghost var c := View();
      ViewReads();
      var owner := Route(vid);
      if owner.NoNodes? {
        NowhereToGo(metric, ring.hash, c, DeleteOp(vid), owner);
        NobodyKnows(ring.hash, c, vid);
        return false;
      }
      var n := owner.node;
      shards[n].ViewReads();
      OwnerAsked(ring.hash, c, vid, n);
      found := DeleteAt(n, vid);
      ViewReads();
      OneShardStepped(metric, ring.hash, c, DeleteOp(vid), View(), n);
      StillValid(c);
    }

    lemma ValidParts()
      requires Valid()
      ensures ring.Valid() && Apart() && Sound() && (shards == map[] ==> ring.sortedPoints == [])
      ensures forall n :: n in shards ==> shards[n].Valid() && Inv(shards[n].View())
      ensures forall n :: n in View().shards ==> Inv(View().shards[n])
    {
      hide Inv, Routable;
      forall n | n in shards ensures Inv(shards[n].View()) {
        shards[n].ValidParts();
      }
    }

    lemma ViewReads()
      ensures View().ring == ring.View() && View().shards.Keys == shards.Keys
      ensures forall n :: n in shards ==> View().shards[n] == shards[n].View()
    {
      hide Hnsw.HNSWIndex.View;
    }

    twostate lemma StillValid(c: State)
      requires old(Valid()) && c == old(View())
      requires Apart() && Sound() && View().ring == c.ring && View().shards.Keys == c.shards.Keys && ring.View() == old(ring.View())
      ensures Valid()
    {
      hide Inv, Hnsw.HNSWIndex.View, Hnsw.HNSWIndex.Valid;
    }

    lemma ApartFrom(n: string)
      requires n in shards && Apart()
      ensures forall a, b :: a in shards && b in shards && a != b ==>
                shards[a] != shards[b] && shards[a].nodes.Values !! shards[b].nodes.Values
    {
    }

    lemma SoundAt(n: string)
      requires n in shards && Sound()
      ensures shards[n].Valid() && shards[n].metric == metric
      ensures forall m :: m in shards ==> shards[m].Valid() && shards[m].metric == metric
    {
    }

    lemma MakeApart()
      requires forall m, n :: m in shards && n in shards && m != n ==>
                 shards[m] != shards[n] && shards[m].nodes.Values !! shards[n].nodes.Values
      ensures Apart()
    {
    }

    lemma MakeValid(l: Layout, names: seq<string>)
      requires ring.Valid() && Apart() && Sound() && l.virtualNodes >= 1
      requires View().ring == ring.View() == AddAll(l, EMPTY_RING, names) && View().shards.Keys == shards.Keys
      requires forall n :: n in shards <==> n in names
      ensures Valid()
    {
      hide Inv, Apart, Sound, Routable;
      if names == [] {
        assert ring.View() == EMPTY_RING;
      } else {
        assert names[0] in shards;
        NewRingRoutes(l, names, View());
      }
    }

    lemma MakeSound()
      requires forall n :: n in shards ==> shards[n].Valid() && shards[n].metric == metric
      ensures Sound()
    {
    }
  }

  /** What `Add` promises is one step of the index. */
  lemma AddedStep(metric: Metric, s: Index, vid: string, vec: Vec, meta: Option<Meta>, level: nat, s': Index, r: Result<(), Hnsw.Error>)
    requires Inv(s)
    requires r == if |vec| != s.dim then Err(Hnsw.BadShape) else if vid in s.idMap then Err(Hnsw.DuplicateId) else Ok(())
    requires r.Err? ==> s' == s
    requires r.Ok? ==> Added(metric, s, vid, vec, meta, level, s')
    ensures Step(metric, s, AddOp(vid, vec, meta, level), s')
  {
    hide Inv, Added;
  }

  lemma DeletedStep(metric: Metric, s: Index, vid: string, s': Index)
    requires Inv(s) && s' == Deleted(s, vid)
    ensures Step(metric, s, DeleteOp(vid), s')
  {
    hide Inv;
  }

  /** Without shards nothing changes. */
  lemma NowhereToGo(metric: Metric, hash: string -> nat, c: State, op: Op, r: Lookup)
    requires (forall n :: n in c.shards ==> Inv(c.shards[n])) && r == RouteOf(c.ring, hash(op.vid)) && r.NoNodes?
    ensures Stepped(metric, hash, c, op, c)
  {
    hide Inv;
  }

  lemma OneShardStepped(metric: Metric, hash: string -> nat, c: State, op: Op, c': State, n: string)
    requires (forall m :: m in c.shards ==> Inv(c.shards[m])) && RouteOf(c.ring, hash(op.vid)) == Owned(n) && n in c.shards
    requires c'.ring == c.ring && c'.shards.Keys == c.shards.Keys && Step(metric, c.shards[n], op, c'.shards[n])
    requires forall m :: m in c.shards && m != n ==> c'.shards[m] == c.shards[m]
    ensures Stepped(metric, hash, c, op, c')
  {
    hide Inv, Step;
  }

  /** What a write reports: the owning shard, or why not. */
  ghost function Reply(hash: string -> nat, c: State, vid: string, vec: Vec): Result<string, Error> {
    var r := RouteOf(c.ring, hash(vid));
    if !r.Owned? || r.node !in c.shards then Err(NoShards) else
    var s := c.shards[r.node];
    if |vec| != s.dim then Err(Refused(Hnsw.BadShape)) else if vid in s.idMap then Err(Refused(Hnsw.DuplicateId)) else Ok(r.node)
  }

  /** The shard the ring names for an id has had it. */
  ghost predicate OwnerKnows(hash: string -> nat, c: State, vid: string) {
    var r := RouteOf(c.ring, hash(vid));
    r.Owned? && r.node in c.shards && vid in c.shards[r.node].idMap
  }

  lemma NobodyKnows(hash: string -> nat, c: State, vid: string)
    requires RouteOf(c.ring, hash(vid)) == NoNodes
    ensures !OwnerKnows(hash, c, vid)
  {
    hide RouteOf;
  }

  lemma OwnerAsked(hash: string -> nat, c: State, vid: string, n: string)
    requires RouteOf(c.ring, hash(vid)) == Owned(n) && n in c.shards
    ensures OwnerKnows(hash, c, vid) <==> vid in c.shards[n].idMap
  {
    hide RouteOf;
  }

  lemma ReplyNowhere(hash: string -> nat, c: State, vid: string, vec: Vec)
    requires RouteOf(c.ring, hash(vid)).NoNodes?
    ensures Reply(hash, c, vid, vec) == Err(NoShards)
  {
  }

  lemma ReplyFrom(hash: string -> nat, c: State, vid: string, vec: Vec, n: string, added: Result<(), Hnsw.Error>, r: Result<string, Error>)
    requires RouteOf(c.ring, hash(vid)) == Owned(n) && n in c.shards
    requires added == if |vec| != c.shards[n].dim then Err(Hnsw.BadShape) else if vid in c.shards[n].idMap then Err(Hnsw.DuplicateId) else Ok(())
    requires r == if added.Ok? then Ok(n) else Err(Refused(added.error))
    ensures r == Reply(hash, c, vid, vec)
  {
  }

  // ---------- fan-out ----------

  ghost predicate AllSound(c: State) {
    forall n :: n in c.shards ==> Inv(c.shards[n])
  }

  /** Answers of the shards asked so far, in the order asked. */
  ghost predicate Collected(metric: Metric, c: State, q: Vec, k: int, ef: Option<int>, filter: Option<Filter>,
                            pending: set<string>, names: seq<string>, lists: seq<seq<(string, real)>>) {
    && AllSound(c) && |lists| == |names|
    && (forall n :: n in c.shards && n !in pending <==> n in names)
    && (forall i, j :: 0 <= i < j < |names| ==> names[i] != names[j])
    && forall i :: 0 <= i < |names| ==>
         names[i] in c.shards && k >= 1 && |q| == c.shards[names[i]].dim && Searched(metric, c.shards[names[i]], q, k, ef, filter, lists[i])
  }

  /** What a fan-out search may answer: nothing without shards, the error of a shard that refuses, else the
      merge of one answer from every shard. */
  ghost predicate Asked(metric: Metric, c: State, q: Vec, k: int, ef: Option<int>, filter: Option<Filter>, r: Result<seq<(string, real)>, Error>) {
    && AllSound(c)
    && if c.shards == map[] then r == Ok([]) else
       if k < 1 then r == Err(Refused(Hnsw.BadK)) else
       if exists n :: n in c.shards && |q| != c.shards[n].dim then r == Err(Refused(Hnsw.BadShape)) else
       exists names, lists :: Collected(metric, c, q, k, ef, filter, {}, names, lists) && r == Ok(Merged(lists, k))
  }

  lemma AskedNobody(metric: Metric, c: State, q: Vec, k: int, ef: Option<int>, filter: Option<Filter>)
    requires c.shards.Keys == {} && forall n :: n in c.shards ==> Inv(c.shards[n])
    ensures Asked(metric, c, q, k, ef, filter, Ok([]))
  {
  }

  lemma NothingCollected(metric: Metric, c: State, q: Vec, k: int, ef: Option<int>, filter: Option<Filter>)
    requires forall n :: n in c.shards ==> Inv(c.shards[n])
    ensures Collected(metric, c, q, k, ef, filter, c.shards.Keys, [], [])
  {
  }

  lemma CollectedOneMore(metric: Metric, c: State, q: Vec, k: int, ef: Option<int>, filter: Option<Filter>,
                         pending: set<string>, names: seq<string>, lists: seq<seq<(string, real)>>, n: string, answer: seq<(string, real)>)
    requires Collected(metric, c, q, k, ef, filter, pending, names, lists) && n in pending && n in c.shards && Inv(c.shards[n])
    requires k >= 1 && |q| == c.shards[n].dim && Searched(metric, c.shards[n], q, k, ef, filter, answer)
    ensures Collected(metric, c, q, k, ef, filter, pending - {n}, names + [n], lists + [answer])
  {
    hide Inv, Searched;
    assert n !in names;
  }

  lemma SomeoneCollected(metric: Metric, c: State, q: Vec, k: int, ef: Option<int>, filter: Option<Filter>,
                         names: seq<string>, lists: seq<seq<(string, real)>>)
    requires Collected(metric, c, q, k, ef, filter, {}, names, lists) && c.shards.Keys != {}
    ensures k >= 1
  {
    hide Inv, Searched;
    var n :| n in c.shards.Keys;
    assert n in names;
  }

  lemma AskedRefused(metric: Metric, c: State, q: Vec, k: int, ef: Option<int>, filter: Option<Filter>, n: string, e: Hnsw.Error)
    requires (forall m :: m in c.shards ==> Inv(c.shards[m])) && n in c.shards
    requires if k < 1 then e == Hnsw.BadK else |q| != c.shards[n].dim && e == Hnsw.BadShape
    ensures Asked(metric, c, q, k, ef, filter, Err(Refused(e)))
  {
    hide Inv, Collected;
  }

  lemma AskedAll(metric: Metric, c: State, q: Vec, k: int, ef: Option<int>, filter: Option<Filter>,
                 pending: set<string>, names: seq<string>, lists: seq<seq<(string, real)>>)
    requires Collected(metric, c, q, k, ef, filter, pending, names, lists) && pending == {} && c.shards.Keys != {}
    requires k >= 0
    ensures Asked(metric, c, q, k, ef, filter, Ok(Merged(lists, k)))
  {
    hide Inv, Searched, Merged;
    var n :| n in c.shards.Keys;
    assert n in names;
    forall m | m in c.shards ensures |q| == c.shards[m].dim {
      assert m in names;
    }
  }

  ghost predicate Stepped(metric: Metric, hash: string -> nat, c: State, op: Op, c': State) {
    (forall n :: n in c.shards ==> Inv(c.shards[n])) && ClusterStep(metric, hash, c, op, c')
  }
}
