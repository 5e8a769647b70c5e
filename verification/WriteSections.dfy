/** Alone on a sound index, a write section of the program does what its operation may do.

    The invariant (`WriteOk`) says where a section stands in terms of the relations of `Graph`: how far the coarse
    descent has come, through which layers the new node is wired, which edges of the present layer are made and which
    neighbours trimmed. Each kind of step keeps it; at the end it says that the operation was done. */
module WriteSections {
  import opened Types
  import opened Ranking
  import opened BeamLoop
  import opened Graph
  import opened GraphInvariant
  import opened Wiring
  import opened Runs
  import opened Isolation
  import opened Concurrent
  import opened Sections

  // ---------- how far a write has come ----------

  /** The graph with the new node filed and not connected. */
  function Base(s: Index, op: Op): Nodes
    requires op.AddOp?
  {
    Registered(s, op.vid, op.vec, op.meta, op.level).nodes
  }

  function FineTop(s: Index, op: Op): nat
    requires op.AddOp?
  {
    Min(op.level, s.maxLayer)
  }

  ghost predicate CoarseAt(metric: Metric, s: Index, op: Op, layer: nat, ep: nat)
    requires op.AddOp?
  {
    && s.entry.Some? && EdgesOk(Base(s, op)) && s.nextId in Base(s, op) && s.entry.value in Base(s, op) && ep in Base(s, op)
    && Descended(metric, Base(s, op), s.deleted, op.vec, s.entry.value, s.maxLayer, layer, ep)
  }

  ghost predicate FineFrom(metric: Metric, s: Index, op: Op, ep1: nat, layer: nat, g: Nodes, ep: nat)
    requires op.AddOp?
  {
    && CoarseAt(metric, s, op, op.level, ep1)
    && InsertedDown(metric, s.M, s.efc, s.deleted, s.nextId, Base(s, op), ep1, FineTop(s, op), layer, g, ep)
    && Progress(Base(s, op), s.M, s.nextId, FineTop(s, op), layer, g, ep)
  }

  /** The fine insert is through layer `layer`. */
  ghost predicate FineAt(metric: Metric, s: Index, op: Op, layer: nat, g: Nodes, ep: nat)
    requires op.AddOp?
  {
    exists ep1 :: FineFrom(metric, s, op, ep1, layer, g, ep)
  }

  /** The next layer of `g` has been walked and neighbours selected. */
  ghost predicate Selected(metric: Metric, s: Index, op: Op, layer: nat, g: Nodes, ep: nat, found: set<nat>, sel: set<nat>, next: nat)
    requires op.AddOp?
  {
    && FineAt(metric, s, op, layer + 1, g, ep) && layer <= FineTop(s, op)
    && EdgesOk(g) && s.nextId in g && ep in g && found <= g.Keys && sel <= g.Keys && s.nextId !in sel && layer in g[s.nextId].nbrs
    && Walked(metric, g, s.deleted, None, g[s.nextId].vec, ep, s.efc, layer, found)
    && NearestOf(metric, g, g[s.nextId].vec, found, next)
    && Closest(DistFrom(metric, g, g[s.nextId].vec), Cap(s.M, layer), found, sel)
  }

  ghost predicate Linking(metric: Metric, s: Index, op: Op, layer: nat, sel: set<nat>, todo: set<nat>, half: Option<nat>, next: nat, now: Nodes)
    requires op.AddOp?
  {
    exists g, ep, found :: Selected(metric, s, op, layer, g, ep, found, sel, next) && LinkedUpTo(g, s.nextId, layer, sel, todo, half, now)
  }

  ghost predicate LinkedUpTo(g: Nodes, iid: nat, layer: nat, sel: set<nat>, todo: set<nat>, half: Option<nat>, now: Nodes)
  {
    && iid in g && todo <= sel
    && var j := Joined(g, iid, layer, sel - todo);
    if half.None? then now == j else half.value in todo && now == PutEdge(j, layer, iid, half.value)
  }

  ghost predicate Pruning(metric: Metric, s: Index, op: Op, layer: nat, sel: set<nat>, todo: set<nat>, next: nat, now: Nodes)
    requires op.AddOp?
  {
    exists g, ep, found :: Selected(metric, s, op, layer, g, ep, found, sel, next) && PrunedUpTo(metric, g, s.M, s.nextId, layer, sel, todo, now)
  }

  ghost predicate PrunedUpTo(metric: Metric, g: Nodes, M: nat, iid: nat, layer: nat, sel: set<nat>, todo: set<nat>, now: Nodes) {
    var mid := Joined(g, iid, layer, sel);
    todo <= sel && InRange(g, mid, layer) && SameVectors(g, mid) && PartlyTrimmed(metric, g, mid, Cap(M, layer), layer, sel - todo, now)
  }

  /** The add is neither refused nor the first, and only the graph differs from the registered index. */
  ghost predicate Inserting(s: Index, op: Op, d: Index) {
    && op.AddOp? && s.entry.Some? && |op.vec| == s.dim && op.vid !in s.idMap
    && d == Registered(s, op.vid, op.vec, op.meta, op.level).(nodes := d.nodes)
  }

  /** Where the section stands, given the index `s` it started on and the index `d` it has made of it. */
  ghost predicate WriteOk(metric: Metric, s: Index, ask: Ask, l: Local, d: Index)
    requires Inv(s)
  {
    l.ask == ask && ask.ForWrite? &&
    match l
    case Asked(_) => d == s
    case Walks(_, layer, ep, m) =>
      && Inserting(s, ask.op, d)
      && if layer > ask.op.level then
           && d.nodes == Base(s, ask.op) && layer <= s.maxLayer && CoarseAt(metric, s, ask.op, layer, ep)
           && Reaches(WriteWalk(metric, d, ask.op, layer), ep, 1, m)
         else
           && layer <= FineTop(s, ask.op) && FineAt(metric, s, ask.op, layer + 1, d.nodes, ep)
           && Reaches(WriteWalk(metric, d, ask.op, layer), ep, s.efc, m)
    case Links(_, layer, sel, todo, half, next) =>
      Inserting(s, ask.op, d) && Linking(metric, s, ask.op, layer, sel, todo, half, next, d.nodes)
    case Prunes(_, layer, sel, todo, next) =>
      Inserting(s, ask.op, d) && Pruning(metric, s, ask.op, layer, sel, todo, next, d.nodes)
    case Ended(_, _) => Step(metric, s, ask.op, d)
  }

  // ---------- the fine insert, layer by layer ----------

  lemma FineStarts(metric: Metric, s: Index, op: Op, ep1: nat)
    requires Inv(s) && op.AddOp? && CoarseAt(metric, s, op, op.level, ep1)
    ensures FineAt(metric, s, op, FineTop(s, op) + 1, Base(s, op), ep1)
  {
    hide Inv, EdgesOk, Descended, InsertedDown, Progress;
    ReadyToInsert(metric, s, op.vid, op.vec, op.meta, op.level, ep1);
    InsertedDownStart(metric, s.M, s.efc, s.deleted, s.nextId, Base(s, op), ep1, FineTop(s, op), FineTop(s, op) + 1);
    assert FineFrom(metric, s, op, ep1, FineTop(s, op) + 1, Base(s, op), ep1);
  }

  /** What the walk of the next layer may count on. */
  lemma FineFacts(metric: Metric, s: Index, op: Op, layer: nat, g: Nodes, ep: nat)
    requires op.AddOp? && layer <= FineTop(s, op) && FineAt(metric, s, op, layer + 1, g, ep)
    ensures EdgesOk(g) && s.nextId in g && ep in g && g[s.nextId].vec == op.vec && layer in g[s.nextId].nbrs
    ensures Standing(g, s.nextId, ep, layer) && forall i: nat :: !Edge(g, i, layer, s.nextId)
  {
    hide Descended, InsertedDown;
    var ep1 :| FineFrom(metric, s, op, ep1, layer + 1, g, ep);
    assert g[s.nextId].Shaped();
    assert Base(s, op)[s.nextId].vec == op.vec;
  }

  lemma FineNext(metric: Metric, s: Index, op: Op, layer: nat, g: Nodes, ep: nat, found: set<nat>, sel: set<nat>, next: nat, now: Nodes)
    requires Inv(s) && op.AddOp? && Selected(metric, s, op, layer, g, ep, found, sel, next)
    requires Wired(metric, s.M, g, s.nextId, layer, sel, now)
    ensures FineAt(metric, s, op, layer, now, next)
  {
    AtLeastTwo(s);
    hide Inv, EdgesOk, Descended, InsertedDown, Progress, Wired, Inserted, Closest, Walked, NearestOf;
    var ep1 :| FineFrom(metric, s, op, ep1, layer + 1, g, ep);
    var from := FineTop(s, op);
    InsertedStep(metric, s.M, s.efc, s.deleted, s.nextId, layer, g, ep, now, next, found, sel);
    InsertedDownStep(metric, s.M, s.efc, s.deleted, s.nextId, Base(s, op), ep1, from, layer, g, ep, now, next);
    StepKeeps(metric, s.M, s.efc, s.deleted, s.nextId, Base(s, op), from, layer, g, ep, now, next);
    assert FineFrom(metric, s, op, ep1, layer, now, next);
  }

  lemma FineEnds(metric: Metric, s: Index, op: Op, g: Nodes, ep: nat, d: Index)
    requires Inv(s) && op.AddOp? && s.entry.Some? && FineAt(metric, s, op, 0, g, ep)
    requires Finished(s, op.vid, op.vec, op.meta, op.level, g, d)
    ensures Added(metric, s, op.vid, op.vec, op.meta, op.level, d)
  {
    hide Inv, EdgesOk, Descended, InsertedDown, Progress, Finished, Added;
    var ep1 :| FineFrom(metric, s, op, ep1, 0, g, ep);
    AddedBy(metric, s, op.vid, op.vec, op.meta, op.level, ep1, g, ep, d);
  }

  // ---------- the steps ----------

  lemma WriteStarts(metric: Metric, s: Index, ask: Ask, l': Local, d: Index)
    requires Inv(s) && ask.ForWrite? && WriteBegins(s, ask, l', d)
    ensures WriteOk(metric, s, ask, l', d)
  {
    hide Inv, EdgesOk, Descended, Reaches, Added, FineAt, LayerWalk;
    if ask.op.AddOp? {
      var op := ask.op;
      if |op.vec| == s.dim && op.vid !in s.idMap {
        if s.entry.None? {
          AddedFirst(metric, s, op.vid, op.vec, op.meta, op.level, d);
        } else {
          ReadyToDescend(s, op.vid, op.vec, op.meta, op.level);
          DescendedStart(metric, Base(s, op), s.deleted, op.vec, s.entry.value, s.maxLayer, s.maxLayer);
          ReachesFirst(WriteWalk(metric, d, op, s.maxLayer), s.entry.value, if s.maxLayer > op.level then 1 else s.efc);
          if s.maxLayer <= op.level {
            DescendedStart(metric, Base(s, op), s.deleted, op.vec, s.entry.value, s.maxLayer, op.level);
            FineStarts(metric, s, op, s.entry.value);
          }
        }
      }
    }
  }

  lemma CoarseMoves(metric: Metric, s: Index, ask: Ask, l: Local, d: Index, l': Local)
    requires Inv(s) && WriteOk(metric, s, ask, l, d) && l.Walks? && l.layer > ask.op.level
    requires Stops(WriteWalk(metric, d, ask.op, l.layer), l.m) && WriteMovesOn(metric, d, l, l')
    ensures WriteOk(metric, s, ask, l', d)
  {
    hide Inv, EdgesOk, Descended, Reaches, Stops, Outcome, LayerWalk, FineAt;
    var op := ask.op;
    var e :| NearestOf(metric, d.nodes, op.vec, l.m.found, e) && l' == Walks(l.ask, l.layer - 1, e, FirstMoment(e));
    StoppedOutcome(WriteWalk(metric, d, op, l.layer), l.ep, 1, l.m);
    assert Walked(metric, d.nodes, d.deleted, None, op.vec, l.ep, 1, l.layer, l.m.found);
    MovedStep(metric, d.nodes, d.deleted, op.vec, l.ep, l.layer, e, l.m.found);
    DescendedStep(metric, d.nodes, d.deleted, op.vec, s.entry.value, s.maxLayer, l.layer - 1, l.ep, e);
    ReachesFirst(WriteWalk(metric, d, op, l.layer - 1), e, if l.layer - 1 > op.level then 1 else s.efc);
    if l.layer - 1 <= op.level {
      FineStarts(metric, s, op, e);
    }
  }

  lemma FineSelects(metric: Metric, s: Index, ask: Ask, l: Local, d: Index, l': Local)
    requires Inv(s) && WriteOk(metric, s, ask, l, d) && l.Walks? && l.layer <= ask.op.level
    requires Stops(WriteWalk(metric, d, ask.op, l.layer), l.m) && WriteMovesOn(metric, d, l, l')
    ensures WriteOk(metric, s, ask, l', d)
  {
    hide Inv, EdgesOk, Descended, Reaches, Stops, Outcome, LayerWalk, FineAt, DistFrom, Closest, Edge;
    var op, g := ask.op, d.nodes;
    var e, sel :| NearestOf(metric, g, op.vec, l.m.found, e) && l.m.found <= DistFrom(metric, g, op.vec).Keys
      && Closest(DistFrom(metric, g, op.vec), Cap(d.M, l.layer), l.m.found, sel) && l' == Links(l.ask, l.layer, sel, sel, None, e);
    FineFacts(metric, s, op, l.layer, g, l.ep);
    StoppedOutcome(WriteWalk(metric, d, op, l.layer), l.ep, s.efc, l.m);
    assert Walked(metric, g, s.deleted, None, g[s.nextId].vec, l.ep, s.efc, l.layer, l.m.found);
    WalkStays(metric, g, s.deleted, None, g[s.nextId].vec, l.ep, s.efc, l.layer, l.m.found, s.nextId);
    ClosestWithin(DistFrom(metric, g, op.vec), Cap(d.M, l.layer), l.m.found, sel);
    assert Selected(metric, s, op, l.layer, g, l.ep, l.m.found, sel, e);
    JoinedNothing(g, s.nextId, l.layer);
    assert sel - sel == {};
    assert LinkedUpTo(g, s.nextId, l.layer, sel, sel, None, g);
  }

  lemma ClosestWithin(d: map<nat, real>, n: nat, S: set<nat>, R: set<nat>)
    requires S <= d.Keys && Closest(d, n, S, R)
    ensures R <= S
  {
  }

  // ---------- linking ----------

  lemma LinkMore(g: Nodes, iid: nat, layer: nat, sel: set<nat>, todo: set<nat>, half: Option<nat>, now: Nodes, nb: nat)
    requires iid in g && sel <= g.Keys && iid !in sel && nb in todo && LinkedUpTo(g, iid, layer, sel, todo, half, now)
    ensures half.None? ==> iid in now && LinkedUpTo(g, iid, layer, sel, todo, Some(nb), PutEdge(now, layer, iid, nb))
    ensures half == Some(nb) ==> nb in now && LinkedUpTo(g, iid, layer, sel, todo - {nb}, None, PutEdge(now, layer, nb, iid))
  {
    JoinedOneMore(g, iid, layer, sel - todo, nb);
    assert sel - todo + {nb} == sel - (todo - {nb});
  }

  lemma LinkKeeps(metric: Metric, s: Index, ask: Ask, l: Local, d: Index, l': Local, d': Index)
    requires Inv(s) && WriteOk(metric, s, ask, l, d) && l.Links? && (l.half.Some? || l.todo != {}) && LinkMicro(d, l, l', d')
    ensures WriteOk(metric, s, ask, l', d')
  {
    hide Inv, Selected, LinkedUpTo;
    var op := ask.op;
    var g, ep, found :| Selected(metric, s, op, l.layer, g, ep, found, l.sel, l.next) && LinkedUpTo(g, s.nextId, l.layer, l.sel, l.todo, l.half, d.nodes);
    SelectedFacts(metric, s, op, l.layer, g, ep, found, l.sel, l.next);
    if l.half.Some? {
      HalfIsDue(g, s.nextId, l.layer, l.sel, l.todo, l.half, d.nodes);
      LinkMore(g, s.nextId, l.layer, l.sel, l.todo, l.half, d.nodes, l.half.value);
    } else {
      var nb :| nb in l.todo && Newest(d) in d.nodes && d' == d.(nodes := PutEdge(d.nodes, l.layer, Newest(d), nb)) && l' == l.(half := Some(nb));
      LinkMore(g, s.nextId, l.layer, l.sel, l.todo, l.half, d.nodes, nb);
    }
  }

  lemma HalfIsDue(g: Nodes, iid: nat, layer: nat, sel: set<nat>, todo: set<nat>, half: Option<nat>, now: Nodes)
    requires iid in g && LinkedUpTo(g, iid, layer, sel, todo, half, now) && half.Some?
    ensures half.value in todo
  {
  }

  lemma SelectedFacts(metric: Metric, s: Index, op: Op, layer: nat, g: Nodes, ep: nat, found: set<nat>, sel: set<nat>, next: nat)
    requires op.AddOp? && Selected(metric, s, op, layer, g, ep, found, sel, next)
    ensures EdgesOk(g) && s.nextId in g && sel <= g.Keys && s.nextId !in sel
  {
    hide EdgesOk, FineAt, Walked, NearestOf, Closest, DistFrom;
  }

  lemma LinkEnds(metric: Metric, s: Index, ask: Ask, l: Local, d: Index, l': Local, d': Index)
    requires Inv(s) && WriteOk(metric, s, ask, l, d) && l.Links? && l.half.None? && l.todo == {} && LinkMicro(d, l, l', d')
    ensures WriteOk(metric, s, ask, l', d')
  {
    hide Inv, Selected, InRange, SameVectors, PartlyTrimmed, EdgesOk, Joined;
    var op := ask.op;
    var g, ep, found :| Selected(metric, s, op, l.layer, g, ep, found, l.sel, l.next) && LinkedUpTo(g, s.nextId, l.layer, l.sel, l.todo, l.half, d.nodes);
    SelectedFacts(metric, s, op, l.layer, g, ep, found, l.sel, l.next);
    assert l.sel - {} == l.sel && l.sel - l.sel == {};
    JoinedInRange(g, s.nextId, l.layer, l.sel);
    NothingTrimmed(metric, g, d.nodes, Cap(s.M, l.layer), l.layer);
    assert PrunedUpTo(metric, g, s.M, s.nextId, l.layer, l.sel, l.sel, d.nodes);
  }

  // ---------- pruning ----------

  lemma PruneMore(metric: Metric, g: Nodes, d: Index, iid: nat, layer: nat, sel: set<nat>, todo: set<nat>, nb: nat, d': Index)
    requires sel <= g.Keys && nb in todo && PrunedUpTo(metric, g, d.M, iid, layer, sel, todo, d.nodes) && PruneOne(metric, d, layer, nb, d')
    ensures PrunedUpTo(metric, g, d.M, iid, layer, sel, todo - {nb}, d'.nodes) && d' == d.(nodes := d'.nodes)
  {
    hide InRange, SameVectors, PartlyTrimmed, Joined, DistFrom, Closest;
    var mid, now := Joined(g, iid, layer, sel), d.nodes;
    TrimFacts(metric, g, mid, Cap(d.M, layer), layer, sel - todo, now, nb);
    assert sel - todo + {nb} == sel - (todo - {nb});
    if |now[nb].Nbrs(layer)| > Cap(d.M, layer) {
      var kept :| now[nb].Nbrs(layer) <= DistFrom(metric, now, now[nb].vec).Keys
        && Closest(DistFrom(metric, now, now[nb].vec), Cap(d.M, layer), now[nb].Nbrs(layer), kept)
        && d' == d.(nodes := now[nb := now[nb].Put(layer, kept)]);
      TrimOne(metric, g, mid, Cap(d.M, layer), layer, sel - todo, now, nb, kept);
    }
  }

  lemma PruneKeeps(metric: Metric, s: Index, ask: Ask, l: Local, d: Index, l': Local, d': Index)
    requires Inv(s) && WriteOk(metric, s, ask, l, d) && l.Prunes? && ask.op.AddOp? && l.todo != {} && PruneMicro(metric, d, l, l', d')
    ensures WriteOk(metric, s, ask, l', d')
  {
    hide Inv, Selected, PrunedUpTo, PruneOne;
    var op := ask.op;
    var g, ep, found :| Selected(metric, s, op, l.layer, g, ep, found, l.sel, l.next) && PrunedUpTo(metric, g, s.M, s.nextId, l.layer, l.sel, l.todo, d.nodes);
    SelectedFacts(metric, s, op, l.layer, g, ep, found, l.sel, l.next);
    var nb :| nb in l.todo && PruneOne(metric, d, l.layer, nb, d') && l' == Prunes(l.ask, l.layer, l.sel, l.todo - {nb}, l.next);
    PruneMore(metric, g, d, s.nextId, l.layer, l.sel, l.todo, nb, d');
  }

  /** When every selected neighbour has been considered, the layer is done. */
  lemma LayerWired(metric: Metric, s: Index, op: Op, layer: nat, sel: set<nat>, next: nat, now: Nodes)
    requires Inv(s) && op.AddOp? && Pruning(metric, s, op, layer, sel, {}, next, now)
    ensures layer <= FineTop(s, op) && FineAt(metric, s, op, layer, now, next)
  {
    hide Inv, FineAt, InRange, SameVectors, PartlyTrimmed, EdgesOk, Joined, Wired, Walked, NearestOf, Closest, DistFrom;
    var g, ep, found :| Selected(metric, s, op, layer, g, ep, found, sel, next) && PrunedUpTo(metric, g, s.M, s.nextId, layer, sel, {}, now);
    assert sel - {} == sel;
    WiredWhenTrimmed(metric, s.M, g, s.nextId, layer, sel, now);
    FineNext(metric, s, op, layer, g, ep, found, sel, next, now);
  }

  lemma PruneEnds(metric: Metric, s: Index, ask: Ask, l: Local, d: Index, l': Local, d': Index)
    requires Inv(s) && WriteOk(metric, s, ask, l, d) && l.Prunes? && ask.op.AddOp? && l.todo == {} && PruneMicro(metric, d, l, l', d')
    ensures WriteOk(metric, s, ask, l', d')
  {
    hide Inv, Pruning, FineAt, Added, Reaches, LayerWalk;
    var op := ask.op;
    LayerWired(metric, s, op, l.layer, l.sel, l.next, d.nodes);
    if l.layer > 0 {
      ReachesFirst(WriteWalk(metric, d, op, l.layer - 1), l.next, s.efc);
    } else {
      FineEnds(metric, s, op, d.nodes, l.next, d');
    }
  }

  // ---------- the section ----------

  lemma WalkStep(metric: Metric, s: Index, ask: Ask, l: Local, d: Index, l': Local, d': Index)
    requires Inv(s) && WriteOk(metric, s, ask, l, d) && l.Walks? && WriteMicro(metric, l, d, l', d')
    ensures WriteOk(metric, s, ask, l', d')
  {
    hide Inv, Reaches, Stops, Moves, WriteWalk, WriteMovesOn, FineAt, CoarseAt;
    var w, ef := WriteWalk(metric, d, ask.op, l.layer), if l.layer > ask.op.level then 1 else d.efc;
    if m' :| Moves(w, ef, l.m, m') && l' == Walks(ask, l.layer, l.ep, m') {
      ReachesNext(w, l.ep, ef, l.m, m');
    } else if l.layer > ask.op.level {
      CoarseMoves(metric, s, ask, l, d, l');
    } else {
      FineSelects(metric, s, ask, l, d, l');
    }
  }

  lemma WriteMicroKeeps(metric: Metric, s: Index, ask: Ask, l: Local, d: Index, l': Local, d': Index)
    requires Inv(s) && WriteOk(metric, s, ask, l, d) && WriteMicro(metric, l, d, l', d')
    ensures WriteOk(metric, s, ask, l', d')
  {
    hide Inv, WriteBegins, LinkMicro, PruneMicro, Reaches, Stops, Moves, WriteWalk, WriteMovesOn, FineAt, CoarseAt, Linking, Pruning, Step;
    match l
    case Asked(_) => WriteStarts(metric, s, ask, l', d');
    case Walks(_, _, _, _) => WalkStep(metric, s, ask, l, d, l', d');
    case Links(_, _, _, _, _, _) =>
      if l.half.Some? || l.todo != {} {
        LinkKeeps(metric, s, ask, l, d, l', d');
      } else {
        LinkEnds(metric, s, ask, l, d, l', d');
      }
    case Prunes(_, _, _, _, _) =>
      if l.todo != {} {
        PruneKeeps(metric, s, ask, l, d, l', d');
      } else {
        PruneEnds(metric, s, ask, l, d, l', d');
      }
    case Ended(_, _) =>
  }

  lemma {:induction false} WriteTrace(metric: Metric, s: Index, trace: seq<(Local, Index)>, i: nat)
    requires Inv(s) && WriteAlone(IndexService(metric).prog, s, trace) && i < |trace|
    ensures WriteOk(metric, s, trace[0].0.ask, trace[i].0, trace[i].1)
  {
    hide Inv, WriteMicro, WriteOk;
    if i == 0 {
      WriteAsked(metric, s, trace[0].0);
    } else {
      WriteTrace(metric, s, trace, i - 1);
      assert Writes(IndexService(metric).prog, trace, i - 1);
      WriteMicroKeeps(metric, s, trace[0].0.ask, trace[i - 1].0, trace[i - 1].1, trace[i].0, trace[i].1);
    }
  }

  lemma WriteAsked(metric: Metric, s: Index, l: Local)
    requires Inv(s) && l.Asked? && l.ask.ForWrite?
    ensures WriteOk(metric, s, l.ask, l, s)
  {
    hide Inv;
  }

  lemma WriteServes(metric: Metric, s: Index, trace: seq<(Local, Index)>)
    requires Inv(s) && WriteAlone(IndexService(metric).prog, s, trace) && Complete(IndexService(metric).prog, trace)
    ensures Step(metric, s, IndexService(metric).op(trace[0].0), trace[|trace| - 1].1)
  {
    hide Inv, Step, Inserting, FineAt, CoarseAt, Linking, Pruning, Reaches, WriteMicro;
    WriteTrace(metric, s, trace, |trace| - 1);
  }

  /** Alone on a sound index, the write section does what its `add` or `delete` may do. */
  lemma WritesServe(metric: Metric)
    ensures ServesWrites(metric, IndexService(metric))
  {
    hide Inv, Step, IndexService;
    var sv := IndexService(metric);
    forall s: Index, trace: seq<(Local, Index)> | Inv(s) && WriteAlone(sv.prog, s, trace) && Complete(sv.prog, trace)
      ensures Step(metric, s, sv.op(trace[0].0), trace[|trace| - 1].1)
    {
      WriteServes(metric, s, trace);
    }
  }

  /** However the micro-steps of searches, inserts and deletes interleave under the lock, the writes form a history of
      the index in the order they left, and every search answers what it may answer at its place in it. */
  lemma IndexIsSequential(metric: Metric, d0: Index, threads: set<nat>, sys: seq<Sys<Local, Index>>, who: seq<nat>, i: nat)
    requires SysRun(IndexService(metric).prog, d0, threads, sys, who) && i < |sys|
    requires 1 <= d0.dim && 2 <= d0.M <= d0.efc && d0 == EmptyIndex(d0.dim, d0.M, d0.efc)
    ensures var log := sys[i].log;
            && Run(metric, StatesOf(d0, log), OpsOf(IndexService(metric), log))
            && forall j: nat :: j < |log| && !log[j].writing ==> AnsweredInPlace(metric, IndexService(metric), d0, log, j)
  {
    hide *;
    SearchesServe(metric);
    WritesServe(metric);
    ConcurrentIsSequential(metric, IndexService(metric), d0, threads, sys, who, i);
  }
}
