/** The sections of `add`, `delete` and `search`, one read or one update of a neighbour set at a time. */
module Sections {
  import opened Types
  import opened Ranking
  import opened Ranked
  import opened Beam
  import opened BeamLoop
  import opened Graph
  import opened Wiring
  import opened Runs
  import opened Isolation
  import opened Concurrent

  datatype Ask = ForSearch(query: Query) | ForWrite(op: Op)

  /** Where a section stands: walking a layer, adding edges, trimming neighbours, or at its end. An edge is added in
      two updates, first the new node's side, then (`half`) its neighbour's. */
  datatype Local =
    | Asked(ask: Ask)
    | Walks(ask: Ask, layer: nat, ep: nat, m: Moment)
    | Links(ask: Ask, layer: nat, sel: set<nat>, todo: set<nat>, half: Option<nat>, next: nat)
    | Prunes(ask: Ask, layer: nat, sel: set<nat>, todo: set<nat>, next: nat)
    | Ended(ask: Ask, answer: seq<(string, real)>)

  // ---------- the steps of a search ----------

  function FilterAt(qu: Query, layer: nat): Option<Filter> { if layer == 0 then qu.filter else None }

  function WidthAt(qu: Query, efc: nat, layer: nat): int { if layer == 0 then EffectiveEf(qu.k, efc, qu.ef) else 1 }

  ghost function SearchWalk(metric: Metric, d: Index, qu: Query, layer: nat): Walk {
    LayerWalk(metric, d.nodes, d.deleted, FilterAt(qu, layer), qu.q, layer)
  }

  ghost predicate SearchBegins(d: Index, ask: Ask, l': Local) {
    if d.entry.None? then l' == Ended(ask, []) else l' == Walks(ask, d.maxLayer, d.entry.value, FirstMoment(d.entry.value))
  }

  /** The layer is walked: move on to the nearest node found, or on layer 0 rank what is eligible. */
  ghost predicate SearchMovesOn(metric: Metric, d: Index, l: Local, l': Local)
    requires l.Walks? && l.ask.ForSearch?
  {
    var qu := l.ask.query;
    if l.layer > 0 then
      exists e :: NearestOf(metric, d.nodes, qu.q, l.m.found, e) && l' == Walks(l.ask, l.layer - 1, e, FirstMoment(e))
    else
      exists xs, res ::
        && l.m.found <= d.nodes.Keys && EligibleIn(d.nodes, d.deleted, qu.filter, l.m.found) <= DistFrom(metric, d.nodes, qu.q).Keys
        && IsRanking(DistFrom(metric, d.nodes, qu.q), EligibleIn(d.nodes, d.deleted, qu.filter, l.m.found), qu.k, xs)
        && Named(d.nodes, xs, res) && l' == Ended(l.ask, res)
  }

  ghost predicate SearchMicro(metric: Metric, l: Local, d: Index, l': Local) {
    l.ask.ForSearch? &&
    match l
    case Asked(ask) => SearchBegins(d, ask, l')
    case Walks(ask, layer, ep, m) =>
      var w := SearchWalk(metric, d, ask.query, layer);
      || (exists m' :: Moves(w, WidthAt(ask.query, d.efc, layer), m, m') && l' == Walks(ask, layer, ep, m'))
      || (Stops(w, m) && SearchMovesOn(metric, d, l, l'))
    case Links(_, _, _, _, _, _) => false
    case Prunes(_, _, _, _, _) => false
    case Ended(_, _) => false
  }

  // ---------- the steps of a write ----------

  /** Node `i` gets one more layer-`l` neighbour. */
  function PutEdge(nodes: Nodes, l: nat, i: nat, j: nat): Nodes
    requires i in nodes
  {
    nodes[i := nodes[i].Put(l, nodes[i].Nbrs(l) + {j})]
  }

  /** The node a write is inserting has the last id given out. */
  function Newest(d: Index): nat { if d.nextId > 0 then d.nextId - 1 else 0 }

  ghost predicate WriteBegins(d: Index, ask: Ask, l': Local, d': Index)
    requires ask.ForWrite?
  {
    match ask.op
    case DeleteOp(vid) => l' == Ended(ask, []) && d' == Deleted(d, vid)
    case AddOp(vid, vec, meta, level) =>
      if |vec| != d.dim || vid in d.idMap then l' == Ended(ask, []) && d' == d else
      var b := Registered(d, vid, vec, meta, level);
      if d.entry.None? then l' == Ended(ask, []) && d' == b.(entry := Some(d.nextId), maxLayer := level)
      else l' == Walks(ask, d.maxLayer, d.entry.value, FirstMoment(d.entry.value)) && d' == b
  }

  ghost function WriteWalk(metric: Metric, d: Index, op: Op, layer: nat): Walk
    requires op.AddOp?
  {
    LayerWalk(metric, d.nodes, d.deleted, None, op.vec, layer)
  }

  ghost predicate WriteMovesOn(metric: Metric, d: Index, l: Local, l': Local)
    requires l.Walks? && l.ask.ForWrite? && l.ask.op.AddOp?
  {
    var op := l.ask.op;
    exists e :: NearestOf(metric, d.nodes, op.vec, l.m.found, e) &&
      if l.layer > op.level then l' == Walks(l.ask, l.layer - 1, e, FirstMoment(e))
      else exists sel :: l.m.found <= DistFrom(metric, d.nodes, op.vec).Keys
             && Closest(DistFrom(metric, d.nodes, op.vec), Cap(d.M, l.layer), l.m.found, sel) && l' == Links(l.ask, l.layer, sel, sel, None, e)
  }

  ghost predicate LinkMicro(d: Index, l: Local, l': Local, d': Index)
    requires l.Links?
  {
    if l.half.Some? then
      && l.half.value in d.nodes && d' == d.(nodes := PutEdge(d.nodes, l.layer, l.half.value, Newest(d)))
      && l' == l.(todo := l.todo - {l.half.value}, half := None)
    else if l.todo != {} then
      exists nb :: nb in l.todo && Newest(d) in d.nodes && d' == d.(nodes := PutEdge(d.nodes, l.layer, Newest(d), nb))
        && l' == l.(half := Some(nb))
    else d' == d && l' == Prunes(l.ask, l.layer, l.sel, l.sel, l.next)
  }

  /** One selected neighbour is trimmed if it has too many edges now. */
  ghost predicate PruneOne(metric: Metric, d: Index, layer: nat, nb: nat, d': Index) {
    && nb in d.nodes
    && if |d.nodes[nb].Nbrs(layer)| > Cap(d.M, layer) then
         exists kept :: d.nodes[nb].Nbrs(layer) <= DistFrom(metric, d.nodes, d.nodes[nb].vec).Keys
           && Closest(DistFrom(metric, d.nodes, d.nodes[nb].vec), Cap(d.M, layer), d.nodes[nb].Nbrs(layer), kept)
           && d' == d.(nodes := d.nodes[nb := d.nodes[nb].Put(layer, kept)])
       else d' == d
  }

  ghost predicate PruneMicro(metric: Metric, d: Index, l: Local, l': Local, d': Index)
    requires l.Prunes? && l.ask.ForWrite? && l.ask.op.AddOp?
  {
    var level := l.ask.op.level;
    if l.todo != {} then exists nb :: nb in l.todo && PruneOne(metric, d, l.layer, nb, d') && l' == Prunes(l.ask, l.layer, l.sel, l.todo - {nb}, l.next)
    else if l.layer > 0 then d' == d && l' == Walks(l.ask, l.layer - 1, l.next, FirstMoment(l.next))
    else
      && d' == d.(entry := if level > d.maxLayer then Some(Newest(d)) else d.entry, maxLayer := Max(level, d.maxLayer))
      && l' == Ended(l.ask, [])
  }

  ghost predicate WriteMicro(metric: Metric, l: Local, d: Index, l': Local, d': Index) {
    l.ask.ForWrite? && (l.Asked? || l.ask.op.AddOp?) &&
    match l
    case Asked(ask) => WriteBegins(d, ask, l', d')
    case Walks(ask, layer, ep, m) =>
      && d' == d
      && var w := WriteWalk(metric, d, ask.op, layer);
      || (exists m' :: Moves(w, if layer > ask.op.level then 1 else d.efc, m, m') && l' == Walks(ask, layer, ep, m'))
      || (Stops(w, m) && WriteMovesOn(metric, d, l, l'))
    case Links(_, _, _, _, _, _) => LinkMicro(d, l, l', d')
    case Prunes(_, _, _, _, _) => PruneMicro(metric, d, l, l', d')
    case Ended(_, _) => false
  }

  /** The index as a program of sections. */
  ghost function IndexService(metric: Metric): Service<Local> {
    Service(
      Prog((l: Local) => l.Asked? && l.ask.ForSearch?,
           (l: Local) => l.Asked? && l.ask.ForWrite?,
           (l: Local, d: Index, l': Local) => SearchMicro(metric, l, d, l'),
           (l: Local, d: Index, l': Local, d': Index) => WriteMicro(metric, l, d, l', d'),
           (l: Local) => l.Ended?),
      (l: Local) => if l.ask.ForWrite? then l.ask.op else DeleteOp(""),
      (l: Local) => if l.ask.ForSearch? then l.ask.query else Query([], 0, None, None),
      (l: Local) => if l.Ended? then l.answer else [])
  }

  // ---------- a search section alone ----------

  ghost predicate SearchOk(metric: Metric, d: Index, ask: Ask, l: Local)
    requires Inv(d)
  {
    l.ask == ask && ask.ForSearch? &&
    match l
    case Asked(_) => true
    case Walks(_, layer, ep, m) =>
      && d.entry.Some? && d.entry.value in d.nodes && EdgesOk(d.nodes) && ep in d.nodes && layer <= d.maxLayer
      && Descended(metric, d.nodes, d.deleted, ask.query.q, d.entry.value, d.maxLayer, layer, ep)
      && Reaches(SearchWalk(metric, d, ask.query, layer), ep, WidthAt(ask.query, d.efc, layer), m)
    case Links(_, _, _, _, _, _) => false
    case Prunes(_, _, _, _, _) => false
    case Ended(_, answer) => MayAnswer(metric, d, ask.query, answer)
  }

  lemma InvParts(d: Index)
    requires Inv(d)
    ensures EdgesOk(d.nodes) && (d.entry.Some? ==> d.entry.value in d.nodes)
  {
  }

  lemma SearchStarts(metric: Metric, d: Index, ask: Ask, l': Local)
    requires Inv(d) && ask.ForSearch? && SearchBegins(d, ask, l')
    ensures SearchOk(metric, d, ask, l')
  {
    InvParts(d);
    hide Inv, EdgesOk, Descended, Reaches, SearchWalk;
    var qu := ask.query;
    if d.entry.None? {
      SearchedNothing(metric, d, qu.q, qu.k, qu.ef, qu.filter);
    } else {
      DescendedStart(metric, d.nodes, d.deleted, qu.q, d.entry.value, d.maxLayer, d.maxLayer);
      ReachesFirst(SearchWalk(metric, d, qu, d.maxLayer), d.entry.value, WidthAt(qu, d.efc, d.maxLayer));
    }
  }

  lemma StoppedOutcome(w: Walk, ep: nat, ef: int, m: Moment)
    requires Reaches(w, ep, ef, m) && Stops(w, m)
    ensures Outcome(w, ep, ef, m.found)
  {
    hide Reaches;
  }

  lemma SearchGoesDown(metric: Metric, d: Index, ask: Ask, l: Local, l': Local)
    requires Inv(d) && SearchOk(metric, d, ask, l) && l.Walks? && l.layer > 0
    requires Stops(SearchWalk(metric, d, ask.query, l.layer), l.m) && SearchMovesOn(metric, d, l, l')
    ensures SearchOk(metric, d, ask, l')
  {
    hide Inv, EdgesOk, Descended, Reaches, Stops, Outcome, LayerWalk;
    var qu := ask.query;
    var e :| NearestOf(metric, d.nodes, qu.q, l.m.found, e) && l' == Walks(l.ask, l.layer - 1, e, FirstMoment(e));
    StoppedOutcome(SearchWalk(metric, d, qu, l.layer), l.ep, 1, l.m);
    assert Walked(metric, d.nodes, d.deleted, None, qu.q, l.ep, 1, l.layer, l.m.found);
    MovedStep(metric, d.nodes, d.deleted, qu.q, l.ep, l.layer, e, l.m.found);
    DescendedStep(metric, d.nodes, d.deleted, qu.q, d.entry.value, d.maxLayer, l.layer - 1, l.ep, e);
    ReachesFirst(SearchWalk(metric, d, qu, l.layer - 1), e, WidthAt(qu, d.efc, l.layer - 1));
  }

  lemma SearchAnswers(metric: Metric, d: Index, ask: Ask, l: Local, l': Local)
    requires Inv(d) && SearchOk(metric, d, ask, l) && l.Walks? && l.layer == 0
    requires Stops(SearchWalk(metric, d, ask.query, 0), l.m) && SearchMovesOn(metric, d, l, l')
    ensures SearchOk(metric, d, ask, l')
  {
    hide Inv, EdgesOk, Descended, Reaches, Stops, Outcome, LayerWalk, EligibleIn, IsRanking, Named, DistFrom, Searched;
    var qu := ask.query;
    var xs, res :|
      && l.m.found <= d.nodes.Keys && EligibleIn(d.nodes, d.deleted, qu.filter, l.m.found) <= DistFrom(metric, d.nodes, qu.q).Keys
      && IsRanking(DistFrom(metric, d.nodes, qu.q), EligibleIn(d.nodes, d.deleted, qu.filter, l.m.found), qu.k, xs)
      && Named(d.nodes, xs, res) && l' == Ended(l.ask, res);
    StoppedOutcome(SearchWalk(metric, d, qu, 0), l.ep, EffectiveEf(qu.k, d.efc, qu.ef), l.m);
    assert Walked(metric, d.nodes, d.deleted, qu.filter, qu.q, l.ep, EffectiveEf(qu.k, d.efc, qu.ef), 0, l.m.found);
    SearchedBy(metric, d, qu.q, qu.k, qu.ef, qu.filter, l.ep, l.m.found, xs, res);
  }

  lemma SearchMicroKeeps(metric: Metric, d: Index, ask: Ask, l: Local, l': Local)
    requires Inv(d) && SearchOk(metric, d, ask, l) && SearchMicro(metric, l, d, l')
    ensures SearchOk(metric, d, ask, l')
  {
    hide Inv, EdgesOk, Descended, Reaches, Stops, Moves, SearchWalk, SearchMovesOn, SearchBegins, MayAnswer;
    match l
    case Asked(_) => SearchStarts(metric, d, ask, l');
    case Walks(_, layer, ep, m) =>
      var w := SearchWalk(metric, d, ask.query, layer);
      if m' :| Moves(w, WidthAt(ask.query, d.efc, layer), m, m') && l' == Walks(ask, layer, ep, m') {
        ReachesNext(w, ep, WidthAt(ask.query, d.efc, layer), m, m');
      } else if layer > 0 {
        SearchGoesDown(metric, d, ask, l, l');
      } else {
        SearchAnswers(metric, d, ask, l, l');
      }
    case Ended(_, _) =>
  }

  lemma {:induction false} SearchTrace(metric: Metric, d: Index, trace: seq<(Local, Index)>, i: nat)
    requires Inv(d) && ReadAlone(IndexService(metric).prog, d, trace) && i < |trace|
    ensures SearchOk(metric, d, trace[0].0.ask, trace[i].0)
  {
    hide Inv, SearchMicro, SearchOk;
    if i == 0 {
      SearchAsked(metric, d, trace[0].0);
    } else {
      SearchTrace(metric, d, trace, i - 1);
      assert Reads(IndexService(metric).prog, d, trace, i - 1);
      SearchMicroKeeps(metric, d, trace[0].0.ask, trace[i - 1].0, trace[i].0);
    }
  }

  lemma SearchAsked(metric: Metric, d: Index, l: Local)
    requires Inv(d) && l.Asked? && l.ask.ForSearch?
    ensures SearchOk(metric, d, l.ask, l)
  {
    hide Inv;
  }

  /** Alone on a sound index, the search section answers what `search` may answer. */
  lemma SearchesServe(metric: Metric)
    ensures ServesReads(metric, IndexService(metric))
  {
    var sv := IndexService(metric);
    hide Inv, MayAnswer;
    forall d: Index, trace: seq<(Local, Index)> | Inv(d) && ReadAlone(sv.prog, d, trace) && Complete(sv.prog, trace)
      ensures MayAnswer(metric, d, sv.query(trace[0].0), sv.answer(trace[|trace| - 1].0))
    {
      SearchTrace(metric, d, trace, |trace| - 1);
    }
  }
}
