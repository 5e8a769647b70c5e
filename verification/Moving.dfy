/** No section gets stuck, and the locked index never deadlocks.

    A walk at any moment stops or has a next step; whatever a section has to choose (a nearest node, the closest of a
    set, a ranking) exists; so a thread inside a section can go on or leave, and by the lock's own invariant someone
    who is inside or waiting can always take a step. */
module Moving {
  import opened Types
  import opened Ranking
  import opened Ranked
  import opened Beam
  import opened BeamLoop
  import opened Graph
  import opened Wiring
  import opened Runs
  import RWLock
  import opened Isolation
  import opened Concurrent
  import opened Sections
  import opened WriteSections

  // ---------- a walk always has a next step ----------

  lemma {:induction false} ForemostExists(d: map<nat, real>, S: set<nat>) returns (c: nat)
    requires S != {} && S <= d.Keys
    ensures Foremost(d, S, c)
  {
    var a :| a in S;
    if S == {a} {
      c := a;
    } else {
      var b := ForemostExists(d, S - {a});
      c := if d[a] < d[b] || (d[a] == d[b] && a < b) then a else b;
    }
  }

  lemma {:induction false} OutermostExists(d: map<nat, real>, S: set<nat>) returns (e: nat)
    requires S != {} && S <= d.Keys
    ensures Outermost(d, S, e)
  {
    var a :| a in S;
    if S == {a} {
      e := a;
    } else {
      var b := OutermostExists(d, S - {a});
      e := if d[b] < d[a] || (d[a] == d[b] && a < b) then a else b;
    }
  }

  lemma VisitExists(w: Walk, ef: int, m: Moment, nb: nat) returns (m': Moment)
    requires m.found + {nb} <= w.d.Keys && nb in m.pending && nb !in m.seen
    ensures Visits(w, ef, m, nb, m')
  {
    m' := m.(seen := m.seen + {nb}, pending := m.pending - {nb});
    if Nearer(w, m.found, nb) || |m.found| < ef {
      m' := m'.(cand := m.cand + {nb});
      if nb in w.ok {
        if |m.found + {nb}| <= ef {
          m' := m'.(found := m.found + {nb});
        } else {
          var e := OutermostExists(w.d, m.found + {nb});
          m' := m'.(found := m.found + {nb} - {e});
        }
      }
    }
  }

  lemma PopExists(w: Walk, m: Moment, x: nat) returns (m': Moment)
    requires m.pending == {} && m.cand <= w.d.Keys && m.cand <= w.adj.Keys && x in m.cand && InReach(w, m.found, x)
    ensures exists c :: Pops(w, m, c, m')
  {
    var c := ForemostExists(w.d, m.cand);
    assert InReach(w, m.found, c);
    m' := Moment(m.cand - {c}, m.found, m.seen, m.done + [c], w.adj[c]);
    assert Pops(w, m, c, m');
  }

  lemma GoodWithin(w: Walk, ep: nat, ef: int, m: Moment)
    requires w.Valid() && ep in w.adj && Good(w, ep, ef, m)
    ensures m.found <= w.d.Keys && m.pending <= w.d.Keys && m.cand <= w.d.Keys && m.cand <= w.adj.Keys
  {
    HeldSize(w, ep, Width(ef), m.cand, m.found, m.seen, m.done);
  }

  /** The loop stops only where it should: at every other moment there is a next step. */
  lemma WalkGoesOn(w: Walk, ep: nat, ef: int, m: Moment)
    requires w.Valid() && ep in w.adj && Reaches(w, ep, ef, m)
    ensures Stops(w, m) || exists m' :: Moves(w, ef, m, m')
  {
    ReachedGood(w, ep, ef, m);
    GoodWithin(w, ep, ef, m);
    hide Good, Reaches, InReach, Visits, Pops, Skips;
    if nb :| nb in m.pending {
      if nb in m.seen {
        assert Skips(m, nb, m.(pending := m.pending - {nb})) by { SkipExists(m, nb); }
        assert Moves(w, ef, m, m.(pending := m.pending - {nb}));
      } else {
        var m' := VisitExists(w, ef, m, nb);
        assert Moves(w, ef, m, m');
      }
    } else if !Stops(w, m) {
      var c :| c in m.cand && InReach(w, m.found, c);
      var m' := PopExists(w, m, c);
      assert Moves(w, ef, m, m');
    }
  }

  lemma SkipExists(m: Moment, nb: nat)
    requires nb in m.pending && nb in m.seen
    ensures Skips(m, nb, m.(pending := m.pending - {nb}))
  {
  }

  // ---------- a choice always exists ----------

  lemma {:induction false} ReportExists<K(!new)>(d: map<K, real>, S: set<K>) returns (xs: seq<(K, real)>)
    requires S <= d.Keys
    ensures Reports(d, xs) && Ids(xs) == S
  {
    if S == {} {
      xs := [];
      NothingReported(d);
    } else {
      var x :| x in S;
      var rest := ReportExists(d, S - {x});
      ReportsOneMore(d, rest, x);
      xs := rest + [(x, d[x])];
    }
  }

  lemma RankingExists<K(!new)>(d: map<K, real>, S: set<K>, k: nat) returns (xs: seq<(K, real)>)
    requires S <= d.Keys
    ensures IsRanking(d, S, k, xs)
  {
    var all := ReportExists(d, S);
    var sorted := SortByDistance(all);
    PermutedReports(d, all, sorted);
    PrefixIsRanking(d, k, sorted);
    xs := sorted[..Min(k, |sorted|)];
  }

  lemma NamesExist(nodes: Nodes, xs: seq<(nat, real)>) returns (res: seq<(string, real)>)
    requires forall i :: 0 <= i < |xs| ==> xs[i].0 in nodes
    ensures Named(nodes, xs, res)
  {
    res := seq(|xs|, i requires 0 <= i < |xs| => (nodes[xs[i].0].vid, xs[i].1));
  }

  lemma NearestExists(metric: Metric, nodes: Nodes, q: Vec, found: set<nat>) returns (e: nat)
    requires found != {} && found <= nodes.Keys
    ensures NearestOf(metric, nodes, q, found, e)
  {
    e := Ranking.Nearest(DistFrom(metric, nodes, q), found);
  }

  // ---------- a search section ----------

  lemma WalkedWithin(metric: Metric, nodes: Nodes, deleted: set<nat>, filter: Option<Filter>, q: Vec, ep: nat, ef: int, l: nat, m: Moment)
    requires EdgesOk(nodes) && ep in nodes
    requires Reaches(LayerWalk(metric, nodes, deleted, filter, q, l), ep, ef, m) && Stops(LayerWalk(metric, nodes, deleted, filter, q, l), m)
    ensures m.found != {} && m.found <= nodes.Keys && m.found <= DistFrom(metric, nodes, q).Keys
  {
    hide EdgesOk, Reaches, Stops, Outcome;
    var w := LayerWalk(metric, nodes, deleted, filter, q, l);
    LayerWalkValid(metric, nodes, deleted, filter, q, l);
    StoppedOutcome(w, ep, ef, m);
    OutcomeBasics(w, ep, ef, m.found);
    assert |m.found| >= 1;
  }

  lemma AnswerExists(metric: Metric, d: Index, l: Local)
    requires l.Walks? && l.ask.ForSearch? && l.layer == 0 && l.m.found <= d.nodes.Keys
    ensures exists l' :: SearchMovesOn(metric, d, l, l')
  {
    hide IsRanking, Named, EligibleIn;
    var qu := l.ask.query;
    var E := EligibleIn(d.nodes, d.deleted, qu.filter, l.m.found);
    assert E <= DistFrom(metric, d.nodes, qu.q).Keys by { EligibleWithin(d.nodes, d.deleted, qu.filter, l.m.found); }
    var xs := RankingExists(DistFrom(metric, d.nodes, qu.q), E, qu.k);
    RankingWithin(DistFrom(metric, d.nodes, qu.q), E, qu.k, xs);
    var res := NamesExist(d.nodes, xs);
    assert SearchMovesOn(metric, d, l, Ended(l.ask, res));
  }

  lemma EligibleWithin(nodes: Nodes, deleted: set<nat>, filter: Option<Filter>, S: set<nat>)
    requires S <= nodes.Keys
    ensures EligibleIn(nodes, deleted, filter, S) <= S
  {
  }

  lemma SearchDescends(metric: Metric, d: Index, l: Local)
    requires l.Walks? && l.ask.ForSearch? && l.layer > 0 && l.m.found != {} && l.m.found <= d.nodes.Keys
    ensures exists l' :: SearchMovesOn(metric, d, l, l')
  {
    hide NearestOf;
    var e := NearestExists(metric, d.nodes, l.ask.query.q, l.m.found);
    assert SearchMovesOn(metric, d, l, Walks(l.ask, l.layer - 1, e, FirstMoment(e)));
  }

  /** A search section that has not ended can take a step. */
  lemma SearchGoesOn(metric: Metric, d: Index, ask: Ask, l: Local)
    requires Inv(d) && SearchOk(metric, d, ask, l) && !l.Ended?
    ensures exists l' :: SearchMicro(metric, l, d, l')
  {
    hide Inv, EdgesOk, Descended, Reaches, Stops, Moves, LayerWalk, SearchMovesOn;
    if l.Asked? {
      var l' := if d.entry.None? then Ended(ask, []) else Walks(ask, d.maxLayer, d.entry.value, FirstMoment(d.entry.value));
      assert SearchMicro(metric, l, d, l');
    } else {
      var qu := ask.query;
      var w, ef := SearchWalk(metric, d, qu, l.layer), WidthAt(qu, d.efc, l.layer);
      LayerWalkValid(metric, d.nodes, d.deleted, FilterAt(qu, l.layer), qu.q, l.layer);
      WalkGoesOn(w, l.ep, ef, l.m);
      if m' :| Moves(w, ef, l.m, m') {
        assert SearchMicro(metric, l, d, Walks(ask, l.layer, l.ep, m'));
      } else {
        WalkedWithin(metric, d.nodes, d.deleted, FilterAt(qu, l.layer), qu.q, l.ep, ef, l.layer, l.m);
        if l.layer > 0 { SearchDescends(metric, d, l); } else { AnswerExists(metric, d, l); }
        var l' :| SearchMovesOn(metric, d, l, l');
        assert SearchMicro(metric, l, d, l');
      }
    }
  }

  // ---------- a write section ----------

  lemma BeginExists(d: Index, ask: Ask) returns (l': Local, d': Index)
    requires ask.ForWrite?
    ensures WriteBegins(d, ask, l', d')
  {
    match ask.op
    case DeleteOp(vid) => l', d' := Ended(ask, []), Deleted(d, vid);
    case AddOp(vid, vec, meta, level) =>
      if |vec| != d.dim || vid in d.idMap {
        l', d' := Ended(ask, []), d;
      } else if d.entry.None? {
        l', d' := Ended(ask, []), Registered(d, vid, vec, meta, level).(entry := Some(d.nextId), maxLayer := level);
      } else {
        l', d' := Walks(ask, d.maxLayer, d.entry.value, FirstMoment(d.entry.value)), Registered(d, vid, vec, meta, level);
      }
  }

  lemma MoveOnExists(metric: Metric, d: Index, l: Local)
    requires l.Walks? && l.ask.ForWrite? && l.ask.op.AddOp? && l.m.found != {} && l.m.found <= d.nodes.Keys
    ensures exists l' :: WriteMovesOn(metric, d, l, l')
  {
    hide NearestOf, Closest;
    var op := l.ask.op;
    var e := NearestExists(metric, d.nodes, op.vec, l.m.found);
    var dist := DistFrom(metric, d.nodes, op.vec);
    var sel := ClosestExists(dist, Cap(d.M, l.layer), l.m.found);
    var l' := if l.layer > op.level then Walks(l.ask, l.layer - 1, e, FirstMoment(e)) else Links(l.ask, l.layer, sel, sel, None, e);
    assert WriteMovesOn(metric, d, l, l');
  }

  /** Where a walk of a write stands, it stands on a graph in order. */
  lemma WriteWalkPlace(metric: Metric, s: Index, ask: Ask, l: Local, d: Index)
    requires Inv(s) && WriteOk(metric, s, ask, l, d) && l.Walks?
    ensures ask.op.AddOp? && EdgesOk(d.nodes) && l.ep in d.nodes
    ensures Reaches(WriteWalk(metric, d, ask.op, l.layer), l.ep, if l.layer > ask.op.level then 1 else d.efc, l.m)
  {
    hide Inv, EdgesOk, Descended, Reaches, WriteWalk, FineAt;
    if l.layer <= ask.op.level {
      FineFacts(metric, s, ask.op, l.layer, d.nodes, l.ep);
    }
  }

  lemma WriteWalkGoesOn(metric: Metric, s: Index, ask: Ask, l: Local, d: Index)
    requires Inv(s) && WriteOk(metric, s, ask, l, d) && l.Walks?
    ensures exists l' :: WriteMicro(metric, l, d, l', d)
  {
    WriteWalkPlace(metric, s, ask, l, d);
    assert l.ask == ask && ask.ForWrite?;
    hide Inv, WriteOk, EdgesOk, Reaches, Stops, Moves, LayerWalk, WriteMovesOn;
    var w, ef := WriteWalk(metric, d, ask.op, l.layer), if l.layer > ask.op.level then 1 else d.efc;
    LayerWalkValid(metric, d.nodes, d.deleted, None, ask.op.vec, l.layer);
    WalkGoesOn(w, l.ep, ef, l.m);
    if m' :| Moves(w, ef, l.m, m') {
      assert WriteMicro(metric, l, d, Walks(ask, l.layer, l.ep, m'), d);
    } else {
      WalkedWithin(metric, d.nodes, d.deleted, None, ask.op.vec, l.ep, ef, l.layer, l.m);
      MoveOnExists(metric, d, l);
      var l' :| WriteMovesOn(metric, d, l, l');
      assert WriteMicro(metric, l, d, l', d);
    }
  }

  lemma LinkPlace(metric: Metric, s: Index, ask: Ask, l: Local, d: Index)
    requires Inv(s) && WriteOk(metric, s, ask, l, d) && l.Links?
    ensures l.ask == ask && ask.ForWrite? && ask.op.AddOp? && Newest(d) in d.nodes
    ensures l.half.Some? ==> l.half.value in d.nodes
  {
    hide Inv, Selected;
    var op := ask.op;
    var g, ep, found :| Selected(metric, s, op, l.layer, g, ep, found, l.sel, l.next) && LinkedUpTo(g, s.nextId, l.layer, l.sel, l.todo, l.half, d.nodes);
    SelectedFacts(metric, s, op, l.layer, g, ep, found, l.sel, l.next);
    assert d.nodes.Keys == g.Keys;
  }

  lemma LinkMicroExists(d: Index, l: Local) returns (l': Local, d': Index)
    requires l.Links? && Newest(d) in d.nodes && (l.half.Some? ==> l.half.value in d.nodes)
    ensures LinkMicro(d, l, l', d')
  {
    hide PutEdge;
    if l.half.Some? {
      l', d' := l.(todo := l.todo - {l.half.value}, half := None), d.(nodes := PutEdge(d.nodes, l.layer, l.half.value, Newest(d)));
    } else if nb :| nb in l.todo {
      l', d' := l.(half := Some(nb)), d.(nodes := PutEdge(d.nodes, l.layer, Newest(d), nb));
    } else {
      l', d' := Prunes(l.ask, l.layer, l.sel, l.sel, l.next), d;
    }
  }

  lemma LinkGoesOn(metric: Metric, s: Index, ask: Ask, l: Local, d: Index)
    requires Inv(s) && WriteOk(metric, s, ask, l, d) && l.Links?
    ensures exists l', d' :: WriteMicro(metric, l, d, l', d')
  {
    LinkPlace(metric, s, ask, l, d);
    hide Inv, WriteOk, LinkMicro, WriteWalk, WriteMovesOn, WriteBegins, PruneMicro;
    var l', d' := LinkMicroExists(d, l);
    assert WriteMicro(metric, l, d, l', d');
  }

  lemma PruneOneExists(metric: Metric, d: Index, layer: nat, nb: nat) returns (d': Index)
    requires nb in d.nodes && d.nodes[nb].Nbrs(layer) <= d.nodes.Keys
    ensures PruneOne(metric, d, layer, nb, d')
  {
    hide Closest;
    d' := d;
    if |d.nodes[nb].Nbrs(layer)| > Cap(d.M, layer) {
      var kept := ClosestExists(DistFrom(metric, d.nodes, d.nodes[nb].vec), Cap(d.M, layer), d.nodes[nb].Nbrs(layer));
      d' := d.(nodes := d.nodes[nb := d.nodes[nb].Put(layer, kept)]);
    }
  }

  lemma PruneGoesOn(metric: Metric, s: Index, ask: Ask, l: Local, d: Index)
    requires Inv(s) && WriteOk(metric, s, ask, l, d) && l.Prunes?
    ensures exists l', d' :: WriteMicro(metric, l, d, l', d')
  {
    hide Inv, Selected, InRange, SameVectors, PartlyTrimmed, Joined, PruneOne;
    var op := ask.op;
    var g, ep, found :| Selected(metric, s, op, l.layer, g, ep, found, l.sel, l.next) && PrunedUpTo(metric, g, s.M, s.nextId, l.layer, l.sel, l.todo, d.nodes);
    SelectedFacts(metric, s, op, l.layer, g, ep, found, l.sel, l.next);
    if nb :| nb in l.todo {
      TrimFacts(metric, g, Joined(g, s.nextId, l.layer, l.sel), Cap(s.M, l.layer), l.layer, l.sel - l.todo, d.nodes, nb);
      var d' := PruneOneExists(metric, d, l.layer, nb);
      var l' := Prunes(l.ask, l.layer, l.sel, l.todo - {nb}, l.next);
      assert PruneMicro(metric, d, l, l', d');
      assert WriteMicro(metric, l, d, l', d');
    } else {
      var d' := if l.layer > 0 then d else
        d.(entry := if op.level > d.maxLayer then Some(Newest(d)) else d.entry, maxLayer := Max(op.level, d.maxLayer));
      var l' := if l.layer > 0 then Walks(l.ask, l.layer - 1, l.next, FirstMoment(l.next)) else Ended(l.ask, []);
      assert PruneMicro(metric, d, l, l', d');
      assert WriteMicro(metric, l, d, l', d');
    }
  }

  /** A write section that has not ended can take a step. */
  lemma WriteGoesOn(metric: Metric, s: Index, ask: Ask, l: Local, d: Index)
    requires Inv(s) && WriteOk(metric, s, ask, l, d) && !l.Ended?
    ensures exists l', d' :: WriteMicro(metric, l, d, l', d')
  {
    hide Inv, CoarseAt, FineAt, Linking, Pruning, Reaches, WriteMovesOn, LinkMicro, PruneMicro, WriteBegins;
    match l
    case Asked(_) =>
      var l', d' := BeginExists(d, ask);
      assert WriteMicro(metric, l, d, l', d');
    case Walks(_, _, _, _) => WriteWalkGoesOn(metric, s, ask, l, d);
    case Links(_, _, _, _, _, _) => LinkGoesOn(metric, s, ask, l, d);
    case Prunes(_, _, _, _, _) => PruneGoesOn(metric, s, ask, l, d);
  }

  // ---------- the locked index ----------

  ghost predicate Movable(metric: Metric, s: Sys<Local, Index>, t: nat) {
    exists s' :: Next(IndexService(metric).prog, s, t, s')
  }

  /** A finished section can be left. */
  lemma CanLeave(metric: Metric, s: Sys<Local, Index>, t: nat)
    requires Inside(s, t, RWLock.Reading) || Inside(s, t, RWLock.Writing)
    requires t in s.run && Complete(IndexService(metric).prog, s.run[t])
    ensures Movable(metric, s, t)
  {
    hide IndexService, Complete;
    var lock := if Inside(s, t, RWLock.Reading) then RWLock.EndRead(s.lock, t) else RWLock.EndWrite(s.lock, t);
    var s' := Sys(lock, s.data, s.run - {t}, s.log + [Section(Inside(s, t, RWLock.Writing), s.run[t])]);
    assert t in lock.phase;
    assert LockStep(IndexService(metric).prog, s, t, s');
    assert Next(IndexService(metric).prog, s, t, s');
  }

  /** A thread that passes the lock has something to ask. */
  lemma CanTry(metric: Metric, s: Sys<Local, Index>, t: nat, lock: RWLock.Lock)
    requires RWLock.Step(s.lock, t, lock) && !Inside(s, t, RWLock.Reading) && !Inside(s, t, RWLock.Writing)
    ensures Movable(metric, s, t)
  {
    assert t in lock.phase;
    var l := if lock.phase[t] == RWLock.Reading then Asked(ForSearch(Query([], 0, None, None))) else Asked(ForWrite(DeleteOp("")));
    var inside := lock.phase[t] == RWLock.Reading || lock.phase[t] == RWLock.Writing;
    var s' := Sys(lock, s.data, if inside then s.run[t := [(l, s.data)]] else s.run, s.log);
    assert LockStep(IndexService(metric).prog, s, t, s');
    assert Next(IndexService(metric).prog, s, t, s');
  }

  lemma ReaderMoves(metric: Metric, s: Sys<Local, Index>, t: nat)
    requires Inside(s, t, RWLock.Reading) && ReaderOk(IndexService(metric).prog, s, t) && Inv(s.data)
    ensures Movable(metric, s, t)
  {
    var trace := s.run[t];
    var last := trace[|trace| - 1].0;
    SearchTrace(metric, s.data, trace, |trace| - 1);
    hide Inv, SearchOk, SearchMicro, Movable;
    if last.Ended? {
      CanLeave(metric, s, t);
    } else {
      hide IndexService;
      SearchGoesOn(metric, s.data, trace[0].0.ask, last);
      var l :| SearchMicro(metric, last, s.data, l);
      ReaderSteps(metric, s, t, l);
    }
  }

  lemma ReaderSteps(metric: Metric, s: Sys<Local, Index>, t: nat, l: Local)
    requires Inside(s, t, RWLock.Reading) && t in s.run && |s.run[t]| > 0 && SearchMicro(metric, s.run[t][|s.run[t]| - 1].0, s.data, l)
    ensures Movable(metric, s, t)
  {
    hide SearchMicro, LockStep;
    var s' := s.(run := s.run[t := s.run[t] + [(l, s.data)]]);
    assert ReadStep(IndexService(metric).prog, s, t, l, s');
    assert Next(IndexService(metric).prog, s, t, s');
  }

  lemma WriterMoves(metric: Metric, d0: Index, s: Sys<Local, Index>, t: nat)
    requires Inside(s, t, RWLock.Writing) && WriterOk(IndexService(metric).prog, d0, s, t) && Inv(Replay(d0, s.log))
    ensures Movable(metric, s, t)
  {
    hide Replay;
    var trace := s.run[t];
    var last := trace[|trace| - 1].0;
    WriteTrace(metric, Replay(d0, s.log), trace, |trace| - 1);
    hide Inv, WriteOk, WriteMicro, Movable;
    if last.Ended? {
      CanLeave(metric, s, t);
    } else {
      hide IndexService;
      WriteGoesOn(metric, Replay(d0, s.log), trace[0].0.ask, last, s.data);
      var l, d :| WriteMicro(metric, last, s.data, l, d);
      WriterSteps(metric, s, t, l, d);
    }
  }

  lemma WriterSteps(metric: Metric, s: Sys<Local, Index>, t: nat, l: Local, d: Index)
    requires Inside(s, t, RWLock.Writing) && t in s.run && |s.run[t]| > 0 && WriteMicro(metric, s.run[t][|s.run[t]| - 1].0, s.data, l, d)
    ensures Movable(metric, s, t)
  {
    hide WriteMicro, LockStep;
    var s' := s.(data := d, run := s.run[t := s.run[t] + [(l, d)]]);
    assert WriteStep(IndexService(metric).prog, s, t, l, d, s');
    assert Next(IndexService(metric).prog, s, t, s');
  }

  /** The index as the finished writes left it is in order. */
  lemma ReplayedInv(metric: Metric, d0: Index, threads: set<nat>, sys: seq<Sys<Local, Index>>, who: seq<nat>, i: nat)
    requires SysRun(IndexService(metric).prog, d0, threads, sys, who) && i < |sys|
    requires 1 <= d0.dim && 2 <= d0.M <= d0.efc && d0 == EmptyIndex(d0.dim, d0.M, d0.efc)
    ensures Isolated(IndexService(metric).prog, d0, sys[i]) && Inv(Replay(d0, sys[i].log))
  {
    hide *;
    var sv, log := IndexService(metric), sys[i].log;
    RunIsolated(sv.prog, d0, threads, sys, who, i);
    IndexIsSequential(metric, d0, threads, sys, who, i);
    StatesMatch(sv, d0, log);
    RunKeepsInv(metric, StatesOf(d0, log), OpsOf(sv, log), |OpsOf(sv, log)|);
  }

  /** Whoever is inside a section can go on or leave. */
  lemma InsideMoves(metric: Metric, d0: Index, threads: set<nat>, sys: seq<Sys<Local, Index>>, who: seq<nat>, i: nat, t: nat)
    requires SysRun(IndexService(metric).prog, d0, threads, sys, who) && i < |sys|
    requires 1 <= d0.dim && 2 <= d0.M <= d0.efc && d0 == EmptyIndex(d0.dim, d0.M, d0.efc)
    requires Inside(sys[i], t, RWLock.Reading) || Inside(sys[i], t, RWLock.Writing)
    ensures Movable(metric, sys[i], t)
  {
    ReplayedInv(metric, d0, threads, sys, who, i);
    hide Inv, SysRun, Replay, ReaderOk, WriterOk, IndexService, Movable, Sequential, RWLock.Inv;
    var s := sys[i];
    if Inside(s, t, RWLock.Reading) {
      NoWriterBeside(s, t) by { assert RWLock.Inv(s.lock); }
      ReaderMoves(metric, s, t);
    } else {
      WriterMoves(metric, d0, s, t);
    }
  }

  /** No deadlock: as long as some thread is inside a section or waits for one, some such thread can take a step. */
  lemma NeverDeadlocked(metric: Metric, d0: Index, threads: set<nat>, sys: seq<Sys<Local, Index>>, who: seq<nat>, i: nat, t: nat) returns (u: nat)
    requires SysRun(IndexService(metric).prog, d0, threads, sys, who) && i < |sys|
    requires 1 <= d0.dim && 2 <= d0.M <= d0.efc && d0 == EmptyIndex(d0.dim, d0.M, d0.efc)
    requires t in sys[i].lock.phase && sys[i].lock.phase[t] != RWLock.Idle
    ensures u in sys[i].lock.phase && sys[i].lock.phase[u] != RWLock.Idle && Movable(metric, sys[i], u)
  {
    ReplayedInv(metric, d0, threads, sys, who, i);
    var s := sys[i];
    if x :| Inside(s, x, RWLock.Reading) || Inside(s, x, RWLock.Writing) {
      InsideMoves(metric, d0, threads, sys, who, i, x);
      u := x;
    } else {
      var lock;
      u, lock := SomeAwakeStep(s.lock, t);
      CanTry(metric, s, u, lock);
    }
  }

  lemma SomeAwakeStep(s: RWLock.Lock, t: nat) returns (u: nat, s': RWLock.Lock)
    requires RWLock.Inv(s) && t in s.phase && s.phase[t] != RWLock.Idle
    ensures RWLock.Step(s, u, s') && s.phase[u] != RWLock.Idle
  {
    if s.phase[t] == RWLock.RSleep || s.phase[t] == RWLock.WSleep {
      RWLock.SomeoneIn(s, s.phase[t]);
      u, s' := RWLock.SomeoneCanStep(s);
    } else {
      u := t;
      s' := match s.phase[t]
        case RAwake => RWLock.TryRead(s, t)
        case WAwake => RWLock.TryWrite(s, t)
        case Reading => RWLock.EndRead(s, t)
        case _ => RWLock.EndWrite(s, t);
    }
  }
}
