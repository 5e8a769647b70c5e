/** The loop of the beam search with its two heaps: `candidates` keyed by distance, `found` by negated distance.

    The heaps stand for the queue and the result of a moment of the step machine of `BeamLoop`, and each operation
    on them is one of its steps. */
module BeamHeaps {
  import opened Beam
  import opened BeamLoop
  import Heap

  /** Keys of the result heap: the farthest node has the least key. */
  ghost function Far(d: map<nat, real>): map<nat, real> { map i | i in d :: -d[i] }

  /** The heaps stand for a moment the loop may come by. */
  ghost predicate Walking(w: Walk, ep: nat, ef: int, candidates: seq<Heap.Entry>, found: seq<Heap.Entry>, m: Moment) {
    && Heap.StandsFor(candidates, w.d, m.cand) && Heap.StandsFor(found, Far(w.d), m.found) && found != []
    && Reaches(w, ep, ef, m)
  }

  lemma Begin(w: Walk, ep: nat, ef: int)
    requires w.Valid() && ep in w.adj
    ensures Walking(w, ep, ef, [(w.d[ep], ep)], [(-w.d[ep], ep)], FirstMoment(ep))
  {
    assert Heap.Entries(w.d, {ep}) == {(w.d[ep], ep)};
    assert Heap.Entries(Far(w.d), {ep}) == {(-w.d[ep], ep)};
    ReachesFirst(w, ep, ef);
  }

  lemma ExpandedMore(w: Walk, done: seq<nat>, c: nat)
    requires c in w.adj && c !in done
    ensures w.adj.Keys - Elems(done + [c]) < w.adj.Keys - Elems(done)
  {
    assert c in (w.adj.Keys - Elems(done)) - (w.adj.Keys - Elems(done + [c]));
  }

  lemma WalkingHeaps(w: Walk, ep: nat, ef: int, candidates: seq<Heap.Entry>, found: seq<Heap.Entry>, m: Moment)
    requires Walking(w, ep, ef, candidates, found, m)
    ensures Heap.IsHeap(candidates) && Heap.IsHeap(found) && found != []
  {
  }

  /** The head of the result heap is the farthest node held, of several the one with the least id. */
  lemma WorstHeld(d: map<nat, real>, found: seq<Heap.Entry>, held: set<nat>)
    requires Heap.StandsFor(found, Far(d), held) && found != []
    ensures |found| == |held| && held <= d.Keys && found[0].1 in held && -found[0].0 == d[found[0].1] && Outermost(d, held, found[0].1)
  {
    Heap.Root(found, Far(d), held);
    Heap.Size(found, Far(d), held);
    forall f | f in held ensures d[f] < d[found[0].1] || (d[f] == d[found[0].1] && found[0].1 <= f) {
      assert Far(d)[found[0].1] == -d[found[0].1] && Far(d)[f] == -d[f];
    }
  }

  // ---------- one neighbour, by branch ----------

  /** The test of the loop body. */
  ghost predicate Wanted(d: map<nat, real>, nb: nat, ef: int, found: seq<Heap.Entry>)
    requires nb in d && found != []
  {
    d[nb] < -found[0].0 || |found| < ef
  }

  lemma WantedMeans(w: Walk, nb: nat, ef: int, found: seq<Heap.Entry>, held: set<nat>)
    requires nb in w.d && Heap.StandsFor(found, Far(w.d), held) && found != []
    ensures Wanted(w.d, nb, ef, found) <==> Nearer(w, held, nb) || |held| < ef
  {
    WorstHeld(w.d, found, held);
    if Wanted(w.d, nb, ef, found) && |held| >= ef {
      assert w.d[nb] < w.d[found[0].1];
    }
  }

  /** The moment after a visit that leaves the queue `cand` and the result `held`. */
  function After(m: Moment, nb: nat, cand: set<nat>, held: set<nat>): Moment {
    Moment(cand, held, m.seen + {nb}, m.done, m.pending - {nb})
  }

  lemma NewNeighbour(w: Walk, ep: nat, ef: int, candidates: seq<Heap.Entry>, found: seq<Heap.Entry>, m: Moment, nb: nat)
    requires w.Valid() && ep in w.adj && Walking(w, ep, ef, candidates, found, m) && nb !in m.seen
    ensures nb !in m.cand && nb !in m.found
  {
    hide Reaches;
    QueuedAreNew(w, ep, ef, m);
  }

  lemma Visited(w: Walk, ep: nat, ef: int, m: Moment, nb: nat, m': Moment)
    requires Reaches(w, ep, ef, m) && Visits(w, ef, m, nb, m')
    ensures Reaches(w, ep, ef, m')
  {
    hide Reaches, Visits;
    assert Moves(w, ef, m, m');
    ReachesNext(w, ep, ef, m, m');
  }

  lemma Skipped(w: Walk, ep: nat, ef: int, candidates: seq<Heap.Entry>, found: seq<Heap.Entry>, m: Moment, nb: nat)
    requires Walking(w, ep, ef, candidates, found, m) && nb in m.pending && nb in m.seen
    ensures Walking(w, ep, ef, candidates, found, m.(pending := m.pending - {nb}))
  {
    hide Reaches;
    var m' := m.(pending := m.pending - {nb});
    assert Skips(m, nb, m');
    assert Moves(w, ef, m, m');
    ReachesNext(w, ep, ef, m, m');
  }

  lemma Refused(w: Walk, ep: nat, ef: int, candidates: seq<Heap.Entry>, found: seq<Heap.Entry>, m: Moment, nb: nat)
    requires Walking(w, ep, ef, candidates, found, m) && nb in m.pending && nb !in m.seen && nb in w.d && !Wanted(w.d, nb, ef, found)
    ensures Walking(w, ep, ef, candidates, found, After(m, nb, m.cand, m.found))
  {
    hide Reaches, Wanted, Nearer;
    WantedMeans(w, nb, ef, found, m.found);
    Visited(w, ep, ef, m, nb, After(m, nb, m.cand, m.found));
  }

  lemma Queued(w: Walk, ep: nat, ef: int, candidates: seq<Heap.Entry>, found: seq<Heap.Entry>, m: Moment, nb: nat, candidates': seq<Heap.Entry>)
    requires Walking(w, ep, ef, candidates, found, m) && nb in m.pending && nb !in m.seen && nb !in m.cand && nb !in w.ok
    requires nb in w.d && Wanted(w.d, nb, ef, found) && Heap.PushedTo(candidates, (w.d[nb], nb), candidates')
    ensures Walking(w, ep, ef, candidates', found, After(m, nb, m.cand + {nb}, m.found))
  {
    hide Reaches, Wanted, Nearer;
    WantedMeans(w, nb, ef, found, m.found);
    Heap.Pushed(candidates, w.d, m.cand, nb, candidates');
    Visited(w, ep, ef, m, nb, After(m, nb, m.cand + {nb}, m.found));
  }

  lemma Taken(w: Walk, ep: nat, ef: int, candidates: seq<Heap.Entry>, found: seq<Heap.Entry>, m: Moment, nb: nat,
              candidates': seq<Heap.Entry>, found': seq<Heap.Entry>)
    requires Walking(w, ep, ef, candidates, found, m) && nb in m.pending && nb !in m.seen && nb !in m.cand && nb !in m.found && nb in w.ok
    requires nb in w.d && Wanted(w.d, nb, ef, found) && |found'| <= ef
    requires Heap.PushedTo(candidates, (w.d[nb], nb), candidates') && Heap.PushedTo(found, (-w.d[nb], nb), found')
    ensures Walking(w, ep, ef, candidates', found', After(m, nb, m.cand + {nb}, m.found + {nb}))
  {
    hide Reaches, Wanted, Nearer, Heap.StandsFor, Heap.PushedTo;
    WantedMeans(w, nb, ef, found, m.found);
    Heap.Pushed(candidates, w.d, m.cand, nb, candidates');
    Heap.Pushed(found, Far(w.d), m.found, nb, found');
    Heap.Size(found', Far(w.d), m.found + {nb});
    Visited(w, ep, ef, m, nb, After(m, nb, m.cand + {nb}, m.found + {nb}));
  }

  lemma Evicted(w: Walk, ep: nat, ef: int, candidates: seq<Heap.Entry>, found: seq<Heap.Entry>, m: Moment, nb: nat,
                candidates': seq<Heap.Entry>, full: seq<Heap.Entry>, found': seq<Heap.Entry>)
    requires Walking(w, ep, ef, candidates, found, m) && nb in m.pending && nb !in m.seen && nb !in m.cand && nb !in m.found && nb in w.ok
    requires nb in w.d && Wanted(w.d, nb, ef, found) && |full| > ef
    requires Heap.PushedTo(candidates, (w.d[nb], nb), candidates') && Heap.PushedTo(found, (-w.d[nb], nb), full)
    requires full != [] && Heap.PoppedFrom(full, found')
    ensures Walking(w, ep, ef, candidates', found', After(m, nb, m.cand + {nb}, m.found + {nb} - {full[0].1}))
  {
    hide Reaches, Wanted, Nearer, Heap.StandsFor, Heap.PushedTo, Heap.PoppedFrom;
    var held := m.found + {nb};
    WantedMeans(w, nb, ef, found, m.found);
    Heap.Pushed(candidates, w.d, m.cand, nb, candidates');
    Heap.Pushed(found, Far(w.d), m.found, nb, full);
    WorstHeld(w.d, full, held);
    Heap.Popped(full, Far(w.d), held, found');
    Heap.Size(found, Far(w.d), m.found);
    Heap.Size(found', Far(w.d), held - {full[0].1});
    Visited(w, ep, ef, m, nb, After(m, nb, m.cand + {nb}, held - {full[0].1}));
  }

  // ---------- one expansion ----------

  /** The moment after the head of the queue was popped. */
  function Opened(w: Walk, m: Moment, c: nat): Moment
    requires c in w.adj
  {
    Moment(m.cand - {c}, m.found, m.seen, m.done + [c], w.adj[c])
  }

  lemma Expanding(w: Walk, ep: nat, ef: int, candidates: seq<Heap.Entry>, found: seq<Heap.Entry>, m: Moment, candidates': seq<Heap.Entry>)
    requires w.Valid() && ep in w.adj && Walking(w, ep, ef, candidates, found, m) && m.pending == {}
    requires candidates != [] && Heap.PoppedFrom(candidates, candidates') && candidates[0].0 <= -found[0].0
    ensures var c := candidates[0].1; c in w.adj && c !in m.done && Walking(w, ep, ef, candidates', found, Opened(w, m, c))
  {
    var c := candidates[0].1;
    Heap.Root(candidates, w.d, m.cand);
    Heap.Popped(candidates, w.d, m.cand, candidates');
    WorstHeld(w.d, found, m.found);
    QueuedAreNew(w, ep, ef, m);
    hide Reaches;
    assert InReach(w, m.found, c);
    assert Pops(w, m, c, Opened(w, m, c));
    assert Moves(w, ef, m, Opened(w, m, c));
    ReachesNext(w, ep, ef, m, Opened(w, m, c));
  }

  lemma FirstParts(ep: nat)
    ensures FirstMoment(ep).seen == {ep} && FirstMoment(ep).pending == {} && FirstMoment(ep).done == []
  {
  }

  lemma OpenedParts(w: Walk, m: Moment, c: nat)
    requires c in w.adj
    ensures var o := Opened(w, m, c); o.seen == m.seen && o.done == m.done + [c] && o.pending == w.adj[c]
  {
  }

  /** Nothing queued has been expanded, and everything queued, held or expanded has been seen. */
  lemma QueuedAreNew(w: Walk, ep: nat, ef: int, m: Moment)
    requires w.Valid() && ep in w.adj && Reaches(w, ep, ef, m)
    ensures m.cand !! Elems(m.done) && m.cand + m.found <= m.seen <= w.adj.Keys && m.pending <= w.adj.Keys
  {
    ReachedGood(w, ep, ef, m);
  }

  /** The break test, or an empty queue, ends the walk. */
  lemma Ended(w: Walk, ep: nat, ef: int, candidates: seq<Heap.Entry>, found: seq<Heap.Entry>, m: Moment)
    requires Walking(w, ep, ef, candidates, found, m) && m.pending == {}
    requires candidates == [] || candidates[0].0 > -found[0].0
    ensures Heap.HeapIds(found) == m.found && Outcome(w, ep, ef, m.found) && Heap.StandsFor(found, Far(w.d), m.found)
  {
    hide Reaches;
    WorstHeld(w.d, found, m.found);
    Heap.IdsOf(found, Far(w.d), m.found);
    Heap.Size(candidates, w.d, m.cand);
    if candidates != [] {
      Heap.Root(candidates, w.d, m.cand);
    }
    assert Stops(w, m);
  }
}
