/** The loop of the beam search as a step machine on sets, and what it comes to.

    A step is either a pop of the nearest queued node or a visit of one neighbour of the node just popped. Where
    distances are equal the heaps decide by id, and so does the machine; the order in which neighbours are visited
    is left open, as in the program. */
module BeamLoop {
  import opened Ranking
  import opened Beam

  /** The queue, the result, the visited set, the nodes expanded so far and the neighbours still to be visited. */
  datatype Moment = Moment(cand: set<nat>, found: set<nat>, seen: set<nat>, done: seq<nat>, pending: set<nat>)

  function FirstMoment(ep: nat): Moment { Moment({ep}, {ep}, {ep}, [], {}) }

  /** The head of a heap of distances. */
  ghost predicate Foremost(d: map<nat, real>, S: set<nat>, c: nat) {
    c in S && c in d && forall y :: y in S && y in d ==> d[c] < d[y] || (d[c] == d[y] && c <= y)
  }

  /** The head of a heap of negated distances. */
  ghost predicate Outermost(d: map<nat, real>, S: set<nat>, e: nat) {
    e in S && e in d && forall y :: y in S && y in d ==> d[y] < d[e] || (d[y] == d[e] && e <= y)
  }

  ghost predicate InReach(w: Walk, found: set<nat>, x: nat) {
    exists f :: f in found && f in w.d && x in w.d && w.d[x] <= w.d[f]
  }

  ghost predicate Nearer(w: Walk, found: set<nat>, x: nat) {
    exists f :: f in found && f in w.d && x in w.d && w.d[x] < w.d[f]
  }

  // ---------- the steps ----------

  ghost predicate Pops(w: Walk, m: Moment, c: nat, m': Moment) {
    && m.pending == {} && Foremost(w.d, m.cand, c) && InReach(w, m.found, c) && c in w.adj
    && m' == Moment(m.cand - {c}, m.found, m.seen, m.done + [c], w.adj[c])
  }

  ghost predicate Skips(m: Moment, nb: nat, m': Moment) {
    nb in m.pending && nb in m.seen && m' == m.(pending := m.pending - {nb})
  }

  /** A neighbour not visited before is refused, only queued, kept, or kept in place of the farthest. */
  ghost predicate Visits(w: Walk, ef: int, m: Moment, nb: nat, m': Moment) {
    && nb in m.pending && nb !in m.seen && m'.seen == m.seen + {nb} && m'.pending == m.pending - {nb} && m'.done == m.done
    && if !Nearer(w, m.found, nb) && |m.found| >= ef then m'.cand == m.cand && m'.found == m.found else
       && m'.cand == m.cand + {nb}
       && if nb !in w.ok then m'.found == m.found else
          if |m.found + {nb}| <= ef then m'.found == m.found + {nb} else
          exists e :: Outermost(w.d, m.found + {nb}, e) && m'.found == m.found + {nb} - {e}
  }

  ghost predicate Moves(w: Walk, ef: int, m: Moment, m': Moment) {
    || (exists c :: Pops(w, m, c, m'))
    || (exists nb :: Skips(m, nb, m') || Visits(w, ef, m, nb, m'))
  }

  ghost predicate StepAt(w: Walk, ef: int, ms: seq<Moment>, i: nat) {
    i + 1 < |ms| && Moves(w, ef, ms[i], ms[i + 1])
  }

  ghost predicate Passes(w: Walk, ep: nat, ef: int, ms: seq<Moment>) {
    |ms| > 0 && ms[0] == FirstMoment(ep) && forall i: nat :: i + 1 < |ms| ==> StepAt(w, ef, ms, i)
  }

  /** The loop may come by `m`. */
  ghost predicate Reaches(w: Walk, ep: nat, ef: int, m: Moment) {
    exists ms :: Passes(w, ep, ef, ms) && ms[|ms| - 1] == m
  }

  /** The break test, or an empty queue. */
  ghost predicate Stops(w: Walk, m: Moment) {
    m.pending == {} && forall c :: c in m.cand ==> !InReach(w, m.found, c)
  }

  /** The loop may return `found`. */
  ghost predicate Outcome(w: Walk, ep: nat, ef: int, found: set<nat>) {
    exists m :: Reaches(w, ep, ef, m) && Stops(w, m) && m.found == found
  }

  lemma ReachesFirst(w: Walk, ep: nat, ef: int)
    ensures Reaches(w, ep, ef, FirstMoment(ep))
  {
    assert Passes(w, ep, ef, [FirstMoment(ep)]);
  }

  lemma ReachesNext(w: Walk, ep: nat, ef: int, m: Moment, m': Moment)
    requires Reaches(w, ep, ef, m) && Moves(w, ef, m, m')
    ensures Reaches(w, ep, ef, m')
  {
    hide Moves;
    var ms :| Passes(w, ep, ef, ms) && ms[|ms| - 1] == m;
    var next := ms + [m'];
    forall i: nat | i + 1 < |next| ensures StepAt(w, ef, next, i) {
      assert i + 1 < |ms| ==> StepAt(w, ef, ms, i);
    }
    assert Passes(w, ep, ef, next);
  }

  // ---------- equal distances ----------

  /** A full result is left alone by a newcomer that is no nearer than anything in it, and so is the queue. */
  lemma FullRefusesEqual(w: Walk, ef: int, m: Moment, nb: nat, m': Moment)
    requires w.Valid() && m.found + {nb} <= w.adj.Keys && Visits(w, ef, m, nb, m') && |m.found| >= ef
    requires forall f :: f in m.found ==> w.d[f] <= w.d[nb]
    ensures m'.found == m.found && m'.cand == m.cand
  {
  }

  /** A nearer newcomer that may be returned displaces, from a full result, the farthest node of all, of several equally
      far the one with the least id. */
  lemma FullDropsFarthest(w: Walk, ef: int, m: Moment, nb: nat, m': Moment) returns (e: nat)
    requires w.Valid() && m.found + {nb} <= w.adj.Keys && nb !in m.found && nb in w.ok && Visits(w, ef, m, nb, m') && |m.found| >= ef
    requires exists f :: f in m.found && w.d[nb] < w.d[f]
    ensures e in m.found && m'.found == m.found - {e} + {nb} && m'.cand == m.cand + {nb}
    ensures forall f :: f in m.found ==> w.d[f] < w.d[e] || (w.d[f] == w.d[e] && e <= f)
  {
    var f :| f in m.found && w.d[nb] < w.d[f];
    assert Nearer(w, m.found, nb);
    e :| Outermost(w.d, m.found + {nb}, e) && m'.found == m.found + {nb} - {e};
  }

  /** A result with room takes whatever may be returned, however far, and everything visited is queued. */
  lemma RoomTakesAll(w: Walk, ef: int, m: Moment, nb: nat, m': Moment)
    requires Visits(w, ef, m, nb, m') && |m.found| < ef && nb !in m.found
    ensures m'.cand == m.cand + {nb} && m'.found == if nb in w.ok then m.found + {nb} else m.found
  {
  }

  /** The next node expanded is the nearest queued, of several equally near the one with the least id; one farther than
      everything held ends the walk. */
  lemma NearestIsNext(w: Walk, m: Moment, c: nat, m': Moment)
    requires w.Valid() && m.cand <= w.adj.Keys && m.found <= w.adj.Keys && Pops(w, m, c, m')
    ensures c in m.cand && m'.cand == m.cand - {c} && m'.done == m.done + [c] && m'.pending == w.adj[c]
    ensures forall y :: y in m.cand ==> w.d[c] < w.d[y] || (w.d[c] == w.d[y] && c <= y)
    ensures exists f :: f in m.found && w.d[c] <= w.d[f]
  {
  }

  // ---------- the invariant ----------

  /** What was seen but is neither queued nor expanded was turned away by a full beam, all of which is at least as
      near. */
  ghost predicate Mid(w: Walk, ep: nat, n: nat, cand: set<nat>, found: set<nat>, seen: set<nat>, done: seq<nat>)
    requires w.Valid() && ep in w.adj
  {
    && ep in seen && seen <= w.adj.Keys && Within(w, done)
    && cand <= seen && Elems(done) <= seen && cand !! Elems(done)
    && found <= cand + Elems(done)
    && Closest(w.d, n, Admitted(w, ep, seen), found)
    && forall y :: y in seen - cand - Elems(done) ==> |found| == n && forall f :: f in found ==> w.d[f] <= w.d[y]
  }

  ghost predicate Good(w: Walk, ep: nat, ef: int, m: Moment)
    requires w.Valid() && ep in w.adj
  {
    && Mid(w, ep, Width(ef), m.cand, m.found, m.seen, m.done)
    && m.pending <= w.adj.Keys && m.seen + m.pending == Seen(w, ep, m.done)
    && forall i: nat :: i < |m.done| ==> Chose(w, ep, ef, m.done, i)
  }

  lemma FirstGood(w: Walk, ep: nat, ef: int)
    requires w.Valid() && ep in w.adj
    ensures Good(w, ep, ef, FirstMoment(ep))
  {
    assert Seen(w, ep, []) == {ep};
    assert Admitted(w, ep, {ep}) == {ep};
  }

  lemma AdmittedStep(w: Walk, ep: nat, seen: set<nat>, nb: nat)
    requires ep in seen && nb !in seen
    ensures nb !in Admitted(w, ep, seen)
    ensures Admitted(w, ep, seen + {nb}) == Admitted(w, ep, seen) + (if nb in w.ok then {nb} else {})
  {
  }

  lemma TurnedAway(w: Walk, ep: nat, n: nat, cand: set<nat>, found: set<nat>, seen: set<nat>, done: seq<nat>, nb: nat)
    requires w.Valid() && ep in w.adj && Mid(w, ep, n, cand, found, seen, done)
    requires nb in w.adj && nb !in seen && |found| == n && forall f :: f in found ==> w.d[f] <= w.d[nb]
    ensures Mid(w, ep, n, cand, found, seen + {nb}, done)
  {
    AdmittedStep(w, ep, seen, nb);
    if nb in w.ok {
      ClosestReject(w.d, n, Admitted(w, ep, seen), found, nb);
    }
  }

  lemma QueuedOnly(w: Walk, ep: nat, n: nat, cand: set<nat>, found: set<nat>, seen: set<nat>, done: seq<nat>, nb: nat)
    requires w.Valid() && ep in w.adj && Mid(w, ep, n, cand, found, seen, done)
    requires nb in w.adj && nb !in seen && nb !in w.ok
    ensures Mid(w, ep, n, cand + {nb}, found, seen + {nb}, done)
  {
    AdmittedStep(w, ep, seen, nb);
  }

  lemma QueuedAndHeld(w: Walk, ep: nat, n: nat, cand: set<nat>, found: set<nat>, seen: set<nat>, done: seq<nat>, nb: nat)
    requires w.Valid() && ep in w.adj && Mid(w, ep, n, cand, found, seen, done)
    requires nb in w.adj && nb !in seen && nb in w.ok && |found| < n
    ensures Mid(w, ep, n, cand + {nb}, found + {nb}, seen + {nb}, done)
  {
    AdmittedStep(w, ep, seen, nb);
    ClosestGrow(w.d, n, Admitted(w, ep, seen), found, nb);
  }

  lemma HeldWithEviction(w: Walk, ep: nat, n: nat, cand: set<nat>, found: set<nat>, seen: set<nat>, done: seq<nat>,
                         nb: nat, e: nat)
    requires w.Valid() && ep in w.adj && Mid(w, ep, n, cand, found, seen, done)
    requires nb in w.adj && nb !in seen && nb in w.ok && |found| == n
    requires exists f :: f in found && w.d[nb] < w.d[f]
    requires e in found + {nb} && forall f :: f in found + {nb} ==> w.d[f] <= w.d[e]
    ensures Mid(w, ep, n, cand + {nb}, found + {nb} - {e}, seen + {nb}, done)
  {
    AdmittedStep(w, ep, seen, nb);
    ClosestEvict(w.d, n, Admitted(w, ep, seen), found, nb, e);
    assert |found + {nb} - {e}| == n;
  }

  /** The result is never empty and never over its width. */
  lemma HeldSize(w: Walk, ep: nat, n: nat, cand: set<nat>, found: set<nat>, seen: set<nat>, done: seq<nat>)
    requires w.Valid() && ep in w.adj && n >= 1 && Mid(w, ep, n, cand, found, seen, done)
    ensures 1 <= |found| <= n && found <= w.d.Keys
  {
    var A := Admitted(w, ep, seen);
    assert ep in A;
    SubsetSize({ep}, A);
  }

  lemma VisitKeepsMid(w: Walk, ep: nat, ef: int, m: Moment, nb: nat, m': Moment)
    requires w.Valid() && ep in w.adj && Mid(w, ep, Width(ef), m.cand, m.found, m.seen, m.done)
    requires Visits(w, ef, m, nb, m') && nb in w.adj
    ensures Mid(w, ep, Width(ef), m'.cand, m'.found, m'.seen, m'.done)
  {
    var n := Width(ef);
    HeldSize(w, ep, n, m.cand, m.found, m.seen, m.done);
    assert nb !in m.found by { HeldSeen(w, ep, n, m); }
    assert |m.found + {nb}| == |m.found| + 1;
    hide Mid;
    if !Nearer(w, m.found, nb) && |m.found| >= ef {
      forall f | f in m.found ensures w.d[f] <= w.d[nb] {}
      TurnedAway(w, ep, n, m.cand, m.found, m.seen, m.done, nb);
    } else if nb !in w.ok {
      QueuedOnly(w, ep, n, m.cand, m.found, m.seen, m.done, nb);
    } else if |m.found + {nb}| <= ef {
      QueuedAndHeld(w, ep, n, m.cand, m.found, m.seen, m.done, nb);
    } else {
      var e :| Outermost(w.d, m.found + {nb}, e) && m'.found == m.found + {nb} - {e};
      assert Nearer(w, m.found, nb);
      HeldWithEviction(w, ep, n, m.cand, m.found, m.seen, m.done, nb, e);
    }
  }

  lemma HeldSeen(w: Walk, ep: nat, n: nat, m: Moment)
    requires w.Valid() && ep in w.adj && Mid(w, ep, n, m.cand, m.found, m.seen, m.done)
    ensures m.found <= m.seen
  {
  }

  lemma SeenAfter(w: Walk, ep: nat, done: seq<nat>, c: nat)
    requires w.Valid() && c in w.adj
    ensures Seen(w, ep, done + [c]) == Seen(w, ep, done) + w.adj[c]
  {
    forall y | y in Seen(w, ep, done) + w.adj[c] ensures y in Seen(w, ep, done + [c]) {
      if y != ep && y in Seen(w, ep, done) {
        var x :| x in done && x in w.adj && y in w.adj[x];
        assert x in done + [c];
      }
      assert c in done + [c];
    }
  }

  lemma PopKeepsMid(w: Walk, ep: nat, n: nat, cand: set<nat>, found: set<nat>, seen: set<nat>, done: seq<nat>, c: nat)
    requires w.Valid() && ep in w.adj && Mid(w, ep, n, cand, found, seen, done) && c in cand
    ensures Mid(w, ep, n, cand - {c}, found, seen, done + [c])
  {
    assert Elems(done + [c]) == Elems(done) + {c};
  }

  /** The popped candidate is the nearest node left, and within reach of what is held. */
  lemma PopChooses(w: Walk, ep: nat, ef: int, m: Moment, c: nat)
    requires w.Valid() && ep in w.adj && Good(w, ep, ef, m) && m.pending == {}
    requires Foremost(w.d, m.cand, c) && InReach(w, m.found, c)
    ensures Goes(w, ep, ef, m.done, c)
  {
    hide Chose, Held, Admitted;
    SeenWithin(w, ep, m.done);
    assert m.seen == Seen(w, ep, m.done);
    PopIsNearest(w, ep, ef, m, c);
    PopInReach(w, ep, ef, m, c);
  }

  lemma PopIsNearest(w: Walk, ep: nat, ef: int, m: Moment, c: nat)
    requires w.Valid() && ep in w.adj && Good(w, ep, ef, m) && m.seen == Seen(w, ep, m.done) && Frontier(w, ep, m.done) <= w.d.Keys
    requires Foremost(w.d, m.cand, c) && InReach(w, m.found, c)
    ensures IsNearest(w, Frontier(w, ep, m.done), c)
  {
    hide Chose, Seen, Admitted, Closest;
    var f :| f in m.found && f in w.d && c in w.d && w.d[c] <= w.d[f];
    forall y | y in Frontier(w, ep, m.done) ensures w.d[c] <= w.d[y] {
      if y !in m.cand {
        assert w.d[f] <= w.d[y];
      }
    }
  }

  lemma PopInReach(w: Walk, ep: nat, ef: int, m: Moment, c: nat)
    requires w.Valid() && ep in w.adj && Good(w, ep, ef, m) && m.seen == Seen(w, ep, m.done) && InReach(w, m.found, c)
    ensures exists f :: f in Held(w, ep, ef, m.done) && f in w.d && c in w.d && w.d[c] <= w.d[f]
  {
    hide Chose, Seen;
    SeenWithin(w, ep, m.done);
    ClosestWithinTop(w.d, Width(ef), Admitted(w, ep, Seen(w, ep, m.done)), m.found);
  }

  lemma ChoseMore(w: Walk, ep: nat, ef: int, done: seq<nat>, c: nat)
    requires w.Valid() && ep in w.adj && Goes(w, ep, ef, done, c)
    requires forall i: nat :: i < |done| ==> Chose(w, ep, ef, done, i)
    ensures forall i: nat :: i < |done + [c]| ==> Chose(w, ep, ef, done + [c], i)
  {
    hide Goes;
    forall i: nat | i < |done + [c]| ensures Chose(w, ep, ef, done + [c], i) {
      assert (done + [c])[..i] == done[..i];
      assert done[..|done|] == done;
      assert i < |done| ==> Chose(w, ep, ef, done, i);
    }
  }

  lemma PopKeepsGood(w: Walk, ep: nat, ef: int, m: Moment, c: nat, m': Moment)
    requires w.Valid() && ep in w.adj && Good(w, ep, ef, m) && Pops(w, m, c, m')
    ensures Good(w, ep, ef, m')
  {
    PopChooses(w, ep, ef, m, c);
    hide Chose, Goes, Foremost, InReach;
    PopKeepsMid(w, ep, Width(ef), m.cand, m.found, m.seen, m.done, c);
    ChoseMore(w, ep, ef, m.done, c);
    SeenAfter(w, ep, m.done, c);
  }

  lemma VisitKeepsGood(w: Walk, ep: nat, ef: int, m: Moment, nb: nat, m': Moment)
    requires w.Valid() && ep in w.adj && Good(w, ep, ef, m) && Visits(w, ef, m, nb, m')
    ensures Good(w, ep, ef, m')
  {
    VisitKeepsMid(w, ep, ef, m, nb, m');
    hide Mid, Chose, Seen;
    assert m'.seen + m'.pending == m.seen + m.pending;
  }

  lemma SkipKeepsGood(w: Walk, ep: nat, ef: int, m: Moment, nb: nat, m': Moment)
    requires w.Valid() && ep in w.adj && Good(w, ep, ef, m) && Skips(m, nb, m')
    ensures Good(w, ep, ef, m')
  {
    hide Mid, Chose, Seen;
    assert m'.seen + m'.pending == m.seen + m.pending;
  }

  lemma StepKeepsGood(w: Walk, ep: nat, ef: int, m: Moment, m': Moment)
    requires w.Valid() && ep in w.adj && Good(w, ep, ef, m) && Moves(w, ef, m, m')
    ensures Good(w, ep, ef, m')
  {
    hide Good, Pops, Skips, Visits;
    if c :| Pops(w, m, c, m') {
      PopKeepsGood(w, ep, ef, m, c, m');
    } else {
      var nb :| Skips(m, nb, m') || Visits(w, ef, m, nb, m');
      if Visits(w, ef, m, nb, m') {
        VisitKeepsGood(w, ep, ef, m, nb, m');
      } else {
        SkipKeepsGood(w, ep, ef, m, nb, m');
      }
    }
  }

  lemma {:induction false} PassesGood(w: Walk, ep: nat, ef: int, ms: seq<Moment>, i: nat)
    requires w.Valid() && ep in w.adj && Passes(w, ep, ef, ms) && i < |ms|
    ensures Good(w, ep, ef, ms[i])
  {
    hide Good, Moves;
    if i == 0 {
      FirstGood(w, ep, ef);
    } else {
      PassesGood(w, ep, ef, ms, i - 1);
      assert StepAt(w, ef, ms, i - 1);
      StepKeepsGood(w, ep, ef, ms[i - 1], ms[i]);
    }
  }

  /** Every moment of every walk is in order. */
  lemma ReachedGood(w: Walk, ep: nat, ef: int, m: Moment)
    requires w.Valid() && ep in w.adj && Reaches(w, ep, ef, m)
    ensures Good(w, ep, ef, m)
  {
    hide Good, StepAt;
    var ms :| Passes(w, ep, ef, ms) && ms[|ms| - 1] == m;
    PassesGood(w, ep, ef, ms, |ms| - 1);
  }

  // ---------- what an outcome guarantees ----------

  /** Whatever the loop returns comes of an exploration, ties and exclusions included. */
  lemma OutcomeExplored(w: Walk, ep: nat, ef: int, found: set<nat>) returns (done: seq<nat>)
    requires w.Valid() && ep in w.adj && Outcome(w, ep, ef, found)
    ensures Explored(w, ep, ef, done, found)
  {
    hide Reaches;
    var m :| Reaches(w, ep, ef, m) && Stops(w, m) && m.found == found;
    ReachedGood(w, ep, ef, m);
    done := m.done;
    StopExplored(w, ep, ef, m);
  }

  lemma StopExplored(w: Walk, ep: nat, ef: int, m: Moment)
    requires w.Valid() && ep in w.adj && Good(w, ep, ef, m) && Stops(w, m)
    ensures Explored(w, ep, ef, m.done, m.found)
  {
    hide Chose, Goes;
    SeenWithin(w, ep, m.done);
    assert m.seen == Seen(w, ep, m.done);
    forall f | f in m.found ensures f in Elems(m.done) {
      assert f in m.cand ==> InReach(w, m.found, f);
    }
    forall y | y in Frontier(w, ep, m.done) ensures PassedOver(w, ef, m.found, y) {
      if y in m.cand {
        assert !InReach(w, m.found, y);
      } else {
        assert y in m.seen - m.cand - Elems(m.done);
      }
    }
  }

  lemma OutcomeBasics(w: Walk, ep: nat, ef: int, found: set<nat>)
    requires w.Valid() && ep in w.adj && Outcome(w, ep, ef, found)
    ensures 1 <= |found| <= Width(ef) && found <= w.adj.Keys && found <= w.ok + {ep}
    ensures forall b :: IsNearest(w, found, b) ==> w.d[b] <= w.d[ep]
  {
    hide Outcome, Explored;
    var done := OutcomeExplored(w, ep, ef, found);
    ExploredBasics(w, ep, ef, done, found);
  }

  lemma OutcomeInside(w: Walk, ep: nat, ef: int, found: set<nat>, P: set<nat>)
    requires w.Valid() && ep in w.adj && Outcome(w, ep, ef, found)
    requires ep in P && forall i :: i in w.adj ==> w.adj[i] <= P
    ensures found != {} && found <= P
  {
    hide Outcome, Explored;
    OutcomeBasics(w, ep, ef, found);
    var done := OutcomeExplored(w, ep, ef, found);
    ExploredInside(w, ep, ef, done, found, P);
  }

  /** With distinct distances the outcome is one set, whatever the order of visits. */
  lemma OutcomeIsReturned(w: Walk, ep: nat, ef: int, found: set<nat>)
    requires w.Valid() && ep in w.adj && Distinct(w.d) && Outcome(w, ep, ef, found)
    ensures found == Returned(w, ep, ef)
  {
    hide Outcome, Explored, Returned, Distinct;
    var done := OutcomeExplored(w, ep, ef, found);
    ExploredIsReturned(w, ep, ef, done, found);
  }
}
