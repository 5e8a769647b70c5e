/** What tombstones and filters can hide from one walk. */
module Pockets {
  import opened Ranking
  import opened Beam
  import opened BeamLoop

  // The walk stops at the first queued node farther than everything it holds, full or not, so an excluded node can
  // cut off what lies behind it.

  /** `x` is no farther than something in `C` that may be held. */
  ghost predicate Bright(w: Walk, ep: nat, C: set<nat>, x: nat) {
    x in C && x in w.d && exists f :: f in Admitted(w, ep, C) && f in w.d && w.d[x] <= w.d[f]
  }

  /** A set around the entry point that no bright node leads out of. */
  ghost predicate Pocket(w: Walk, ep: nat, C: set<nat>) {
    && C <= w.adj.Keys && ep in C
    && forall x, y :: Bright(w, ep, C, x) && x in w.adj && y in w.adj[x] ==> y in C
  }

  /** What a walk expands is bright in every set that has all the walk has seen. */
  lemma ChosenIsBright(w: Walk, ep: nat, ef: int, done: seq<nat>, c: nat, C: set<nat>)
    requires w.Valid() && ep in w.adj && Goes(w, ep, ef, done, c) && Seen(w, ep, done) <= C
    ensures Bright(w, ep, C, c)
  {
    SeenWithin(w, ep, done);
    var f :| f in Held(w, ep, ef, done) && w.d[c] <= w.d[f];
    assert f in Admitted(w, ep, C);
  }

  /** No walk leaves a pocket of its entry point. */
  lemma {:induction false} StaysInside(w: Walk, ep: nat, ef: int, done: seq<nat>, n: nat, C: set<nat>)
    requires w.Valid() && ep in w.adj && Within(w, done) && n <= |done| && Pocket(w, ep, C)
    requires forall i: nat :: i < |done| ==> Chose(w, ep, ef, done, i)
    ensures Seen(w, ep, done[..n]) <= C
  {
    if n > 0 {
      StaysInside(w, ep, ef, done, n - 1, C);
      assert Chose(w, ep, ef, done, n - 1);
      ChosenIsBright(w, ep, ef, done[..n - 1], done[n - 1], C);
      assert done[..n] == done[..n - 1] + [done[n - 1]];
      hide Goes, Chose, Bright;
      SeenAfter(w, ep, done[..n - 1], done[n - 1]);
    }
  }

  /** A beam as wide as the graph holds everything admitted. */
  lemma WideHolds(w: Walk, ep: nat, ef: int, done: seq<nat>, found: set<nat>)
    requires w.Valid() && ep in w.adj && |w.adj| <= ef && Explored(w, ep, ef, done, found)
    ensures found == Admitted(w, ep, Seen(w, ep, done))
  {
    hide Chose, PassedOver;
    SeenWithin(w, ep, done);
    var A := Admitted(w, ep, Seen(w, ep, done));
    SubsetSize({ep}, w.adj.Keys);
    SubsetSize(A, w.adj.Keys);
    SubsetSize(found, A);
  }

  /** What a full-width walk has seen at its end is a pocket. */
  lemma EndsInPocket(w: Walk, ep: nat, ef: int, done: seq<nat>, found: set<nat>)
    requires w.Valid() && ep in w.adj && |w.adj| <= ef && Explored(w, ep, ef, done, found)
    ensures Pocket(w, ep, Seen(w, ep, done))
  {
    WideHolds(w, ep, ef, done, found);
    SeenWithin(w, ep, done);
    hide Chose;
    var C := Seen(w, ep, done);
    forall x, y | Bright(w, ep, C, x) && x in w.adj && y in w.adj[x] ensures y in C {
      if x !in done {
        assert PassedOver(w, ef, found, x);
        SubsetSize(found, w.adj.Keys);
        assert x in found;
      }
    }
  }

  /** Exactly what a full-width walk finds under exclusions, whatever distances are equal: an eligible node is
      returned if and only if no pocket of the entry point leaves it out. */
  lemma FoundUnlessPocketed(w: Walk, ep: nat, ef: int, found: set<nat>, z: nat)
    requires w.Valid() && ep in w.adj && |w.adj| <= ef && Outcome(w, ep, ef, found) && z in w.ok
    ensures z in found <==> forall C :: Pocket(w, ep, C) ==> z in C
  {
    hide Outcome, Explored, Pocket;
    var done := OutcomeExplored(w, ep, ef, found);
    WideHolds(w, ep, ef, done, found);
    EndsInPocket(w, ep, ef, done, found);
    forall C | Pocket(w, ep, C) ensures Seen(w, ep, done) <= C {
      ExploredParts(w, ep, ef, done, found);
      StaysInside(w, ep, ef, done, |done|, C);
      assert done[..|done|] == done;
    }
  }

  lemma ExploredParts(w: Walk, ep: nat, ef: int, done: seq<nat>, found: set<nat>)
    requires w.Valid() && ep in w.adj && Explored(w, ep, ef, done, found)
    ensures Within(w, done) && forall i: nat :: i < |done| ==> Chose(w, ep, ef, done, i)
    ensures found <= Admitted(w, ep, Seen(w, ep, done))
  {
    hide Chose, PassedOver;
  }

  /** At any width, nothing outside a pocket of the entry point is returned. */
  lemma NothingOutside(w: Walk, ep: nat, ef: int, found: set<nat>, C: set<nat>)
    requires w.Valid() && ep in w.adj && Outcome(w, ep, ef, found) && Pocket(w, ep, C)
    ensures found <= C
  {
    hide Outcome, Explored, Pocket;
    var done := OutcomeExplored(w, ep, ef, found);
    ExploredParts(w, ep, ef, done, found);
    StaysInside(w, ep, ef, done, |done|, C);
    assert done[..|done|] == done;
  }
}
