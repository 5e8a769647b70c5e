/** The beam search of one layer, as mathematics on a finite weighted graph. */
module Beam {
  import opened Ranking

  // The two heaps of the program disappear here: a walk is described by the sequence `done` of nodes it
  // expanded. What it has seen, what it holds and whether it goes on are functions of `done` and the
  // width, and the *next* node to expand does not depend on the width at all.

  /** One layer as a query sees it: out-neighbours, distance to the query, and which nodes may be returned. */
  datatype Walk = Walk(adj: map<nat, set<nat>>, d: map<nat, real>, ok: set<nat>) {
    ghost predicate Valid() {
      && adj.Keys == d.Keys
      && ok <= adj.Keys
      && forall i :: i in adj ==> adj[i] <= adj.Keys
    }

    lemma NeighboursWithin(i: nat)
      requires Valid() && i in adj
      ensures adj[i] <= adj.Keys
    {
    }
  }

  /** The beam width a requested `ef` amounts to: the entry point is always held, so anything below 1 acts as 1. */
  function Width(ef: int): nat { if ef < 1 then 1 else ef }

  ghost function Elems<T>(s: seq<T>): set<T> { set x | x in s }

  ghost function Seen(w: Walk, ep: nat, done: seq<nat>): set<nat> {
    set y | y in w.adj && (y == ep || exists x :: x in done && x in w.adj && y in w.adj[x])
  }

  /** Everything that has had a claim to a place in the result. */
  ghost function Admitted(w: Walk, ep: nat, seen: set<nat>): set<nat> {
    set x | x in seen && (x == ep || x in w.ok)
  }

  ghost function Frontier(w: Walk, ep: nat, done: seq<nat>): set<nat> {
    set x | x in Seen(w, ep, done) && x !in done
  }

  ghost predicate Within(w: Walk, done: seq<nat>) {
    forall x :: x in done ==> x in w.adj
  }

  lemma SeenWithin(w: Walk, ep: nat, done: seq<nat>)
    requires w.Valid() && ep in w.adj
    ensures Seen(w, ep, done) <= w.adj.Keys && Admitted(w, ep, Seen(w, ep, done)) <= w.d.Keys
  {
  }

  ghost function Held(w: Walk, ep: nat, ef: int, done: seq<nat>): set<nat>
    requires w.Valid() && ep in w.adj
  {
    SeenWithin(w, ep, done);
    Top(w.d, Width(ef), Admitted(w, ep, Seen(w, ep, done)))
  }

  ghost predicate IsNearest(w: Walk, S: set<nat>, c: nat)
    requires S <= w.d.Keys
  {
    c in S && forall y :: y in S ==> w.d[c] <= w.d[y]
  }

  /** The walk goes on with `c`: the nearest seen but unexpanded node, no farther than the worst node held. */
  ghost predicate Goes(w: Walk, ep: nat, ef: int, done: seq<nat>, c: nat)
    requires w.Valid() && ep in w.adj
  {
    SeenWithin(w, ep, done);
    && IsNearest(w, Frontier(w, ep, done), c)
    && exists f :: f in Held(w, ep, ef, done) && w.d[c] <= w.d[f]
  }

  ghost predicate GoesOn(w: Walk, ep: nat, ef: int, done: seq<nat>)
    requires w.Valid() && ep in w.adj
  {
    exists c :: Goes(w, ep, ef, done, c)
  }

  ghost function Pick(w: Walk, ep: nat, ef: int, done: seq<nat>): (c: nat)
    requires w.Valid() && ep in w.adj && GoesOn(w, ep, ef, done)
    ensures Goes(w, ep, ef, done, c)
  {
    var c :| Goes(w, ep, ef, done, c);
    c
  }

  lemma FewerLeft(w: Walk, ep: nat, ef: int, done: seq<nat>, c: nat)
    requires w.Valid() && ep in w.adj && Goes(w, ep, ef, done, c)
    ensures c in w.adj && w.adj.Keys - Elems(done + [c]) < w.adj.Keys - Elems(done)
  {
    SeenWithin(w, ep, done);
    assert c in (w.adj.Keys - Elems(done)) - (w.adj.Keys - Elems(done + [c]));
  }

  /** The expansion sequence, continued from `done` until the stopping rule applies. */
  ghost function Trail(w: Walk, ep: nat, ef: int, done: seq<nat>): seq<nat>
    requires w.Valid() && ep in w.adj && Within(w, done)
    decreases w.adj.Keys - Elems(done)
  {
    if GoesOn(w, ep, ef, done) then
      FewerLeft(w, ep, ef, done, Pick(w, ep, ef, done));
      Trail(w, ep, ef, done + [Pick(w, ep, ef, done)])
    else
      done
  }

  /** What the walk of width `ef` returns when no two nodes are equally far from the query. */
  ghost function Returned(w: Walk, ep: nat, ef: int): set<nat>
    requires w.Valid() && ep in w.adj
  {
    Held(w, ep, ef, Trail(w, ep, ef, []))
  }

  /** The `i`-th expanded node was, at its turn, the nearest seen but unexpanded node, and within reach. */
  ghost predicate Chose(w: Walk, ep: nat, ef: int, done: seq<nat>, i: nat)
    requires w.Valid() && ep in w.adj
  {
    i < |done| && Goes(w, ep, ef, done[..i], done[i])
  }

  /** `y` is not worth expanding any more: it is farther than everything held, or the beam is full of nodes that
      are no farther. */
  ghost predicate PassedOver(w: Walk, ef: int, found: set<nat>, y: nat) {
    || (forall f :: f in found && f in w.d && y in w.d ==> w.d[f] < w.d[y])
    || (|found| == Width(ef) && forall f :: f in found && f in w.d && y in w.d ==> w.d[f] <= w.d[y])
  }

  /** What a layer walk amounts to, for every graph and predicate and whatever distances are equal: every expanded
      node was the nearest one left and within reach, every held node was expanded, nothing left is worth expanding,
      and `found` holds the `Width(ef)` closest of all that was admitted. */
  ghost predicate Explored(w: Walk, ep: nat, ef: int, done: seq<nat>, found: set<nat>)
    requires w.Valid() && ep in w.adj
  {
    SeenWithin(w, ep, done);
    && Within(w, done) && (forall i: nat :: i < |done| ==> Chose(w, ep, ef, done, i))
    && found <= Elems(done)
    && Closest(w.d, Width(ef), Admitted(w, ep, Seen(w, ep, done)), found)
    && forall y :: y in Frontier(w, ep, done) ==> PassedOver(w, ef, found, y)
  }

  /** The closest few are among those that fewer than that many are ahead of. */
  lemma ClosestWithinTop<T(!new)>(d: map<T, real>, n: nat, S: set<T>, R: set<T>)
    requires S <= d.Keys && Closest(d, n, S, R)
    ensures R <= Top(d, n, S)
  {
    forall x | x in R ensures x in Top(d, n, S) {
      SubsetSize(Ahead(d, S, x), R - {x});
    }
  }

  // ---------- what an exploration guarantees ----------

  /** Local optimality: a neighbour of a returned node is returned too, or may not be, or is no nearer than
      anything returned by a full beam. */
  lemma NeighboursAccounted(w: Walk, ep: nat, ef: int, done: seq<nat>, found: set<nat>, x: nat, y: nat)
    requires w.Valid() && ep in w.adj && Explored(w, ep, ef, done, found)
    requires x in found && y in w.adj[x]
    ensures y in found || y !in w.ok || (|found| == Width(ef) && forall f :: f in found ==> w.d[f] <= w.d[y])
  {
    SeenWithin(w, ep, done);
    var A := Admitted(w, ep, Seen(w, ep, done));
    if y !in found && y in w.ok {
      assert y in A - found;
      SubsetSize(found, A - {y});
    }
  }

  lemma ExploredBasics(w: Walk, ep: nat, ef: int, done: seq<nat>, found: set<nat>)
    requires w.Valid() && ep in w.adj && Explored(w, ep, ef, done, found)
    ensures 1 <= |found| <= Width(ef) && found <= w.adj.Keys && found <= w.ok + {ep}
    // the walk never worsens the best distance
    ensures forall b :: IsNearest(w, found, b) ==> w.d[b] <= w.d[ep]
  {
    SeenWithin(w, ep, done);
    var A := Admitted(w, ep, Seen(w, ep, done));
    assert ep in A;
    SubsetSize({ep}, A);
  }

  /** Whatever holds of the entry point and of every neighbour holds of all that is returned. */
  lemma ExploredInside(w: Walk, ep: nat, ef: int, done: seq<nat>, found: set<nat>, P: set<nat>)
    requires w.Valid() && ep in w.adj && Explored(w, ep, ef, done, found)
    requires ep in P && forall i :: i in w.adj ==> w.adj[i] <= P
    ensures found <= P
  {
    SeenWithin(w, ep, done);
    hide Goes, Chose, PassedOver;
    assert Seen(w, ep, done) <= P;
  }

  /** With distinct distances an exploration follows the trail and returns what is held at its end. */
  lemma ExploredIsReturned(w: Walk, ep: nat, ef: int, done: seq<nat>, found: set<nat>)
    requires w.Valid() && ep in w.adj && Distinct(w.d) && Explored(w, ep, ef, done, found)
    ensures done == Trail(w, ep, ef, []) && found == Returned(w, ep, ef)
  {
    SeenWithin(w, ep, done);
    ClosestIsTop(w.d, Width(ef), Admitted(w, ep, Seen(w, ep, done)), found);
    assert done[..|done|] == done && done[..0] == [];
    TrailFollows(w, ep, ef, done, |done|);
    forall c, f | c in Frontier(w, ep, done) && f in found ensures w.d[f] < w.d[c] {
      assert PassedOver(w, ef, found, c) && f != c;
    }
    assert !GoesOn(w, ep, ef, done);
  }

  lemma {:induction false} TrailFollows(w: Walk, ep: nat, ef: int, done: seq<nat>, n: nat)
    requires w.Valid() && ep in w.adj && Distinct(w.d) && Within(w, done) && n <= |done|
    requires forall i: nat :: i < |done| ==> Chose(w, ep, ef, done, i)
    ensures Trail(w, ep, ef, done[..n]) == Trail(w, ep, ef, [])
  {
    if n == 0 {
      assert done[..0] == [];
    } else {
      TrailFollows(w, ep, ef, done, n - 1);
      assert Chose(w, ep, ef, done, n - 1);
      assert done[..n] == done[..n - 1] + [done[n - 1]];
      hide Goes, Trail;
      TrailStep(w, ep, ef, done[..n - 1], done[n - 1]);
    }
  }

  // ---------- a wider beam extends a narrower one ----------

  lemma HeldGrows(w: Walk, ep: nat, ef1: int, ef2: int, done: seq<nat>)
    requires w.Valid() && ep in w.adj && Width(ef1) <= Width(ef2)
    ensures Held(w, ep, ef1, done) <= Held(w, ep, ef2, done)
    ensures forall c :: Goes(w, ep, ef1, done, c) ==> Goes(w, ep, ef2, done, c)
  {
    SeenWithin(w, ep, done);
    TopMonotone(w.d, Width(ef1), Width(ef2), Admitted(w, ep, Seen(w, ep, done)));
  }

  lemma GoesUnique(w: Walk, ep: nat, ef1: int, ef2: int, done: seq<nat>, c1: nat, c2: nat)
    requires w.Valid() && ep in w.adj && Distinct(w.d)
    requires Goes(w, ep, ef1, done, c1) && Goes(w, ep, ef2, done, c2)
    ensures c1 == c2
  {
    SeenWithin(w, ep, done);
    assert w.d[c1] <= w.d[c2] && w.d[c2] <= w.d[c1];
  }

  lemma {:induction false} TrailExtends(w: Walk, ep: nat, ef: int, done: seq<nat>)
    requires w.Valid() && ep in w.adj && Within(w, done)
    ensures done <= Trail(w, ep, ef, done) && Within(w, Trail(w, ep, ef, done))
    decreases w.adj.Keys - Elems(done)
  {
    if exists c :: Goes(w, ep, ef, done, c) {
      var c :| Goes(w, ep, ef, done, c) && Trail(w, ep, ef, done) == Trail(w, ep, ef, done + [c]);
      SeenWithin(w, ep, done);
      assert c in (w.adj.Keys - Elems(done)) - (w.adj.Keys - Elems(done + [c]));
      TrailExtends(w, ep, ef, done + [c]);
    }
  }

  /** One expansion step does not change where the trail ends. */
  lemma TrailStep(w: Walk, ep: nat, ef: int, done: seq<nat>, c: nat)
    requires w.Valid() && ep in w.adj && Within(w, done) && Distinct(w.d)
    requires Goes(w, ep, ef, done, c)
    ensures Trail(w, ep, ef, done) == Trail(w, ep, ef, done + [c])
  {
    var c' :| Goes(w, ep, ef, done, c') && Trail(w, ep, ef, done) == Trail(w, ep, ef, done + [c']);
    GoesUnique(w, ep, ef, ef, done, c, c');
  }

  /** Beam monotonicity: the expansion sequence of a narrower beam is a prefix of that of a wider one. */
  lemma {:induction false} TrailIsPrefix(w: Walk, ep: nat, ef1: int, ef2: int, done: seq<nat>)
    requires w.Valid() && ep in w.adj && Within(w, done) && Distinct(w.d) && Width(ef1) <= Width(ef2)
    ensures Trail(w, ep, ef1, done) <= Trail(w, ep, ef2, done)
    decreases w.adj.Keys - Elems(done)
  {
    if exists c :: Goes(w, ep, ef1, done, c) {
      var c :| Goes(w, ep, ef1, done, c);
      HeldGrows(w, ep, ef1, ef2, done);
      TrailStep(w, ep, ef1, done, c);
      TrailStep(w, ep, ef2, done, c);
      SeenWithin(w, ep, done);
      assert c in (w.adj.Keys - Elems(done)) - (w.adj.Keys - Elems(done + [c]));
      TrailIsPrefix(w, ep, ef1, ef2, done + [c]);
    } else {
      TrailExtends(w, ep, ef2, done);
    }
  }

  lemma SeenGrows(w: Walk, ep: nat, done1: seq<nat>, done2: seq<nat>)
    requires done1 <= done2
    ensures Seen(w, ep, done1) <= Seen(w, ep, done2)
  {
  }

  // ---------- recall ----------

  /** The members of `found` that count as hits when the true answer is the `k` closest eligible nodes. */
  ghost function Hits(w: Walk, k: nat, found: set<nat>): set<nat>
    requires w.Valid() && found <= w.adj.Keys
  {
    Top(w.d, k, w.ok) * Top(w.d, k, found * w.ok)
  }

  lemma HitsAreHeld(w: Walk, k: nat, found: set<nat>)
    requires w.Valid() && found <= w.adj.Keys
    ensures Hits(w, k, found) == Top(w.d, k, w.ok) * found
  {
    TopOfPart(w.d, k, w.ok, found * w.ok);
  }

  /** If some true neighbour was admitted but is not held, then everything eligible that is held is a true neighbour. */
  lemma SqueezedOut(d: map<nat, real>, n: nat, k: nat, ok: set<nat>, A: set<nat>, t: nat)
    requires A <= d.Keys && ok <= d.Keys && Distinct(d)
    requires t in Top(d, k, ok) && t in A && t !in Top(d, n, A)
    ensures |Top(d, n, A)| == n && Top(d, n, A) * ok <= Top(d, k, ok)
  {
    TopIsClosest(d, n, A);
    var H := Top(d, n, A);
    SubsetSize(H, A - {t});
    forall x | x in H && x in ok ensures x in Top(d, k, ok) {
      assert d[x] <= d[t];
      SubsetSize(Ahead(d, ok, x), Ahead(d, ok, t));
    }
  }

  /** A larger beam over a larger admitted set holds at least as many true neighbours. */
  lemma MoreHits(d: map<nat, real>, n1: nat, n2: nat, k: nat, ok: set<nat>, A1: set<nat>, A2: set<nat>, ep: nat)
    requires ok <= d.Keys && ep in d && Distinct(d)
    requires A1 <= A2 <= ok + {ep} && n1 < n2
    ensures |Top(d, k, ok) * Top(d, n1, A1)| <= |Top(d, k, ok) * Top(d, n2, A2)|
  {
    var T, F1, F2 := Top(d, k, ok), Top(d, n1, A1), Top(d, n2, A2);
    TopIsClosest(d, n1, A1);
    SubsetSize(T * F1, F1);
    if T * A2 <= F2 {
      SubsetSize(T * F1, T * F2);
    } else {
      var t :| t in T * A2 && t !in F2;
      SqueezedOut(d, n2, k, ok, A2, t);
      assert F2 - {ep} <= T * F2;
      SubsetSize(F2 - {ep}, T * F2);
    }
  }

  /** Recall never drops: whatever is tombstoned or filtered, for every `k` and with no bound on the two
      widths, the wider beam returns at least as many of the true `k` closest eligible nodes. */
  lemma RecallNeverDrops(w: Walk, ep: nat, ef1: int, ef2: int, k: nat)
    requires w.Valid() && ep in w.adj && Distinct(w.d) && ef1 <= ef2
    ensures Returned(w, ep, ef1) <= w.adj.Keys && Returned(w, ep, ef2) <= w.adj.Keys
    ensures |Hits(w, k, Returned(w, ep, ef1))| <= |Hits(w, k, Returned(w, ep, ef2))|
  {
    var t1, t2 := Trail(w, ep, ef1, []), Trail(w, ep, ef2, []);
    TrailIsPrefix(w, ep, ef1, ef2, []);
    SeenGrows(w, ep, t1, t2);
    SeenWithin(w, ep, t1);
    SeenWithin(w, ep, t2);
    HitsAreHeld(w, k, Returned(w, ep, ef1));
    HitsAreHeld(w, k, Returned(w, ep, ef2));
    if Width(ef1) == Width(ef2) {
      TrailIsPrefix(w, ep, ef2, ef1, []);
      assert t1 == t2;
    } else {
      MoreHits(w.d, Width(ef1), Width(ef2), k, w.ok,
        Admitted(w, ep, Seen(w, ep, t1)), Admitted(w, ep, Seen(w, ep, t2)), ep);
    }
  }
}
