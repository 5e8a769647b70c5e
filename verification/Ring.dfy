/** The consistent hash ring as a value: an owner per point and the points in ascending order. */
module Ring {
  /** How a ring is laid out: the hash and the number of points per node. */
  datatype Layout = Layout(hash: string -> nat, virtualNodes: nat)

  datatype RingState = RingState(owner: map<nat, string>, points: seq<nat>, members: set<string>)

  const EMPTY_RING := RingState(map[], [], {})

  function Decimal(n: nat): string {
    if n < 10 then [('0' as int + n) as char] else Decimal(n / 10) + [('0' as int + n % 10) as char]
  }

  function Point(l: Layout, node: string, replica: nat): nat {
    l.hash(node + "#" + Decimal(replica))
  }

  function PointsUpTo(l: Layout, node: string, n: nat): set<nat> {
    if n == 0 then {} else PointsUpTo(l, node, n - 1) + {Point(l, node, n - 1)}
  }

  function PointsOf(l: Layout, node: string): set<nat> { PointsUpTo(l, node, l.virtualNodes) }

  lemma {:induction false} InPointsUpTo(l: Layout, node: string, n: nat, p: nat)
    ensures p in PointsUpTo(l, node, n) <==> exists r: nat :: r < n && Point(l, node, r) == p
  {
    if n > 0 {
      InPointsUpTo(l, node, n - 1, p);
      if r: nat :| r < n && Point(l, node, r) == p {
        assert r == n - 1 || r < n - 1;
      }
    }
  }

  // ---------- how the points are named ----------

  /** A number in decimal digits, most significant first, without a leading zero. */
  predicate Numeral(s: string) {
    s != [] && (forall i :: 0 <= i < |s| ==> '0' <= s[i] <= '9') && (|s| > 1 ==> s[0] != '0')
  }

  function ValueOf(s: string): int {
    if s == [] then 0 else 10 * ValueOf(s[..|s| - 1]) + (s[|s| - 1] as int - '0' as int)
  }

  /** `Decimal` writes the numeral of a number. */
  lemma {:induction false} DecimalReads(n: nat)
    ensures Numeral(Decimal(n)) && ValueOf(Decimal(n)) == n && (n > 0 ==> Decimal(n)[0] != '0')
  {
    if n >= 10 {
      DecimalReads(n / 10);
      var front, last := Decimal(n / 10), ('0' as int + n % 10) as char;
      assert Decimal(n) == front + [last] && (front + [last])[..|front|] == front;
    } else {
      assert ValueOf(Decimal(n)[..0]) == 0;
    }
  }

  /** A number has one numeral. */
  lemma {:induction false} NumeralIsDecimal(s: string)
    requires Numeral(s)
    ensures ValueOf(s) >= 0 && Decimal(ValueOf(s)) == s && (|s| > 1 ==> ValueOf(s) >= 10)
  {
    var front, last := s[..|s| - 1], s[|s| - 1];
    assert s == front + [last];
    if front != [] {
      NumeralIsDecimal(front);
      assert front[0] == s[0] && s[0] != '0';
      assert ValueOf(front) >= 1 by { FrontPositive(front); }
    } else {
      assert ValueOf(front) == 0;
    }
  }

  lemma FrontPositive(s: string)
    requires Numeral(s) && s[0] != '0' && ValueOf(s) >= 0 && (|s| > 1 ==> ValueOf(s) >= 10)
    ensures ValueOf(s) >= 1
  {
    if |s| == 1 {
      assert s[..0] == [];
    }
  }

  /** The points of a node are the hashes of its name, "#" and the numerals of 0, 1, ... up to its number of points. */
  lemma PointsByName(l: Layout, node: string, p: nat)
    ensures p in PointsOf(l, node) <==> exists s :: Numeral(s) && ValueOf(s) < l.virtualNodes && p == l.hash(node + "#" + s)
  {
    InPointsUpTo(l, node, l.virtualNodes, p);
    if r: nat :| r < l.virtualNodes && Point(l, node, r) == p {
      DecimalReads(r);
      var s := Decimal(r);
      assert Numeral(s) && ValueOf(s) < l.virtualNodes && p == l.hash(node + "#" + s);
    }
    if s :| Numeral(s) && ValueOf(s) < l.virtualNodes && p == l.hash(node + "#" + s) {
      NumeralIsDecimal(s);
      assert Point(l, node, ValueOf(s)) == p;
    }
  }

  // ---------- ordered lists ----------

  ghost predicate Ascending(s: seq<nat>) { forall i, j :: 0 <= i < j < |s| ==> s[i] <= s[j] }

  ghost predicate StrictlyAscending(s: seq<nat>) { forall i, j :: 0 <= i < j < |s| ==> s[i] < s[j] }

  /** Where `bisect` puts `x`: after every entry not greater than it. */
  ghost predicate IsBisectRight(s: seq<nat>, x: nat, i: nat) {
    i <= |s| && (forall j :: 0 <= j < i ==> s[j] <= x) && forall j :: i <= j < |s| ==> x < s[j]
  }

  ghost predicate IsBisectLeft(s: seq<nat>, x: nat, i: nat) {
    i <= |s| && (forall j :: 0 <= j < i ==> s[j] < x) && forall j :: i <= j < |s| ==> x <= s[j]
  }

  function Insort(s: seq<nat>, x: nat): seq<nat> {
    if s == [] || x < s[0] then [x] + s else [s[0]] + Insort(s[1..], x)
  }

  /** Remove one copy. */
  function Drop(s: seq<nat>, x: nat): seq<nat> {
    if s == [] then [] else if s[0] == x then s[1..] else [s[0]] + Drop(s[1..], x)
  }

  lemma {:induction false} InsortAt(s: seq<nat>, x: nat, i: nat)
    requires IsBisectRight(s, x, i)
    ensures Insort(s, x) == s[..i] + [x] + s[i..]
  {
    if i > 0 {
      InsortAt(s[1..], x, i - 1);
      assert s[..i] == [s[0]] + s[1..][..i - 1] && s[i..] == s[1..][i - 1..];
    }
  }

  lemma {:induction false} DropAt(s: seq<nat>, x: nat, i: nat)
    requires IsBisectLeft(s, x, i) && i < |s| && s[i] == x
    ensures Drop(s, x) == s[..i] + s[i + 1..]
  {
    if i > 0 {
      DropAt(s[1..], x, i - 1);
      assert s[..i] == [s[0]] + s[1..][..i - 1] && s[i + 1..] == s[1..][i..];
    }
  }

  lemma {:induction false} InsortCounts(s: seq<nat>, x: nat)
    ensures multiset(Insort(s, x)) == multiset(s) + multiset{x}
  {
    if s != [] && s[0] <= x {
      InsortCounts(s[1..], x);
      assert s == [s[0]] + s[1..];
    }
  }

  lemma Prepend(a: nat, t: seq<nat>)
    requires Ascending(t) && forall y :: y in t ==> a <= y
    ensures Ascending([a] + t)
  {
    forall i, j | 0 <= i < j < |t| + 1 ensures ([a] + t)[i] <= ([a] + t)[j] {
      assert ([a] + t)[j] == t[j - 1] && t[j - 1] in t;
    }
  }

  lemma {:induction false} InsortAscends(s: seq<nat>, x: nat)
    requires Ascending(s)
    ensures Ascending(Insort(s, x)) && forall y :: y in Insort(s, x) <==> y in s || y == x
  {
    if s == [] || x < s[0] {
      assert forall y :: y in s ==> s[0] <= y;
      Prepend(x, s);
    } else {
      InsortAscends(s[1..], x);
      assert forall y :: y in s[1..] ==> s[0] <= y;
      hide Ascending;
      Prepend(s[0], Insort(s[1..], x));
    }
  }

  lemma {:induction false} DropCounts(s: seq<nat>, x: nat)
    ensures multiset(Drop(s, x)) == multiset(s) - multiset{x}
  {
    if s != [] {
      assert s == [s[0]] + s[1..];
      if s[0] != x {
        DropCounts(s[1..], x);
      }
    }
  }

  lemma {:induction false} DropWithin(s: seq<nat>, x: nat)
    ensures forall y :: y in Drop(s, x) ==> y in s
  {
    if s != [] && s[0] != x {
      DropWithin(s[1..], x);
    }
  }

  lemma {:induction false} DropAscends(s: seq<nat>, x: nat)
    requires Ascending(s)
    ensures Ascending(Drop(s, x))
  {
    if s != [] && s[0] != x {
      DropAscends(s[1..], x);
      DropWithin(s[1..], x);
      assert forall y :: y in s[1..] ==> s[0] <= y;
      hide Ascending;
      Prepend(s[0], Drop(s[1..], x));
    }
  }

  /** Ascending without repetition. */
  lemma {:induction false} StrictWhenSingle(s: seq<nat>)
    requires Ascending(s)
    ensures StrictlyAscending(s) <==> forall x :: multiset(s)[x] <= 1
  {
    if StrictlyAscending(s) {
      forall x ensures multiset(s)[x] <= 1 { SingleCount(s, x); }
    } else {
      var i, j :| 0 <= i < j < |s| && s[i] == s[j];
      assert s == s[..j] + [s[j]] + s[j + 1..] && s[i] in s[..j];
      assert multiset(s)[s[i]] >= 2;
    }
  }

  lemma {:induction false} SingleCount(s: seq<nat>, x: nat)
    requires StrictlyAscending(s)
    ensures multiset(s)[x] <= 1
  {
    if s != [] {
      SingleCount(s[1..], x);
      assert s == [s[0]] + s[1..];
      if x == s[0] { assert x !in s[1..]; }
    }
  }

  // ---------- adding and removing a node ----------

  function Placed(l: Layout, s: RingState, node: string, replica: nat): RingState {
    var p := Point(l, node, replica);
    s.(owner := s.owner[p := node], points := Insort(s.points, p))
  }

  function PlacedUpTo(l: Layout, s: RingState, node: string, n: nat): RingState {
    if n == 0 then s else Placed(l, PlacedUpTo(l, s, node, n - 1), node, n - 1)
  }

  function AddNode(l: Layout, s: RingState, node: string): RingState {
    if node in s.members then s else PlacedUpTo(l, s.(members := s.members + {node}), node, l.virtualNodes)
  }

  /** A point goes only if the node owns it; then one copy leaves the list. */
  function Lifted(l: Layout, s: RingState, node: string, replica: nat): RingState {
    var p := Point(l, node, replica);
    if p in s.owner && s.owner[p] == node then s.(owner := s.owner - {p}, points := Drop(s.points, p)) else s
  }

  function LiftedUpTo(l: Layout, s: RingState, node: string, n: nat): RingState {
    if n == 0 then s else Lifted(l, LiftedUpTo(l, s, node, n - 1), node, n - 1)
  }

  function RemoveNode(l: Layout, s: RingState, node: string): RingState {
    if node !in s.members then s else LiftedUpTo(l, s.(members := s.members - {node}), node, l.virtualNodes)
  }

  // ---------- lookup ----------

  datatype Lookup = NoNodes | Owned(node: string) | Missing

  /** The clockwise successor: the first point strictly after `h`, or the first of all when there is none. */
  ghost predicate Successor(points: set<nat>, h: nat, p: nat) {
    && p in points
    && if exists q :: q in points && h < q
       then h < p && forall q :: q in points && h < q ==> p <= q
       else forall q :: q in points ==> p <= q
  }

  ghost predicate LooksUp(s: RingState, h: nat, r: Lookup) {
    if s.points == [] then r == NoNodes else
    exists p :: Successor(Elements(s.points), h, p) && r == if p in s.owner then Owned(s.owner[p]) else Missing
  }

  ghost function Elements(s: seq<nat>): set<nat> { set x | x in s }

  /** How far clockwise from `h` to `p` on a ring of 2^64 places; from a point to itself it is all the way round. */
  function Clockwise(h: nat, p: nat): int {
    if h < p then p - h else p - h + 0x1_0000_0000_0000_0000
  }

  /** The successor is the nearest point going clockwise. */
  lemma SuccessorIsNearest(points: set<nat>, h: nat, p: nat)
    requires h < 0x1_0000_0000_0000_0000 && forall q :: q in points ==> q < 0x1_0000_0000_0000_0000
    ensures Successor(points, h, p) <==> p in points && forall q :: q in points ==> Clockwise(h, p) <= Clockwise(h, q)
  {
    if p in points && forall q :: q in points ==> Clockwise(h, p) <= Clockwise(h, q) {
      forall q | q in points && h < q ensures h < p <= q {
        assert Clockwise(h, p) <= Clockwise(h, q);
      }
      forall q | q in points && p <= h ensures p <= q {
        assert Clockwise(h, p) <= Clockwise(h, q);
      }
    }
  }

  lemma SuccessorUnique(points: set<nat>, h: nat, p: nat, q: nat)
    requires Successor(points, h, p) && Successor(points, h, q)
    ensures p == q
  {
  }

  // ---------- the ring invariant ----------

  /** Kept whatever collides: the list is ascending and has exactly the owned points. */
  ghost predicate Total(s: RingState) {
    Ascending(s.points) && Elements(s.points) == s.owner.Keys
  }

  /** All virtual points of these nodes are different. */
  ghost predicate DistinctPoints(l: Layout, nodes: set<string>) {
    && (forall n, m :: n in nodes && m in nodes && n != m ==> PointsOf(l, n) !! PointsOf(l, m))
    && forall n :: n in nodes ==> |PointsOf(l, n)| == l.virtualNodes
  }

  /** The ring is what its members make it. */
  ghost predicate Sound(l: Layout, s: RingState) {
    && StrictlyAscending(s.points) && Elements(s.points) == s.owner.Keys
    && (forall p :: p in s.owner ==> s.owner[p] in s.members && p in PointsOf(l, s.owner[p]))
    && forall n, p :: n in s.members && p in PointsOf(l, n) ==> p in s.owner && s.owner[p] == n
  }

  lemma {:induction false} SameElements(a: seq<nat>, b: seq<nat>)
    requires StrictlyAscending(a) && StrictlyAscending(b) && Elements(a) == Elements(b)
    ensures a == b
  {
    assert b == [] || b[0] in Elements(a);
    if a != [] {
      assert a[0] in Elements(b) && b[0] in Elements(a);
      assert a[0] == b[0];
      forall x | x in Elements(a[1..]) ensures x in Elements(b[1..]) { assert x in Elements(a); }
      forall x | x in Elements(b[1..]) ensures x in Elements(a[1..]) { assert x in Elements(b); }
      SameElements(a[1..], b[1..]);
    }
  }

  /** Canonicity: the ring depends only on the current member set, so insertion order is irrelevant. */
  lemma RingCanonical(l: Layout, s: RingState, t: RingState)
    requires Sound(l, s) && Sound(l, t) && s.members == t.members
    ensures s == t
  {
    assert s.owner.Keys == t.owner.Keys;
    SameElements(s.points, t.points);
  }

  // ---------- what adding does ----------

  lemma {:induction false} PlacedOwner(l: Layout, s: RingState, node: string, n: nat)
    ensures var t := PlacedUpTo(l, s, node, n);
            && t.members == s.members && t.owner.Keys == s.owner.Keys + PointsUpTo(l, node, n)
            && forall p :: p in t.owner ==> t.owner[p] == if p in PointsUpTo(l, node, n) then node else s.owner[p]
  {
    if n > 0 {
      PlacedOwner(l, s, node, n - 1);
    }
  }

  /** Adding keeps list and map in step even when points collide. */
  lemma {:induction false} PlacedTotal(l: Layout, s: RingState, node: string, n: nat)
    requires Total(s)
    ensures Total(PlacedUpTo(l, s, node, n))
  {
    if n > 0 {
      PlacedTotal(l, s, node, n - 1);
      var t := PlacedUpTo(l, s, node, n - 1);
      InsortElements(t.points, Point(l, node, n - 1));
    }
  }

  lemma InsortElements(s: seq<nat>, x: nat)
    requires Ascending(s)
    ensures Ascending(Insort(s, x)) && Elements(Insort(s, x)) == Elements(s) + {x}
  {
    InsortAscends(s, x);
  }

  lemma {:induction false} FewPoints(l: Layout, node: string, n: nat)
    ensures |PointsUpTo(l, node, n)| <= n
  {
    if n > 0 { FewPoints(l, node, n - 1); }
  }

  lemma {:induction false} FreshPoint(l: Layout, node: string, n: nat, N: nat)
    requires n < N && |PointsUpTo(l, node, N)| == N
    ensures Point(l, node, n) !in PointsUpTo(l, node, n)
    decreases N
  {
    FewPoints(l, node, N - 1);
    if n < N - 1 {
      FreshPoint(l, node, n, N - 1);
    }
  }

  lemma {:induction false} PlacedStrict(l: Layout, s: RingState, node: string, n: nat)
    requires Total(s) && StrictlyAscending(s.points) && n <= l.virtualNodes
    requires |PointsOf(l, node)| == l.virtualNodes && PointsOf(l, node) !! s.owner.Keys
    ensures StrictlyAscending(PlacedUpTo(l, s, node, n).points)
  {
    if n > 0 {
      PlacedStrict(l, s, node, n - 1);
      PlacedTotal(l, s, node, n - 1);
      PlacedOwner(l, s, node, n - 1);
      FreshPoint(l, node, n - 1, l.virtualNodes);
      PointInAll(l, node, n - 1, l.virtualNodes);
      var t, p := PlacedUpTo(l, s, node, n - 1), Point(l, node, n - 1);
      assert p !in t.owner;
      InsortStrict(t.points, p);
    }
  }

  lemma {:induction false} PointInAll(l: Layout, node: string, r: nat, n: nat)
    requires r < n
    ensures Point(l, node, r) in PointsUpTo(l, node, n)
  {
    if r < n - 1 { PointInAll(l, node, r, n - 1); }
  }

  lemma InsortStrict(s: seq<nat>, x: nat)
    requires StrictlyAscending(s) && x !in Elements(s)
    ensures StrictlyAscending(Insort(s, x))
  {
    InsortAscends(s, x);
    InsortCounts(s, x);
    StrictWhenSingle(s);
    StrictWhenSingle(Insort(s, x));
    assert x !in multiset(s);
  }

  /** With distinct points, adding a member keeps the ring what its members make it. */
  lemma AddSound(l: Layout, s: RingState, node: string)
    requires Sound(l, s) && DistinctPoints(l, s.members + {node})
    ensures Sound(l, AddNode(l, s, node)) && AddNode(l, s, node).members == s.members + {node}
  {
    hide Sound, PlacedUpTo, PointsOf, DistinctPoints;
    if node in s.members {
      assert s.members + {node} == s.members;
    } else {
      AddNewSound(l, s, node);
    }
  }

  lemma AddNewSound(l: Layout, s: RingState, node: string)
    requires Sound(l, s) && DistinctPoints(l, s.members + {node}) && node !in s.members
    ensures var t := PlacedUpTo(l, s.(members := s.members + {node}), node, l.virtualNodes);
            Sound(l, t) && t.members == s.members + {node}
  {
    var s0 := s.(members := s.members + {node});
    var t := PlacedUpTo(l, s0, node, l.virtualNodes);
    NewPointsFree(l, s, node);
    PlacedOwner(l, s0, node, l.virtualNodes);
    assert t.owner.Keys == s.owner.Keys + PointsOf(l, node);
    AddedOwners(l, s, node, t);
    hide PlacedUpTo, PointsUpTo, StrictlyAscending, Ascending, DistinctPoints;
    PlacedTotal(l, s0, node, l.virtualNodes);
    PlacedStrict(l, s0, node, l.virtualNodes);
  }

  lemma AddedOwners(l: Layout, s: RingState, node: string, t: RingState)
    requires Sound(l, s) && t.members == s.members + {node}
    requires t.owner.Keys == s.owner.Keys + PointsOf(l, node)
    requires forall p :: p in t.owner ==> t.owner[p] == if p in PointsOf(l, node) then node else s.owner[p]
    requires forall n :: n in s.members ==> PointsOf(l, n) !! PointsOf(l, node)
    ensures forall p :: p in t.owner ==> t.owner[p] in t.members && p in PointsOf(l, t.owner[p])
    ensures forall n, p :: n in t.members && p in PointsOf(l, n) ==> p in t.owner && t.owner[p] == n
  {
    hide PointsUpTo;
  }

  lemma NewPointsFree(l: Layout, s: RingState, node: string)
    requires Sound(l, s) && DistinctPoints(l, s.members + {node}) && node !in s.members
    ensures PointsOf(l, node) !! s.owner.Keys && |PointsOf(l, node)| == l.virtualNodes
    ensures forall n :: n in s.members ==> PointsOf(l, n) !! PointsOf(l, node)
    ensures Total(s) && StrictlyAscending(s.points)
  {
    hide PointsUpTo;
    forall p | p in s.owner ensures p !in PointsOf(l, node) {
      assert s.owner[p] in s.members && p in PointsOf(l, s.owner[p]);
    }
  }

  // ---------- what removing does ----------

  ghost function OwnedBy(s: RingState, node: string, ps: set<nat>): set<nat> {
    set p | p in ps && p in s.owner && s.owner[p] == node
  }

  lemma {:induction false} LiftedOwner(l: Layout, s: RingState, node: string, n: nat)
    ensures LiftedUpTo(l, s, node, n).members == s.members
    ensures LiftedUpTo(l, s, node, n).owner == s.owner - OwnedBy(s, node, PointsUpTo(l, node, n))
  {
    if n > 0 {
      LiftedOwner(l, s, node, n - 1);
    }
  }

  lemma OwnedOneMore(s: RingState, node: string, ps: set<nat>, p: nat)
    ensures OwnedBy(s, node, ps + {p}) == OwnedBy(s, node, ps) + if p in s.owner && s.owner[p] == node then {p} else {}
  {
  }

  lemma {:induction false} LiftedPoints(l: Layout, s: RingState, node: string, n: nat)
    ensures Ascending(s.points) ==> Ascending(LiftedUpTo(l, s, node, n).points)
    ensures multiset(LiftedUpTo(l, s, node, n).points) == multiset(s.points) - multiset(OwnedBy(s, node, PointsUpTo(l, node, n)))
  {
    if n > 0 {
      LiftedPoints(l, s, node, n - 1);
      LiftedOwner(l, s, node, n - 1);
      var t, p := LiftedUpTo(l, s, node, n - 1), Point(l, node, n - 1);
      OwnedOneMore(s, node, PointsUpTo(l, node, n - 1), p);
      LiftedOnce(l, s, node, n - 1, t, PointsUpTo(l, node, n - 1));
    }
  }

  lemma LiftedOnce(l: Layout, s: RingState, node: string, r: nat, t: RingState, ps: set<nat>)
    requires t.owner == s.owner - OwnedBy(s, node, ps)
    requires Ascending(s.points) ==> Ascending(t.points)
    requires multiset(t.points) == multiset(s.points) - multiset(OwnedBy(s, node, ps))
    ensures var t', p := Lifted(l, t, node, r), Point(l, node, r);
            && (Ascending(s.points) ==> Ascending(t'.points))
            && multiset(t'.points) == multiset(s.points) - multiset(OwnedBy(s, node, ps + {p}))
  {
    var p, gone := Point(l, node, r), OwnedBy(s, node, ps);
    OwnedOneMore(s, node, ps, p);
    if p in t.owner && t.owner[p] == node {
      assert p !in gone;
      hide Ascending, OwnedBy, Drop;
      assert multiset(gone + {p}) == multiset(gone) + multiset{p};
      DropCounts(t.points, p);
      if Ascending(s.points) { DropAscends(t.points, p); }
    } else {
      assert OwnedBy(s, node, ps + {p}) == gone;
    }
  }

  /** Exactly when removing a node leaves the list and the map in step: none of the points it owns is listed
      twice. (A second copy stays behind in the list without an owner.) */
  lemma RemoveTotalIff(l: Layout, s: RingState, node: string)
    requires Total(s) && node in s.members
    ensures Total(RemoveNode(l, s, node)) <==>
            forall p :: p in PointsOf(l, node) && p in s.owner && s.owner[p] == node ==> multiset(s.points)[p] == 1
  {
    var s0, t := s.(members := s.members - {node}), RemoveNode(l, s, node);
    LiftedOwner(l, s0, node, l.virtualNodes);
    LiftedPoints(l, s0, node, l.virtualNodes);
    hide LiftedUpTo, PointsUpTo, Ascending, Elements;
    var gone := OwnedBy(s0, node, PointsOf(l, node));
    LeftBehind(s.points, t.points, s.owner.Keys, gone);
    assert t.owner.Keys == s.owner.Keys - gone;
    assert forall p :: p in gone <==> p in PointsOf(l, node) && p in s.owner && s.owner[p] == node;
  }

  lemma Listed(s: seq<nat>, p: nat)
    ensures p in Elements(s) <==> multiset(s)[p] > 0
  {
    assert p in s <==> p in multiset(s);
  }

  /** Dropping one copy of each of `gone` empties their places exactly when each was listed once. */
  lemma LeftBehind(points: seq<nat>, left: seq<nat>, keys: set<nat>, gone: set<nat>)
    requires Elements(points) == keys && gone <= keys && multiset(left) == multiset(points) - multiset(gone)
    ensures Elements(left) == keys - gone <==> forall p :: p in gone ==> multiset(points)[p] == 1
  {
    hide Elements;
    forall p ensures (p in Elements(left) <==> multiset(left)[p] > 0) && (p in keys <==> multiset(points)[p] > 0) {
      Listed(left, p);
      Listed(points, p);
    }
    if Elements(left) == keys - gone {
      forall p | p in gone ensures multiset(points)[p] == 1 {
        assert p !in Elements(left);
        assert multiset(left)[p] == multiset(points)[p] - 1;
      }
    }
    if forall p :: p in gone ==> multiset(points)[p] == 1 {
      forall p ensures p in Elements(left) <==> p in keys - gone {
        assert p in gone ==> multiset(left)[p] == multiset(points)[p] - 1;
        assert p !in gone ==> multiset(left)[p] == multiset(points)[p];
      }
    }
  }

  /** With distinct points, removing a member keeps the ring what its members make it. */
  lemma RemoveSound(l: Layout, s: RingState, node: string)
    requires Sound(l, s) && DistinctPoints(l, s.members)
    ensures Sound(l, RemoveNode(l, s, node)) && RemoveNode(l, s, node).members == s.members - {node}
  {
    hide Sound, LiftedUpTo, PointsUpTo, DistinctPoints, StrictlyAscending, Elements;
    if node in s.members {
      RemoveStrict(l, s, node);
      RemovedPoints(l, s, node);
      LiftedOwner(l, s.(members := s.members - {node}), node, l.virtualNodes);
      RemovedOwners(l, s, node, RemoveNode(l, s, node));
    } else {
      assert s.members - {node} == s.members;
    }
  }

  lemma RemovedOwners(l: Layout, s: RingState, node: string, t: RingState)
    requires Sound(l, s) && t.members == s.members - {node} && t.owner == s.owner - PointsOf(l, node)
    requires StrictlyAscending(t.points) && Elements(t.points) == t.owner.Keys
    requires forall n :: n in s.members && n != node ==> PointsOf(l, n) !! PointsOf(l, node)
    requires node in s.members
    ensures Sound(l, t)
  {
    hide PointsOf, StrictlyAscending, Elements;
  }

  lemma RemoveStrict(l: Layout, s: RingState, node: string)
    requires Sound(l, s) && node in s.members
    ensures var t := RemoveNode(l, s, node); StrictlyAscending(t.points) && Elements(t.points) == t.owner.Keys
  {
    var s0, t := s.(members := s.members - {node}), RemoveNode(l, s, node);
    hide PointsUpTo, LiftedUpTo;
    StrictWhenSingle(s.points);
    LiftedPoints(l, s0, node, l.virtualNodes);
    assert forall p :: p in s.owner ==> p in Elements(s.points) && p in multiset(s.points);
    RemoveTotalIff(l, s, node);
    StrictWhenSingle(t.points);
  }

  lemma RemovedPoints(l: Layout, s: RingState, node: string)
    requires Sound(l, s) && DistinctPoints(l, s.members) && node in s.members
    ensures OwnedBy(s.(members := s.members - {node}), node, PointsOf(l, node)) == PointsOf(l, node)
    ensures forall n :: n in s.members && n != node ==> PointsOf(l, n) !! PointsOf(l, node)
  {
    hide PointsUpTo;
  }
}
