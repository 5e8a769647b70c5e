/** The ring object, and what it is for: a membership change moves only the keys it has to. */
module HashRing {
  import opened Ranking
  import opened Ring

  class ConsistentHashRing {
    const hash: string -> nat
    const virtualNodes: nat
    var ring: map<nat, string>
    var sortedPoints: seq<nat>
    var nodes: set<string>

    ghost function Layout(): Layout { Ring.Layout(hash, virtualNodes) }

    ghost function View(): RingState
      reads this
    {
      RingState(ring, sortedPoints, nodes)
    }

    ghost predicate Valid()
      reads this
    {
      Ascending(sortedPoints)
    }

    constructor (hash: string -> nat, members: seq<string>, virtualNodes: nat)
      requires virtualNodes >= 1
      ensures Valid() && this.hash == hash && this.virtualNodes == virtualNodes
      ensures View() == AddAll(Ring.Layout(hash, virtualNodes), EMPTY_RING, members)
    {
      this.hash, this.virtualNodes, ring, sortedPoints, nodes := hash, virtualNodes, map[], [], {};
      new;
      for i := 0 to |members|
        invariant Valid() && View() == AddAll(Ring.Layout(hash, virtualNodes), EMPTY_RING, members[..i])
      {
        AddNode(members[i]);
        assert members[..i + 1][..i] == members[..i];
      }
      assert members[..|members|] == members;
    }

    /** The index after every entry not greater than `x`. */
    method BisectRight(x: nat) returns (i: nat)
      requires Valid()
      ensures IsBisectRight(sortedPoints, x, i)
    {
      var lo, hi := 0, |sortedPoints|;
      while lo < hi
        invariant 0 <= lo <= hi <= |sortedPoints|
        invariant forall j :: 0 <= j < lo ==> sortedPoints[j] <= x
        invariant forall j :: hi <= j < |sortedPoints| ==> x < sortedPoints[j]
      {
        var mid := (lo + hi) / 2;
        if x < sortedPoints[mid] { hi := mid; } else { lo := mid + 1; }
      }
      i := lo;
    }

    method BisectLeft(x: nat) returns (i: nat)
      requires Valid()
      ensures IsBisectLeft(sortedPoints, x, i)
    {
      var lo, hi := 0, |sortedPoints|;
      while lo < hi
        invariant 0 <= lo <= hi <= |sortedPoints|
        invariant forall j :: 0 <= j < lo ==> sortedPoints[j] < x
        invariant forall j :: hi <= j < |sortedPoints| ==> x <= sortedPoints[j]
      {
        var mid := (lo + hi) / 2;
        if sortedPoints[mid] < x { lo := mid + 1; } else { hi := mid; }
      }
      i := lo;
    }

    method AddNode(node: string)
      requires Valid()
      modifies this
      ensures Valid() && View() == Ring.AddNode(Layout(), old(View()), node)
    {
      if node in nodes {
        return;
      }
      nodes := nodes + {node};
      ghost var s0 := View();
      for replica := 0 to virtualNodes
        invariant Valid() && View() == PlacedUpTo(Layout(), s0, node, replica)
      {
        var point := Point(Ring.Layout(hash, virtualNodes), node, replica);
        var i := BisectRight(point);
        InsortAt(sortedPoints, point, i);
        InsortAscends(sortedPoints, point);
        ring := ring[point := node];
        sortedPoints := sortedPoints[..i] + [point] + sortedPoints[i..];
      }
    }

    method RemoveNode(node: string)
      requires Valid()
      modifies this
      ensures Valid() && View() == Ring.RemoveNode(Layout(), old(View()), node)
    {
      if node !in nodes {
        return;
      }
      nodes := nodes - {node};
      ghost var s0 := View();
      for replica := 0 to virtualNodes
        invariant Valid() && View() == LiftedUpTo(Layout(), s0, node, replica)
      {
        var point := Point(Ring.Layout(hash, virtualNodes), node, replica);
        if point in ring && ring[point] == node {
          ring := ring - {point};
          var i := BisectLeft(point);
          DropAscends(sortedPoints, point);
          if i < |sortedPoints| && sortedPoints[i] == point {
            DropAt(sortedPoints, point, i);
            sortedPoints := sortedPoints[..i] + sortedPoints[i + 1..];
          } else {
            DropAbsent(sortedPoints, point);
          }
        }
      }
    }

    /** The owner of a key: that of the first point strictly after the key's hash, wrapping around. */
    method GetNode(key: string) returns (r: Lookup)
      requires Valid()
      ensures LooksUp(View(), hash(key), r)
    {
      if sortedPoints == [] {
        return NoNodes;
      }
      var i := BisectRight(hash(key));
      SuccessorAt(sortedPoints, hash(key), i);
      if i == |sortedPoints| {
        i := 0;
      }
      var p := sortedPoints[i];
      r := if p in ring then Owned(ring[p]) else Missing;
    }
  }

  function AddAll(l: Layout, s: RingState, members: seq<string>): RingState {
    if members == [] then s else Ring.AddNode(l, AddAll(l, s, members[..|members| - 1]), members[|members| - 1])
  }

  lemma {:induction false} DropAbsent(s: seq<nat>, x: nat)
    requires x !in s
    ensures Drop(s, x) == s
  {
    if s != [] {
      DropAbsent(s[1..], x);
    }
  }

  lemma SuccessorAt(s: seq<nat>, h: nat, i: nat)
    requires Ascending(s) && s != [] && IsBisectRight(s, h, i)
    ensures Successor(Elements(s), h, s[if i == |s| then 0 else i])
  {
    if i < |s| {
      assert s[i] in Elements(s);
    }
    forall q | q in Elements(s) && h < q ensures i < |s| && s[i] <= q {
      var j :| 0 <= j < |s| && s[j] == q;
    }
  }

  // ---------- lookups on a sound ring ----------

  /** `get_node` is total on a non-empty sound ring and names a member. */
  lemma LookupTotal(l: Layout, s: RingState, h: nat, r: Lookup)
    requires Sound(l, s) && s.members != {} && l.virtualNodes >= 1 && LooksUp(s, h, r)
    ensures r.Owned? && r.node in s.members
  {
    SoundIsPopulated(l, s);
    OwnersAreMembers(l, s);
    hide Sound, Successor, PointsOf, Elements;
    var p :| Successor(Elements(s.points), h, p) && r == if p in s.owner then Owned(s.owner[p]) else Missing;
    SuccessorIn(Elements(s.points), h, p);
  }

  lemma SoundIsPopulated(l: Layout, s: RingState)
    requires Sound(l, s) && s.members != {} && l.virtualNodes >= 1
    ensures s.points != []
  {
    var n :| n in s.members;
    PointInAll(l, n, 0, l.virtualNodes);
    hide PointsUpTo;
    assert Point(l, n, 0) in PointsOf(l, n);
    assert Point(l, n, 0) in Elements(s.points);
  }

  lemma OwnersAreMembers(l: Layout, s: RingState)
    requires Sound(l, s)
    ensures Elements(s.points) == s.owner.Keys && forall p :: p in s.owner ==> s.owner[p] in s.members
  {
  }

  lemma LookupUnique(s: RingState, h: nat, r1: Lookup, r2: Lookup)
    requires LooksUp(s, h, r1) && LooksUp(s, h, r2)
    ensures r1 == r2
  {
    if s.points != [] {
      var p1 :| Successor(Elements(s.points), h, p1) && r1 == if p1 in s.owner then Owned(s.owner[p1]) else Missing;
      var p2 :| Successor(Elements(s.points), h, p2) && r2 == if p2 in s.owner then Owned(s.owner[p2]) else Missing;
      SuccessorUnique(Elements(s.points), h, p1, p2);
    }
  }

  /** A surviving successor is still the successor when other points go. */
  lemma SuccessorSurvives(big: set<nat>, small: set<nat>, h: nat, p: nat)
    requires small <= big && Successor(big, h, p) && p in small
    ensures Successor(small, h, p)
  {
  }

  /** `t` is `s` without the node's points. */
  ghost predicate Without(l: Layout, s: RingState, node: string, t: RingState) {
    && Sound(l, s) && Sound(l, t) && t.members <= s.members && s.members - t.members <= {node} && node !in t.members
  }

  lemma WithoutOwners(l: Layout, s: RingState, node: string, t: RingState)
    requires Without(l, s, node, t)
    ensures t.owner.Keys <= s.owner.Keys && forall p :: p in s.owner ==>
              if s.owner[p] == node then p !in t.owner else p in t.owner && t.owner[p] == s.owner[p]
  {
    forall p | p in t.owner ensures p in s.owner && s.owner[p] == t.owner[p] && t.owner[p] != node {
      assert t.owner[p] in s.members && p in PointsOf(l, t.owner[p]);
    }
    forall p | p in s.owner && s.owner[p] != node ensures p in t.owner && t.owner[p] == s.owner[p] {
      assert s.owner[p] in s.members && s.owner[p] !in s.members - t.members;
      assert s.owner[p] in t.members && p in PointsOf(l, s.owner[p]);
    }
  }

  /** The heart of consistent hashing: taking a node's points away changes the owner of exactly its own keys. */
  lemma OnlyItsKeysMove(l: Layout, s: RingState, node: string, t: RingState, h: nat, before: Lookup, after: Lookup)
    requires Without(l, s, node, t) && LooksUp(s, h, before) && LooksUp(t, h, after)
    ensures before != Owned(node) ==> after == before
    ensures after != Owned(node)
  {
    WithoutOwners(l, s, node, t);
    hide Sound, PointsOf, Successor;
    OwnedAreListed(l, s);
    OwnedAreListed(l, t);
    if s.points == [] {
      assert t.points == [] by { ListedEmpty(t); ListedEmpty(s); }
    } else {
      var p :| Successor(Elements(s.points), h, p) && before == if p in s.owner then Owned(s.owner[p]) else Missing;
      SuccessorIn(Elements(s.points), h, p);
      if s.owner[p] != node {
        SuccessorSurvives(Elements(s.points), Elements(t.points), h, p);
        assert p in Elements(t.points) && t.points != [];
        assert LooksUp(t, h, Owned(t.owner[p]));
        LookupUnique(t, h, after, Owned(t.owner[p]));
      }
    }
    if t.points != [] {
      var q :| Successor(Elements(t.points), h, q) && after == if q in t.owner then Owned(t.owner[q]) else Missing;
    }
  }

  lemma OwnedAreListed(l: Layout, s: RingState)
    requires Sound(l, s)
    ensures Elements(s.points) == s.owner.Keys
  {
  }

  lemma ListedEmpty(s: RingState)
    requires Elements(s.points) == s.owner.Keys
    ensures s.points == [] <==> s.owner == map[]
  {
    if s.points != [] { assert s.points[0] in Elements(s.points); }
  }

  lemma SuccessorIn(points: set<nat>, h: nat, p: nat)
    requires Successor(points, h, p)
    ensures p in points
  {
  }

  /** Minimal movement on add: a key keeps its owner or goes to the new node. */
  lemma AddMovesOnlyToNewNode(l: Layout, s: RingState, node: string, h: nat, before: Lookup, after: Lookup)
    requires Sound(l, s) && DistinctPoints(l, s.members + {node}) && node !in s.members
    requires LooksUp(s, h, before) && LooksUp(Ring.AddNode(l, s, node), h, after)
    ensures after == before || after == Owned(node)
  {
    hide Sound, DistinctPoints, LooksUp, Ring.AddNode;
    AddSound(l, s, node);
    OnlyItsKeysMove(l, Ring.AddNode(l, s, node), node, s, h, after, before);
  }

  /** Minimal movement on remove: only the node's own keys move, and they go to survivors. */
  lemma RemoveMovesOnlyItsKeys(l: Layout, s: RingState, node: string, h: nat, before: Lookup, after: Lookup)
    requires Sound(l, s) && DistinctPoints(l, s.members) && node in s.members && l.virtualNodes >= 1
    requires LooksUp(s, h, before) && LooksUp(Ring.RemoveNode(l, s, node), h, after)
    ensures before != Owned(node) ==> after == before
    ensures s.members != {node} ==> after.Owned? && after.node in s.members - {node}
  {
    hide Sound, DistinctPoints, LooksUp, Ring.RemoveNode;
    RemoveSound(l, s, node);
    var t := Ring.RemoveNode(l, s, node);
    OnlyItsKeysMove(l, s, node, t, h, before, after);
    if s.members != {node} {
      assert s.members == {node} + t.members;
      LookupTotal(l, t, h, after);
    }
  }

  /** Removing a node undoes adding it. */
  lemma RemoveUndoesAdd(l: Layout, s: RingState, node: string)
    requires Sound(l, s) && DistinctPoints(l, s.members + {node}) && node !in s.members
    ensures Ring.RemoveNode(l, Ring.AddNode(l, s, node), node) == s
  {
    hide Sound, DistinctPoints, Ring.AddNode, Ring.RemoveNode;
    AddSound(l, s, node);
    RemoveSound(l, Ring.AddNode(l, s, node), node);
    assert s.members + {node} - {node} == s.members;
    RingCanonical(l, s, Ring.RemoveNode(l, Ring.AddNode(l, s, node), node));
  }

  // ---------- whole histories ----------

  datatype Change = Join(node: string) | Leave(node: string)

  function Changed(l: Layout, s: RingState, c: Change): RingState {
    match c case Join(n) => Ring.AddNode(l, s, n) case Leave(n) => Ring.RemoveNode(l, s, n)
  }

  function RingAfter(l: Layout, cs: seq<Change>): RingState {
    if cs == [] then EMPTY_RING else Changed(l, RingAfter(l, cs[..|cs| - 1]), cs[|cs| - 1])
  }

  function MembersAfter(cs: seq<Change>): set<string> {
    if cs == [] then {} else
    var m := MembersAfter(cs[..|cs| - 1]);
    match cs[|cs| - 1] case Join(n) => m + {n} case Leave(n) => m - {n}
  }

  lemma FewerDistinct(l: Layout, U: set<string>, V: set<string>)
    requires DistinctPoints(l, U) && V <= U
    ensures DistinctPoints(l, V)
  {
  }

  /** After any joins and leaves of nodes with distinct points, the ring is what its member set makes it. */
  lemma {:induction false} HistorySound(l: Layout, U: set<string>, cs: seq<Change>)
    requires DistinctPoints(l, U) && forall i :: 0 <= i < |cs| ==> cs[i].node in U
    ensures Sound(l, RingAfter(l, cs)) && RingAfter(l, cs).members == MembersAfter(cs) <= U
  {
    hide DistinctPoints, Sound, Ring.AddNode, Ring.RemoveNode;
    if cs == [] {
      EmptySound(l);
    } else {
      var front, c := cs[..|cs| - 1], cs[|cs| - 1];
      HistorySound(l, U, front);
      var s := RingAfter(l, front);
      match c
      case Join(n) =>
        FewerDistinct(l, U, s.members + {n});
        AddSound(l, s, n);
      case Leave(n) =>
        FewerDistinct(l, U, s.members);
        RemoveSound(l, s, n);
    }
  }

  lemma EmptySound(l: Layout)
    ensures Sound(l, EMPTY_RING)
  {
  }

  /** So two histories with the same members end in the same ring and send every key to the same node. */
  lemma HistoryIrrelevant(l: Layout, U: set<string>, cs1: seq<Change>, cs2: seq<Change>)
    requires DistinctPoints(l, U) && (forall i :: 0 <= i < |cs1| ==> cs1[i].node in U) && forall i :: 0 <= i < |cs2| ==> cs2[i].node in U
    requires MembersAfter(cs1) == MembersAfter(cs2)
    ensures RingAfter(l, cs1) == RingAfter(l, cs2)
  {
    hide DistinctPoints, Sound, RingAfter, MembersAfter;
    HistorySound(l, U, cs1);
    HistorySound(l, U, cs2);
    RingCanonical(l, RingAfter(l, cs1), RingAfter(l, cs2));
  }

  // ---------- keys that fall exactly on a point ----------

  /** The point as documented: the first one at or after `h`, wrapping around. */
  ghost predicate AtOrAfter(points: set<nat>, h: nat, p: nat) {
    && p in points
    && if exists q :: q in points && h <= q
       then h <= p && forall q :: q in points && h <= q ==> p <= q
       else forall q :: q in points ==> p <= q
  }

  /** The lookup as documented. */
  ghost predicate LooksUpAsDocumented(s: RingState, h: nat, r: Lookup) {
    if s.points == [] then r == NoNodes else
    exists p :: AtOrAfter(Elements(s.points), h, p) && r == if p in s.owner then Owned(s.owner[p]) else Missing
  }

  /** The coded lookup gives the documented owner if and only if the key does not hash onto a point, or that point
      and the next one around the ring have the same owner. */
  lemma DocumentedOwnerIff(s: RingState, h: nat, coded: Lookup, documented: Lookup)
    requires Total(s) && LooksUp(s, h, coded) && LooksUpAsDocumented(s, h, documented)
    ensures coded == documented
       <==> (h in s.owner ==> forall p :: Successor(Elements(s.points), h, p) ==> s.owner[p] == s.owner[h])
  {
    var P := Elements(s.points);
    if s.points != [] {
      var p :| Successor(P, h, p) && coded == if p in s.owner then Owned(s.owner[p]) else Missing;
      var p' :| AtOrAfter(P, h, p') && documented == if p' in s.owner then Owned(s.owner[p']) else Missing;
      assert p in s.owner && p' in s.owner;
      if h in s.owner {
        assert p' == h;
        forall x | Successor(P, h, x) ensures x == p { SuccessorUnique(P, h, x, p); }
      } else {
        assert forall x :: x in P ==> (h < x <==> h <= x);
        assert p' == p;
      }
    }
  }

  /** Every node has such a key: the name of its first virtual node, which the documentation gives to the node itself. */
  lemma OwnPointKey(l: Layout, s: RingState, node: string, documented: Lookup)
    requires Sound(l, s) && node in s.members && l.virtualNodes >= 1
    requires LooksUpAsDocumented(s, l.hash(node + "#0"), documented)
    ensures l.hash(node + "#0") in s.owner && documented == Owned(node)
  {
    var h := l.hash(node + "#0");
    assert Decimal(0) == "0" && node + "#" + "0" == node + "#0";
    assert Point(l, node, 0) == h;
    InPointsUpTo(l, node, l.virtualNodes, h);
    OwnPoint(l, s, node, h);
    var p :| AtOrAfter(Elements(s.points), h, p) && documented == if p in s.owner then Owned(s.owner[p]) else Missing;
    assert p == h;
  }

  lemma OwnPoint(l: Layout, s: RingState, node: string, p: nat)
    requires Sound(l, s) && node in s.members && p in PointsOf(l, node)
    ensures p in s.owner && s.owner[p] == node && p in s.points
  {
  }

  /** A real key that the code sends elsewhere: with "a" at 3 and "b" at 7, "a#0" belongs to "a" by the
      documentation and to "b" in fact. */
  lemma DocumentedOwnerDiffers()
    ensures var l := Layout((key: string) => if key == "a#0" then 3 else 7, 1);
            var s := Ring.AddNode(l, Ring.AddNode(l, EMPTY_RING, "a"), "b");
            LooksUp(s, l.hash("a#0"), Owned("b")) && LooksUpAsDocumented(s, l.hash("a#0"), Owned("a"))
  {
    var l := Layout((key: string) => if key == "a#0" then 3 else 7, 1);
    assert Decimal(0) == "0" && "a" + "#" + "0" == "a#0" && "b" + "#" + "0" == "b#0" && "b#0" != "a#0";
    assert Point(l, "a", 0) == 3 && Point(l, "b", 0) == 7;
    var s1 := Ring.AddNode(l, EMPTY_RING, "a");
    assert s1 == PlacedUpTo(l, EMPTY_RING.(members := {"a"}), "a", 1) by { assert EMPTY_RING.members + {"a"} == {"a"}; }
    assert s1 == RingState(map[3 := "a"], [3], {"a"});
    assert Insort([3], 7) == [3, 7];
    var s := Ring.AddNode(l, s1, "b");
    assert s1.members + {"b"} == {"a", "b"};
    assert s == PlacedUpTo(l, s1.(members := {"a", "b"}), "b", 1);
    assert s == RingState(map[3 := "a", 7 := "b"], [3, 7], {"a", "b"});
    assert Elements(s.points) == {3, 7};
    assert Successor({3, 7}, 3, 7) && AtOrAfter({3, 7}, 3, 3);
  }

  // ---------- collisions ----------

  /** When lookups can fail: exactly when the list has a point the map has not. */
  lemma LookupFailsIff(s: RingState)
    ensures (exists h :: LooksUp(s, h, Missing)) <==> exists p :: p in s.points && p !in s.owner
  {
    if h :| LooksUp(s, h, Missing) {
      var p :| Successor(Elements(s.points), h, p) && Missing == if p in s.owner then Owned(s.owner[p]) else Missing;
      assert p in s.points && p !in s.owner;
    }
    if p :| p in s.points && p !in s.owner {
      var P := Elements(s.points);
      var h := LandsOn(P, p);
      assert LooksUp(s, h, Missing);
    }
  }

  /** Some key hash has `p` as its successor. */
  lemma LandsOn(P: set<nat>, p: nat) returns (h: nat)
    requires p in P
    ensures Successor(P, h, p)
  {
    if p > 0 {
      h := p - 1;
    } else {
      var d := map x | x in P :: x as real;
      h := Farthest(d, P);
    }
  }

  /** A collision is not harmless: two nodes share their one point, the later one leaves, and the other,
      still a member, can no longer be looked up. */
  lemma CollisionBreaksLookup(h: nat)
    ensures var l := Layout((key: string) => 5, 1);
            var s := Ring.RemoveNode(l, Ring.AddNode(l, Ring.AddNode(l, EMPTY_RING, "a"), "b"), "b");
            s.members == {"a"} && LooksUp(s, h, Missing)
  {
    var l := Layout((key: string) => 5, 1);
    assert forall n :: Point(l, n, 0) == 5;
    var s1 := Ring.AddNode(l, EMPTY_RING, "a");
    assert EMPTY_RING.members + {"a"} == {"a"};
    assert s1 == PlacedUpTo(l, EMPTY_RING.(members := {"a"}), "a", 1);
    assert s1 == RingState(map[5 := "a"], [5], {"a"});
    var s2 := Ring.AddNode(l, s1, "b");
    assert Insort([5], 5) == [5, 5];
    assert s1.members + {"b"} == {"a", "b"};
    assert s2 == PlacedUpTo(l, s1.(members := {"a", "b"}), "b", 1);
    assert s2 == RingState(map[5 := "b"], [5, 5], {"a", "b"});
    var s := Ring.RemoveNode(l, s2, "b");
    assert s2.members - {"b"} == {"a"} && s2.owner - {5} == map[];
    assert s == LiftedUpTo(l, s2.(members := {"a"}), "b", 1);
    assert s == RingState(map[], [5], {"a"});
    assert Successor(Elements(s.points), h, 5);
  }
}
