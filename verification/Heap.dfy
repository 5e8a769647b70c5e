/** Priority queues of `(key, id)` pairs by the contract of a heap list: entry 0 is the least. */
module Heap {
  import opened Ranked

  type Entry = (real, nat)

  predicate Less(a: Entry, b: Entry) {
    a.0 < b.0 || (a.0 == b.0 && a.1 < b.1)
  }

  predicate IsHeap(h: seq<Entry>) {
    forall i :: 0 <= i < |h| ==> !Less(h[i], h[0])
  }

  ghost predicate PushedTo(h: seq<Entry>, e: Entry, h': seq<Entry>) {
    IsHeap(h') && multiset(h') == multiset(h) + multiset{e}
  }

  ghost predicate PoppedFrom(h: seq<Entry>, h': seq<Entry>)
    requires h != []
  {
    IsHeap(h') && multiset(h') == multiset(h) - multiset{h[0]}
  }

  method Push(h: seq<Entry>, e: Entry) returns (h': seq<Entry>)
    requires IsHeap(h)
    ensures PushedTo(h, e, h') && IsHeap(h') && |h'| == |h| + 1
  {
    if h != [] && Less(e, h[0]) {
      h' := [e] + h;
    } else {
      h' := h + [e];
    }
  }

  method Pop(h: seq<Entry>) returns (least: Entry, h': seq<Entry>)
    requires IsHeap(h) && h != []
    ensures least == h[0] && PoppedFrom(h, h')
  {
    least := h[0];
    var rest := h[1..];
    assert h == [least] + rest;
    if rest == [] {
      return least, [];
    }
    var m := 0;
    for i := 1 to |rest|
      invariant 0 <= m < |rest|
      invariant forall j :: 0 <= j < i ==> !Less(rest[j], rest[m])
    {
      if Less(rest[i], rest[m]) {
        m := i;
      }
    }
    h' := [rest[m]] + rest[..m] + rest[m + 1..];
    MovedToFront(rest, m, h');
  }

  lemma MovedToFront(s: seq<Entry>, m: nat, t: seq<Entry>)
    requires m < |s| && t == [s[m]] + s[..m] + s[m + 1..]
    requires forall j :: 0 <= j < |s| ==> !Less(s[j], s[m])
    ensures IsHeap(t) && multiset(t) == multiset(s)
  {
    assert s == s[..m] + [s[m]] + s[m + 1..];
    forall i | 0 <= i < |t| ensures !Less(t[i], t[0]) {
      assert t[i] == if i == 0 then s[m] else if i <= m then s[i - 1] else s[i];
    }
  }

  // ---------- heaps standing for sets of ids ----------

  ghost function Entries(key: map<nat, real>, S: set<nat>): set<Entry>
    requires S <= key.Keys
  {
    set i | i in S :: (key[i], i)
  }

  ghost predicate StandsFor(h: seq<Entry>, key: map<nat, real>, S: set<nat>) {
    S <= key.Keys && IsHeap(h) && multiset(h) == multiset(Entries(key, S))
  }

  lemma {:induction false} EntriesSize(key: map<nat, real>, S: set<nat>)
    requires S <= key.Keys
    ensures |Entries(key, S)| == |S|
  {
    if S != {} {
      var i :| i in S;
      EntriesSize(key, S - {i});
      assert Entries(key, S) == Entries(key, S - {i}) + {(key[i], i)};
    }
  }

  lemma Size(h: seq<Entry>, key: map<nat, real>, S: set<nat>)
    requires StandsFor(h, key, S)
    ensures |h| == |S|
  {
    EntriesSize(key, S);
    assert |h| == |multiset(h)|;
  }

  lemma Member(h: seq<Entry>, key: map<nat, real>, S: set<nat>, e: Entry)
    requires StandsFor(h, key, S) && e in h
    ensures e.1 in S && e.0 == key[e.1]
  {
    assert e in multiset(h);
  }

  lemma Root(h: seq<Entry>, key: map<nat, real>, S: set<nat>)
    requires StandsFor(h, key, S) && h != []
    ensures h[0].1 in S && h[0].0 == key[h[0].1]
    ensures forall i :: i in S ==> key[h[0].1] < key[i] || (key[h[0].1] == key[i] && h[0].1 <= i)
  {
    Member(h, key, S, h[0]);
    forall i | i in S ensures key[h[0].1] < key[i] || (key[h[0].1] == key[i] && h[0].1 <= i) {
      assert (key[i], i) in Entries(key, S);
      assert (key[i], i) in multiset(h);
    }
  }

  ghost function HeapIds(h: seq<Entry>): set<nat> { set e | e in h :: e.1 }

  lemma IdsOf(h: seq<Entry>, key: map<nat, real>, S: set<nat>)
    requires StandsFor(h, key, S)
    ensures HeapIds(h) == S
  {
    forall i | i in S ensures i in HeapIds(h) {
      assert (key[i], i) in multiset(h);
    }
    forall e | e in h ensures e.1 in S {
      Member(h, key, S, e);
    }
  }

  lemma Pushed(h: seq<Entry>, key: map<nat, real>, S: set<nat>, i: nat, h': seq<Entry>)
    requires StandsFor(h, key, S) && i in key && i !in S && PushedTo(h, (key[i], i), h')
    ensures StandsFor(h', key, S + {i}) && HeapIds(h') == S + {i}
  {
    assert Entries(key, S + {i}) == Entries(key, S) + {(key[i], i)};
    IdsOf(h', key, S + {i});
  }

  lemma Popped(h: seq<Entry>, key: map<nat, real>, S: set<nat>, h': seq<Entry>)
    requires StandsFor(h, key, S) && h != [] && PoppedFrom(h, h')
    ensures StandsFor(h', key, S - {h[0].1}) && HeapIds(h') == S - {h[0].1}
  {
    Member(h, key, S, h[0]);
    var i := h[0].1;
    assert Entries(key, S) == Entries(key, S - {i}) + {(key[i], i)};
    IdsOf(h', key, S - {i});
  }

  /** The final heap of negated distances, read off as `(id, distance)` pairs. */
  lemma ReadOff(h: seq<Entry>, d: map<nat, real>, far: map<nat, real>, S: set<nat>, xs: seq<(nat, real)>)
    requires StandsFor(h, far, S) && far.Keys == d.Keys && forall i :: i in d ==> far[i] == -d[i]
    requires |xs| == |h| && forall i :: 0 <= i < |h| ==> xs[i] == (h[i].1, -h[i].0)
    ensures Reports(d, xs) && Ids(xs) == S
  {
    forall i | 0 <= i < |h| ensures h[i].1 in S && h[i].0 == far[h[i].1] {
      Member(h, far, S, h[i]);
    }
    forall x | x in S ensures x in Ids(xs) {
      assert (far[x], x) in multiset(h);
      var i :| 0 <= i < |h| && h[i] == (far[x], x);
      assert xs[i].0 == x;
    }
    forall i, j | 0 <= i < j < |h| ensures h[i].1 != h[j].1 {
      if h[i] == h[j] {
        TwiceInMultiset(h, i, j);
      }
    }
  }
}
