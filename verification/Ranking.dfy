/** Ranking by distance: the "n closest members of a set". */
module Ranking {
  // `Closest` is the relational reading (any choice among ties is allowed); `Top` is a function
  // that coincides with it when no two members are equally far.

  function Min(a: int, b: int): (m: int)
    ensures m <= a && m <= b && (m == a || m == b)
  {
    if a < b then a else b
  }

  function Max(a: int, b: int): (m: int)
    ensures a <= m && b <= m && (m == a || m == b)
  {
    if a < b then b else a
  }

  ghost predicate Distinct<T(!new)>(d: map<T, real>) {
    forall x, y :: x in d && y in d && x != y ==> d[x] != d[y]
  }

  /** `R` holds the `n` members of `S` nearest by `d`, or all of `S` when it is smaller. */
  ghost predicate Closest<T(!new)>(d: map<T, real>, n: nat, S: set<T>, R: set<T>)
    requires S <= d.Keys
  {
    && R <= S
    && |R| == Min(n, |S|)
    && forall x, y :: x in R && y in S - R ==> d[x] <= d[y]
  }

  ghost function Ahead<T>(d: map<T, real>, S: set<T>, x: T): set<T>
    requires S <= d.Keys && x in d
  {
    set y | y in S && d[y] < d[x]
  }

  /** The members of `S` that fewer than `n` others are strictly ahead of. */
  ghost function Top<T>(d: map<T, real>, n: nat, S: set<T>): set<T>
    requires S <= d.Keys
  {
    set x | x in S && |Ahead(d, S, x)| < n
  }

  lemma SubsetSize<T>(A: set<T>, B: set<T>)
    requires A <= B
    ensures |A| <= |B|
    ensures |A| == |B| ==> A == B
  {
    assert B == A + (B - A);
    assert |B| == |A| + |B - A|;
  }

  lemma {:induction false} Farthest<T>(d: map<T, real>, S: set<T>) returns (m: T)
    requires S != {} && S <= d.Keys
    ensures m in S && forall x :: x in S ==> d[x] <= d[m]
  {
    var a :| a in S;
    if S == {a} {
      m := a;
    } else {
      var r := Farthest(d, S - {a});
      m := if d[a] <= d[r] then r else a;
    }
  }

  lemma {:induction false} Nearest<T>(d: map<T, real>, S: set<T>) returns (m: T)
    requires S != {} && S <= d.Keys
    ensures m in S && forall x :: x in S ==> d[m] <= d[x]
  {
    var a :| a in S;
    if S == {a} {
      m := a;
    } else {
      var r := Nearest(d, S - {a});
      m := if d[a] <= d[r] then a else r;
    }
  }

  // ---------- growing a beam by one member ----------

  lemma ClosestGrow<T(!new)>(d: map<T, real>, n: nat, S: set<T>, R: set<T>, x: T)
    requires S + {x} <= d.Keys && Closest(d, n, S, R) && x !in S && |R| < n
    ensures R == S && Closest(d, n, S + {x}, R + {x})
  {
    SubsetSize(R, S);
  }

  lemma ClosestReject<T(!new)>(d: map<T, real>, n: nat, S: set<T>, R: set<T>, x: T)
    requires S + {x} <= d.Keys && Closest(d, n, S, R) && x !in S && |R| == n
    requires forall f :: f in R ==> d[f] <= d[x]
    ensures Closest(d, n, S + {x}, R)
  {
    SubsetSize(R, S);
    assert |S + {x}| == |S| + 1;
  }

  lemma ClosestEvict<T(!new)>(d: map<T, real>, n: nat, S: set<T>, R: set<T>, x: T, e: T)
    requires S + {x} <= d.Keys && Closest(d, n, S, R) && x !in S && |R| == n
    requires e in R + {x} && forall f :: f in R + {x} ==> d[f] <= d[e]
    ensures Closest(d, n, S + {x}, R + {x} - {e})
  {
    SubsetSize(R, S);
    var R' := R + {x} - {e};
    assert |R + {x}| == n + 1 && |R'| == n;
    assert |S + {x}| == |S| + 1;
    forall a, b | a in R' && b in S + {x} - R' ensures d[a] <= d[b] {
      if b != e {
        assert b in S - R && b != x;
        if a == x {
          // x survived, so the evicted e came from R and is at least as far as x
          assert e in R;
          assert d[x] <= d[e] <= d[b];
        }
      }
    }
  }

  // ---------- Top against Closest ----------

  lemma ClosestIsTop<T(!new)>(d: map<T, real>, n: nat, S: set<T>, R: set<T>)
    requires S <= d.Keys && Distinct(d) && Closest(d, n, S, R)
    ensures R == Top(d, n, S)
  {
    forall x | x in S ensures x in R <==> |Ahead(d, S, x)| < n {
      if x in R {
        SubsetSize(Ahead(d, S, x), R - {x});
      } else {
        SubsetSize(R, S - {x});
        SubsetSize(R, Ahead(d, S, x));
      }
    }
  }

  lemma {:induction false} ClosestExists<T(!new)>(d: map<T, real>, n: nat, S: set<T>) returns (R: set<T>)
    requires S <= d.Keys
    ensures Closest(d, n, S, R)
  {
    if S == {} {
      R := {};
    } else {
      var x :| x in S;
      var S' := S - {x};
      var R' := ClosestExists(d, n, S');
      assert S == S' + {x};
      if |R'| < n {
        ClosestGrow(d, n, S', R', x);
        R := R' + {x};
      } else {
        var e := Farthest(d, R' + {x});
        ClosestEvict(d, n, S', R', x, e);
        R := R' + {x} - {e};
      }
    }
  }

  lemma TopIsClosest<T(!new)>(d: map<T, real>, n: nat, S: set<T>)
    requires S <= d.Keys && Distinct(d)
    ensures Closest(d, n, S, Top(d, n, S))
  {
    var R := ClosestExists(d, n, S);
    ClosestIsTop(d, n, S, R);
  }

  lemma TopMonotone<T(!new)>(d: map<T, real>, m: nat, n: nat, S: set<T>)
    requires S <= d.Keys && m <= n
    ensures Top(d, m, S) <= Top(d, n, S)
  {
  }

  /** A member of the overall top `n` that is also in a part stays in the part's top `n`. */
  lemma TopOfPart<T(!new)>(d: map<T, real>, n: nat, S: set<T>, P: set<T>)
    requires P <= S <= d.Keys
    ensures Top(d, n, S) * P <= Top(d, n, P)
    ensures Top(d, n, S) * Top(d, n, P) == Top(d, n, S) * P
  {
    forall x | x in Top(d, n, S) && x in P ensures x in Top(d, n, P) {
      SubsetSize(Ahead(d, P, x), Ahead(d, S, x));
    }
  }
}
