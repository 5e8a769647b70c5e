/** Little-endian fixed-width fields and a byte stream that may end early. */
module Bytes {
  import opened Types

  type Byte = n: nat | n < 256

  function Pow256(w: nat): (p: nat)
    ensures p >= 1
  {
    if w == 0 then 1 else 256 * Pow256(w - 1)
  }

  predicate Fits(n: int, w: nat) { 0 <= n < Pow256(w) }

  function Le(n: nat, w: nat): (bs: seq<Byte>)
    ensures |bs| == w
  {
    if w == 0 then [] else [n % 256] + Le(n / 256, w - 1)
  }

  function FromLe(bs: seq<Byte>): (n: nat)
    ensures n < Pow256(|bs|)
  {
    if bs == [] then 0 else bs[0] + 256 * FromLe(bs[1..])
  }

  lemma {:induction false} FromLeLe(n: nat, w: nat)
    requires Fits(n, w)
    ensures FromLe(Le(n, w)) == n
  {
    if w > 0 {
      assert Le(n, w)[1..] == Le(n / 256, w - 1);
      FromLeLe(n / 256, w - 1);
    }
  }

  /** The least significant byte comes first. */
  lemma LeOfFour(n: nat)
    ensures Le(n, 4) == [n % 256, n / 256 % 256, n / 65536 % 256, n / 16777216 % 256]
  {
    assert n / 256 / 256 == n / 65536 && n / 65536 / 256 == n / 16777216;
    assert Le(n / 16777216, 1) == [n / 16777216 % 256] + Le(n / 16777216 / 256, 0);
    assert Le(n / 65536, 2) == [n / 65536 % 256] + Le(n / 16777216, 1);
    assert Le(n / 256, 3) == [n / 256 % 256] + Le(n / 65536, 2);
  }

  function LeAll(ns: seq<nat>, w: nat): (bs: seq<Byte>)
    ensures |bs| == |ns| * w
  {
    if ns == [] then [] else LeAll(ns[..|ns| - 1], w) + Le(ns[|ns| - 1], w)
  }

  /** The item sizes in use: float32 and uint64. */
  predicate ItemSize(w: nat) { w == 4 || w == 8 }

  function FromLeAll(bs: seq<Byte>, w: nat): (ns: seq<nat>)
    requires ItemSize(w) && |bs| % w == 0
    ensures forall i :: 0 <= i < |ns| ==> ns[i] < Pow256(w)
  {
    if bs == [] then [] else
    CutLast(|bs|, w);
    FromLeAll(bs[..|bs| - w], w) + [FromLe(bs[|bs| - w..])]
  }

  lemma CutLast(n: nat, w: nat)
    requires ItemSize(w) && n % w == 0 && n > 0
    ensures n >= w && (n - w) % w == 0
  {
    if w == 4 { assert (n - 4) % 4 == 0; } else { assert (n - 8) % 8 == 0; }
  }

  lemma MultipleMod(k: nat, w: nat)
    requires ItemSize(w)
    ensures (k * w) % w == 0
  {
    if w == 4 { assert (k * 4) % 4 == 0; } else { assert (k * 8) % 8 == 0; }
  }

  ghost predicate AllFit(ns: seq<nat>, w: nat) { forall i :: 0 <= i < |ns| ==> Fits(ns[i], w) }

  lemma {:induction false} FromLeAllLeAll(ns: seq<nat>, w: nat)
    requires ItemSize(w) && AllFit(ns, w)
    ensures |LeAll(ns, w)| % w == 0 && FromLeAll(LeAll(ns, w), w) == ns
  {
    hide *;
    WholeItems(ns, w);
    if ns == [] {
      NoItems(w);
    } else {
      var front, last := ns[..|ns| - 1], ns[|ns| - 1];
      FitParts(ns, w);
      FromLeAllLeAll(front, w);
      FromLeLe(last, w);
      LeAllLast(ns, w);
      FromLeAllSnoc(LeAll(front, w), Le(last, w), w);
      assert front + [last] == ns;
    }
  }

  lemma WholeItems(ns: seq<nat>, w: nat)
    requires ItemSize(w)
    ensures |LeAll(ns, w)| % w == 0
  {
    hide LeAll;
    MultipleMod(|ns|, w);
  }

  lemma NoItems(w: nat)
    requires ItemSize(w)
    ensures LeAll([], w) == [] && FromLeAll([], w) == []
  {
  }

  lemma FitParts(ns: seq<nat>, w: nat)
    requires AllFit(ns, w) && ns != []
    ensures AllFit(ns[..|ns| - 1], w) && Fits(ns[|ns| - 1], w)
  {
    hide Fits;
  }

  lemma LeAllLast(ns: seq<nat>, w: nat)
    requires ns != []
    ensures LeAll(ns, w) == LeAll(ns[..|ns| - 1], w) + Le(ns[|ns| - 1], w)
  {
    hide Le;
  }

  lemma FromLeAllSnoc(front: seq<Byte>, last: seq<Byte>, w: nat)
    requires ItemSize(w) && |front| % w == 0 && |last| == w && |front + last| % w == 0
    ensures FromLeAll(front + last, w) == FromLeAll(front, w) + [FromLe(last)]
  {
    hide FromLe, Pow256;
    assert (front + last)[..|front + last| - w] == front && (front + last)[|front + last| - w..] == last;
  }

  // ---------- reading ----------

  /** `read(n)`: up to `n` bytes. */
  function Take(rest: seq<Byte>, n: nat): (r: (seq<Byte>, seq<Byte>))
    ensures r.0 + r.1 == rest && |r.0| <= n && (|r.0| < n ==> r.1 == [])
  {
    if |rest| < n then (rest, []) else (rest[..n], rest[n..])
  }

  datatype LoadError = Truncated | BadMagic | BadVersion | BadParameters | BadText | BadBuffer | CountMismatch

  /** `struct.unpack` of one field, which refuses a short read. */
  function Fixed(rest: seq<Byte>, w: nat): Result<(nat, seq<Byte>), LoadError> {
    if |rest| < w then Err(Truncated) else Ok((FromLe(rest[..w]), rest[w..]))
  }

  /** `frombuffer`: whole items only. */
  function Items(bs: seq<Byte>, w: nat): Result<seq<nat>, LoadError>
    requires ItemSize(w)
  {
    if |bs| % w != 0 then Err(BadBuffer) else Ok(FromLeAll(bs, w))
  }

  lemma FixedLe(n: nat, w: nat, tail: seq<Byte>)
    requires Fits(n, w)
    ensures Fixed(Le(n, w) + tail, w) == Ok((n, tail))
  {
    FromLeLe(n, w);
    assert (Le(n, w) + tail)[..w] == Le(n, w) && (Le(n, w) + tail)[w..] == tail;
  }

  lemma TakeAll(bs: seq<Byte>, tail: seq<Byte>)
    ensures Take(bs + tail, |bs|) == (bs, tail)
  {
    assert (bs + tail)[..|bs|] == bs && (bs + tail)[|bs|..] == tail;
  }

  lemma ItemsLeAll(ns: seq<nat>, w: nat, tail: seq<Byte>)
    requires ItemSize(w) && AllFit(ns, w)
    ensures Take(LeAll(ns, w) + tail, |ns| * w) == (LeAll(ns, w), tail) && Items(LeAll(ns, w), w) == Ok(ns)
  {
    TakeAll(LeAll(ns, w), tail);
    FromLeAllLeAll(ns, w);
  }

  // ---------- more input after the input ----------

  lemma FixedMore(rest: seq<Byte>, w: nat, more: seq<Byte>)
    requires Fixed(rest, w).Ok?
    ensures Fixed(rest + more, w) == Ok((Fixed(rest, w).value.0, Fixed(rest, w).value.1 + more))
  {
    assert (rest + more)[..w] == rest[..w] && (rest + more)[w..] == rest[w..] + more;
  }

  lemma TakeMore(rest: seq<Byte>, n: nat, more: seq<Byte>)
    requires Take(rest, n).1 != []
    ensures Take(rest + more, n) == (Take(rest, n).0, Take(rest, n).1 + more)
  {
    assert (rest + more)[..n] == rest[..n] && (rest + more)[n..] == rest[n..] + more;
  }
}
