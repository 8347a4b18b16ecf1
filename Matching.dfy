/**
 * The greatest-match evaluation of `Collection` (include/interface.hpp):
 * the per-cluster sweep of `gmatches` with its originator counters, the
 * averaging of `avggms` and the harmonic combination of `f1gm`.
 *
 * Clusters are named by their position in a collection's traversal order.
 * The match value of a pair of clusters (`Cluster::f1` or `Cluster::pprob`)
 * is a function parameter `fmatch(members, count, size)`: the members of
 * the evaluated cluster, the counter of the foreign cluster and the size of
 * the foreign cluster.
 */
module Matching {
  import opened Exceptions
  import opened NodeIndex
  import opened Interface

  // ---------------------------------------------------------------------------
  // Originator counters

  /**
   * `Counter` of a foreign cluster: the originator of the current count (the
   * owner `S` of the evaluated clusters and the cluster's position) and the
   * count of the members matched so far.
   */
  datatype Counter<S(==)> = Counter(orig: Option<(S, nat)>, count: nat)

  /** `counter(orig, 1)`: a new originator restarts the count; then one is added. */
  function Bump<S(==)>(ctr: Counter<S>, o: (S, nat)): Counter<S>
  {
    Counter(Some(o), (if ctr.orig == Some(o) then ctr.count else 0) + 1)
  }

  /** Every element of `h` is a position below `n`. */
  predicate InRange(h: seq<nat>, n: nat)
  {
    forall k :: 0 <= k < |h| ==> h[k] < n
  }

  /**
   * The foreign clusters met while traversing the members `ms`, in order:
   * for each member, the clusters listed for it in the foreign index (none
   * when the member is not indexed there).
   */
  function Hits(ms: seq<Id>, ndcs: NodeClusters): seq<nat>
  {
    if ms == [] then [] else Hits(ms[..|ms| - 1], ndcs) + Owners(ndcs, ms[|ms| - 1])
  }

  /** The number of pairs of equal elements of `ms` and `ds`: the shared members. */
  function Common(ms: seq<Id>, ds: seq<Id>): nat
  {
    if ms == [] then 0 else Common(ms[..|ms| - 1], ds) + Count(ds, ms[|ms| - 1])
  }

  /** The clusters listed in an index are positions of the indexed clusters. */
  lemma OwnersInRange(cls: seq<seq<Id>>, n: Id)
    ensures InRange(Owners(Index(cls), n), |cls|)
  {
    forall k | 0 <= k < |Owners(Index(cls), n)|
      ensures Owners(Index(cls), n)[k] < |cls|
    {
      OwnedBy(cls, n, Owners(Index(cls), n)[k]);
    }
  }

  /** All foreign clusters met are positions of the foreign collection. */
  lemma {:induction false} HitsInRange(ms: seq<Id>, cls: seq<seq<Id>>)
    ensures InRange(Hits(ms, Index(cls)), |cls|)
    decreases |ms|
  {
    if ms != [] {
      HitsInRange(ms[..|ms| - 1], cls);
      OwnersInRange(cls, ms[|ms| - 1]);
    }
  }

  /**
   * A foreign cluster is met once per shared member: the number of times
   * cluster `d` occurs among the hits is the number of members it shares.
   */
  lemma {:induction false} HitsCountShared(ms: seq<Id>, cls: seq<seq<Id>>, d: nat)
    ensures Count(Hits(ms, Index(cls)), d) == if d < |cls| then Common(ms, cls[d]) else 0
    decreases |ms|
  {
    if ms != [] {
      var init, last := ms[..|ms| - 1], ms[|ms| - 1];
      HitsCountShared(init, cls, d);
      CountConcat(Hits(init, Index(cls)), Owners(Index(cls), last), d);
      IndexCounts(cls, last, d);
    }
  }

  /** Some members are shared exactly when a member of `ms` occurs in `ds`. */
  lemma {:induction false} CommonPositive(ms: seq<Id>, ds: seq<Id>)
    ensures Common(ms, ds) > 0 <==> exists m :: m in ms && m in ds
    decreases |ms|
  {
    if ms != [] {
      var init, last := ms[..|ms| - 1], ms[|ms| - 1];
      CommonPositive(init, ds);
      CountPositive(ds, last);
      assert ms == init + [last];
    }
  }

  // ---------------------------------------------------------------------------
  // The sweep of one cluster

  /**
   * The counters and the greatest match after the hits `h` of the evaluated
   * cluster `o` (members `ms`): each hit bumps the foreign cluster's counter
   * and evaluates the match, which replaces the greatest one when larger.
   * The greatest match starts at 0.
   */
  function Scan<S(==)>(cs: seq<Counter<S>>, h: seq<nat>, o: (S, nat), ms: seq<Id>,
                       cls: seq<seq<Id>>, fmatch: (seq<Id>, nat, nat) -> real): (r: (seq<Counter<S>>, real))
    requires |cs| == |cls| && InRange(h, |cls|)
    ensures |r.0| == |cs| && r.1 >= 0.0
  {
    if h == [] then (cs, 0.0)
    else
      var prev := Scan(cs, h[..|h| - 1], o, ms, cls, fmatch);
      var d := h[|h| - 1];
      var ctr := Bump(prev.0[d], o);
      var m := fmatch(ms, ctr.count, |cls[d]|);
      (prev.0[d := ctr], if prev.1 < m then m else prev.1)
  }

  /**
   * The greatest match when every counter restarts on its first hit: the
   * count at a hit is the number of hits of that foreign cluster so far.
   */
  function FreshBest(h: seq<nat>, ms: seq<Id>, cls: seq<seq<Id>>, fmatch: (seq<Id>, nat, nat) -> real): real
    requires InRange(h, |cls|)
  {
    if h == [] then 0.0
    else
      var g := FreshBest(h[..|h| - 1], ms, cls, fmatch);
      var d := h[|h| - 1];
      var m := fmatch(ms, Count(h, d), |cls[d]|);
      if g < m then m else g
  }

  /** A counter is not last bumped by originator `o`. */
  predicate NotFrom<S(==)>(cs: seq<Counter<S>>, o: (S, nat))
  {
    forall d :: 0 <= d < |cs| ==> cs[d].orig != Some(o)
  }

  /**
   * Without stale counts of the originator, the sweep of a cluster leaves
   * each hit counter at the number of its hits, leaves the others as they
   * were, and yields the greatest match over these counts.
   */
  lemma {:induction false} ScanFresh<S>(cs: seq<Counter<S>>, h: seq<nat>, o: (S, nat), ms: seq<Id>,
                                        cls: seq<seq<Id>>, fmatch: (seq<Id>, nat, nat) -> real)
    requires |cs| == |cls| && InRange(h, |cls|) && NotFrom(cs, o)
    ensures forall d :: 0 <= d < |cs| ==>
      Scan(cs, h, o, ms, cls, fmatch).0[d] == if Count(h, d) == 0 then cs[d] else Counter(Some(o), Count(h, d))
    ensures Scan(cs, h, o, ms, cls, fmatch).1 == FreshBest(h, ms, cls, fmatch)
    decreases |h|
  {
    if h != [] {
      var init, last := h[..|h| - 1], h[|h| - 1];
      ScanFresh(cs, init, o, ms, cls, fmatch);
      assert h == init + [last];
      forall d | 0 <= d < |cs|
        ensures Count(h, d) == Count(init, d) + (if last == d then 1 else 0)
      {
        CountSnoc(init, last, d);
      }
    }
  }

  /**
   * The sweep of a cluster changes a counter only by making `o` its
   * originator.
   */
  lemma {:induction false} ScanOrigins<S>(cs: seq<Counter<S>>, h: seq<nat>, o: (S, nat), ms: seq<Id>,
                                          cls: seq<seq<Id>>, fmatch: (seq<Id>, nat, nat) -> real, d: nat)
    requires |cs| == |cls| && InRange(h, |cls|) && d < |cs|
    ensures var c := Scan(cs, h, o, ms, cls, fmatch).0[d]; c == cs[d] || c.orig == Some(o)
    decreases |h|
  {
    if h != [] {
      ScanOrigins(cs, h[..|h| - 1], o, ms, cls, fmatch, d);
    }
  }

  // ---------------------------------------------------------------------------
  // Greatest match over the final counts

  /** An element counted in a prefix is counted at least as often in the whole. */
  lemma CountPrefix(h: seq<nat>, j: nat, x: nat)
    requires j <= |h|
    ensures Count(h[..j], x) <= Count(h, x)
  {
    CountConcat(h[..j], h[j..], x);
    assert h[..j] + h[j..] == h;
  }

  /**
   * The greatest match is at least the match of every foreign cluster met,
   * evaluated at its final count: the count of its last hit.
   */
  lemma {:induction false} FreshBestCovers(h: seq<nat>, ms: seq<Id>, cls: seq<seq<Id>>,
                                           fmatch: (seq<Id>, nat, nat) -> real, d: nat)
    requires InRange(h, |cls|) && d in h
    ensures fmatch(ms, Count(h, d), |cls[d]|) <= FreshBest(h, ms, cls, fmatch)
    decreases |h|
  {
    var init, last := h[..|h| - 1], h[|h| - 1];
    CountSnoc(init, last, d);
    assert h == init + [last];
    if last != d {
      FreshBestCovers(init, ms, cls, fmatch, d);
    }
  }

  /**
   * The greatest match is 0 or the match of some hit at the count it had
   * then.
   */
  lemma {:induction false} FreshBestAttained(h: seq<nat>, ms: seq<Id>, cls: seq<seq<Id>>,
                                             fmatch: (seq<Id>, nat, nat) -> real)
    requires InRange(h, |cls|)
    ensures var g := FreshBest(h, ms, cls, fmatch);
      g == 0.0 || exists j :: 0 <= j < |h| && g == fmatch(ms, Count(h[..j + 1], h[j]), |cls[h[j]]|)
    decreases |h|
  {
    if h != [] {
      var init, last := h[..|h| - 1], h[|h| - 1];
      FreshBestAttained(init, ms, cls, fmatch);
      var g := FreshBest(init, ms, cls, fmatch);
      if g != 0.0 && g == FreshBest(h, ms, cls, fmatch) {
        var j :| 0 <= j < |init| && g == fmatch(ms, Count(init[..j + 1], init[j]), |cls[init[j]]|);
        assert init[..j + 1] == h[..j + 1];
      } else {
        assert h[..|h| - 1 + 1] == h;
      }
    }
  }

  /** `fmatch` does not decrease when the count grows. */
  ghost predicate Monotone(fmatch: (seq<Id>, nat, nat) -> real)
  {
    forall ms, a: nat, b: nat, s: nat {:trigger fmatch(ms, a, s), fmatch(ms, b, s)} ::
      a <= b ==> fmatch(ms, a, s) <= fmatch(ms, b, s)
  }

  /**
   * `g` is the largest of 0 and the matches of the cluster with members `ms`
   * against the foreign clusters `cls` that share a member with it, each
   * evaluated at the number of shared members.
   */
  ghost predicate IsGreatest(g: real, ms: seq<Id>, cls: seq<seq<Id>>, fmatch: (seq<Id>, nat, nat) -> real)
  {
    g >= 0.0 &&
    (forall d :: 0 <= d < |cls| && Common(ms, cls[d]) > 0 ==> fmatch(ms, Common(ms, cls[d]), |cls[d]|) <= g) &&
    (g == 0.0 || exists d :: 0 <= d < |cls| && Common(ms, cls[d]) > 0 && g == fmatch(ms, Common(ms, cls[d]), |cls[d]|))
  }

  /** The greatest match covers the match of every foreign cluster sharing a member. */
  lemma FreshBestCoversShared(ms: seq<Id>, cls: seq<seq<Id>>, fmatch: (seq<Id>, nat, nat) -> real, d: nat)
    requires d < |cls| && Common(ms, cls[d]) > 0
    ensures InRange(Hits(ms, Index(cls)), |cls|)
    ensures fmatch(ms, Common(ms, cls[d]), |cls[d]|) <= FreshBest(Hits(ms, Index(cls)), ms, cls, fmatch)
  {
    var h := Hits(ms, Index(cls));
    HitsInRange(ms, cls);
    HitsCountShared(ms, cls, d);
    CountPositive(h, d);
    FreshBestCovers(h, ms, cls, fmatch, d);
  }

  /**
   * For a match function monotone in the count, the greatest match of a
   * cluster over fresh counters is the largest of 0 and its matches against
   * the foreign clusters sharing a member, at the number of shared members.
   */
  lemma FreshBestIsGreatest(ms: seq<Id>, cls: seq<seq<Id>>, fmatch: (seq<Id>, nat, nat) -> real)
    requires Monotone(fmatch)
    ensures InRange(Hits(ms, Index(cls)), |cls|)
    ensures IsGreatest(FreshBest(Hits(ms, Index(cls)), ms, cls, fmatch), ms, cls, fmatch)
  {
    var h := Hits(ms, Index(cls));
    HitsInRange(ms, cls);
    FreshBestNonNegative(h, ms, cls, fmatch);
    var g := FreshBest(h, ms, cls, fmatch);
    forall d | 0 <= d < |cls| && Common(ms, cls[d]) > 0
      ensures fmatch(ms, Common(ms, cls[d]), |cls[d]|) <= g
    {
      FreshBestCoversShared(ms, cls, fmatch, d);
    }
    FreshBestAttained(h, ms, cls, fmatch);
    if g != 0.0 {
      var j :| 0 <= j < |h| && g == fmatch(ms, Count(h[..j + 1], h[j]), |cls[h[j]]|);
      var d := h[j];
      HitsCountShared(ms, cls, d);
      CountPositive(h, d);
      CountPrefix(h, j + 1, d);
      FreshBestCovers(h, ms, cls, fmatch, d);
      assert g <= fmatch(ms, Count(h, d), |cls[d]|);
    }
  }

  lemma {:induction false} FreshBestNonNegative(h: seq<nat>, ms: seq<Id>, cls: seq<seq<Id>>,
                                                fmatch: (seq<Id>, nat, nat) -> real)
    requires InRange(h, |cls|)
    ensures FreshBest(h, ms, cls, fmatch) >= 0.0
    decreases |h|
  {
    if h != [] {
      FreshBestNonNegative(h[..|h| - 1], ms, cls, fmatch);
    }
  }

  // ---------------------------------------------------------------------------
  // The sweep of all clusters: `gmatches`

  /**
   * The counters after the sweeps of the first `k` clusters `cls` of the
   * collection `self` against the foreign clusters `fcls`, cluster by
   * cluster in traversal order.
   */
  function Sweep<S(==)>(cs: seq<Counter<S>>, self: S, cls: seq<seq<Id>>, fcls: seq<seq<Id>>,
                        fmatch: (seq<Id>, nat, nat) -> real, k: nat): (r: seq<Counter<S>>)
    requires |cs| == |fcls| && k <= |cls|
    ensures |r| == |cs|
  {
    if k == 0 then cs
    else
      HitsInRange(cls[k - 1], fcls);
      Scan(Sweep(cs, self, cls, fcls, fmatch, k - 1), Hits(cls[k - 1], Index(fcls)), (self, k - 1),
           cls[k - 1], fcls, fmatch).0
  }

  /** The greatest match of each cluster of `self`, in traversal order. */
  function GreatestMatches<S(==)>(cs: seq<Counter<S>>, self: S, cls: seq<seq<Id>>, fcls: seq<seq<Id>>,
                                  fmatch: (seq<Id>, nat, nat) -> real): (gs: seq<real>)
    requires |cs| == |fcls|
    ensures |gs| == |cls| && forall c :: 0 <= c < |cls| ==> gs[c] >= 0.0
  {
    seq(|cls|, c requires 0 <= c < |cls| =>
      HitsInRange(cls[c], fcls);
      Scan(Sweep(cs, self, cls, fcls, fmatch, c), Hits(cls[c], Index(fcls)), (self, c), cls[c], fcls, fmatch).1)
  }

  /** Every counter last bumped by a cluster of `self` was bumped by one before position `k`. */
  predicate NoStale<S(==)>(cs: seq<Counter<S>>, self: S, k: nat)
  {
    forall d :: 0 <= d < |cs| && cs[d].orig.Some? && cs[d].orig.value.0 == self ==> cs[d].orig.value.1 < k
  }

  /** The sweeps of the clusters before `k` leave no count of a later cluster behind. */
  lemma {:induction false} SweepNoStale<S>(cs: seq<Counter<S>>, self: S, cls: seq<seq<Id>>, fcls: seq<seq<Id>>,
                                           fmatch: (seq<Id>, nat, nat) -> real, k: nat)
    requires |cs| == |fcls| && k <= |cls| && NoStale(cs, self, 0)
    ensures NoStale(Sweep(cs, self, cls, fcls, fmatch, k), self, k)
    decreases k
  {
    if k > 0 {
      SweepNoStale(cs, self, cls, fcls, fmatch, k - 1);
      var prev := Sweep(cs, self, cls, fcls, fmatch, k - 1);
      var h := Hits(cls[k - 1], Index(fcls));
      HitsInRange(cls[k - 1], fcls);
      var next := Scan(prev, h, (self, k - 1), cls[k - 1], fcls, fmatch).0;
      assert Sweep(cs, self, cls, fcls, fmatch, k) == next;
      forall d | 0 <= d < |cs| && next[d].orig.Some? && next[d].orig.value.0 == self
        ensures next[d].orig.value.1 < k
      {
        ScanOrigins(prev, h, (self, k - 1), cls[k - 1], fcls, fmatch, d);
        if next[d] == prev[d] {
          assert prev[d].orig.value.1 < k - 1;
        }
      }
    }
  }

  /**
   * When no counter starts with a count of a cluster of `self`, the greatest
   * match of each cluster is the one over the numbers of its hits.  This
   * holds for counters that were never bumped; a repeated evaluation by the
   * same collection can find stale counts.
   */
  lemma GreatestMatchesFresh<S>(cs: seq<Counter<S>>, self: S, cls: seq<seq<Id>>, fcls: seq<seq<Id>>,
                                fmatch: (seq<Id>, nat, nat) -> real, c: nat)
    requires |cs| == |fcls| && c < |cls| && NoStale(cs, self, 0)
    ensures InRange(Hits(cls[c], Index(fcls)), |fcls|)
    ensures GreatestMatches(cs, self, cls, fcls, fmatch)[c] == FreshBest(Hits(cls[c], Index(fcls)), cls[c], fcls, fmatch)
  {
    HitsInRange(cls[c], fcls);
    SweepNoStale(cs, self, cls, fcls, fmatch, c);
    ScanFresh(Sweep(cs, self, cls, fcls, fmatch, c), Hits(cls[c], Index(fcls)), (self, c), cls[c], fcls, fmatch);
  }

  // ---------------------------------------------------------------------------
  // Averaging: `avggms`

  /** An `AccProb` value: a number or NaN (no infinity arises below). */
  datatype Float = Num(r: real) | NaN

  /** Floating-point division on the quotients met here: 0/0 and a NaN operand give NaN. */
  function Div(x: Float, y: Float): (q: Float)
    requires x.Num? && y.Num? && y.r == 0.0 ==> x.r == 0.0
    ensures q.Num? <==> x.Num? && y.Num? && y.r != 0.0
  {
    if x.NaN? || y.NaN? || y.r == 0.0 then NaN else Num(x.r / y.r)
  }

  function Abs(x: real): real
  {
    if x < 0.0 then -x else x
  }

  /**
   * The tolerant floating-point `less(a, b, size)`: `a` is below `b` by more
   * than the accumulation error `tol * size * (1 + |a + b|)`, where `tol` is
   * `precision_limit()` of the type, the square root of its machine epsilon.
   * False when an operand is NaN.
   */
  predicate Less(x: Float, y: Float, size: nat, tol: real)
  {
    x.Num? && y.Num? && x.r - y.r + tol * size as real * (1.0 + Abs(x.r + y.r)) < 0.0
  }

  /**
   * The mean `m` of `n` values exceeds 1 by more than the tolerance of
   * `less`, as `avggms` checks it on the accumulated value `n * m`.
   */
  predicate AboveOne(m: real, n: real, tol: real)
  {
    m > 1.0 + tol * (1.0 + Abs(n + n * m))
  }

  /** A mean of at most 1 is not above 1, whatever the non-negative tolerance. */
  lemma NotAboveOne(m: real, n: real, tol: real)
    requires m <= 1.0 && tol >= 0.0
    ensures !AboveOne(m, n, tol)
  {
    NonNegativeProduct(tol, 1.0, 1.0 + Abs(n + n * m));
  }

  /** With a positive size, the tolerant `less` of `n` below `a` asks whether the mean `a / n` is above 1. */
  lemma LessOfRatio(n: real, size: nat, a: real, tol: real)
    requires n == size as real && n > 0.0
    ensures Less(Num(n), Num(a), size, tol) <==> AboveOne(a / n, n, tol)
  {
    var e := tol * (1.0 + Abs(n + a));
    var x := 1.0 - a / n + e;
    assert Less(Num(n), Num(a), size, tol) <==> n - a + tol * size as real * (1.0 + Abs(n + a)) < 0.0;
    assert tol * size as real * (1.0 + Abs(n + a)) == n * e;
    assert n - a + n * e == n * x;
    PositiveProduct(n, x);
    AboveOneOfSum(n, a, tol);
    assert AboveOne(a / n, n, tol) <==> x < 0.0;
  }

  lemma AboveOneOfSum(n: real, a: real, tol: real)
    requires n > 0.0
    ensures AboveOne(a / n, n, tol) <==> a / n > 1.0 + tol * (1.0 + Abs(n + a))
  {
    var q := a / n;
    assert n * q == a;
  }

  lemma PositiveProduct(n: real, x: real)
    requires n > 0.0
    ensures n * x < 0.0 <==> x < 0.0
  {
  }

  /** Without tolerance the tolerant `less` is the exact `<`; with one, it is stricter. */
  lemma LessTolerance(x: Float, y: Float, size: nat, tol: real)
    ensures tol == 0.0 ==> (Less(x, y, size, tol) <==> x.Num? && y.Num? && x.r < y.r)
    ensures tol >= 0.0 && Less(x, y, size, tol) ==> x.r < y.r
  {
    if x.Num? && y.Num? && tol >= 0.0 {
      NonNegativeProduct(tol, size as real, 1.0 + Abs(x.r + y.r));
    }
  }

  lemma NonNegativeProduct(a: real, b: real, c: real)
    requires a >= 0.0 && b >= 0.0 && c >= 0.0
    ensures a * b * c >= 0.0
  {
  }

  /** The sum of the values, accumulated in order. */
  function Sum(gs: seq<real>): real
  {
    if gs == [] then 0.0 else Sum(gs[..|gs| - 1]) + gs[|gs| - 1]
  }

  /** The sum of the values each multiplied by its weight. */
  function WeightedSum(gs: seq<real>, ws: seq<nat>): real
    requires |gs| == |ws|
  {
    if gs == [] then 0.0
    else WeightedSum(gs[..|gs| - 1], ws[..|ws| - 1]) + gs[|gs| - 1] * ws[|ws| - 1] as real
  }

  /** The cluster sizes. */
  function Sizes(cls: seq<seq<Id>>): (ws: seq<nat>)
    ensures |ws| == |cls| && forall c :: 0 <= c < |cls| ==> ws[c] == |cls[c]|
  {
    seq(|cls|, c requires 0 <= c < |cls| => |cls[c]|)
  }

  /** Weights that sum to 0 give a weighted sum of 0. */
  lemma {:induction false} WeightedSumOfZeros(gs: seq<real>, ws: seq<nat>)
    requires |gs| == |ws| && Total(ws) == 0
    ensures WeightedSum(gs, ws) == 0.0
    decreases |gs|
  {
    if gs != [] {
      WeightedSumOfZeros(gs[..|gs| - 1], ws[..|ws| - 1]);
    }
  }

  /**
   * `avggms` after `gmatches`: the greatest matches `gs` summed, each
   * weighted by its cluster size `ws` when `weighted`, and divided by the
   * number of clusters (for the weighted sum, through the mean size); an
   * accumulated sum above the number of clusters by more than the tolerance
   * `tol` of `less` throws `overflow_error`.
   */
  function Average(gs: seq<real>, ws: seq<nat>, weighted: bool, tol: real): (r: Result<Float>)
    requires |gs| == |ws|
  {
    var n := Num(|gs| as real);
    var acc :=
      if weighted then
        WeightedSumOfZerosIf(gs, ws);
        Div(Num(WeightedSum(gs, ws)), Div(Num(Total(ws) as real), n))
      else Num(Sum(gs));
    if Less(n, acc, |gs|, tol) then Err(OverflowError) else Ok(Div(acc, n))
  }

  lemma WeightedSumOfZerosIf(gs: seq<real>, ws: seq<nat>)
    requires |gs| == |ws|
    ensures Total(ws) == 0 ==> WeightedSum(gs, ws) == 0.0
  {
    if Total(ws) == 0 {
      WeightedSumOfZeros(gs, ws);
    }
  }

  /** `avggms` of no clusters, or weighted of clusters without members, is NaN. */
  lemma AverageOfNothing(gs: seq<real>, ws: seq<nat>, weighted: bool, tol: real)
    requires |gs| == |ws| && (|gs| == 0 || (weighted && Total(ws) == 0))
    ensures Average(gs, ws, weighted, tol) == Ok(NaN)
  {
    if |gs| == 0 {
      assert ws == [];
    } else {
      WeightedSumOfZeros(gs, ws);
    }
  }

  /**
   * Unweighted, `avggms` is the mean of the greatest matches, and throws
   * `overflow_error` exactly when that mean exceeds 1 by more than the
   * tolerance, which grows with the sum and the number of clusters.
   */
  lemma AverageUnweighted(gs: seq<real>, ws: seq<nat>, tol: real)
    requires |gs| == |ws| && |gs| > 0
    ensures var m := Sum(gs) / |gs| as real;
      Average(gs, ws, false, tol) == if AboveOne(m, |gs| as real, tol) then Err(OverflowError) else Ok(Num(m))
  {
    LessOfRatio(|gs| as real, |gs|, Sum(gs), tol);
  }

  /**
   * Weighted, `avggms` is the mean of the greatest matches weighted by the
   * cluster sizes, and throws `overflow_error` exactly when that mean
   * exceeds 1 by more than the tolerance.
   */
  lemma AverageWeighted(gs: seq<real>, ws: seq<nat>, tol: real)
    requires |gs| == |ws| && Total(ws) > 0
    ensures var m := WeightedMean(gs, ws);
      Average(gs, ws, true, tol) == if AboveOne(m, |gs| as real, tol) then Err(OverflowError) else Ok(Num(m))
  {
    var n, t := |gs| as real, Total(ws) as real;
    var w := WeightedSum(gs, ws);
    assert Div(Num(t), Num(n)) == Num(t / n);
    assert Div(Num(w), Num(t / n)) == Num(w / (t / n));
    WeightedCheck(n, |gs|, w, t, tol);
  }

  /** The mean of the values weighted by `ws`. */
  function WeightedMean(gs: seq<real>, ws: seq<nat>): real
    requires |gs| == |ws| && Total(ws) > 0
  {
    WeightedSum(gs, ws) / Total(ws) as real
  }

  /** The check and the quotient of `avggms` on the weighted sum `w` of total weight `t`. */
  lemma WeightedCheck(n: real, size: nat, w: real, t: real, tol: real)
    requires n == size as real && n > 0.0 && t > 0.0
    ensures var a := w / (t / n);
      (Less(Num(n), Num(a), size, tol) <==> AboveOne(w / t, n, tol)) && a / n == w / t
  {
    Rescale(w, t, n);
    LessOfRatio(n, size, w / (t / n), tol);
  }

  /** `w / (t / n)` is `n` times `w / t`, for positive `t` and `n`. */
  lemma Rescale(w: real, t: real, n: real)
    requires t > 0.0 && n > 0.0
    ensures w / (t / n) == n * (w / t)
    ensures w / (t / n) / n == w / t
  {
    var q := w / (t / n);
    assert q == w * n / t;
    assert q / n == w / t;
  }

  /** The sum of values in [0, 1] lies in [0, their number]. */
  lemma {:induction false} SumOfUnits(gs: seq<real>)
    requires forall k :: 0 <= k < |gs| ==> 0.0 <= gs[k] <= 1.0
    ensures 0.0 <= Sum(gs) <= |gs| as real
    decreases |gs|
  {
    if gs != [] {
      SumOfUnits(gs[..|gs| - 1]);
    }
  }

  /** The weighted sum of values in [0, 1] lies in [0, the total weight]. */
  lemma {:induction false} WeightedSumOfUnits(gs: seq<real>, ws: seq<nat>)
    requires |gs| == |ws| && forall k :: 0 <= k < |gs| ==> 0.0 <= gs[k] <= 1.0
    ensures 0.0 <= WeightedSum(gs, ws) <= Total(ws) as real
    decreases |gs|
  {
    if gs != [] {
      var gs', ws' := gs[..|gs| - 1], ws[..|ws| - 1];
      var g, w := gs[|gs| - 1], ws[|ws| - 1] as real;
      assert forall k :: 0 <= k < |gs'| ==> gs'[k] == gs[k];
      WeightedSumOfUnits(gs', ws');
      UnitTimes(g, w);
      var p, t := WeightedSum(gs', ws'), Total(ws') as real;
      assert WeightedSum(gs, ws) == p + g * w;
      assert Total(ws) as real == t + w;
    }
  }

  lemma UnitTimes(g: real, w: real)
    requires 0.0 <= g <= 1.0 && w >= 0.0
    ensures 0.0 <= g * w <= w
  {
    assert w - g * w == (1.0 - g) * w;
  }

  /**
   * Greatest matches within [0, 1], as `Cluster::f1` and `Cluster::pprob`
   * promise, never make `avggms` throw, and their average is NaN or lies in
   * [0, 1].
   */
  lemma AverageOfUnits(gs: seq<real>, ws: seq<nat>, weighted: bool, tol: real)
    requires |gs| == |ws| && forall k :: 0 <= k < |gs| ==> 0.0 <= gs[k] <= 1.0
    requires tol >= 0.0
    ensures Average(gs, ws, weighted, tol).Ok?
    ensures var f := Average(gs, ws, weighted, tol).value; f.NaN? || 0.0 <= f.r <= 1.0
  {
    if |gs| == 0 || (weighted && Total(ws) == 0) {
      AverageOfNothing(gs, ws, weighted, tol);
    } else if !weighted {
      AverageUnweighted(gs, ws, tol);
      SumOfUnits(gs);
      UnitQuotient(Sum(gs), |gs| as real);
      NotAboveOne(Sum(gs) / |gs| as real, |gs| as real, tol);
    } else {
      AverageWeighted(gs, ws, tol);
      WeightedSumOfUnits(gs, ws);
      UnitQuotient(WeightedSum(gs, ws), Total(ws) as real);
      NotAboveOne(WeightedMean(gs, ws), |gs| as real, tol);
    }
  }

  lemma UnitQuotient(x: real, y: real)
    requires y > 0.0 && 0.0 <= x <= y
    ensures 0.0 <= x / y <= 1.0
  {
  }

  // ---------------------------------------------------------------------------
  // Combination: `f1gm`

  /** A non-negative number or NaN, as the averages of greatest matches are. */
  predicate NonNegative(f: Float)
  {
    f.NaN? || f.r >= 0.0
  }

  /** Averages of greatest matches are non-negative. */
  lemma AverageNonNegative(gs: seq<real>, ws: seq<nat>, weighted: bool, tol: real)
    requires |gs| == |ws| && forall k :: 0 <= k < |gs| ==> gs[k] >= 0.0
    ensures Average(gs, ws, weighted, tol).Ok? ==> NonNegative(Average(gs, ws, weighted, tol).value)
  {
    if |gs| == 0 || (weighted && Total(ws) == 0) {
      AverageOfNothing(gs, ws, weighted, tol);
    } else if !weighted {
      AverageUnweighted(gs, ws, tol);
      SumNonNegative(gs);
    } else {
      AverageWeighted(gs, ws, tol);
      WeightedSumNonNegative(gs, ws);
    }
  }

  lemma {:induction false} SumNonNegative(gs: seq<real>)
    requires forall k :: 0 <= k < |gs| ==> gs[k] >= 0.0
    ensures Sum(gs) >= 0.0
    decreases |gs|
  {
    if gs != [] {
      SumNonNegative(gs[..|gs| - 1]);
    }
  }

  lemma {:induction false} WeightedSumNonNegative(gs: seq<real>, ws: seq<nat>)
    requires |gs| == |ws| && forall k :: 0 <= k < |gs| ==> gs[k] >= 0.0
    ensures WeightedSum(gs, ws) >= 0.0
    decreases |gs|
  {
    if gs != [] {
      WeightedSumNonNegative(gs[..|gs| - 1], ws[..|ws| - 1]);
    }
  }

  /** Floating-point product, NaN with a NaN operand. */
  function Mul(x: Float, y: Float): (p: Float)
    ensures p.Num? <==> x.Num? && y.Num?
  {
    if x.NaN? || y.NaN? then NaN else Num(x.r * y.r)
  }

  /** As written in `f1gm`: `2 * a / (a + b) * b`, without the zero guard of `hmean`. */
  function F1gmAsWritten(a: Float, b: Float): Float
    requires NonNegative(a) && NonNegative(b)
  {
    if a.NaN? || b.NaN? then NaN else Mul(Div(Num(2.0 * a.r), Num(a.r + b.r)), b)
  }

  /** Two averages of 0, as for collections without a shared node, make `f1gm` NaN. */
  lemma F1gmAsWrittenZero()
    ensures F1gmAsWritten(Num(0.0), Num(0.0)) == NaN
    ensures F1gmMean(Num(0.0), Num(0.0)) == Num(0.0)
  {
  }

  /** The harmonic mean of the two averages as `hmean` takes it: 0 when both are 0. */
  function F1gmMean(a: Float, b: Float): (r: Float)
    ensures r.Num? <==> a.Num? && b.Num?
  {
    if a.NaN? || b.NaN? then NaN else Num(HMean(a.r, b.r))
  }

  /**
   * The guarded mean agrees with the formula as written wherever that is a
   * number, and lies between the smaller average and their arithmetic mean.
   */
  lemma F1gmMeanAgrees(a: Float, b: Float)
    requires NonNegative(a) && NonNegative(b)
    ensures F1gmAsWritten(a, b).Num? ==> F1gmMean(a, b) == F1gmAsWritten(a, b)
    ensures F1gmMean(a, b).Num? ==>
      (if a.r <= b.r then a.r else b.r) <= F1gmMean(a, b).r <= AMean(a.r, b.r)
  {
    if a.Num? && b.Num? {
      HMeanBounds(a.r, b.r);
      if a.r + b.r != 0.0 {
        assert 2.0 * a.r / (a.r + b.r) * b.r == HMean(a.r, b.r);
      }
    }
  }
}
