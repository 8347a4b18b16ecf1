/**
 * Integral helpers and the sorted-range search toolkit of xmeasures
 * (shared/operations.hpp).
 *
 * A C++ iterator range [begin, end) over a random-access container is
 * modelled as a sequence `s` together with two indices `lo <= hi`; an
 * iterator is an index in [lo, hi], and `hi` plays the role of `end`.
 * The comparison callback is `bsVal`, a three-way comparison over
 * mathematical integers.
 */
module Ops {

  /** Minimal range length for which the binary search is used. */
  const BinSearchMargin: int := 9

  // ---------------------------------------------------------------------------
  // Integral arithmetic

  function Abs(x: int): nat
  {
    if x < 0 then -x else x
  }

  /**
   * C/C++ integer division: truncation toward zero (Dafny's `/` is
   * Euclidean).  The magnitude of the quotient is the largest whose multiple
   * of the divisor does not exceed the dividend, and its sign is the product
   * of the operands' signs.
   */
  function CDiv(a: int, b: int): (q: int)
    requires b != 0
    ensures a >= 0 && b > 0 ==> q == a / b
    ensures (a >= 0) == (b > 0) || a == 0 ==> q >= 0
    ensures (a < 0) != (b < 0) && a != 0 ==> q <= 0
    ensures Abs(q) * Abs(b) <= Abs(a) < (Abs(q) + 1) * Abs(b)
  {
    var n, d := Abs(a), Abs(b);
    var k := n / d;
    QuotientBounds(n, d);
    var q := if (a < 0) == (b < 0) then k else -k;
    assert Abs(q) == k;
    q
  }

  /** The Euclidean quotient of naturals, bracketed by multiples of the divisor. */
  lemma QuotientBounds(n: nat, d: nat)
    requires d > 0
    ensures n / d >= 0
    ensures (n / d) * d <= n < (n / d + 1) * d
  {
    var q, m := n / d, n % d;
    assert n == d * q + m && 0 <= m < d;
    assert (q + 1) * d == q * d + d;
  }

  /** A negated dividend negates the quotient. */
  lemma CDivNegDividend(a: int, b: int)
    requires b != 0
    ensures CDiv(-a, b) == -CDiv(a, b)
  {
  }

  /** A negated divisor negates the quotient. */
  lemma CDivNegDivisor(a: int, b: int)
    requires b != 0
    ensures CDiv(a, -b) == -CDiv(a, b)
  {
  }

  /**
   * `rdiv(a, b)`: the quotient of an integral division rounded to the nearest
   * value.  The remainder is doubled (`<< 1`) and divided again.
   */
  function RDiv(a: int, b: int): (r: int)
    requires b != 0
  {
    var base := CDiv(a, b);
    base + CDiv((a - base * b) * 2, b)
  }

  /** Divides a value below twice the divisor: the quotient is 0 or 1. */
  lemma DivBelowTwice(x: int, b: int)
    requires b > 0 && 0 <= x < 2 * b
    ensures x / b == (if x >= b then 1 else 0)
  {
    var d, m := x / b, x % b;
    assert x == b * d + m && 0 <= m < b;
  }

  /**
   * For non-negative operands `rdiv` is the truncated quotient plus one
   * exactly when the doubled remainder reaches the divisor (halves round up).
   */
  lemma RDivRoundsHalfUp(a: int, b: int)
    requires a >= 0 && b > 0
    ensures RDiv(a, b) == a / b + (if 2 * (a % b) >= b then 1 else 0)
  {
    var q, m := a / b, a % b;
    assert a == b * q + m && 0 <= m < b;
    assert CDiv(a, b) == q;
    assert (a - q * b) * 2 == 2 * m;
    DivBelowTwice(2 * m, b);
  }

  /**
   * Rounded division is at most half a divisor away from the exact quotient,
   * for operands of any signs; for non-negative operands an exact half rounds up.
   */
  lemma RDivNearest(a: int, b: int)
    requires b != 0
    ensures Abs(2 * a - 2 * b * RDiv(a, b)) <= Abs(b)
    ensures a >= 0 && b > 0 ==> 2 * b * RDiv(a, b) - b <= 2 * a < 2 * b * RDiv(a, b) + b
  {
    RDivNearestNatural(Abs(a), Abs(b));
    RDivSigns(a, b);
    SignedNearest(a, b, RDiv(a, b), RDiv(Abs(a), Abs(b)));
  }

  /** The bounds of rounded division carry over from the magnitudes to signed operands. */
  lemma SignedNearest(a: int, b: int, r: int, r': int)
    requires b != 0 && r == (if (a < 0) == (b < 0) then r' else -r')
    requires 2 * Abs(b) * r' - Abs(b) <= 2 * Abs(a) < 2 * Abs(b) * r' + Abs(b)
    ensures Abs(2 * a - 2 * b * r) <= Abs(b)
    ensures a >= 0 && b > 0 ==> 2 * b * r - b <= 2 * a < 2 * b * r + b
  {
    var d := 2 * Abs(a) - 2 * Abs(b) * r';
    if b < 0 {
      assert b * r == Abs(b) * (-r);
    }
    if a < 0 {
      assert 2 * a - 2 * b * r == -d;
    } else {
      assert 2 * a - 2 * b * r == d;
    }
  }

  /** `rdiv` is odd in each operand. */
  lemma RDivSigns(a: int, b: int)
    requires b != 0
    ensures RDiv(a, b) == if (a < 0) == (b < 0) then RDiv(Abs(a), Abs(b)) else -RDiv(Abs(a), Abs(b))
  {
    if a < 0 {
      RDivNegDividend(-a, b);
    }
    if b < 0 {
      RDivNegDivisor(Abs(a), b);
      RDivNegDivisor(Abs(a), -b);
    }
  }

  lemma RDivNegDividend(a: int, b: int)
    requires b != 0
    ensures RDiv(-a, b) == -RDiv(a, b)
  {
    var base := CDiv(a, b);
    CDivNegDividend(a, b);
    var r := (a - base * b) * 2;
    NegatedRemainder(a, b, base);
    CDivNegDividend(r, b);
    assert RDiv(-a, b) == -base + CDiv(-r, b);
  }

  /** The doubled remainder of `-a` against `-q` is the negated one of `a` against `q`. */
  lemma NegatedRemainder(a: int, b: int, q: int)
    ensures (-a - (-q) * b) * 2 == -((a - q * b) * 2)
  {
  }

  lemma RDivNegDivisor(a: int, b: int)
    requires b != 0
    ensures RDiv(a, -b) == -RDiv(a, b)
  {
    var base := CDiv(a, b);
    CDivNegDivisor(a, b);
    var r := (a - base * b) * 2;
    SwappedSigns(a, b, base);
    CDivNegDivisor(r, b);
    assert RDiv(a, -b) == -base + CDiv(r, -b);
  }

  /** Negating both the divisor and the quotient leaves the doubled remainder unchanged. */
  lemma SwappedSigns(a: int, b: int, q: int)
    ensures (a - (-q) * -b) * 2 == (a - q * b) * 2
  {
  }

  /** Rounded division of non-negative operands, at most half a divisor from the exact quotient. */
  lemma RDivNearestNatural(a: nat, b: nat)
    requires b > 0
    ensures 2 * b * RDiv(a, b) - b <= 2 * a < 2 * b * RDiv(a, b) + b
  {
    RDivRoundsHalfUp(a, b);
    HalfUpNearest(a, b, RDiv(a, b));
  }

  lemma HalfUpNearest(a: nat, b: nat, r: int)
    requires b > 0 && r == a / b + (if 2 * (a % b) >= b then 1 else 0)
    ensures 2 * b * r - b <= 2 * a < 2 * b * r + b
  {
    var q, m := a / b, a % b;
    assert a == b * q + m && 0 <= m < b;
    if 2 * m >= b {
      assert 2 * b * r == 2 * b * q + 2 * b;
    } else {
      assert 2 * b * r == 2 * b * q;
    }
  }

  /** Integral `less`: strict order; the precision argument `size` is ignored. */
  function Less(a: int, b: int, size: nat): (r: bool)
    ensures r <==> a < b
  {
    a < b
  }

  /** Integral `equal`: equality; the precision argument `size` is ignored. */
  function Equal(a: int, b: int, size: nat): (r: bool)
    ensures r <==> a == b
  {
    a == b
  }

  /**
   * `bsVal(cv, v)`: three-way comparison of a container value `cv` with the
   * control value `v`, as the difference `cv - v`.
   */
  function BsVal(cv: int, v: int): (r: int)
    ensures r < 0 <==> cv < v
    ensures r == 0 <==> cv == v
    ensures r > 0 <==> cv > v
  {
    cv - v
  }

  /** `less`/`equal` are synchronised with `bsVal` and with each other, for any precision argument. */
  lemma LessEqualAgreeWithBsVal(a: int, b: int, size1: nat, size2: nat)
    ensures Less(a, b, size1) <==> BsVal(a, b) < 0
    ensures Equal(a, b, size1) <==> BsVal(a, b) == 0
    ensures Less(a, b, size1) == Less(a, b, size2) && Equal(a, b, size1) == Equal(a, b, size2)
    ensures (if Less(a, b, size1) then 1 else 0) + (if Equal(a, b, size1) then 1 else 0)
      + (if Less(b, a, size1) then 1 else 0) == 1
  {
  }

  // ---------------------------------------------------------------------------
  // Ordered ranges

  predicate ValidRange(s: seq<int>, lo: int, hi: int)
  {
    0 <= lo <= hi <= |s|
  }

  /**
   * The range is ordered as `sorted(begin, end, cmp, unique)` checks it:
   * every element is compared with its predecessor; `strict` is `unique`.
   */
  predicate Ascending(s: seq<int>, lo: int, hi: int, strict: bool)
    requires ValidRange(s, lo, hi)
  {
    forall i :: lo < i < hi ==> if strict then s[i - 1] < s[i] else s[i - 1] <= s[i]
  }

  /** Adjacent ordering extends to every pair of positions. */
  lemma {:induction false} AscendingPairwise(s: seq<int>, lo: int, hi: int, strict: bool, i: int, j: int)
    requires ValidRange(s, lo, hi) && Ascending(s, lo, hi, strict)
    requires lo <= i < j < hi
    ensures if strict then s[i] < s[j] else s[i] <= s[j]
    decreases j - i
  {
    if i + 1 < j {
      AscendingPairwise(s, lo, hi, strict, i, j - 1);
    }
  }

  /** A strictly ascending range is also non-decreasing. */
  lemma StrictIsAscending(s: seq<int>, lo: int, hi: int)
    requires ValidRange(s, lo, hi) && Ascending(s, lo, hi, true)
    ensures Ascending(s, lo, hi, false)
  {
  }

  /**
   * `k` is the lower bound of `v` in [lo, hi): every element before it is less
   * than `v` and the element at it (if any) is not less than `v`.
   */
  predicate IsLowerBound(s: seq<int>, lo: int, hi: int, v: int, k: int)
    requires ValidRange(s, lo, hi)
  {
    lo <= k <= hi
    && (forall i :: lo <= i < k ==> s[i] < v)
    && (k < hi ==> s[k] >= v)
  }

  /** The lower bound is unique in any range, so all searches that compute it agree. */
  lemma LowerBoundUnique(s: seq<int>, lo: int, hi: int, v: int, k1: int, k2: int)
    requires ValidRange(s, lo, hi)
    requires IsLowerBound(s, lo, hi, v, k1) && IsLowerBound(s, lo, hi, v, k2)
    ensures k1 == k2
  {
  }

  /** On a non-decreasing range the lower bound holds `v` exactly when `v` occurs in the range. */
  lemma LowerBoundFindsMember(s: seq<int>, lo: int, hi: int, v: int, k: int)
    requires ValidRange(s, lo, hi) && Ascending(s, lo, hi, false)
    requires IsLowerBound(s, lo, hi, v, k)
    ensures (k < hi && s[k] == v) <==> exists i :: lo <= i < hi && s[i] == v
  {
    if i :| lo <= i < hi && s[i] == v {
      if k < i {
        AscendingPairwise(s, lo, hi, false, k, i);
      }
    }
  }

  /**
   * Inserting `v` at its lower bound keeps a range ascending; when the range is
   * strictly ascending, this needs `v` to be absent.
   */
  lemma {:induction false} InsertAtLowerBoundKeepsOrder(s: seq<int>, v: int, k: int, strict: bool)
    requires ValidRange(s, 0, |s|) && Ascending(s, 0, |s|, strict)
    requires IsLowerBound(s, 0, |s|, v, k)
    requires strict ==> v !in s
    ensures var t := s[..k] + [v] + s[k..]; Ascending(t, 0, |t|, strict)
  {
    var t := s[..k] + [v] + s[k..];
    forall i | 0 < i < |t|
      ensures if strict then t[i - 1] < t[i] else t[i - 1] <= t[i]
    {
      if i < k {
        assert t[i - 1] == s[i - 1] && t[i] == s[i];
      } else if i == k {
        assert t[i - 1] == s[k - 1] && t[i] == v;
      } else if i == k + 1 {
        assert t[i - 1] == v && t[i] == s[k];
        if strict {
          assert s[k] in s;
        }
      } else {
        assert t[i - 1] == s[i - 2] && t[i] == s[i - 1];
      }
    }
  }

  // ---------------------------------------------------------------------------
  // Searches

  /**
   * `linear_ifind`: scans forward while the element is less than `val`; the
   * result is the first position whose element is not less than `val`, or `hi`.
   */
  method LinearIFind(s: seq<int>, lo: int, hi: int, val: int) returns (r: int)
    requires ValidRange(s, lo, hi)
    ensures IsLowerBound(s, lo, hi, val, r)
  {
    r := lo;
    while r != hi && BsVal(s[r], val) < 0
      invariant lo <= r <= hi
      invariant forall i :: lo <= i < r ==> s[i] < val
      decreases hi - r
    {
      r := r + 1;
    }
  }

  /**
   * `binary_ifind`: bisects [begin, iend).  The returned position never holds a
   * value below `val`; on a non-decreasing range it is either a position
   * holding `val` or the lower bound, and on a strictly ascending range it is
   * exactly the lower bound.
   */
  method BinaryIFind(s: seq<int>, lo: int, hi: int, val: int) returns (r: int)
    requires ValidRange(s, lo, hi)
    ensures lo <= r <= hi
    ensures r < hi ==> s[r] >= val
    ensures Ascending(s, lo, hi, false) ==>
      (r < hi && s[r] == val) || (forall i :: lo <= i < r ==> s[i] < val)
    ensures Ascending(s, lo, hi, true) ==> IsLowerBound(s, lo, hi, val, r)
  {
    var b, e := lo, hi;
    var pos := b + (e - b) / 2;
    while pos != e
      invariant lo <= b <= pos <= e <= hi
      invariant pos == b + (e - b) / 2
      invariant e < hi ==> s[e] > val
      invariant Ascending(s, lo, hi, false) ==> forall i :: lo <= i < b ==> s[i] < val
      decreases e - b
    {
      var cres := BsVal(s[pos], val);
      if cres < 0 {
        if Ascending(s, lo, hi, false) {
          forall i | lo <= i < pos + 1
            ensures s[i] < val
          {
            if i < pos {
              AscendingPairwise(s, lo, hi, false, i, pos);
            }
          }
        }
        b := pos + 1;
      } else if cres > 0 {
        e := pos;
      } else {
        r := pos;
        if Ascending(s, lo, hi, true) {
          forall i | lo <= i < r
            ensures s[i] < val
          {
            AscendingPairwise(s, lo, hi, true, i, r);
          }
        }
        return;
      }
      pos := b + (e - b) / 2;
    }
    r := e;
  }

  /** `linear_find`: the position of `val`, or `hi` when it is absent from a non-decreasing range. */
  method LinearFind(s: seq<int>, lo: int, hi: int, val: int) returns (r: int)
    requires ValidRange(s, lo, hi)
    ensures lo <= r <= hi
    ensures r < hi ==> s[r] == val && forall i :: lo <= i < r ==> s[i] != val
    ensures Ascending(s, lo, hi, false) ==>
      (r == hi <==> forall i :: lo <= i < hi ==> s[i] != val)
  {
    r := LinearIFind(s, lo, hi, val);
    if Ascending(s, lo, hi, false) {
      LowerBoundFindsMember(s, lo, hi, val, r);
    }
    r := if r != hi && BsVal(s[r], val) == 0 then r else hi;
  }

  /** `binary_find`: the position of `val`, or `hi` when it is absent from a non-decreasing range. */
  method BinaryFind(s: seq<int>, lo: int, hi: int, val: int) returns (r: int)
    requires ValidRange(s, lo, hi)
    ensures lo <= r <= hi
    ensures r < hi ==> s[r] == val
    ensures Ascending(s, lo, hi, false) ==>
      (r == hi <==> forall i :: lo <= i < hi ==> s[i] != val)
  {
    r := BinaryIFind(s, lo, hi, val);
    if Ascending(s, lo, hi, false) && !(r < hi && s[r] == val) {
      LowerBoundFindsMember(s, lo, hi, val, r);
    }
    r := if r != hi && BsVal(s[r], val) == 0 then r else hi;
  }

  /** `fast_ifind`: a linear scan below `BINSEARCH_MARGIN` elements, bisection otherwise. */
  method FastIFind(s: seq<int>, lo: int, hi: int, val: int) returns (r: int)
    requires ValidRange(s, lo, hi)
    ensures lo <= r <= hi
    ensures r < hi ==> s[r] >= val
    ensures hi - lo < BinSearchMargin ==> IsLowerBound(s, lo, hi, val, r)
    ensures Ascending(s, lo, hi, true) ==> IsLowerBound(s, lo, hi, val, r)
  {
    if hi - lo < BinSearchMargin {
      r := LinearIFind(s, lo, hi, val);
    } else {
      r := BinaryIFind(s, lo, hi, val);
    }
  }

  /** `fast_find`: the position of `val`, or `hi` when it is absent from a non-decreasing range. */
  method FastFind(s: seq<int>, lo: int, hi: int, val: int) returns (r: int)
    requires ValidRange(s, lo, hi)
    ensures lo <= r <= hi
    ensures r < hi ==> s[r] == val
    ensures Ascending(s, lo, hi, false) ==>
      (r == hi <==> forall i :: lo <= i < hi ==> s[i] != val)
  {
    if hi - lo < BinSearchMargin {
      r := LinearFind(s, lo, hi, val);
    } else {
      r := BinaryFind(s, lo, hi, val);
    }
  }

  /**
   * On a strictly ascending range the two strategies `fast_ifind` chooses
   * between return the same position, so the margin affects speed only.
   */
  method SearchesAgree(s: seq<int>, lo: int, hi: int, val: int) returns (linear: int, binary: int)
    requires ValidRange(s, lo, hi)
    ensures Ascending(s, lo, hi, true) ==> linear == binary
    ensures IsLowerBound(s, lo, hi, val, linear)
  {
    linear := LinearIFind(s, lo, hi, val);
    binary := BinaryIFind(s, lo, hi, val);
    if Ascending(s, lo, hi, true) {
      LowerBoundUnique(s, lo, hi, val, linear, binary);
    }
  }

  /**
   * `sorted(begin, end, cmp, unique)`: compares each element with its
   * predecessor and fails on a decrease, or on a repeat when `unique`.
   */
  method Sorted(s: seq<int>, lo: int, hi: int, unique: bool) returns (r: bool)
    requires ValidRange(s, lo, hi)
    ensures r <==> Ascending(s, lo, hi, unique)
  {
    if lo == hi {
      return true;
    }
    var i := lo + 1;
    while i != hi
      invariant lo < i <= hi
      invariant Ascending(s, lo, i, unique)
      decreases hi - i
    {
      var res := BsVal(s[i], s[i - 1]);
      if res < 0 || (res == 0 && unique) {
        assert !(if unique then s[i - 1] < s[i] else s[i - 1] <= s[i]);
        return false;
      }
      i := i + 1;
    }
    return true;
  }

  /**
   * `insorted(els, el)`: the position where `el` is to be inserted to keep the
   * elements ordered.  The first element is checked before the fast search of
   * the remaining ones.
   */
  method Insorted(els: seq<int>, el: int) returns (r: int)
    ensures 0 <= r <= |els|
    ensures Ascending(els, 0, |els|, true) ==> IsLowerBound(els, 0, |els|, el, r)
    ensures Ascending(els, 0, |els|, true) && el !in els ==> Ascending(els[..r] + [el] + els[r..], 0, |els| + 1, true)
  {
    r := 0;
    if |els| != 0 && BsVal(els[0], el) < 0 {
      r := FastIFind(els, 1, |els|, el);
    }
    if Ascending(els, 0, |els|, true) && el !in els {
      InsertAtLowerBoundKeepsOrder(els, el, r, true);
    }
  }

  /** `insortedLight(els, el)`: as `insorted`, with a linear scan of the remaining elements. */
  method InsortedLight(els: seq<int>, el: int) returns (r: int)
    ensures IsLowerBound(els, 0, |els|, el, r)
    ensures Ascending(els, 0, |els|, true) && el !in els ==> Ascending(els[..r] + [el] + els[r..], 0, |els| + 1, true)
  {
    r := 0;
    if |els| != 0 && BsVal(els[0], el) < 0 {
      r := LinearIFind(els, 1, |els|, el);
    }
    if Ascending(els, 0, |els|, true) && el !in els {
      InsertAtLowerBoundKeepsOrder(els, el, r, true);
    }
  }
}
