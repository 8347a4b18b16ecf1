/**
 * The small accessory routines of the C++ interface (src/interface.cpp):
 * names of the F1 and match kinds, the match-kind predicates, and the
 * harmonic and arithmetic means.  `AccProb` is a floating-point type; the
 * means are stated over `real`, i.e. without rounding.
 */
module Interface {

  // ---------------------------------------------------------------------------
  // Enumerations; an enumerator is its integral value, so that the values
  // outside the named ones, reachable through a cast from the C interface,
  // stay representable.

  /** `F1`: the kind of F1 measure. */
  type F1 = int

  const F1None: F1 := 0
  const F1PartProb: F1 := 1
  const F1Harmonic: F1 := 2
  const F1Standard: F1 := 3

  /** `Match`: the kind of matching of the clusters of two collections. */
  type Match = int

  const MatchNone: Match := 0
  const MatchWeighted: Match := 1
  const MatchUnweighted: Match := 2
  const MatchCombined: Match := 3

  /** `to_string(F1)`: the name of a named kind, "NONE" for every other value. */
  function F1Name(f1: F1): (s: string)
    ensures s == "NONE" <==> f1 != F1PartProb && f1 != F1Harmonic && f1 != F1Standard
  {
    if f1 == F1PartProb then "PARTPROB"
    else if f1 == F1Harmonic then "HARMONIC"
    else if f1 == F1Standard then "STANDARD"
    else "NONE"
  }

  /** `to_string(Match)`: the name of a named kind, "NONE" for every other value. */
  function MatchName(m: Match): (s: string)
    ensures s == "NONE" <==> m != MatchWeighted && m != MatchUnweighted && m != MatchCombined
  {
    if m == MatchWeighted then "WEIGHTED"
    else if m == MatchUnweighted then "UNWEIGHTED"
    else if m == MatchCombined then "COMBINED"
    else "NONE"
  }

  /** Different named F1 kinds have different names. */
  lemma F1NamesDistinct(a: F1, b: F1)
    requires F1Name(a) != "NONE" && F1Name(a) == F1Name(b)
    ensures a == b
  {
  }

  /** Different named match kinds have different names. */
  lemma MatchNamesDistinct(a: Match, b: Match)
    requires MatchName(a) != "NONE" && MatchName(a) == MatchName(b)
    ensures a == b
  {
  }

  /** `xwmatch`: the weighted matching is evaluated. */
  predicate XwMatch(m: Match)
  {
    m == MatchWeighted || m == MatchCombined
  }

  /** `xumatch`: the unweighted matching is evaluated. */
  predicate XuMatch(m: Match)
  {
    m == MatchUnweighted || m == MatchCombined
  }

  /**
   * The two predicates split the named kinds: the combined kind is the only
   * one that evaluates both matchings, a kind that evaluates neither is
   * named "NONE", and every other named kind evaluates exactly one.
   */
  lemma MatchKindsSplit(m: Match)
    ensures XwMatch(m) && XuMatch(m) <==> m == MatchCombined
    ensures !XwMatch(m) && !XuMatch(m) <==> MatchName(m) == "NONE"
    ensures XwMatch(m) != XuMatch(m) <==> m == MatchWeighted || m == MatchUnweighted
  {
  }

  // ---------------------------------------------------------------------------
  // Means

  /** `hmean`: the harmonic mean `2 * a / (a + b) * b`, 0 when `a + b` is 0. */
  function HMean(a: real, b: real): (r: real)
    ensures a + b == 0.0 ==> r == 0.0
    ensures a + b != 0.0 ==> r * (a + b) == 2.0 * a * b
  {
    if a + b != 0.0 then 2.0 * a / (a + b) * b else 0.0
  }

  /** `amean`: the arithmetic mean. */
  function AMean(a: real, b: real): (r: real)
    ensures 2.0 * r == a + b
  {
    (a + b) / 2.0
  }

  /** The harmonic mean does not depend on the order of its arguments. */
  lemma HMeanSymmetric(a: real, b: real)
    ensures HMean(a, b) == HMean(b, a)
  {
    if a + b != 0.0 {
      assert HMean(a, b) * (a + b) == HMean(b, a) * (a + b);
    }
  }

  /**
   * On non-negative values the harmonic mean lies between the smaller value
   * and the arithmetic mean; in particular it is 0 when either value is 0
   * and stays within [0, 1] for values in [0, 1].
   */
  lemma HMeanBounds(a: real, b: real)
    requires a >= 0.0 && b >= 0.0
    ensures (if a <= b then a else b) <= HMean(a, b) <= AMean(a, b)
    ensures a == 0.0 || b == 0.0 ==> HMean(a, b) == 0.0
  {
    var h := HMean(a, b);
    if a + b != 0.0 {
      var m, n := if a <= b then a else b, if a <= b then b else a;
      assert m + n == a + b && m * n == a * b;
      Harmonic(m, n, h);
    }
  }

  /** For `0 <= m <= n`, `0 < m + n` and `h (m + n) == 2 m n`: `m <= h <= (m + n) / 2`. */
  lemma Harmonic(m: real, n: real, h: real)
    requires 0.0 <= m <= n && 0.0 < m + n && h * (m + n) == 2.0 * (m * n)
    ensures m <= h <= (m + n) / 2.0
  {
    var s := m + n;
    SquareOfSum(m, n);
    assert (2.0 * h) * s == 2.0 * (h * s);
    CancelFactor(2.0 * h, s, s);
    MinTimesSum(m, n);
    CancelFactor(m, h, s);
  }

  /** `4ab <= (a + b)^2`, as `0 <= (a - b)^2`. */
  lemma SquareOfSum(a: real, b: real)
    ensures 4.0 * (a * b) <= (a + b) * (a + b)
  {
    var d := a - b;
    assert d * d >= 0.0 by {
      if d < 0.0 {
        assert d * d == (-d) * (-d);
      }
    }
    assert (a + b) * (a + b) == 4.0 * (a * b) + d * d;
  }

  /** For `0 <= m <= n`: `m (m + n) <= 2 m n`. */
  lemma MinTimesSum(m: real, n: real)
    requires 0.0 <= m <= n
    ensures m * (m + n) <= 2.0 * (m * n)
  {
    assert m * (n - m) >= 0.0;
  }

  /** A positive common factor cancels from an inequality. */
  lemma CancelFactor(x: real, y: real, s: real)
    requires s > 0.0 && x * s <= y * s
    ensures x <= y
  {
  }

  /** The arithmetic mean does not depend on the order of its arguments. */
  lemma AMeanSymmetric(a: real, b: real)
    ensures AMean(a, b) == AMean(b, a)
  {
  }
}
