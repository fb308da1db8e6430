/** BLEU aggregation: product of the precisions of orders 1..n and the brevity penalty. */
module Bleu {

  import opened NGrams
  import opened Precision

  /** The highest n-gram order `calc_bleu` uses when the caller gives none. */
  const DefaultOrder: int := 4

  /** How many orders `range(1, n + 1)` runs through: none when n < 1. */
  function Orders(n: int): nat
  {
    if n > 0 then n else 0
  }

  /**
   * The orders `calc_bleu` can score without dividing by zero: `1 / n` needs
   * n != 0, the penalty needs a non-empty hypothesis, and every order 1..n
   * needs at least one hypothesis n-gram.
   */
  predicate Admissible(hypLen: nat, n: int)
  {
    n != 0 && hypLen > 0 && (n > 0 ==> n <= hypLen)
  }

  datatype Option<T> = None | Some(value: T)

  /** p_1 * p_2 * ... * p_k as one exact fraction, the accumulator before the n-th root. */
  function PrecisionProduct(hyp: seq<Token>, ref: seq<Token>, k: nat): Ratio
    requires k <= |hyp|
  {
    if k == 0 then Ratio(1, 1) else PrecisionProduct(hyp, ref, k - 1).Times(NGramPrecision(hyp, ref, k))
  }

  /** Multiplication of naturals is monotone in both factors. */
  lemma MulMonotone(a: nat, b: nat, c: nat, d: nat)
    requires a <= b && c <= d
    ensures a * c <= b * d
  {
    assert a * c <= b * c;
  }

  /** A product of naturals is zero exactly when a factor is. */
  lemma MulZero(a: nat, b: nat)
    ensures a * b == 0 <==> a == 0 || b == 0
  {
    if a > 0 && b > 0 {
      MulMonotone(1, a, 1, b);
    }
  }

  /** A fraction in [0, 1] times a fraction in [0, 1] stays in [0, 1]. */
  lemma TimesInUnit(x: Ratio, y: Ratio)
    requires x.InUnit() && y.InUnit()
    ensures x.Times(y).InUnit()
  {
    MulMonotone(x.num, x.den, y.num, y.den);
    MulMonotone(1, x.den, 1, y.den);
  }

  /** Each factor is in [0, 1], so the product is too. */
  lemma {:induction false} ProductInUnit(hyp: seq<Token>, ref: seq<Token>, k: nat)
    requires k <= |hyp|
    ensures PrecisionProduct(hyp, ref, k).InUnit()
  {
    if k > 0 {
      ProductInUnit(hyp, ref, k - 1);
      TimesInUnit(PrecisionProduct(hyp, ref, k - 1), NGramPrecision(hyp, ref, k));
    }
  }

  /** Some order among 1..k has no clipped match at all. */
  predicate SomeOrderUnmatched(hyp: seq<Token>, ref: seq<Token>, k: nat)
  {
    exists i :: 1 <= i <= k && Matches(hyp, ref, i) == 0
  }

  /** Peeling off the highest order of SomeOrderUnmatched. */
  lemma SomeOrderUnmatchedStep(hyp: seq<Token>, ref: seq<Token>, k: nat)
    requires k > 0
    ensures SomeOrderUnmatched(hyp, ref, k) <==> SomeOrderUnmatched(hyp, ref, k - 1) || Matches(hyp, ref, k) == 0
  {
    if SomeOrderUnmatched(hyp, ref, k) {
      var i :| 1 <= i <= k && Matches(hyp, ref, i) == 0;
      if i < k {
        assert SomeOrderUnmatched(hyp, ref, k - 1);
      }
    }
  }

  /** No smoothing: the product is zero exactly when some order 1..k has no clipped match. */
  lemma {:induction false} ProductZeroIff(hyp: seq<Token>, ref: seq<Token>, k: nat)
    requires k <= |hyp|
    ensures PrecisionProduct(hyp, ref, k).num == 0 <==> SomeOrderUnmatched(hyp, ref, k)
  {
    if k > 0 {
      var a, b := PrecisionProduct(hyp, ref, k - 1).num, NGramPrecision(hyp, ref, k).num;
      assert PrecisionProduct(hyp, ref, k).num == a * b;
      MulZero(a, b);
      assert b == 0 <==> Matches(hyp, ref, k) == 0;
      ProductZeroIff(hyp, ref, k - 1);
      SomeOrderUnmatchedStep(hyp, ref, k);
    }
  }

  /** Identical token lists give a product of exactly 1 at every admissible order. */
  lemma {:induction false} ProductOfIdentical(t: seq<Token>, k: nat)
    requires k <= |t|
    ensures PrecisionProduct(t, t, k).InUnit()
    ensures PrecisionProduct(t, t, k).num == PrecisionProduct(t, t, k).den
  {
    ProductInUnit(t, t, k);
    if k > 0 {
      ProductOfIdentical(t, k - 1);
      PrecisionOfIdentical(t, k);
    }
  }

  /**
   * The brevity penalty `min(1, e^(1 - |ref| / |hyp|))`, kept exact:
   * NoPenalty is the factor 1, Exp(x) is the factor e^x for an exponent x < 0.
   */
  datatype Penalty = NoPenalty | Exp(exponent: real)

  /** The exponent `1 - |ref| / |hyp|` as an exact rational. */
  function BrevityExponent(hypLen: nat, refLen: nat): real
    requires hypLen > 0
  {
    1.0 - refLen as real / hypLen as real
  }

  /** `min(1, e^x)` is 1 when x >= 0 and e^x < 1 otherwise. */
  function BrevityPenalty(hypLen: nat, refLen: nat): (bp: Penalty)
    requires hypLen > 0
    ensures bp == NoPenalty <==> hypLen >= refLen
    ensures bp.Exp? ==> bp.exponent < 0.0 && bp.exponent == BrevityExponent(hypLen, refLen)
  {
    var x := BrevityExponent(hypLen, refLen);
    var q := refLen as real / hypLen as real;
    assert q * hypLen as real == refLen as real;
    if x >= 0.0 then NoPenalty else Exp(x)
  }

  /**
   * A BLEU score `round(bp * product^(1/order), 3)`, held in its exact parts:
   * the product of the precisions, the order whose root is taken and the penalty.
   */
  datatype Score = Score(product: Ratio, order: int, penalty: Penalty)

  /**
   * The value of a score in the two cases the floating-point stage cannot
   * change: a zero product gives 0 whatever the root and penalty, and a
   * product of 1 without penalty gives 1.
   */
  function KnownValue(s: Score): (v: Option<real>)
  {
    if s.product.num == 0 then Some(0.0)
    else if s.product.num == s.product.den && s.penalty == NoPenalty then Some(1.0)
    else None
  }

  /** The score `calc_bleu` computes, up to its floating-point stage. */
  function BleuScore(hyp: seq<Token>, ref: seq<Token>, n: int): Score
    requires Admissible(|hyp|, n)
  {
    Score(PrecisionProduct(hyp, ref, Orders(n)), n, BrevityPenalty(|hyp|, |ref|))
  }

  /** Some order without a clipped match drives the whole score to 0. */
  lemma ZeroOverlapScoresZero(hyp: seq<Token>, ref: seq<Token>, n: int, i: nat)
    requires Admissible(|hyp|, n)
    requires 1 <= i <= n && Matches(hyp, ref, i) == 0
    ensures KnownValue(BleuScore(hyp, ref, n)) == Some(0.0)
  {
    ProductZeroIff(hyp, ref, n);
  }

  /** A reference shorter than the order has no n-grams of that order, so the score is 0. */
  lemma ShortReferenceScoresZero(hyp: seq<Token>, ref: seq<Token>, n: nat)
    requires 1 <= n <= |hyp| && |ref| < n
    ensures KnownValue(BleuScore(hyp, ref, n)) == Some(0.0)
  {
    WindowsLength(ref, n);
    assert multiset(Windows(ref, n)) == multiset{};
    assert Matches(hyp, ref, n) == 0;
    ZeroOverlapScoresZero(hyp, ref, n, n);
  }

  /** A hypothesis identical to its reference scores exactly 1. */
  lemma IdenticalScoresOne(t: seq<Token>, n: int)
    requires Admissible(|t|, n)
    ensures KnownValue(BleuScore(t, t, n)) == Some(1.0)
  {
    ProductOfIdentical(t, Orders(n));
  }

  /** A negative order multiplies no precisions: the score is the brevity penalty alone. */
  lemma NegativeOrderIsPenaltyOnly(hyp: seq<Token>, ref: seq<Token>, n: int)
    requires Admissible(|hyp|, n) && n < 0
    ensures BleuScore(hyp, ref, n).product == Ratio(1, 1)
    ensures KnownValue(BleuScore(hyp, ref, n)) == (if |hyp| >= |ref| then Some(1.0) else None)
  {
  }

  /** What the score promises: a product in [0, 1], zero exactly when an order is unmatched, no penalty exactly when the hypothesis is not shorter, and 1 for a hypothesis equal to its reference. */
  lemma BleuScoreFacts(hyp: seq<Token>, ref: seq<Token>, n: int)
    requires Admissible(|hyp|, n)
    ensures BleuScore(hyp, ref, n).product.InUnit()
    ensures BleuScore(hyp, ref, n).product.num == 0 <==> SomeOrderUnmatched(hyp, ref, Orders(n))
    ensures BleuScore(hyp, ref, n).penalty == NoPenalty <==> |hyp| >= |ref|
    ensures hyp == ref ==> BleuScore(hyp, ref, n).product.num == BleuScore(hyp, ref, n).product.den
    ensures n < 0 ==> BleuScore(hyp, ref, n).product == Ratio(1, 1)
  {
    ProductInUnit(hyp, ref, Orders(n));
    ProductZeroIff(hyp, ref, Orders(n));
    if hyp == ref {
      ProductOfIdentical(hyp, Orders(n));
    }
  }

  /** The accumulator loop of `calc_bleu`: start from 1 and multiply in the precision of each order 1..k. */
  method MultiplyPrecisions(hyp: seq<Token>, ref: seq<Token>, k: nat) returns (p: Ratio)
    requires k <= |hyp|
    ensures p == PrecisionProduct(hyp, ref, k)
    ensures p.InUnit()
  {
    p := Ratio(1, 1);
    for i := 1 to k + 1
      invariant p == PrecisionProduct(hyp, ref, i - 1)
    {
      var pi := NGramPrec(hyp, ref, i);
      assert PrecisionProduct(hyp, ref, i) == PrecisionProduct(hyp, ref, i - 1).Times(pi);
      p := p.Times(pi);
    }
    ProductInUnit(hyp, ref, k);
  }

  /**
   * `calc_bleu`: multiply the precisions of orders 1..n, then apply the
   * brevity penalty. For n < 0 the range of orders is empty and the product
   * stays 1.
   */
  method CalcBleu(hyp: seq<Token>, ref: seq<Token>, n: int := DefaultOrder) returns (s: Score)
    requires Admissible(|hyp|, n)
    ensures s == BleuScore(hyp, ref, n)
    ensures s.order == n
    ensures s.product.InUnit()
    ensures s.product.num == 0 <==> SomeOrderUnmatched(hyp, ref, Orders(n))
    ensures n < 0 ==> s.product == Ratio(1, 1)
    ensures s.penalty == NoPenalty <==> |hyp| >= |ref|
    ensures hyp == ref ==> s.product.num == s.product.den && s.penalty == NoPenalty
  {
    var p := MultiplyPrecisions(hyp, ref, Orders(n));
    s := Score(p, n, BrevityPenalty(|hyp|, |ref|));
    BleuScoreFacts(hyp, ref, n);
  }

  /** The unigrams of "the cat sat". */
  lemma UnigramsOfTheCatSat()
    ensures Windows(["the", "cat", "sat"], 1) == [["the"], ["cat"], ["sat"]]
  {
    var t: seq<Token> := ["the", "cat", "sat"];
    WindowsShape(t, 1);
    assert t[0..1] == ["the"] && t[1..2] == ["cat"] && t[2..3] == ["sat"];
  }

  /** The unigrams of "the cat sat down". */
  lemma UnigramsOfTheCatSatDown()
    ensures Windows(["the", "cat", "sat", "down"], 1) == [["the"], ["cat"], ["sat"], ["down"]]
  {
    var t: seq<Token> := ["the", "cat", "sat", "down"];
    WindowsShape(t, 1);
    assert t[0..1] == ["the"] && t[1..2] == ["cat"] && t[2..3] == ["sat"] && t[3..4] == ["down"];
  }

  /** Every unigram of "the cat sat" occurs in "the cat sat down". */
  lemma TheCatSatMatches()
    ensures Matches(["the", "cat", "sat"], ["the", "cat", "sat", "down"], 1) == 3
  {
    var hyp: seq<Token> := ["the", "cat", "sat"];
    var ref: seq<Token> := ["the", "cat", "sat", "down"];
    var hg, rg := Windows(hyp, 1), Windows(ref, 1);
    UnigramsOfTheCatSat();
    UnigramsOfTheCatSatDown();
    assert rg == hg + [["down"]];
    assert multiset(rg) == multiset(hg) + multiset{["down"]};
    ClippedCountContained(hg, rg);
  }

  /** Hypothesis "the cat sat" against "the cat sat down", order 1: every unigram matches, the short hypothesis is penalised by e^(1 - 4/3). */
  lemma ShortHypothesisExample()
    ensures BleuScore(["the", "cat", "sat"], ["the", "cat", "sat", "down"], 1)
         == Score(Ratio(3, 3), 1, Exp(-1.0 / 3.0))
  {
    TheCatSatMatches();
    assert BrevityPenalty(3, 4) == Exp(-1.0 / 3.0);
  }

  /** No unigram of "x y" occurs in "a b". */
  lemma XYAgainstABMatches()
    ensures Matches(["x", "y"], ["a", "b"], 1) == 0
  {
    var hyp: seq<Token> := ["x", "y"];
    var ref: seq<Token> := ["a", "b"];
    WindowsShape(hyp, 1);
    WindowsShape(ref, 1);
    assert hyp[0..1] == ["x"] && hyp[1..2] == ["y"] && ref[0..1] == ["a"] && ref[1..2] == ["b"];
    var hg, rg := Windows(hyp, 1), Windows(ref, 1);
    assert multiset(hg) == multiset{["x"], ["y"]} && multiset(rg) == multiset{["a"], ["b"]};
  }

  /** Hypothesis "x y" against "a b", order 1: no unigram matches, so the score is 0. */
  lemma ZeroOverlapExample()
    ensures KnownValue(BleuScore(["x", "y"], ["a", "b"], 1)) == Some(0.0)
  {
    XYAgainstABMatches();
    ZeroOverlapScoresZero(["x", "y"], ["a", "b"], 1, 1);
  }

  /** A caller that omits the order gets `calc_bleu`'s default of 4. */
  method CalcBleuWithDefaultOrder(hyp: seq<Token>, ref: seq<Token>) returns (s: Score)
    requires 4 <= |hyp|
    ensures s.order == 4 && s == BleuScore(hyp, ref, 4)
  {
    s := CalcBleu(hyp, ref);
  }
}
