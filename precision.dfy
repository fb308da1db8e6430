/** Clipped n-gram precision: hypothesis n-grams matched against a shrinking copy of the reference's. */
module Precision {

  import opened NGrams

  /** Position of the first occurrence of g in s. */
  function IndexOf(s: seq<NGram>, g: NGram): (k: nat)
    requires g in s
    ensures k < |s| && s[k] == g && g !in s[..k]
  {
    if s[0] == g then 0
    else
      var k := 1 + IndexOf(s[1..], g);
      assert s[..k] == [s[0]] + s[1..][..k - 1];
      k
  }

  /** `list.remove`: delete the first element equal to g, keep the rest in order. */
  function RemoveFirst(s: seq<NGram>, g: NGram): (r: seq<NGram>)
    requires g in s
    ensures |r| == |s| - 1
    ensures multiset(r) == multiset(s) - multiset{g}
  {
    var k := IndexOf(s, g);
    assert s == s[..k] + [s[k]] + s[k + 1..];
    s[..k] + s[k + 1..]
  }

  /** Removing one occurrence leaves every other n-gram's count as it was. */
  lemma RemoveFirstKeepsOthers(s: seq<NGram>, g: NGram, h: NGram)
    requires g in s
    ensures multiset(RemoveFirst(s, g))[h] == if h == g then multiset(s)[h] - 1 else multiset(s)[h]
  {
  }

  /** Removal deletes exactly the first occurrence: what precedes it and what follows it stay in order. */
  lemma RemoveFirstOrder(s: seq<NGram>, g: NGram)
    requires g in s
    ensures exists k :: 0 <= k < |s| && s[k] == g && g !in s[..k] && RemoveFirst(s, g) == s[..k] + s[k + 1..]
  {
    var k := IndexOf(s, g);
    assert s[k] == g && g !in s[..k] && RemoveFirst(s, g) == s[..k] + s[k + 1..];
  }

  /**
   * The clipped match count: every distinct n-gram g contributes
   * min(count of g in hyp, count of g in ref), which is what the
   * multiset intersection `*` counts.
   */
  function ClippedCount(hyp: seq<NGram>, ref: seq<NGram>): nat
  {
    |multiset(hyp) * multiset(ref)|
  }

  /** A multiset splits into what B removes and what it shares with B. */
  lemma SplitByIntersection(a: multiset<NGram>, b: multiset<NGram>)
    ensures |a| == |a - b| + |a * b|
    ensures |a * b| <= |a| && |a * b| <= |b|
  {
    assert a == (a - b) + (a * b);
    assert b == (b - a) + (b * a);
    assert a * b == b * a;
  }

  /** An n-gram sequence matched against itself matches all its elements. */
  lemma ClippedCountSelf(s: seq<NGram>)
    ensures ClippedCount(s, s) == |s|
  {
    assert multiset(s) * multiset(s) == multiset(s);
  }

  /** When the reference supports every hypothesis n-gram with multiplicity, all of them match. */
  lemma ClippedCountContained(hyp: seq<NGram>, ref: seq<NGram>)
    requires multiset(hyp) <= multiset(ref)
    ensures ClippedCount(hyp, ref) == |hyp|
  {
    assert multiset(hyp) * multiset(ref) == multiset(hyp);
  }

  /** Clipping is symmetric and bounded by both sides. */
  lemma ClippedCountBounds(hyp: seq<NGram>, ref: seq<NGram>)
    ensures ClippedCount(hyp, ref) == ClippedCount(ref, hyp)
    ensures ClippedCount(hyp, ref) <= |hyp| && ClippedCount(hyp, ref) <= |ref|
  {
    SplitByIntersection(multiset(hyp), multiset(ref));
    assert multiset(hyp) * multiset(ref) == multiset(ref) * multiset(hyp);
  }

  /** Hypothesis `[a, a, a]` against reference `[a, a]` at order 1 gives 2 matches, not 3. */
  lemma ClippingExample()
    ensures ClippedCount(Windows(["a", "a", "a"], 1), Windows(["a", "a"], 1)) == 2
    ensures NGramPrecision(["a", "a", "a"], ["a", "a"], 1) == Ratio(2, 3)
  {
    var a: NGram := ["a"];
    var aa: seq<Token> := ["a", "a"];
    var aaa: seq<Token> := ["a", "a", "a"];
    assert aa[..1] == a && aa[1..] == a;
    assert Windows(aa, 1) == [a, a];
    assert aaa[..1] == a && aaa[1..] == aa;
    assert Windows(aaa, 1) == [a, a, a];
    assert multiset([a, a, a]) * multiset([a, a]) == multiset([a, a]);
    WindowsLength(aaa, 1);
  }

  /**
   * The matching loop of `n_gram_prec`: each hypothesis n-gram still present
   * in the working copy of the reference n-grams is counted and one equal
   * occurrence is removed from the copy.
   */
  method CountMatches(hypGrams: seq<NGram>, refGrams: seq<NGram>) returns (correct: nat)
    ensures correct == ClippedCount(hypGrams, refGrams)
    ensures correct <= |hypGrams| && correct <= |refGrams|
  {
    var remaining := refGrams;
    correct := 0;
    for i := 0 to |hypGrams|
      invariant multiset(remaining) == multiset(refGrams) - multiset(hypGrams[..i])
      invariant correct + |remaining| == |refGrams|
      invariant correct <= i
    {
      var g := hypGrams[i];
      assert hypGrams[..i + 1] == hypGrams[..i] + [g];
      if g in remaining {
        correct := correct + 1;
        remaining := RemoveFirst(remaining, g);
      } else {
        assert multiset(remaining)[g] == 0;
      }
    }
    assert hypGrams[..|hypGrams|] == hypGrams;
    SplitByIntersection(multiset(refGrams), multiset(hypGrams));
    ClippedCountBounds(hypGrams, refGrams);
  }

  /** Clipped matches of order n between two token lists. */
  function Matches(hyp: seq<Token>, ref: seq<Token>, n: nat): nat
  {
    ClippedCount(Windows(hyp, n), Windows(ref, n))
  }

  /** An exact fraction num / den; the floats of the source approximate it. */
  datatype Ratio = Ratio(num: nat, den: nat)
  {
    /** A well-formed ratio in [0, 1]. */
    predicate InUnit()
    {
      0 < den && num <= den
    }

    /** The product of two fractions, numerators and denominators multiplied. */
    function Times(other: Ratio): Ratio
    {
      Ratio(num * other.num, den * other.den)
    }
  }

  /**
   * The exact fraction `n_gram_prec` approximates: clipped matches over the
   * number of hypothesis n-grams. Defined only when the hypothesis has at
   * least one n-gram, i.e. n <= |hyp|.
   */
  function NGramPrecision(hyp: seq<Token>, ref: seq<Token>, n: nat): (p: Ratio)
    requires n <= |hyp|
    ensures p.InUnit()
    ensures p.den == |hyp| - n + 1
    ensures p.num == 0 <==> Matches(hyp, ref, n) == 0
  {
    WindowsLength(hyp, n);
    ClippedCountBounds(Windows(hyp, n), Windows(ref, n));
    Ratio(Matches(hyp, ref, n), |Windows(hyp, n)|)
  }

  /** Identical token lists have precision 1 at every order they admit. */
  lemma PrecisionOfIdentical(t: seq<Token>, n: nat)
    requires n <= |t|
    ensures Matches(t, t, n) == |Windows(t, n)| == |t| - n + 1
    ensures NGramPrecision(t, t, n).num == NGramPrecision(t, t, n).den
  {
    WindowsLength(t, n);
    ClippedCountSelf(Windows(t, n));
  }

  /** `n_gram_prec`: extract both n-gram lists, count clipped matches, divide. */
  method NGramPrec(hyp: seq<Token>, ref: seq<Token>, n: nat) returns (p: Ratio)
    requires n <= |hyp|
    ensures p == NGramPrecision(hyp, ref, n)
    ensures p.InUnit() && p.den == |hyp| - n + 1
  {
    var hypGrams := ExtractNGrams(hyp, n);
    var refGrams := ExtractNGrams(ref, n);
    var correct := CountMatches(hypGrams, refGrams);
    p := Ratio(correct, |hypGrams|);
  }
}
