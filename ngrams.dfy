/** N-gram extraction: the contiguous windows of width n over a token list. */
module NGrams {

  type Token = string

  /** An n-gram is a contiguous slice of a token list. */
  type NGram = seq<Token>

  /** How many values `range(0, len + 1 - n)` runs through. */
  function WindowCount(len: nat, n: nat): nat
  {
    if n <= len then len - n + 1 else 0
  }

  /** Reference definition: the first window, then the windows of the rest. */
  function Windows(t: seq<Token>, n: nat): seq<NGram>
    decreases |t|
  {
    if n > |t| then []
    else if n == |t| then [t]
    else [t[..n]] + Windows(t[1..], n)
  }

  /** There are WindowCount(|t|, n) windows. */
  lemma {:induction false} WindowsLength(t: seq<Token>, n: nat)
    ensures |Windows(t, n)| == WindowCount(|t|, n)
    decreases |t|
  {
    if n < |t| {
      WindowsLength(t[1..], n);
    }
  }

  /** The i-th window is `t[i..i+n]`. */
  lemma {:induction false} WindowAt(t: seq<Token>, n: nat, i: nat)
    requires i < WindowCount(|t|, n)
    ensures i < |Windows(t, n)| && Windows(t, n)[i] == t[i..i + n]
    decreases |t|
  {
    WindowsLength(t, n);
    if n < |t| && i > 0 {
      WindowAt(t[1..], n, i - 1);
      assert t[1..][i - 1..i - 1 + n] == t[i..i + n];
    }
  }

  /** The windows are `t[i..i+n]` for i = 0 .. |t| - n, in source order. */
  lemma WindowsShape(t: seq<Token>, n: nat)
    ensures |Windows(t, n)| == WindowCount(|t|, n)
    ensures forall i :: 0 <= i < |Windows(t, n)| ==> Windows(t, n)[i] == t[i..i + n]
  {
    WindowsLength(t, n);
    forall i | 0 <= i < |Windows(t, n)| ensures Windows(t, n)[i] == t[i..i + n] {
      WindowAt(t, n, i);
    }
  }

  /** Every window has exactly n tokens. */
  lemma WindowsHaveWidth(t: seq<Token>, n: nat)
    ensures forall g :: g in Windows(t, n) ==> |g| == n
  {
    WindowsShape(t, n);
  }

  /** The first tokens of the windows, in order, are the first |t| - n + 1 tokens of t. */
  lemma FirstTokens(t: seq<Token>, n: nat)
    requires 1 <= n <= |t|
    ensures |Windows(t, n)| == |t| - n + 1
    ensures forall i :: 0 <= i < |t| - n + 1 ==> |Windows(t, n)[i]| >= 1 && Windows(t, n)[i][0] == t[i]
  {
    WindowsShape(t, n);
  }

  /** `n_grams`: slide a window of width n over t, appending each slice. */
  method ExtractNGrams(t: seq<Token>, n: nat) returns (grams: seq<NGram>)
    ensures |grams| == WindowCount(|t|, n)
    ensures forall i :: 0 <= i < |grams| ==> grams[i] == t[i..i + n]
    ensures n > |t| ==> grams == []
    ensures grams == Windows(t, n)
  {
    grams := [];
    var count := WindowCount(|t|, n);
    for i := 0 to count
      invariant |grams| == i
      invariant forall k :: 0 <= k < i ==> grams[k] == t[k..k + n]
    {
      grams := grams + [t[i..i + n]];
    }
    WindowsShape(t, n);
  }
}
