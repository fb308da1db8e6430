# BLEU scoring core, modelled in Dafny

This project models the sentence-level BLEU scorer in `daikon/calc_bleu.py`. The scorer compares a hypothesis translation with one reference translation. It has three stages, one Dafny module each:

- `NGrams` (`ngrams.dfy`) models `n_grams`. A window of width `n` slides over a token list, and each slice `T[i:i+n]` is appended to a result list. `ExtractNGrams` is that loop. `Windows` is a recursive reference definition of the same list.
- `Precision` (`precision.dfy`) models `n_gram_prec`. It walks the hypothesis n-grams against a working copy of the reference n-grams. A hypothesis n-gram still present in the copy counts as a match, and its first equal occurrence is removed (Python's `list.remove`, modelled by `RemoveFirst`). `CountMatches` is that loop. It is proved to compute the size of the multiset intersection of the two n-gram lists. Multiset intersection keeps `min(count in hyp, count in ref)` copies of each distinct n-gram, so this size is the clipped match count. The precision is the exact fraction `Ratio(matches, #hyp n-grams)`; the source computes its float approximation.
- `Bleu` (`bleu.dfy`) models `calc_bleu`. It multiplies the precisions of orders 1..n, starting from the integer 1, and then applies the brevity penalty `min(1, e^(1 - |ref|/|hyp|))`. The floating-point stage stays symbolic: the n-th root, `exp` and `round(…, 3)`. A `Score` keeps the exact product, the order and a `Penalty`. The penalty is `NoPenalty` (factor 1) or `Exp(x)` (factor `e^x` with `x < 0`). `KnownValue` gives the score's value in the two cases the float stage cannot change: a zero product scores 0, and a product of 1 with no penalty scores 1.

Tokens are `string`s and n-grams are `seq<string>`. Two n-grams are equal when their token sequences are equal, as with Python list equality.

Preconditions follow what the source divides by:

- `n_gram_prec` divides by the number of hypothesis n-grams. That number is non-zero exactly when `n <= |hyp|`.
- `calc_bleu` computes `1/n`, so it needs `n != 0`.
- `calc_bleu` divides by `|hyp|` for the penalty, so it needs `|hyp| > 0`.
- For `n > 0`, `calc_bleu` calls `n_gram_prec` for every order 1..n, so it needs `n <= |hyp|`.

`Bleu.Admissible` states exactly these conditions. The code has no guards or error messages: Python raises `ZeroDivisionError`. So the model states these conditions as preconditions and has no error path.

A negative order is accepted. `range(1, n+1)` is then empty, so the product stays 1, and `1 ** (1/n)` is 1. The score is then the brevity penalty alone (`Bleu.NegativeOrderIsPenaltyOnly`).

`calc_bleu`'s order parameter defaults to 4. `Bleu.CalcBleu` has the same default parameter, `Bleu.DefaultOrder`.

The code does not require the reference to be at least `i` tokens long. A shorter reference has no n-grams of order `i`, so that order has zero matches. `ShortReferenceScoresZero` proves such a pair scores 0.

## Model

| member | source | states |
|---|---|---|
| `NGrams.ExtractNGrams` | daikon/calc_bleu.py:38-51 | the loop returns exactly `max(0, len(T)+1-n)` n-grams, the i-th being `T[i..i+n]` in source order; the result is empty when `n > len(T)`; it equals the reference definition `Windows` |
| `NGrams.WindowsLength` | daikon/calc_bleu.py:48 | the number of windows is the number of values in `range(0, len(T)+1-n)` |
| `NGrams.WindowAt` | daikon/calc_bleu.py:49 | the i-th window is the slice `T[i..i+n]` |
| `NGrams.WindowsShape` | daikon/calc_bleu.py:47-51 | count and contents together: `len(T)-n+1` windows for `n <= len(T)`, each `T[i..i+n]`, in order |
| `NGrams.WindowsHaveWidth` | daikon/calc_bleu.py:49 | every n-gram has exactly `n` tokens |
| `NGrams.FirstTokens` | daikon/calc_bleu.py:47-51 | for `1 <= n <= len(T)`, the first tokens of the n-grams, in order, are `T[0..len(T)-n+1]` |
| `Precision.IndexOf` | daikon/calc_bleu.py:70 | the position `list.remove` deletes: an occurrence of the n-gram with no earlier occurrence before it |
| `Precision.RemoveFirst` | daikon/calc_bleu.py:70 | removal shortens the list by one and takes exactly one copy of the n-gram out of its multiset |
| `Precision.RemoveFirstKeepsOthers` | daikon/calc_bleu.py:70 | the removed n-gram's count drops by one; every other n-gram's count is unchanged |
| `Precision.RemoveFirstOrder` | daikon/calc_bleu.py:70 | the removed element is the first equal one, and the elements before and after it keep their order |
| `Precision.CountMatches` | daikon/calc_bleu.py:66-70 | the matching loop keeps three invariants: the working copy is the reference multiset minus the hypothesis n-grams seen so far, `correct + len(copy) == len(ref n-grams)`, and `correct <= i`; its final count is the clipped count `len(multiset(hyp) * multiset(ref))`, at most both list lengths |
| `Precision.ClippedCountBounds` | daikon/calc_bleu.py:67-70 | clipping is symmetric and bounded by the number of hypothesis and of reference n-grams |
| `Precision.ClippedCountSelf` | daikon/calc_bleu.py:67-70 | a list matched against itself matches every element |
| `Precision.ClippedCountContained` | daikon/calc_bleu.py:67-70 | when the reference supports every hypothesis n-gram with its multiplicity, all hypothesis n-grams match |
| `Precision.ClippingExample` | daikon/calc_bleu.py:67-71 | hypothesis `[a,a,a]` against reference `[a,a]` at order 1 gives 2 matches, not 3, so the precision is 2/3 |
| `Precision.NGramPrecision` | daikon/calc_bleu.py:64-71 | for `n <= len(hyp)`, the precision is a fraction in [0,1] over `len(hyp)-n+1` hypothesis n-grams, and its numerator is 0 exactly when nothing matches |
| `Precision.PrecisionOfIdentical` | daikon/calc_bleu.py:64-71 | identical token lists match all `len(T)-n+1` n-grams, so the precision is 1 |
| `Precision.NGramPrec` | daikon/calc_bleu.py:54-71 | the method extracts both n-gram lists, counts clipped matches and returns that fraction, which lies in [0,1] |
| `Bleu.ProductInUnit` | daikon/calc_bleu.py:88-90 | the accumulated product of the precisions of orders 1..k lies in [0,1] |
| `Bleu.ProductZeroIff` | daikon/calc_bleu.py:88-90 | no smoothing: the product is 0 exactly when some order 1..k has no clipped match |
| `Bleu.ProductOfIdentical` | daikon/calc_bleu.py:88-90 | for identical token lists the product is exactly 1 |
| `Bleu.BrevityPenalty` | daikon/calc_bleu.py:96 | `min(1, e^(1 - len(ref)/len(hyp)))` is the factor 1 exactly when `len(hyp) >= len(ref)`; otherwise it is `e^x` with exponent `x = 1 - len(ref)/len(hyp) < 0` |
| `Bleu.BleuScoreFacts` | daikon/calc_bleu.py:88-100 | the score's product is in [0,1] and is 0 exactly when an order is unmatched; there is no penalty exactly when `len(hyp) >= len(ref)`; the product is 1 when hypothesis and reference are equal |
| `Bleu.ZeroOverlapScoresZero` | daikon/calc_bleu.py:88-100 | one order without a match makes the score exactly 0 |
| `Bleu.ShortReferenceScoresZero` | daikon/calc_bleu.py:88-100 | a reference shorter than the highest order makes the score 0 instead of failing |
| `Bleu.IdenticalScoresOne` | daikon/calc_bleu.py:88-100 | a hypothesis equal to its reference scores exactly 1 at every admissible order |
| `Bleu.NegativeOrderIsPenaltyOnly` | daikon/calc_bleu.py:88-100 | for a negative order no precision is multiplied in: the product is 1, so the score is the brevity penalty alone (exactly 1 when `len(hyp) >= len(ref)`) |
| `Bleu.MultiplyPrecisions` | daikon/calc_bleu.py:88-90 | the accumulator loop starts at 1 and multiplies in the precision of each order 1..k; the result is the product of those precisions and lies in [0,1] |
| `Bleu.CalcBleu` | daikon/calc_bleu.py:74-100 | for every order the source computes without dividing by zero (`n != 0`, `len(hyp) > 0`, and `n <= len(hyp)` when `n > 0`), multiplying in the precisions of orders 1..n yields the exact product (in [0,1], zero exactly when an order is unmatched) and the penalty (none exactly when `len(hyp) >= len(ref)`); for `n < 0` the product is 1; for `hyp == ref` the product is 1 and there is no penalty; the order defaults to 4 |
| `Bleu.CalcBleuWithDefaultOrder` | daikon/calc_bleu.py:74 | a caller that omits the order is scored at order 4 |
| `Bleu.TheCatSatMatches` | daikon/calc_bleu.py:64-71 | all 3 unigrams of "the cat sat" match "the cat sat down" |
| `Bleu.ShortHypothesisExample` | daikon/calc_bleu.py:88-100 | "the cat sat" against "the cat sat down" at order 1 has product 3/3 and penalty `e^(-1/3)` |
| `Bleu.XYAgainstABMatches` | daikon/calc_bleu.py:64-71 | no unigram of "x y" occurs in "a b" |
| `Bleu.ZeroOverlapExample` | daikon/calc_bleu.py:88-100 | "x y" against "a b" at order 1 scores 0 |

## Left out

- `tokenise` (daikon/calc_bleu.py:22-35): it reads a file and calls NLTK's `word_tokenize`, a foreign library. Token lists are inputs to the model.
- `main` (daikon/calc_bleu.py:103-117): it parses command-line arguments and prints the score. The order it passes on is an input to `Bleu.CalcBleu`.
- Floating-point arithmetic. The `p ** (1/n)` root (line 91), `exp` (line 96) and `round(bp * p, 3)` (line 100) are not computed. A `Score` keeps the product as an exact fraction and the penalty symbolically. `KnownValue` gives the final value only where rounding cannot change it (0 and 1).
- Precision.NGramPrecision: it is the exact fraction `matches / total`. The source's float division rounds it to the nearest double. The product in `Bleu.CalcBleu` is likewise exact, where the source accumulates rounded floats.
- Bleu.BrevityPenalty: it compares the exact rational exponent with 0. The source divides token counts in floating point. Both agree unless `|ref| > |hyp|` and the lengths are so large (beyond 2^53) that `|ref|/|hyp|` rounds to 1.0.
- Cost: the source's `in` test and `list.remove` each scan the list, but the model is about values, not running time.
