/** The classifier's result list: scores rescaled by their squares and the
    list ordered by non-increasing score. */
module Ranking {

  datatype Classification = Classification(intent: string, score: real)

  function Same(x: real): real { x }

  /** `x ** 2`. The second factor is written through `Same` so that the
      product is not rewritten into a power term, which the solver's linear
      arithmetic cannot compare with other quantities. */
  function Square(x: real): real { x * Same(x) }

  lemma ProductPositive(a: real, b: real)
    requires a > 0.0 && b > 0.0
    ensures a * b > 0.0
  {
  }

  lemma ProductOfNegatives(a: real, b: real)
    requires a < 0.0 && b < 0.0
    ensures a * b > 0.0
  {
  }

  lemma SquarePositive(x: real)
    requires x != 0.0
    ensures Square(x) > 0.0
  {
    if x > 0.0 {
      ProductPositive(x, Same(x));
    } else {
      ProductOfNegatives(x, Same(x));
    }
  }

  lemma SquareNonNegative(x: real)
    ensures Square(x) >= 0.0
  {
    if x != 0.0 {
      SquarePositive(x);
    }
  }

  /** The accumulator of `normalizeNeural`: the sum of the squared scores. */
  function SumSquares(cs: seq<Classification>): (r: real)
    ensures r >= 0.0
  {
    SquareNonNegative(if |cs| == 0 then 0.0 else cs[0].score);
    if |cs| == 0 then 0.0 else Square(cs[0].score) + SumSquares(cs[1..])
  }

  function SumScores(cs: seq<Classification>): real {
    if |cs| == 0 then 0.0 else cs[0].score + SumScores(cs[1..])
  }

  function Rescale(cs: seq<Classification>, total: real): (r: seq<Classification>)
    ensures |r| == |cs|
    ensures forall i :: 0 <= i < |cs| ==> r[i].intent == cs[i].intent
  {
    if |cs| == 0 then []
    else
      var c := cs[0];
      [Classification(c.intent, if total > 0.0 then Square(c.score) / total else c.score)]
        + Rescale(cs[1..], total)
  }

  /** `normalizeNeural(classifications)`. */
  function NormalizeNeural(cs: seq<Classification>): (r: seq<Classification>)
    ensures |r| == |cs|
    ensures forall i :: 0 <= i < |cs| ==> r[i].intent == cs[i].intent
  {
    Rescale(cs, SumSquares(cs))
  }

  lemma {:induction false} SquareBelowSum(cs: seq<Classification>, i: nat)
    requires i < |cs|
    ensures Square(cs[i].score) <= SumSquares(cs)
  {
    SquareNonNegative(cs[0].score);
    if i > 0 {
      SquareBelowSum(cs[1..], i - 1);
      assert cs[1..][i - 1] == cs[i];
    }
  }

  lemma ShareBounds(x: real, t: real)
    requires 0.0 <= x <= t && t > 0.0
    ensures 0.0 <= x / t <= 1.0
  {
  }

  lemma UnitFactor(s: real, t: real, u: real)
    requires t > 0.0 && s * t == u && u == t
    ensures s == 1.0
  {
    assert (s - 1.0) * t == 0.0;
  }

  lemma {:induction false} RescaleSum(cs: seq<Classification>, total: real)
    requires total > 0.0
    ensures SumScores(Rescale(cs, total)) * total == SumSquares(cs)
  {
    if |cs| > 0 {
      var x := Square(cs[0].score);
      RescaleSum(cs[1..], total);
      assert Rescale(cs, total)[1..] == Rescale(cs[1..], total);
      assert (x / total + SumScores(Rescale(cs[1..], total))) * total
          == x + SumScores(Rescale(cs[1..], total)) * total;
    }
  }

  lemma {:induction false} RescaleAt(cs: seq<Classification>, total: real, i: nat)
    requires i < |cs|
    ensures Rescale(cs, total)[i].score == if total > 0.0 then Square(cs[i].score) / total else cs[i].score
  {
    if i > 0 {
      RescaleAt(cs[1..], total, i - 1);
    }
  }

  /** With a positive sum of squares every score becomes its share of that
      sum: it lies in [0, 1] and the new scores sum to 1. */
  lemma NormalizePositive(cs: seq<Classification>)
    requires SumSquares(cs) > 0.0
    ensures forall i :: 0 <= i < |cs| ==>
              NormalizeNeural(cs)[i].score == Square(cs[i].score) / SumSquares(cs)
    ensures forall i :: 0 <= i < |cs| ==> 0.0 <= NormalizeNeural(cs)[i].score <= 1.0
    ensures SumScores(NormalizeNeural(cs)) == 1.0
  {
    forall i | 0 <= i < |cs|
      ensures NormalizeNeural(cs)[i].score == Square(cs[i].score) / SumSquares(cs)
      ensures 0.0 <= NormalizeNeural(cs)[i].score <= 1.0
    {
      ShareAt(cs, i);
      ShareRange(cs, i);
    }
    SharesSumToOne(cs);
  }

  lemma ShareAt(cs: seq<Classification>, i: nat)
    requires SumSquares(cs) > 0.0 && i < |cs|
    ensures NormalizeNeural(cs)[i].score == Square(cs[i].score) / SumSquares(cs)
  {
    RescaleAt(cs, SumSquares(cs), i);
  }

  lemma ShareRange(cs: seq<Classification>, i: nat)
    requires SumSquares(cs) > 0.0 && i < |cs|
    ensures 0.0 <= Square(cs[i].score) / SumSquares(cs) <= 1.0
  {
    SquareBelowSum(cs, i);
    SquareNonNegative(cs[i].score);
    ShareBounds(Square(cs[i].score), SumSquares(cs));
  }

  lemma SharesSumToOne(cs: seq<Classification>)
    requires SumSquares(cs) > 0.0
    ensures SumScores(NormalizeNeural(cs)) == 1.0
  {
    RescaleSum(cs, SumSquares(cs));
    UnitFactor(SumScores(Rescale(cs, SumSquares(cs))), SumSquares(cs), SumSquares(cs));
  }

  /** With a zero sum of squares every score is already 0 and the list is
      returned as it is. */
  lemma {:induction false} NormalizeZero(cs: seq<Classification>)
    requires SumSquares(cs) == 0.0
    ensures forall i :: 0 <= i < |cs| ==> cs[i].score == 0.0
    ensures NormalizeNeural(cs) == cs
  {
    forall i | 0 <= i < |cs|
      ensures cs[i].score == 0.0
    {
      SquareBelowSum(cs, i);
      SquareZero(cs[i].score);
    }
    forall i | 0 <= i < |cs|
      ensures NormalizeNeural(cs)[i] == cs[i]
    {
      RescaleAt(cs, 0.0, i);
    }
  }

  lemma SquareZero(x: real)
    requires Square(x) <= 0.0
    ensures x == 0.0
  {
    if x != 0.0 {
      SquarePositive(x);
    }
  }

  /** A zero score stays zero under normalisation. */
  lemma NormalizeKeepsZero(cs: seq<Classification>, i: nat)
    requires i < |cs| && cs[i].score == 0.0
    ensures NormalizeNeural(cs)[i].score == 0.0
  {
    RescaleAt(cs, SumSquares(cs), i);
    assert Square(cs[i].score) == 0.0 * Same(0.0);
  }

  // ---------------------------------------------------------------------------
  // the sort in `run`: a stable sort by non-increasing score

  /** Places `c` before the first entry whose score does not exceed its own,
      so it precedes the entries of equal score already in the list. */
  function Insert(c: Classification, sorted: seq<Classification>): (r: seq<Classification>)
    ensures |r| == |sorted| + 1
    ensures multiset(r) == multiset(sorted) + multiset{c}
  {
    if |sorted| == 0 then [c]
    else if c.score >= sorted[0].score then [c] + sorted
    else
      assert sorted == [sorted[0]] + sorted[1..];
      [sorted[0]] + Insert(c, sorted[1..])
  }

  /** `classifications.sort((a, b) => b.score - a.score)` with a stable sort. */
  function SortByScore(cs: seq<Classification>): (r: seq<Classification>)
    ensures |r| == |cs|
    ensures multiset(r) == multiset(cs)
  {
    if |cs| == 0 then []
    else
      assert cs == [cs[0]] + cs[1..];
      Insert(cs[0], SortByScore(cs[1..]))
  }

  predicate NonIncreasing(cs: seq<Classification>) {
    forall i, j :: 0 <= i < j < |cs| ==> cs[i].score >= cs[j].score
  }

  /** The entries whose score is `s`, in list order. */
  function WithScore(cs: seq<Classification>, s: real): seq<Classification> {
    if |cs| == 0 then []
    else if cs[0].score == s then [cs[0]] + WithScore(cs[1..], s)
    else WithScore(cs[1..], s)
  }

  lemma {:induction false} InsertBound(c: Classification, sorted: seq<Classification>, b: real)
    requires c.score <= b
    requires forall i :: 0 <= i < |sorted| ==> sorted[i].score <= b
    ensures forall i :: 0 <= i < |Insert(c, sorted)| ==> Insert(c, sorted)[i].score <= b
  {
    if |sorted| > 0 && c.score < sorted[0].score {
      InsertBound(c, sorted[1..], b);
    }
  }

  lemma {:induction false} InsertSorted(c: Classification, sorted: seq<Classification>)
    requires NonIncreasing(sorted)
    ensures NonIncreasing(Insert(c, sorted))
  {
    if |sorted| > 0 && c.score < sorted[0].score {
      var rest := sorted[1..];
      assert NonIncreasing(rest);
      InsertSorted(c, rest);
      InsertBound(c, rest, sorted[0].score);
    }
  }

  lemma {:induction false} SortSorted(cs: seq<Classification>)
    ensures NonIncreasing(SortByScore(cs))
  {
    if |cs| > 0 {
      SortSorted(cs[1..]);
      InsertSorted(cs[0], SortByScore(cs[1..]));
    }
  }

  lemma {:induction false} InsertWithScore(c: Classification, sorted: seq<Classification>, s: real)
    requires NonIncreasing(sorted)
    ensures WithScore(Insert(c, sorted), s)
              == if c.score == s then [c] + WithScore(sorted, s) else WithScore(sorted, s)
  {
    if |sorted| > 0 {
      if c.score >= sorted[0].score {
        assert Insert(c, sorted)[1..] == sorted;
      } else {
        var rest := sorted[1..];
        assert NonIncreasing(rest);
        InsertWithScore(c, rest, s);
        assert Insert(c, sorted)[1..] == Insert(c, rest);
        if c.score == s {
          // every entry before the insertion point scores above `c`
          assert sorted[0].score != s;
        }
      }
    }
  }

  /** Stability: among entries of equal score the sort keeps the input order. */
  lemma {:induction false} SortStable(cs: seq<Classification>, s: real)
    ensures WithScore(SortByScore(cs), s) == WithScore(cs, s)
  {
    if |cs| > 0 {
      SortStable(cs[1..], s);
      SortSorted(cs[1..]);
      InsertWithScore(cs[0], SortByScore(cs[1..]), s);
    }
  }

  /** Each entry of the sorted list comes from the input list. */
  lemma SortedFrom(cs: seq<Classification>, i: nat) returns (k: nat)
    requires i < |SortByScore(cs)|
    ensures k < |cs| && SortByScore(cs)[i] == cs[k]
  {
    assert SortByScore(cs)[i] in multiset(cs);
    k :| 0 <= k < |cs| && cs[k] == SortByScore(cs)[i];
  }

  /** Each entry of the input list appears in the sorted list. */
  lemma SortedHas(cs: seq<Classification>, k: nat) returns (i: nat)
    requires k < |cs|
    ensures i < |SortByScore(cs)| && SortByScore(cs)[i] == cs[k]
  {
    assert cs[k] in multiset(SortByScore(cs));
    i :| 0 <= i < |SortByScore(cs)| && SortByScore(cs)[i] == cs[k];
  }

  /** The sort returns a permutation of its input in non-increasing score
      order, and keeps entries of equal score in input order. */
  lemma SortSpec(cs: seq<Classification>)
    ensures multiset(SortByScore(cs)) == multiset(cs)
    ensures NonIncreasing(SortByScore(cs))
    ensures forall s :: WithScore(SortByScore(cs), s) == WithScore(cs, s)
  {
    SortSorted(cs);
    forall s
      ensures WithScore(SortByScore(cs), s) == WithScore(cs, s)
    {
      SortStable(cs, s);
    }
  }
}
