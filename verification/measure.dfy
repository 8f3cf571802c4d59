/** The stemmer's measure tests, `gt0`, `gt1`, `eq1`, `vowelInStem` and
    `consonantLike`, rewritten as scans over the word, each with the regular
    expression it replaces stated as a ghost predicate over run decompositions
    and a lemma proving the two agree on every string.

    The regular expressions are built from consonant runs C = `[^aeiou][^aeiouy]*`
    and vowel runs V = `[aeiouy][aeiou]*`; Porter's measure m counts the VC
    pairs in the form [C](VC)^m[V]. A lowercase `y` in first position can start
    either kind of run, so each test holds when either reading satisfies it. */
module Measure {
  import opened Chars

  // ---------------------------------------------------------------------------
  // Run decompositions: what the regular expressions match

  /** `s[i..j]` is a consonant run `[^aeiou][^aeiouy]*`. */
  ghost predicate ConsonantRun(s: string, i: nat, j: nat) {
    i < j <= |s| && !IsVowel(s[i]) && forall k :: i < k < j ==> !IsVowelOrY(s[k])
  }

  /** `s[i..j]` is a vowel run `[aeiouy][aeiou]*`. */
  ghost predicate VowelRun(s: string, i: nat, j: nat) {
    i < j <= |s| && IsVowelOrY(s[i]) && forall k :: i < k < j ==> IsVowel(s[k])
  }

  /** `s[..a]` matches `([^aeiou][^aeiouy]*)?`. */
  ghost predicate OptionalLead(s: string, a: nat) {
    a == 0 || ConsonantRun(s, 0, a)
  }

  /** `s[i..b]` is n vowel-run/consonant-run pairs: `((V)(C)){n}`. */
  ghost predicate VcPairs(s: string, i: nat, b: nat, n: nat)
    decreases n
  {
    if n == 0 then i == b
    else exists x, y :: i < x < y <= b && VowelRun(s, i, x) && ConsonantRun(s, x, y) && VcPairs(s, y, b, n - 1)
  }

  /** `^([^aeiou][^aeiouy]*)?([aeiouy][aeiou]*)([^aeiou][^aeiouy]*)` finds a match. */
  ghost predicate Gt0Regex(s: string) {
    exists a, b :: 0 <= a <= b <= |s| && OptionalLead(s, a) && VcPairs(s, a, b, 1)
  }

  /** `^([^aeiou][^aeiouy]*)?(([aeiouy][aeiou]*)([^aeiou][^aeiouy]*)){2,}` finds a match. */
  ghost predicate Gt1Regex(s: string) {
    exists a, b, n :: 0 <= a <= b <= |s| && n >= 2 && OptionalLead(s, a) && VcPairs(s, a, b, n)
  }

  /** `^([^aeiou][^aeiouy]*)?([aeiouy][aeiou]*)([^aeiou][^aeiouy]*)([aeiouy][aeiou]*)?$` matches. */
  ghost predicate Eq1Regex(s: string) {
    exists a, b :: 0 <= a <= b <= |s| && OptionalLead(s, a) && VcPairs(s, a, b, 1) && (b == |s| || VowelRun(s, b, |s|))
  }

  /** `^([^aeiou][^aeiouy]*)?[aeiouy]` finds a match. */
  ghost predicate VowelInStemRegex(s: string) {
    exists a :: 0 <= a < |s| && OptionalLead(s, a) && IsVowelOrY(s[a])
  }

  /** `^([^aeiou][^aeiouy]*)[aeiouy][^aeiouwxy]$` matches. */
  ghost predicate ConsonantLikeRegex(s: string) {
    |s| >= 3 && ConsonantRun(s, 0, |s| - 2) && IsVowelOrY(s[|s| - 2]) && !EndsShortSyllable(s[|s| - 1])
  }

  // ---------------------------------------------------------------------------
  // Scanners

  /** `[aeiouwxy]`: letters that cannot close a consonant-vowel-consonant ending. */
  predicate EndsShortSyllable(c: char) {
    IsVowelOrY(c) || c == 'w' || c == 'x'
  }

  /** The end of the run of letters outside `[aeiouy]` that starts at `i`. */
  function SkipConsonants(s: string, i: nat): (r: nat)
    requires i <= |s|
    ensures i <= r <= |s|
    ensures forall k :: i <= k < r ==> !IsVowelOrY(s[k])
    ensures r < |s| ==> IsVowelOrY(s[r])
    decreases |s| - i
  {
    if i == |s| || IsVowelOrY(s[i]) then i else SkipConsonants(s, i + 1)
  }

  /** The end of the run of letters in `[aeiou]` that starts at `i`. */
  function SkipVowels(s: string, i: nat): (r: nat)
    requires i <= |s|
    ensures i <= r <= |s|
    ensures forall k :: i <= k < r ==> IsVowel(s[k])
    ensures r < |s| ==> !IsVowel(s[r])
    decreases |s| - i
  {
    if i == |s| || !IsVowel(s[i]) then i else SkipVowels(s, i + 1)
  }

  /** The number of VC pairs read greedily from position `i`. */
  function MeasureFrom(s: string, i: nat): nat
    requires i <= |s|
    decreases |s| - i
  {
    if i < |s| && IsVowelOrY(s[i]) then
      var j := SkipVowels(s, i + 1);
      if j < |s| then 1 + MeasureFrom(s, SkipConsonants(s, j + 1)) else 0
    else 0
  }

  /** The measure when the optional leading consonant run is matched (0 when it cannot be). */
  function MeasureAfterLead(s: string): nat {
    if |s| > 0 && !IsVowel(s[0]) then MeasureFrom(s, SkipConsonants(s, 1)) else 0
  }

  /** The measure when the optional leading consonant run is skipped. */
  function MeasureNoLead(s: string): nat {
    MeasureFrom(s, 0)
  }

  /** `gt0`: m > 0. */
  predicate Gt0(s: string) {
    MeasureAfterLead(s) >= 1 || MeasureNoLead(s) >= 1
  }

  /** `gt1`: m > 1. */
  predicate Gt1(s: string) {
    MeasureAfterLead(s) >= 2 || MeasureNoLead(s) >= 2
  }

  /** `eq1`: m == 1. */
  predicate Eq1(s: string) {
    MeasureAfterLead(s) == 1 || MeasureNoLead(s) == 1
  }

  /** `vowelInStem`. */
  predicate VowelInStem(s: string) {
    SkipConsonants(s, 0) < |s|
  }

  /** `consonantLike`: a consonant run, then a vowel, then a final letter outside `[aeiouwxy]`. */
  predicate ConsonantLike(s: string) {
    |s| >= 3 && !IsVowel(s[0]) && SkipConsonants(s, 1) == |s| - 2 && !EndsShortSyllable(s[|s| - 1])
  }

  // ---------------------------------------------------------------------------
  // The scanners decide the regular expressions

  lemma SkipConsonantsAt(s: string, i: nat, m: nat)
    requires i <= m <= |s|
    requires forall k :: i <= k < m ==> !IsVowelOrY(s[k])
    requires m < |s| ==> IsVowelOrY(s[m])
    ensures SkipConsonants(s, i) == m
  {
  }

  lemma SkipVowelsAt(s: string, i: nat, m: nat)
    requires i <= m <= |s|
    requires forall k :: i <= k < m ==> IsVowel(s[k])
    requires m < |s| ==> !IsVowel(s[m])
    ensures SkipVowels(s, i) == m
  {
  }

  lemma VcPairsStart(s: string, i: nat, b: nat, n: nat)
    requires n >= 1 && VcPairs(s, i, b, n)
    ensures i < b <= |s| && IsVowelOrY(s[i])
    decreases n
  {
    var x, y :| i < x < y <= b && VowelRun(s, i, x) && ConsonantRun(s, x, y) && VcPairs(s, y, b, n - 1);
    if n > 1 {
      VcPairsStart(s, y, b, n - 1);
    }
  }

  /** n VC pairs can be matched from `i` exactly when the greedy count reaches n. */
  lemma {:induction false} PairsIffMeasure(s: string, i: nat, n: nat)
    requires i <= |s| && n >= 1
    ensures (exists b :: i <= b <= |s| && VcPairs(s, i, b, n)) <==> MeasureFrom(s, i) >= n
  {
    if exists b :: i <= b <= |s| && VcPairs(s, i, b, n) {
      var b :| i <= b <= |s| && VcPairs(s, i, b, n);
      PairsGiveMeasure(s, i, b, n);
    }
    if MeasureFrom(s, i) >= n {
      var b := MeasureGivesPairs(s, i, n);
      assert i <= b <= |s| && VcPairs(s, i, b, n);
    }
  }

  /** The first VC pair of a match of n pairs. */
  lemma FirstPair(s: string, i: nat, b: nat, n: nat) returns (x: nat, y: nat)
    requires n >= 1 && VcPairs(s, i, b, n)
    ensures i < x < y <= b && VowelRun(s, i, x) && ConsonantRun(s, x, y) && VcPairs(s, y, b, n - 1)
  {
    x, y :| i < x < y <= b && VowelRun(s, i, x) && ConsonantRun(s, x, y) && VcPairs(s, y, b, n - 1);
  }

  lemma {:induction false} PairsGiveMeasure(s: string, i: nat, b: nat, n: nat)
    requires i <= b <= |s| && n >= 1 && VcPairs(s, i, b, n)
    ensures MeasureFrom(s, i) >= n
    decreases n
  {
    var x, y := FirstPair(s, i, b, n);
    if n == 1 {
      PairCounts(s, i, x, y);
    } else {
      VcPairsStart(s, y, b, n - 1);
      PairThenMore(s, i, x, y);
      PairsGiveMeasure(s, y, b, n - 1);
    }
  }

  /** A vowel run followed by a consonant run counts one. */
  lemma PairCounts(s: string, i: nat, x: nat, y: nat)
    requires VowelRun(s, i, x) && ConsonantRun(s, x, y)
    ensures MeasureFrom(s, i) >= 1
  {
    SkipVowelsAt(s, i + 1, x);
  }

  /** A complete VC pair followed by a vowel: the count goes on from the vowel. */
  lemma PairThenMore(s: string, i: nat, x: nat, y: nat)
    requires VowelRun(s, i, x) && ConsonantRun(s, x, y) && y < |s| && IsVowelOrY(s[y])
    ensures MeasureFrom(s, i) == 1 + MeasureFrom(s, y)
  {
    SkipVowelsAt(s, i + 1, x);
    SkipConsonantsAt(s, x + 1, y);
  }

  lemma {:induction false} MeasureGivesPairs(s: string, i: nat, n: nat) returns (b: nat)
    requires i <= |s| && n >= 1 && MeasureFrom(s, i) >= n
    ensures i <= b <= |s| && VcPairs(s, i, b, n)
    decreases n
  {
    var j := SkipVowels(s, i + 1);
    var k := SkipConsonants(s, j + 1);
    assert VowelRun(s, i, j);
    if n == 1 {
      b := j + 1;
      assert ConsonantRun(s, j, j + 1);
      assert VcPairs(s, j + 1, b, 0);
    } else {
      b := MeasureGivesPairs(s, k, n - 1);
      assert ConsonantRun(s, j, k);
    }
  }

  /** A leading consonant run followed by a vowel ends where the scanner stops. */
  lemma LeadEnd(s: string, a: nat)
    requires 0 < a < |s| && ConsonantRun(s, 0, a) && IsVowelOrY(s[a])
    ensures !IsVowel(s[0]) && SkipConsonants(s, 1) == a
  {
    SkipConsonantsAt(s, 1, a);
  }

  /** Shared by `gt0` and `gt1`: a match of `^(C)?((V)(C)){n}` exists exactly
      when one reading of the leading run gives a measure of at least n. */
  lemma LeadPairsIffMeasure(s: string, n: nat)
    requires n >= 1
    ensures (exists a, b :: 0 <= a <= b <= |s| && OptionalLead(s, a) && VcPairs(s, a, b, n))
            <==> MeasureAfterLead(s) >= n || MeasureNoLead(s) >= n
  {
    if exists a, b :: 0 <= a <= b <= |s| && OptionalLead(s, a) && VcPairs(s, a, b, n) {
      var a, b :| 0 <= a <= b <= |s| && OptionalLead(s, a) && VcPairs(s, a, b, n);
      LeadPairsGiveMeasure(s, a, b, n);
    }
    if MeasureAfterLead(s) >= n || MeasureNoLead(s) >= n {
      var a, b := LeadMeasureGivesPairs(s, n);
      assert 0 <= a <= b <= |s| && OptionalLead(s, a) && VcPairs(s, a, b, n);
    }
  }

  lemma LeadPairsGiveMeasure(s: string, a: nat, b: nat, n: nat)
    requires n >= 1 && 0 <= a <= b <= |s| && OptionalLead(s, a) && VcPairs(s, a, b, n)
    ensures MeasureAfterLead(s) >= n || MeasureNoLead(s) >= n
  {
    VcPairsStart(s, a, b, n);
    PairsGiveMeasure(s, a, b, n);
    if a > 0 {
      LeadEnd(s, a);
      assert MeasureAfterLead(s) == MeasureFrom(s, a);
    }
  }

  lemma LeadMeasureGivesPairs(s: string, n: nat) returns (a: nat, b: nat)
    requires n >= 1 && (MeasureAfterLead(s) >= n || MeasureNoLead(s) >= n)
    ensures 0 <= a <= b <= |s| && OptionalLead(s, a) && VcPairs(s, a, b, n)
  {
    if MeasureNoLead(s) >= n {
      a := 0;
      b := MeasureGivesPairs(s, 0, n);
    } else {
      a := SkipConsonants(s, 1);
      assert ConsonantRun(s, 0, a);
      b := MeasureGivesPairs(s, a, n);
    }
  }

  lemma Gt0Decides(s: string)
    ensures Gt0(s) <==> Gt0Regex(s)
  {
    LeadPairsIffMeasure(s, 1);
  }

  lemma Gt1Decides(s: string)
    ensures Gt1(s) <==> Gt1Regex(s)
  {
    if Gt1(s) {
      var a, b := LeadMeasureGivesPairs(s, 2);
      assert 0 <= a <= b <= |s| && 2 >= 2 && OptionalLead(s, a) && VcPairs(s, a, b, 2);
    }
    if Gt1Regex(s) {
      var a, b, n :| 0 <= a <= b <= |s| && n >= 2 && OptionalLead(s, a) && VcPairs(s, a, b, n);
      LeadPairsGiveMeasure(s, a, b, n);
    }
  }

  /** Exactly one VC pair followed by an optional vowel run reaches the end of
      `s` from `i` exactly when the greedy count from `i` is 1. */
  lemma OnePairGivesMeasure(s: string, i: nat, b: nat)
    requires i <= b <= |s| && VcPairs(s, i, b, 1) && (b == |s| || VowelRun(s, b, |s|))
    ensures MeasureFrom(s, i) == 1
  {
    var x, y :| i < x < y <= b && VowelRun(s, i, x) && ConsonantRun(s, x, y) && VcPairs(s, y, b, 0);
    SkipVowelsAt(s, i + 1, x);
    SkipConsonantsAt(s, x + 1, b);
    if b < |s| {
      SkipVowelsAt(s, b + 1, |s|);
      assert MeasureFrom(s, b) == 0;
    }
  }

  lemma MeasureOneGivesPair(s: string, i: nat) returns (b: nat)
    requires i <= |s| && MeasureFrom(s, i) == 1
    ensures i <= b <= |s| && VcPairs(s, i, b, 1) && (b == |s| || VowelRun(s, b, |s|))
  {
    var j := SkipVowels(s, i + 1);
    var k := SkipConsonants(s, j + 1);
    assert VowelRun(s, i, j);
    assert ConsonantRun(s, j, k);
    assert VcPairs(s, k, k, 0);
    assert VcPairs(s, i, k, 1);
    if k < |s| {
      assert SkipVowels(s, k + 1) == |s|;
      assert VowelRun(s, k, |s|);
    }
    b := k;
  }

  lemma Eq1Decides(s: string)
    ensures Eq1(s) <==> Eq1Regex(s)
  {
    if Eq1Regex(s) {
      var a, b :| 0 <= a <= b <= |s| && OptionalLead(s, a) && VcPairs(s, a, b, 1) && (b == |s| || VowelRun(s, b, |s|));
      VcPairsStart(s, a, b, 1);
      OnePairGivesMeasure(s, a, b);
      if a > 0 {
        LeadEnd(s, a);
        assert MeasureAfterLead(s) == MeasureFrom(s, a);
      }
    }
    if MeasureNoLead(s) == 1 {
      var b := MeasureOneGivesPair(s, 0);
      assert OptionalLead(s, 0);
      assert 0 <= 0 <= b <= |s| && OptionalLead(s, 0) && VcPairs(s, 0, b, 1) && (b == |s| || VowelRun(s, b, |s|));
    } else if MeasureAfterLead(s) == 1 {
      var a := SkipConsonants(s, 1);
      assert ConsonantRun(s, 0, a);
      var b := MeasureOneGivesPair(s, a);
      assert OptionalLead(s, a);
      assert 0 <= a <= b <= |s| && OptionalLead(s, a) && VcPairs(s, a, b, 1) && (b == |s| || VowelRun(s, b, |s|));
    }
  }

  /** `vowelInStem` holds exactly when some letter of `s` is in `[aeiouy]`. */
  lemma VowelInStemDecides(s: string)
    ensures VowelInStem(s) <==> VowelInStemRegex(s)
    ensures VowelInStem(s) <==> exists k :: 0 <= k < |s| && IsVowelOrY(s[k])
  {
    var r := SkipConsonants(s, 0);
    if r < |s| {
      assert OptionalLead(s, r);
    }
  }

  lemma ConsonantLikeDecides(s: string)
    ensures ConsonantLike(s) <==> ConsonantLikeRegex(s)
  {
    if ConsonantLikeRegex(s) {
      SkipConsonantsAt(s, 1, |s| - 2);
    }
  }
}
