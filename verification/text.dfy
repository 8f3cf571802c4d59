/** Text normalisation ahead of stemming: the expansion of English
    contractions and the split of a text into its runs of word characters. */
module Text {
  import opened Chars
  import opened Seqs

  /** The class `[ ,:;.!?]` that may follow a contraction particle. */
  predicate IsDelimiter(c: char) {
    c == ' ' || c == ',' || c == ':' || c == ';' || c == '.' || c == '!' || c == '?'
  }

  /** `s` starts with the lower-case pattern `p`, letters compared without
      regard to ASCII case (a regular expression's `i` flag without `u`). */
  predicate StartsWithCi(s: string, p: string) {
    |p| <= |s| && Lower(s[..|p|]) == p
  }

  /** Some position of `s` starts an occurrence of `p`, in any case. */
  predicate OccursCi(s: string, p: string) {
    exists i :: 0 <= i <= |s| && StartsWithCi(s[i..], p)
  }

  /** `s.replace(/p([ ,:;.!?]|$)/gi, e)`. Scanning left to right, an
      occurrence of the particle `p` followed by a delimiter or by the end of
      the text is a match; the match, delimiter included, becomes `e` and the
      scan resumes after it. */
  function Replace(s: string, p: string, e: string): string
    requires |p| > 0
    decreases |s|
  {
    if |s| == 0 then []
    else if StartsWithCi(s, p) && |s| == |p| then e
    else if StartsWithCi(s, p) && IsDelimiter(s[|p|]) then e + Replace(s[|p| + 1..], p, e)
    else [s[0]] + Replace(s[1..], p, e)
  }

  /** A text in which the particle does not occur is left as it is. */
  lemma {:induction false} ReplaceAbsent(s: string, p: string, e: string)
    requires |p| > 0 && !OccursCi(s, p)
    ensures Replace(s, p, e) == s
    decreases |s|
  {
    if |s| > 0 {
      assert s[0..] == s;
      assert forall i :: 0 <= i <= |s[1..]| ==> s[1..][i..] == s[i + 1..];
      ReplaceAbsent(s[1..], p, e);
    }
  }

  /** Position `i` of `s` starts a match of `p([ ,:;.!?]|$)`: the particle,
      in any case, followed by a delimiter or by the end of the text. */
  predicate MatchAt(s: string, p: string, i: nat) {
    i <= |s| && StartsWithCi(s[i..], p) && (i + |p| == |s| || IsDelimiter(s[i + |p|]))
  }

  /** The resume point after a match at `i`: past the delimiter, or the end. */
  function Resume(s: string, p: string, i: nat): nat {
    if i + |p| == |s| then |s| else i + |p| + 1
  }

  /** A match at the start is replaced, delimiter included. */
  lemma ReplaceAtStart(s: string, p: string, e: string)
    requires |p| > 0 && MatchAt(s, p, 0)
    ensures |p| <= |s| && Resume(s, p, 0) <= |s|
    ensures Replace(s, p, e) == e + Replace(s[Resume(s, p, 0)..], p, e)
  {
    assert s[0..] == s;
    if |s| == |p| {
      assert s[|s|..] == [];
    }
  }

  /** Without a match at the start, the first character is kept. */
  lemma ReplaceSkip(s: string, p: string, e: string)
    requires |p| > 0 && |s| > 0 && !MatchAt(s, p, 0)
    ensures Replace(s, p, e) == [s[0]] + Replace(s[1..], p, e)
  {
    assert s[0..] == s;
  }

  /** Matches in the tail are the matches of the text, one position on. */
  lemma MatchShift(s: string, p: string, j: nat)
    requires |s| > 0 && j <= |s| - 1
    ensures MatchAt(s[1..], p, j) <==> MatchAt(s, p, j + 1)
  {
    assert s[1..][j..] == s[j + 1..];
  }

  /** Where `s` first matches, the match and its delimiter become `e`, the
      text before it is kept, and the rewrite resumes after the delimiter. */
  lemma {:induction false} ReplaceFirstMatch(s: string, p: string, e: string, i: nat)
    requires |p| > 0 && MatchAt(s, p, i)
    requires forall j :: 0 <= j < i ==> !MatchAt(s, p, j)
    ensures i + |p| <= |s| && Resume(s, p, i) <= |s|
    ensures Replace(s, p, e) == s[..i] + e + Replace(s[Resume(s, p, i)..], p, e)
    decreases i
  {
    if i == 0 {
      ReplaceAtStart(s, p, e);
    } else {
      MatchesShift(s, p, i);
      ReplaceFirstMatch(s[1..], p, e, i - 1);
      ReplaceAfterSkip(s, p, e, i);
    }
  }

  /** The least match of the tail is the least match of the text, less one. */
  lemma MatchesShift(s: string, p: string, i: nat)
    requires 0 < i && MatchAt(s, p, i)
    requires forall j :: 0 <= j < i ==> !MatchAt(s, p, j)
    ensures |s| > 0 && MatchAt(s[1..], p, i - 1)
    ensures forall j :: 0 <= j < i - 1 ==> !MatchAt(s[1..], p, j)
  {
    MatchShift(s, p, i - 1);
    forall j | 0 <= j < i - 1
      ensures !MatchAt(s[1..], p, j)
    {
      MatchShift(s, p, j);
    }
  }

  /** One step of `ReplaceFirstMatch`: the tail's first match lifts to the
      whole text when the first character starts no match. */
  lemma ReplaceAfterSkip(s: string, p: string, e: string, i: nat)
    requires |p| > 0 && 0 < i && !MatchAt(s, p, 0)
    requires i - 1 + |p| <= |s| - 1 && Resume(s[1..], p, i - 1) <= |s| - 1
    requires Replace(s[1..], p, e)
               == s[1..][..i - 1] + e + Replace(s[1..][Resume(s[1..], p, i - 1)..], p, e)
    ensures Resume(s, p, i) <= |s|
    ensures Replace(s, p, e) == s[..i] + e + Replace(s[Resume(s, p, i)..], p, e)
  {
    var t := s[1..];
    var k := Resume(s, p, i);
    assert t[k - 1..] == s[k..];
    ReplaceSkip(s, p, e);
    ConsSplice(s, i, e, Replace(t, p, e), Replace(s[k..], p, e));
  }

  /** A text with no match anywhere is left unchanged, even when the
      particle occurs in it without a delimiter after it. */
  lemma {:induction false} ReplaceNoMatch(s: string, p: string, e: string)
    requires |p| > 0
    requires forall j :: 0 <= j <= |s| ==> !MatchAt(s, p, j)
    ensures Replace(s, p, e) == s
    decreases |s|
  {
    if |s| > 0 {
      var t := s[1..];
      ReplaceSkip(s, p, e);
      forall j | 0 <= j <= |t|
        ensures !MatchAt(t, p, j)
      {
        MatchShift(s, p, j);
      }
      ReplaceNoMatch(t, p, e);
    }
  }

  /** The contraction particles with their expansions, in the order
      `replaceContractions` applies them. */
  const Contractions: seq<(string, string)> :=
    [("n't", " not "), ("'s", " is "), ("'re", " are "), ("'ve", " have "), ("'m", " am "), ("'d", " had ")]

  predicate ValidRules(rules: seq<(string, string)>) {
    forall i :: 0 <= i < |rules| ==> |rules[i].0| > 0
  }

  /** Each rule applied in turn, over the whole output of the previous one. */
  function ReplaceAll(s: string, rules: seq<(string, string)>): string
    requires ValidRules(rules)
    decreases |rules|
  {
    if |rules| == 0 then s else ReplaceAll(Replace(s, rules[0].0, rules[0].1), rules[1..])
  }

  function ReplaceContractions(text: string): string {
    ReplaceAll(text, Contractions)
  }

  /** A particle holding an apostrophe does not occur in an apostrophe-free text. */
  lemma NoApostropheNoParticle(s: string, p: string, k: nat)
    requires k < |p| && p[k] == '\'' && '\'' !in s
    ensures !OccursCi(s, p)
  {
    forall i | 0 <= i <= |s| && |p| <= |s| - i
      ensures Lower(s[i..][..|p|])[k] != '\''
    {
      assert s[i..][..|p|][k] == s[i + k];
      assert s[i + k] in s;
    }
  }

  lemma LowerAppend(a: string, b: string)
    ensures Lower(a + b) == Lower(a) + Lower(b)
  {
  }

  lemma LowerIdempotent(s: string)
    ensures Lower(Lower(s)) == Lower(s)
  {
  }

  /** Expanding a particle commutes with lower-casing: the match positions do
      not depend on the case of the text. */
  lemma {:induction false} ReplaceLower(s: string, p: string, e: string)
    requires |p| > 0 && IsLowerCase(e)
    ensures Replace(Lower(s), p, e) == Lower(Replace(s, p, e))
    decreases |s|
  {
    if |s| > 0 {
      var l := Lower(s);
      LowerOfLowerCase(e);
      assert StartsWithCi(l, p) <==> StartsWithCi(s, p) by {
        if |p| <= |s| {
          assert l[..|p|] == Lower(s[..|p|]);
          LowerIdempotent(s[..|p|]);
        }
      }
      if StartsWithCi(s, p) && |s| == |p| {
      } else if StartsWithCi(s, p) && IsDelimiter(s[|p|]) {
        assert l[|p| + 1..] == Lower(s[|p| + 1..]);
        ReplaceLower(s[|p| + 1..], p, e);
        LowerAppend(e, Replace(s[|p| + 1..], p, e));
      } else {
        assert l[1..] == Lower(s[1..]);
        ReplaceLower(s[1..], p, e);
        LowerAppend([s[0]], Replace(s[1..], p, e));
      }
    }
  }

  /** Rules whose particles all hold an apostrophe and whose expansions hold
      none leave an apostrophe-free text as it is. */
  lemma {:induction false} ReplaceAllNoApostrophe(s: string, rules: seq<(string, string)>)
    requires ValidRules(rules) && '\'' !in s
    requires forall i :: 0 <= i < |rules| ==> '\'' in rules[i].0
    ensures ReplaceAll(s, rules) == s
    decreases |rules|
  {
    if |rules| > 0 {
      var p := rules[0].0;
      var k :| 0 <= k < |p| && p[k] == '\'';
      NoApostropheNoParticle(s, p, k);
      ReplaceAbsent(s, p, rules[0].1);
      ReplaceAllNoApostrophe(s, rules[1..]);
    }
  }

  /** Rules with lower-case expansions commute with lower-casing. */
  lemma {:induction false} ReplaceAllLower(s: string, rules: seq<(string, string)>)
    requires ValidRules(rules)
    requires forall i :: 0 <= i < |rules| ==> IsLowerCase(rules[i].1)
    ensures ReplaceAll(Lower(s), rules) == Lower(ReplaceAll(s, rules))
    decreases |rules|
  {
    if |rules| > 0 {
      ReplaceLower(s, rules[0].0, rules[0].1);
      ReplaceAllLower(Replace(s, rules[0].0, rules[0].1), rules[1..]);
    }
  }

  /** A text without an apostrophe has no contraction to expand. */
  lemma ReplaceContractionsIdentity(text: string)
    requires '\'' !in text
    ensures ReplaceContractions(text) == text
  {
    assert forall i :: 0 <= i < |Contractions| ==> '\'' in Contractions[i].0 by {
      assert Contractions[0].0[1] == '\'';
    }
    ReplaceAllNoApostrophe(text, Contractions);
  }

  /** Contractions are recognised whatever the case of their letters: expanding
      the lower-cased text gives the lower-cased expansion. */
  lemma ReplaceContractionsLower(text: string)
    ensures ReplaceContractions(Lower(text)) == Lower(ReplaceContractions(text))
  {
    ReplaceAllLower(text, Contractions);
  }

  predicate WordOnly(s: string) {
    forall i :: 0 <= i < |s| ==> IsWordChar(s[i])
  }

  /** The end of the run of word characters starting at `i`. */
  function WordEnd(s: string, i: nat): (j: nat)
    requires i <= |s|
    ensures i <= j <= |s|
    ensures forall k :: i <= k < j ==> IsWordChar(s[k])
    ensures j < |s| ==> !IsWordChar(s[j])
    decreases |s| - i
  {
    if i == |s| || !IsWordChar(s[i]) then i else WordEnd(s, i + 1)
  }

  /** The end of the run of non-word characters starting at `i`. */
  function NonWordEnd(s: string, i: nat): (j: nat)
    requires i <= |s|
    ensures i <= j <= |s|
    ensures forall k :: i <= k < j ==> !IsWordChar(s[k])
    ensures j < |s| ==> IsWordChar(s[j])
    decreases |s| - i
  {
    if i == |s| || IsWordChar(s[i]) then i else NonWordEnd(s, i + 1)
  }

  /** `s.split(/\W+/)`: the text between maximal runs of non-word characters,
      empty pieces kept (see `SplitShape`). */
  function Split(s: string): (r: seq<string>)
    ensures |r| >= 1
    decreases |s|
  {
    var n := WordEnd(s, 0);
    if n == |s| then [s] else [s[..n]] + Split(s[NonWordEnd(s, n)..])
  }

  /** One step of `Split`: the leading word run, then the non-word run after it. */
  lemma SplitUnfold(s: string) returns (n: nat, k: nat)
    requires WordEnd(s, 0) < |s|
    ensures n == WordEnd(s, 0) && n < k <= |s|
    ensures Split(s) == [s[..n]] + Split(s[k..])
    ensures forall i :: n <= i < k ==> !IsWordChar(s[i])
    ensures k < |s| ==> IsWordChar(s[k])
  {
    n := WordEnd(s, 0);
    k := NonWordEnd(s, n);
  }

  /** The first piece of `split(/\W+/)` is empty exactly when the text is
      empty or starts with a non-word character. */
  lemma SplitFirst(s: string)
    ensures |Split(s)[0]| == 0 <==> |s| == 0 || !IsWordChar(s[0])
  {
    if WordEnd(s, 0) == |s| {
      assert Split(s) == [s];
    } else {
      var n, k := SplitUnfold(s);
    }
  }

  /** What `split(/\W+/)` returns: at least one piece, word characters only,
      no empty piece except possibly the first and the last; the last piece is
      empty exactly when the text is empty or ends with a non-word character. */
  lemma {:induction false} SplitShape(s: string)
    ensures SplitShaped(Split(s))
    ensures |Split(s)[|Split(s)| - 1]| == 0 <==> |s| == 0 || !IsWordChar(s[|s| - 1])
    decreases |s|
  {
    if WordEnd(s, 0) == |s| {
      assert Split(s) == [s];
    } else {
      var n, k := SplitUnfold(s);
      var t := s[k..];
      SplitShape(t);
      SplitFirst(t);
      var r := Split(s);
      assert r[1..] == Split(t);
      assert forall i :: 1 <= i < |r| ==> r[i] == Split(t)[i - 1];
      if |t| > 0 {
        assert t[|t| - 1] == s[|s| - 1];
        assert t[0] == s[k];
      }
    }
  }

  /** The word characters of `s`, in order. */
  function WordChars(s: string): string {
    if |s| == 0 then []
    else if IsWordChar(s[0]) then [s[0]] + WordChars(s[1..])
    else WordChars(s[1..])
  }

  lemma {:induction false} WordCharsAppend(a: string, b: string)
    ensures WordChars(a + b) == WordChars(a) + WordChars(b)
    decreases |a|
  {
    if |a| > 0 {
      assert (a + b)[1..] == a[1..] + b;
      WordCharsAppend(a[1..], b);
    } else {
      assert a + b == b;
    }
  }

  lemma {:induction false} WordCharsOfWordOnly(s: string)
    requires WordOnly(s)
    ensures WordChars(s) == s
    decreases |s|
  {
    if |s| > 0 {
      WordCharsOfWordOnly(s[1..]);
    }
  }

  lemma {:induction false} WordCharsOfNonWord(s: string)
    requires forall i :: 0 <= i < |s| ==> !IsWordChar(s[i])
    ensures WordChars(s) == []
    decreases |s|
  {
    if |s| > 0 {
      WordCharsOfNonWord(s[1..]);
    }
  }

  lemma WordCharsStep(s: string, n: nat, k: nat)
    requires n <= k <= |s|
    requires forall i :: 0 <= i < n ==> IsWordChar(s[i])
    requires forall i :: n <= i < k ==> !IsWordChar(s[i])
    ensures WordChars(s) == s[..n] + WordChars(s[k..])
  {
    var a, b, t := s[..n], s[n..k], s[k..];
    WordCharsOfWordOnly(a);
    assert forall i :: 0 <= i < |b| ==> b[i] == s[n + i];
    WordCharsOfNonWord(b);
    WordCharsSkip(s, n, k);
  }

  lemma WordCharsSkip(s: string, n: nat, k: nat)
    requires n <= k <= |s|
    requires WordChars(s[..n]) == s[..n] && WordChars(s[n..k]) == []
    ensures WordChars(s) == s[..n] + WordChars(s[k..])
  {
    SliceThree(s, n, k);
    WordCharsSplice(s, s[..n], s[n..k], s[k..]);
  }

  /** Dropping a part without word characters after a word-only part. */
  lemma WordCharsSplice(s: string, a: string, b: string, t: string)
    requires s == a + b + t
    requires WordChars(a) == a && WordChars(b) == []
    ensures WordChars(s) == a + WordChars(t)
  {
    WordCharsAppend(a, b);
    WordCharsAppend(a + b, t);
    AppendNil(a);
  }

  /** The pieces hold exactly the word characters of the text, in order. */
  lemma {:induction false} SplitKeepsWordChars(s: string)
    ensures Flatten(Split(s)) == WordChars(s)
    decreases |s|
  {
    if WordEnd(s, 0) == |s| {
      WordCharsOfWordOnly(s);
    } else {
      var n, k := SplitUnfold(s);
      SplitKeepsWordChars(s[k..]);
      WordCharsStep(s, n, k);
      assert Split(s)[1..] == Split(s[k..]);
    }
  }

  /** Pieces joined with one space between neighbours. */
  function JoinSpaced(ws: seq<string>): (r: string)
    requires |ws| >= 1
    ensures |ws[0]| <= |r| && r[..|ws[0]|] == ws[0]
    ensures |ws| > 1 ==> |r| > |ws[0]| && r[|ws[0]|] == ' '
  {
    if |ws| == 1 then ws[0] else ws[0] + " " + JoinSpaced(ws[1..])
  }

  /** What `Split` can return: at least one piece, word characters only,
      no empty piece except possibly the first and the last. */
  predicate SplitShaped(ws: seq<string>) {
    && |ws| >= 1
    && (forall i :: 0 <= i < |ws| ==> WordOnly(ws[i]))
    && (forall i :: 0 < i < |ws| - 1 ==> |ws[i]| > 0)
  }

  /** The word run is determined by where the first non-word character sits. */
  lemma WordEndIs(s: string, k: nat)
    requires k <= |s| && (forall i :: 0 <= i < k ==> IsWordChar(s[i]))
    requires k == |s| || !IsWordChar(s[k])
    ensures WordEnd(s, 0) == k
  {
  }

  /** Every split-shaped list is recovered by splitting its space-joined text. */
  lemma {:induction false} SplitJoinSpaced(ws: seq<string>)
    requires SplitShaped(ws)
    ensures Split(JoinSpaced(ws)) == ws
    decreases |ws|
  {
    var s := JoinSpaced(ws);
    var w := ws[0];
    if |ws| == 1 {
      WordEndIs(s, |s|);
    } else {
      var j := JoinSpaced(ws[1..]);
      assert s == w + " " + j;
      assert forall i :: 0 <= i < |w| ==> s[i] == w[i];
      WordEndIs(s, |w|);
      var n, k := SplitUnfold(s);
      assert |ws[1]| > 0 || |ws| == 2;
      if |ws[1]| > 0 {
        assert IsWordChar(ws[1][0]);
        assert j[..|ws[1]|] == ws[1];
        assert s[|w| + 1] == j[0];
      }
      assert k == |w| + 1;
      assert s[|w| + 1..] == j;
      assert SplitShaped(ws[1..]) by {
        assert forall i :: 0 <= i < |ws| - 1 ==> ws[1..][i] == ws[i + 1];
      }
      SplitJoinSpaced(ws[1..]);
      assert ws == [w] + ws[1..];
    }
  }

  /** A text whose non-word characters are single spaces, never two in a row. */
  predicate SingleSpaced(s: string) {
    forall i :: 0 <= i < |s| && !IsWordChar(s[i]) ==>
      s[i] == ' ' && (i + 1 < |s| ==> IsWordChar(s[i + 1]))
  }

  /** Such a text is recovered by joining its pieces with spaces. */
  lemma {:induction false} JoinSpacedSplit(s: string)
    requires SingleSpaced(s)
    ensures JoinSpaced(Split(s)) == s
    decreases |s|
  {
    if WordEnd(s, 0) == |s| {
      assert Split(s) == [s];
    } else {
      var n, k := SplitUnfold(s);
      assert s[n] == ' ';
      assert n + 1 < |s| ==> IsWordChar(s[n + 1]);
      assert k == n + 1;
      var t := s[n + 1..];
      assert SingleSpaced(t) by {
        forall i | 0 <= i < |t| && !IsWordChar(t[i])
          ensures t[i] == ' ' && (i + 1 < |t| ==> IsWordChar(t[i + 1]))
        {
          assert t[i] == s[n + 1 + i];
        }
      }
      JoinSpacedSplit(t);
      assert Split(s)[1..] == Split(t);
      assert s == s[..n] + " " + t;
    }
  }

  /** A separator of `split(/\W+/)`: a non-empty run of non-word characters. */
  predicate NonWordRun(t: string) {
    |t| > 0 && forall i :: 0 <= i < |t| ==> !IsWordChar(t[i])
  }

  /** Pieces with the separators put back between neighbours. */
  function Interleave(ws: seq<string>, seps: seq<string>): (r: string)
    requires |ws| == |seps| + 1
    ensures |ws[0]| <= |r| && r[..|ws[0]|] == ws[0]
    decreases |seps|
  {
    if |seps| == 0 then ws[0] else ws[0] + seps[0] + Interleave(ws[1..], seps[1..])
  }

  /** Every text is its pieces put back together with the maximal non-word
      runs that `split(/\W+/)` removed, one run between each two neighbours. */
  lemma {:induction false} SplitInterleaves(s: string) returns (seps: seq<string>)
    ensures |seps| + 1 == |Split(s)|
    ensures forall i :: 0 <= i < |seps| ==> NonWordRun(seps[i])
    ensures Interleave(Split(s), seps) == s
    decreases |s|
  {
    if WordEnd(s, 0) == |s| {
      seps := [];
      assert Split(s) == [s];
    } else {
      var n, k := SplitUnfold(s);
      var rest := SplitInterleaves(s[k..]);
      seps := PutBackRun(s, n, k, Split(s[k..]), rest);
    }
  }

  /** One step of `SplitInterleaves`: the run between the first piece and
      the rest goes in front of the rest's separators. */
  lemma PutBackRun(s: string, n: nat, k: nat, ws: seq<string>, rest: seq<string>)
    returns (seps: seq<string>)
    requires n < k <= |s| && (forall i :: n <= i < k ==> !IsWordChar(s[i]))
    requires |ws| == |rest| + 1 && Interleave(ws, rest) == s[k..]
    requires forall i :: 0 <= i < |rest| ==> NonWordRun(rest[i])
    ensures |seps| == |rest| + 1
    ensures forall i :: 0 <= i < |seps| ==> NonWordRun(seps[i])
    ensures Interleave([s[..n]] + ws, seps) == s
  {
    seps := [s[n..k]] + rest;
    assert NonWordRun(s[n..k]) by {
      assert forall i :: 0 <= i < k - n ==> s[n..k][i] == s[n + i];
    }
    assert forall i :: 1 <= i < |seps| ==> seps[i] == rest[i - 1];
    InterleaveCons(s[..n], s[n..k], ws, rest);
    assert s == s[..n] + s[n..k] + s[k..];
  }

  /** Putting back a first piece and separator in front. */
  lemma InterleaveCons(w: string, d: string, ws: seq<string>, seps: seq<string>)
    requires |ws| == |seps| + 1
    ensures Interleave([w] + ws, [d] + seps) == w + d + Interleave(ws, seps)
  {
    assert ([w] + ws)[1..] == ws;
    assert ([d] + seps)[1..] == seps;
  }

  /** The non-word run is determined by where the next word character sits. */
  lemma NonWordEndIs(s: string, n: nat, k: nat)
    requires n <= k <= |s| && (forall i :: n <= i < k ==> !IsWordChar(s[i]))
    requires k == |s| || IsWordChar(s[k])
    ensures NonWordEnd(s, n) == k
    decreases k - n
  {
    if n < k {
      NonWordEndIs(s, n + 1, k);
    }
  }

  /** One step of `SplitUnique`: the first piece and separator are the first
      word run and the non-word run after it. */
  lemma InterleaveUnfold(ws: seq<string>, seps: seq<string>)
    requires SplitShaped(ws) && |ws| == |seps| + 1 && |seps| > 0
    requires forall i :: 0 <= i < |seps| ==> NonWordRun(seps[i])
    ensures Split(Interleave(ws, seps))
              == [ws[0]] + Split(Interleave(ws[1..], seps[1..]))
  {
    var s := Interleave(ws, seps);
    var w, d := ws[0], seps[0];
    var rest := Interleave(ws[1..], seps[1..]);
    assert s == w + d + rest;
    assert forall i :: 0 <= i < |w| ==> s[i] == w[i];
    assert s[|w|] == d[0];
    WordEndIs(s, |w|);
    assert forall i :: |w| <= i < |w| + |d| ==> s[i] == d[i - |w|];
    if |ws[1]| > 0 {
      assert rest[..|ws[1]|] == ws[1];
      assert s[|w| + |d|] == rest[0];
    } else {
      assert |ws| == 2;
      assert rest == ws[1];
    }
    NonWordEndIs(s, |w|, |w| + |d|);
    var n, k := SplitUnfold(s);
    assert s[k..] == rest;
    assert s[..n] == w;
  }

  /** The converse of `SplitInterleaves`: any split-shaped pieces that, put
      back together with non-empty non-word separators, give the text are
      exactly what `split(/\W+/)` returns. */
  lemma {:induction false} SplitUnique(s: string, ws: seq<string>, seps: seq<string>)
    requires SplitShaped(ws) && |ws| == |seps| + 1
    requires forall i :: 0 <= i < |seps| ==> NonWordRun(seps[i])
    requires Interleave(ws, seps) == s
    ensures Split(s) == ws
    decreases |seps|
  {
    if |seps| == 0 {
      WordEndIs(s, |s|);
    } else {
      InterleaveUnfold(ws, seps);
      assert SplitShaped(ws[1..]) by {
        assert forall i :: 0 <= i < |ws| - 1 ==> ws[1..][i] == ws[i + 1];
      }
      assert forall i :: 0 <= i < |seps| - 1 ==> seps[1..][i] == seps[i + 1];
      SplitUnique(Interleave(ws[1..], seps[1..]), ws[1..], seps[1..]);
      assert ws == [ws[0]] + ws[1..];
    }
  }

  /** `tokenize`: contractions expanded, then split on runs of non-word characters. */
  function Tokenize(text: string): (r: seq<string>)
    ensures SplitShaped(r)
  {
    SplitShape(ReplaceContractions(text));
    Split(ReplaceContractions(text))
  }

  /** The tokens hold exactly the word characters of the expanded text. */
  lemma TokenizeKeepsWordChars(text: string)
    ensures Flatten(Tokenize(text)) == WordChars(ReplaceContractions(text))
  {
    SplitKeepsWordChars(ReplaceContractions(text));
  }

  /** The tokens are the pieces of the expanded text between its maximal runs
      of non-word characters: putting the runs back gives the text. */
  lemma TokenizeInterleaves(text: string) returns (seps: seq<string>)
    ensures |seps| + 1 == |Tokenize(text)|
    ensures forall i :: 0 <= i < |seps| ==> NonWordRun(seps[i])
    ensures Interleave(Tokenize(text), seps) == ReplaceContractions(text)
  {
    seps := SplitInterleaves(ReplaceContractions(text));
  }

  /** No other token list fits: pieces and runs that rebuild the expanded text
      are the tokens. */
  lemma TokenizeUnique(text: string, ws: seq<string>, seps: seq<string>)
    requires SplitShaped(ws) && |ws| == |seps| + 1
    requires forall i :: 0 <= i < |seps| ==> NonWordRun(seps[i])
    requires Interleave(ws, seps) == ReplaceContractions(text)
    ensures Tokenize(text) == ws
  {
    SplitUnique(ReplaceContractions(text), ws, seps);
  }
}
