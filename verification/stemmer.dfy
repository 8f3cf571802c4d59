/** The Porter-style stemmer of `english-stemmer.js`: steps 1 to 5 of Porter's
    1980 algorithm, written with regular expressions in the source and here as
    functions over strings, followed by the non-Porter step 6.

    Every `^(.+?)(alts)$` of the source becomes `LazySplit(w, alts)`: the
    shortest non-empty prefix (free of line terminators, which `.` does not
    match) whose remainder is one of the alternatives, i.e. the longest
    alternative that leaves a non-empty prefix. */
module Stemmer {
  import opened Chars
  import opened Options
  import opened Measure

  // ---------------------------------------------------------------------------
  // Matching `^(.+?)(alts)$`

  /** Characters that `.` in a regular expression does not match. */
  predicate IsLineTerminator(c: char) {
    c == '\n' || c == '\r' || c as int == 0x2028 || c as int == 0x2029
  }

  /** No line terminator in `s[a..b]`. */
  predicate LineFree(s: string, a: nat, b: nat)
    requires a <= b <= |s|
  {
    forall k :: a <= k < b ==> !IsLineTerminator(s[k])
  }

  predicate EndsWith(s: string, suffix: string) {
    |suffix| <= |s| && s[|s| - |suffix|..] == suffix
  }

  /** `m` is where `^(.+?)(alts)$` splits `w`: `w[..m]` is non-empty and
      matches `.+`, `w[m..]` is an alternative, and no shorter prefix works. */
  ghost predicate IsLazySplit(w: string, alts: set<string>, m: nat) {
    1 <= m <= |w| && LineFree(w, 0, m) && w[m..] in alts
    && forall k :: 1 <= k < m ==> w[k..] !in alts
  }

  /** The split point chosen by `^(.+?)(alts)$`, or `None` when it does not match. */
  function LazySplit(w: string, alts: set<string>): (r: Option<nat>)
    ensures r.Some? ==> IsLazySplit(w, alts, r.value)
    ensures r.None? ==> forall m :: 1 <= m <= |w| && LineFree(w, 0, m) ==> w[m..] !in alts
  {
    LazyFrom(w, alts, 1)
  }

  function LazyFrom(w: string, alts: set<string>, n: nat): (r: Option<nat>)
    requires 1 <= n <= |w| + 1 && LineFree(w, 0, n - 1)
    requires forall k :: 1 <= k < n ==> w[k..] !in alts
    ensures r.Some? ==> IsLazySplit(w, alts, r.value)
    ensures r.None? ==> forall m :: 1 <= m <= |w| && LineFree(w, 0, m) ==> w[m..] !in alts
    decreases |w| + 1 - n
  {
    if n > |w| || IsLineTerminator(w[n - 1]) then None
    else if w[n..] in alts then Some(n)
    else LazyFrom(w, alts, n + 1)
  }

  /** The split is unique: any split point meeting the definition is the one found. */
  lemma LazySplitIs(w: string, alts: set<string>, m: nat)
    requires IsLazySplit(w, alts, m)
    ensures LazySplit(w, alts) == Some(m)
  {
  }

  /** For a single alternative the split, when there is one, sits right before it. */
  lemma LazySplitSuffix(w: string, suffix: string)
    requires |suffix| < |w| && EndsWith(w, suffix) && LineFree(w, 0, |w| - |suffix|)
    ensures LazySplit(w, {suffix}) == Some(|w| - |suffix|)
  {
    LazySplitIs(w, {suffix}, |w| - |suffix|);
  }

  // ---------------------------------------------------------------------------
  // Step 1

  /** Step 1a: `sses`/`ies` lose their final `es` minus one letter, and a
      final `s` after another letter goes. */
  function Step1a(w: string): (r: string)
    ensures |w| - 2 <= |r| <= |w| && r == w[..|r|]
    ensures ((|w| >= 5 && EndsWith(w, "sses") && LineFree(w, 0, |w| - 4))
             || (|w| >= 4 && EndsWith(w, "ies") && LineFree(w, 0, |w| - 3))) <==> |r| == |w| - 2
    ensures |r| == |w| - 1 <==>
              |r| != |w| - 2 && |w| >= 3 && w[|w| - 1] == 's' && w[|w| - 2] != 's' && LineFree(w, 0, |w| - 2)
  {
    if LazySplit(w, {"sses", "ies"}).Some? then w[..|w| - 2]
    else if |w| >= 3 && w[|w| - 1] == 's' && w[|w| - 2] != 's' && LineFree(w, 0, |w| - 2) then w[..|w| - 1]
    else w
  }

  /** `[^aeiouylsz]`: letters whose doubling is undone after `ed`/`ing` goes. */
  predicate Undoubles(c: char) {
    !IsVowelOrY(c) && c != 'l' && c != 's' && c != 'z'
  }

  /** The repair of step 1b after `ed` or `ing` has gone. */
  function Restore(p: string): (r: string)
    ensures r == p + "e" || (|p| > 0 && r == p[..|p| - 1]) || r == p
    ensures r == p + "e" <==> EndsWith(p, "at") || EndsWith(p, "bl") || EndsWith(p, "iz") || ConsonantLike(p)
    ensures |p| > 0 && r == p[..|p| - 1] <==>
              !(EndsWith(p, "at") || EndsWith(p, "bl") || EndsWith(p, "iz"))
              && |p| >= 2 && p[|p| - 1] == p[|p| - 2] && Undoubles(p[|p| - 1])
  {
    if EndsWith(p, "at") || EndsWith(p, "bl") || EndsWith(p, "iz") then p + "e"
    else if |p| >= 2 && p[|p| - 1] == p[|p| - 2] && Undoubles(p[|p| - 1]) then p[..|p| - 1]
    else if ConsonantLike(p) then p + "e"
    else p
  }

  /** One `eed` / `ed|ing` pass of step 1; only the first pass repairs the stem. */
  function EedEdIng(w: string, repair: bool): string {
    match LazySplit(w, {"eed"})
    case Some(m) => if Gt0(w[..m]) then w[..|w| - 1] else w
    case None =>
      match LazySplit(w, {"ed", "ing"})
      case Some(m) =>
        if VowelInStem(w[..m]) then (if repair then Restore(w[..m]) else w[..m]) else w
      case None => w
  }

  /** Step 1c: a final `y` becomes `i` when the rest holds a vowel. */
  function Step1c(w: string): (r: string)
    ensures |r| == |w|
    ensures r != w ==> |w| >= 2 && w[|w| - 1] == 'y' && r == w[..|w| - 1] + "i"
  {
    match LazySplit(w, {"y"})
    case Some(m) => if VowelInStem(w[..m]) then w[..m] + "i" else w
    case None => w
  }

  /** Step 1c changes the word exactly when it ends in `y` after a stem with
      no line terminator that holds a vowel. */
  lemma Step1cRule(w: string)
    ensures Step1c(w) != w <==>
              |w| >= 2 && w[|w| - 1] == 'y' && LineFree(w, 0, |w| - 1)
              && exists k :: 0 <= k < |w| - 1 && IsVowelOrY(w[k])
  {
    if |w| >= 2 && w[|w| - 1] == 'y' && LineFree(w, 0, |w| - 1) {
      LazySplitSuffix(w, "y");
      VowelInStemDecides(w[..|w| - 1]);
      assert forall k :: 0 <= k < |w| - 1 ==> w[..|w| - 1][k] == w[k];
    }
  }

  function Step1(w: string): string {
    Step1c(EedEdIng(EedEdIng(Step1a(w), true), false))
  }

  /** An `eed` ending loses its `d` exactly when the stem before it has m > 0,
      and the `ed|ing` rule is then not tried. */
  lemma EedRule(w: string, repair: bool)
    requires |w| > 3 && EndsWith(w, "eed") && LineFree(w, 0, |w| - 3)
    ensures EedEdIng(w, repair) == if Gt0Regex(w[..|w| - 3]) then w[..|w| - 1] else w
  {
    LazySplitSuffix(w, "eed");
    Gt0Decides(w[..|w| - 3]);
  }

  /** Without an `eed` match, `ed` or `ing` goes exactly when the stem before
      it holds a vowel; the first pass then repairs the stem. */
  lemma EdIngRule(w: string, repair: bool, suffix: string)
    requires suffix == "ed" || suffix == "ing"
    requires |w| > |suffix| && EndsWith(w, suffix) && LineFree(w, 0, |w| - |suffix|)
    requires !EndsWith(w, "eed")
    ensures var p := w[..|w| - |suffix|];
            EedEdIng(w, repair) == if !VowelInStemRegex(p) then w else if repair then Restore(p) else p
  {
    var m := |w| - |suffix|;
    assert w[m..] in {"ed", "ing"};
    forall k | 1 <= k < m
      ensures w[k..] !in {"ed", "ing"}
    {
      assert |w[k..]| > |suffix|;
      assert w[k..][|w[k..]| - 1] == w[|w| - 1] == suffix[|suffix| - 1];
    }
    LazySplitIs(w, {"ed", "ing"}, m);
    VowelInStemDecides(w[..m]);
  }

  /** A word with neither ending passes through a step 1b pass unchanged. */
  lemma EedEdIngNoSuffix(w: string, repair: bool)
    requires !EndsWith(w, "ed") && !EndsWith(w, "ing")
    ensures EedEdIng(w, repair) == w
  {
    SplitEndsWith(w, {"eed"});
    SplitEndsWith(w, {"ed", "ing"});
    assert EndsWith(w, "eed") ==> EndsWith(w, "ed") by {
      if |w| >= 3 {
        assert w[|w| - 2..] == w[|w| - 3..][1..];
      }
    }
  }

  /** When `^(.+?)(alts)$` matches, the word ends with one of the alternatives. */
  lemma SplitEndsWith(w: string, alts: set<string>)
    ensures LazySplit(w, alts).Some? ==> exists a :: a in alts && EndsWith(w, a)
  {
    match LazySplit(w, alts)
    case Some(m) =>
      assert w[|w| - |w[m..]|..] == w[m..];
      assert w[m..] in alts && EndsWith(w, w[m..]);
    case None =>
  }

  // ---------------------------------------------------------------------------
  // Steps 2 and 3

  /** A suffix table as the stemmer's step 2 and step 3 tables are: non-empty,
      with keys of lower-case ASCII letters, so that joining the keys with `|`
      builds an alternation of literal suffixes. */
  predicate ValidTable(t: map<string, string>) {
    |t| > 0 && forall k :: k in t ==> |k| > 0 && forall i :: 0 <= i < |k| ==> 'a' <= k[i] <= 'z'
  }

  /** `stepRegList`: the longest table suffix leaving a non-empty stem with
      m > 0 is replaced by its table entry. */
  function StepRegList(w: string, t: map<string, string>): (r: string)
    requires ValidTable(t)
    ensures r == w || exists m: nat :: IsLazySplit(w, t.Keys, m) && Gt0(w[..m]) && r == w[..m] + t[w[m..]]
  {
    match LazySplit(w, t.Keys)
    case Some(m) =>
      if Gt0(w[..m]) then w[..m] + t[w[m..]] else w
    case None => w
  }

  /** The split point of a table is never the end of the word, since keys are non-empty. */
  lemma TableSplitProper(w: string, t: map<string, string>, m: nat)
    requires ValidTable(t) && IsLazySplit(w, t.Keys, m)
    ensures m < |w|
  {
    assert |w[m..]| > 0;
  }

  /** The other direction: whenever a key splits the word, the stem decides. */
  lemma StepRegListSplit(w: string, t: map<string, string>, m: nat)
    requires ValidTable(t) && IsLazySplit(w, t.Keys, m)
    ensures StepRegList(w, t) == if Gt0Regex(w[..m]) then w[..m] + t[w[m..]] else w
  {
    LazySplitIs(w, t.Keys, m);
    Gt0Decides(w[..m]);
  }

  /** When no proper prefix has m > 0 the step leaves the word alone, whatever the table. */
  lemma StepRegListShortStem(w: string, t: map<string, string>)
    requires ValidTable(t)
    requires forall m :: 1 <= m < |w| ==> !Gt0(w[..m])
    ensures StepRegList(w, t) == w
  {
    match LazySplit(w, t.Keys)
    case Some(m) => TableSplitProper(w, t, m);
    case None =>
  }

  function Step2(w: string, t2: map<string, string>): string
    requires ValidTable(t2)
  {
    StepRegList(w, t2)
  }

  function Step3(w: string, t3: map<string, string>): string
    requires ValidTable(t3)
  {
    StepRegList(w, t3)
  }

  // ---------------------------------------------------------------------------
  // Steps 4 to 6

  const Step4Suffixes: set<string> := {
    "al", "ance", "ence", "er", "ic", "able", "ible", "ant", "ement",
    "ment", "ent", "ou", "ism", "ate", "iti", "ous", "ive", "ize"
  }

  /** `(s|t)ion` after a non-empty stem. */
  predicate EndsSionTion(w: string) {
    |w| >= 5 && EndsWith(w, "ion") && (w[|w| - 4] == 's' || w[|w| - 4] == 't') && LineFree(w, 0, |w| - 4)
  }

  /** Step 4: a listed suffix, or the `ion` of `sion`/`tion`, goes when the
      stem left has m > 1. */
  function Step4(w: string): (r: string)
    ensures |r| <= |w| && r == w[..|r|]
    ensures r != w ==> Gt1(r)
  {
    var r := match LazySplit(w, Step4Suffixes)
      case Some(m) => if Gt1(w[..m]) then w[..m] else w
      case None => if EndsSionTion(w) && Gt1(w[..|w| - 3]) then w[..|w| - 3] else w;
    r
  }

  /** With a listed suffix the stem decides alone and `(s|t)ion` is not tried. */
  lemma Step4Listed(w: string, m: nat)
    requires IsLazySplit(w, Step4Suffixes, m)
    ensures Step4(w) == if Gt1Regex(w[..m]) then w[..m] else w
  {
    LazySplitIs(w, Step4Suffixes, m);
    Gt1Decides(w[..m]);
  }

  /** No listed suffix splits the word: only `(s|t)ion` can go. */
  lemma Step4Ion(w: string)
    requires forall m :: 1 <= m <= |w| && LineFree(w, 0, m) ==> w[m..] !in Step4Suffixes
    ensures Step4(w) == if EndsSionTion(w) && Gt1Regex(w[..|w| - 3]) then w[..|w| - 3] else w
  {
    if EndsSionTion(w) {
      Gt1Decides(w[..|w| - 3]);
    }
  }

  /** The `e` rule of step 5: a final `e` goes when the stem has m > 1, or
      m == 1 and the stem does not end consonant-vowel-consonant. */
  function DropFinalE(w: string): (r: string)
    ensures r == w || (EndsWith(w, "e") && r == w[..|w| - 1])
    ensures r != w ==> Gt1(r) || (Eq1(r) && !ConsonantLike(r))
  {
    match LazySplit(w, {"e"})
    case Some(m) =>
      var p := w[..m];
      if Gt1(p) || (Eq1(p) && !ConsonantLike(p)) then p else w
    case None => w
  }

  /** Step 5: the `e` rule, then `ll` becomes `l` when the word has m > 1. */
  function Step5(w: string): (r: string)
    ensures |w| - 2 <= |r| <= |w| && r == w[..|r|]
  {
    var v := DropFinalE(w);
    if EndsWith(v, "ll") && Gt1(v) then v[..|v| - 1] else v
  }

  lemma DropFinalERule(w: string)
    requires |w| >= 2 && EndsWith(w, "e") && LineFree(w, 0, |w| - 1)
    ensures var p := w[..|w| - 1];
            DropFinalE(w) == if Gt1Regex(p) || (Eq1Regex(p) && !ConsonantLikeRegex(p)) then p else w
  {
    var p := w[..|w| - 1];
    LazySplitSuffix(w, "e");
    assert DropFinalE(w) == if Gt1(p) || (Eq1(p) && !ConsonantLike(p)) then p else w;
    Gt1Decides(p);
    Eq1Decides(p);
    ConsonantLikeDecides(p);
  }

  /** The double `l` is undone only in a word with m > 1. */
  lemma Step5DoubleL(w: string)
    ensures var v := DropFinalE(w);
            Step5(w) == if EndsWith(v, "ll") && Gt1Regex(v) then v[..|v| - 1] else v
  {
    Gt1Decides(DropFinalE(w));
  }

  /** A word none of whose proper prefixes has m > 0, and which itself has
      m <= 1, comes through steps 2 to 5 unchanged, whatever the tables. */
  lemma ShortStemsUnchanged(w: string, t2: map<string, string>, t3: map<string, string>)
    requires ValidTable(t2) && ValidTable(t3)
    requires forall m :: 1 <= m < |w| ==> !Gt0(w[..m])
    requires !Gt1(w)
    ensures Step5(Step4(Step3(Step2(w, t2), t3))) == w
  {
    StepRegListShortStem(w, t2);
    StepRegListShortStem(w, t3);
    Step4ShortStems(w);
    Step5ShortStems(w);
  }

  lemma Step4ShortStems(w: string)
    requires forall m :: 1 <= m < |w| ==> !Gt0(w[..m])
    ensures Step4(w) == w
  {
    var r := Step4(w);
    assert r == w[..|r|];
    assert |r| == |w| || !Gt1(w[..|r|]);
  }

  lemma Step5ShortStems(w: string)
    requires forall m :: 1 <= m < |w| ==> !Gt0(w[..m])
    requires !Gt1(w)
    ensures Step5(w) == w
  {
    var v := DropFinalE(w);
    assert |v| == |w| || !Gt0(w[..|v|]);
  }

  /** Step 6, outside Porter's algorithm: `your` and `are` in any case become `you` and `is`. */
  function Step6(w: string): (r: string)
    ensures Lower(w) == "your" ==> r == "you"
    ensures Lower(w) == "are" ==> r == "is"
    ensures Lower(w) != "your" && Lower(w) != "are" ==> r == w
  {
    var l := Lower(w);
    if l == "your" then "you" else if l == "are" then "is" else w
  }

  // ---------------------------------------------------------------------------
  // The whole token

  /** A leading `y` is written `Y`, which no measure test counts as a vowel. */
  function MarkY(v: string): (r: string)
    requires |v| > 0
    ensures |r| == |v| && r[1..] == v[1..]
    ensures !IsVowelOrY(r[0]) || IsVowel(r[0])
    ensures r[0] == v[0] || (v[0] == 'y' && r[0] == 'Y')
  {
    if v[0] == 'y' then ['Y'] + v[1..] else v
  }

  function Steps(w: string, t2: map<string, string>, t3: map<string, string>): string
    requires ValidTable(t2) && ValidTable(t3)
  {
    Step6(Step5(Step4(Step3(Step2(Step1(w), t2), t3))))
  }

  /** `stemToken`: lower-case and trim, then stem. */
  function StemToken(input: string, t2: map<string, string>, t3: map<string, string>): (r: string)
    requires ValidTable(t2) && ValidTable(t3)
    ensures IsLowerCase(r)
    ensures |Trim(Lower(input))| < 3 ==> r == Trim(Lower(input))
  {
    TrimLowerCase(Lower(input));
    StemNormalized(Trim(Lower(input)), t2, t3)
  }

  /** A lower-cased, trimmed token of fewer than three letters is returned as
      it is; a longer one goes through the six steps with its `y` marked. */
  function StemNormalized(v: string, t2: map<string, string>, t3: map<string, string>): (r: string)
    requires ValidTable(t2) && ValidTable(t3)
    ensures IsLowerCase(v) ==> IsLowerCase(r)
    ensures |v| < 3 ==> r == v
  {
    if |v| < 3 then v else Lower(Steps(MarkY(v), t2, t3))
  }

  /** The `Y` marker is invisible once the result is lower-cased: the marked
      token lower-cases back to the token. */
  lemma MarkYLowers(v: string)
    requires |v| > 0 && IsLowerCase(v)
    ensures Lower(MarkY(v)) == v
  {
  }

  /** `stem`: one token or an array of tokens, stemmed one by one. */
  datatype StemArg = Token(token: string) | Tokens(tokens: seq<string>)

  function Stem(arg: StemArg, t2: map<string, string>, t3: map<string, string>): (r: seq<string>)
    requires ValidTable(t2) && ValidTable(t3)
    ensures arg.Token? ==> |r| == 1
    ensures arg.Tokens? ==> |r| == |arg.tokens|
    ensures arg.Token? ==> r == [StemToken(arg.token, t2, t3)]
    ensures arg.Tokens? ==> forall i :: 0 <= i < |r| ==> r[i] == StemToken(arg.tokens[i], t2, t3)
    ensures forall i :: 0 <= i < |r| ==> IsLowerCase(r[i])
  {
    match arg
    case Token(w) => [StemToken(w, t2, t3)]
    case Tokens(ws) => seq(|ws|, i requires 0 <= i < |ws| => StemToken(ws[i], t2, t3))
  }
}
