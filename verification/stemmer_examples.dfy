/** Worked examples of the stemmer, most of them from Porter's paper. The
    examples that run the whole pipeline hold for every pair of suffix tables,
    because every proper stem of the word they reach has m == 0. */
module StemmerExamples {
  import opened Chars
  import opened Measure
  import opened Stemmer

  // ---------------------------------------------------------------------------
  // Step 1

  lemma Step1Caresses()
    ensures Step1("caresses") == "caress"
  {
    assert LineFree("caresses", 0, 4) && EndsWith("caresses", "sses");
    assert "caresses"[..6] == "caress";
    EedEdIngNoSuffix("caress", true);
    EedEdIngNoSuffix("caress", false);
  }

  lemma Step1Ponies()
    ensures Step1("ponies") == "poni"
  {
    assert LineFree("ponies", 0, 3) && EndsWith("ponies", "ies");
    assert "ponies"[..4] == "poni";
    EedEdIngNoSuffix("poni", true);
    EedEdIngNoSuffix("poni", false);
  }

  lemma Step1Cats()
    ensures Step1("cats") == "cat"
  {
    assert LineFree("cats", 0, 2);
    assert "cats"[..3] == "cat";
    EedEdIngNoSuffix("cat", true);
    EedEdIngNoSuffix("cat", false);
  }

  /** `feed` keeps its `d`: the stem `f` has m == 0. */
  lemma Step1Feed()
    ensures Step1("feed") == "feed"
  {
    assert LineFree("feed", 0, 1) && EndsWith("feed", "eed");
    EedRule("feed", true);
    EedRule("feed", false);
    assert "feed"[..1] == "f";
    Gt0Decides("f");
  }

  /** `agreed` loses its `d`: the stem `agr` has m == 1. */
  lemma Step1Agreed()
    ensures Step1("agreed") == "agree"
  {
    AgreedFacts();
    EedRule("agreed", true);
    Gt0Decides("agr");
    EedEdIngNoSuffix("agree", false);
  }

  lemma AgreedFacts()
    ensures LineFree("agreed", 0, 3) && EndsWith("agreed", "eed")
    ensures "agreed"[..3] == "agr" && "agreed"[..5] == "agree" && Gt0("agr")
  {
  }

  lemma PlasteredFacts()
    ensures LineFree("plastered", 0, 7) && EndsWith("plastered", "ed") && !EndsWith("plastered", "eed")
    ensures "plastered"[..7] == "plaster" && VowelInStem("plaster") && !ConsonantLike("plaster")
  {
  }

  lemma Step1Plastered()
    ensures Step1("plastered") == "plaster"
  {
    PlasteredFacts();
    EdIngRule("plastered", true, "ed");
    VowelInStemDecides("plaster");
    ConsonantLikeDecides("plaster");
    EedEdIngNoSuffix("plaster", false);
  }

  lemma MotoringFacts()
    ensures LineFree("motoring", 0, 5) && EndsWith("motoring", "ing") && !EndsWith("motoring", "eed")
    ensures "motoring"[..5] == "motor" && VowelInStem("motor") && !ConsonantLike("motor")
  {
  }

  lemma Step1Motoring()
    ensures Step1("motoring") == "motor"
  {
    MotoringFacts();
    EdIngRule("motoring", true, "ing");
    VowelInStemDecides("motor");
    ConsonantLikeDecides("motor");
    EedEdIngNoSuffix("motor", false);
  }

  /** `sing` keeps its `ing`: the stem `s` has no vowel. */
  lemma Step1Sing()
    ensures Step1("sing") == "sing"
  {
    assert LineFree("sing", 0, 1) && EndsWith("sing", "ing") && !EndsWith("sing", "eed");
    EdIngRule("sing", true, "ing");
    EdIngRule("sing", false, "ing");
    assert "sing"[..1] == "s";
    assert !VowelInStem("s");
    VowelInStemDecides("s");
  }

  /** A doubled final consonant collapses. */
  lemma HoppingFacts()
    ensures LineFree("hopping", 0, 4) && EndsWith("hopping", "ing") && !EndsWith("hopping", "eed")
    ensures "hopping"[..4] == "hopp" && VowelInStem("hopp")
  {
  }

  lemma RestoreHopp()
    ensures Restore("hopp") == "hop"
  {
    assert "hopp"[..3] == "hop";
  }

  lemma Step1Hopping()
    ensures Step1("hopping") == "hop"
  {
    HoppingFacts();
    RestoreHopp();
    EdIngRule("hopping", true, "ing");
    VowelInStemDecides("hopp");
    EedEdIngNoSuffix("hop", false);
  }

  /** A short consonant-vowel-consonant stem gets its `e` back. */
  lemma FilingFacts()
    ensures LineFree("filing", 0, 3) && EndsWith("filing", "ing") && !EndsWith("filing", "eed")
    ensures "filing"[..3] == "fil" && VowelInStem("fil")
  {
  }

  lemma Step1Filing()
    ensures Step1("filing") == "file"
  {
    FilingFacts();
    EdIngRule("filing", true, "ing");
    VowelInStemDecides("fil");
    RestoreFil();
    EedEdIngNoSuffix("file", false);
  }

  lemma RestoreFil()
    ensures Restore("fil") == "file"
  {
    assert ConsonantLike("fil");
    ConsonantLikeDecides("fil");
  }

  /** The second `eed` pass is observable: `succeeded` loses `ed`, then the
      `eed` left loses its `d`. */
  lemma SucceededFacts()
    ensures LineFree("succeeded", 0, 7) && EndsWith("succeeded", "ed") && !EndsWith("succeeded", "eed")
    ensures "succeeded"[..7] == "succeed" && VowelInStem("succeed") && !ConsonantLike("succeed")
  {
  }

  lemma SucceedFacts()
    ensures LineFree("succeed", 0, 4) && EndsWith("succeed", "eed")
    ensures "succeed"[..4] == "succ" && "succeed"[..6] == "succee" && Gt0("succ")
  {
  }

  /** The first pass strips `ed` and repairs nothing. */
  lemma SucceededPass1()
    ensures EedEdIng("succeeded", true) == "succeed"
  {
    SucceededFacts();
    EdIngRule("succeeded", true, "ed");
    VowelInStemDecides("succeed");
    ConsonantLikeDecides("succeed");
  }

  /** The second pass finds the `eed` the first one uncovered. */
  lemma SucceededPass2()
    ensures EedEdIng("succeed", false) == "succee"
  {
    SucceedFacts();
    EedRule("succeed", false);
    Gt0Decides("succ");
  }

  lemma Step1Succeeded()
    ensures Step1("succeeded") == "succee"
  {
    SucceededPass1();
    SucceededPass2();
  }

  lemma Step1Happy()
    ensures Step1("happy") == "happi"
  {
    EedEdIngNoSuffix("happy", true);
    EedEdIngNoSuffix("happy", false);
    assert LineFree("happy", 0, 4) && IsVowelOrY("happy"[1]);
    Step1cRule("happy");
    assert "happy"[..4] + "i" == "happi";
  }

  /** The `Y` marker at work: read as a vowel, the leading `y` of `ying` would
      let `ing` go; marked, it does not. */
  lemma Step1LeadingY()
    ensures Step1("ying") == "y"
    ensures Step1(MarkY("ying")) == "Ying"
  {
    LeadingYFacts();
    EdIngRule("ying", true, "ing");
    VowelInStemDecides("y");
    EedEdIngNoSuffix("y", false);
    EdIngRule("Ying", true, "ing");
    EdIngRule("Ying", false, "ing");
    VowelInStemDecides("Y");
  }

  lemma LeadingYFacts()
    ensures LineFree("ying", 0, 1) && EndsWith("ying", "ing") && !EndsWith("ying", "eed")
    ensures "ying"[..1] == "y" && VowelInStem("y") && Restore("y") == "y"
    ensures MarkY("ying") == "Ying"
    ensures LineFree("Ying", 0, 1) && EndsWith("Ying", "ing") && !EndsWith("Ying", "eed")
    ensures "Ying"[..1] == "Y" && !VowelInStem("Y")
  {
  }

  // ---------------------------------------------------------------------------
  // Steps 4 and 5

  lemma Step4Adjustment()
    ensures Step4("adjustment") == "adjust"
  {
    AdjustmentFacts();
    AdjustmentShortSuffixes();
    Step4Listed("adjustment", 6);
    Gt1Decides("adjust");
  }

  lemma AdjustmentFacts()
    ensures LineFree("adjustment", 0, 6) && "adjustment"[6..] == "ment"
    ensures "adjustment"[..6] == "adjust" && Gt1("adjust")
  {
  }

  /** No shorter capture leaves a listed suffix: `tment` and longer are not listed. */
  lemma AdjustmentShortSuffixes()
    ensures forall k :: 1 <= k < 6 ==> "adjustment"[k..] !in Step4Suffixes
  {
    var w := "adjustment";
    forall k | 1 <= k < 6
      ensures w[k..] !in Step4Suffixes
    {
      assert |w[k..]| >= 5;
    }
  }

  lemma Step4Adoption()
    ensures Step4("adoption") == "adopt"
  {
    AdoptionNotListed();
    AdoptionFacts();
    Step4Ion("adoption");
    Gt1Decides("adopt");
  }

  lemma AdoptionNotListed()
    ensures forall m :: 1 <= m <= 8 && LineFree("adoption", 0, m) ==> "adoption"[m..] !in Step4Suffixes
  {
    var w := "adoption";
    forall m | 1 <= m <= |w| && LineFree(w, 0, m)
      ensures w[m..] !in Step4Suffixes
    {
      if m < |w| {
        assert w[m..][|w[m..]| - 1] == 'n';
      }
    }
  }

  lemma AdoptionFacts()
    ensures EndsSionTion("adoption") && "adoption"[..5] == "adopt" && Gt1("adopt")
  {
    assert LineFree("adoption", 0, 4) && "adoption"[5..] == "ion";
  }

  /** `rate` keeps its `e`: the stem `rat` has m == 1 and ends consonant-vowel-consonant. */
  lemma Step5Rate()
    ensures DropFinalE("rate") == "rate"
  {
    RatFacts();
  }

  lemma RatFacts()
    ensures "rate"[..3] == "rat" && !Gt1("rat") && ConsonantLike("rat")
  {
  }

  lemma Step5Controll()
    ensures Step5("controll") == "control"
  {
    ControllFacts();
    Step5DoubleL("controll");
    Gt1Decides("controll");
  }

  lemma ControllFacts()
    ensures !EndsWith("controll", "e") && EndsWith("controll", "ll") && "controll"[..7] == "control"
    ensures Gt1("controll")
  {
    ControllMeasure();
  }

  lemma ControllMeasure()
    ensures MeasureAfterLead("controll") == 2
  {
    var s := "controll";
    assert SkipConsonants(s, 1) == 1;
    assert SkipVowels(s, 2) == 2;
    assert SkipConsonants(s, 3) == 5;
    assert SkipVowels(s, 6) == 6;
    assert SkipConsonants(s, 7) == 8;
    assert MeasureFrom(s, 5) == 1;
  }

  // ---------------------------------------------------------------------------
  // Whole tokens, for every pair of tables

  lemma StepsRunning(t2: map<string, string>, t3: map<string, string>)
    requires ValidTable(t2) && ValidTable(t3)
    ensures Steps("running", t2, t3) == "run"
  {
    RunningStep1();
    RunFacts();
    ShortStemsUnchanged("run", t2, t3);
  }

  lemma RunningStep1()
    ensures Step1("running") == "run"
  {
    RunningFacts();
    EdIngRule("running", true, "ing");
    VowelInStemDecides("runn");
    RestoreRunn();
    EedEdIngNoSuffix("run", false);
  }

  lemma RunningFacts()
    ensures LineFree("running", 0, 4) && EndsWith("running", "ing") && !EndsWith("running", "eed")
    ensures "running"[..4] == "runn" && VowelInStem("runn")
  {
  }

  lemma RestoreRunn()
    ensures Restore("runn") == "run"
  {
    assert "runn"[..3] == "run";
  }

  lemma RunFacts()
    ensures forall m :: 1 <= m < 3 ==> !Gt0("run"[..m])
    ensures !Gt1("run") && Step6("run") == "run" && Lower("run") == "run"
  {
    assert "run"[..1] == "r" && "run"[..2] == "ru";
  }

  lemma MarkYour()
    ensures MarkY("your") == "Your"
  {
    assert ['Y'] + "your"[1..] == "Your";
  }

  lemma StepsYour(t2: map<string, string>, t3: map<string, string>)
    requires ValidTable(t2) && ValidTable(t3)
    ensures Steps("Your", t2, t3) == "you"
  {
    Step1Your();
    YourFacts();
    ShortStemsUnchanged("Your", t2, t3);
  }

  lemma Step1Your()
    ensures Step1("Your") == "Your"
  {
    EedEdIngNoSuffix("Your", true);
    EedEdIngNoSuffix("Your", false);
  }

  lemma YourFacts()
    ensures forall m :: 1 <= m < 4 ==> !Gt0("Your"[..m])
    ensures !Gt1("Your") && Step6("Your") == "you"
  {
    assert Lower("Your") == "your";
    assert "Your"[..1] == "Y" && "Your"[..2] == "Yo" && "Your"[..3] == "You";
  }

  /** A token of fewer than three letters is only lower-cased and trimmed. */
  lemma StemShort(t2: map<string, string>, t3: map<string, string>)
    requires ValidTable(t2) && ValidTable(t3)
    ensures StemToken("Hi", t2, t3) == "hi"
  {
    assert Lower("Hi") == "hi";
    TrimUnpadded("hi");
  }

  lemma Step6Examples()
    ensures Step6("ARE") == "is" && Step6("YoUr") == "you" && Step6("you") == "you"
  {
    assert Lower("ARE") == "are";
    assert Lower("YoUr") == "your";
    assert Lower("you") == "you";
  }
}
