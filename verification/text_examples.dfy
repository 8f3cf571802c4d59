/** Concrete runs of the contraction expansion and the tokenizer. */
module TextExamples {
  import opened Chars
  import opened Text

  /** `n't` at the end of the text matches without a delimiter. */
  lemma ExpandDont()
    ensures Replace("don't", "n't", " not ") == "do not "
  {
    assert Lower("n't") == "n't";
    assert Replace("n't", "n't", " not ") == " not ";
    assert Replace("on't", "n't", " not ") == "o not ";
  }

  lemma ReplaceContractionsDont()
    ensures ReplaceContractions("don't") == "do not "
  {
    ExpandDont();
    ReplaceAllNoApostrophe("do not ", Contractions[1..]);
  }

  lemma JoinDoNot()
    ensures JoinSpaced(["do", "not", ""]) == "do not "
  {
  }

  lemma SplitDoNot()
    ensures Split("do not ") == ["do", "not", ""]
  {
    JoinDoNot();
    SplitJoinSpaced(["do", "not", ""]);
  }

  /** The space the expansion ends with leaves an empty last token. */
  lemma TokenizeDont()
    ensures Tokenize("don't") == ["do", "not", ""]
  {
    ReplaceContractionsDont();
    SplitDoNot();
  }

  /** A trailing non-word character leaves an empty last token. */
  lemma SplitTrailingPunctuation()
    ensures Split("hi!") == ["hi", ""]
  {
    assert WordEnd("hi!", 0) == 2;
    assert NonWordEnd("hi!", 2) == 3;
    assert "hi!"[..2] == "hi";
    assert "hi!"[3..] == "";
    assert Split("") == [""];
  }

  /** The delimiter after a particle is consumed with it. */
  lemma ExpandIsDelimited()
    ensures Replace("'s,", "'s", " is ") == " is "
  {
  }

  /** `n't` followed by a word character is no match, so nothing changes. */
  lemma DontxUnchanged()
    ensures Replace("don'tx", "n't", " not ") == "don'tx"
  {
    var s := "don'tx";
    forall j | 0 <= j <= |s|
      ensures !MatchAt(s, "n't", j)
    {
      if j + 3 <= |s| {
        assert s[j..][..3] == s[j..j + 3];
        assert Lower(s[j..j + 3])[0] == ToLowerChar(s[j]);
        assert Lower(s[j..j + 3])[1] == ToLowerChar(s[j + 1]);
      }
    }
    ReplaceNoMatch(s, "n't", " not ");
  }

  /** The first match is replaced together with its delimiter, and the text
      before it is kept. */
  lemma ExpandFirstMatch()
    ensures Replace("can't.", "n't", " not ") == "ca not "
  {
    var s := "can't.";
    forall j | 0 <= j < 2
      ensures !MatchAt(s, "n't", j)
    {
      assert s[j..][..3] == s[j..j + 3];
      assert Lower(s[j..j + 3])[0] == ToLowerChar(s[j]);
    }
    assert s[2..][..3] == "n't";
    assert Lower("n't") == "n't";
    ReplaceFirstMatch(s, "n't", " not ", 2);
    assert s[..2] == "ca";
  }

  /** A longer run of non-word characters separates two pieces like one space. */
  lemma SplitDashes()
    ensures Split("ab--cd") == ["ab", "cd"]
  {
    SplitUnique("ab--cd", ["ab", "cd"], ["--"]);
  }

  /** A comma and a space together are one separator. */
  lemma SplitCommaSpace()
    ensures Split("hi, there") == ["hi", "there"]
  {
    SplitUnique("hi, there", ["hi", "there"], [", "]);
  }
}
