/** Worked cases of the version parser, each derived from the general lemmas. */
module VersionCases {
  import opened Wrappers
  import opened CodeText
  import opened Version

  lemma ProductTokenAnyCase()
    ensures HasProductPrefix(FromString("Comsol")) && HasProductPrefix(FromString("COMSOL"))
  {
  }

  /** "Comsol 5.3.1" names patch 1 with the letter `a`. */
  lemma CasePatchLetter()
    ensures Parse(FromString("Comsol 5.3.1")) == Ok(VersionInfo(FromString("5.3a"), 5, 3, Some(1), 0))
  {
    var digits := [FromString("5"), FromString("3"), FromString("1")];
    ProductTokenAnyCase();
    assert FromString("Comsol 5.3.1") == FromString("Comsol") + FromString(" ") + JoinDots(digits) + [];
    assert Name(5, 3, 1) == FromString("5.3a");
    ParseDecomposed(FromString("Comsol"), FromString(" "), digits, [], [5, 3, 1]);
  }

  /** The product token matches in any case, and a missing patch counts as zero. */
  lemma CaseUpperCaseToken()
    ensures Parse(FromString("COMSOL Multiphysics 6.0")) == Ok(VersionInfo(FromString("6.0"), 6, 0, Some(0), 0))
  {
    var digits := [FromString("6"), FromString("0")];
    ProductTokenAnyCase();
    assert FromString("COMSOL Multiphysics 6.0")
        == FromString("COMSOL") + FromString(" Multiphysics ") + JoinDots(digits) + [];
    assert Name(6, 0, 0) == FromString("6.0");
    ParseDecomposed(FromString("COMSOL"), FromString(" Multiphysics "), digits, [], [6, 0]);
  }

  /** Five components are too many. */
  lemma CaseTooManyParts()
    ensures Parse(FromString("Comsol 1.2.3.4.5")) == Err(TooManyParts)
  {
    var digits := [FromString("1"), FromString("2"), FromString("3"), FromString("4"), FromString("5")];
    ProductTokenAnyCase();
    assert JoinDots(digits[3..]) == FromString("4.5");
    assert JoinDots(digits) == FromString("1.2.3.4.5");
    assert FromString("Comsol 1.2.3.4.5") == FromString("Comsol") + FromString(" ") + JoinDots(digits) + [];
    ParseDecomposed(FromString("Comsol"), FromString(" "), digits, [], [1, 2, 3, 4, 5]);
  }

  /** The number stops before a dot that no digit follows, so "1.x.3" reads as version 1. */
  lemma CaseNumberStopsAtLetter()
    ensures Parse(FromString("Comsol 1.x.3")) == Ok(VersionInfo(FromString("1.0"), 1, 0, Some(0), 0))
  {
    var digits := [FromString("1")];
    ProductTokenAnyCase();
    assert FromString("Comsol 1.x.3") == FromString("Comsol") + FromString(" ") + JoinDots(digits) + FromString(".x.3");
    assert Name(1, 0, 0) == FromString("1.0");
    ParseDecomposed(FromString("Comsol"), FromString(" "), digits, FromString(".x.3"), [1]);
  }

  /** A patch beyond the last code point has no letter. */
  lemma CasePatchOutOfRange()
    ensures IsAscii(FromString("Comsol ") + Format([6, 2, MaxPatch + 1]))
    ensures Parse(FromString("Comsol ") + Format([6, 2, MaxPatch + 1])) == Err(SuffixOutOfRange)
  {
    ParseFormatted([6, 2, MaxPatch + 1]);
  }

  /** The match is anchored: the product token must open the text. */
  lemma CaseAnchored()
    ensures Parse(FromString("NotComsol 5.3")) == Err(InvalidFormat)
  {
    assert AsciiLower(FromString("NotComsol 5.3")[0]) != Product[0];
    ParseInvalidFormat(FromString("NotComsol 5.3"));
  }

  /** The filler cannot cross a newline. */
  lemma CaseNewlineBeforeNumber()
    ensures Parse(FromString("Comsol\n6.2")) == Err(InvalidFormat)
  {
    var s := FromString("Comsol\n6.2");
    forall p | |Product| <= p < |s| && IsDigit(s[p])
      ensures !NoNewline(s[|Product|..p])
    {
      assert s[|Product|..p][0] == Newline;
    }
    ParseInvalidFormat(s);
  }
}
