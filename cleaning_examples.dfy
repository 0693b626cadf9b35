/** Worked inputs showing the link filter's case sensitivity and that cleaning is
    not idempotent. */
module CleaningExamples {
  import opened Wrappers
  import opened Strings
  import opened Cleaning

  // The steps of cleaning `HTTP://x`, one lemma each so that each stays small.

  lemma MaskedUppercaseLink()
    ensures MaskNonLetters("HTTP://x") == "HTTP   x"
  {
  }

  lemma SplitUppercaseLink()
    ensures Split("HTTP   x") == ["HTTP", "x"]
  {
    var masked := "HTTP   x";
    assert masked == "HTTP" + "   x";
    WordLengthOfJoined("HTTP", "   x");
    assert masked[..4] == "HTTP" && masked[4..] == "   x";
    SplitJoin(["x"]);
    assert Split(" x") == ["x"];
    assert Split("  x") == ["x"];
    assert Split("   x") == ["x"];
  }

  lemma JoinUppercaseLink()
    ensures Join(["HTTP", "x"]) == "HTTP x"
  {
  }

  lemma CollapseUppercaseLink()
    ensures Join(Split(MaskNonLetters("HTTP://x"))) == "HTTP x"
  {
    var masked := MaskNonLetters("HTTP://x");
    MaskedUppercaseLink();
    var words := Split(masked);
    SplitUppercaseLink();
    JoinUppercaseLink();
  }

  /** A lowercase `http` word is dropped as a link. */
  lemma LowercaseLinkDropped()
    ensures CleanText(Some("http://x")) == ""
  {
    SplitWord("http://x");
    OnlyLinksAndTagsCleanToEmpty("http://x");
  }

  lemma UppercaseLinkPassesFilter()
    ensures Join(DropLinksAndTags(Split("HTTP://x"))) == "HTTP://x"
  {
    SplitWord("HTTP://x");
    assert DropLinksAndTags(["HTTP://x"]) == ["HTTP://x"];
  }

  lemma LowerUppercaseLink()
    ensures LowerCase("HTTP x") == "http x"
  {
  }

  /** The link test is case-sensitive: an uppercase `HTTP` word is kept, its
      punctuation turned into spaces and the result lowercased. */
  lemma UppercaseLinkKept()
    ensures CleanText(Some("HTTP://x")) == "http x"
  {
    var t := "HTTP://x";
    var joined := Join(DropLinksAndTags(Split(t)));
    UppercaseLinkPassesFilter();
    assert joined == t;
    var collapsed := Join(Split(MaskNonLetters(joined)));
    CollapseUppercaseLink();
    assert collapsed == "HTTP x";
    LowerUppercaseLink();
  }

  // The steps of cleaning `HTTPS`.

  lemma HttpsPassesFilter()
    ensures Join(DropLinksAndTags(Split("HTTPS"))) == "HTTPS"
  {
    SplitWord("HTTPS");
    assert DropLinksAndTags(["HTTPS"]) == ["HTTPS"];
  }

  lemma HttpsCollapse()
    ensures Join(Split(MaskNonLetters("HTTPS"))) == "HTTPS"
  {
    var masked := MaskNonLetters("HTTPS");
    assert masked == "HTTPS";
    SplitWord("HTTPS");
  }

  lemma LowerHttps()
    ensures LowerCase("HTTPS") == "https"
  {
  }

  /** `HTTPS` is a word of letters that is not a link, so cleaning only lowercases it. */
  lemma UppercaseHttpsCleaned()
    ensures CleanText(Some("HTTPS")) == "https"
  {
    var t := "HTTPS";
    var joined := Join(DropLinksAndTags(Split(t)));
    HttpsPassesFilter();
    assert joined == t;
    var collapsed := Join(Split(MaskNonLetters(joined)));
    HttpsCollapse();
    assert collapsed == t;
    LowerHttps();
  }

  /** A lowercase `https` word is dropped as a link. */
  lemma LowercaseHttpsDropped()
    ensures CleanText(Some("https")) == ""
  {
    SplitWord("https");
    OnlyLinksAndTagsCleanToEmpty("https");
  }

  /** Cleaning twice can differ from cleaning once: `HTTPS` survives the first pass
      as `https`, which the second pass drops as a link. */
  lemma CleanTextNotIdempotent()
    ensures CleanText(Some(CleanText(Some("HTTPS")))) != CleanText(Some("HTTPS"))
  {
    UppercaseHttpsCleaned();
    LowercaseHttpsDropped();
  }
}
