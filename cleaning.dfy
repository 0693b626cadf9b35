/** `clean_text`: normalisation of a raw review before tokenisation. */
module Cleaning {
  import opened Wrappers
  import opened Strings
  import Seqs

  /** A word that starts with the literal `http`, `@` or `#` (a link, a mention or a
      hashtag). The comparison is case-sensitive: `HTTP://x` is not discarded. */
  predicate Discarded(word: string) {
    "http" <= word || "@" <= word || "#" <= word
  }

  /** The comprehension that drops links, mentions and hashtags: a word is removed
      exactly when it is discarded; the rest keep their order and their repetitions. */
  function DropLinksAndTags(words: seq<string>): (kept: seq<string>)
    ensures forall w :: w in kept <==> w in words && !Discarded(w)
    ensures forall w :: multiset(kept)[w] == if Discarded(w) then 0 else multiset(words)[w]
    ensures Seqs.IsSubsequence(kept, words)
  {
    Seqs.Filter(w => !Discarded(w), words)
  }

  /** Every character that is neither a letter nor whitespace becomes a space. */
  function MaskNonLetters(s: string): (r: string)
    ensures |r| == |s|
    ensures forall i :: 0 <= i < |s| && (IsLetter(s[i]) || IsSpace(s[i])) ==> r[i] == s[i]
    ensures forall i :: 0 <= i < |s| && !IsLetter(s[i]) && !IsSpace(s[i]) ==> r[i] == ' '
    ensures forall i :: 0 <= i < |r| ==> IsLetter(r[i]) || IsSpace(r[i])
  {
    if s == [] then []
    else [if IsLetter(s[0]) || IsSpace(s[0]) then s[0] else ' '] + MaskNonLetters(s[1..])
  }

  /** The letters of `s`, in order. */
  function Letters(s: string): (r: string)
    ensures |r| <= |s|
    ensures forall i :: 0 <= i < |r| ==> IsLetter(r[i])
  {
    if s == [] then "" else (if IsLetter(s[0]) then [s[0]] else "") + Letters(s[1..])
  }

  /** Masking keeps every letter in order and everything else it keeps is whitespace. */
  lemma {:induction false} NonSpaceOfMasked(s: string)
    ensures NonSpace(MaskNonLetters(s)) == Letters(s)
    decreases |s|
  {
    if s != [] {
      NonSpaceOfMasked(s[1..]);
      var m := MaskNonLetters(s);
      assert m == [m[0]] + MaskNonLetters(s[1..]);
      NonSpaceConcat([m[0]], MaskNonLetters(s[1..]));
      assert !IsSpace(m[0]) <==> IsLetter(s[0]);
    }
  }

  /** The shape of every cleaned review: lowercase letters and single spaces,
      no space at either end and no two spaces in a row. */
  ghost predicate IsCleaned(s: string) {
    && (forall i :: 0 <= i < |s| ==> IsLowerLetter(s[i]) || s[i] == ' ')
    && (|s| > 0 ==> s[0] != ' ' && s[|s| - 1] != ' ')
    && (forall i :: 0 <= i < |s| - 1 ==> !(s[i] == ' ' && s[i + 1] == ' '))
  }

  lemma CleanedIsSingleSpaced(s: string)
    requires IsCleaned(s)
    ensures SingleSpaced(s)
  {
  }

  /** Lowercasing a single-spaced text of letters gives a cleaned text. */
  lemma LowerCaseCleans(s: string)
    requires SingleSpaced(s)
    requires forall i :: 0 <= i < |s| ==> IsLetter(s[i]) || s[i] == ' '
    ensures IsCleaned(LowerCase(s))
  {
    var r := LowerCase(s);
    assert IsSpace(' ');
    forall i | 0 <= i < |s|
      ensures IsLowerLetter(r[i]) || r[i] == ' '
      ensures r[i] == ' ' <==> IsSpace(s[i])
    {
      if IsLetter(s[i]) {
        assert !IsSpace(s[i]);
      }
    }
    forall i | 0 <= i < |r| - 1
      ensures !(r[i] == ' ' && r[i + 1] == ' ')
    {
    }
  }

  /** `clean_text(text)`; a missing value is `None`. */
  function CleanText(text: Option<string>): (cleaned: string)
    ensures text.None? ==> cleaned == ""
    ensures IsCleaned(cleaned)
  {
    match text
    case None => ""
    case Some(t) =>
      var joined := Join(DropLinksAndTags(Split(t)));
      var masked := MaskNonLetters(joined);
      var words := Split(masked);
      assert forall w :: w in words ==> forall i :: 0 <= i < |w| ==> IsLetter(w[i]) by {
        forall w, i | w in words && 0 <= i < |w| ensures IsLetter(w[i]) {
          assert w[i] in w;
        }
      }
      JoinSingleSpaced(words);
      JoinLetters(words);
      var collapsed := Join(words);
      LowerCaseCleans(collapsed);
      LowerCase(collapsed)
  }

  /** For every review, the non-space characters of the cleaned text are exactly the
      letters of the words that survive the link filter, lowercased and in order:
      no letter is lost and no other character survives. */
  lemma CleanTextKeepsLetters(t: string)
    ensures NonSpace(CleanText(Some(t))) == LowerCase(Letters(Join(DropLinksAndTags(Split(t)))))
  {
    var joined := Join(DropLinksAndTags(Split(t)));
    var masked := MaskNonLetters(joined);
    var collapsed := Join(Split(masked));
    assert CleanText(Some(t)) == LowerCase(collapsed);
    SplitCollapse(masked);
    NonSpaceCollapse(masked);
    NonSpaceOfMasked(joined);
    NonSpaceLowerCase(collapsed);
  }

  /** For every review, the cleaned text is the lowercased collapse of the masked
      text that survives the link filter: each run of non-letters between two kept
      letters becomes exactly one space, and runs at either end vanish. */
  lemma CleanTextCollapsesMask(t: string)
    ensures CleanText(Some(t)) == LowerCase(Collapse(MaskNonLetters(Join(DropLinksAndTags(Split(t))))))
  {
    SplitCollapse(MaskNonLetters(Join(DropLinksAndTags(Split(t)))));
  }

  /** A text made only of links, mentions and hashtags cleans to the empty string. */
  lemma OnlyLinksAndTagsCleanToEmpty(t: string)
    requires forall w :: w in Split(t) ==> Discarded(w)
    ensures CleanText(Some(t)) == ""
  {
    assert DropLinksAndTags(Split(t)) == [];
    assert MaskNonLetters("") == "";
  }
}
