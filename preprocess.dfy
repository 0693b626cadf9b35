/** Tokenisation, stopword removal, lemmatisation and their composition
    `preprocess_review`. */
module Preprocess {
  import opened Wrappers
  import opened Strings
  import opened Cleaning
  import Seqs

  /** `tokenization(text)`: the whitespace-separated tokens of `text`. Every token is a
      word; joining the tokens with single spaces gives the collapsed text, which on
      single-spaced text (as every cleaned review is) is the text itself. */
  function Tokenize(text: string): (tokens: seq<string>)
    ensures forall t :: t in tokens ==> IsWord(t)
    ensures Join(tokens) == Collapse(text)
    ensures SingleSpaced(text) ==> Join(tokens) == text
  {
    var tokens := Split(text);
    SplitCollapse(text);
    assert SingleSpaced(text) ==> Join(tokens) == text by {
      if SingleSpaced(text) {
        JoinSplit(text);
      }
    }
    tokens
  }

  /** Tokenising a cleaned review and joining the tokens with single spaces gives the
      cleaned review back; every token is a non-empty run of lowercase letters. */
  lemma CleanTextRoundTrip(review: Option<string>)
    ensures Join(Tokenize(CleanText(review))) == CleanText(review)
    ensures forall t :: t in Tokenize(CleanText(review)) ==>
      |t| > 0 && forall i :: 0 <= i < |t| ==> IsLowerLetter(t[i])
  {
    var cleaned := CleanText(review);
    CleanedIsSingleSpaced(cleaned);
    forall t, i | t in Tokenize(cleaned) && 0 <= i < |t|
      ensures IsLowerLetter(t[i])
    {
      assert t[i] in t;
      assert !IsSpace(t[i]);
    }
  }

  /** The fixed set of function words `stop_words`. */
  const StopWords: set<string> := {
    "and", "or", "but", "so", "because", "if", "while", "with", "at", "by",
    "for", "to", "of", "in", "on", "a", "an", "the", "is", "it", "this",
    "that", "these", "those", "i", "we", "you", "he", "she", "they", "me",
    "him", "her", "them", "my", "our", "your", "his", "their", "its", "be",
    "am", "are", "was", "were", "been", "can", "will", "would", "could",
    "should", "do", "did", "does", "have", "has", "had"
  }

  /** A token whose lowercase form is a stopword. */
  predicate IsStopword(token: string) {
    LowerCase(token) in StopWords
  }

  /** In the pipeline the tokens come from a cleaned review and are already lowercase,
      so the stopword test is plain membership in `stop_words`. */
  lemma CleanedTokenStopwordTest(review: Option<string>)
    ensures forall t :: t in Tokenize(CleanText(review)) ==> (IsStopword(t) <==> t in StopWords)
  {
    CleanTextRoundTrip(review);
    forall t | t in Tokenize(CleanText(review)) ensures IsStopword(t) <==> t in StopWords {
      LowerCaseOfLower(t);
    }
  }

  /** `remove_stopwords(tokens)`: exactly the tokens whose lowercase form is not a
      stopword, in their original order and with their repetitions. */
  function RemoveStopwords(tokens: seq<string>): (kept: seq<string>)
    ensures |kept| <= |tokens|
    ensures Seqs.IsSubsequence(kept, tokens)
    ensures forall t :: t in kept <==> t in tokens && !IsStopword(t)
    ensures forall t :: multiset(kept)[t] == if IsStopword(t) then 0 else multiset(tokens)[t]
  {
    Seqs.Filter(t => !IsStopword(t), tokens)
  }

  /** `lemmatize_text(tokens)` with the dictionary lookup `Word(w).lemmatize()` as the
      parameter `lemmatize`: one lemma per token, in the same order. */
  function LemmatizeText(tokens: seq<string>, lemmatize: string -> string): (lemmas: seq<string>)
    ensures |lemmas| == |tokens|
    ensures forall i :: 0 <= i < |tokens| ==> lemmas[i] == lemmatize(tokens[i])
  {
    if tokens == [] then [] else [lemmatize(tokens[0])] + LemmatizeText(tokens[1..], lemmatize)
  }

  /** Removing stopwords and then lemmatising: each result is the lemma of a
      non-stopword token, and the lemma of every non-stopword token is a result. */
  lemma LemmasOfKeptTokens(tokens: seq<string>, lemmatize: string -> string)
    ensures |LemmatizeText(RemoveStopwords(tokens), lemmatize)| <= |tokens|
    ensures forall t :: t in tokens && !IsStopword(t) ==> lemmatize(t) in LemmatizeText(RemoveStopwords(tokens), lemmatize)
    ensures var terms := LemmatizeText(RemoveStopwords(tokens), lemmatize);
      forall i :: 0 <= i < |terms| ==> exists t :: t in tokens && !IsStopword(t) && terms[i] == lemmatize(t)
  {
    var kept := RemoveStopwords(tokens);
    var terms := LemmatizeText(kept, lemmatize);
    forall t | t in kept ensures lemmatize(t) in terms {
      var i :| 0 <= i < |kept| && kept[i] == t;
      assert terms[i] == lemmatize(t);
    }
    forall i | 0 <= i < |terms|
      ensures exists t :: t in tokens && !IsStopword(t) && terms[i] == lemmatize(t)
    {
      assert kept[i] in kept;
    }
  }

  /** `preprocess_review(review)`: the lemmas of the review's non-stopword tokens.
      Each term is the lemma of a non-stopword token of the cleaned review, and the
      lemma of every such token is a term. */
  function PreprocessReview(review: Option<string>, lemmatize: string -> string): (terms: seq<string>)
    ensures |terms| <= |Tokenize(CleanText(review))|
    ensures forall t :: t in Tokenize(CleanText(review)) && !IsStopword(t) ==> lemmatize(t) in terms
    ensures forall i :: 0 <= i < |terms| ==>
      exists t :: t in Tokenize(CleanText(review)) && !IsStopword(t) && terms[i] == lemmatize(t)
  {
    var tokens := Tokenize(CleanText(review));
    LemmasOfKeptTokens(tokens, lemmatize);
    LemmatizeText(RemoveStopwords(tokens), lemmatize)
  }
}
