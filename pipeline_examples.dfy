/** Worked inputs for the prediction pipeline: an empty or missing review, and the
    encoding of a short symptom review over a three-term vocabulary. */
module PipelineExamples {
  import opened Wrappers
  import opened Strings
  import opened Cleaning
  import opened Preprocess
  import opened Features

  /** An empty or missing review has no terms, so every selected column is 0. */
  lemma EmptyReviewSelectsZeros(review: Option<string>, lemmatize: string -> string, selected: seq<string>)
    requires review == None || review == Some("")
    ensures PreprocessReview(review, lemmatize) == []
    ensures forall j :: 0 <= j < |selected| ==> SelectedPresence(PreprocessReview(review, lemmatize), selected)[j] == 0
  {
    assert MaskNonLetters("") == "";
    assert |PreprocessReview(review, lemmatize)| <= |Tokenize(CleanText(review))|;
  }

  /** Terms `felt some swelling nausea after dose` over the vocabulary
      `swelling nausea dizzy` encode as `1 1 0`, and selecting `swelling nausea`
      gives `1 1`. */
  lemma SymptomReviewEncoding()
    ensures Presence(["felt", "some", "swelling", "nausea", "after", "dose"], ["swelling", "nausea", "dizzy"]) == [1, 1, 0]
    ensures SelectedPresence(["felt", "some", "swelling", "nausea", "after", "dose"], ["swelling", "nausea"]) == [1, 1]
  {
  }
}
