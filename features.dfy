/** The feature construction of `svm_predict`: binary presence encoding over the
    trained vocabulary, gathering of the selected columns, and the width check that
    guards the classifier. */
module Features {
  import opened Wrappers
  import opened Preprocess
  import Seqs

  /** `vocab.index(term)`: the first position of `term` in `vocab`. */
  function FirstIndex(vocab: seq<string>, term: string): (i: nat)
    requires term in vocab
    ensures i < |vocab| && vocab[i] == term
    ensures forall j :: 0 <= j < i ==> vocab[j] != term
  {
    if vocab[0] == term then 0 else 1 + FirstIndex(vocab[1..], term)
  }

  /** The intended encoding of `terms` over `vocab`: position `i` is 1 exactly when
      `vocab[i]` is one of the terms and `i` is that term's first position. */
  ghost function Presence(terms: seq<string>, vocab: seq<string>): (row: seq<int>)
    ensures |row| == |vocab|
    ensures forall i :: 0 <= i < |row| ==> row[i] == 0 || row[i] == 1
  {
    seq(|vocab|, i requires 0 <= i < |vocab| =>
      if vocab[i] in terms && FirstIndex(vocab, vocab[i]) == i then 1 else 0)
  }

  /** The column of a vocabulary term holds 1 exactly when the term occurs. */
  lemma PresenceOfTerm(terms: seq<string>, vocab: seq<string>, term: string)
    requires term in vocab
    ensures Presence(terms, vocab)[FirstIndex(vocab, term)] == if term in terms then 1 else 0
  {
  }

  /** The encoding sees only which terms occur: repeating or reordering terms does not
      change it. */
  lemma PresenceIgnoresOrderAndRepetition(terms1: seq<string>, terms2: seq<string>, vocab: seq<string>)
    requires forall t :: t in terms1 <==> t in terms2
    ensures Presence(terms1, vocab) == Presence(terms2, vocab)
  {
  }

  /** Over a vocabulary without duplicates, position `i` is 1 exactly when `vocab[i]`
      is one of the terms. */
  lemma PresenceOverDistinctVocab(terms: seq<string>, vocab: seq<string>, i: nat)
    requires forall j, k :: 0 <= j < k < |vocab| ==> vocab[j] != vocab[k]
    requires i < |vocab|
    ensures Presence(terms, vocab)[i] == 1 <==> vocab[i] in terms
  {
  }

  /** The encoding loop of `svm_predict`: a zero row of width `|vocab|`, and for each
      term found in `vocab` the entry at its first index set to 1. */
  method Encode(terms: seq<string>, vocab: seq<string>) returns (row: array<int>)
    ensures fresh(row)
    ensures row.Length == |vocab|
    ensures row[..] == Presence(terms, vocab)
  {
    row := new int[|vocab|](_ => 0);
    for k := 0 to |terms|
      invariant row.Length == |vocab|
      invariant row[..] == Presence(terms[..k], vocab)
    {
      var term := terms[k];
      if term in vocab {
        var idx := FirstIndex(vocab, term);
        row[idx] := 1;
      }
      assert terms[..k + 1] == terms[..k] + [term];
    }
    assert terms[..|terms|] == terms;
  }

  /** The vocabulary terms at the given columns. */
  ghost function ColumnNames(cols: seq<nat>, vocab: seq<string>): seq<string>
    requires forall k :: 0 <= k < |cols| ==> cols[k] < |vocab|
  {
    seq(|cols|, k requires 0 <= k < |cols| => vocab[cols[k]])
  }

  /** The selected names that occur in the vocabulary, in the order of `selected`
      and with their repetitions; the others are skipped, so nothing is skipped
      exactly when every selected name is in the vocabulary. */
  function KnownNames(selected: seq<string>, vocab: seq<string>): (known: seq<string>)
    ensures forall f :: f in known <==> f in selected && f in vocab
    ensures forall f :: multiset(known)[f] == if f in vocab then multiset(selected)[f] else 0
    ensures Seqs.IsSubsequence(known, selected)
    ensures |known| == |selected| <==> forall f :: f in selected ==> f in vocab
    ensures (forall f :: f in selected ==> f in vocab) ==> known == selected
  {
    Seqs.Filter(name => name in vocab, selected)
  }

  /** `[vocab.index(f) for f in selected_features if f in vocab]`: one column per
      selected name that occurs in the vocabulary, in the order of `selected`, each
      the first index of its name. */
  function SelectedColumns(selected: seq<string>, vocab: seq<string>): (cols: seq<nat>)
    ensures forall k :: 0 <= k < |cols| ==> cols[k] < |vocab|
    ensures ColumnNames(cols, vocab) == KnownNames(selected, vocab)
    ensures forall k :: 0 <= k < |cols| ==> cols[k] == FirstIndex(vocab, vocab[cols[k]])
  {
    var known := KnownNames(selected, vocab);
    assert forall k :: 0 <= k < |known| ==> known[k] in vocab by {
      forall k | 0 <= k < |known| ensures known[k] in vocab {
        assert known[k] in known;
      }
    }
    var cols := seq(|known|, k requires 0 <= k < |known| => FirstIndex(vocab, known[k]));
    assert ColumnNames(cols, vocab) == known;
    cols
  }

  /** The `ValueError` of `svm_predict`: the width after selection and the width the
      classifier was trained on. */
  datatype FeatureError = FeatureCountMismatch(observed: nat, expected: nat)

  /** Column selection and the width check of `svm_predict`. The check fails exactly
      when some selected name is missing from the vocabulary, and then reports a width
      below the expected one; otherwise column `j` of the result is the row's entry at
      the first index of `selected[j]`. */
  method SelectFeatures(row: array<int>, vocab: seq<string>, selected: seq<string>)
    returns (result: Result<seq<int>, FeatureError>)
    requires row.Length == |vocab|
    ensures result.Failure? <==> exists f :: f in selected && f !in vocab
    ensures result.Failure? ==>
      && result.error.observed == |KnownNames(selected, vocab)|
      && result.error.expected == |selected|
      && result.error.observed < result.error.expected
    ensures result.Success? ==>
      && |result.value| == |selected|
      && forall j :: 0 <= j < |selected| ==> result.value[j] == row[FirstIndex(vocab, selected[j])]
  {
    var cols := SelectedColumns(selected, vocab);
    var reduced := seq(|cols|, k requires 0 <= k < |cols| reads row => row[cols[k]]);
    if |reduced| != |selected| {
      return Failure(FeatureCountMismatch(|reduced|, |selected|));
    }
    return Success(reduced);
  }

  /** The feature vector the classifier is given: for each selected name, 1 when it is
      one of the review's terms and 0 otherwise. */
  ghost function SelectedPresence(terms: seq<string>, selected: seq<string>): seq<int> {
    seq(|selected|, j requires 0 <= j < |selected| => if selected[j] in terms then 1 else 0)
  }

  /** `svm_predict(text)` with the scaler and the trained model combined into the
      parameter `classify` and the dictionary lookup into `lemmatize`. The prediction
      fails exactly when a selected name is missing from the vocabulary; otherwise the
      classifier is applied to the selected presence vector of the review's terms. */
  method SvmPredict<L>(text: Option<string>, lemmatize: string -> string, vocab: seq<string>,
                       selected: seq<string>, classify: seq<int> -> L)
    returns (result: Result<L, FeatureError>)
    ensures result.Failure? <==> exists f :: f in selected && f !in vocab
    ensures result.Failure? ==>
      && result.error.observed == |KnownNames(selected, vocab)|
      && result.error.expected == |selected|
      && result.error.observed < result.error.expected
    ensures result.Success? ==>
      result.value == classify(SelectedPresence(PreprocessReview(text, lemmatize), selected))
  {
    var terms := PreprocessReview(text, lemmatize);
    var row := Encode(terms, vocab);
    var reduced := SelectFeatures(row, vocab, selected);
    match reduced
    case Failure(e) =>
      return Failure(e);
    case Success(features) =>
      forall j | 0 <= j < |selected|
        ensures features[j] == SelectedPresence(terms, selected)[j]
      {
        PresenceOfTerm(terms, vocab, selected[j]);
      }
      assert features == SelectedPresence(terms, selected);
      return Success(classify(features));
  }
}
