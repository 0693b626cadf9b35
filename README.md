# svm-ig-sheet: the review-to-features pipeline in Dafny

This project models the text pipeline that `model.py` runs before its SVM
classifier sees a drug review:

- `clean_text` drops words that start with `http`, `@` or `#`, turns every
  non-letter into a space, collapses whitespace and lowercases. A missing cell
  (NaN) becomes the empty string.
- `tokenization` splits on whitespace.
- `remove_stopwords` drops the tokens whose lowercase form is in the fixed
  57-word `stop_words` set.
- `lemmatize_text` maps every token through the TextBlob lemmatiser.
- `preprocess_review` chains the four steps above.
- `svm_predict` encodes the terms as a binary presence row over the training
  vocabulary (first index wins). It then keeps the columns of the selected
  (information-gain) features that occur in the vocabulary, and raises a
  `ValueError` when the number of kept columns is not the number of selected
  features. Otherwise it hands the row to the scaler and the SVM.

Modules:

- `Wrappers`: `Option` and `Result`. `None` stands for a NaN cell, and
  `Failure(FeatureCountMismatch(...))` for the `ValueError`.
- `Seqs`: an order-preserving filter, the shape of a Python list comprehension
  with an `if` clause, proved to give a subsequence with exact membership and
  multiplicities.
- `Strings`: the Python `str` operations used: `isspace`, `isalpha`, `lower`,
  `split()` and `' '.join`, with the round trips between `split` and `join`.
- `Cleaning`: `clean_text` and the shape of every cleaned text. Only lowercase
  ASCII letters and single inner spaces can remain.
- `CleaningExamples`: worked inputs for the case-sensitive link test, and the
  proof that `clean_text` is not idempotent.
- `Preprocess`: tokenisation, stopwords, lemmatisation and `preprocess_review`.
- `Features`: the presence encoding as an array loop, column selection, the
  width check, and `svm_predict` with the classifier as a parameter.
- `PipelineExamples`: an empty review and a short symptom review.

### Cleaning is not idempotent

The `http` test is a literal, case-sensitive prefix test applied before
lowercasing. So `HTTPS` cleans to `https`, which a second pass drops as a link
(`CleaningExamples.CleanTextNotIdempotent`).

## Model

| member | source | states |
|---|---|---|
| Strings.LowerCase | model.py:40 | lowercasing keeps the length and maps each character on its own: letters go to lowercase letters and every other character is unchanged |
| Strings.LowerCaseOfLower | model.py:59 | `lower()` leaves a text without uppercase letters unchanged |
| Strings.IsSpace | model.py:34 | defines whitespace as exactly the code points Python's `str.isspace` accepts, which are also the separators of `split()` with no argument |
| Strings.IsLetter | model.py:37 | defines `isalpha` on the ASCII letters |
| Strings.Split | model.py:34 | every word `split()` returns is non-empty, holds no whitespace, and is made of characters of the input; with `Strings.SplitCollapse` the words are the maximal non-whitespace runs in order |
| Strings.SplitWord | model.py:34 | a single non-empty whitespace-free word splits to itself |
| Strings.Join | model.py:36 | `' '.join` starts with the first word and is empty only for no words or one empty word; `Strings.SplitJoin`, `Strings.JoinSplit` and `Strings.JoinSingleSpaced` state its round trips with `split()` |
| Strings.JoinCons | model.py:36 | joining a word in front of further words inserts one space exactly when there are further words |
| Strings.SplitCollapse | model.py:39 | for every text, `' '.join(s.split())` equals the character-by-character collapse: leading and trailing whitespace dropped and each inner whitespace run replaced by one space |
| Strings.CollapseSingleSpaced | model.py:39 | the collapsed text is single-spaced, and single-spaced text is left unchanged |
| Strings.NonSpaceCollapse | model.py:39 | collapsing whitespace keeps every non-whitespace character, in order |
| Strings.NonSpaceLowerCase | model.py:40 | lowercasing commutes with dropping whitespace |
| Strings.SplitJoin | model.py:36 | splitting what `' '.join` built from whitespace-free non-empty words gives back exactly those words |
| Strings.JoinSplit | model.py:39 | on single-spaced text, `' '.join(text.split())` gives back the text |
| Strings.JoinSingleSpaced | model.py:39 | `' '.join` of non-empty whitespace-free words has only plain spaces, never at an end and never two in a row |
| Strings.JoinLetters | model.py:37-39 | joining words made of letters gives a text of letters and plain spaces only |
| Seqs.Filter | model.py:35 | a list comprehension with an `if` clause keeps exactly the elements that pass, in order (a subsequence) and with their multiplicities; nothing is dropped exactly when every element passes |
| Cleaning.Discarded | model.py:35 | a word is discarded exactly when it starts with the literal `http`, `@` or `#`, case-sensitively |
| Cleaning.DropLinksAndTags | model.py:34-35 | a word is removed exactly when it starts with `http`, `@` or `#`; the survivors keep their order and their repetitions |
| Cleaning.MaskNonLetters | model.py:37-38 | letters and whitespace are kept in place and every other character becomes a space, so the length is unchanged |
| Cleaning.NonSpaceOfMasked | model.py:37-38 | after masking, the non-whitespace characters are exactly the letters of the input, in order |
| Cleaning.LowerCaseCleans | model.py:39-40 | lowercasing single-spaced text of letters gives only lowercase letters and single inner spaces |
| Cleaning.CleanText | model.py:31-40 | a NaN cell cleans to `''`; every result holds only lowercase letters and single spaces, with no space at either end |
| Cleaning.CleanTextKeepsLetters | model.py:34-40 | for every review, the non-space characters of the cleaned text are exactly the letters of the words that pass the link filter, lowercased and in order |
| Cleaning.CleanTextCollapsesMask | model.py:37-40 | for every review, the cleaned text is the lowercased character-by-character collapse of the masked kept text, so each run of non-letters between two kept letters becomes exactly one space |
| Cleaning.OnlyLinksAndTagsCleanToEmpty | model.py:34-40 | a text whose every word is a link, mention or hashtag cleans to `''` |
| CleaningExamples.LowercaseLinkDropped | model.py:35 | `http://x` is dropped as a link |
| CleaningExamples.UppercaseLinkKept | model.py:34-40 | the link test is case-sensitive: `HTTP://x` survives and cleans to `http x` |
| CleaningExamples.UppercaseHttpsCleaned | model.py:34-40 | `HTTPS` is not a link and cleans to `https` |
| CleaningExamples.LowercaseHttpsDropped | model.py:35 | `https` is dropped as a link |
| CleaningExamples.CleanTextNotIdempotent | model.py:31-40 | cleaning the cleaned form of `HTTPS` gives a different result, so `clean_text` is not idempotent |
| Preprocess.Tokenize | model.py:43-44 | every token is a non-empty whitespace-free word; joining the tokens with spaces gives the collapsed text, which is the text itself when it is single-spaced |
| Preprocess.CleanTextRoundTrip | model.py:39-44 | joining the tokens of a cleaned review with single spaces gives the cleaned review, and every token is a non-empty run of lowercase letters |
| Preprocess.CleanedTokenStopwordTest | model.py:58-59 | for tokens of a cleaned review, `word.lower() not in stop_words` is plain non-membership of the token |
| Preprocess.RemoveStopwords | model.py:48-59 | exactly the tokens whose lowercase form is not one of the 57 words of `stop_words` (the constant `Preprocess.StopWords`) remain, as a subsequence with their multiplicities |
| Preprocess.LemmatizeText | model.py:64-65 | one lemma per token, position by position |
| Preprocess.LemmasOfKeptTokens | model.py:73-74 | after stopword removal and lemmatisation, every term is the lemma of a non-stopword token, every non-stopword token's lemma is a term, and there are no more terms than tokens |
| Preprocess.PreprocessReview | model.py:70-75 | the terms of a review are exactly the lemmas of the non-stopword tokens of its cleaned text, at most one per token |
| Features.FirstIndex | model.py:87 | `vocab.index(term)` is a position holding `term` with no earlier occurrence |
| Features.Presence | model.py:84-88 | the encoded row has one entry per vocabulary term and every entry is 0 or 1 |
| Features.PresenceOfTerm | model.py:84-88 | the entry at a vocabulary term's first index is 1 exactly when the term is among the review's terms |
| Features.PresenceIgnoresOrderAndRepetition | model.py:85-88 | two term lists with the same members encode to the same row, whatever their order and repetitions |
| Features.PresenceOverDistinctVocab | model.py:84-88 | over a vocabulary without duplicates, entry `i` is 1 exactly when `vocab[i]` is a term |
| Features.Encode | model.py:84-88 | the loop fills a new zero array of width `len(vocab)` and ends holding the presence row of the terms |
| Features.KnownNames | model.py:91-92 | the comprehension's `if f in vocab` keeps exactly the selected names in the vocabulary, in order and with repetitions; its length is `len(selected_features)` exactly when every selected name is in the vocabulary |
| Features.SelectedColumns | model.py:91-92 | each column index is in range and is `vocab.index` of the kept name at the same position |
| Features.SelectFeatures | model.py:91-97 | the width check fails exactly when some selected name is missing from the vocabulary, reporting the kept and the expected width in a `Features.FeatureError` (the `ValueError`); otherwise column `j` is the row entry at `vocab.index(selected[j])` |
| Features.SvmPredict | model.py:80-104 | prediction raises exactly when a selected name is missing from the vocabulary; otherwise the classifier receives, for each selected name, 1 when it is a term of the review and 0 otherwise |
| PipelineExamples.EmptyReviewSelectsZeros | model.py:31-33 | a missing or empty review has no terms, so every selected feature is 0 |
| PipelineExamples.SymptomReviewEncoding | model.py:84-92 | the terms `felt some swelling nausea after dose` over `swelling nausea dizzy` encode to `1 1 0`, and selecting `swelling nausea` gives `1 1` |

## Left out

- The scaler and the SVM (model.py:100-103) become one parameter `classify`. They compute in floating point on a fitted model that is loaded from disk, and the model does not capture them.
- `Word(word).lemmatize()` (TextBlob's WordNet lookup) is the parameter `lemmatize`. Its dictionary is outside this model.
- Strings.IsLetter: `isalpha()` is modelled on the ASCII letters only. A non-ASCII letter such as `é` is kept by the source and masked to a space by the model, and `lower()` is modelled on ASCII only.
- Features.Encode: the row is a 1-D `array<int>` of 0/1 rather than a 1×N `float64` numpy matrix. The values are the same, but the matrix shape is not modelled.
- Features.SelectFeatures: the gather `text_tfidf[:, cols]` is a sequence comprehension over the array, not a separate copy loop.
- Cleaning.CleanText: the only non-string cell modelled is NaN/None (`Option`). Other non-string cell values, which would make `split()` raise, are not modelled.
- Loading the pickled model, scaler, vocabulary and selected features, and reading the Google Sheet (model.py:10-28), are I/O. They become the parameters `vocab`, `selected` and `classify`.
- `get_all_drugs`, `get_drug_info` and `add_new_drug_data` (model.py:106-121) and the web front end in `app.py` are not part of this model.
- No lemma takes a concrete raw review through stopword removal: that would need the non-membership of a literal word in the 57-word set. `Preprocess.RemoveStopwords` states the general property instead.
