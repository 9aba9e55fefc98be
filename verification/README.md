# IndexedWord: position-based identity and order of corpus tokens

This project models `edu.stanford.nlp.ling.IndexedWord` from Stanford
CoreNLP. An IndexedWord is a CoreLabel (a bag of annotations) whose identity
is its position in a corpus. That position is the triple (document ID,
sentence index, word index). `equals`, `hashCode` and `compareTo` look at
that triple only. The word, the value and every other annotation are
ignored. The sentinel `NO_WORD = (null, -1, -1)` sorts before every other
word.

The model is functional. A label is an immutable record
`CoreLabels.CoreLabel`. It has optional `docID`, `sentIndex` and `index`,
an optional `word` and `value`, and a map holding every other annotation.
Java's `null` is `None`. Java `int`s are the subset type `JavaInt.Int32`,
and the source's 32-bit wrap-around is written out as `JavaInt.Wrap32`.

Modules, one per source concept:

- `Wrappers`: `Option`, `Result` and the exception the factory throws.
- `JavaInt`: 32-bit integers, wrap-around, `Integer.compare`.
- `JavaString`: `String.compareTo` on character sequences, following the
  JDK's documented contract, with its order laws.
- `CoreLabels`: the annotation record.
- `IndexedWords`: the constructors, `NO_WORD`, `equals` and `hashCode`.
- `IndexedWordOrder`: `compareTo` as written, a corrected variant, and the
  order laws.
- `IndexedWordFactory`: the LabelFactory returned by `factory()`.

Each operation has a partner, and a lemma relates the two:

- `equals` is related by a proved lemma to equality of the position
  triple.
- `hashCode` is related by proved lemmas to `equals`, and to a polynomial
  fold of the present keys.
- `compareTo` is related by a proved lemma to `Before`, an order stated on
  positions alone. The string comparison is related by a proved lemma to
  `Precedes`, a lexicographic order stated without recursion.

## Model

| member | source | states |
|---|---|---|
| IndexedWords.NewIndexedWord | src/edu/stanford/nlp/ling/IndexedWord.java:28-30 | the default constructor yields a word with no position keys, no word, no value and no other annotation |
| IndexedWords.CopyOf | src/edu/stanford/nlp/ling/IndexedWord.java:40-66 | the copy constructors keep the position keys, the value and every other annotation; the word is kept when present and otherwise becomes the value; a label that already has a word is copied unchanged |
| IndexedWords.AtPosition | src/edu/stanford/nlp/ling/IndexedWord.java:76-81 | the three-argument constructor sets exactly the three position keys and no other annotation |
| IndexedWords.AtPositionFrom | src/edu/stanford/nlp/ling/IndexedWord.java:94-99 | the four-argument constructor takes the position from its arguments rather than the label; value and other annotations come from the label; the word is the label's word, or its value when it has none |
| IndexedWords.AtPositionFromEqualsAtPosition | src/edu/stanford/nlp/ling/IndexedWord.java:84-99 | a word built by the four-argument constructor equals the word built by the three-argument one from the same position, whatever the label |
| IndexedWords.KeyMatches | src/edu/stanford/nlp/ling/IndexedWord.java:115-138 | the null-safe key test is true exactly when both keys are absent or both are present and equal |
| IndexedWords.Equals | src/edu/stanford/nlp/ling/IndexedWord.java:108-140 | equals holds exactly when the argument is an IndexedWord with the same docID, sentence index and word index; null and other classes are never equal |
| IndexedWords.EqualsIsEquivalence | src/edu/stanford/nlp/ling/IndexedWord.java:109-111 | equals is reflexive, symmetric and transitive, and is false for null and for non-IndexedWord objects |
| IndexedWords.EqualsIgnoresOtherAnnotations | src/edu/stanford/nlp/ling/IndexedWord.java:102-107 | two words with the same three keys are equal whatever their word, value or other annotations; words lacking all three keys are all equal |
| IndexedWords.Hash | src/edu/stanford/nlp/ling/IndexedWord.java:147-167 | the hash is 0 when no position key is present |
| IndexedWords.HashIsFoldOfPresentKeys | src/edu/stanford/nlp/ling/IndexedWord.java:148-166 | the hash is the 32-bit polynomial fold, with multiplier 29, of the present keys' hashes in the order docID, sentence index, word index |
| IndexedWords.HashConsistentWithEquals | src/edu/stanford/nlp/ling/IndexedWord.java:143-166 | equal words have equal hashes, for every string hash function |
| JavaInt.Wrap32 | src/edu/stanford/nlp/ling/IndexedWord.java:156-160 | int arithmetic gives the exact result reduced modulo 2^32 into the signed range, and leaves results already in range unchanged |
| JavaString.CompareStrings | src/edu/stanford/nlp/ling/IndexedWord.java:197-199 | the docID comparison is zero exactly when the two strings are equal |
| JavaString.CompareStringsMeansPrecedes | src/edu/stanford/nlp/ling/IndexedWord.java:197-199 | the docID comparison is negative exactly when the first string precedes the second lexicographically (proper prefix or smaller first differing character), and positive exactly when the second precedes the first |
| JavaString.CompareStringsAntisymmetric | src/edu/stanford/nlp/ling/IndexedWord.java:197-199 | swapping the strings flips the sign of the comparison and keeps zero at zero |
| JavaString.CompareStringsTransitive | src/edu/stanford/nlp/ling/IndexedWord.java:197-199 | the string order is transitive |
| IndexedWordOrder.EqualsNoWordIffIsNoWord | src/edu/stanford/nlp/ling/IndexedWord.java:20-23 | a word equals NO_WORD exactly when its position is (null, -1, -1) |
| IndexedWordOrder.CompareTo | src/edu/stanford/nlp/ling/IndexedWord.java:185-205 | as written, including the int subtractions: comparing NO_WORD with NO_WORD gives 0, NO_WORD with another word gives -1, and another word with NO_WORD gives 1; for every int index the result is 0 exactly when equals holds |
| IndexedWordOrder.CompareToConsistentWithEquals | src/edu/stanford/nlp/ling/IndexedWord.java:177-204 | for every int index, the as-written comparison is 0 exactly when equals holds, and two words it calls equal compare identically with any third word, on either side |
| IndexedWordOrder.CompareToCorrected | src/edu/stanford/nlp/ling/IndexedWord.java:185-205 | the same comparison with the index subtractions replaced by a sign comparison that cannot overflow; it keeps the same NO_WORD rules |
| IndexedWordOrder.CompareToCorrectedMeansBefore | src/edu/stanford/nlp/ling/IndexedWord.java:177-181 | the corrected comparison is negative, zero or positive exactly as the first word is before, equal to, or after the second: NO_WORD first, then document, then sentence, then word index |
| IndexedWordOrder.BeforeIsStrictTotalOrder | src/edu/stanford/nlp/ling/IndexedWord.java:177-181 | the intended position order is irreflexive, asymmetric, transitive and total up to equals, and equal words stand alike to every third word |
| IndexedWordOrder.CompareToCorrectedIsTotalOrder | src/edu/stanford/nlp/ling/IndexedWord.java:185-205 | the corrected comparison is sign-antisymmetric and transitive, is zero exactly when equals holds, and words it calls equal compare alike with any third word |
| IndexedWordOrder.CompareToAgreesWhenIndicesSmall | src/edu/stanford/nlp/ling/IndexedWord.java:201-204 | when every index is within 2^30 of zero, the as-written comparison has the sign of the corrected one |
| IndexedWordOrder.CompareToIsTotalOrderWhenIndicesSmall | src/edu/stanford/nlp/ling/IndexedWord.java:185-205 | when every index is within 2^30 of zero, the as-written comparison is also sign-antisymmetric and transitive |
| IndexedWordOrder.CompareToOverflowBreaksAntisymmetry | src/edu/stanford/nlp/ling/IndexedWord.java:201-202 | as written, two words in one document with sentence indices -2^31 and 0 each compare below the other |
| IndexedWordOrder.CompareToOverflowBreaksTransitivity | src/edu/stanford/nlp/ling/IndexedWord.java:201-202 | as written, three words in one document with sentence indices 2^30, 0 and -2^30 compare first above second and second above third, yet first below third |
| IndexedWordFactory.NewLabel | src/edu/stanford/nlp/ling/IndexedWord.java:218-222 | the factory's newLabel(s) yields a word whose value is s and which has no position keys, no word and no other annotation |
| IndexedWordFactory.NewLabelWithOptions | src/edu/stanford/nlp/ling/IndexedWord.java:224-226 | newLabel(s, options) ignores the options and yields the same word as newLabel(s) |
| IndexedWordFactory.NewLabelFrom | src/edu/stanford/nlp/ling/IndexedWord.java:228-230 | newLabel(oldLabel) is the copy constructor, and it keeps the old label's position |
| IndexedWordFactory.NewLabelFromString | src/edu/stanford/nlp/ling/IndexedWord.java:232-235 | newLabelFromString fails with UnsupportedOperationException for every input |
| IndexedWordFactory.NewLabelsAreIndistinguishable | src/edu/stanford/nlp/ling/IndexedWord.java:218-222 | any two labels made by newLabel are equal under equals, whatever their values, and hash to 0 |

## Findings

| source | as written | input that shows it | evidently intended | confidence | as-written member | corrected member |
|---|---|---|---|---|---|---|
| src/edu/stanford/nlp/ling/IndexedWord.java:201-204 | the sentence and word indices are compared by subtracting them in 32-bit int arithmetic, and the difference can overflow | two words with docID "d", word index 0, and sentence indices -2^31 and 0: each compares below the other | compare the indices by sign, as `Integer.compare` does, so that compareTo is antisymmetric for every int index | not executed; the overflow needs indices far beyond real corpus sizes | IndexedWordOrder.CompareToOverflowBreaksAntisymmetry | IndexedWordOrder.CompareToCorrectedIsTotalOrder |
| src/edu/stanford/nlp/ling/IndexedWord.java:201-204 | the same subtraction, whose difference can overflow | three words with docID "d", word index 0, and sentence indices 2^30, 0 and -2^30: the first is above the second, the second above the third, yet the first is below the third | compare the indices by sign, so that compareTo is transitive for every int index | not executed; the overflow needs indices far beyond real corpus sizes | IndexedWordOrder.CompareToOverflowBreaksTransitivity | IndexedWordOrder.CompareToCorrectedIsTotalOrder |

The order laws are proved for `CompareToCorrected` on all `int` indices.
`CompareTo`, as written, is zero exactly when `equals` holds for every
index. It is shown to agree with the corrected comparison in sign whenever
the indices are within 2^30 of zero. Below that bound no subtraction can
overflow.

## Left out

- The tokenizer (PTBTokenizer, its lexer, the detokenizer and the
  invertible-mode bookkeeping) is not part of this model.
  test/src/edu/stanford/nlp/process/PTBTokenizerTest.java feeds strings
  into that code and compares its outputs (token lists, detokenized text,
  invertible-mode annotations and offsets) with expected values.
- CoreLabel, CoreMap and the Label interface are not part of this model. A
  label is the record `CoreLabels.CoreLabel`. Copying a Label that is not a
  CoreMap, which CoreLabel's constructor handles, is not modelled.
- A key stored with a null value counts as absent. This covers a null
  docID passed to a constructor. `CoreLabel.getString` is not part of this
  model. It is taken to return the stored docID, or null when there is
  none, which is what the null tests in `equals` (lines 117-122) expect.
  The doc comment at lines 173-175 says instead that `compareTo` does not
  fail on missing keys. That would hold only if `getString` returned a
  non-null default for a missing docID, and then the null test at line 117
  could never fire.
- IndexedWords.Equals: keeps a missing docID distinct from every present
  docID, including any default string that `getString` may return for a
  missing key. If `getString` returns such a default, the source instead
  treats a missing docID as equal to that string, and a word at (default,
  -1, -1) as equal to NO_WORD.
- IndexedWords.Hash: a sentence index or word index stored with a null
  value is absent here, so the hash skips it. In the source, `hashCode`
  tests such a key with `has` and then throws NullPointerException when it
  hashes the null value, while `equals` treats the key as absent. That
  exception path is not modelled.
- `String.hashCode` is the parameter `stringHash` of `IndexedWords.Hash`.
  An `Integer` hashes to its own value, as in the JDK.
- `hashCode`'s warning on standard error, printed when no key is present,
  is I/O and is not modelled. Only the returned value is.
- `toString` depends on `CoreLabel.VALUE_TAG_FORMAT`, which is not part of
  this model. `serialVersionUID` is not modelled either.
- `labelFactory()` only returns `factory()`. The anonymous factory class is
  the module `IndexedWordFactory`, with no object of its own.
- IndexedWordFactory.NewLabel: takes a non-null string. A null `labelStr`,
  which would leave the value absent, is not modelled.
- IndexedWords.Equals: the reference-identity shortcut (`this == o`) has no
  counterpart in a value model. It cannot change the result, because
  equals is reflexive (`EqualsIsEquivalence`).
- IndexedWordOrder.CompareTo: requires that one side equal NO_WORD, or that
  both sides have all three keys. The doc comment at lines 169-175 asks for
  this. Outside it, under the `getString` reading above, a missing docID
  reaches `compareTo` at line 198 as null and throws NullPointerException.
  This conflicts with the doc comment at lines 173-175, which says the
  method does not fail there. An absent index goes to `CoreLabel.sentIndex()`/`index()`, which are not part of
  this model.
- JavaString.CompareStrings: compares Unicode scalar values. Java compares
  UTF-16 code units, and the two orders can differ on characters outside
  the Basic Multilingual Plane.
