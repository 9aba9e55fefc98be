/** The LabelFactory that `IndexedWord.factory()` (and `labelFactory()`)
    returns. */
module IndexedWordFactory {
  import opened Wrappers
  import opened JavaInt
  import opened CoreLabels
  import opened IndexedWords

  /** `newLabel(labelStr)`: a fresh IndexedWord whose value is `labelStr`
      and which has no other annotation, position keys included. */
  function NewLabel(labelStr: string): (r: IndexedWord)
    ensures r.annotations.value == Some(labelStr)
    ensures PositionOf(r) == Position(None, None, None)
    ensures r.annotations.word.None? && r.annotations.others == map[]
  {
    var empty := NewIndexedWord();
    IndexedWord(empty.annotations.(value := Some(labelStr)))
  }

  /** `newLabel(labelStr, options)`: the options are ignored. */
  function NewLabelWithOptions(labelStr: string, options: Int32): (r: IndexedWord)
    ensures r == NewLabel(labelStr)
    ensures r.annotations.value == Some(labelStr)
  {
    NewLabel(labelStr)
  }

  /** `newLabel(oldLabel)`: the copy constructor. */
  function NewLabelFrom(oldLabel: CoreLabel): (r: IndexedWord)
    ensures r == CopyOf(oldLabel)
    ensures PositionOf(r) == Position(oldLabel.docID, oldLabel.sentIndex, oldLabel.index)
  {
    CopyOf(oldLabel)
  }

  /** `newLabelFromString(encodedLabelStr)`: always throws
      UnsupportedOperationException. */
  function NewLabelFromString(encodedLabelStr: string): (r: Result<IndexedWord>)
    ensures r.Failure? && r.error.UnsupportedOperation?
  {
    Failure(UnsupportedOperation("This code branch left blank because we do not understand what this method should do."))
  }

  /** The labels `newLabel` makes carry no position, so `equals` cannot
      tell them apart, whatever their values, and they all hash to 0. */
  lemma NewLabelsAreIndistinguishable(s: string, t: string, stringHash: string -> Int32)
    ensures Equals(NewLabel(s), Indexed(NewLabel(t)))
    ensures Hash(NewLabel(s), stringHash) == 0
  {
  }
}
