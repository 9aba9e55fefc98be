/** The annotations a label carries. A CoreLabel is a map from annotation
    keys to values; only the keys that IndexedWord reads or writes are
    fields of their own, and every other annotation is kept, uninterpreted,
    in `others`. An absent key, or a key stored with a null value, is
    `None`. */
module CoreLabels {
  import opened Wrappers
  import opened JavaInt

  datatype CoreLabel = CoreLabel(
    docID: Option<string>,       // DocIDAnnotation
    sentIndex: Option<Int32>,    // SentenceIndexAnnotation
    index: Option<Int32>,        // IndexAnnotation
    word: Option<string>,        // WordAnnotation
    value: Option<string>,       // ValueAnnotation
    others: map<string, string>  // every other annotation, by key name
  )

  /** The label built by CoreLabel's no-argument constructor. */
  const EmptyLabel: CoreLabel := CoreLabel(None, None, None, None, None, map[])
}
