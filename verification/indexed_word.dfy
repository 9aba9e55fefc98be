/** IndexedWord: a CoreLabel whose identity is its position in a corpus,
    the triple (document ID, sentence index, word index). Equality and
    hashing look at that triple only; every other annotation, the word
    itself included, is ignored. */
module IndexedWords {
  import opened Wrappers
  import opened JavaInt
  import opened CoreLabels

  datatype IndexedWord = IndexedWord(annotations: CoreLabel)

  /** What `equals` may be handed: `null`, an object of another class, or
      an IndexedWord. */
  datatype Object = Null | OtherObject | Indexed(word: IndexedWord)

  /** The three keys that identify a word. */
  datatype Position = Position(docID: Option<string>, sentIndex: Option<Int32>, index: Option<Int32>)

  function PositionOf(w: IndexedWord): Position {
    Position(w.annotations.docID, w.annotations.sentIndex, w.annotations.index)
  }

  // ---------------------------------------------------------------------
  // Constructors
  // ---------------------------------------------------------------------

  /** `new IndexedWord()`: no annotations at all. */
  function NewIndexedWord(): (r: IndexedWord)
    ensures PositionOf(r) == Position(None, None, None)
    ensures r.annotations.word.None? && r.annotations.value.None? && r.annotations.others == map[]
  {
    IndexedWord(EmptyLabel)
  }

  /** The copy constructors (from a Label, a CoreMap or a CoreLabel): every
      annotation of `l` is copied, and the word is set to the value when
      `l` has no word. */
  function CopyOf(l: CoreLabel): (r: IndexedWord)
    ensures PositionOf(r) == Position(l.docID, l.sentIndex, l.index)
    ensures r.annotations.value == l.value && r.annotations.others == l.others
    ensures l.word.Some? ==> r.annotations.word == l.word
    ensures l.word.None? ==> r.annotations.word == l.value
    ensures l.word.Some? ==> r.annotations == l
  {
    var copy := IndexedWord(l);
    if copy.annotations.word.None? then IndexedWord(copy.annotations.(word := copy.annotations.value))
    else copy
  }

  /** `new IndexedWord(docID, sentenceIndex, index)`: the three position
      keys and nothing else. A null `docID` is `None`. */
  function AtPosition(docID: Option<string>, sentenceIndex: Int32, index: Int32): (r: IndexedWord)
    ensures PositionOf(r) == Position(docID, Some(sentenceIndex), Some(index))
    ensures r.annotations.word.None? && r.annotations.value.None? && r.annotations.others == map[]
  {
    IndexedWord(EmptyLabel.(docID := docID, sentIndex := Some(sentenceIndex), index := Some(index)))
  }

  /** `new IndexedWord(docID, sentenceIndex, index, label)`: the copy
      constructor applied to the label `source`, then the three position keys
      overwritten by the arguments. */
  function AtPositionFrom(docID: Option<string>, sentenceIndex: Int32, index: Int32, source: CoreLabel): (r: IndexedWord)
    ensures PositionOf(r) == Position(docID, Some(sentenceIndex), Some(index))
    ensures r.annotations.value == source.value && r.annotations.others == source.others
    ensures r.annotations.word == (if source.word.Some? then source.word else source.value)
  {
    var copy := CopyOf(source);
    IndexedWord(copy.annotations.(docID := docID, sentIndex := Some(sentenceIndex), index := Some(index)))
  }

  /** `NO_WORD`, the word that points nowhere. */
  const NoWord: IndexedWord := AtPosition(None, -1, -1)

  /** Whether `w` has NO_WORD's position (and so equals NO_WORD). */
  predicate IsNoWord(w: IndexedWord) {
    PositionOf(w) == Position(None, Some(-1), Some(-1))
  }

  // ---------------------------------------------------------------------
  // equals
  // ---------------------------------------------------------------------

  /** The null-safe comparison `equals` applies to each key: an absent key
      matches only an absent key, a present one only an equal value. */
  function KeyMatches<K(==)>(mine: Option<K>, theirs: Option<K>): (r: bool)
    ensures r <==> mine == theirs
  {
    match mine
    case None => theirs.None?
    case Some(m) => theirs.Some? && m == theirs.value
  }

  /** `w.equals(o)`: true exactly when `o` is an IndexedWord at the same
      position as `w`. */
  function Equals(w: IndexedWord, o: Object): (r: bool)
    ensures r <==> o.Indexed? && PositionOf(w) == PositionOf(o.word)
  {
    match o
    case Indexed(other) =>
      && KeyMatches(w.annotations.docID, other.annotations.docID)
      && KeyMatches(w.annotations.sentIndex, other.annotations.sentIndex)
      && KeyMatches(w.annotations.index, other.annotations.index)
    case _ => false
  }

  /** `equals` is an equivalence relation on IndexedWords, and no other
      object is ever equal to one. */
  lemma EqualsIsEquivalence(a: IndexedWord, b: IndexedWord, c: IndexedWord)
    ensures Equals(a, Indexed(a))
    ensures Equals(a, Indexed(b)) <==> Equals(b, Indexed(a))
    ensures Equals(a, Indexed(b)) && Equals(b, Indexed(c)) ==> Equals(a, Indexed(c))
    ensures !Equals(a, Null) && !Equals(a, OtherObject)
  {
  }

  /** Two words at the same position are equal whatever else their labels
      hold; in particular all words without any position key are equal. */
  lemma EqualsIgnoresOtherAnnotations(a: IndexedWord, b: IndexedWord)
    requires a.annotations.docID == b.annotations.docID
    requires a.annotations.sentIndex == b.annotations.sentIndex
    requires a.annotations.index == b.annotations.index
    ensures Equals(a, Indexed(b))
  {
  }

  /** The four-argument constructor makes a word equal to the one the
      three-argument constructor makes from the same position. */
  lemma AtPositionFromEqualsAtPosition(docID: Option<string>, sentenceIndex: Int32, index: Int32, source: CoreLabel)
    ensures Equals(AtPositionFrom(docID, sentenceIndex, index, source), Indexed(AtPosition(docID, sentenceIndex, index)))
  {
  }

  // ---------------------------------------------------------------------
  // hashCode
  // ---------------------------------------------------------------------

  /** `w.hashCode()`, where `stringHash` is `String.hashCode` and an
      `Integer` hashes to its own value: the present keys folded as
      `29 * result + key` in 32-bit arithmetic, docID first. */
  function Hash(w: IndexedWord, stringHash: string -> Int32): (r: Int32)
    ensures PositionOf(w) == Position(None, None, None) ==> r == 0
  {
    var afterDoc: Int32 := if w.annotations.docID.Some? then stringHash(w.annotations.docID.value) else 0;
    var afterSent := if w.annotations.sentIndex.Some? then Wrap32(29 * afterDoc + w.annotations.sentIndex.value) else afterDoc;
    if w.annotations.index.Some? then Wrap32(29 * afterSent + w.annotations.index.value) else afterSent
  }

  /** The hashes of the keys `w` has, in the order docID, sentence index,
      word index. */
  function PresentKeyHashes(w: IndexedWord, stringHash: string -> Int32): (keys: seq<Int32>)
    ensures |keys| <= 3
  {
    (if w.annotations.docID.Some? then [stringHash(w.annotations.docID.value)] else [])
    + (if w.annotations.sentIndex.Some? then [w.annotations.sentIndex.value] else [])
    + (if w.annotations.index.Some? then [w.annotations.index.value] else [])
  }

  /** The polynomial hash with multiplier 29 of `keys`, in 32-bit
      arithmetic. */
  function FoldHash(keys: seq<Int32>): Int32 {
    if |keys| == 0 then 0 else Wrap32(29 * FoldHash(keys[..|keys| - 1]) + keys[|keys| - 1])
  }

  /** `hashCode` is the polynomial hash of the present keys. */
  lemma HashIsFoldOfPresentKeys(w: IndexedWord, stringHash: string -> Int32)
    ensures Hash(w, stringHash) == FoldHash(PresentKeyHashes(w, stringHash))
  {
    var keys := PresentKeyHashes(w, stringHash);
    var n := |keys|;
    if n >= 1 {
      assert keys[..n][..1] == keys[..1];
      assert FoldHash(keys[..1]) == Wrap32(29 * FoldHash([]) + keys[0]) by {
        assert keys[..1][..0] == [];
      }
    }
    if n >= 2 {
      assert keys[..2][..1] == keys[..1];
    }
    if n == 3 {
      assert keys[..3][..2] == keys[..2];
      assert keys[..3] == keys;
    }
    if n == 2 {
      assert keys[..2] == keys;
    }
    if n == 1 {
      assert keys[..1] == keys;
    }
  }

  /** `hashCode` agrees with `equals`: equal words hash alike, for any
      string hash function. */
  lemma HashConsistentWithEquals(a: IndexedWord, b: IndexedWord, stringHash: string -> Int32)
    requires Equals(a, Indexed(b))
    ensures Hash(a, stringHash) == Hash(b, stringHash)
  {
  }
}
