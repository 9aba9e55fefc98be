/** `IndexedWord.compareTo`: NO_WORD first, then by document ID, sentence
    index and word index. */
module IndexedWordOrder {
  import opened Wrappers
  import opened JavaInt
  import opened JavaString
  import opened IndexedWords

  /** All three position keys are present. */
  predicate HasPosition(w: IndexedWord) {
    w.annotations.docID.Some? && w.annotations.sentIndex.Some? && w.annotations.index.Some?
  }

  /** The words `compareTo` is meant for: NO_WORD, or a word with all
      three position keys. */
  predicate Orderable(w: IndexedWord) {
    IsNoWord(w) || HasPosition(w)
  }

  /** The pairs on which `compareTo` returns without throwing: one side is
      NO_WORD, or both sides have all three position keys. */
  predicate Comparable(a: IndexedWord, b: IndexedWord) {
    IsNoWord(a) || IsNoWord(b) || (HasPosition(a) && HasPosition(b))
  }

  /** Indices small enough that the difference of two of them is a Java
      `int`. */
  predicate SmallIndices(w: IndexedWord) {
    && (w.annotations.sentIndex.Some? ==> -0x4000_0000 <= w.annotations.sentIndex.value < 0x4000_0000)
    && (w.annotations.index.Some? ==> -0x4000_0000 <= w.annotations.index.value < 0x4000_0000)
  }

  /** The intended order, stated on positions alone: NO_WORD before every
      other word, then documents in lexicographic order, then sentence
      index, then word index. */
  ghost predicate Before(a: IndexedWord, b: IndexedWord) {
    if IsNoWord(a) then !IsNoWord(b)
    else
      && HasPosition(a) && HasPosition(b)
      && var p, q := PositionOf(a), PositionOf(b);
         || Precedes(p.docID.value, q.docID.value)
         || (p.docID == q.docID && p.sentIndex.value < q.sentIndex.value)
         || (p.docID == q.docID && p.sentIndex == q.sentIndex && p.index.value < q.index.value)
  }

  /** Equality with NO_WORD is having NO_WORD's position. */
  lemma EqualsNoWordIffIsNoWord(w: IndexedWord)
    ensures Equals(w, Indexed(NoWord)) <==> IsNoWord(w)
  {
  }

  /** `a.compareTo(b)` as written: the sentence and word indices are
      compared by subtracting them in 32-bit arithmetic. */
  function CompareTo(a: IndexedWord, b: IndexedWord): (r: int)
    requires Comparable(a, b)
    ensures IsNoWord(a) && IsNoWord(b) ==> r == 0
    ensures IsNoWord(a) && !IsNoWord(b) ==> r == -1
    ensures !IsNoWord(a) && IsNoWord(b) ==> r == 1
    ensures r == 0 <==> Equals(a, Indexed(b))
  {
    if Equals(a, Indexed(NoWord)) then
      if Equals(b, Indexed(NoWord)) then 0 else -1
    else if Equals(b, Indexed(NoWord)) then 1
    else
      var docComp := CompareStrings(a.annotations.docID.value, b.annotations.docID.value);
      if docComp != 0 then docComp
      else
        var sentComp := Wrap32(a.annotations.sentIndex.value - b.annotations.sentIndex.value);
        if sentComp != 0 then sentComp
        else Wrap32(a.annotations.index.value - b.annotations.index.value)
  }

  /** `compareTo` with each subtraction replaced by `Integer.compare`, so
      that no index difference can overflow. */
  function CompareToCorrected(a: IndexedWord, b: IndexedWord): (r: int)
    requires Comparable(a, b)
    ensures IsNoWord(a) && IsNoWord(b) ==> r == 0
    ensures IsNoWord(a) && !IsNoWord(b) ==> r == -1
    ensures !IsNoWord(a) && IsNoWord(b) ==> r == 1
  {
    if Equals(a, Indexed(NoWord)) then
      if Equals(b, Indexed(NoWord)) then 0 else -1
    else if Equals(b, Indexed(NoWord)) then 1
    else
      var docComp := CompareStrings(a.annotations.docID.value, b.annotations.docID.value);
      if docComp != 0 then docComp
      else
        var sentComp := CompareInts(a.annotations.sentIndex.value, b.annotations.sentIndex.value);
        if sentComp != 0 then sentComp
        else CompareInts(a.annotations.index.value, b.annotations.index.value)
  }

  /** The corrected comparison is negative, zero or positive exactly as `a`
      comes before, equals, or comes after `b` in the intended order. */
  lemma CompareToCorrectedMeansBefore(a: IndexedWord, b: IndexedWord)
    requires Comparable(a, b)
    ensures CompareToCorrected(a, b) < 0 <==> Before(a, b)
    ensures CompareToCorrected(a, b) == 0 <==> Equals(a, Indexed(b))
    ensures CompareToCorrected(a, b) > 0 <==> Before(b, a)
  {
    if !IsNoWord(a) && !IsNoWord(b) {
      CompareStringsMeansPrecedes(a.annotations.docID.value, b.annotations.docID.value);
    }
  }

  /** The intended order is a strict total order on the words `compareTo`
      is meant for, with `equals` as its equivalence. */
  lemma BeforeIsStrictTotalOrder(a: IndexedWord, b: IndexedWord, c: IndexedWord)
    requires Orderable(a) && Orderable(b) && Orderable(c)
    ensures !Before(a, a)
    ensures Before(a, b) ==> !Before(b, a)
    ensures Before(a, b) && Before(b, c) ==> Before(a, c)
    ensures !Equals(a, Indexed(b)) ==> Before(a, b) || Before(b, a)
    ensures Equals(a, Indexed(b)) ==> (Before(a, c) <==> Before(b, c)) && (Before(c, a) <==> Before(c, b))
  {
    if HasPosition(a) && HasPosition(b) && HasPosition(c) {
      var s, t, u := a.annotations.docID.value, b.annotations.docID.value, c.annotations.docID.value;
      CompareStringsMeansPrecedes(s, s);
      CompareStringsMeansPrecedes(s, t);
      CompareStringsMeansPrecedes(t, u);
      CompareStringsMeansPrecedes(s, u);
      CompareStringsAntisymmetric(s, t);
      if CompareStrings(s, t) < 0 && CompareStrings(t, u) < 0 {
        CompareStringsTransitive(s, t, u);
      }
    } else if HasPosition(a) && HasPosition(b) {
      var s, t := a.annotations.docID.value, b.annotations.docID.value;
      CompareStringsMeansPrecedes(s, s);
      CompareStringsMeansPrecedes(s, t);
    } else if HasPosition(a) {
      CompareStringsMeansPrecedes(a.annotations.docID.value, a.annotations.docID.value);
    }
  }

  /** The corrected comparison meets the contract of `Comparable`: it is
      antisymmetric in sign, transitive, and words it calls equal compare
      alike with every third word. */
  lemma CompareToCorrectedIsTotalOrder(a: IndexedWord, b: IndexedWord, c: IndexedWord)
    requires Orderable(a) && Orderable(b) && Orderable(c)
    ensures Sign(CompareToCorrected(a, b)) == -Sign(CompareToCorrected(b, a))
    ensures CompareToCorrected(a, b) > 0 && CompareToCorrected(b, c) > 0 ==> CompareToCorrected(a, c) > 0
    ensures CompareToCorrected(a, b) == 0 ==> Sign(CompareToCorrected(a, c)) == Sign(CompareToCorrected(b, c))
    ensures CompareToCorrected(a, b) == 0 <==> Equals(a, Indexed(b))
  {
    CompareToCorrectedMeansBefore(a, b);
    CompareToCorrectedMeansBefore(b, a);
    CompareToCorrectedMeansBefore(a, c);
    CompareToCorrectedMeansBefore(b, c);
    CompareToCorrectedMeansBefore(c, b);
    BeforeIsStrictTotalOrder(a, b, c);
    BeforeIsStrictTotalOrder(c, b, a);
  }

  /** When no index difference overflows, `compareTo` as written has the
      sign of the corrected comparison. */
  lemma CompareToAgreesWhenIndicesSmall(a: IndexedWord, b: IndexedWord)
    requires Comparable(a, b)
    requires SmallIndices(a) && SmallIndices(b)
    ensures Sign(CompareTo(a, b)) == Sign(CompareToCorrected(a, b))
  {
  }

  /** Whatever the indices, `compareTo` as written is consistent with
      `equals`: a wrapped difference of two `int`s is zero only when they
      are equal, so words it calls equal compare alike with every third
      word. */
  lemma CompareToConsistentWithEquals(a: IndexedWord, b: IndexedWord, c: IndexedWord)
    requires Orderable(a) && Orderable(b) && Orderable(c)
    ensures CompareTo(a, b) == 0 <==> Equals(a, Indexed(b))
    ensures CompareTo(a, b) == 0 ==> CompareTo(a, c) == CompareTo(b, c) && CompareTo(c, a) == CompareTo(c, b)
  {
  }

  /** With indices within 2^30 of zero, `compareTo` as written is also
      antisymmetric in sign and transitive. */
  lemma CompareToIsTotalOrderWhenIndicesSmall(a: IndexedWord, b: IndexedWord, c: IndexedWord)
    requires Orderable(a) && Orderable(b) && Orderable(c)
    requires SmallIndices(a) && SmallIndices(b) && SmallIndices(c)
    ensures Sign(CompareTo(a, b)) == -Sign(CompareTo(b, a))
    ensures CompareTo(a, b) > 0 && CompareTo(b, c) > 0 ==> CompareTo(a, c) > 0
  {
    CompareToAgreesWhenIndicesSmall(a, b);
    CompareToAgreesWhenIndicesSmall(b, a);
    CompareToAgreesWhenIndicesSmall(a, c);
    CompareToAgreesWhenIndicesSmall(b, c);
    CompareToCorrectedIsTotalOrder(a, b, c);
  }

  /** As written, `compareTo` is not antisymmetric once an index difference
      overflows: with sentence indices -2^31 and 0 in the same document,
      each word compares below the other. */
  lemma CompareToOverflowBreaksAntisymmetry()
    ensures var a, b := AtPosition(Some("d"), MinInt32, 0), AtPosition(Some("d"), 0, 0);
            CompareTo(a, b) < 0 && CompareTo(b, a) < 0
  {
    var a, b := AtPosition(Some("d"), MinInt32, 0), AtPosition(Some("d"), 0, 0);
    assert CompareStrings("d", "d") == 0;
    assert CompareTo(a, b) == MinInt32;
    assert CompareTo(b, a) == MinInt32;
  }

  /** As written, `compareTo` is not transitive once an index difference
      overflows: with sentence indices 2^30, 0 and -2^30 in one document,
      the first compares above the second and the second above the third,
      yet the difference 2^31 between the first and third wraps to
      negative. */
  lemma CompareToOverflowBreaksTransitivity()
    ensures var a, b, c := AtPosition(Some("d"), 0x4000_0000, 0), AtPosition(Some("d"), 0, 0),
                           AtPosition(Some("d"), -0x4000_0000, 0);
            CompareTo(a, b) > 0 && CompareTo(b, c) > 0 && CompareTo(a, c) < 0
  {
    assert CompareStrings("d", "d") == 0;
  }
}
