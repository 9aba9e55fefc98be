/** Java's `String.compareTo`, following the JDK's documented contract: the
    difference of the first differing characters, or else the difference
    of the lengths. Strings are sequences of characters. */
module JavaString {

  /** `s.compareTo(t)`. */
  function CompareStrings(s: string, t: string): (r: int)
    ensures r == 0 <==> s == t
    decreases |s|
  {
    if |s| == 0 || |t| == 0 then |s| - |t|
    else if s[0] != t[0] then s[0] as int - t[0] as int
    else CompareStrings(s[1..], t[1..])
  }

  /** Lexicographic order, stated without reference to `CompareStrings`:
      `s` is a proper prefix of `t`, or at the first position where they
      differ `s` has the smaller character. */
  ghost predicate Precedes(s: string, t: string) {
    || (|s| < |t| && s == t[..|s|])
    || exists k :: 0 <= k < |s| && k < |t| && s[..k] == t[..k] && s[k] < t[k]
  }

  /** Dropping a common first character does not change the order. */
  lemma PrecedesTail(s: string, t: string)
    requires |s| > 0 && |t| > 0 && s[0] == t[0]
    ensures Precedes(s, t) <==> Precedes(s[1..], t[1..])
  {
    var s', t' := s[1..], t[1..];
    if Precedes(s, t) {
      if |s| < |t| && s == t[..|s|] {
        assert s' == t'[..|s'|];
      } else {
        var k :| 0 <= k < |s| && k < |t| && s[..k] == t[..k] && s[k] < t[k];
        assert k != 0;
        assert s'[..k-1] == s[1..k] == t[1..k] == t'[..k-1];
        assert s'[k-1] < t'[k-1];
      }
    }
    if Precedes(s', t') {
      if |s'| < |t'| && s' == t'[..|s'|] {
        assert s == [s[0]] + s' == [t[0]] + t'[..|s'|] == t[..|s|];
      } else {
        var k :| 0 <= k < |s'| && k < |t'| && s'[..k] == t'[..k] && s'[k] < t'[k];
        assert s[..k+1] == [s[0]] + s'[..k] == [t[0]] + t'[..k] == t[..k+1];
        assert s[k+1] < t[k+1];
      }
    }
  }

  /** A negative result means exactly that `s` precedes `t`, a positive one
      that `t` precedes `s`. */
  lemma {:induction false} CompareStringsMeansPrecedes(s: string, t: string)
    ensures CompareStrings(s, t) < 0 <==> Precedes(s, t)
    ensures CompareStrings(s, t) > 0 <==> Precedes(t, s)
    decreases |s|
  {
    if |s| == 0 || |t| == 0 {
      if |s| < |t| {
        assert s == t[..|s|];
      }
      if |t| < |s| {
        assert t == s[..|t|];
      }
    } else if s[0] != t[0] {
      if s[0] < t[0] {
        assert s[..0] == t[..0];
      } else {
        assert s[..0] == t[..0];
      }
      FirstDifferenceDecides(s, t);
      FirstDifferenceDecides(t, s);
    } else {
      CompareStringsMeansPrecedes(s[1..], t[1..]);
      PrecedesTail(s, t);
      PrecedesTail(t, s);
    }
  }

  /** When the first characters differ, only they decide the order. */
  lemma FirstDifferenceDecides(s: string, t: string)
    requires |s| > 0 && |t| > 0 && s[0] != t[0]
    ensures Precedes(s, t) ==> s[0] < t[0]
  {
  }

  /** Swapping the arguments flips the sign of the result. */
  lemma {:induction false} CompareStringsAntisymmetric(s: string, t: string)
    ensures CompareStrings(s, t) < 0 <==> CompareStrings(t, s) > 0
    ensures CompareStrings(s, t) == 0 <==> CompareStrings(t, s) == 0
    decreases |s|
  {
    if |s| > 0 && |t| > 0 && s[0] == t[0] {
      CompareStringsAntisymmetric(s[1..], t[1..]);
    }
  }

  /** The order `CompareStrings` induces is transitive. */
  lemma {:induction false} CompareStringsTransitive(s: string, t: string, u: string)
    requires CompareStrings(s, t) < 0 && CompareStrings(t, u) < 0
    ensures CompareStrings(s, u) < 0
    decreases |s|
  {
    if |s| > 0 && |t| > 0 && |u| > 0 && s[0] == t[0] && t[0] == u[0] {
      CompareStringsTransitive(s[1..], t[1..], u[1..]);
    }
  }
}
