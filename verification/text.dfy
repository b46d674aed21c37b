/** String validation as the source does it: JavaScript's String.prototype.trim
    and the isNonEmptyString / isValidId guards built on it. */
module Text {

  /** ECMAScript WhiteSpace and LineTerminator code points, the set trim() removes. */
  predicate IsWhitespace(c: char)
  {
    || c == '\t' || c == '\n' || c == '\U{000B}' || c == '\U{000C}' || c == '\r'
    || c == ' ' || c == '\U{00A0}' || c == '\U{1680}'
    || ('\U{2000}' <= c <= '\U{200A}')
    || c == '\U{2028}' || c == '\U{2029}' || c == '\U{202F}' || c == '\U{205F}'
    || c == '\U{3000}' || c == '\U{FEFF}'
  }

  /** No whitespace at either end. */
  predicate IsTrimmed(s: string)
  {
    s == [] || (!IsWhitespace(s[0]) && !IsWhitespace(s[|s| - 1]))
  }

  /** Drops the leading whitespace. */
  function TrimStart(s: string): (r: string)
    ensures |r| <= |s|
  {
    if s != [] && IsWhitespace(s[0]) then TrimStart(s[1..]) else s
  }

  /** Drops the trailing whitespace. */
  function TrimEnd(s: string): (r: string)
    ensures |r| <= |s|
  {
    if s != [] && IsWhitespace(s[|s| - 1]) then TrimEnd(s[..|s| - 1]) else s
  }

  /** TrimStart keeps a suffix that does not start with whitespace. */
  lemma {:induction false} TrimStartShape(s: string)
    ensures TrimStart(s) == s[|s| - |TrimStart(s)|..]
    ensures TrimStart(s) == [] || !IsWhitespace(TrimStart(s)[0])
  {
    if s != [] && IsWhitespace(s[0]) {
      TrimStartShape(s[1..]);
    }
  }

  /** TrimEnd keeps a prefix that does not end with whitespace. */
  lemma {:induction false} TrimEndShape(s: string)
    ensures TrimEnd(s) == s[..|TrimEnd(s)|]
    ensures TrimEnd(s) == [] || !IsWhitespace(TrimEnd(s)[|TrimEnd(s)| - 1])
  {
    if s != [] && IsWhitespace(s[|s| - 1]) {
      TrimEndShape(s[..|s| - 1]);
    }
  }

  /** Everything TrimStart cuts off is whitespace. */
  lemma {:induction false} TrimStartCutsWhitespace(s: string, i: nat)
    requires i < |s| - |TrimStart(s)|
    ensures IsWhitespace(s[i])
  {
    if i > 0 {
      TrimStartCutsWhitespace(s[1..], i - 1);
    }
  }

  /** Everything TrimEnd cuts off is whitespace. */
  lemma {:induction false} TrimEndCutsWhitespace(s: string, i: nat)
    requires |TrimEnd(s)| <= i < |s|
    ensures IsWhitespace(s[i])
  {
    if i < |s| - 1 {
      TrimEndCutsWhitespace(s[..|s| - 1], i);
    }
  }

  /** String.prototype.trim: cut the leading, then the trailing whitespace. */
  function Trim(s: string): (r: string)
    ensures |r| <= |s|
  {
    TrimEnd(TrimStart(s))
  }

  /** trim() leaves no whitespace at either end. */
  lemma {:induction false} TrimIsTrimmed(s: string)
    ensures IsTrimmed(Trim(s))
  {
    var t := TrimStart(s);
    TrimStartShape(s);
    TrimEndShape(t);
    if TrimEnd(t) != [] {
      assert TrimEnd(t)[0] == t[0];
    }
  }

  /** Where trim() starts cutting the kept part out of s. */
  function TrimOffset(s: string): (lo: nat)
    ensures lo <= |s|
  {
    |s| - |TrimStart(s)|
  }

  /** Everything before the kept part is whitespace. */
  lemma {:induction false} TrimLeadIsWhitespace(s: string)
    ensures forall i :: 0 <= i < TrimOffset(s) ==> IsWhitespace(s[i])
  {
    forall i | 0 <= i < TrimOffset(s) ensures IsWhitespace(s[i]) {
      TrimStartCutsWhitespace(s, i);
    }
  }

  /** Everything after the kept part is whitespace. */
  lemma {:induction false} TrimTailIsWhitespace(s: string)
    ensures TrimOffset(s) + |Trim(s)| <= |s|
    ensures forall i :: TrimOffset(s) + |Trim(s)| <= i < |s| ==> IsWhitespace(s[i])
  {
    var t := TrimStart(s);
    var lo := |s| - |t|;
    TrimStartShape(s);
    forall i | lo + |Trim(s)| <= i < |s| ensures IsWhitespace(s[i]) {
      TrimEndCutsWhitespace(t, i - lo);
      assert t[i - lo] == s[i];
    }
  }

  /** What trim() keeps is the infix of s between the leading and the trailing
      whitespace. */
  lemma {:induction false} TrimIsInfix(s: string)
    ensures TrimOffset(s) + |Trim(s)| <= |s|
    ensures Trim(s) == s[TrimOffset(s)..TrimOffset(s) + |Trim(s)|]
    ensures forall i :: 0 <= i < TrimOffset(s) ==> IsWhitespace(s[i])
    ensures forall i :: TrimOffset(s) + |Trim(s)| <= i < |s| ==> IsWhitespace(s[i])
  {
    var t := TrimStart(s);
    var r := TrimEnd(t);
    var lo := |s| - |t|;
    TrimStartShape(s);
    TrimEndShape(t);
    assert r == s[lo..][..|r|];
    TrimLeadIsWhitespace(s);
    TrimTailIsWhitespace(s);
  }

  /** trim() yields the empty string exactly when s is all whitespace. */
  lemma {:induction false} TrimEmptyIffBlank(s: string)
    ensures Trim(s) == [] <==> forall i :: 0 <= i < |s| ==> IsWhitespace(s[i])
  {
    TrimIsInfix(s);
    var t := TrimStart(s);
    TrimStartShape(s);
    if t != [] {
      TrimEndShape(t);
      assert TrimEnd(t) != [];
    }
  }

  /** isNonEmptyString (and isValidId): some character is not whitespace, so
      something is left after trimming (NonEmptyIffTrimNonEmpty). */
  predicate IsNonEmptyString(s: string)
  {
    exists i :: 0 <= i < |s| && !IsWhitespace(s[i])
  }

  /** A stored name or class name: non-empty, with no whitespace at either end
      (StoredIffOwnTrim: a non-blank string equal to its own trim). */
  predicate IsStoredText(s: string)
  {
    s != [] && IsTrimmed(s)
  }

  /** A string with no whitespace at either end is its own trim. */
  lemma TrimOfTrimmed(s: string)
    requires IsTrimmed(s)
    ensures Trim(s) == s
  {
  }

  /** Trimming is idempotent. */
  lemma {:induction false} TrimIdempotent(s: string)
    ensures Trim(Trim(s)) == Trim(s)
  {
    TrimIsTrimmed(s);
    TrimOfTrimmed(Trim(s));
  }

  /** The guard is the source's test: trim() leaves something exactly when
      some character is not whitespace. */
  lemma {:induction false} NonEmptyIffTrimNonEmpty(s: string)
    ensures IsNonEmptyString(s) <==> |Trim(s)| > 0
  {
    TrimEmptyIffBlank(s);
  }

  /** A stored field is exactly a non-blank string that trim() leaves unchanged. */
  lemma StoredIffOwnTrim(s: string)
    ensures IsStoredText(s) <==> IsNonEmptyString(s) && Trim(s) == s
  {
  }

  /** Storing the trimmed value of an accepted string yields a valid stored field. */
  lemma {:induction false} TrimmedIsStored(s: string)
    requires IsNonEmptyString(s)
    ensures IsStoredText(Trim(s))
  {
    NonEmptyIffTrimNonEmpty(s);
    TrimIsTrimmed(s);
  }
}
