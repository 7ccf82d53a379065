/** JavaScript's `String.prototype.trim`: strip leading and trailing white space, where
    white space is the ECMAScript WhiteSpace and LineTerminator code points. */
module StringTrim {

  /** ECMAScript WhiteSpace (TAB, VT, FF, ZWNBSP and every Unicode "Zs" space separator)
      and LineTerminator (LF, CR, LINE SEPARATOR, PARAGRAPH SEPARATOR). */
  predicate IsWhitespace(c: char) {
    || c == '\t' || c == '\U{000B}' || c == '\U{000C}' || c == ' ' || c == '\U{00A0}'
    || c == '\U{FEFF}' || c == '\U{1680}' || ('\U{2000}' <= c <= '\U{200A}')
    || c == '\U{202F}' || c == '\U{205F}' || c == '\U{3000}'
    || c == '\n' || c == '\r' || c == '\U{2028}' || c == '\U{2029}'
  }

  ghost predicate AllWhitespace(s: string) {
    forall k :: 0 <= k < |s| ==> IsWhitespace(s[k])
  }

  /** Neither end of `s` is white space. */
  predicate IsTrimmed(s: string) {
    |s| == 0 || (!IsWhitespace(s[0]) && !IsWhitespace(s[|s| - 1]))
  }

  /** `s[i..j]` is a trim of `s`: everything outside it is white space and it has no
      white space at either end. This is the meaning of `trim`, stated without saying how
      the cut points are found. */
  ghost predicate TrimsAt(s: string, i: int, j: int) {
    && 0 <= i <= j <= |s|
    && (forall k :: 0 <= k < i ==> IsWhitespace(s[k]))
    && (forall k :: j <= k < |s| ==> IsWhitespace(s[k]))
    && IsTrimmed(s[i..j])
  }

  /** Length of the longest all-white-space prefix of `s`. */
  function LeadingWhitespace(s: string): (n: nat)
    ensures n <= |s|
    ensures forall k :: 0 <= k < n ==> IsWhitespace(s[k])
    ensures n < |s| ==> !IsWhitespace(s[n])
  {
    if |s| > 0 && IsWhitespace(s[0]) then 1 + LeadingWhitespace(s[1..]) else 0
  }

  /** Length of the longest all-white-space suffix of `s`. */
  function TrailingWhitespace(s: string): (n: nat)
    ensures n <= |s|
    ensures forall k :: |s| - n <= k < |s| ==> IsWhitespace(s[k])
    ensures n < |s| ==> !IsWhitespace(s[|s| - n - 1])
  {
    if |s| > 0 && IsWhitespace(s[|s| - 1]) then 1 + TrailingWhitespace(s[..|s| - 1]) else 0
  }

  /** `s.trim()` */
  function Trim(s: string): (r: string)
    ensures exists i, j :: TrimsAt(s, i, j) && r == s[i..j]
    ensures r == [] <==> AllWhitespace(s)
  {
    var lo := LeadingWhitespace(s);
    var rest := s[lo..];
    var hi := lo + |rest| - TrailingWhitespace(rest);
    assert forall k :: hi <= k < |s| ==> s[k] == rest[k - lo];
    assert TrimsAt(s, lo, hi);
    s[lo..hi]
  }

  /** Two trims of the same string agree: the cut points of a non-empty trim are forced. */
  lemma TrimsAtUnique(s: string, i: int, j: int, i': int, j': int)
    requires TrimsAt(s, i, j) && TrimsAt(s, i', j')
    ensures s[i..j] == s[i'..j']
  {
    assert i < j ==> !IsWhitespace(s[i]) && !IsWhitespace(s[j - 1]);
    assert i' < j' ==> !IsWhitespace(s[i']) && !IsWhitespace(s[j' - 1]);
  }

  /** Trim is exactly the operation TrimsAt describes: `r` is the trim of `s` if and only if
      it is the part of `s` between some pair of trim cut points. */
  lemma TrimCharacterization(s: string, r: string)
    ensures r == Trim(s) <==> exists i, j :: TrimsAt(s, i, j) && r == s[i..j]
  {
    var t := Trim(s);
    assert exists i, j :: TrimsAt(s, i, j) && t == s[i..j];
    var i0, j0 :| TrimsAt(s, i0, j0) && t == s[i0..j0];
    if i, j :| TrimsAt(s, i, j) && r == s[i..j] {
      TrimsAtUnique(s, i, j, i0, j0);
    }
  }

  /** Trimming a trimmed string changes nothing. */
  lemma TrimIdempotent(s: string)
    ensures Trim(Trim(s)) == Trim(s)
  {
    var t := Trim(s);
    var i, j :| TrimsAt(s, i, j) && t == s[i..j];
    assert TrimsAt(t, 0, |t|);
    TrimCharacterization(t, t);
  }
}
