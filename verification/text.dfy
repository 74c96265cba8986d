/** Character and substring helpers shared by the classifier and the
    extractor: ASCII lower-casing, the regex word class `\w` and word boundary
    `\b`, substring search (Python's `in` on strings) and `str.strip()`. */
module Text {

  /** Python's `str.lower()` on one character, restricted to ASCII. */
  function LowerChar(c: char): char {
    if 'A' <= c <= 'Z' then (c as int + 32) as char else c
  }

  predicate IsUpper(c: char) {
    'A' <= c <= 'Z'
  }

  /** `str.lower()` over ASCII: every upper-case letter is replaced by its
      lower-case partner, every other character is kept. */
  function Lower(s: string): (r: string)
    ensures |r| == |s|
  {
    seq(|s|, i requires 0 <= i < |s| => LowerChar(s[i]))
  }

  /** No upper-case letter survives lower-casing; every other character is
      kept, and an upper-case letter moves 32 code points up. */
  lemma LowerMeaning(s: string)
    ensures forall i :: 0 <= i < |s| ==> !IsUpper(Lower(s)[i])
    ensures forall i :: 0 <= i < |s| && !IsUpper(s[i]) ==> Lower(s)[i] == s[i]
    ensures forall i :: 0 <= i < |s| && IsUpper(s[i]) ==> Lower(s)[i] as int == s[i] as int + 32
  {
  }

  /** Lower-casing commutes with slicing. */
  lemma LowerSlice(s: string, i: int, j: int)
    requires 0 <= i <= j <= |s|
    ensures Lower(s[i..j]) == Lower(s)[i..j]
  {
  }

  /** The regex class `\w`, over ASCII: letters, digits and underscore. */
  predicate IsWordChar(c: char) {
    ('a' <= c <= 'z') || ('A' <= c <= 'Z') || ('0' <= c <= '9') || c == '_'
  }

  /** The regex assertion `\b` at position `k` of `s`: exactly one of the
      characters on either side of `k` is a word character, where the
      positions outside the string count as non-word. */
  predicate Boundary(s: string, k: int)
    requires 0 <= k <= |s|
  {
    (k > 0 && IsWordChar(s[k - 1])) != (k < |s| && IsWordChar(s[k]))
  }

  /** Lower-casing turns no word character into a non-word one or back, so
      it keeps every word boundary. */
  lemma LowerKeepsWordChars(s: string, k: int)
    requires 0 <= k <= |s|
    ensures Boundary(Lower(s), k) == Boundary(s, k)
  {
  }

  /** `w` occurs in `s` starting at index `i`. */
  predicate OccursAt(s: string, i: int, w: string) {
    0 <= i && i + |w| <= |s| && s[i..i + |w|] == w
  }

  /** `w` occurs in `s` at `i` as a whole regex word: `\bw\b`. */
  predicate WordAt(s: string, i: int, w: string) {
    OccursAt(s, i, w) && Boundary(s, i) && Boundary(s, i + |w|)
  }

  /** Reference meaning of Python's `w in s`. */
  ghost predicate Occurs(s: string, w: string) {
    exists i :: OccursAt(s, i, w)
  }

  /** Python's `w in s`, computed by a left-to-right scan. */
  function Contains(s: string, w: string): (r: bool)
    ensures r <==> Occurs(s, w)
  {
    ContainsFrom(s, w, 0)
  }

  function ContainsFrom(s: string, w: string, i: nat): (r: bool)
    requires i <= |s| + 1
    ensures r <==> exists j :: i <= j && OccursAt(s, j, w)
    decreases |s| + 1 - i
  {
    if i + |w| > |s| then false
    else if s[i..i + |w|] == w then assert OccursAt(s, i, w); true
    else ContainsFrom(s, w, i + 1)
  }

  /** Substring containment is transitive: if `u` occurs in `w` and `w`
      occurs in `s`, then `u` occurs in `s`. */
  lemma OccursTransitive(s: string, w: string, u: string)
    requires Occurs(s, w) && Occurs(w, u)
    ensures Occurs(s, u)
  {
    var i :| OccursAt(s, i, w);
    var j :| OccursAt(w, j, u);
    forall k | 0 <= k < |u|
      ensures s[i + j + k] == u[k]
    {
      assert w[j + k] == u[k];
      assert s[i..i + |w|][j + k] == s[i + j + k];
    }
    assert OccursAt(s, i + j, u);
  }

  /** Python's `str.isspace()` for one character: the ASCII controls \t, \n,
      \v, \f, \r and \x1c to \x1f, the space, and the Unicode space
      separators and line/paragraph separators. */
  predicate IsSpace(c: char) {
    ('\t' <= c <= '\r') || ('\U{1C}' <= c <= ' ') || c == '\U{85}' || c == '\U{A0}'
    || c == '\U{1680}' || ('\U{2000}' <= c <= '\U{200A}') || c == '\U{2028}' || c == '\U{2029}'
    || c == '\U{202F}' || c == '\U{205F}' || c == '\U{3000}'
  }

  /** Number of leading white-space characters. */
  function LeadingSpace(s: string): (n: nat)
    ensures n <= |s|
    ensures forall k :: 0 <= k < n ==> IsSpace(s[k])
    ensures n < |s| ==> !IsSpace(s[n])
  {
    if s == [] || !IsSpace(s[0]) then 0 else 1 + LeadingSpace(s[1..])
  }

  /** Length of `s` once its trailing white space is removed. */
  function TrailingStart(s: string): (n: nat)
    ensures n <= |s|
    ensures forall k :: n <= k < |s| ==> IsSpace(s[k])
    ensures n > 0 ==> !IsSpace(s[n - 1])
  {
    if s == [] || !IsSpace(s[|s| - 1]) then |s| else TrailingStart(s[..|s| - 1])
  }

  /** `s` is `r` surrounded only by white space, and `r` neither starts nor
      ends with white space: what `str.strip()` promises. */
  ghost predicate IsStripOf(r: string, s: string) {
    (exists i, j :: 0 <= i <= j <= |s| && r == s[i..j]
       && (forall k :: 0 <= k < i ==> IsSpace(s[k]))
       && (forall k :: j <= k < |s| ==> IsSpace(s[k])))
    && (r != [] ==> !IsSpace(r[0]) && !IsSpace(r[|r| - 1]))
  }

  /** Python's `str.strip()` with no argument. */
  function Strip(s: string): string {
    var j := TrailingStart(s);
    s[LeadingSpace(s[..j])..j]
  }

  /** `Strip` removes exactly the surrounding white space. */
  lemma StripMeaning(s: string)
    ensures IsStripOf(Strip(s), s)
  {
    var j := TrailingStart(s);
    var i := LeadingSpace(s[..j]);
    assert forall k :: 0 <= k < i ==> IsSpace(s[k]) by {
      forall k | 0 <= k < i ensures IsSpace(s[k]) {
        assert s[..j][k] == s[k];
      }
    }
  }

  /** Stripping is idempotent. */
  lemma StripIdempotent(s: string)
    ensures Strip(Strip(s)) == Strip(s)
  {
    var r := Strip(s);
    StripMeaning(s);
    assert r == [] || (!IsSpace(r[0]) && !IsSpace(r[|r| - 1]));
    assert TrailingStart(r) == |r|;
    assert r[..|r|] == r;
  }
}
