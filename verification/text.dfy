/** The two string tests both services apply: JavaScript's `String.prototype.trim`
    and the regular expression `/^\d{10}$/` (without the `u` flag, `\d` is the
    ASCII digits only). Strings are sequences of Unicode scalar values; every
    character these tests look at lies in the Basic Multilingual Plane, so
    UTF-16 code units and scalar values agree on them. */
module Text {

  /** The characters `trim` strips: ECMAScript WhiteSpace (tab, vertical tab,
      form feed, space, no-break space, byte order mark and every other Unicode
      space separator) and LineTerminator (line feed, carriage return, line
      separator, paragraph separator). */
  predicate IsWhitespace(c: char) {
    || c == '\t' || c == '\n' || c == '\U{000B}' || c == '\U{000C}' || c == '\r'
    || c == ' ' || c == '\U{00A0}' || c == '\U{1680}'
    || ('\U{2000}' <= c <= '\U{200A}')
    || c == '\U{2028}' || c == '\U{2029}' || c == '\U{202F}' || c == '\U{205F}'
    || c == '\U{3000}' || c == '\U{FEFF}'
  }

  predicate AllWhitespace(s: string) {
    forall k :: 0 <= k < |s| ==> IsWhitespace(s[k])
  }

  /** The number of whitespace characters `s` starts with. */
  function LeadingWhitespace(s: string): (n: nat)
    ensures n <= |s|
    ensures forall k :: 0 <= k < n ==> IsWhitespace(s[k])
    ensures n < |s| ==> !IsWhitespace(s[n])
  {
    if s != [] && IsWhitespace(s[0]) then 1 + LeadingWhitespace(s[1..]) else 0
  }

  /** The position where the whitespace `s` ends with begins. */
  function TrailingWhitespaceStart(s: string): (n: nat)
    ensures n <= |s|
    ensures forall k :: n <= k < |s| ==> IsWhitespace(s[k])
    ensures n > 0 ==> !IsWhitespace(s[n - 1])
  {
    if s != [] && IsWhitespace(s[|s| - 1]) then TrailingWhitespaceStart(s[..|s| - 1]) else |s|
  }

  /** No whitespace at either end. */
  predicate IsTrimmed(s: string) {
    s == [] || (!IsWhitespace(s[0]) && !IsWhitespace(s[|s| - 1]))
  }

  /** JavaScript's `s.trim()`: the leading whitespace and then the trailing
      whitespace of what is left cut off. */
  function Trim(s: string): (r: string)
    ensures |r| <= |s|
    ensures IsTrimmed(r)
  {
    var i := LeadingWhitespace(s);
    var rest := s[i..];
    rest[..TrailingWhitespaceStart(rest)]
  }

  /** What trimming removes is whitespace, and only at the ends: the result is
      the infix `s[i..j]` with all whitespace before `i` and after `j`. */
  lemma TrimCutsOnlyEnds(s: string)
    ensures exists i, j :: 0 <= i <= j <= |s| && Trim(s) == s[i..j]
                           && AllWhitespace(s[..i]) && AllWhitespace(s[j..])
  {
    var i := LeadingWhitespace(s);
    var rest := s[i..];
    var j := i + TrailingWhitespaceStart(rest);
    assert Trim(s) == s[i..j];
    assert forall k :: 0 <= k < |s[j..]| ==> s[j..][k] == rest[j - i + k];
  }

  /** A trimmed string is empty exactly when the original was all whitespace. */
  lemma TrimEmptyIff(s: string)
    ensures Trim(s) == [] <==> AllWhitespace(s)
  {
    var i := LeadingWhitespace(s);
    var rest := s[i..];
    assert forall k :: i <= k < |s| ==> s[k] == rest[k - i];
  }

  /** Trimming leaves a string unchanged exactly when it is already trimmed. */
  lemma TrimFixesTrimmed(s: string)
    ensures Trim(s) == s <==> IsTrimmed(s)
  {
    if IsTrimmed(s) && s != [] {
      assert LeadingWhitespace(s) == 0;
      assert s[0..] == s;
      assert s[..|s|] == s;
    }
  }

  /** Trimming twice is trimming once. */
  lemma TrimIdempotent(s: string)
    ensures Trim(Trim(s)) == Trim(s)
  {
    TrimFixesTrimmed(Trim(s));
  }

  predicate IsAsciiDigit(c: char) {
    '0' <= c <= '9'
  }

  /** `/^\d{10}$/.test(s)`: exactly ten characters, all of them ASCII digits. */
  predicate IsTenDigits(s: string) {
    |s| == 10 && forall k :: 0 <= k < |s| ==> IsAsciiDigit(s[k])
  }
}
