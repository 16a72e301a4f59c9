/** The one string operation the task handlers use: ECMAScript's
    `String.prototype.trim`, which strips WhiteSpace and LineTerminator code
    points from both ends (sections 12.2, 12.3 and 22.1.3.32 of ECMA-262).
    Strings are sequences of code points; the UTF-16 encoding is not modelled. */
module JsString {

  /** WhiteSpace (TAB, VT, FF, SP, NBSP, ZWNBSP and the Zs category) or
      LineTerminator (LF, CR, LS, PS). */
  predicate IsWhitespace(c: char) {
    || c == '\t' || c == '\U{000B}' || c == '\U{000C}' || c == ' '
    || c == '\U{00A0}' || c == '\U{FEFF}'
    || c == '\U{1680}' || ('\U{2000}' <= c <= '\U{200A}')
    || c == '\U{202F}' || c == '\U{205F}' || c == '\U{3000}'
    || c == '\n' || c == '\r' || c == '\U{2028}' || c == '\U{2029}'
  }

  predicate AllWhitespace(s: string) {
    forall k :: 0 <= k < |s| ==> IsWhitespace(s[k])
  }

  /** The first position at or after `i` that does not hold whitespace
      (or |s| when there is none). */
  function SkipLeading(s: string, i: nat): (k: nat)
    requires i <= |s|
    ensures i <= k <= |s|
    ensures forall m :: i <= m < k ==> IsWhitespace(s[m])
    ensures k < |s| ==> !IsWhitespace(s[k])
    decreases |s| - i
  {
    if i == |s| || !IsWhitespace(s[i]) then i else SkipLeading(s, i + 1)
  }

  /** The position just past the last non-whitespace character of s[lo..j]
      (or lo when s[lo..j] is all whitespace). */
  function SkipTrailing(s: string, lo: nat, j: nat): (k: nat)
    requires lo <= j <= |s|
    ensures lo <= k <= j
    ensures forall m :: k <= m < j ==> IsWhitespace(s[m])
    ensures lo < k ==> !IsWhitespace(s[k - 1])
  {
    if j == lo || !IsWhitespace(s[j - 1]) then j else SkipTrailing(s, lo, j - 1)
  }

  /** `s.trim()` */
  function Trim(s: string): (r: string)
    ensures |r| <= |s|
    ensures r == [] <==> AllWhitespace(s)
    ensures r != [] ==> !IsWhitespace(r[0]) && !IsWhitespace(r[|r| - 1])
  {
    var i := SkipLeading(s, 0);
    s[i..SkipTrailing(s, i, |s|)]
  }

  /** `s.trim() === ""`: the condition under which both add handlers do nothing. */
  predicate IsBlank(s: string) {
    Trim(s) == []
  }

  /** Trim is determined by what it removes: whenever s splits as
      whitespace + core + whitespace with a core that is empty or starts and
      ends with a non-whitespace character, Trim(s) is that core. */
  lemma TrimCharacterization(s: string, i: nat, j: nat)
    requires i <= j <= |s|
    requires forall m :: 0 <= m < i ==> IsWhitespace(s[m])
    requires forall m :: j <= m < |s| ==> IsWhitespace(s[m])
    requires i < j ==> !IsWhitespace(s[i]) && !IsWhitespace(s[j - 1])
    ensures Trim(s) == s[i..j]
  {
  }

  /** Trimming twice is trimming once. */
  lemma TrimIdempotent(s: string)
    ensures Trim(Trim(s)) == Trim(s)
  {
  }

  /** A trimmed string is a contiguous piece of the original. */
  lemma TrimIsInfix(s: string)
    ensures exists i, j :: 0 <= i <= j <= |s| && Trim(s) == s[i..j]
  {
    var i := SkipLeading(s, 0);
    var j := SkipTrailing(s, i, |s|);
    assert Trim(s) == s[i..j];
  }
}
