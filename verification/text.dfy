/**
 String trimming as the submit handler uses it: leading and trailing
 whitespace is stripped, where whitespace is the set of characters that
 ECMAScript's `String.prototype.trim` removes (the WhiteSpace and
 LineTerminator productions, section 12.2 and 12.3 of ECMA-262).
 */
module Text {

  predicate IsWhitespace(c: char) {
    // WhiteSpace: TAB, VT, FF, ZWNBSP and the Zs (space separator) category
    || c == '\t' || c == '\U{000B}' || c == '\U{000C}' || c == '\U{FEFF}'
    || c == ' ' || c == '\U{00A0}' || c == '\U{1680}'
    || ('\U{2000}' <= c <= '\U{200A}')
    || c == '\U{202F}' || c == '\U{205F}' || c == '\U{3000}'
    // LineTerminator: LF, CR, LINE SEPARATOR, PARAGRAPH SEPARATOR
    || c == '\n' || c == '\r' || c == '\U{2028}' || c == '\U{2029}'
  }

  /** Every character of `s` is whitespace (vacuously so for ""). */
  predicate Blank(s: string) {
    forall i :: 0 <= i < |s| ==> IsWhitespace(s[i])
  }

  /** Non-empty, and neither end is whitespace: what trimming leaves behind
      when anything is left. */
  predicate Trimmed(s: string) {
    s != [] && !IsWhitespace(s[0]) && !IsWhitespace(s[|s| - 1])
  }

  /** The first index at or after `i` that holds a non-whitespace
      character, or `|s|` when there is none. */
  function FirstNonBlank(s: string, i: nat): (k: nat)
    requires i <= |s|
    ensures i <= k <= |s|
    ensures forall j :: i <= j < k ==> IsWhitespace(s[j])
    ensures k < |s| ==> !IsWhitespace(s[k])
    decreases |s| - i
  {
    if i < |s| && IsWhitespace(s[i]) then FirstNonBlank(s, i + 1) else i
  }

  /** The end of `s[lo..hi]` once its trailing whitespace is dropped. */
  function EndOfNonBlank(s: string, lo: nat, hi: nat): (k: nat)
    requires lo <= hi <= |s|
    ensures lo <= k <= hi
    ensures forall j :: k <= j < hi ==> IsWhitespace(s[j])
    ensures k > lo ==> !IsWhitespace(s[k - 1])
    decreases hi - lo
  {
    if lo < hi && IsWhitespace(s[hi - 1]) then EndOfNonBlank(s, lo, hi - 1) else hi
  }

  /** Strips whitespace from both ends; what is left, if anything, starts
      and ends with a non-whitespace character. */
  function Trim(s: string): (r: string)
    ensures |r| <= |s|
    ensures r == [] || Trimmed(r)
  {
    var lo := FirstNonBlank(s, 0);
    s[lo..EndOfNonBlank(s, lo, |s|)]
  }

  /** The trimmed text is what is left of `s` between a blank prefix and a
      blank suffix. */
  lemma TrimIsSlice(s: string) returns (pre: string, post: string)
    ensures s == pre + Trim(s) + post
    ensures Blank(pre) && Blank(post)
  {
    var lo := FirstNonBlank(s, 0);
    var hi := EndOfNonBlank(s, lo, |s|);
    pre, post := s[..lo], s[hi..];
    assert s == pre + s[lo..hi] + post;
    assert forall j :: 0 <= j < |pre| ==> pre[j] == s[j];
    assert forall j :: 0 <= j < |post| ==> post[j] == s[hi + j];
  }

  /** Trimming leaves nothing exactly when the text is all whitespace. */
  lemma TrimEmptyIffBlank(s: string)
    ensures Trim(s) == [] <==> Blank(s)
  {
    var lo := FirstNonBlank(s, 0);
    var hi := EndOfNonBlank(s, lo, |s|);
    if lo < |s| {
      assert !IsWhitespace(s[lo]);
    }
  }

  /** Already trimmed text is its own trim. */
  lemma TrimOfTrimmed(s: string)
    requires Trimmed(s)
    ensures Trim(s) == s
  {
    assert FirstNonBlank(s, 0) == 0;
    assert EndOfNonBlank(s, 0, |s|) == |s|;
  }

  /** Trimming twice is trimming once. */
  lemma TrimIdempotent(s: string)
    ensures Trim(Trim(s)) == Trim(s)
  {
    if Trim(s) != [] {
      TrimOfTrimmed(Trim(s));
    }
  }
}
