/** The string operations of JavaScript that the store relies on: `String.prototype.trim`,
    which removes the WhiteSpace and LineTerminator code points (ECMA-262, sections 12.2
    and 12.3) from both ends of a string. */
module JsText {

  /** WhiteSpace (TAB, VT, FF, ZWNBSP and every space separator of category Zs) or
      LineTerminator (LF, CR, LS, PS). */
  predicate IsWhitespace(c: char) {
    var n := c as int;
    n == 0x09 || n == 0x0B || n == 0x0C || n == 0xFEFF
    || n == 0x20 || n == 0xA0 || n == 0x1680 || (0x2000 <= n <= 0x200A)
    || n == 0x202F || n == 0x205F || n == 0x3000
    || n == 0x0A || n == 0x0D || n == 0x2028 || n == 0x2029
  }

  /** Empty, or made of whitespace only. */
  predicate IsBlank(s: string) {
    forall i :: 0 <= i < |s| ==> IsWhitespace(s[i])
  }

  /** Neither starts nor ends with whitespace: what `trim` returns. */
  predicate IsTrimmed(s: string) {
    s != [] ==> !IsWhitespace(s[0]) && !IsWhitespace(s[|s| - 1])
  }

  /** The first position at or after `k` that holds no whitespace, or `|s|` if there is
      none: where `trim` starts the result when the content begins at `k` or later. */
  function ContentStart(s: string, k: nat): (n: nat)
    requires k <= |s|
    ensures k <= n <= |s|
    ensures forall i :: k <= i < n ==> IsWhitespace(s[i])
    ensures n < |s| ==> !IsWhitespace(s[n])
    decreases |s| - k
  {
    if k < |s| && IsWhitespace(s[k]) then ContentStart(s, k + 1) else k
  }

  /** The last position at or before `k` that is `0` or follows a character that is not
      whitespace: where `trim` ends the result when the content ends at `k` or earlier. */
  function ContentEnd(s: string, k: nat): (n: nat)
    requires k <= |s|
    ensures n <= k
    ensures forall i :: n <= i < k ==> IsWhitespace(s[i])
    ensures n > 0 ==> !IsWhitespace(s[n - 1])
  {
    if k > 0 && IsWhitespace(s[k - 1]) then ContentEnd(s, k - 1) else k
  }

  /** `s.trim()`: the part of `s` between a whitespace-only prefix and a whitespace-only
      suffix, with no whitespace at either end; empty exactly when `s` is blank. */
  function Trim(s: string): (r: string)
    ensures var a := ContentStart(s, 0);
      a + |r| <= |s| && r == s[a..a + |r|]
      && forall i :: 0 <= i < |s| && !(a <= i < a + |r|) ==> IsWhitespace(s[i])
    ensures IsTrimmed(r)
    ensures r == [] <==> IsBlank(s)
  {
    var a := ContentStart(s, 0);
    var b := ContentEnd(s, |s|);
    if a == |s| then []
    else
      assert a < b;
      s[a..b]
  }

  /** A string that already has no whitespace at its ends is left alone by `trim`. */
  lemma TrimOfTrimmed(s: string)
    requires IsTrimmed(s)
    ensures Trim(s) == s
  {
    if s != [] {
      assert ContentStart(s, 0) == 0;
      assert ContentEnd(s, |s|) == |s|;
    }
  }

  /** Trimming twice is trimming once. */
  lemma TrimIdempotent(s: string)
    ensures Trim(Trim(s)) == Trim(s)
  {
    TrimOfTrimmed(Trim(s));
  }
}
