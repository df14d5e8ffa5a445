/**
 Surrounding whitespace, as the REST framework's character fields remove it:
 Python's `str.strip()` with no argument, which drops the characters
 `str.isspace` accepts from both ends.
 */
module Text {

  /** The characters Python's `str.isspace` accepts. */
  predicate IsWhitespace(c: char) {
    || ('\U{9}' <= c <= '\U{D}')
    || ('\U{1C}' <= c <= '\U{20}')
    || c == '\U{85}' || c == '\U{A0}' || c == '\U{1680}'
    || ('\U{2000}' <= c <= '\U{200A}')
    || c == '\U{2028}' || c == '\U{2029}' || c == '\U{202F}' || c == '\U{205F}' || c == '\U{3000}'
  }

  predicate AllWhitespace(s: string) {
    forall k :: 0 <= k < |s| ==> IsWhitespace(s[k])
  }

  /** Neither end of `s` is whitespace (vacuously so for the empty string). */
  predicate Trimmed(s: string) {
    s == [] || (!IsWhitespace(s[0]) && !IsWhitespace(s[|s| - 1]))
  }

  /** The first index at or after `i` that is not whitespace, or `|s|`. */
  function SkipForward(s: string, i: nat): (n: nat)
    requires i <= |s|
    ensures i <= n <= |s|
    ensures forall k :: i <= k < n ==> IsWhitespace(s[k])
    ensures n == |s| || !IsWhitespace(s[n])
    decreases |s| - i
  {
    if i == |s| || !IsWhitespace(s[i]) then i else SkipForward(s, i + 1)
  }

  /** The smallest `m <= j` such that `s[m..j]` is all whitespace. */
  function SkipBackward(s: string, j: nat): (m: nat)
    requires j <= |s|
    ensures m <= j
    ensures forall k :: m <= k < j ==> IsWhitespace(s[k])
    ensures m == 0 || !IsWhitespace(s[m - 1])
  {
    if j == 0 || !IsWhitespace(s[j - 1]) then j else SkipBackward(s, j - 1)
  }

  /** `s.strip()`. */
  function Strip(s: string): (r: string)
    ensures r == [] <==> AllWhitespace(s)
    ensures Trimmed(r)
    ensures |r| <= |s|
    ensures Trimmed(s) ==> r == s
  {
    var i := SkipForward(s, 0);
    if i == |s| then []
    else
      var j := SkipBackward(s, |s|);
      assert i < j;
      s[i..j]
  }

  /**
   The reference description of stripping: whenever `s` splits into a
   whitespace prefix, a part with no whitespace at either end and a whitespace
   suffix, stripping yields that middle part.
   */
  lemma {:induction false} StripIsTheTrimmedMiddle(s: string, i: nat, j: nat)
    requires i <= j <= |s|
    requires AllWhitespace(s[..i]) && AllWhitespace(s[j..])
    requires Trimmed(s[i..j])
    ensures Strip(s) == s[i..j]
  {
    if i == j {
      assert AllWhitespace(s) by {
        forall k | 0 <= k < |s| ensures IsWhitespace(s[k]) {
          if k < i { assert s[..i][k] == s[k]; } else { assert s[j..][k - j] == s[k]; }
        }
      }
    } else {
      assert !IsWhitespace(s[i]) && !IsWhitespace(s[j - 1]) by {
        assert s[i..j][0] == s[i] && s[i..j][j - i - 1] == s[j - 1];
      }
      assert SkipForward(s, 0) == i;
      assert SkipBackward(s, |s|) == j;
    }
  }

  /** Whitespace around a value makes no difference once it is stripped. */
  lemma PaddingIgnored(before: string, s: string, after: string)
    requires AllWhitespace(before) && AllWhitespace(after)
    ensures Strip(before + s + after) == Strip(s)
  {
    LeadingPaddingIgnored(before, s);
    TrailingPaddingIgnored(before + s, after);
  }

  lemma LeadingPaddingIgnored(w: string, s: string)
    requires AllWhitespace(w)
    ensures Strip(w + s) == Strip(s)
  {
    var i, j := StripBounds(s);
    PrefixedSlices(w, s, i, j);
    WhitespaceConcat(w, s[..i]);
    StripIsTheTrimmedMiddle(w + s, |w| + i, |w| + j);
  }

  lemma TrailingPaddingIgnored(s: string, w: string)
    requires AllWhitespace(w)
    ensures Strip(s + w) == Strip(s)
  {
    var i, j := StripBounds(s);
    SuffixedSlices(s, w, i, j);
    WhitespaceConcat(s[j..], w);
    StripIsTheTrimmedMiddle(s + w, i, j);
  }

  lemma PrefixedSlices(w: string, s: string, i: nat, j: nat)
    requires i <= j <= |s|
    ensures (w + s)[..|w| + i] == w + s[..i]
    ensures (w + s)[|w| + j..] == s[j..]
    ensures (w + s)[|w| + i..|w| + j] == s[i..j]
  {
  }

  lemma SuffixedSlices(s: string, w: string, i: nat, j: nat)
    requires i <= j <= |s|
    ensures (s + w)[..i] == s[..i]
    ensures (s + w)[j..] == s[j..] + w
    ensures (s + w)[i..j] == s[i..j]
  {
  }

  /** Where the stripped value sits in `s`: only whitespace before and after it. */
  lemma StripBounds(s: string) returns (i: nat, j: nat)
    ensures i <= j <= |s| && AllWhitespace(s[..i]) && AllWhitespace(s[j..]) && Strip(s) == s[i..j]
  {
    i := SkipForward(s, 0);
    j := if i == |s| then i else SkipBackward(s, |s|);
  }

  lemma WhitespaceConcat(a: string, b: string)
    requires AllWhitespace(a) && AllWhitespace(b)
    ensures AllWhitespace(a + b)
  {
    assert forall k :: 0 <= k < |a + b| ==> (a + b)[k] == if k < |a| then a[k] else b[k - |a|];
  }
}
