/**
  The two Go `strings` helpers the server relies on: `HasPrefix` and
  `TrimSpace`. Strings are sequences of Unicode scalar values.
 */
module Text {

  /** `strings.HasPrefix(s, prefix)`. */
  predicate HasPrefix(s: string, prefix: string)
  {
    prefix <= s
  }

  /** Go's `unicode.IsSpace`: the Latin-1 spaces plus the other White_Space code points. */
  predicate IsSpace(c: char)
  {
    var n := c as int;
    || n == 0x09 || n == 0x0A || n == 0x0B || n == 0x0C || n == 0x0D || n == 0x20
    || n == 0x85 || n == 0xA0 || n == 0x1680
    || (0x2000 <= n <= 0x200A)
    || n == 0x2028 || n == 0x2029 || n == 0x202F || n == 0x205F || n == 0x3000
  }

  predicate AllSpace(s: string)
  {
    forall i :: 0 <= i < |s| ==> IsSpace(s[i])
  }

  /** Neither end of `t` is white space. */
  predicate Trimmed(t: string)
  {
    |t| == 0 || (!IsSpace(t[0]) && !IsSpace(t[|t| - 1]))
  }

  /** The length of the longest all-space prefix of `s`. */
  function LeadingSpaces(s: string): (k: nat)
    ensures k <= |s|
    ensures AllSpace(s[..k])
    ensures k < |s| ==> !IsSpace(s[k])
    decreases |s|
  {
    if |s| > 0 && IsSpace(s[0]) then
      var k := 1 + LeadingSpaces(s[1..]);
      assert s[..k] == [s[0]] + s[1..][..k - 1];
      k
    else 0
  }

  /** The length of the longest all-space suffix of `s`. */
  function TrailingSpaces(s: string): (k: nat)
    ensures k <= |s|
    ensures AllSpace(s[|s| - k..])
    ensures k < |s| ==> !IsSpace(s[|s| - 1 - k])
    decreases |s|
  {
    if |s| > 0 && IsSpace(s[|s| - 1]) then
      var init := s[..|s| - 1];
      var k := 1 + TrailingSpaces(init);
      assert s[|s| - k..] == init[|init| - (k - 1)..] + [s[|s| - 1]];
      k
    else 0
  }

  /**
    `strings.TrimSpace(s)`: the slice of `s` left after removing white space
    from both ends. Only white space is removed, and none is left at either end.
   */
  function TrimSpace(s: string): (t: string)
    ensures Trimmed(t)
    ensures exists i, j :: 0 <= i <= j <= |s| && t == s[i..j] && AllSpace(s[..i]) && AllSpace(s[j..])
  {
    var i := LeadingSpaces(s);
    var rest := s[i..];
    var k := TrailingSpaces(rest);
    var j := |s| - k;
    assert rest[..|rest| - k] == s[i..j];
    assert rest[|rest| - k..] == s[j..];
    assert k < |rest| ==> s[j - 1] == rest[|rest| - 1 - k];
    s[i..j]
  }

  /** A string with no white space at its ends is its own trim. */
  lemma TrimSpaceOfTrimmed(s: string)
    requires Trimmed(s)
    ensures TrimSpace(s) == s
  {
    assert LeadingSpaces(s) == 0;
    assert TrailingSpaces(s) == 0;
  }

  /** Trimming twice is trimming once. */
  lemma TrimSpaceIdempotent(s: string)
    ensures TrimSpace(TrimSpace(s)) == TrimSpace(s)
  {
    TrimSpaceOfTrimmed(TrimSpace(s));
  }

  /** White space added around a trimmed string is exactly what `TrimSpace` removes. */
  lemma {:induction false} TrimSpaceUndoesPadding(pre: string, t: string, post: string)
    requires AllSpace(pre) && AllSpace(post) && Trimmed(t)
    ensures TrimSpace(pre + t + post) == t
  {
    var s := pre + t + post;
    if |t| == 0 {
      SpacesOnly(s);
      assert s[|s|..] == [];
    } else {
      LeadingOfPadded(pre, t + post);
      assert s == pre + (t + post);
      var rest := s[|pre|..];
      assert rest == t + post;
      TrailingOfPadded(t, post);
    }
  }

  lemma {:induction false} SpacesOnly(s: string)
    requires AllSpace(s)
    ensures LeadingSpaces(s) == |s|
    decreases |s|
  {
    if |s| > 0 {
      SpacesOnly(s[1..]);
    }
  }

  lemma {:induction false} LeadingOfPadded(pre: string, u: string)
    requires AllSpace(pre) && |u| > 0 && !IsSpace(u[0])
    ensures LeadingSpaces(pre + u) == |pre|
    decreases |pre|
  {
    if |pre| > 0 {
      assert (pre + u)[1..] == pre[1..] + u;
      LeadingOfPadded(pre[1..], u);
    } else {
      assert pre + u == u;
    }
  }

  lemma {:induction false} TrailingOfPadded(u: string, post: string)
    requires AllSpace(post) && |u| > 0 && !IsSpace(u[|u| - 1])
    ensures TrailingSpaces(u + post) == |post|
    decreases |post|
  {
    var s := u + post;
    if |post| > 0 {
      assert s[..|s| - 1] == u + post[..|post| - 1];
      TrailingOfPadded(u, post[..|post| - 1]);
    } else {
      assert s == u;
    }
  }
}
