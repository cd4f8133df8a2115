/** Python's notion of whitespace and the two string operations of the
    script that depend on it: `str.strip()` (the `--user` filter) and
    `str.split()[0]` (the first token of a date string). */
module Text {

  /** `str.isspace()` for one character: the characters CPython treats as
      whitespace in `strip()` and in `split()` without arguments. */
  predicate IsSpace(c: char)
  {
    || c == ' ' || c == '\t' || c == '\n' || c == '\r'
    || c == '\U{000B}' || c == '\U{000C}'
    || ('\U{001C}' <= c <= '\U{001F}')
    || c == '\U{0085}' || c == '\U{00A0}' || c == '\U{1680}'
    || ('\U{2000}' <= c <= '\U{200A}')
    || c == '\U{2028}' || c == '\U{2029}' || c == '\U{202F}'
    || c == '\U{205F}' || c == '\U{3000}'
  }

  predicate AllSpace(s: string)
  {
    forall i :: 0 <= i < |s| ==> IsSpace(s[i])
  }

  predicate NoSpace(s: string)
  {
    forall i :: 0 <= i < |s| ==> !IsSpace(s[i])
  }

  /** Length of the run of whitespace that starts `s`. */
  function LeadingSpace(s: string): (n: nat)
    ensures n <= |s|
    ensures AllSpace(s[..n])
    ensures n < |s| ==> !IsSpace(s[n])
  {
    if |s| == 0 || !IsSpace(s[0]) then 0
    else
      var n := 1 + LeadingSpace(s[1..]);
      assert s[..n] == [s[0]] + s[1..][..n - 1];
      n
  }

  /** Length of the run of whitespace that ends `s`. */
  function TrailingSpace(s: string): (n: nat)
    ensures n <= |s|
    ensures AllSpace(s[|s| - n..])
    ensures n < |s| ==> !IsSpace(s[|s| - n - 1])
  {
    if |s| == 0 || !IsSpace(s[|s| - 1]) then 0
    else
      var t := s[..|s| - 1];
      var n := 1 + TrailingSpace(t);
      assert s[|s| - n..] == t[|t| - (n - 1)..] + [s[|s| - 1]];
      n
  }

  /** Length of the run of non-whitespace that starts `s`. */
  function WordLength(s: string): (n: nat)
    ensures n <= |s|
    ensures NoSpace(s[..n])
    ensures n < |s| ==> IsSpace(s[n])
  {
    if |s| == 0 || IsSpace(s[0]) then 0
    else
      var n := 1 + WordLength(s[1..]);
      assert s[..n] == [s[0]] + s[1..][..n - 1];
      n
  }

  /** `s.strip()`: `s` without its leading and trailing whitespace. */
  function Strip(s: string): (r: string)
    ensures |r| <= |s|
    ensures r == [] || (!IsSpace(r[0]) && !IsSpace(r[|r| - 1]))
  {
    var t := s[LeadingSpace(s)..];
    t[..|t| - TrailingSpace(t)]
  }

  /** `s.split()` is non-empty exactly when `s` holds a non-space character. */
  predicate HasToken(s: string)
  {
    LeadingSpace(s) < |s|
  }

  /** `s.split()[0]`: the first maximal run of non-whitespace. */
  function FirstToken(s: string): (r: string)
    requires HasToken(s)
    ensures |r| > 0 && NoSpace(r)
  {
    var t := s[LeadingSpace(s)..];
    t[..WordLength(t)]
  }

  lemma {:induction false} HasTokenIff(s: string)
    ensures HasToken(s) <==> !AllSpace(s)
  {
    var n := LeadingSpace(s);
    if n == |s| {
      assert s[..n] == s;
    } else {
      assert !IsSpace(s[n]);
    }
  }

  lemma {:induction false} LeadingSpaceOf(w: string, t: string)
    requires AllSpace(w)
    requires t == [] || !IsSpace(t[0])
    ensures LeadingSpace(w + t) == |w|
    decreases |w|
  {
    if w != [] {
      assert (w + t)[1..] == w[1..] + t;
      LeadingSpaceOf(w[1..], t);
    }
  }

  lemma {:induction false} TrailingSpaceOf(t: string, w: string)
    requires AllSpace(w)
    requires t == [] || !IsSpace(t[|t| - 1])
    ensures TrailingSpace(t + w) == |w|
    decreases |w|
  {
    if w != [] {
      assert (t + w)[..|t + w| - 1] == t + w[..|w| - 1];
      TrailingSpaceOf(t, w[..|w| - 1]);
    }
  }

  lemma {:induction false} WordLengthOf(t: string, rest: string)
    requires NoSpace(t)
    requires rest == [] || IsSpace(rest[0])
    ensures WordLength(t + rest) == |t|
    decreases |t|
  {
    if t != [] {
      assert (t + rest)[1..] == t[1..] + rest;
      WordLengthOf(t[1..], rest);
    }
  }

  /** `strip()` removes exactly the surrounding whitespace: whatever
      whitespace surrounds a string with no whitespace at either end. */
  lemma StripSurrounded(w1: string, t: string, w2: string)
    requires AllSpace(w1) && AllSpace(w2)
    requires t == [] || (!IsSpace(t[0]) && !IsSpace(t[|t| - 1]))
    ensures Strip(w1 + t + w2) == t
  {
    var s := w1 + t + w2;
    if t == [] {
      assert s == (w1 + w2) + [];
      LeadingSpaceOf(w1 + w2, []);
    } else {
      assert s == w1 + (t + w2);
      LeadingSpaceOf(w1, t + w2);
      assert s[|w1|..] == t + w2;
      TrailingSpaceOf(t, w2);
      assert (t + w2)[..|t|] == t;
    }
  }

  /** `strip()` is idempotent. */
  lemma StripIdempotent(s: string)
    ensures Strip(Strip(s)) == Strip(s)
  {
    var r := Strip(s);
    StripSurrounded([], r, []);
    assert [] + r + [] == r;
  }

  /** `split()[0]` is the word after the leading whitespace, whatever
      follows it once a whitespace character ends the word. */
  lemma FirstTokenOf(w: string, t: string, rest: string)
    requires AllSpace(w) && |t| > 0 && NoSpace(t)
    requires rest == [] || IsSpace(rest[0])
    ensures HasToken(w + t + rest)
    ensures FirstToken(w + t + rest) == t
  {
    var s := w + t + rest;
    assert s == w + (t + rest);
    LeadingSpaceOf(w, t + rest);
    assert s[|w|..] == t + rest;
    WordLengthOf(t, rest);
    assert (t + rest)[..|t|] == t;
  }

  /** Example: the owner filter `"  Kevin Chaja "` is matched as `"Kevin Chaja"`. */
  lemma StripExample()
    ensures Strip("  Kevin Chaja ") == "Kevin Chaja"
  {
    assert "  Kevin Chaja " == "  " + "Kevin Chaja" + " ";
    StripSurrounded("  ", "Kevin Chaja", " ");
  }
}
