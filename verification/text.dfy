/** The few Python string operations the package relies on: str.isspace,
    str.strip(), str.lower() and str.startswith. */
module Text {

  /** Python's str.isspace() for one character: the code points whose
      bidirectional class is WS, B or S, or whose category is Zs. */
  predicate IsSpace(c: char) {
    || '\t' <= c <= '\r'
    || '\U{1C}' <= c <= ' '
    || c == '\U{85}' || c == '\U{A0}' || c == '\U{1680}'
    || '\U{2000}' <= c <= '\U{200A}'
    || c == '\U{2028}' || c == '\U{2029}' || c == '\U{202F}'
    || c == '\U{205F}' || c == '\U{3000}'
  }

  predicate AllSpace(s: string) {
    forall k :: 0 <= k < |s| ==> IsSpace(s[k])
  }

  /** Neither end of `t` is whitespace. */
  predicate Trimmed(t: string) {
    t == [] || (!IsSpace(t[0]) && !IsSpace(t[|t| - 1]))
  }

  /** `t` is what remains of `s` once whitespace is cut from both ends:
      a slice of `s`, with only whitespace outside it and none at its ends. */
  ghost predicate IsStripOf(t: string, s: string) {
    exists i, j ::
      && 0 <= i <= j <= |s|
      && t == s[i..j]
      && AllSpace(s[..i])
      && AllSpace(s[j..])
      && Trimmed(t)
  }

  function StripLeft(s: string): string {
    if |s| > 0 && IsSpace(s[0]) then StripLeft(s[1..]) else s
  }

  function StripRight(s: string): string {
    if |s| > 0 && IsSpace(s[|s| - 1]) then StripRight(s[..|s| - 1]) else s
  }

  /** lstrip() keeps a suffix of `s`, cuts only whitespace, and stops at a
      non-space character. */
  lemma {:induction false} StripLeftFacts(s: string)
    ensures var r := StripLeft(s);
      && |r| <= |s| && r == s[|s| - |r|..]
      && AllSpace(s[..|s| - |r|])
      && (r == [] || !IsSpace(r[0]))
    decreases |s|
  {
    if |s| > 0 && IsSpace(s[0]) {
      StripLeftFacts(s[1..]);
      var r := StripLeft(s[1..]);
      assert s[1..][|s| - 1 - |r|..] == s[|s| - |r|..];
      assert forall k :: 1 <= k < |s| - |r| ==> s[k] == s[1..][..|s| - 1 - |r|][k - 1];
    }
  }

  /** rstrip() keeps a prefix of `s`, cuts only whitespace, and stops at a
      non-space character. */
  lemma {:induction false} StripRightFacts(s: string)
    ensures var r := StripRight(s);
      && |r| <= |s| && r == s[..|r|]
      && AllSpace(s[|r|..])
      && (r == [] || !IsSpace(r[|r| - 1]))
    decreases |s|
  {
    if |s| > 0 && IsSpace(s[|s| - 1]) {
      StripRightFacts(s[..|s| - 1]);
      var r := StripRight(s[..|s| - 1]);
      assert s[..|s| - 1][..|r|] == s[..|r|];
      assert forall k :: 0 <= k < |s| - 1 - |r| ==> s[|r|..][k] == s[..|s| - 1][|r|..][k];
    }
  }

  /** Python's `s.strip()`. */
  function Strip(s: string): string {
    StripRight(StripLeft(s))
  }

  /** strip() keeps exactly the slice of `s` between its leading and
      trailing whitespace, and keeps nothing only when `s` is all whitespace. */
  lemma StripMeaning(s: string)
    ensures IsStripOf(Strip(s), s)
    ensures Strip(s) == [] <==> AllSpace(s)
  {
    var left := StripLeft(s);
    var r := StripRight(left);
    StripLeftFacts(s);
    StripRightFacts(left);
    var i := |s| - |left|;
    var j := i + |r|;
    assert r == s[i..j];
    assert s[j..] == left[|r|..];
    if r != [] {
      assert r[0] == left[0] == s[i];
    } else {
      assert left[|r|..] == left;
      assert s == s[..i] + left;
    }
    assert AllSpace(s[..i]) && AllSpace(s[j..]) && Trimmed(r);
  }

  lemma {:induction false} StripOfTrimmed(s: string)
    requires Trimmed(s)
    ensures Strip(s) == s
  {
  }

  function LowerChar(c: char): char {
    if 'A' <= c <= 'Z' then (c as int - 'A' as int + 'a' as int) as char else c
  }

  /** Python's `s.lower()`, on the ASCII letters. */
  function Lower(s: string): string {
    seq(|s|, k requires 0 <= k < |s| => LowerChar(s[k]))
  }

  /** Python's `s.startswith(p)`. */
  predicate StartsWith(s: string, p: string) {
    |p| <= |s| && s[..|p|] == p
  }

  /** Python's `s.endswith(p)`. */
  predicate EndsWith(s: string, p: string) {
    |p| <= |s| && s[|s| - |p|..] == p
  }

  /** Whitespace padding on either side does not change what strip() keeps. */
  lemma {:induction false} StripIgnoresPadding(lead: string, s: string, trail: string)
    requires AllSpace(lead) && AllSpace(trail)
    ensures Strip(lead + s + trail) == Strip(s)
  {
    StripLeftSkips(lead, s + trail);
    assert lead + s + trail == lead + (s + trail);
    StripPaddedRight(s, trail);
  }

  lemma {:induction false} StripLeftSkips(lead: string, s: string)
    requires AllSpace(lead)
    ensures StripLeft(lead + s) == StripLeft(s)
    decreases |lead|
  {
    if lead == [] {
      assert lead + s == s;
    } else {
      assert (lead + s)[0] == lead[0];
      assert (lead + s)[1..] == lead[1..] + s;
      StripLeftSkips(lead[1..], s);
    }
  }

  lemma {:induction false} StripRightSkips(s: string, trail: string)
    requires AllSpace(trail)
    ensures StripRight(s + trail) == StripRight(s)
    decreases |trail|
  {
    if trail == [] {
      assert s + trail == s;
    } else {
      var t' := trail[..|trail| - 1];
      assert (s + trail)[|s + trail| - 1] == trail[|trail| - 1];
      assert (s + trail)[..|s + trail| - 1] == s + t';
      StripRightSkips(s, t');
    }
  }

  lemma {:induction false} StripPaddedRight(s: string, trail: string)
    requires AllSpace(trail)
    ensures StripRight(StripLeft(s + trail)) == StripRight(StripLeft(s))
    decreases |s|
  {
    if s == [] {
      assert s + trail == trail;
      StripLeftSkips(trail, []);
      assert trail + [] == trail;
    } else if IsSpace(s[0]) {
      assert (s + trail)[1..] == s[1..] + trail;
      StripPaddedRight(s[1..], trail);
    } else {
      StripRightSkips(s, trail);
    }
  }

  lemma {:induction false} LowerAppend(a: string, b: string)
    ensures Lower(a + b) == Lower(a) + Lower(b)
  {
  }

  lemma {:induction false} LowerKeepsSpace(s: string)
    requires AllSpace(s)
    ensures Lower(s) == s
  {
  }

  lemma {:induction false} LowerTwice(s: string)
    ensures Lower(Lower(s)) == Lower(s)
  {
  }
}
