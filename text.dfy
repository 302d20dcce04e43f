/**
 * Whitespace trimming as Go's strings.TrimSpace does it: leading and
 * trailing characters for which unicode.IsSpace holds are cut off. The IP
 * text typed by the user goes through this before it is parsed.
 */
module Text {

  /**
   * Go's unicode.IsSpace: the Latin-1 spaces '\t', '\n', '\v', '\f', '\r',
   * ' ', U+0085 (NEL), U+00A0 (NBSP), and the other White_Space code points.
   */
  predicate IsSpace(c: char)
  {
    || c == '\t' || c == '\n' || c == '\U{0B}' || c == '\U{0C}' || c == '\r' || c == ' '
    || c == '\U{85}' || c == '\U{A0}' || c == '\U{1680}'
    || ('\U{2000}' <= c <= '\U{200A}')
    || c == '\U{2028}' || c == '\U{2029}' || c == '\U{202F}' || c == '\U{205F}' || c == '\U{3000}'
  }

  predicate AllSpace(s: string)
  {
    forall i :: 0 <= i < |s| ==> IsSpace(s[i])
  }

  /** Neither end of `s` is a space (vacuously true of ""). */
  predicate Trimmed(s: string)
  {
    s == [] || (!IsSpace(s[0]) && !IsSpace(s[|s| - 1]))
  }

  /** `s` without its leading spaces. */
  function TrimLeft(s: string): (r: string)
    ensures |r| <= |s|
    ensures r == [] || !IsSpace(r[0])
  {
    if s != [] && IsSpace(s[0]) then TrimLeft(s[1..]) else s
  }

  /** `s` without its trailing spaces. */
  function TrimRight(s: string): (r: string)
    ensures |r| <= |s|
    ensures r == [] || !IsSpace(r[|r| - 1])
  {
    if s != [] && IsSpace(s[|s| - 1]) then TrimRight(s[..|s| - 1]) else s
  }

  /** TrimLeft keeps a suffix of `s`, and what it cuts is all space. */
  lemma {:induction false} TrimLeftCut(s: string)
    ensures TrimLeft(s) == s[|s| - |TrimLeft(s)|..]
    ensures AllSpace(s[..|s| - |TrimLeft(s)|])
  {
    if s != [] && IsSpace(s[0]) {
      TrimLeftCut(s[1..]);
      var n := |s| - |TrimLeft(s)|;
      assert s[1..][..n - 1] == s[1..n];
      assert s[1..][n - 1..] == s[n..];
    }
  }

  /** TrimRight keeps a prefix of `s`, and what it cuts is all space. */
  lemma {:induction false} TrimRightCut(s: string)
    ensures TrimRight(s) == s[..|TrimRight(s)|]
    ensures AllSpace(s[|TrimRight(s)|..])
  {
    if s != [] && IsSpace(s[|s| - 1]) {
      TrimRightCut(s[..|s| - 1]);
      var n := |TrimRight(s)|;
      assert s[..|s| - 1][n..] == s[n..|s| - 1];
      assert s[..|s| - 1][..n] == s[..n];
    }
  }

  /** `r` is `s` with an all-space prefix of length `i` and an all-space suffix cut off. */
  predicate CutAtBothEnds(s: string, r: string, i: nat)
  {
    && i + |r| <= |s|
    && r == s[i..i + |r|]
    && AllSpace(s[..i]) && AllSpace(s[i + |r|..])
  }

  /** strings.TrimSpace: the result has no space at either end. */
  function TrimSpace(s: string): (r: string)
    ensures |r| <= |s|
    ensures Trimmed(r)
  {
    var l := TrimLeft(s);
    var r := TrimRight(l);
    TrimRightCut(l);
    assert r != [] ==> r[0] == l[0];
    r
  }

  /** What TrimSpace keeps of `s` is its middle, once all-space ends are cut off. */
  lemma TrimSpaceCuts(s: string)
    ensures CutAtBothEnds(s, TrimSpace(s), |s| - |TrimLeft(s)|)
  {
    var l := TrimLeft(s);
    TrimLeftCut(s);
    TrimRightCut(l);
    CutLeftThenRight(s, l, TrimRight(l));
  }

  /** Cutting spaces off the left of `s` and then off the right leaves a trimmed middle. */
  lemma CutLeftThenRight(s: string, l: string, r: string)
    requires |l| <= |s| && l == s[|s| - |l|..] && AllSpace(s[..|s| - |l|])
    requires l == [] || !IsSpace(l[0])
    requires |r| <= |l| && r == l[..|r|] && AllSpace(l[|r|..])
    requires r == [] || !IsSpace(r[|r| - 1])
    ensures Trimmed(r)
    ensures CutAtBothEnds(s, r, |s| - |l|)
  {
    var i := |s| - |l|;
    assert r != [] ==> r[0] == l[0];
    assert s[i + |r|..] == l[|r|..];
  }

  lemma {:induction false} TrimLeftSkips(a: string, t: string)
    requires AllSpace(a)
    ensures TrimLeft(a + t) == TrimLeft(t)
  {
    if a != [] {
      assert (a + t)[1..] == a[1..] + t;
      TrimLeftSkips(a[1..], t);
    } else {
      assert a + t == t;
    }
  }

  lemma {:induction false} TrimRightSkips(t: string, b: string)
    requires AllSpace(b)
    ensures TrimRight(t + b) == TrimRight(t)
  {
    if b != [] {
      assert (t + b)[..|t + b| - 1] == t + b[..|b| - 1];
      TrimRightSkips(t, b[..|b| - 1]);
    } else {
      assert t + b == t;
    }
  }

  /**
   * TrimSpace is determined by its contract: whatever spaces surround a
   * string with no space at its ends, TrimSpace returns exactly that string.
   */
  lemma TrimSpaceUnique(a: string, m: string, b: string)
    requires AllSpace(a) && AllSpace(b) && Trimmed(m)
    ensures TrimSpace(a + m + b) == m
  {
    assert a + m + b == a + (m + b);
    TrimLeftSkips(a, m + b);
    if m == [] {
      assert m + b == b + [];
      TrimLeftSkips(b, []);
    } else {
      assert TrimLeft(m + b) == m + b;
      TrimRightSkips(m, b);
    }
  }

  /** Trimming twice is trimming once (the text is trimmed by two callers in turn). */
  lemma TrimSpaceIdempotent(s: string)
    ensures TrimSpace(TrimSpace(s)) == TrimSpace(s)
  {
    var r := TrimSpace(s);
    assert r == [] + r + [];
    TrimSpaceUnique([], r, []);
  }
}
