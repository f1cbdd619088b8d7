/**
 * The two string operations of Python that the patcher relies on:
 * `str.strip()` with no argument, and the substring test `pat in s`.
 * `Count` counts (possibly overlapping) occurrences; it is the measure used to
 * say that a patched file carries the marker exactly once.
 */
module Text {

  /** Python's `str.isspace` for one character: the ASCII controls TAB..CR and
      FS..US, space, and the other characters Python's `str.isspace` accepts. */
  predicate IsSpace(c: char)
  {
    || ('\t' <= c <= '\r')
    || ('\U{1c}' <= c <= '\U{1f}')
    || c == ' '
    || c == '\U{85}'
    || c == '\U{a0}'
    || c == '\U{1680}'
    || ('\U{2000}' <= c <= '\U{200a}')
    || c == '\U{2028}'
    || c == '\U{2029}'
    || c == '\U{202f}'
    || c == '\U{205f}'
    || c == '\U{3000}'
  }

  ghost predicate AllSpace(s: string)
  {
    forall k :: 0 <= k < |s| ==> IsSpace(s[k])
  }

  /** Drops leading white space. */
  function TrimStart(s: string): string
  {
    if s != [] && IsSpace(s[0]) then TrimStart(s[1..]) else s
  }

  /** The result of `TrimStart` is a suffix of `s` that does not start with white
      space, and everything dropped is white space. */
  lemma {:induction false} TrimStartSpec(s: string)
    ensures var r := TrimStart(s);
      && |r| <= |s| && r == s[|s| - |r|..]
      && AllSpace(s[..|s| - |r|])
      && (r != [] ==> !IsSpace(r[0]))
  {
    if s != [] && IsSpace(s[0]) {
      TrimStartSpec(s[1..]);
      var r := TrimStart(s[1..]);
      assert s[1..][|s[1..]| - |r|..] == s[|s| - |r|..];
      assert s[..|s| - |r|] == [s[0]] + s[1..][..|s[1..]| - |r|];
    }
  }

  /** Drops trailing white space. */
  function TrimEnd(s: string): string
  {
    if s != [] && IsSpace(s[|s| - 1]) then TrimEnd(s[..|s| - 1]) else s
  }

  /** The result of `TrimEnd` is a prefix of `s` that does not end with white
      space, and everything dropped is white space. */
  lemma {:induction false} TrimEndSpec(s: string)
    ensures var r := TrimEnd(s);
      && |r| <= |s| && r == s[..|r|]
      && AllSpace(s[|r|..])
      && (r != [] ==> !IsSpace(r[|r| - 1]))
  {
    if s != [] && IsSpace(s[|s| - 1]) {
      var t := s[..|s| - 1];
      TrimEndSpec(t);
      var r := TrimEnd(t);
      assert t[..|r|] == s[..|r|];
      assert s[|r|..] == t[|r|..] + [s[|s| - 1]];
    }
  }

  /** `r` sits at offset `i` of `s` with only white space around it. */
  ghost predicate Surrounds(s: string, r: string, i: nat)
  {
    i + |r| <= |s| && s[i..i + |r|] == r && AllSpace(s[..i]) && AllSpace(s[i + |r|..])
  }

  /** Python's `s.strip()` with no argument. */
  function Strip(s: string): string
  {
    TrimEnd(TrimStart(s))
  }

  /** Neither end of a stripped string is white space, and only an all-white-space
      string strips to nothing. */
  lemma StripTrimmed(s: string)
    ensures var r := Strip(s);
      && (r != [] ==> !IsSpace(r[0]) && !IsSpace(r[|r| - 1]))
      && (r == [] <==> AllSpace(s))
  {
    var t := TrimStart(s);
    TrimStartSpec(s);
    TrimEndSpec(t);
    var r := TrimEnd(t);
    if r != [] {
      assert r[0] == t[0];
      assert !AllSpace(s) by { assert s[|s| - |t|] == t[0]; }
    } else {
      assert t[|r|..] == t;
      assert s[..|s|] == s;
    }
  }

  /** What `Strip` drops is white space: the result sits inside `s` with only
      white space before and after it. */
  lemma StripSurrounded(s: string)
    ensures exists i :: Surrounds(s, Strip(s), i)
  {
    var t := TrimStart(s);
    var r := TrimEnd(t);
    TrimStartSpec(s);
    TrimEndSpec(t);
    var n := |s| - |t|;
    assert s[n..] == t;
    assert s[n..n + |r|] == t[..|r|];
    assert s[n + |r|..] == t[|r|..];
    assert Strip(s) == r;
    assert Surrounds(s, r, n);
  }

  /** Stripping is a projection: an already stripped string is left alone. */
  lemma StripIdempotent(s: string)
    ensures Strip(Strip(s)) == Strip(s)
  {
    var r := Strip(s);
    StripTrimmed(s);
    assert TrimStart(r) == r;
    assert TrimEnd(r) == r;
  }

  /** A white-space prefix makes no difference to the leading trim. */
  lemma {:induction false} TrimStartSpacePrefix(w: string, s: string)
    requires AllSpace(w)
    ensures TrimStart(w + s) == TrimStart(s)
    decreases |w|
  {
    if w != [] {
      assert (w + s)[0] == w[0];
      assert (w + s)[1..] == w[1..] + s;
      TrimStartSpacePrefix(w[1..], s);
    } else {
      assert w + s == s;
    }
  }

  /** A white-space suffix makes no difference to the trailing trim. */
  lemma {:induction false} TrimEndSpaceSuffix(s: string, w: string)
    requires AllSpace(w)
    ensures TrimEnd(s + w) == TrimEnd(s)
    decreases |w|
  {
    if w != [] {
      var t := s + w;
      assert t[|t| - 1] == w[|w| - 1];
      assert t[..|t| - 1] == s + w[..|w| - 1];
      TrimEndSpaceSuffix(s, w[..|w| - 1]);
    } else {
      assert s + w == s;
    }
  }

  /** The leading trim of a string that is not all white space stops inside it,
      so whatever follows is kept as it is. */
  lemma {:induction false} TrimStartAppend(s: string, w: string)
    requires !AllSpace(s)
    ensures TrimStart(s + w) == TrimStart(s) + w
    decreases |s|
  {
    assert s != [];
    assert (s + w)[0] == s[0];
    if IsSpace(s[0]) {
      assert !AllSpace(s[1..]) by {
        var k :| 0 <= k < |s| && !IsSpace(s[k]);
        assert s[1..][k - 1] == s[k];
      }
      assert (s + w)[1..] == s[1..] + w;
      TrimStartAppend(s[1..], w);
    }
  }

  /** White space around a string does not change what it strips to. */
  lemma StripIgnoresSurroundingSpace(w1: string, s: string, w2: string)
    requires AllSpace(w1) && AllSpace(w2)
    ensures Strip(w1 + s + w2) == Strip(s)
  {
    var t := w1 + s + w2;
    assert t == w1 + (s + w2);
    TrimStartSpacePrefix(w1, s + w2);
    if AllSpace(s) {
      assert AllSpace(t) by {
        forall k | 0 <= k < |t|
          ensures IsSpace(t[k])
        {
          if k < |w1| {
            assert t[k] == w1[k];
          } else if k < |w1| + |s| {
            assert t[k] == s[k - |w1|];
          } else {
            assert t[k] == w2[k - |w1| - |s|];
          }
        }
      }
      StripTrimmed(t);
      StripTrimmed(s);
    } else {
      TrimStartAppend(s, w2);
      TrimEndSpaceSuffix(TrimStart(s), w2);
    }
  }

  /** `pat` occurs in `s` starting at index `i`. */
  predicate MatchesAt(s: string, pat: string, i: nat)
  {
    i + |pat| <= |s| && s[i..i + |pat|] == pat
  }

  /** Python's `pat in s`: a case-sensitive substring test. */
  predicate Contains(s: string, pat: string)
  {
    exists i: nat | i <= |s| :: MatchesAt(s, pat, i)
  }

  /** The number of indices at which `pat` occurs in `s`. */
  function Count(s: string, pat: string): nat
    decreases |s|
  {
    if |s| < |pat| then 0
    else (if MatchesAt(s, pat, 0) then 1 else 0) + (if s == [] then 0 else Count(s[1..], pat))
  }

  lemma MatchesAtTail(s: string, pat: string, i: nat)
    requires s != []
    ensures MatchesAt(s, pat, i + 1) <==> MatchesAt(s[1..], pat, i)
  {
  }

  /** The count is zero exactly when the substring test fails. */
  lemma {:induction false} CountZeroIff(s: string, pat: string)
    ensures Count(s, pat) == 0 <==> !Contains(s, pat)
    decreases |s|
  {
    if |s| < |pat| {
      assert forall i: nat | i <= |s| :: !MatchesAt(s, pat, i);
    } else if MatchesAt(s, pat, 0) {
      assert Count(s, pat) > 0;
    } else {
      assert s != [];
      CountZeroIff(s[1..], pat);
      if Contains(s, pat) {
        var i: nat :| i <= |s| && MatchesAt(s, pat, i);
        assert i > 0;
        MatchesAtTail(s, pat, i - 1);
        assert MatchesAt(s[1..], pat, i - 1);
      } else {
        forall i: nat | i <= |s[1..]|
          ensures !MatchesAt(s[1..], pat, i)
        {
          MatchesAtTail(s, pat, i);
        }
      }
    }
  }

  /** A character that does not occur in `pat` separates the occurrences:
      none can straddle it, so the counts on both sides add up. */
  lemma {:induction false} CountSeparated(a: string, c: char, b: string, pat: string)
    requires c !in pat
    ensures Count(a + [c] + b, pat) == Count(a, pat) + Count(b, pat)
    decreases |a|
  {
    var s := a + [c] + b;
    if a == [] {
      assert s == [c] + b && s[1..] == b;
      assert pat != [] ==> pat[0] != c && !MatchesAt(s, pat, 0);
    } else {
      assert s[1..] == a[1..] + [c] + b;
      CountSeparated(a[1..], c, b, pat);
      if |a| < |pat| {
        assert s[|a|] == c && pat[|a|] != c;
        assert !MatchesAt(s, pat, 0);
        assert Count(a[1..], pat) == 0;
      } else {
        assert s[..|pat|] == a[..|pat|];
      }
    }
  }

  /** Appending text in front keeps every occurrence. */
  lemma ContainsAfterPrefix(a: string, b: string, pat: string)
    requires Contains(b, pat)
    ensures Contains(a + b, pat)
  {
    var i: nat :| i <= |b| && MatchesAt(b, pat, i);
    assert (a + b)[|a| + i..|a| + i + |pat|] == b[i..i + |pat|];
    assert MatchesAt(a + b, pat, |a| + i);
  }

  /** A non-empty pattern occurs exactly once in itself. */
  lemma CountSelf(pat: string)
    requires pat != []
    ensures Count(pat, pat) == 1
  {
  }
}
