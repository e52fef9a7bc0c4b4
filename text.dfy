/**
 * The Python `str` operations that the app applies to column headers, prompt
 * parts and generated query text: `strip()`, `replace(old, new)`,
 * `sep.join(parts)` and the `in` substring test, stated over `seq<char>`.
 * `Split` is the inverse of `Join` (Python's `s.split(sep)`), used to state
 * what a joined list still carries.
 */
module Text {

  /** Python's `str.isspace()`: the characters `strip()` removes by default. */
  predicate IsWhitespace(c: char)
  {
    || '\t' <= c <= '\r'
    || '\U{1C}' <= c <= ' '
    || c == '\U{85}' || c == '\U{A0}' || c == '\U{1680}'
    || '\U{2000}' <= c <= '\U{200A}'
    || c == '\U{2028}' || c == '\U{2029}' || c == '\U{202F}'
    || c == '\U{205F}' || c == '\U{3000}'
  }

  /** No whitespace at either end: what `strip()` leaves. */
  predicate IsStripped(s: string)
  {
    s == [] || (!IsWhitespace(s[0]) && !IsWhitespace(s[|s| - 1]))
  }

  /** `r` is `s` with a whitespace-only prefix and a whitespace-only suffix cut off. */
  ghost predicate TrimmedFrom(s: string, r: string)
  {
    exists i, j ::
      && 0 <= i <= j <= |s|
      && r == s[i..j]
      && (forall k :: 0 <= k < i ==> IsWhitespace(s[k]))
      && (forall k :: j <= k < |s| ==> IsWhitespace(s[k]))
  }

  /** Python's `s.lstrip()`. */
  function TrimLeft(s: string): (r: string)
    ensures |r| <= |s| && r == s[|s| - |r|..]
    ensures forall k :: 0 <= k < |s| - |r| ==> IsWhitespace(s[k])
    ensures r == [] || !IsWhitespace(r[0])
  {
    if s != [] && IsWhitespace(s[0]) then TrimLeft(s[1..]) else s
  }

  /** Python's `s.rstrip()`. */
  function TrimRight(s: string): (r: string)
    ensures |r| <= |s| && r == s[..|r|]
    ensures forall k :: |r| <= k < |s| ==> IsWhitespace(s[k])
    ensures r == [] || !IsWhitespace(r[|r| - 1])
  {
    if s != [] && IsWhitespace(s[|s| - 1]) then TrimRight(s[..|s| - 1]) else s
  }

  /** Python's `s.strip()`. */
  function Strip(s: string): (r: string)
    ensures IsStripped(r) && |r| <= |s|
  {
    TrimRight(TrimLeft(s))
  }

  /** `strip()` only cuts whitespace off the two ends. */
  lemma StripTrims(s: string)
    ensures TrimmedFrom(s, Strip(s))
  {
    TrimmedFromParts(s, TrimLeft(s), Strip(s));
  }

  /** Cutting a whitespace prefix off `s`, then a whitespace suffix off the rest,
      is trimming `s`. */
  lemma TrimmedFromParts(s: string, l: string, r: string)
    requires |l| <= |s| && l == s[|s| - |l|..]
    requires forall k :: 0 <= k < |s| - |l| ==> IsWhitespace(s[k])
    requires |r| <= |l| && r == l[..|r|]
    requires forall k :: |r| <= k < |l| ==> IsWhitespace(l[k])
    ensures TrimmedFrom(s, r)
  {
    var i, j := |s| - |l|, |s| - |l| + |r|;
    assert r == s[i..j];
    forall k | j <= k < |s|
      ensures IsWhitespace(s[k])
    {
      assert s[k] == l[k - i];
    }
    TrimmedFromAt(s, r, i, j);
  }

  lemma TrimmedFromAt(s: string, r: string, i: nat, j: nat)
    requires i <= j <= |s| && r == s[i..j]
    requires forall k :: 0 <= k < i ==> IsWhitespace(s[k])
    requires forall k :: j <= k < |s| ==> IsWhitespace(s[k])
    ensures TrimmedFrom(s, r)
  {
  }

  /** A string is left alone by `strip()` exactly when it has no whitespace at either end. */
  lemma StripFixedPoint(s: string)
    ensures Strip(s) == s <==> IsStripped(s)
  {
    if IsStripped(s) {
      assert TrimLeft(s) == s;
      assert TrimRight(s) == s;
    }
  }

  /** A non-empty prefix with no whitespace at either end survives `strip()`. */
  lemma StripKeepsPrefix(s: string, h: string)
    requires h != [] && IsStripped(h) && h <= s
    ensures h <= Strip(s)
  {
    TrimLeftAt(s, 0);
    var r := TrimRight(s);
    assert r[..|h|] == s[..|h|];
  }

  /** `lstrip()` stops at the first non-whitespace character. */
  lemma {:induction false} TrimLeftAt(s: string, i: nat)
    requires i <= |s| && (i == |s| || !IsWhitespace(s[i]))
    requires forall k :: 0 <= k < i ==> IsWhitespace(s[k])
    ensures TrimLeft(s) == s[i..]
  {
    if i > 0 {
      assert s[1..][i - 1..] == s[i..];
      TrimLeftAt(s[1..], i - 1);
    }
  }

  /** A suffix of `s` whose tail beyond `n` is whitespace keeps only its first `n`
      characters under `rstrip()`. */
  lemma {:induction false} TrimRightOfSuffix(s: string, i: nat, j: nat)
    requires i < j <= |s| && !IsWhitespace(s[j - 1])
    requires forall k :: j <= k < |s| ==> IsWhitespace(s[k])
    ensures TrimRight(s[i..]) == s[i..j]
  {
    if j < |s| {
      assert s[i..][..|s| - i - 1] == s[..|s| - 1][i..];
      TrimRightOfSuffix(s[..|s| - 1], i, j);
      assert s[..|s| - 1][i..j] == s[i..j];
    }
  }

  /** The stripped cut `s[i..j]` is what `strip()` returns. */
  lemma StripAt(s: string, i: nat, j: nat)
    requires i <= j <= |s| && IsStripped(s[i..j])
    requires forall k :: 0 <= k < i ==> IsWhitespace(s[k])
    requires forall k :: j <= k < |s| ==> IsWhitespace(s[k])
    ensures Strip(s) == s[i..j]
  {
    if i == j {
      assert forall k :: 0 <= k < |s| ==> IsWhitespace(s[k]) by {
        forall k | 0 <= k < |s|
          ensures IsWhitespace(s[k])
        {
          if k >= i {
            assert j <= k;
          }
        }
      }
      TrimLeftAt(s, |s|);
    } else {
      StripAtNonEmpty(s, i, j);
    }
  }

  lemma StripAtNonEmpty(s: string, i: nat, j: nat)
    requires i < j <= |s| && IsStripped(s[i..j])
    requires forall k :: 0 <= k < i ==> IsWhitespace(s[k])
    requires forall k :: j <= k < |s| ==> IsWhitespace(s[k])
    ensures Strip(s) == s[i..j]
  {
    assert s[i] == s[i..j][0] && s[j - 1] == s[i..j][j - i - 1];
    TrimLeftAt(s, i);
    TrimRightOfSuffix(s, i, j);
  }

  /** `strip()` is determined by its contract: the only stripped string cut from
      `s` by removing whitespace at the ends is `Strip(s)`. */
  lemma StripUnique(s: string, r: string)
    requires TrimmedFrom(s, r) && IsStripped(r)
    ensures r == Strip(s)
  {
    var i, j :| 0 <= i <= j <= |s| && r == s[i..j]
      && (forall k :: 0 <= k < i ==> IsWhitespace(s[k]))
      && (forall k :: j <= k < |s| ==> IsWhitespace(s[k]));
    StripAt(s, i, j);
  }

  /** Python's `p in s`. */
  ghost predicate Contains(s: string, p: string)
  {
    exists i :: 0 <= i <= |s| && p <= s[i..]
  }

  /** A piece cut out of a string contains only what the string contains. */
  lemma {:induction false} ContainsInSlice(s: string, i: nat, j: nat, p: string)
    requires i <= j <= |s|
    ensures Contains(s[i..j], p) ==> Contains(s, p)
  {
    if Contains(s[i..j], p) {
      var k :| 0 <= k <= j - i && p <= s[i..j][k..];
      assert s[i..j][k..] == s[i + k..j];
      assert p <= s[i + k..];
    }
  }

  /** An occurrence in `[c] + t` is at the front or inside `t`. */
  lemma ContainsCons(c: char, t: string, p: string)
    ensures Contains([c] + t, p) <==> p <= [c] + t || Contains(t, p)
  {
    var s := [c] + t;
    if Contains(s, p) && !(p <= s) {
      var k :| 0 <= k <= |s| && p <= s[k..];
      assert k != 0 by { assert s[0..] == s; }
      assert s[k..] == t[k - 1..];
    }
    if Contains(t, p) {
      var k :| 0 <= k <= |t| && p <= t[k..];
      assert s[k + 1..] == t[k..];
    }
    if p <= s {
      assert s[0..] == s;
    }
  }

  /** Nothing of length `n` or more occurs in a string shorter than `n`. */
  lemma ContainsTooShort(s: string, p: string)
    requires |s| < |p|
    ensures !Contains(s, p)
  {
  }

  /** Python's `s.replace(pat, rep)`: every leftmost, non-overlapping occurrence of
      `pat` is replaced; with an empty `pat`, `rep` is put before every character
      and at the end. */
  function ReplaceAll(s: string, pat: string, rep: string): string
    decreases |s|
  {
    if |pat| == 0 then
      if s == [] then rep else rep + [s[0]] + ReplaceAll(s[1..], pat, rep)
    else if |s| < |pat| then s
    else if s[..|pat|] == pat then rep + ReplaceAll(s[|pat|..], pat, rep)
    else [s[0]] + ReplaceAll(s[1..], pat, rep)
  }

  /** Replacing a pattern that does not occur changes nothing. */
  lemma {:induction false} ReplaceAllAbsent(s: string, pat: string, rep: string)
    requires |pat| > 0 && !Contains(s, pat)
    ensures ReplaceAll(s, pat, rep) == s
  {
    if |s| >= |pat| {
      assert s[0..] == s;
      assert s[..|pat|] != pat;
      ContainsInSlice(s, 1, |s|, pat);
      ReplaceAllAbsent(s[1..], pat, rep);
    }
  }

  /** A match at the front is replaced and the scan goes on after it. */
  lemma ReplaceAllHead(p: string, v: string, rep: string)
    requires |p| > 0
    ensures ReplaceAll(p + v, p, rep) == rep + ReplaceAll(v, p, rep)
  {
    var s := p + v;
    assert s[..|p|] == p && s[|p|..] == v;
  }

  /** A piece that cannot start a match is copied, and the match after it is
      replaced. */
  lemma {:induction false} ReplaceAllTail(u: string, p: string, rep: string)
    requires |p| > 0 && forall k :: 0 <= k < |u| ==> u[k] != p[0]
    ensures ReplaceAll(u + p, p, rep) == u + rep
  {
    var s := u + p;
    if u == [] {
      assert s == p + [];
      ReplaceAllHead(p, [], rep);
    } else {
      assert ReplaceAll(s, p, rep) == [u[0]] + ReplaceAll(u[1..] + p, p, rep) by {
        assert s[..|p|][0] != p[0];
        assert s[1..] == u[1..] + p;
      }
      ReplaceAllTail(u[1..], p, rep);
      assert [u[0]] + (u[1..] + rep) == u + rep;
    }
  }

  /** Python's `sep.join(parts)`. */
  function Join(parts: seq<string>, sep: string): string
  {
    if |parts| == 0 then ""
    else if |parts| == 1 then parts[0]
    else parts[0] + sep + Join(parts[1..], sep)
  }

  /** Python's `s.split(sep)` for a non-empty separator: the pieces between the
      leftmost, non-overlapping occurrences of `sep`. */
  function Split(s: string, sep: string): (parts: seq<string>)
    requires |sep| > 0
    ensures |parts| >= 1
    decreases |s|
  {
    if |s| < |sep| then [s]
    else if s[..|sep|] == sep then [""] + Split(s[|sep|..], sep)
    else
      var rest := Split(s[1..], sep);
      [[s[0]] + rest[0]] + rest[1..]
  }

  lemma {:induction false} SplitNoSeparator(a: string, sep: string)
    requires |sep| > 0 && sep[0] !in a
    ensures Split(a, sep) == [a]
  {
    if |a| >= |sep| {
      assert a[..|sep|][0] == a[0];
      SplitNoSeparator(a[1..], sep);
      assert [a[0]] + a[1..] == a;
    }
  }

  lemma {:induction false} SplitAfterPiece(a: string, sep: string, rest: string)
    requires |sep| > 0 && sep[0] !in a
    ensures Split(a + sep + rest, sep) == [a] + Split(rest, sep)
  {
    var s := a + sep + rest;
    if a == [] {
      assert s[..|sep|] == sep;
      assert s[|sep|..] == rest;
    } else {
      assert s[..|sep|][0] == a[0];
      assert s[1..] == a[1..] + sep + rest;
      SplitAfterPiece(a[1..], sep, rest);
      assert [a[0]] + a[1..] == a;
    }
  }

  /** `split` undoes `join` when no piece holds the separator's first character
      and there is at least one piece (`"".join([])` and `"".join([""])` agree). */
  lemma {:induction false} SplitJoin(parts: seq<string>, sep: string)
    requires |sep| > 0 && |parts| >= 1
    requires forall k :: 0 <= k < |parts| ==> sep[0] !in parts[k]
    ensures Split(Join(parts, sep), sep) == parts
  {
    if |parts| == 1 {
      SplitNoSeparator(parts[0], sep);
    } else {
      SplitAfterPiece(parts[0], sep, Join(parts[1..], sep));
      SplitJoin(parts[1..], sep);
      assert [parts[0]] + parts[1..] == parts;
    }
  }
}
