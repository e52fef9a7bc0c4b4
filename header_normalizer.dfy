/**
 * Column-header clean-up done right after a spreadsheet is read:
 * `df.columns.str.replace(r"\W+", "_", regex=True).str.lower()`.
 * Every maximal run of non-word characters becomes one `_`, then the whole
 * name is lowercased. Word characters are the ASCII letters, digits and `_`.
 * Distinct headers may end up with the same name: nothing disambiguates them.
 */
module HeaderNormalizer {

  /** The regex class `\w`, restricted to ASCII. */
  predicate IsWordChar(c: char)
  {
    'a' <= c <= 'z' || 'A' <= c <= 'Z' || '0' <= c <= '9' || c == '_'
  }

  predicate IsUpper(c: char)
  {
    'A' <= c <= 'Z'
  }

  /** A name the normalizer can produce: word characters only, none upper-case. */
  predicate IsNormalName(s: string)
  {
    forall k :: 0 <= k < |s| ==> IsWordChar(s[k]) && !IsUpper(s[k])
  }

  /** `str.lower()` on one ASCII character. */
  function LowerChar(c: char): (d: char)
    ensures !IsUpper(d)
    ensures IsWordChar(d) == IsWordChar(c)
    ensures !IsUpper(c) ==> d == c
    ensures IsUpper(c) ==> 'a' <= d <= 'z' && d as int - c as int == 'a' as int - 'A' as int
  {
    if IsUpper(c) then (c as int - 'A' as int + 'a' as int) as char else c
  }

  /** `str.lower()`: every character lowered, nothing moved. */
  function Lower(s: string): (r: string)
    ensures |r| == |s|
    ensures forall k :: 0 <= k < |s| ==> r[k] == LowerChar(s[k])
  {
    if s == [] then [] else [LowerChar(s[0])] + Lower(s[1..])
  }

  /** The rest of `s` once the run of non-word characters at its front is consumed
      (what `\W+` matches greedily). */
  function DropRun(s: string): (r: string)
    ensures |r| <= |s| && r == s[|s| - |r|..]
    ensures forall k :: 0 <= k < |s| - |r| ==> !IsWordChar(s[k])
    ensures r == [] || IsWordChar(r[0])
  {
    if s != [] && !IsWordChar(s[0]) then
      var r := DropRun(s[1..]);
      assert forall k :: 1 <= k < |s| - |r| ==> s[k] == s[1..][k - 1];
      r
    else s
  }

  /** `re.sub(r"\W+", "_", s)`. */
  function CollapseNonWord(s: string): (r: string)
    ensures forall k :: 0 <= k < |r| ==> IsWordChar(r[k])
    ensures |r| <= |s|
    ensures r == [] <==> s == []
    decreases |s|
  {
    if s == [] then []
    else if IsWordChar(s[0]) then [s[0]] + CollapseNonWord(s[1..])
    else "_" + CollapseNonWord(DropRun(s[1..]))
  }

  /** The header normalization: collapse non-word runs, then lowercase. */
  function Normalize(header: string): (name: string)
    ensures IsNormalName(name)
    ensures |name| <= |header|
    ensures name == [] <==> header == []
  {
    Lower(CollapseNonWord(header))
  }

  /** The normalization applied to every column header, in order. */
  function NormalizeColumns(headers: seq<string>): (names: seq<string>)
    ensures |names| == |headers|
    ensures forall k :: 0 <= k < |headers| ==> names[k] == Normalize(headers[k])
    ensures forall k :: 0 <= k < |names| ==> IsNormalName(names[k])
  {
    seq(|headers|, k requires 0 <= k < |headers| => Normalize(headers[k]))
  }

  // ---------------------------------------------------------------------------
  // An independent, position-by-position description of the same rewrite.

  /** What character `s[i]` contributes: a word character its lowercase form, the
      first character of a non-word run one `_`, any later one of the run nothing. */
  function EmitAt(s: string, i: nat): string
    requires i < |s|
  {
    if IsWordChar(s[i]) then [LowerChar(s[i])]
    else if i == 0 || IsWordChar(s[i - 1]) then "_"
    else ""
  }

  /** The contributions of `s[i..]`, concatenated in order. */
  function EmitFrom(s: string, i: nat): string
    requires i <= |s|
    decreases |s| - i
  {
    if i == |s| then "" else EmitAt(s, i) + EmitFrom(s, i + 1)
  }

  lemma LowerCons(c: char, t: string)
    ensures Lower([c] + t) == [LowerChar(c)] + Lower(t)
  {
    assert ([c] + t)[1..] == t;
  }

  lemma LowerConcat(x: string, y: string)
    ensures Lower(x + y) == Lower(x) + Lower(y)
  {
    var l, r := Lower(x + y), Lower(x) + Lower(y);
    forall k | 0 <= k < |l|
      ensures l[k] == r[k]
    {
      if k < |x| {
        assert (x + y)[k] == x[k];
      } else {
        assert (x + y)[k] == y[k - |x|];
      }
    }
  }

  lemma {:induction false} EmitFromSuffix(s: string, i: nat)
    requires i <= |s|
    ensures (i == 0 || IsWordChar(s[i - 1])) ==> EmitFrom(s, i) == Normalize(s[i..])
    ensures (i > 0 && !IsWordChar(s[i - 1])) ==> EmitFrom(s, i) == Normalize(DropRun(s[i..]))
    decreases |s| - i
  {
    if i < |s| {
      EmitFromSuffix(s, i + 1);
      var t := s[i..];
      assert t[1..] == s[i + 1..];
      if IsWordChar(s[i]) {
        LowerCons(s[i], CollapseNonWord(s[i + 1..]));
      } else {
        LowerCons('_', CollapseNonWord(DropRun(s[i + 1..])));
      }
    }
  }

  /** The normalization emits, left to right, each word character lowercased and
      one `_` where a run of non-word characters starts; the rest of a run vanishes. */
  lemma NormalizeByPosition(header: string)
    ensures Normalize(header) == EmitFrom(header, 0)
  {
    EmitFromSuffix(header, 0);
    assert header[0..] == header;
  }

  /** A header made only of word characters is just lowercased. */
  lemma {:induction false} CollapseWordsOnly(s: string)
    requires forall k :: 0 <= k < |s| ==> IsWordChar(s[k])
    ensures CollapseNonWord(s) == s
    ensures Normalize(s) == Lower(s)
  {
    if s != [] {
      CollapseWordsOnly(s[1..]);
      assert [s[0]] + s[1..] == s;
    }
  }

  /** The normalization leaves a name unchanged exactly when it is already a
      normal name. */
  lemma NormalizeFixedPoint(s: string)
    ensures Normalize(s) == s <==> IsNormalName(s)
  {
    if IsNormalName(s) {
      CollapseWordsOnly(s);
      assert Lower(s) == s;
    }
  }

  /** Normalizing twice is normalizing once. */
  lemma NormalizeIdempotent(header: string)
    ensures Normalize(Normalize(header)) == Normalize(header)
  {
    NormalizeFixedPoint(Normalize(header));
  }

  /** `\W+` consumes a whole run of non-word characters and stops at the next word
      character. */
  lemma {:induction false} DropRunAt(g: string, b: string)
    requires forall k :: 0 <= k < |g| ==> !IsWordChar(g[k])
    requires b == [] || IsWordChar(b[0])
    ensures DropRun(g + b) == b
  {
    if g != [] {
      assert (g + b)[1..] == g[1..] + b;
      DropRunAt(g[1..], b);
    }
  }

  /** Word characters at the front are kept as they are. */
  lemma {:induction false} CollapseWordPrefix(a: string, t: string)
    requires forall k :: 0 <= k < |a| ==> IsWordChar(a[k])
    ensures CollapseNonWord(a + t) == a + CollapseNonWord(t)
  {
    if a != [] {
      var s := a + t;
      assert s[0] == a[0] && s[1..] == a[1..] + t;
      CollapseWordPrefix(a[1..], t);
      assert [a[0]] + a[1..] == a;
    } else {
      assert a + t == t;
    }
  }

  /** A maximal run `g` of non-word characters at the front becomes one `_`. */
  lemma CollapseRunStart(g: string, b: string)
    requires g != [] && forall k :: 0 <= k < |g| ==> !IsWordChar(g[k])
    requires b == [] || IsWordChar(b[0])
    ensures CollapseNonWord(g + b) == "_" + CollapseNonWord(b)
  {
    var s := g + b;
    assert s[0] == g[0] && s[1..] == g[1..] + b;
    DropRunAt(g[1..], b);
  }

  /** A maximal run `g` of non-word characters after the word characters `a`
      becomes exactly one `_`; the word characters before it are kept as they are. */
  lemma CollapseRun(a: string, g: string, b: string)
    requires forall k :: 0 <= k < |a| ==> IsWordChar(a[k])
    requires g != [] && forall k :: 0 <= k < |g| ==> !IsWordChar(g[k])
    requires b == [] || IsWordChar(b[0])
    ensures CollapseNonWord(a + g + b) == a + "_" + CollapseNonWord(b)
  {
    var c := CollapseNonWord(b);
    assert a + g + b == a + (g + b);
    CollapseWordPrefix(a, g + b);
    CollapseRunStart(g, b);
    assert a + ("_" + c) == a + "_" + c;
  }

  /** The normalization rewrites a maximal non-word run between word characters
      into exactly one `_` and lowercases the word characters before it. */
  lemma NormalizeRun(a: string, g: string, b: string)
    requires forall k :: 0 <= k < |a| ==> IsWordChar(a[k])
    requires g != [] && forall k :: 0 <= k < |g| ==> !IsWordChar(g[k])
    requires b == [] || IsWordChar(b[0])
    ensures Normalize(a + g + b) == Lower(a) + "_" + Normalize(b)
  {
    var c := CollapseNonWord(b);
    CollapseRun(a, g, b);
    LowerConcat(a + "_", c);
    LowerUnderscore(a);
  }

  lemma LowerUnderscore(a: string)
    ensures Lower(a + "_") == Lower(a) + "_"
  {
    var x, y := a + "_", Lower(a) + "_";
    forall k | 0 <= k < |x|
      ensures Lower(x)[k] == y[k]
    {
      if k < |a| {
        assert x[k] == a[k];
      } else {
        assert x[k] == '_';
      }
    }
  }

  /** Two words joined by one non-word character: the words lowercased, joined
      by `_`. */
  lemma NormalizeSeparated(w1: string, c: char, w2: string)
    requires forall k :: 0 <= k < |w1| ==> IsWordChar(w1[k])
    requires forall k :: 0 <= k < |w2| ==> IsWordChar(w2[k])
    requires !IsWordChar(c)
    ensures Normalize(w1 + [c] + w2) == Lower(w1) + "_" + Lower(w2)
  {
    CollapseWordsOnly(w2);
    if w2 != [] {
      assert IsWordChar(w2[0]);
    }
    NormalizeRun(w1, [c], w2);
  }

  /** Normalization is not injective: two headers that differ only in which
      non-word character separates the same two words ("Total Sales" and
      "Total-Sales", say) get the same name, and both keep it, since no suffix or
      other disambiguation is applied. */
  lemma NormalizeCollides(w1: string, w2: string, c1: char, c2: char)
    requires forall k :: 0 <= k < |w1| ==> IsWordChar(w1[k])
    requires forall k :: 0 <= k < |w2| ==> IsWordChar(w2[k])
    requires !IsWordChar(c1) && !IsWordChar(c2) && c1 != c2
    ensures w1 + [c1] + w2 != w1 + [c2] + w2
    ensures Normalize(w1 + [c1] + w2) == Lower(w1) + "_" + Lower(w2)
    ensures Normalize(w1 + [c2] + w2) == Lower(w1) + "_" + Lower(w2)
    ensures var names := NormalizeColumns([w1 + [c1] + w2, w1 + [c2] + w2]);
      names[0] == names[1]
  {
    assert (w1 + [c1] + w2)[|w1|] == c1;
    assert (w1 + [c2] + w2)[|w1|] == c2;
    NormalizeSeparated(w1, c1, w2);
    NormalizeSeparated(w1, c2, w2);
  }
}
