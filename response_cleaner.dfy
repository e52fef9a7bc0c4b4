/**
 * Clean-up of the text returned by the language model before it is run as a
 * query: strip whitespace, delete every "```sql", delete every remaining
 * "```", strip again. The deletion is case-sensitive, so an upper-case tag
 * such as "```SQL" leaves "SQL" behind.
 */
module ResponseCleaner {
  import opened Text

  const Fence := "```"
  const SqlFence := "```sql"

  /** The cleaning chain applied to the model's reply. */
  function Clean(response: string): (sql: string)
    ensures IsStripped(sql)
    ensures !Contains(sql, Fence)
  {
    var unfenced := ReplaceAll(ReplaceAll(Strip(response), SqlFence, ""), Fence, "");
    RemoveFenceLeavesNone(ReplaceAll(Strip(response), SqlFence, ""));
    StripTrims(unfenced);
    NoFenceInPiece(unfenced, Strip(unfenced));
    Strip(unfenced)
  }

  // ---------------------------------------------------------------------------
  // Deleting "```" leaves no "```" behind.

  /** The number of backticks `s` starts with. */
  function LeadingTicks(s: string): (n: nat)
    ensures n <= |s|
    ensures forall k :: 0 <= k < n ==> s[k] == '`'
    ensures n < |s| ==> s[n] != '`'
  {
    if s != [] && s[0] == '`' then 1 + LeadingTicks(s[1..]) else 0
  }

  lemma NoFenceInPiece(s: string, r: string)
    requires !Contains(s, Fence) && TrimmedFrom(s, r)
    ensures !Contains(r, Fence)
  {
    var i, j :| 0 <= i <= j <= |s| && r == s[i..j]
      && (forall k :: 0 <= k < i ==> IsWhitespace(s[k]))
      && (forall k :: j <= k < |s| ==> IsWhitespace(s[k]));
    ContainsInSlice(s, i, j, Fence);
  }

  /** A string starting with a character other than a backtick, or with fewer than
      three backticks, does not start with "```". */
  lemma NotFenceStart(r: string)
    requires LeadingTicks(r) < 3
    ensures !(Fence <= r)
  {
    if |r| >= 3 {
      var n := LeadingTicks(r);
      assert r[..3][n] == r[n];
    }
  }

  /** One step of the scan where no match starts: `s[0]` is copied. */
  lemma RemoveFenceCopyStep(s: string, t: string)
    requires |s| >= 3 && s[..3] != Fence
    requires LeadingTicks(t) == LeadingTicks(s[1..]) % 3 && !Contains(t, Fence)
    ensures LeadingTicks([s[0]] + t) == LeadingTicks(s) % 3
    ensures !Contains([s[0]] + t, Fence)
  {
    CopyStepTicks(s, t);
    NotFenceStart([s[0]] + t);
    ContainsCons(s[0], t, Fence);
  }

  lemma CopyStepTicks(s: string, t: string)
    requires |s| >= 3 && s[..3] != Fence
    requires LeadingTicks(t) == LeadingTicks(s[1..]) % 3
    ensures LeadingTicks([s[0]] + t) == LeadingTicks(s) % 3
  {
    var r := [s[0]] + t;
    assert r[1..] == t;
    if s[0] == '`' {
      assert LeadingTicks(s) == 1 + LeadingTicks(s[1..]);
      assert LeadingTicks(s) < 3 by {
        var k :| 0 <= k < 3 && s[..3][k] != Fence[k];
        assert s[k] != '`';
      }
    }
  }

  lemma ModThree(n: nat)
    ensures (3 + n) % 3 == n % 3
  {
  }

  /** One step of the scan where a match starts: the three backticks go. */
  lemma RemoveFenceDropStep(s: string)
    requires |s| >= 3 && s[..3] == Fence
    ensures ReplaceAll(s, Fence, "") == ReplaceAll(s[3..], Fence, "")
    ensures LeadingTicks(s) == 3 + LeadingTicks(s[3..])
  {
    assert s == Fence + s[3..];
    ReplaceAllHead(Fence, s[3..], "");
    assert "" + ReplaceAll(s[3..], Fence, "") == ReplaceAll(s[3..], Fence, "");
    LeadingTicksPastFence(s);
  }

  lemma LeadingTicksPastFence(s: string)
    requires |s| >= 3 && s[..3] == Fence
    ensures LeadingTicks(s) == 3 + LeadingTicks(s[3..])
  {
    assert s[0] == s[..3][0] && s[1..][0] == s[..3][1] && s[1..][1..][0] == s[..3][2];
    assert s[1..][1..][1..] == s[3..];
  }

  /** The scan deletes whole triples from the front of a backtick run, so what is
      left of the run is its length modulo 3; and no "```" survives anywhere. */
  lemma {:induction false} RemoveFenceInvariant(s: string)
    ensures LeadingTicks(ReplaceAll(s, Fence, "")) == LeadingTicks(s) % 3
    ensures !Contains(ReplaceAll(s, Fence, ""), Fence)
    decreases |s|
  {
    if |s| < 3 {
      assert ReplaceAll(s, Fence, "") == s;
      assert LeadingTicks(s) % 3 == LeadingTicks(s);
      ContainsTooShort(s, Fence);
    } else if s[..3] == Fence {
      RemoveFenceDropStep(s);
      RemoveFenceInvariant(s[3..]);
      ModThree(LeadingTicks(s[3..]));
    } else {
      assert ReplaceAll(s, Fence, "") == [s[0]] + ReplaceAll(s[1..], Fence, "");
      RemoveFenceInvariant(s[1..]);
      RemoveFenceCopyStep(s, ReplaceAll(s[1..], Fence, ""));
    }
  }

  /** After every "```" is deleted, none is left, even where deleting one brought
      backticks together. */
  lemma RemoveFenceLeavesNone(s: string)
    ensures !Contains(ReplaceAll(s, Fence, ""), Fence)
  {
    RemoveFenceInvariant(s);
  }

  // ---------------------------------------------------------------------------
  // What cleaning keeps.

  /** A "```sql" occurrence is also a "```" occurrence. */
  lemma SqlFenceHasFence(s: string)
    ensures Contains(s, SqlFence) ==> Contains(s, Fence)
  {
    if Contains(s, SqlFence) {
      var k :| 0 <= k <= |s| && SqlFence <= s[k..];
      assert Fence <= s[k..];
    }
  }

  lemma NoBacktickNoFence(s: string)
    requires forall k :: 0 <= k < |s| ==> s[k] != '`'
    ensures !Contains(s, Fence)
  {
    forall k | 0 <= k <= |s|
      ensures !(Fence <= s[k..])
    {
      if k < |s| {
        assert s[k..][0] == s[k];
      }
    }
  }

  /** Cleaning is idempotent: a cleaned query comes back unchanged. */
  lemma CleanIdempotent(response: string)
    ensures Clean(Clean(response)) == Clean(response)
  {
    var c := Clean(response);
    StripFixedPoint(c);
    SqlFenceHasFence(c);
    ReplaceAllAbsent(c, SqlFence, "");
    ReplaceAllAbsent(c, Fence, "");
  }

  /** A reply without any backtick is only stripped. */
  lemma CleanWithoutBackticks(response: string)
    requires forall k :: 0 <= k < |response| ==> response[k] != '`'
    ensures Clean(response) == Strip(response)
  {
    var s := Strip(response);
    StripNoBacktick(response);
    NoBacktickNoFence(s);
    SqlFenceHasFence(s);
    ReplaceAllAbsent(s, SqlFence, "");
    ReplaceAllAbsent(s, Fence, "");
    StripFixedPoint(s);
  }

  lemma StripNoBacktick(response: string)
    requires forall k :: 0 <= k < |response| ==> response[k] != '`'
    ensures forall k :: 0 <= k < |Strip(response)| ==> Strip(response)[k] != '`'
  {
    NoBacktickInPiece(response, TrimLeft(response), Strip(response));
  }

  lemma NoBacktickInPiece(r: string, l: string, s: string)
    requires forall k :: 0 <= k < |r| ==> r[k] != '`'
    requires |l| <= |r| && l == r[|r| - |l|..]
    requires |s| <= |l| && s == l[..|s|]
    ensures forall k :: 0 <= k < |s| ==> s[k] != '`'
  {
    forall k | 0 <= k < |s|
      ensures s[k] != '`'
    {
      assert s[k] == l[k] == r[|r| - |l| + k];
    }
  }

  // ---------------------------------------------------------------------------
  // Fenced replies.

  /** Text without backticks followed by a closing fence holds no "```sql". */
  lemma NoSqlFenceBeforeClosing(u: string)
    requires forall k :: 0 <= k < |u| ==> u[k] != '`'
    ensures !Contains(u + Fence, SqlFence)
  {
    var s := u + Fence;
    forall k | 0 <= k <= |s|
      ensures !(SqlFence <= s[k..])
    {
      if k + 6 <= |s| {
        assert s[k..][0] == u[k];
      }
    }
  }

  /** A fenced reply has a backtick at each end, so the first `strip()` keeps it
      whole. */
  lemma StripKeepsFenced(open: string, m: string)
    requires |open| > 0 && open[0] == '`'
    ensures Strip(open + m + Fence) == open + m + Fence
  {
    var raw := open + m + Fence;
    assert raw[0] == open[0];
    assert raw[|raw| - 1] == Fence[2];
    StripFixedPoint(raw);
  }

  /** Cleaning a fenced reply skips the first `strip()`. */
  lemma CleanFenced(open: string, m: string)
    requires |open| > 0 && open[0] == '`'
    ensures Clean(open + m + Fence)
         == Strip(ReplaceAll(ReplaceAll(open + m + Fence, SqlFence, ""), Fence, ""))
  {
    StripKeepsFenced(open, m);
  }

  /** Both deletions applied to "```sql" + m + "```" give back `m`. */
  lemma UnfenceSqlFenced(m: string)
    requires forall k :: 0 <= k < |m| ==> m[k] != '`'
    ensures ReplaceAll(ReplaceAll(SqlFence + m + Fence, SqlFence, ""), Fence, "") == m
  {
    var u := m + Fence;
    assert SqlFence + m + Fence == SqlFence + u;
    ReplaceAllHead(SqlFence, u, "");
    assert "" + ReplaceAll(u, SqlFence, "") == ReplaceAll(u, SqlFence, "");
    NoSqlFenceBeforeClosing(m);
    ReplaceAllAbsent(u, SqlFence, "");
    ReplaceAllTail(m, Fence, "");
    assert m + "" == m;
  }

  /** Whitespace around a stripped text is what `strip()` removes. */
  lemma StripAround(a: string, q: string, b: string)
    requires forall k :: 0 <= k < |a| ==> IsWhitespace(a[k])
    requires forall k :: 0 <= k < |b| ==> IsWhitespace(b[k])
    requires IsStripped(q)
    ensures Strip(a + q + b) == q
  {
    var m := a + q + b;
    assert m[|a|..|a| + |q|] == q;
    assert forall k :: 0 <= k < |a| ==> m[k] == a[k];
    assert forall k :: |a| + |q| <= k < |m| ==> m[k] == b[k - |a| - |q|];
    StripAt(m, |a|, |a| + |q|);
  }

  lemma NoBacktickAround(a: string, q: string, b: string)
    requires forall k :: 0 <= k < |a| ==> IsWhitespace(a[k])
    requires forall k :: 0 <= k < |b| ==> IsWhitespace(b[k])
    requires forall k :: 0 <= k < |q| ==> q[k] != '`'
    ensures forall k :: 0 <= k < |a + q + b| ==> (a + q + b)[k] != '`'
  {
    var m := a + q + b;
    forall k | 0 <= k < |m|
      ensures m[k] != '`'
    {
      if k < |a| {
        assert m[k] == a[k];
      } else if k < |a| + |q| {
        assert m[k] == q[k - |a|];
      } else {
        assert m[k] == b[k - |a| - |q|];
      }
    }
  }

  /** Cleaning a reply fenced as "```sql" ... "```" strips what is between the
      fences. */
  lemma CleanSqlFencedBody(m: string)
    requires forall k :: 0 <= k < |m| ==> m[k] != '`'
    ensures Clean(SqlFence + m + Fence) == Strip(m)
  {
    CleanFenced(SqlFence, m);
    UnfenceSqlFenced(m);
  }

  /** A reply fenced as "```sql" ... "```" is cleaned to the query between the
      fences, without the whitespace around it. */
  lemma CleanSqlFenced(a: string, q: string, b: string)
    requires forall k :: 0 <= k < |a| ==> IsWhitespace(a[k])
    requires forall k :: 0 <= k < |b| ==> IsWhitespace(b[k])
    requires IsStripped(q) && forall k :: 0 <= k < |q| ==> q[k] != '`'
    ensures Clean(SqlFence + a + q + b + Fence) == q
  {
    var m := a + q + b;
    assert SqlFence + a + q + b + Fence == SqlFence + m + Fence;
    NoBacktickAround(a, q, b);
    CleanSqlFencedBody(m);
    StripAround(a, q, b);
  }

  /** The reply used as the clean-up's own example. */
  lemma CleanExample(raw: string)
    requires raw == "```sql\nSELECT 1\n```"
    ensures Clean(raw) == "SELECT 1"
  {
    var a, q, b := raw[6..7], raw[7..15], raw[15..16];
    ExampleParts(raw, a, q, b);
    CleanSqlFenced(a, q, b);
  }

  lemma ExampleParts(raw: string, a: string, q: string, b: string)
    requires raw == "```sql\nSELECT 1\n```"
    requires a == raw[6..7] && q == raw[7..15] && b == raw[15..16]
    ensures raw == SqlFence + a + q + b + Fence
    ensures q == "SELECT 1"
    ensures forall k :: 0 <= k < |a| ==> IsWhitespace(a[k])
    ensures forall k :: 0 <= k < |b| ==> IsWhitespace(b[k])
    ensures IsStripped(q) && forall k :: 0 <= k < |q| ==> q[k] != '`'
  {
    assert a == "\n" && b == "\n" && q == "SELECT 1";
  }

  /** Between two plain fences, a body that does not start with the lower-case tag
      holds no "```sql". */
  lemma NoSqlFenceInFenced(body: string)
    requires forall k :: 0 <= k < |body| ==> body[k] != '`'
    requires !("sql" <= body)
    ensures !Contains(Fence + body + Fence, SqlFence)
  {
    var s := Fence + body + Fence;
    var n := |body|;
    forall k | 0 <= k <= |s|
      ensures !(SqlFence <= s[k..])
    {
      if k + 6 <= |s| {
        var w := s[k..];
        if k == 0 {
          if n >= 3 {
            assert body[..3] != "sql";
            var j :| 0 <= j < 3 && body[j] != "sql"[j];
            assert w[3 + j] == body[j];
          } else {
            assert w[3 + n] == '`';
          }
        } else {
          assert w[2] == body[k - 1];
        }
      }
    }
  }

  /** Deleting "```" from "```" + body + "```" leaves the body. */
  lemma UnfencePlainFenced(body: string)
    requires forall k :: 0 <= k < |body| ==> body[k] != '`'
    ensures ReplaceAll(Fence + body + Fence, Fence, "") == body
  {
    assert Fence + body + Fence == Fence + (body + Fence);
    ReplaceAllHead(Fence, body + Fence, "");
    ReplaceAllTail(body, Fence, "");
    assert "" + (body + "") == body;
  }

  /** A reply between plain fences whose body does not start with the lower-case
      tag loses only the fences and the surrounding whitespace. In particular an
      upper-case tag such as "SQL" stays in the query. */
  lemma CleanPlainFenced(body: string)
    requires forall k :: 0 <= k < |body| ==> body[k] != '`'
    requires !("sql" <= body)
    ensures Clean(Fence + body + Fence) == Strip(body)
  {
    var raw := Fence + body + Fence;
    CleanFenced(Fence, body);
    NoSqlFenceInFenced(body);
    ReplaceAllAbsent(raw, SqlFence, "");
    UnfencePlainFenced(body);
  }

  /** A tag at the front of a plain-fenced body stays at the front of the
      cleaned text. */
  lemma CleanPlainFencedTagged(body: string, tag: string)
    requires forall k :: 0 <= k < |body| ==> body[k] != '`'
    requires !("sql" <= body)
    requires tag != [] && IsStripped(tag) && tag <= body
    ensures Clean(Fence + body + Fence) == Strip(body)
    ensures tag <= Clean(Fence + body + Fence)
  {
    CleanPlainFenced(body);
    StripKeepsPrefix(body, tag);
  }

  /** The tag is matched case-sensitively: a reply fenced as "```SQL", laid out
      as models send it (a newline after the tag and before the closing fence),
      is cleaned to the stripped body, which still starts with "SQL". */
  lemma CleanUpperCaseTag(rest: string)
    requires forall k :: 0 <= k < |rest| ==> rest[k] != '`'
    ensures Clean(Fence + "SQL" + rest + Fence) == Strip("SQL" + rest)
    ensures "SQL" <= Clean(Fence + "SQL" + rest + Fence)
  {
    var body := "SQL" + rest;
    UpperTagBody(rest);
    assert Fence + "SQL" + rest + Fence == Fence + body + Fence;
    CleanPlainFencedTagged(body, "SQL");
  }

  /** When the query after the tag ends in no whitespace, the cleaned text is
      exactly "SQL" followed by it. */
  lemma CleanUpperCaseTagExact(rest: string)
    requires forall k :: 0 <= k < |rest| ==> rest[k] != '`'
    requires rest == [] || !IsWhitespace(rest[|rest| - 1])
    ensures Clean(Fence + "SQL" + rest + Fence) == "SQL" + rest
  {
    var body := "SQL" + rest;
    CleanUpperCaseTag(rest);
    if rest != [] {
      assert body[|body| - 1] == rest[|rest| - 1];
    }
    assert body[0] == 'S';
    StripFixedPoint(body);
  }

  lemma UpperTagBody(rest: string)
    requires forall k :: 0 <= k < |rest| ==> rest[k] != '`'
    ensures forall k :: 0 <= k < |"SQL" + rest| ==> ("SQL" + rest)[k] != '`'
    ensures !("sql" <= "SQL" + rest)
    ensures ("SQL" + rest)[..3] == "SQL"
  {
    var body := "SQL" + rest;
    assert body[..3][0] == 'S';
    forall k | 0 <= k < |body| ensures body[k] != '`' {
      if k >= 3 {
        assert body[k] == rest[k - 3];
      }
    }
  }
}
