/** Which text is a mention, a comment or a code span, told by its shape. */
module MentionShapes {
  import opened MentionText
  import opened Option

  // ---- Mentions ----------------------------------------------------------------------------------

  /** Up to 39 letters, digits and dashes, the first not a dash. */
  predicate IsHandle(h: string) {
    1 <= |h| <= 39 && IsAlnum(h[0]) && forall i | 0 <= i < |h| :: IsHandleChar(h[i])
  }

  /** A team name, of any length, or none. */
  predicate IsTeam(t: string) {
    t != "" ==> IsAlnum(t[0]) && forall i | 0 <= i < |t| :: IsTeamChar(t[i])
  }

  /** An `@`, a handle, and a slash and a team if one follows, with no dot or dash at the end. */
  predicate IsMention(m: string, h: string, t: string) {
    && m == "@" + h + (if t == "" then "" else "/" + t)
    && IsHandle(h) && IsTeam(t) && m[|m| - 1] !in ".-"
  }

  lemma {:induction false} HandleRunMost(s: string, cap: nat, n: nat)
    requires n <= |s| && n <= cap && forall i | 0 <= i < n :: IsHandleChar(s[i])
    ensures HandleRun(s, cap) >= n
    ensures n < |s| && !IsHandleChar(s[n]) ==> HandleRun(s, cap) == n
  {
    if n > 0 { HandleRunMost(s[1..], cap - 1, n - 1); }
  }

  lemma {:induction false} TeamRunMost(s: string, n: nat)
    requires n <= |s| && forall i | 0 <= i < n :: IsTeamChar(s[i])
    ensures TeamRun(s) >= n
  {
    if n > 0 { TeamRunMost(s[1..], n - 1); }
  }

  lemma {:induction false} WithoutTailMost(s: string, n: nat, least: nat, k: nat)
    requires least <= k <= n <= |s| && (k > 0 ==> s[k - 1] !in ".-")
    ensures WithoutTail(s, n, least) >= k
    decreases n
  {
    if n > least && s[n - 1] in ".-" {
      if k == n { assert false; }
      WithoutTailMost(s, n - 1, least, k);
    }
  }

  lemma HandleOf(s: string, k: nat, h: string, t: string)
    requires StartsLikeMention(s) && k <= |s| && IsMention(s[..k], h, t)
    ensures |h| < k && HandleRun(s[1..], 39) >= |h|
    ensures t == "" ==> k == 1 + |h|
    ensures t != "" ==> k == 2 + |h| + |t| && HandleRun(s[1..], 39) == |h| && s[1 + |h|] == '/'
    ensures t != "" ==> IsAlnum(s[2 + |h|]) && forall i | 2 + |h| <= i < k :: IsTeamChar(s[i])
    ensures s[k - 1] !in ".-"
  {
    hide IsAlnum;
    var m := s[..k];
    assert forall i | 0 <= i < k :: m[i] == s[i];
    forall i | 0 <= i < |h| ensures s[1..][i] == h[i] { assert m[i + 1] == h[i]; }
    SlashIsNoHandle();
    if t != "" {
      assert m[1 + |h|] == '/';
      assert s[1..][|h|] == '/';
      forall i | 2 + |h| <= i < k ensures s[i] == t[i - (2 + |h|)] { assert m[i] == t[i - (2 + |h|)]; }
    }
    HandleRunMost(s[1..], 39, |h|);
  }

  lemma SlashIsNoHandle()
    ensures !IsHandleChar('/')
  {
  }

  lemma TeamReaches(s: string, e: nat, k: nat)
    requires e + 1 < k <= |s| && forall i | e + 1 <= i < k :: IsTeamChar(s[i])
    ensures TeamRun(s[e + 1..]) >= k - e - 1
  {
    hide IsTeamChar;
    var u := s[e + 1..];
    forall i | 0 <= i < k - e - 1 ensures IsTeamChar(u[i]) { assert u[i] == s[e + 1 + i]; }
    TeamRunMost(u, k - e - 1);
  }

  /** No match is longer than the one taken. */
  lemma MentionIsMost(s: string, k: nat, h: string, t: string)
    requires StartsLikeMention(s) && k <= |s| && IsMention(s[..k], h, t)
    ensures k <= MentionLength(s)
  {
    hide IsMention, IsAlnum, IsTeamChar, IsHandleChar;
    HandleOf(s, k, h, t);
    var e := 1 + HandleRun(s[1..], 39);
    if t == "" {
      if !(e + 1 < |s| && s[e] == '/' && IsAlnum(s[e + 1])) {
        assert k >= 2 by { MentionNotShort(s[..k], h, t); }
        WithoutTailMost(s, e, 2, k);
      }
    } else {
      TeamReaches(s, e, k);
      WithoutTailMost(s, e + 1 + TeamRun(s[e + 1..]), e + 2, k);
    }
  }

  lemma MentionNotShort(m: string, h: string, t: string)
    requires IsMention(m, h, t)
    ensures |m| >= 2
  {
  }

  lemma HandleAlone(s: string, n: nat)
    requires StartsLikeMention(s) && 2 <= n <= 1 + HandleRun(s[1..], 39) && s[n - 1] !in ".-"
    ensures IsMention(s[..n], s[1..n], "")
  {
    hide IsAlnum;
    var h := s[1..n];
    assert forall i | 0 <= i < |h| :: h[i] == s[1..][i];
    assert s[..n] == "@" + h + "" && h[0] == s[1] && s[..n][n - 1] == s[n - 1];
  }

  lemma HandleAndTeam(s: string, e: nat, n: nat)
    requires StartsLikeMention(s) && e == 1 + HandleRun(s[1..], 39) && e + 1 < n <= |s|
    requires n <= e + 1 + TeamRun(s[e + 1..])
    requires s[e] == '/' && IsAlnum(s[e + 1]) && s[n - 1] !in ".-"
    ensures IsMention(s[..n], s[1..e], s[e + 1..n])
  {
    hide IsAlnum;
    var h, t := s[1..e], s[e + 1..n];
    assert forall i | 0 <= i < |h| :: h[i] == s[1..][i];
    assert forall i | 0 <= i < |t| :: t[i] == s[e + 1..][i];
    assert h[0] == s[1] && t[0] == s[e + 1] && s[..n][n - 1] == s[n - 1];
    assert s[..n] == "@" + h + ("/" + t);
  }

  /** And that is one. */
  lemma MentionIsOne(s: string) returns (h: string, t: string)
    requires StartsLikeMention(s)
    ensures IsMention(s[..MentionLength(s)], h, t)
  {
    hide IsMention;
    var n, e := MentionLength(s), 1 + HandleRun(s[1..], 39);
    if e + 1 < |s| && s[e] == '/' && IsAlnum(s[e + 1]) {
      h, t := s[1..e], s[e + 1..n];
      HandleAndTeam(s, e, n);
    } else {
      h, t := s[1..n], "";
      HandleAlone(s, n);
    }
  }

  /** A mention begins exactly where nothing guards one, and it is the longest one there. */
  lemma MentionIff(before: Option<char>, s: string)
    ensures MentionAt(before, s) <==>
      (before.Some? ==> !IsGuard(before.value)) && exists k, h, t :: 0 <= k <= |s| && IsMention(s[..k], h, t)
    ensures MentionAt(before, s) ==>
      exists h, t :: IsMention(s[..MentionLength(s)], h, t)
    ensures MentionAt(before, s) ==>
      forall k, h, t | 0 <= k <= |s| && IsMention(s[..k], h, t) :: k <= MentionLength(s)
  {
    hide IsMention, MentionLength, IsGuard;
    if k, h, t :| 0 <= k <= |s| && IsMention(s[..k], h, t) {
      MentionStarts(s, k, h, t);
    }
    if StartsLikeMention(s) {
      var h, t := MentionIsOne(s);
      assert 0 <= MentionLength(s) <= |s| && IsMention(s[..MentionLength(s)], h, t);
      forall k, h, t | 0 <= k <= |s| && IsMention(s[..k], h, t) ensures k <= MentionLength(s) {
        MentionIsMost(s, k, h, t);
      }
    }
  }

  lemma MentionStarts(s: string, k: nat, h: string, t: string)
    requires k <= |s| && IsMention(s[..k], h, t)
    ensures StartsLikeMention(s)
  {
    var m := s[..k];
    assert m[0] == '@' && m[1] == h[0];
    assert s[0] == m[0] && s[1] == m[1];
  }

  /** Behind a letter, a digit, or one of these, an `@` is part of an address, a path, an escape
  or code, whatever follows it. */
  lemma LeftAlone(c: char, rest: string)
    requires 'a' <= c <= 'z' || 'A' <= c <= 'Z' || '0' <= c <= '9' || c in "_.@/`\\"
    ensures !MentionAt(Some(c), rest)
  {
  }

  // ---- Comments ------------------------------------------------------------------------------------

  /** From its opening to the first closing behind that. */
  predicate IsComment(s: string, n: nat) {
    && 7 <= n <= |s| && OpensComment(s) && ClosesComment(s[n - 3..])
    && forall i | 4 <= i < n - 3 :: !ClosesComment(s[i..])
  }

  lemma {:induction false} FirstClose(s: string, k: nat)
    requires k <= |s| && ClosesComment(s[k..]) && forall i | 0 <= i < k :: !ClosesComment(s[i..])
    ensures HasClose(s) && CloseLength(s) == k + 3
    decreases k
  {
    assert s[0..] == s;
    if k > 0 {
      assert forall i | 0 <= i < k - 1 :: s[1..][i..] == s[i + 1..];
      assert s[1..][k - 1..] == s[k..];
      FirstClose(s[1..], k - 1);
    }
  }

  lemma {:induction false} CloseIsFirst(s: string)
    requires HasClose(s)
    ensures var k := CloseLength(s) - 3;
      ClosesComment(s[k..]) && forall i | 0 <= i < k :: !ClosesComment(s[i..])
  {
    assert s[0..] == s;
    if !ClosesComment(s) {
      CloseIsFirst(s[1..]);
      var k := CloseLength(s) - 3;
      assert s[1..][k - 1..] == s[k..];
      forall i | 0 <= i < k ensures !ClosesComment(s[i..]) {
        if i > 0 { assert s[1..][i - 1..] == s[i..]; }
      }
    }
  }

  // ---- Code spans -----------------------------------------------------------------------------------

  /** A run of exactly `k` backticks begins at `j`. */
  predicate RunAt(before: Option<char>, s: string, j: nat, k: nat) {
    j < |s| && k > 0 && Prior(before, s, j) != Some('`') && TickRun(s[j..]) == k
  }

  lemma RunAtNext(before: Option<char>, s: string, j: nat, k: nat)
    requires 0 < j < |s|
    ensures RunAt(before, s, j, k) <==> RunAt(Some(s[0]), s[1..], j - 1, k)
  {
    assert s[1..][j - 1..] == s[j..];
  }

  lemma {:induction false} FirstRun(before: char, s: string, j: nat, k: nat)
    requires RunAt(Some(before), s, j, k) && forall i | 0 <= i < j :: !RunAt(Some(before), s, i, k)
    ensures TicksClose(before, s, k) == Some(j + k)
    decreases j
  {
    assert s[0..] == s;
    if j > 0 {
      assert !RunAt(Some(before), s, 0, k);
      forall i | 0 <= i < j - 1 ensures !RunAt(Some(s[0]), s[1..], i, k) {
        RunAtNext(Some(before), s, i + 1, k);
      }
      RunAtNext(Some(before), s, j, k);
      FirstRun(s[0], s[1..], j - 1, k);
    }
  }

  lemma {:induction false} RunIsFirst(before: char, s: string, k: nat)
    requires k > 0 && TicksClose(before, s, k).Some?
    ensures var n := TicksClose(before, s, k).value;
      n >= k && RunAt(Some(before), s, n - k, k) && forall i | 0 <= i < n - k :: !RunAt(Some(before), s, i, k)
    decreases |s|
  {
    assert s[0..] == s;
    if !(before != '`' && TickRun(s) == k) {
      RunIsFirst(s[0], s[1..], k);
      var j := TicksClose(before, s, k).value - k;
      RunAtNext(Some(before), s, j, k);
      forall i | 0 <= i < j ensures !RunAt(Some(before), s, i, k) {
        if i > 0 { RunAtNext(Some(before), s, i, k); }
      }
    }
  }

  /** A run of `k` backticks, closed at `j` by the next run of exactly `k`. */
  predicate IsCodeSpan(before: Option<char>, s: string, n: nat, k: nat) {
    && RunAt(before, s, 0, k) && 2 * k < n <= |s|
    && RunAt(before, s, n - k, k) && forall i | k < i < n - k :: !RunAt(before, s, i, k)
  }

  lemma RunBehind(before: Option<char>, s: string, i: nat, k: nat)
    requires k + 1 <= i < |s|
    ensures RunAt(before, s, i, k) <==> RunAt(Some(s[k]), s[k + 1..], i - (k + 1), k)
  {
    assert s[k + 1..][i - (k + 1)..] == s[i..];
  }

  /** Where the code span that starts here ends, told by its two runs of backticks. */
  lemma CodeLength(p: Option<char>, s: string)
    requires s != "" && s[0] == '`' && p != Some('`')
    ensures var k := TickRun(s);
      0 < k <= |s| &&
      ProtectedLength(p, s) ==
        if k < |s| && TicksClose(s[k], s[k + 1..], k).Some? then k + 1 + TicksClose(s[k], s[k + 1..], k).value else 0
  {
    hide HasClose;
  }

  lemma CodeFound(before: Option<char>, s: string, n: nat, k: nat)
    requires IsCodeSpan(before, s, n, k)
    ensures ProtectedLength(before, s) == n
  {
    assert s[0..] == s && TickRun(s) == k && k < |s|;
    var u, j := s[k + 1..], n - k - (k + 1);
    RunBehind(before, s, n - k, k);
    forall i | 0 <= i < j ensures !RunAt(Some(s[k]), u, i, k) {
      RunBehind(before, s, i + k + 1, k);
    }
    FirstRun(s[k], u, j, k);
  }

  lemma StartRun(before: Option<char>, s: string)
    requires s != "" && s[0] == '`' && before != Some('`')
    ensures RunAt(before, s, 0, TickRun(s))
  {
    assert s[0..] == s;
  }

  lemma NoneBetween(before: Option<char>, s: string, k: nat, n: nat, u: string)
    requires 2 * k < n <= |s| && u == s[k + 1..]
    requires forall i | 0 <= i < n - 2 * k - 1 :: !RunAt(Some(s[k]), u, i, k)
    ensures forall i | k < i < n - k :: !RunAt(before, s, i, k)
  {
    hide RunAt;
    forall i | k < i < n - k ensures !RunAt(before, s, i, k) {
      RunBehind(before, s, i, k);
      assert !RunAt(Some(s[k]), u, i - (k + 1), k);
    }
  }

  /** The two runs of a code span, in terms of what is behind the first. */
  lemma CloserBehind(before: Option<char>, s: string, k: nat, c: nat)
    requires k < |s| && k > 0 && TicksClose(s[k], s[k + 1..], k) == Some(c)
    ensures c >= k && k + 1 + c <= |s| && RunAt(before, s, c + 1, k)
    ensures forall i | k < i < c + 1 :: !RunAt(before, s, i, k)
  {
    hide RunAt, TicksClose;
    RunIsFirst(s[k], s[k + 1..], k);
    RunBehind(before, s, c + 1, k);
    NoneBetween(before, s, k, k + 1 + c, s[k + 1..]);
  }

  lemma CodeClosed(before: Option<char>, s: string, k: nat, c: nat)
    requires s != "" && s[0] == '`' && before != Some('`') && k == TickRun(s) < |s|
    requires k > 0 && TicksClose(s[k], s[k + 1..], k) == Some(c)
    ensures IsCodeSpan(before, s, k + 1 + c, k)
  {
    hide TicksClose, RunAt, TickRun;
    StartRun(before, s);
    CloserBehind(before, s, k, c);
  }

  lemma CodeShape(before: Option<char>, s: string)
    requires s != "" && s[0] == '`' && ProtectedLength(before, s) > 0
    ensures IsCodeSpan(before, s, ProtectedLength(before, s), TickRun(s))
  {
    assert before != Some('`');
    hide ProtectedLength, TicksClose, RunAt, TickRun, IsCodeSpan;
    var k := TickRun(s);
    CodeLength(before, s);
    CodeClosed(before, s, k, TicksClose(s[k], s[k + 1..], k).value);
  }

  lemma CommentFound(before: Option<char>, s: string, n: nat)
    requires IsComment(s, n)
    ensures ProtectedLength(before, s) == n
  {
    var u := s[4..];
    assert u[n - 7..] == s[n - 3..];
    assert forall i | 0 <= i < n - 7 :: u[i..] == s[i + 4..];
    FirstClose(u, n - 7);
  }

  lemma CommentShape(before: Option<char>, s: string)
    requires ProtectedLength(before, s) > 0 && s[0] != '`'
    ensures IsComment(s, ProtectedLength(before, s))
  {
    var u, n := s[4..], ProtectedLength(before, s);
    CloseIsFirst(u);
    assert u[n - 7..] == s[n - 3..];
    forall i | 4 <= i < n - 3 ensures !ClosesComment(s[i..]) {
      assert u[i - 4..] == s[i..];
    }
  }

  /** What is protected here is a comment or a code span, and each of them is. */
  lemma ProtectedIff(before: Option<char>, s: string, n: nat)
    requires n > 0
    ensures ProtectedLength(before, s) == n <==> IsComment(s, n) || exists k :: IsCodeSpan(before, s, n, k)
  {
    hide ProtectedLength, IsComment, IsCodeSpan;
    if IsComment(s, n) { CommentFound(before, s, n); }
    if k: nat :| IsCodeSpan(before, s, n, k) { CodeFound(before, s, n, k); }
    if ProtectedLength(before, s) == n {
      if s[0] == '`' { CodeShape(before, s); } else { CommentShape(before, s); }
    }
  }
}
