/** Mentions, code spans and comments in a paragraph, as the source's patterns match them.

Text is scanned from the left. `before` is the character the scan has just passed, which
the patterns look back at; there is none at the start of the piece being searched.
*/
module MentionText {
  import opened Option

  predicate IsAlnum(c: char) {
    'a' <= c <= 'z' || 'A' <= c <= 'Z' || '0' <= c <= '9'
  }

  /** Characters that make a following `@` part of something else. */
  predicate IsGuard(c: char) {
    IsAlnum(c) || c in "_.@/`\\"
  }

  predicate IsHandleChar(c: char) {
    IsAlnum(c) || c == '-'
  }

  predicate IsTeamChar(c: char) {
    IsAlnum(c) || c in "._-"
  }

  /** Length of the run of handle characters `s` starts with, at most `cap`. */
  function HandleRun(s: string, cap: nat): (n: nat)
    ensures n <= |s| && n <= cap
    ensures forall i | 0 <= i < n :: IsHandleChar(s[i])
    ensures cap > 0 && s != "" && IsHandleChar(s[0]) ==> n >= 1
  {
    if cap == 0 || s == "" || !IsHandleChar(s[0]) then 0 else 1 + HandleRun(s[1..], cap - 1)
  }

  function TeamRun(s: string): (n: nat)
    ensures n <= |s|
    ensures forall i | 0 <= i < n :: IsTeamChar(s[i])
    ensures s != "" && IsTeamChar(s[0]) ==> n >= 1
  {
    if s == "" || !IsTeamChar(s[0]) then 0 else 1 + TeamRun(s[1..])
  }

  /** `n`, less the dots and dashes that end `s[..n]`, but never below `least`. */
  function WithoutTail(s: string, n: nat, least: nat): (m: nat)
    requires least <= n <= |s|
    ensures least <= m <= n
    ensures m > least ==> s[m - 1] !in ".-"
  {
    if n > least && s[n - 1] in ".-" then WithoutTail(s, n - 1, least) else n
  }

  /** A mention may begin here: an `@` before a letter or digit, and nothing guarding it. */
  predicate MentionAt(before: Option<char>, s: string) {
    && (before.Some? ==> !IsGuard(before.value))
    && StartsLikeMention(s)
  }

  /** The character before position `k`. */
  function Prior(before: Option<char>, s: string, k: nat): Option<char>
    requires k <= |s|
  {
    if k == 0 then before else Some(s[k - 1])
  }

  predicate StartsLikeMention(s: string) {
    |s| >= 2 && s[0] == '@' && IsAlnum(s[1])
  }

  /** Length of the mention `s` starts with: a handle of up to 39 characters, a team name
  if one follows, and no dot or dash at its end. */
  function MentionLength(s: string): (n: nat)
    requires StartsLikeMention(s)
    ensures 2 <= n <= |s|
    ensures forall i | 1 <= i < n :: IsTeamChar(s[i]) || s[i] == '/'
    ensures IsAlnum(s[n - 1]) || s[n - 1] == '_'
  {
    var h := 1 + HandleRun(s[1..], 39);
    assert forall i | 1 <= i < h :: s[i] == s[1..][i - 1];
    if h + 1 < |s| && s[h] == '/' && IsAlnum(s[h + 1]) then
      var e := h + 1 + TeamRun(s[h + 1..]);
      assert forall i | h + 1 <= i < e :: s[i] == s[h + 1..][i - (h + 1)];
      WithoutTail(s, e, h + 2)
    else WithoutTail(s, h, 2)
  }

  /** Every mention of `s`, put in a code span. */
  function Wrap(before: Option<char>, s: string): string
    decreases |s|
  {
    if s == "" then ""
    else if MentionAt(before, s) then
      var n := MentionLength(s);
      "`" + s[..n] + "`" + Wrap(Some(s[n - 1]), s[n..])
    else [s[0]] + Wrap(Some(s[0]), s[1..])
  }

  // ---- What is left alone ------------------------------------------------------------

  predicate OpensComment(s: string) {
    |s| >= 4 && s[0] == '<' && s[1] == '!' && s[2] == '-' && s[3] == '-'
  }

  predicate ClosesComment(s: string) {
    |s| >= 3 && s[0] == '-' && s[1] == '-' && s[2] == '>'
  }

  predicate HasClose(s: string) {
    s != "" && (ClosesComment(s) || HasClose(s[1..]))
  }

  /** Length through the first comment end. */
  function CloseLength(s: string): (n: nat)
    requires HasClose(s)
    ensures 3 <= n <= |s|
  {
    if ClosesComment(s) then 3 else 1 + CloseLength(s[1..])
  }

  function TickRun(s: string): (n: nat)
    ensures n <= |s|
    ensures forall i | 0 <= i < n :: s[i] == '`'
    ensures n < |s| ==> s[n] != '`'
  {
    if s == "" || s[0] != '`' then 0 else 1 + TickRun(s[1..])
  }

  /** Length through the first run of exactly `k` backticks that starts in `s`. */
  function TicksClose(before: char, s: string, k: nat): (n: Option<nat>)
    requires k > 0
    ensures n.Some? ==> n.value <= |s|
    decreases |s|
  {
    if s == "" then None
    else if before != '`' && TickRun(s) == k then Some(k)
    else
      var rest := TicksClose(s[0], s[1..], k);
      if rest.Some? then Some(rest.value + 1) else None
  }

  /** Length of the comment or code span that starts here; zero when none does. */
  function ProtectedLength(before: Option<char>, s: string): (n: nat)
    ensures n <= |s|
  {
    if OpensComment(s) && HasClose(s[4..]) then 4 + CloseLength(s[4..])
    else if s != "" && s[0] == '`' && before != Some('`') then
      var k := TickRun(s);
      if k == |s| then 0
      else
        var close := TicksClose(s[k], s[k + 1..], k);
        if close.Some? then k + 1 + close.value else 0
    else 0
  }

  /** One paragraph, its mentions wrapped outside comments and code spans. `piece` is what
  was passed since the last of those; it is searched on its own. */
  function Scan(before: Option<char>, piece: string, s: string): string
    decreases |s|
  {
    if s == "" then Wrap(None, piece)
    else
      var n := ProtectedLength(before, s);
      if n > 0 then Wrap(None, piece) + s[..n] + Scan(Some(s[n - 1]), "", s[n..])
      else Scan(Some(s[0]), piece + [s[0]], s[1..])
  }

  /** `_neutralize_prose`. */
  function NeutralizeProse(s: string): string {
    Scan(None, "", s)
  }
}
