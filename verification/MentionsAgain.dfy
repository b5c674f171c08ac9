/** Neutralising a whole text that was neutralised before. */
module MentionsAgain {
  import opened MentionText
  import opened MentionTheorems
  import opened Mentions
  import opened Option
  import opened SecondRun
  import opened Text

  // ---- What one run does to a paragraph, character by character -----------------------------------

  predicate EndsWord(c: char) {
    IsAlnum(c) || c == '_'
  }

  /** `o` is `s` with single backticks put in: before an `@`, never behind a backtick, or right
  behind a letter, a digit or an underscore. `before` is the last character of the output. */
  predicate Marked(before: Option<char>, s: string, o: string)
    decreases |o|
  {
    if o == "" then s == ""
    else
      || (s != "" && s[0] == o[0] && Marked(Some(o[0]), s[1..], o[1..]))
      || (o[0] == '`' && TickAllowed(before, o) && Marked(Some('`'), s, o[1..]))
  }

  predicate TickAllowed(before: Option<char>, o: string) {
    || (|o| > 1 && o[1] == '@' && before != Some('`'))
    || (before.Some? && EndsWord(before.value))
  }

  function Ending(before: Option<char>, o: string): Option<char> {
    if o == "" then before else Some(o[|o| - 1])
  }

  lemma {:induction false} MarkedSame(before: Option<char>, s: string)
    ensures Marked(before, s, s)
    decreases |s|
  {
    if s != "" { MarkedSame(Some(s[0]), s[1..]); }
  }

  lemma {:induction false} MarkedConcat(before: Option<char>, a: string, a': string, b: string, b': string)
    requires Marked(before, a, a') && Marked(Ending(before, a'), b, b')
    ensures Marked(before, a + b, a' + b')
    decreases |a'|
  {
    hide EndsWord;
    if a' == "" {
      assert a + b == b && a' + b' == b';
    } else {
      assert (a' + b')[1..] == a'[1..] + b';
      assert Ending(before, a') == Ending(Some(a'[0]), a'[1..]);
      if a != "" && a[0] == a'[0] && Marked(Some(a'[0]), a[1..], a'[1..]) {
        assert (a + b)[1..] == a[1..] + b;
        MarkedConcat(Some(a'[0]), a[1..], a'[1..], b, b');
      } else {
        MarkedConcat(Some('`'), a, a'[1..], b, b');
        assert TickAllowed(before, a' + b');
      }
    }
  }

  lemma MarkedQuote(before: Option<char>, m: string, t: string, w: string)
    requires StartsLikeMention(m) && EndsWord(m[|m| - 1]) && before != Some('`')
    requires Marked(Some('`'), t, w)
    ensures Marked(before, m + t, "`" + m + "`" + w)
  {
    hide EndsWord, IsAlnum;
    var close := "`" + w;
    assert close[1..] == w;
    assert Marked(Some(m[|m| - 1]), t, close);
    MarkedSame(Some('`'), m);
    MarkedConcat(Some('`'), m, m, t, close);
    var o := "`" + m + "`" + w;
    assert o[1..] == m + close && o[1] == '@';
  }

  lemma {:induction false} WrapMarked(q: Option<char>, before: Option<char>, t: string)
    requires q == Some('`') ==> !MentionAt(before, t)
    requires NoTick(t)
    ensures Marked(q, t, Wrap(before, t))
    decreases |t|
  {
    hide Marked, MentionLength, IsGuard, EndsWord;
    if t == "" {
      MarkedSame(q, t);
    } else if MentionAt(before, t) {
      var n := MentionLength(t);
      var m, w := t[..n], Wrap(Some(t[n - 1]), t[n..]);
      AfterMention(t);
      WrapMarked(Some('`'), Some(t[n - 1]), t[n..]);
      MentionEndsWord(t);
      MarkedQuote(q, m, t[n..], w);
      assert m + t[n..] == t;
    } else {
      WrapMarked(Some(t[0]), Some(t[0]), t[1..]);
      MarkedSame(q, [t[0]]);
      MarkedConcat(q, [t[0]], [t[0]], t[1..], Wrap(Some(t[0]), t[1..]));
      assert [t[0]] + t[1..] == t;
    }
  }

  lemma MentionEndsWord(t: string)
    requires StartsLikeMention(t)
    ensures EndsWord(t[MentionLength(t) - 1])
  {
    hide MentionLength;
  }

  lemma {:induction false} ScanMarked(before: Option<char>, s: string)
    requires Orderly(before, s)
    ensures Marked(before, s, Scan(before, "", s))
    decreases |s|
  {
    hide Marked, Scan, Split, Orderly, Wrap, MentionAt;
    var p := Split(before, s);
    OrderlyHead(before, s);
    ScanSplit(before, "", s);
    SplitWhole(before, s);
    assert "" + p.piece == p.piece;
    assert MentionAt(None, p.piece) <==> StartsLikeMention(p.piece) by { AtTheStart(p.piece); }
    WrapMarked(before, None, p.piece);
    var w := Wrap(None, p.piece);
    if p.span == "" {
      assert w + "" == w && p.piece + "" + "" == p.piece;
    } else {
      var last, rest := Some(SecondRun.Last(p.span)), Scan(Some(SecondRun.Last(p.span)), "", p.rest);
      ScanMarked(last, p.rest);
      MarkedSame(Ending(before, w), p.span);
      MarkedConcat(Ending(before, w), p.span, p.span, p.rest, rest);
      MarkedConcat(before, p.piece, w, p.span + p.rest, p.span + rest);
      Regroup(p.piece, p.span, p.rest);
    }
  }

  lemma AtTheStart(s: string)
    ensures MentionAt(None, s) <==> StartsLikeMention(s)
  {
  }

  // ---- Lines stay lines, and none becomes a fence -----------------------------------------------------

  /** Length of the first line, line end included. */
  function FirstLine(s: string): (n: nat)
    ensures n <= |s| && (s != "" ==> n > 0) && (n < |s| ==> IsBreak(s[n - 1]))
  {
    LineLength(s) + BreakLength(s[LineLength(s)..])
  }

  lemma FirstLineStep(s: string)
    requires s != ""
    ensures !IsBreak(s[0]) ==> FirstLine(s) == 1 + FirstLine(s[1..])
    ensures IsBreak(s[0]) ==> FirstLine(s) == if |s| > 1 && s[0] == '\r' && s[1] == '\n' then 2 else 1
  {
    hide IsBreak;
    if !IsBreak(s[0]) {
      assert s[1..][LineLength(s[1..])..] == s[LineLength(s)..];
    } else {
      assert s[0..] == s;
    }
  }

  /** A plain character that shows was there. */
  lemma MarkedHead(before: Option<char>, s: string, o: string)
    requires Marked(before, s, o) && o != "" && o[0] != '`'
    ensures s != "" && s[0] == o[0] && Marked(Some(o[0]), s[1..], o[1..])
  {
  }

  /** A line end comes through at once. */
  lemma MarkedBreak(before: Option<char>, s: string, o: string)
    requires Marked(before, s, o) && s != "" && IsBreak(s[0]) && (before.Some? ==> !EndsWord(before.value))
    ensures o != "" && o[0] == s[0] && Marked(Some(o[0]), s[1..], o[1..])
  {
    if o[0] == '`' && s[0] != o[0] {
      MarkedHead(Some('`'), s, o[1..]);
      assert false;
    }
  }

  lemma MarkedNothing(before: Option<char>, o: string)
    requires Marked(before, "", o) && (before.Some? ==> !EndsWord(before.value))
    ensures o == ""
  {
    if o != "" {
      assert o[1] == '@';
      MarkedHead(Some('`'), "", o[1..]);
      assert false;
    }
  }

  lemma BreakIsPlain(c: char)
    ensures IsBreak(c) ==> c != '`' && !EndsWord(c)
    ensures !IsBreak('`') && IsBreak('\r') && IsBreak('\n')
  {
  }

  /** The two runs of a line end are as long. */
  lemma BreakMarked(before: Option<char>, s: string, o: string)
    requires Marked(before, s, o) && s != "" && o != "" && s[0] == o[0] && IsBreak(s[0])
    requires Marked(Some(o[0]), s[1..], o[1..])
    ensures FirstLine(s) == FirstLine(o) && s[..FirstLine(s)] == o[..FirstLine(o)]
    ensures Marked(Some(o[FirstLine(o) - 1]), s[FirstLine(s)..], o[FirstLine(o)..])
  {
    hide FirstLine, IsBreak, EndsWord, Marked;
    FirstLineStep(s);
    FirstLineStep(o);
    BreakIsPlain(s[0]);
    if |s| > 1 && s[0] == '\r' && s[1] == '\n' {
      BreakIsPlain('\n');
      MarkedBreak(Some(o[0]), s[1..], o[1..]);
      assert s[1..][1..] == s[2..] && o[1..][1..] == o[2..];
    } else if |o| > 1 && o[0] == '\r' && o[1] == '\n' {
      MarkedHead(Some(o[0]), s[1..], o[1..]);
      assert false;
    }
  }

  /** The first lines correspond, and what follows them does. */
  lemma {:induction false} MarkedSplit(before: Option<char>, s: string, o: string)
    requires Marked(before, s, o)
    ensures var n, m := FirstLine(s), FirstLine(o);
      Marked(before, s[..n], o[..m]) && Marked(Ending(before, o[..m]), s[n..], o[m..])
    decreases |o|
  {
    hide FirstLine, IsBreak, EndsWord;
    if o == "" {
    } else if s != "" && s[0] == o[0] && Marked(Some(o[0]), s[1..], o[1..]) {
      MarkedSplitPlain(before, s, o);
    } else {
      MarkedSplitTick(before, s, o);
    }
  }

  lemma MarkedSplitPlain(before: Option<char>, s: string, o: string)
    requires o != "" && s != "" && s[0] == o[0] && Marked(Some(o[0]), s[1..], o[1..])
    ensures var n, m := FirstLine(s), FirstLine(o);
      Marked(before, s[..n], o[..m]) && Marked(Ending(before, o[..m]), s[n..], o[m..])
    decreases |o|, 0
  {
    hide FirstLine, IsBreak, EndsWord, Marked;
    var n, m := FirstLine(s), FirstLine(o);
    assert Marked(before, s, o) by { MarkedMore(before, s, o); }
    if IsBreak(s[0]) {
      BreakMarked(before, s, o);
      MarkedSame(before, s[..n]);
    } else {
      FirstLineStep(s);
      FirstLineStep(o);
      MarkedSplit(Some(o[0]), s[1..], o[1..]);
      assert s[..n][1..] == s[1..][..n - 1] && o[..m][1..] == o[1..][..m - 1];
      assert s[1..][n - 1..] == s[n..] && o[1..][m - 1..] == o[m..];
      MarkedMore(before, s[..n], o[..m]);
    }
  }

  lemma MarkedMore(before: Option<char>, s: string, o: string)
    requires o != "" && s != "" && s[0] == o[0] && Marked(Some(o[0]), s[1..], o[1..])
    ensures Marked(before, s, o)
  {
  }

  lemma MarkedTick(before: Option<char>, s: string, o: string)
    requires o != "" && o[0] == '`' && TickAllowed(before, o) && Marked(Some('`'), s, o[1..])
    ensures Marked(before, s, o)
  {
  }

  lemma MarkedSplitTick(before: Option<char>, s: string, o: string)
    requires o != "" && o[0] == '`' && TickAllowed(before, o) && Marked(Some('`'), s, o[1..])
    ensures var n, m := FirstLine(s), FirstLine(o);
      Marked(before, s[..n], o[..m]) && Marked(Ending(before, o[..m]), s[n..], o[m..])
    decreases |o|, 0
  {
    hide FirstLine, IsBreak, EndsWord, Marked;
    var n, m := FirstLine(s), FirstLine(o);
    BreakIsPlain('`');
    FirstLineStep(o);
    MarkedSplit(Some('`'), s, o[1..]);
    assert o[..m][1..] == o[1..][..m - 1] && o[1..][m - 1..] == o[m..];
    if |o| > 1 && o[1] == '@' { AtGoesOn(o[1..]); }
    MarkedTick(before, s[..n], o[..m]);
  }

  lemma AtGoesOn(o: string)
    requires o != "" && o[0] == '@'
    ensures FirstLine(o) > 0
  {
  }

  /** Up to three spaces and three marks of one kind. */
  predicate Fenced3(s: string, j: nat) {
    && j <= 3 && j + 3 <= |s| && (forall i | 0 <= i < j :: s[i] == ' ')
    && s[j] in "`~" && s[j + 1] == s[j] && s[j + 2] == s[j]
  }

  lemma FenceIff(s: string)
    ensures FenceOf(s).Some? <==> exists j: nat :: Fenced3(s, j)
  {
    if FenceOf(s).Some? {
      var j := Run(s, ' ');
      RunGives(s, ' ');
      RunGives(s[j..], s[j]);
      assert forall i | 0 <= i < 3 :: s[j + i] == s[j..][i];
      assert Fenced3(s, j);
    }
    if j: nat :| Fenced3(s, j) {
      RunIs(s, ' ', j);
      assert forall i | 0 <= i < 3 :: s[j..][i] == s[j + i];
      RunIs(s[j..], s[j], 3);
    }
  }

  /** At the start of a line no backtick is inserted before the marks of a fence. */
  lemma {:induction false} FenceWasThere(before: Option<char>, s: string, o: string, j: nat)
    requires Marked(before, s, o) && Fenced3(o, j) && (before.Some? ==> !EndsWord(before.value))
    ensures Fenced3(s, j)
    decreases j
  {
    if j > 0 {
      MarkedHead(before, s, o);
      FenceWasThere(Some(' '), s[1..], o[1..], j - 1);
      assert forall i | 1 <= i < |s| :: s[i] == s[1..][i - 1];
    } else if o[0] == '~' {
      MarkedHead(before, s, o);
      MarkedHead(Some('~'), s[1..], o[1..]);
      MarkedHead(Some('~'), s[1..][1..], o[1..][1..]);
    } else {
      TickWasThere(before, s, o);
      TickWasThere(Some('`'), s[1..], o[1..]);
      TickIsLast(Some('`'), s[1..][1..], o[1..][1..]);
    }
  }

  /** A backtick followed by another, and not behind a word, was there. */
  lemma TickWasThere(before: Option<char>, s: string, o: string)
    requires Marked(before, s, o) && |o| > 1 && o[0] == o[1] == '`' && (before.Some? ==> !EndsWord(before.value))
    ensures s != "" && s[0] == '`' && Marked(Some('`'), s[1..], o[1..])
  {
  }

  lemma TickIsLast(before: Option<char>, s: string, o: string)
    requires Marked(before, s, o) && o != "" && o[0] == '`' && before == Some('`')
    ensures s != "" && s[0] == '`'
  {
  }

  predicate FenceFree(lines: seq<string>) {
    forall i | 0 <= i < |lines| :: FenceOf(lines[i]).None?
  }

  lemma LineStaysPlain(before: Option<char>, s: string, o: string)
    requires Marked(before, s, o) && FenceOf(s).None? && (before.Some? ==> !EndsWord(before.value))
    ensures FenceOf(o).None?
  {
    hide Marked, FenceOf, Fenced3, EndsWord;
    FenceIff(s);
    FenceIff(o);
    if j: nat :| Fenced3(o, j) {
      FenceWasThere(before, s, o, j);
    }
  }

  lemma LinesKeptStep(s: string)
    requires s != ""
    ensures LinesKept(s) == [s[..FirstLine(s)]] + LinesKept(s[FirstLine(s)..])
  {
  }

  /** No line of a neutralised paragraph opens a fence. */
  lemma {:induction false} LinesStayPlain(before: Option<char>, s: string, o: string)
    requires Marked(before, s, o) && FenceFree(LinesKept(s)) && (before.Some? ==> !EndsWord(before.value))
    ensures FenceFree(LinesKept(o))
    decreases |o|
  {
    hide Marked, FirstLine, LinesKept, FenceOf, EndsWord, IsBreak;
    if o == "" {
      assert LinesKept("") == [] by { NoLines(); }
    } else {
      var n, m := FirstLine(s), FirstLine(o);
      MarkedSplit(before, s, o);
      LinesKeptStep(o);
      if s == "" {
        MarkedNothing(before, o);
        assert false;
      }
      LinesKeptStep(s);
      assert LinesKept(s)[0] == s[..n];
      assert forall i | 0 <= i < |LinesKept(s[n..])| :: LinesKept(s)[i + 1] == LinesKept(s[n..])[i];
      LineStaysPlain(before, s[..n], o[..m]);
      if m < |o| {
        BreakIsPlain(o[m - 1]);
        LinesStayPlain(Some(o[m - 1]), s[n..], o[m..]);
      } else {
        assert o[m..] == "";
        NoLines();
      }
    }
  }

  lemma NoLines()
    ensures LinesKept("") == [] && Concat([]) == ""
  {
  }

  // ---- Lines of texts put together ------------------------------------------------------------------

  /** The first text ends with a line end that the second does not go on. */
  predicate Boundary(a: string, b: string) {
    a != "" && b != "" ==> IsBreak(a[|a| - 1]) && !(a[|a| - 1] == '\r' && b[0] == '\n')
  }

  lemma {:induction false} FirstLineConcat(a: string, b: string)
    requires a != "" && Boundary(a, b)
    ensures FirstLine(a + b) == FirstLine(a)
    decreases |a|
  {
    hide FirstLine, IsBreak;
    FirstLineStep(a);
    FirstLineStep(a + b);
    assert (a + b)[1..] == a[1..] + b;
    if |a| > 1 {
      if !IsBreak(a[0]) { FirstLineConcat(a[1..], b); }
    } else if b == "" {
      assert a + b == a;
    }
  }

  lemma {:induction false} LinesKeptConcat(a: string, b: string)
    requires Boundary(a, b)
    ensures LinesKept(a + b) == LinesKept(a) + LinesKept(b)
    decreases |a|
  {
    hide FirstLine, IsBreak, LinesKept;
    NoLines();
    if a == "" {
      assert a + b == b;
    } else {
      var n := FirstLine(a);
      FirstLineConcat(a, b);
      LinesKeptStep(a);
      LinesKeptStep(a + b);
      assert (a + b)[..n] == a[..n] && (a + b)[n..] == a[n..] + b;
      LinesKeptConcat(a[n..], b);
    }
  }

  lemma {:induction false} FirstLineBoundary(x: string, r: string)
    requires x != "" && FirstLine(x + r) == |x|
    ensures Boundary(x, r) && FirstLine(x) == |x|
    decreases |x|
  {
    hide FirstLine, IsBreak;
    FirstLineStep(x + r);
    FirstLineStep(x);
    assert (x + r)[1..] == x[1..] + r;
    BreakIsPlain(x[0]);
    BreakIsPlain('\n');
    if !IsBreak(x[0]) && |x| > 1 {
      FirstLineBoundary(x[1..], r);
    }
  }

  /** Lines as `LinesKept` gives them. */
  predicate Kept(lines: seq<string>) {
    LinesKept(Concat(lines)) == lines
  }

  lemma KeptTail(lines: seq<string>)
    requires Kept(lines) && lines != []
    ensures lines[0] != "" && Kept(lines[1..]) && Boundary(lines[0], Concat(lines[1..]))
    ensures LinesKept(lines[0]) == [lines[0]]
  {
    hide FirstLine, IsBreak, LinesKept, Concat;
    var s, n := Concat(lines), FirstLine(Concat(lines));
    if s == "" {
      NoLines();
      assert false;
    }
    LinesKeptStep(s);
    assert lines[0] == s[..n] && lines[1..] == LinesKept(s[n..]);
    assert s[..n] + s[n..] == s;
    FirstLineBoundary(s[..n], s[n..]);
    LinesKeptStep(s[..n]);
    assert s[..n][..n] == s[..n] && s[..n][n..] == "";
    NoLines();
  }

  lemma BoundaryJoin(x: string, a: string, b: string)
    requires Boundary(x, a + b) && Boundary(a, b)
    ensures Boundary(x, a) && Boundary(x + a, b)
  {
    hide IsBreak;
    if a == "" {
      assert a + b == b && x + a == x;
    }
  }

  lemma KeptCons(line: string, tail: seq<string>)
    requires LinesKept(line) == [line] && Kept(tail) && Boundary(line, Concat(tail))
    ensures Kept([line] + tail) && Concat([line] + tail) == line + Concat(tail)
  {
    hide LinesKept, Concat, Boundary;
    ConcatAppend([line], tail);
    ConcatOne(line);
    LinesKeptConcat(line, Concat(tail));
  }

  /** A list of lines cut in two. */
  lemma {:induction false} KeptSplit(lines: seq<string>, k: nat)
    requires Kept(lines) && k <= |lines|
    ensures Kept(lines[..k]) && Kept(lines[k..])
    ensures Boundary(Concat(lines[..k]), Concat(lines[k..]))
    decreases k
  {
    hide LinesKept, Concat, IsBreak, Kept;
    if k == 0 {
      assert lines[..k] == [] && lines[k..] == lines;
      NothingKept();
    } else {
      var line, tail := lines[0], lines[1..];
      var first, rest := tail[..k - 1], lines[k..];
      KeptTail(lines);
      assert tail[k - 1..] == rest && lines[..k] == [line] + first && tail == first + rest;
      KeptSplit(tail, k - 1);
      ConcatAppend(first, rest);
      BoundaryJoin(line, Concat(first), Concat(rest));
      KeptCons(line, first);
    }
  }

  lemma NothingKept()
    ensures Kept([]) && Concat([]) == ""
  {
  }

  // ---- The blocks of the first run's output -----------------------------------------------------------

  /** What becomes of a block. */
  function Written(b: Block): string {
    if b.Prose? then NeutralizeProse(Concat(b.lines)) else Concat(b.lines)
  }

  function Redone(b: Block): Block {
    if b.Prose? then Prose(LinesKept(NeutralizeProse(Concat(b.lines)))) else b
  }

  function RedoneAll(blocks: seq<Block>): (r: seq<Block>)
    ensures |r| == |blocks| && forall i | 0 <= i < |r| :: r[i] == Redone(blocks[i])
  {
    if blocks == [] then [] else [Redone(blocks[0])] + RedoneAll(blocks[1..])
  }

  predicate OrderlyBlock(b: Block) {
    b.Prose? ==> Orderly(None, Concat(b.lines))
  }

  /** A block of lines as they are kept, orderly if it is a paragraph. */
  predicate ProperBlock(b: Block) {
    b.lines != [] && Kept(b.lines) && OrderlyBlock(b)
  }

  lemma {:induction false} MarkedEnd(before: Option<char>, s: string, o: string)
    requires Marked(before, s, o) && s != "" && IsBreak(s[|s| - 1])
    ensures o != "" && o[|o| - 1] == s[|s| - 1]
    decreases |o|
  {
    hide IsBreak, EndsWord;
    if s[0] == o[0] && Marked(Some(o[0]), s[1..], o[1..]) {
      if |s| > 1 {
        MarkedEnd(Some(o[0]), s[1..], o[1..]);
      } else {
        BreakIsPlain(s[0]);
        MarkedNothing(Some(o[0]), o[1..]);
      }
    } else {
      MarkedEnd(Some('`'), s, o[1..]);
    }
  }

  lemma NotEmpty(lines: seq<string>)
    requires Kept(lines) && lines != []
    ensures Concat(lines) != ""
  {
    NoLines();
  }

  lemma WrittenMarked(b: Block)
    requires OrderlyBlock(b)
    ensures Marked(None, Concat(b.lines), Written(b))
  {
    hide Marked, Orderly, Scan;
    if b.Prose? { ScanMarked(None, Concat(b.lines)); } else { MarkedSame(None, Concat(b.lines)); }
  }

  /** Neutralising moves no boundary between blocks. */
  lemma WrittenBoundary(b: Block, rest: seq<Block>)
    requires ProperBlock(b) && Boundary(Concat(b.lines), Concat(Flatten(rest)))
    requires rest != [] ==> Concat(Flatten(rest)) != ""
    ensures Boundary(Written(b), Render(rest))
  {
    hide Marked, Orderly, NeutralizeProse, LinesKept, Concat, IsBreak, Written;
    NotEmpty(b.lines);
    WrittenMarked(b);
    RenderInserts(rest);
    if rest != [] && Render(rest) != "" {
      MarkedEnd(None, Concat(b.lines), Written(b));
      if Render(rest)[0] == '\n' {
        InsertsHead(Concat(Flatten(rest)), Render(rest));
      }
    }
  }

  lemma InsertsHead(s: string, o: string)
    requires Inserts(s, o) && o != "" && o[0] != '`'
    ensures s != "" && s[0] == o[0]
  {
  }

  /** The lines of the output are the lines of the blocks as they came out. */
  lemma {:induction false} RedoneLines(blocks: seq<Block>)
    requires Kept(Flatten(blocks)) && forall i | 0 <= i < |blocks| :: ProperBlock(blocks[i])
    ensures Flatten(RedoneAll(blocks)) == LinesKept(Render(blocks))
    decreases |blocks|
  {
    hide Orderly, NeutralizeProse, LinesKept, Concat, IsBreak, ProperBlock, Kept;
    NoLines();
    if blocks != [] {
      var b, rest := blocks[0], blocks[1..];
      var lines, k := Flatten(blocks), |blocks[0].lines|;
      KeptSplit(lines, k);
      assert lines[..k] == b.lines && lines[k..] == Flatten(rest);
      assert ProperBlock(b);
      if rest != [] { RestNotEmpty(rest); }
      WrittenBoundary(b, rest);
      RedoneLines(rest);
      LinesKeptConcat(Written(b), Render(rest));
      RedoneKept(b);
      assert RedoneAll(blocks)[1..] == RedoneAll(rest);
    }
  }

  lemma RestNotEmpty(rest: seq<Block>)
    requires rest != [] && ProperBlock(rest[0]) && Kept(Flatten(rest))
    ensures Concat(Flatten(rest)) != ""
  {
    NotEmpty(Flatten(rest));
  }

  lemma RedoneKept(b: Block)
    requires ProperBlock(b)
    ensures Redone(b).lines == LinesKept(Written(b))
  {
    hide NeutralizeProse, LinesKept, Concat, Orderly;
  }

  lemma {:induction false} BlocksProper(blocks: seq<Block>)
    requires Kept(Flatten(blocks))
    requires forall i | 0 <= i < |blocks| :: blocks[i].lines != [] && OrderlyBlock(blocks[i])
    ensures forall i | 0 <= i < |blocks| :: ProperBlock(blocks[i])
    decreases |blocks|
  {
    hide Kept, OrderlyBlock;
    if blocks != [] {
      var lines, k := Flatten(blocks), |blocks[0].lines|;
      KeptSplit(lines, k);
      assert lines[..k] == blocks[0].lines && lines[k..] == Flatten(blocks[1..]);
      BlocksProper(blocks[1..]);
      assert forall i | 1 <= i < |blocks| :: blocks[i] == blocks[1..][i - 1];
    }
  }

  lemma RedoneGood(b: Block, last: bool)
    requires ProperBlock(b) && GoodBlock(b, last)
    ensures GoodBlock(Redone(b), last)
  {
    hide Marked, Orderly, NeutralizeProse, LinesKept, Concat, FenceOf, Closes;
    if b.Prose? {
      WrittenMarked(b);
      LinesStayPlain(None, Concat(b.lines), Written(b));
      NotEmpty(b.lines);
      NeutralizeInserts(Concat(b.lines));
      InsertsLonger(Concat(b.lines), Written(b));
      SomeLine(Written(b));
    }
  }

  lemma SomeLine(s: string)
    requires s != ""
    ensures LinesKept(s) != []
  {
  }

  lemma RedoneWellFenced(blocks: seq<Block>)
    requires WellFenced(blocks) && forall i | 0 <= i < |blocks| :: ProperBlock(blocks[i])
    ensures WellFenced(RedoneAll(blocks))
  {
    hide GoodBlock, ProperBlock;
    var r := RedoneAll(blocks);
    forall i | 0 <= i < |r| ensures GoodBlock(r[i], i == |r| - 1) {
      RedoneGood(blocks[i], i == |blocks| - 1);
    }
    forall i | 0 < i < |r| ensures r[i].Prose? ==> r[i - 1].Fenced? {
      assert r[i] == Redone(blocks[i]) && r[i - 1] == Redone(blocks[i - 1]);
    }
  }

  // ---- The whole text ---------------------------------------------------------------------------------

  /** A mention of some paragraph is directly followed by an `@` and a letter or digit. */
  predicate MentionsTouchIn(blocks: seq<Block>) {
    exists i | 0 <= i < |blocks| && blocks[i].Prose? :: MentionsTouch(None, Concat(blocks[i].lines))
  }

  lemma CalmIffApart(b: Block)
    requires b.Prose? && Orderly(None, Concat(b.lines))
    ensures NoLiveMention(None, "", Concat(Redone(b).lines)) <==> !MentionsTouch(None, Concat(b.lines))
  {
    hide Orderly, NeutralizeProse, NoLiveMention, MentionsTouch;
    SecondRunChangesNothingIff(Concat(b.lines));
  }

  /** On a text whose paragraphs are orderly, fences and all, a second run changes nothing
  exactly when no mention is directly followed by another `@` and a letter or digit. */
  lemma SecondRunOnTextIff(text: string, once: string, twice: string, blocks: seq<Block>)
    requires Neutralized(text, once) && Neutralized(once, twice)
    requires WellFenced(blocks) && Flatten(blocks) == LinesKept(text)
    requires forall i | 0 <= i < |blocks| :: OrderlyBlock(blocks[i])
    ensures twice == once <==> !MentionsTouchIn(blocks)
  {
    hide Orderly, Render, LinesKept, Flatten, NoLiveMention, MentionsTouch, Redone, Neutralized, Concat, Closes, FenceOf;
    var again := RedoneAll(blocks);
    assert Neutralized(text, Render(blocks)) by { ByBlocks(text, blocks); }
    NeutralizedIsUnique(text, once, Render(blocks));
    assert forall i | 0 <= i < |blocks| :: GoodBlock(blocks[i], i == |blocks| - 1) && blocks[i].lines != [];
    BlocksProper(blocks);
    RedoneLines(blocks);
    RedoneWellFenced(blocks);
    TextUnchangedIff(once, twice, again);
    forall i | 0 <= i < |blocks| && blocks[i].Prose?
      ensures again[i].Prose?
      ensures NoLiveMention(None, "", Concat(again[i].lines)) <==> !MentionsTouch(None, Concat(blocks[i].lines))
    {
      assert OrderlyBlock(blocks[i]);
      assert again[i].Prose? by { RedoneKind(blocks[i]); }
      CalmIffApart(blocks[i]);
    }
    forall i | 0 <= i < |blocks| && again[i].Prose? ensures blocks[i].Prose? { RedoneKind(blocks[i]); }
  }

  lemma RedoneKind(b: Block)
    ensures Redone(b).Prose? <==> b.Prose?
  {
  }

  lemma ByBlocks(text: string, blocks: seq<Block>)
    requires WellFenced(blocks) && Flatten(blocks) == LinesKept(text)
    ensures Neutralized(text, Render(blocks))
  {
    hide LinesKept, Flatten, Render;
  }

  lemma {:induction false} TickFreeBlocks(blocks: seq<Block>)
    requires NoTick(Concat(Flatten(blocks)))
    ensures forall i | 0 <= i < |blocks| :: NoTick(Concat(blocks[i].lines))
  {
    hide Concat;
    if blocks != [] {
      var a, b := Concat(blocks[0].lines), Concat(Flatten(blocks[1..]));
      ConcatAppend(blocks[0].lines, Flatten(blocks[1..]));
      assert a + b == "" + a + b;
      NoTickParts("", a, b);
      TickFreeBlocks(blocks[1..]);
      assert forall i | 1 <= i < |blocks| :: blocks[i] == blocks[1..][i - 1];
    }
  }

  /** In particular on any text with no backtick of its own. */
  lemma SecondRunOnTickFreeTextIff(text: string, once: string, twice: string) returns (blocks: seq<Block>)
    requires NoTick(text) && Neutralized(text, once) && Neutralized(once, twice)
    ensures WellFenced(blocks) && Flatten(blocks) == LinesKept(text)
    ensures twice == once <==> !MentionsTouchIn(blocks)
  {
    hide Orderly, LinesKept, Flatten, MentionsTouchIn, Concat, Render;
    blocks :| WellFenced(blocks) && Flatten(blocks) == LinesKept(text) && once == Render(blocks);
    assert Concat(LinesKept(text)) == text;
    TickFreeBlocks(blocks);
    forall i | 0 <= i < |blocks| ensures OrderlyBlock(blocks[i]) {
      TickFreeIsOrderly(None, Concat(blocks[i].lines));
    }
    SecondRunOnTextIff(text, once, twice, blocks);
  }

  // ---- Two texts that do not come to rest ---------------------------------------------------------------

  lemma OneParagraph(s: string)
    requires s != "" && (forall i | 0 <= i < |s| :: !IsBreak(s[i])) && FenceOf(s).None?
    ensures Neutralized(s, NeutralizeProse(s))
  {
    hide NeutralizeProse, FenceOf, IsBreak;
    var blocks := [Prose([s])];
    assert blocks[0].lines[0] == s && blocks[1..] == [];
    ConcatOne(s);
    assert LineLength(s) == |s|;
    assert s[|s|..] == "" && s[..|s|] == s;
    assert LinesKept(s) == [s] by { NoLines(); }
    assert Flatten(blocks[1..]) == [] && Render(blocks[1..]) == "";
    assert [s] + [] == [s] && NeutralizeProse(s) + "" == NeutralizeProse(s);
    assert GoodBlock(blocks[0], true);
    assert WellFenced(blocks);
    ByBlocks(s, blocks);
  }

  /** Text with neither a backtick nor a `<` in it. */
  predicate Bare(s: string) {
    NoTick(s) && '<' !in s
  }

  lemma {:induction false} NoCloser(before: char, s: string, k: nat)
    requires NoTick(s) && k > 0
    ensures TicksClose(before, s, k).None?
    decreases |s|
  {
    if s != "" { NoCloser(s[0], s[1..], k); }
  }

  lemma PlainUnprotected(before: Option<char>, s: string)
    requires s != "" && s[0] !in "`<"
    ensures ProtectedLength(before, s) == 0
  {
  }

  lemma LastTickUnprotected(before: Option<char>)
    ensures Split(before, "`") == Parts("`", "", "")
  {
    assert "`"[1..] == "" && TickRun("`") == 1;
    assert ProtectedLength(before, "`") == 0;
  }

  /** Nothing is protected in bare text, a backtick at its end included. */
  lemma {:induction false} BareSplit(before: Option<char>, s: string, end: string)
    requires Bare(s) && (end == "" || (end == "`" && s != ""))
    ensures Split(before, s + end) == Parts(s + end, "", "")
    decreases |s|
  {
    hide ProtectedLength;
    if s == "" {
      assert s + end == "";
    } else {
      var rest := s[1..] + end;
      assert s + end == [s[0]] + rest && (s + end)[1..] == rest;
      PlainUnprotected(before, s + end);
      if |s| > 1 || end == "" {
        BareSplit(Some(s[0]), s[1..], end);
      } else {
        assert rest == "`";
        LastTickUnprotected(Some(s[0]));
      }
    }
  }

  lemma StraySplit(t: string)
    requires Bare(t)
    ensures Split(None, "`" + t) == Parts("`" + t, "", "")
  {
    var s := "`" + t;
    assert s[1..] == t && t + "" == t;
    BareSplit(Some('`'), t, "");
    if t != "" {
      assert TickRun(t) == 0;
      NoCloser(t[0], t[1..], 1);
      assert s[2..] == t[1..];
    }
  }

  lemma WrapPlain(before: Option<char>, c: char, rest: string)
    requires !MentionAt(before, [c] + rest)
    ensures Wrap(before, [c] + rest) == [c] + Wrap(Some(c), rest)
  {
    assert ([c] + rest)[1..] == rest;
  }

  /** A handle of one letter. */
  lemma WrapHandle(before: Option<char>, c: char, rest: string)
    requires IsAlnum(c) && (before.Some? ==> !IsGuard(before.value))
    requires rest != "" ==> !IsHandleChar(rest[0]) && rest[0] != '/'
    ensures Wrap(before, "@" + [c] + rest) == "`" + ("@" + [c]) + "`" + Wrap(Some(c), rest)
  {
    var s := "@" + [c] + rest;
    assert s[1..] == [c] + rest && s[1..][1..] == rest;
    assert HandleRun(rest, 38) == 0 && HandleRun(s[1..], 39) == 1;
    assert MentionLength(s) == 2 && s[..2] == "@" + [c] && s[2..] == rest;
  }

  lemma WrapEmpty(before: Option<char>)
    ensures Wrap(before, "") == ""
  {
  }

  lemma NoFence(a: char, b: char, rest: string)
    requires a != ' ' && (a != b || a !in "`~")
    ensures FenceOf([a, b] + rest).None?
  {
    var s := [a, b] + rest;
    assert s[0..] == s && s[1..][0] == b;
    assert Run(s, ' ') == 0 && Run(s[1..], a) == if a == b then Run(s[1..], a) else 0;
    assert a != b ==> Run(s, a) == 1;
  }

  /** Bare text, and a backtick at its end if it has one, is one piece. */
  lemma ScanBare(before: Option<char>, s: string, end: string)
    requires Bare(s) && (end == "" || (end == "`" && s != ""))
    ensures Scan(before, "", s + end) == Wrap(None, s + end)
  {
    BareSplit(before, s, end);
    ScanSplit(before, "", s + end);
    assert "" + (s + end) == s + end && Wrap(None, s + end) + "" == Wrap(None, s + end);
  }

  /** A paragraph that is one code span and a bare rest. */
  lemma SpanThenBare(u: string, rest: string, end: string)
    requires u != "" && NoTick(u) && Bare(rest) && rest != "" && (end == "" || end == "`")
    ensures NeutralizeProse("`" + u + "`" + (rest + end)) == "`" + u + "`" + Wrap(None, rest + end)
  {
    hide Wrap, Scan;
    var span := "`" + u + "`";
    CodeSpanHere(None, u, rest + end);
    ScanSpan(None, "", span, rest + end);
    ScanBare(Some('`'), rest, end);
    WrapEmpty(None);
    assert "" + (span + Wrap(None, rest + end)) == span + Wrap(None, rest + end);
  }

  /** Two handles run together: the second run wraps the second of them. */
  lemma TouchingMentionsChange()
    ensures Neutralized("@a@b", "`@a`@b") && Neutralized("`@a`@b", "`@a``@b`")
  {
    hide Neutralized, Wrap, FenceOf, Scan;
    assert "@a@b" == "@" + "a" + "@b" && "@a@b" == ['@', 'a'] + "@b";
    assert "@b" == "@" + "b" && "@b" == "@" + "b" + "" && "b" == "b" + "";
    WrapHandle(None, 'a', "@b");
    WrapPlain(Some('a'), '@', "b");
    WrapPlain(Some('@'), 'b', "");
    WrapEmpty(Some('b'));
    WrapHandle(None, 'b', "");
    ScanBare(None, "@a@b", "");
    assert "@a@b" + "" == "@a@b" && "@b" + "" == "@b";
    assert "`" + "@a" + "`" + "@b" == "`@a`@b" && "@" + "a" == "@a" && "`" + "@b" + "`" + "" == "`@b`";
    SpanThenBare("@a", "@b", "");
    assert "`" + "@a" + "`" + "`@b`" == "`@a``@b`";
    NoFence('@', 'a', "@b");
    assert "`@a`@b" == ['`', '@'] + "a`@b";
    NoFence('`', '@', "a`@b");
    OneParagraph("@a@b");
    OneParagraph("`@a`@b");
  }

  lemma StrayOnce()
    ensures NeutralizeProse("` @f") == "` `@f`"
  {
    hide Wrap, Scan;
    hide Split, NeutralizeProse;
    WrapSpaced();
    assert "` @f" == "`" + " @f";
    StraySplit(" @f");
    WholePiece("` @f");
    StrayWrap(" @f");
    assert "`" + " `@f`" == "` `@f`";
  }

  lemma WrapSpaced()
    ensures Wrap(Some('`'), " @f") == " `@f`"
  {
    hide Wrap;
    var handle := "@" + "f" + "";
    assert " @f" == [' '] + handle;
    WrapPlain(Some('`'), ' ', handle);
    WrapHandle(Some(' '), 'f', "");
    WrapEmpty(Some('f'));
    assert [' '] + ("`" + ("@" + "f") + "`" + "") == " `@f`";
  }

  lemma StrayTwice()
    ensures NeutralizeProse("` `@f`") == "` ``@f``"
  {
    hide Wrap, Scan;
    assert "@f`" == "@" + "f" + "`" && "@f`" == "@f" + "`" && "`" == "`" + "";
    WrapHandle(None, 'f', "`");
    WrapPlain(Some('f'), '`', "");
    WrapEmpty(Some('`'));
    assert "@" + "f" == "@f" && "`" + "@f" + "`" + "`" == "`@f``";
    SpanThenBare(" ", "@f", "`");
    assert "`" + " " + "`" + "@f`" == "` `@f`" && "`" + " " + "`" + "`@f``" == "` ``@f``";
  }

  lemma StrayLive()
    ensures !NoLiveMention(None, "", "` `@f`")
  {
    hide NoLiveMention;
    assert "`" + " " + "`" == "` `" && "` `" + "@f`" == "` `@f`";
    CodeSpanHere(None, " ", "@f`");
    LiveAtStart("@f`");
    LiveBehindSpan("` `", "@f`");
  }

  /** A stray backtick pairs with an inserted one: the handle is live after the first run, and
  the second wraps it again. */
  lemma StrayBacktickChanges()
    ensures Neutralized("` @f", "` `@f`") && Neutralized("` `@f`", "` ``@f``")
    ensures !NoLiveMention(None, "", "` `@f`")
  {
    hide Neutralized, FenceOf, NoLiveMention, NeutralizeProse;
    StrayOnce();
    StrayTwice();
    StrayLive();
    assert "` @f" == ['`', ' '] + "@f" && "` `@f`" == ['`', ' '] + "`@f`";
    NoFence('`', ' ', "@f");
    NoFence('`', ' ', "`@f`");
    OneParagraph("` @f");
    OneParagraph("` `@f`");
  }
}
