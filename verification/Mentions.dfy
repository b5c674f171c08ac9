/** Neutralising the mentions of a Markdown text: paragraphs are searched, fences are not. */
module Mentions {
  import opened MentionText
  import opened MentionTheorems
  import opened Option
  import opened Text

  /** The run that opens a fenced code block. */
  datatype Fence = Fence(mark: char, length: nat)

  function Run(s: string, c: char): (n: nat)
    ensures n <= |s|
  {
    if s == "" || s[0] != c then 0 else 1 + Run(s[1..], c)
  }

  /** At most three spaces, then three or more backticks or tildes. */
  function FenceOf(line: string): Option<Fence> {
    var indent := Run(line, ' ');
    var rest := line[indent..];
    if indent > 3 || rest == "" || rest[0] !in "`~" || Run(rest, rest[0]) < 3 then None
    else Some(Fence(rest[0], Run(rest, rest[0])))
  }

  /** A run of the same mark, at least as long, and nothing after it. */
  predicate Closes(line: string, fence: Fence) {
    var found := FenceOf(line);
    && found.Some? && found.value.mark == fence.mark && found.value.length >= fence.length
    && IsBlank(line[Run(line, ' ') + found.value.length..])
  }

  // ---- Which lines open a fence, and which close one, told by their shape -------------------------

  lemma {:induction false} RunIs(s: string, c: char, n: nat)
    requires n <= |s| && (forall i | 0 <= i < n :: s[i] == c)
    ensures Run(s, c) >= n
    ensures n < |s| && s[n] != c ==> Run(s, c) == n
  {
    if n > 0 { RunIs(s[1..], c, n - 1); }
  }

  lemma {:induction false} RunGives(s: string, c: char)
    ensures forall i | 0 <= i < Run(s, c) :: s[i] == c
    ensures Run(s, c) < |s| ==> s[Run(s, c)] != c
  {
    if s != "" && s[0] == c { RunGives(s[1..], c); }
  }

  /** At most three spaces, `run`, and what follows it. */
  predicate Shaped(line: string, pad: string, run: string, rest: string) {
    line == pad + run + rest && |pad| <= 3 && AllOf(pad, ' ')
  }

  /** The run is `k` of a mark, at least three, and all of them. */
  predicate IsOpener(line: string, c: char, k: nat, pad: string, run: string, rest: string) {
    && Shaped(line, pad, run, rest)
    && c in "`~" && k >= 3 && |run| == k && AllOf(run, c) && (rest != "" ==> rest[0] != c)
  }

  /** The run is at least `n` of a mark, with only blanks behind it. */
  predicate IsCloser(line: string, c: char, n: nat, pad: string, run: string, rest: string) {
    Shaped(line, pad, run, rest) && |run| >= n && AllOf(run, c) && IsBlank(rest)
  }

  lemma RunOf(run: string, c: char, rest: string)
    requires AllOf(run, c) && (rest != "" ==> rest[0] != c)
    ensures Run(run + rest, c) == |run| && (run + rest)[|run|..] == rest
  {
    RunIs(run + rest, c, |run|);
  }

  lemma OpenerFound(line: string, c: char, k: nat, pad: string, run: string, rest: string)
    requires IsOpener(line, c, k, pad, run, rest)
    ensures FenceOf(line) == Some(Fence(c, k)) && Run(line, ' ') == |pad| && line[|pad| + k..] == rest
  {
    var tail := run + rest;
    assert line == pad + tail && tail[0] == c;
    RunOf(pad, ' ', tail);
    RunOf(run, c, rest);
    assert line[|pad| + k..] == tail[k..];
  }

  lemma OpenerShape(line: string) returns (pad: string, run: string, rest: string)
    requires FenceOf(line).Some?
    ensures IsOpener(line, FenceOf(line).value.mark, FenceOf(line).value.length, pad, run, rest)
    ensures |pad| == Run(line, ' ') && rest == line[|pad| + FenceOf(line).value.length..]
  {
    hide IsBlank;
    var j, f := Run(line, ' '), FenceOf(line).value;
    RunGives(line, ' ');
    RunGives(line[j..], f.mark);
    pad, run, rest := line[..j], line[j..][..f.length], line[j..][f.length..];
    CutInThree(line, j, f.length);
  }

  lemma CutInThree(line: string, j: nat, n: nat)
    requires j + n <= |line|
    ensures line == line[..j] + line[j..][..n] + line[j..][n..] && line[j..][n..] == line[j + n..]
  {
    assert line[j..] == line[j..][..n] + line[j..][n..];
    assert line == line[..j] + line[j..];
  }

  /** A line opens a fence of `k` marks exactly when it is at most three spaces, `k` of the
  mark, three or more, and a rest that does not go on with it. */
  lemma OpensIff(line: string, c: char, k: nat)
    ensures FenceOf(line) == Some(Fence(c, k)) <==> exists pad, run, rest :: IsOpener(line, c, k, pad, run, rest)
  {
    hide FenceOf, IsOpener;
    if FenceOf(line) == Some(Fence(c, k)) {
      var pad, run, rest := OpenerShape(line);
    }
    if pad, run, rest :| IsOpener(line, c, k, pad, run, rest) {
      OpenerFound(line, c, k, pad, run, rest);
    }
  }

  /** A line closes a fence exactly when it is at most three spaces, at least as many of the
  same mark, and blanks. */
  lemma ClosesIff(line: string, c: char, n: nat)
    requires c in "`~" && n >= 3
    ensures Closes(line, Fence(c, n)) <==> exists pad, run, rest :: IsCloser(line, c, n, pad, run, rest)
  {
    hide FenceOf;
    if Closes(line, Fence(c, n)) {
      var pad, run, rest := OpenerShape(line);
      assert IsCloser(line, c, n, pad, run, rest);
    }
    if pad, run, rest :| IsCloser(line, c, n, pad, run, rest) {
      assert rest != "" ==> rest[0] != c by { BlankIsNoMark(rest, c); }
      assert IsOpener(line, c, |run|, pad, run, rest);
      OpenerFound(line, c, |run|, pad, run, rest);
    }
  }

  lemma BlankIsNoMark(s: string, c: char)
    requires IsBlank(s) && c in "`~"
    ensures s != "" ==> s[0] != c
  {
  }

  // ---- The blocks of a text, as CommonMark has them -----------------------------------------

  datatype Block = Prose(lines: seq<string>) | Fenced(lines: seq<string>)

  /** Prose opens no fence; a fence closes at its first closing line, or runs to the end. */
  predicate GoodBlock(b: Block, last: bool) {
    && b.lines != []
    && match b
       case Prose(lines) => forall i | 0 <= i < |lines| :: FenceOf(lines[i]).None?
       case Fenced(lines) =>
         && FenceOf(lines[0]).Some?
         && (forall i | 0 < i < |lines| - 1 :: !Closes(lines[i], FenceOf(lines[0]).value))
         && (!last ==> |lines| > 1 && Closes(lines[|lines| - 1], FenceOf(lines[0]).value))
  }

  predicate Alternating(blocks: seq<Block>) {
    forall i | 0 < i < |blocks| :: blocks[i].Prose? ==> blocks[i - 1].Fenced?
  }

  predicate WellFenced(blocks: seq<Block>) {
    && Alternating(blocks)
    && forall i | 0 <= i < |blocks| :: GoodBlock(blocks[i], i == |blocks| - 1)
  }

  function Flatten(blocks: seq<Block>): seq<string> {
    if blocks == [] then [] else blocks[0].lines + Flatten(blocks[1..])
  }

  /** Fences as they are, paragraphs neutralised. */
  function Render(blocks: seq<Block>): string {
    if blocks == [] then ""
    else (if blocks[0].Prose? then NeutralizeProse(Concat(blocks[0].lines)) else Concat(blocks[0].lines))
         + Render(blocks[1..])
  }

  lemma {:induction false} FlattenAppend(blocks: seq<Block>, b: Block)
    ensures Flatten(blocks + [b]) == Flatten(blocks) + b.lines
  {
    if blocks == [] {
      assert blocks + [b] == [b] && Flatten([b][1..]) == [];
    } else {
      assert (blocks + [b])[1..] == blocks[1..] + [b];
      FlattenAppend(blocks[1..], b);
    }
  }

  lemma {:induction false} RenderAppend(blocks: seq<Block>, b: Block)
    ensures Render(blocks + [b]) ==
      Render(blocks) + (if b.Prose? then NeutralizeProse(Concat(b.lines)) else Concat(b.lines))
  {
    hide NeutralizeProse;
    if blocks == [] {
      assert blocks + [b] == [b] && Render([b][1..]) == "";
    } else {
      assert (blocks + [b])[1..] == blocks[1..] + [b];
      RenderAppend(blocks[1..], b);
    }
  }

  lemma HeadLine(blocks: seq<Block>)
    requires WellFenced(blocks) && blocks != []
    ensures Flatten(blocks) != [] && Flatten(blocks)[0] == blocks[0].lines[0]
    ensures blocks[0].Fenced? <==> FenceOf(Flatten(blocks)[0]).Some?
  {
    assert GoodBlock(blocks[0], 0 == |blocks| - 1);
  }

  lemma TailWellFenced(blocks: seq<Block>)
    requires WellFenced(blocks) && blocks != []
    ensures WellFenced(blocks[1..])
  {
    var rest := blocks[1..];
    forall i | 0 <= i < |rest| ensures GoodBlock(rest[i], i == |rest| - 1) {
      assert GoodBlock(blocks[i + 1], i + 1 == |blocks| - 1);
    }
    forall i | 0 < i < |rest| ensures rest[i].Prose? ==> rest[i - 1].Fenced? {
      assert rest[i] == blocks[i + 1] && rest[i - 1] == blocks[i];
    }
  }

  /** What follows the first block, if anything does. */
  lemma AfterFirst(a: seq<Block>)
    requires WellFenced(a) && a != []
    ensures var n := |a[0].lines|;
      && Flatten(a)[..n] == a[0].lines
      && (|a| == 1 ==> |Flatten(a)| == n)
      && (|a| > 1 && a[0].Prose? ==> n < |Flatten(a)| && FenceOf(Flatten(a)[n]).Some?)
  {
    var rest := a[1..];
    if |a| == 1 {
      assert Flatten(rest) == [];
    } else {
      TailWellFenced(a);
      HeadLine(rest);
      assert rest[0] == a[1];
      assert Flatten(a)[|a[0].lines|] == Flatten(rest)[0];
    }
  }

  /** The first block of a text can only be as long as the lines say. */
  lemma FirstBlockNotLonger(a: seq<Block>, b: seq<Block>)
    requires WellFenced(a) && WellFenced(b) && a != [] && b != [] && Flatten(a) == Flatten(b)
    ensures |b[0].lines| <= |a[0].lines|
  {
    hide Closes;
    var lines, n := Flatten(a), |a[0].lines|;
    HeadLine(a);
    HeadLine(b);
    AfterFirst(a);
    AfterFirst(b);
    assert GoodBlock(a[0], 0 == |a| - 1) && GoodBlock(b[0], 0 == |b| - 1);
    assert forall i | 0 <= i < |b[0].lines| :: lines[i] == lines[..|b[0].lines|][i] == b[0].lines[i];
    assert forall i | 0 <= i < n :: lines[i] == lines[..n][i] == a[0].lines[i];
  }

  /** A text has only one division into blocks. */
  lemma {:induction false} BlocksUnique(a: seq<Block>, b: seq<Block>)
    requires WellFenced(a) && WellFenced(b) && Flatten(a) == Flatten(b)
    ensures a == b
    decreases |a|
  {
    if a == [] || b == [] {
      if a != [] { HeadLine(a); }
      if b != [] { HeadLine(b); }
    } else {
      HeadLine(a);
      HeadLine(b);
      FirstBlockNotLonger(a, b);
      FirstBlockNotLonger(b, a);
      var n := |a[0].lines|;
      assert Flatten(a)[..n] == a[0].lines && Flatten(b)[..n] == b[0].lines;
      assert Flatten(a)[n..] == Flatten(a[1..]) && Flatten(b)[n..] == Flatten(b[1..]);
      TailWellFenced(a);
      TailWellFenced(b);
      BlocksUnique(a[1..], b[1..]);
      assert a == [a[0]] + a[1..] && b == [b[0]] + b[1..];
    }
  }

  /** Over the whole text too, only backticks are added. */
  lemma {:induction false} RenderInserts(blocks: seq<Block>)
    ensures Inserts(Concat(Flatten(blocks)), Render(blocks))
  {
    hide NeutralizeProse, Inserts;
    if blocks == [] {
      InsertsSame("");
    } else {
      var head := Concat(blocks[0].lines);
      RenderInserts(blocks[1..]);
      ConcatAppend(blocks[0].lines, Flatten(blocks[1..]));
      NeutralizeInserts(head);
      InsertsSame(head);
      InsertsConcat(head, if blocks[0].Prose? then NeutralizeProse(head) else head,
                    Concat(Flatten(blocks[1..])), Render(blocks[1..]));
    }
  }

  /** What `NeutralizeMentions` returns, told by the blocks of the text. */
  ghost predicate Neutralized(text: string, out: string) {
    exists blocks :: WellFenced(blocks) && Flatten(blocks) == LinesKept(text) && out == Render(blocks)
  }

  /** That tells the result apart from every other, and it is the text with backticks added. */
  lemma NeutralizedIsUnique(text: string, a: string, b: string)
    requires Neutralized(text, a) && Neutralized(text, b)
    ensures a == b && Inserts(text, a)
  {
    var x :| WellFenced(x) && Flatten(x) == LinesKept(text) && a == Render(x);
    var y :| WellFenced(y) && Flatten(y) == LinesKept(text) && b == Render(y);
    BlocksUnique(x, y);
    RenderInserts(x);
  }

  /** No mention is live in any paragraph of the text. */
  predicate AllCalm(blocks: seq<Block>) {
    forall i | 0 <= i < |blocks| && blocks[i].Prose? :: NoLiveMention(None, "", Concat(blocks[i].lines))
  }

  lemma {:induction false} RenderGrows(blocks: seq<Block>)
    ensures |Render(blocks)| >= |Concat(Flatten(blocks))|
    ensures |Render(blocks)| == |Concat(Flatten(blocks))| <==> AllCalm(blocks)
  {
    hide NeutralizeProse, NoLiveMention, Concat;
    if blocks == [] {
      NothingWritten();
    } else {
      RenderGrows(blocks[1..]);
      ConcatAppend(blocks[0].lines, Flatten(blocks[1..]));
      UnchangedIff(Concat(blocks[0].lines));
      AllCalmHead(blocks);
    }
  }

  lemma NothingWritten()
    ensures Concat([]) == ""
  {
  }

  lemma AllCalmHead(blocks: seq<Block>)
    requires blocks != []
    ensures AllCalm(blocks) <==>
      (blocks[0].Prose? ==> NoLiveMention(None, "", Concat(blocks[0].lines))) && AllCalm(blocks[1..])
  {
    hide NoLiveMention, Concat;
    var rest := blocks[1..];
    assert forall i | 0 <= i < |rest| :: rest[i] == blocks[i + 1];
    if AllCalm(rest) && (blocks[0].Prose? ==> NoLiveMention(None, "", Concat(blocks[0].lines))) {
      forall i | 0 <= i < |blocks| && blocks[i].Prose? ensures NoLiveMention(None, "", Concat(blocks[i].lines)) {
        if i > 0 { assert rest[i - 1] == blocks[i]; }
      }
    }
  }

  /** Any text comes back as it was exactly when no mention is live in any paragraph of it.
  Applied to what a first run returned, this says when a second one changes nothing. */
  lemma TextUnchangedIff(text: string, out: string, blocks: seq<Block>)
    requires WellFenced(blocks) && Flatten(blocks) == LinesKept(text) && Neutralized(text, out)
    ensures out == text <==> AllCalm(blocks)
  {
    hide NoLiveMention, LinesKept, Render;
    NeutralizedIsUnique(text, out, Render(blocks));
    RenderGrows(blocks);
    InsertsLonger(text, out);
  }

  /** A text of one fence, closed, and a paragraph. */
  predicate FenceThenProse(text: string, fence: seq<string>, prose: seq<string>, c: char, n: nat) {
    && LinesKept(text) == fence + prose && |fence| > 1 && prose != []
    && FenceOf(fence[0]) == Some(Fence(c, n)) && Closes(fence[|fence| - 1], Fence(c, n))
    && (forall i | 0 < i < |fence| - 1 :: !Closes(fence[i], Fence(c, n)))
    && forall i | 0 <= i < |prose| :: FenceOf(prose[i]).None?
  }

  /** The fence comes out as it is, and the paragraph behind its close neutralised. */
  lemma ProseAfterFence(text: string, out: string, fence: seq<string>, prose: seq<string>, c: char, n: nat)
    requires FenceThenProse(text, fence, prose, c, n) && Neutralized(text, out)
    ensures out == Concat(fence) + NeutralizeProse(Concat(prose))
  {
    hide Closes, FenceOf, NeutralizeProse, Concat, LinesKept;
    var blocks := [Fenced(fence), Prose(prose)];
    assert GoodBlock(blocks[0], false) && GoodBlock(blocks[1], true);
    assert blocks[1..] == [Prose(prose)] && blocks[1..][1..] == [];
    assert Flatten(blocks[1..][1..]) == [] && prose + [] == prose;
    assert Flatten(blocks) == fence + prose;
    assert Render(blocks[1..][1..]) == "" && NeutralizeProse(Concat(prose)) + "" == NeutralizeProse(Concat(prose));
    assert Render(blocks) == Concat(fence) + NeutralizeProse(Concat(prose));
    assert Neutralized(text, Render(blocks));
    NeutralizedIsUnique(text, out, Render(blocks));
  }

  // ---- The loop --------------------------------------------------------------------------------

  /** All of `blocks` are whole: more text may follow. */
  predicate Whole(blocks: seq<Block>) {
    Alternating(blocks) && forall i | 0 <= i < |blocks| :: GoodBlock(blocks[i], false)
  }

  /** Lines read since the last whole block. */
  predicate OpenLines(lines: seq<string>, fence: Option<Fence>) {
    if fence.None? then forall i | 0 <= i < |lines| :: FenceOf(lines[i]).None?
    else
      && lines != [] && FenceOf(lines[0]) == fence
      && forall i | 0 < i < |lines| :: !Closes(lines[i], fence.value)
  }

  /** A fence line ends the paragraph before it. */
  lemma ProseEnds(blocks: seq<Block>, open: seq<string>)
    requires Whole(blocks) && OpenLines(open, None) && open != []
    requires blocks != [] ==> blocks[|blocks| - 1].Fenced?
    ensures Whole(blocks + [Prose(open)])
    ensures Flatten(blocks + [Prose(open)]) == Flatten(blocks) + open
    ensures Render(blocks + [Prose(open)]) == Render(blocks) + NeutralizeProse(Concat(open))
  {
    hide FenceOf, NeutralizeProse, Concat, Flatten, Render;
    FlattenAppend(blocks, Prose(open));
    RenderAppend(blocks, Prose(open));
  }

  /** A closing line ends the fence it belongs to. */
  lemma FenceEnds(blocks: seq<Block>, open: seq<string>, line: string, fence: Fence)
    requires Whole(blocks) && OpenLines(open, Some(fence)) && Closes(line, fence)
    ensures Whole(blocks + [Fenced(open + [line])])
    ensures Flatten(blocks + [Fenced(open + [line])]) == Flatten(blocks) + (open + [line])
    ensures Render(blocks + [Fenced(open + [line])]) == Render(blocks) + Concat(open + [line])
  {
    hide Closes, FenceOf, Concat, Flatten, Render;
    FlattenAppend(blocks, Fenced(open + [line]));
    RenderAppend(blocks, Fenced(open + [line]));
  }

  method NeutralizeMentions(text: string) returns (result: string)
    ensures Neutralized(text, result)
  {
    hide Closes, FenceOf, NeutralizeProse, Concat, LinesKept, Flatten, Render, Whole;
    var lines := LinesKept(text);
    var out: string, open: seq<string>, fence: Option<Fence> := "", [], None;
    ghost var blocks: seq<Block> := [];
    FlattenNothing();
    for i := 0 to |lines|
      invariant Whole(blocks) && OpenLines(open, fence)
      invariant Flatten(blocks) + open == lines[..i]
      invariant fence.None? && blocks != [] ==> blocks[|blocks| - 1].Fenced?
      invariant out == Render(blocks) + (if fence.Some? then Concat(open) else "")
    {
      var line := lines[i];
      assert lines[..i + 1] == lines[..i] + [line];
      ConcatAppend(open, [line]);
      ConcatOne(line);
      if fence.None? && FenceOf(line).None? {
        open := open + [line];
      } else if fence.None? {
        out := out + NeutralizeProse(Concat(open));
        if open != [] {
          ProseEnds(blocks, open);
          blocks := blocks + [Prose(open)];
        } else {
          NeutralizeNothing(open);
        }
        fence := FenceOf(line);
        open := [line];
        out := out + line;
      } else {
        out := out + line;
        if Closes(line, fence.value) {
          FenceEnds(blocks, open, line, fence.value);
        }
        open := open + [line];
        if Closes(line, fence.value) {
          blocks := blocks + [Fenced(open)];
          fence, open := None, [];
        }
      }
    }
    assert lines[..|lines|] == lines;
    Finish(blocks, open, fence, lines);
    result := out + NeutralizeProse(if fence.None? then Concat(open) else "");
    NeutralizeEmpty();
  }

  lemma FlattenNothing()
    ensures Flatten([]) == [] && Render([]) == "" && Whole([])
  {
  }

  lemma NeutralizeEmpty()
    ensures NeutralizeProse("") == ""
  {
  }

  lemma NeutralizeNothing(open: seq<string>)
    requires open == []
    ensures NeutralizeProse(Concat(open)) == ""
  {
  }

  /** What is still open at the end of the text is its last block. */
  lemma Finish(blocks: seq<Block>, open: seq<string>, fence: Option<Fence>, lines: seq<string>)
    requires Whole(blocks) && OpenLines(open, fence) && Flatten(blocks) + open == lines
    requires fence.None? && blocks != [] ==> blocks[|blocks| - 1].Fenced?
    ensures var last := if fence.None? then NeutralizeProse(Concat(open)) else Concat(open);
      exists all :: WellFenced(all) && Flatten(all) == lines && Render(blocks) + last == Render(all)
  {
    hide Closes, FenceOf, NeutralizeProse, Concat, Flatten, Render;
    if open == [] {
      NeutralizeNothing(open);
      assert WellFenced(blocks) && Flatten(blocks) == lines;
      assert Render(blocks) + "" == Render(blocks);
    } else {
      var b := if fence.None? then Prose(open) else Fenced(open);
      FlattenAppend(blocks, b);
      RenderAppend(blocks, b);
      assert WellFenced(blocks + [b]);
    }
  }
}
