/** Neutralising a paragraph that was neutralised before. */
module SecondRun {
  import opened MentionShapes
  import opened MentionText
  import opened MentionTheorems
  import opened Option

  function Last(s: string): char
    requires s != ""
  {
    s[|s| - 1]
  }

  // ---- A paragraph, split at its comments and code spans ----------------------------------------

  /** What comes before the first comment or code span, that span, and the rest. */
  datatype Parts = Parts(piece: string, span: string, rest: string)

  function Split(before: Option<char>, s: string): (p: Parts)
    ensures |p.piece| + |p.span| + |p.rest| == |s|
    ensures p.span == "" ==> p.rest == ""
    decreases |s|
  {
    if s == "" then Parts("", "", "")
    else
      var n := ProtectedLength(before, s);
      if n > 0 then Parts("", s[..n], s[n..])
      else
        var p := Split(Some(s[0]), s[1..]);
        Parts([s[0]] + p.piece, p.span, p.rest)
  }

  lemma {:induction false} SplitWhole(before: Option<char>, s: string)
    ensures var p := Split(before, s); p.piece + p.span + p.rest == s
    decreases |s|
  {
    hide ProtectedLength;
    if s != "" {
      var n := ProtectedLength(before, s);
      if n > 0 {
        assert s[..n] + s[n..] == s && "" + s[..n] == s[..n];
      } else {
        var p := Split(Some(s[0]), s[1..]);
        SplitWhole(Some(s[0]), s[1..]);
        Consed(s[0], p.piece, p.span, p.rest, s);
      }
    }
  }

  lemma Consed(c: char, a: string, b: string, d: string, s: string)
    requires s != "" && s[0] == c && a + b + d == s[1..]
    ensures [c] + a + b + d == s
  {
    assert [c] + a + b + d == [c] + (a + b + d);
  }

  /** One run, told by the split: the piece is wrapped, the span kept, the rest likewise. */
  function Past(span: string, rest: string): string {
    if span == "" then "" else span + Scan(Some(Last(span)), "", rest)
  }

  lemma {:induction false} ScanSplit(before: Option<char>, piece: string, s: string)
    ensures var p := Split(before, s);
      Scan(before, piece, s) == Wrap(None, piece + p.piece) + Past(p.span, p.rest)
    decreases |s|
  {
    hide Wrap, ProtectedLength, Past;
    if s == "" {
      SplitNothing(before, piece);
    } else if ProtectedLength(before, s) > 0 {
      SplitHere(before, piece, s);
    } else {
      ScanSplit(Some(s[0]), piece + [s[0]], s[1..]);
      Regroup(piece, [s[0]], Split(Some(s[0]), s[1..]).piece);
    }
  }

  lemma SplitNothing(before: Option<char>, piece: string)
    ensures Split(before, "") == Parts("", "", "")
    ensures Scan(before, piece, "") == Wrap(None, piece + "") + Past("", "")
  {
    assert piece + "" == piece && Wrap(None, piece) + "" == Wrap(None, piece);
  }

  lemma SplitHere(before: Option<char>, piece: string, s: string)
    requires s != "" && ProtectedLength(before, s) > 0
    ensures var n := ProtectedLength(before, s);
      && Split(before, s) == Parts("", s[..n], s[n..])
      && Scan(before, piece, s) == Wrap(None, piece + "") + Past(s[..n], s[n..])
  {
    hide Wrap, ProtectedLength;
    var n := ProtectedLength(before, s);
    NothingAdded(piece);
    LastOfTake(s, n);
    Regroup(Wrap(None, piece), s[..n], Scan(Some(s[n - 1]), "", s[n..]));
  }

  lemma NothingAdded(s: string)
    ensures s + "" == s && "" + s == s
  {
  }

  lemma LastOfTake(s: string, n: nat)
    requires 0 < n <= |s|
    ensures s[..n] != "" && Last(s[..n]) == s[n - 1]
  {
  }

  lemma Regroup(a: string, b: string, c: string)
    ensures a + b + c == a + (b + c)
  {
  }

  /** The character before the span. */
  function Behind(before: Option<char>, piece: string): Option<char> {
    if piece == "" then before else Some(Last(piece))
  }

  lemma {:induction false} SpanProtected(before: Option<char>, s: string)
    ensures var p := Split(before, s);
      p.span != "" ==> ProtectedLength(Behind(before, p.piece), p.span + p.rest) == |p.span|
    decreases |s|
  {
    hide ProtectedLength;
    if s != "" {
      var n := ProtectedLength(before, s);
      if n > 0 {
        assert s[..n] + s[n..] == s;
      } else {
        SpanProtected(Some(s[0]), s[1..]);
      }
    }
  }

  // ---- What the second run meets ------------------------------------------------------------------

  /** The second run over what the first made of `t`: it meets the first run's code spans,
  and searches what lies between them piece by piece. */
  function Again(before: Option<char>, piece: string, t: string): string
    decreases |t|
  {
    if t == "" then Wrap(None, piece)
    else if MentionAt(before, t) then
      var n := MentionLength(t);
      Wrap(None, piece) + "`" + t[..n] + "`" + Again(Some(t[n - 1]), "", t[n..])
    else Again(Some(t[0]), piece + [t[0]], t[1..])
  }

  /** The last thing in `t` is a mention. */
  predicate EndsInMention(before: Option<char>, t: string)
    decreases |t|
  {
    t != "" &&
    if MentionAt(before, t) then
      var n := MentionLength(t);
      n == |t| || EndsInMention(Some(t[n - 1]), t[n..])
    else EndsInMention(Some(t[0]), t[1..])
  }

  predicate IsCode(span: string) {
    span != "" && span[0] == '`'
  }

  /** Every backtick is in a code span or a comment, and no mention touches a code span. */
  predicate Orderly(before: Option<char>, s: string)
    decreases |s|
  {
    var p := Split(before, s);
    && NoTick(p.piece)
    && (before == Some('`') ==> !StartsLikeMention(p.piece))
    && (IsCode(p.span) ==> !EndsInMention(None, p.piece))
    && (p.span != "" ==> Orderly(Some(Last(p.span)), p.rest))
  }

  lemma {:induction false} TicksCloseAt(before: char, a: string, rest: string)
    requires before != '`' && NoTick(a) && (rest != "" ==> rest[0] != '`')
    ensures TicksClose(before, a + "`" + rest, 1) == Some(|a| + 1)
    decreases |a|
  {
    var s := a + "`" + rest;
    if a == "" {
      assert s[1..] == rest;
      assert TickRun(rest) == 0;
    } else {
      assert s[0] == a[0] && s[1..] == a[1..] + "`" + rest;
      TicksCloseAt(a[0], a[1..], rest);
    }
  }

  /** A wrapped mention is one code span. */
  lemma CodeSpanHere(before: Option<char>, m: string, rest: string)
    requires before != Some('`') && m != "" && NoTick(m) && (rest != "" ==> rest[0] != '`')
    ensures ProtectedLength(before, "`" + m + "`" + rest) == |m| + 2
  {
    var s := "`" + m + "`" + rest;
    assert s[1..] == m + "`" + rest && s[1] == m[0];
    assert TickRun(s[1..]) == 0;
    assert TickRun(s) == 1;
    TicksCloseAt(m[0], m[1..], rest);
    assert s[2..] == m[1..] + "`" + rest;
  }

  lemma {:induction false} CloseLengthLocal(s: string, r: string)
    requires HasClose(s)
    ensures HasClose(s[..CloseLength(s)] + r) && CloseLength(s[..CloseLength(s)] + r) == CloseLength(s)
  {
    var n := CloseLength(s);
    var t := s[..n] + r;
    if !ClosesComment(s) {
      CloseLengthLocal(s[1..], r);
      assert t[1..] == s[1..][..n - 1] + r;
      assert !ClosesComment(t);
    }
  }

  lemma AfterMention(t: string)
    requires |t| >= 2 && t[0] == '@' && IsAlnum(t[1])
    ensures var n := MentionLength(t);
      IsGuard(t[n - 1]) && !MentionAt(Some(t[n - 1]), t[n..])
  {
  }

  /** A mention of `t` is directly followed by an `@` and a letter or digit. */
  predicate Touching(before: Option<char>, t: string)
    decreases |t|
  {
    t != "" &&
    if MentionAt(before, t) then
      var n := MentionLength(t);
      StartsLikeMention(t[n..]) || Touching(Some(t[n - 1]), t[n..])
    else Touching(Some(t[0]), t[1..])
  }

  /** No piece the second run searches holds a mention. */
  predicate Calm(before: Option<char>, piece: string, t: string)
    decreases |t|
  {
    if t == "" then NoMention(None, piece)
    else if MentionAt(before, t) then
      var n := MentionLength(t);
      NoMention(None, piece) && Calm(Some(t[n - 1]), "", t[n..])
    else Calm(Some(t[0]), piece + [t[0]], t[1..])
  }

  lemma {:induction false} AgainGrows(before: Option<char>, piece: string, t: string)
    ensures |Again(before, piece, t)| >= |piece| + |Wrap(before, t)|
    ensures |Again(before, piece, t)| == |piece| + |Wrap(before, t)| <==> Calm(before, piece, t)
    ensures Calm(before, piece, t) ==> Again(before, piece, t) == piece + Wrap(before, t)
    decreases |t|
  {
    hide MentionLength, NoMention, IsAlnum, IsGuard;
    WrapGrows(None, piece);
    if t == "" {
      assert piece + "" == piece;
    } else if MentionAt(before, t) {
      var n := MentionLength(t);
      AgainGrows(Some(t[n - 1]), "", t[n..]);
      Quoted(piece, t[..n], Wrap(Some(t[n - 1]), t[n..]));
    } else {
      AgainGrows(Some(t[0]), piece + [t[0]], t[1..]);
      Moved(piece, t[0], Wrap(Some(t[0]), t[1..]));
    }
  }

  lemma Quoted(piece: string, m: string, w: string)
    ensures "" + w == w && piece + "`" + m + "`" + w == piece + ("`" + m + "`" + w)
  {
  }

  lemma Moved(piece: string, c: char, w: string)
    ensures piece + [c] + w == piece + ([c] + w)
  {
  }

  /** Every `@` of `u` before a letter or digit, from `k` on and below `m`, is guarded. */
  predicate Guarded(u: string, k: nat, m: nat)
    requires m <= |u|
  {
    forall i | k <= i < m && i + 1 < |u| && u[i] == '@' && IsAlnum(u[i + 1]) :: i > 0 && IsGuard(u[i - 1])
  }

  /** Position `i` of `p` could begin a mention. */
  predicate Loose(p: string, i: nat)
    requires i < |p|
  {
    i + 1 < |p| && p[i] == '@' && IsAlnum(p[i + 1]) && (i > 0 ==> !IsGuard(p[i - 1]))
  }

  lemma LooseIsMention(p: string, k: nat)
    requires k < |p|
    ensures MentionAt(Prior(None, p, k), p[k..]) <==> Loose(p, k)
  {
  }

  lemma {:induction false} NoMentionIffGuarded(p: string, k: nat)
    requires k <= |p|
    ensures NoMention(Prior(None, p, k), p[k..]) <==> forall i | k <= i < |p| :: !Loose(p, i)
    decreases |p| - k
  {
    hide Loose, MentionAt;
    if k < |p| {
      NoMentionIffGuarded(p, k + 1);
      LooseIsMention(p, k);
      assert p[k..][1..] == p[k + 1..] && p[k..][0] == p[k];
    }
  }

  lemma PieceIsCalm(piece: string, u: string)
    requires piece <= u && Guarded(u, 1, |piece|)
    requires piece != "" && |u| > |piece| && u[|piece| - 1] == '@' ==> !IsAlnum(u[|piece|])
    ensures NoMention(None, piece) <==> !StartsLikeMention(u) || piece == ""
  {
    hide IsGuard, IsAlnum;
    NoMentionIffGuarded(piece, 0);
    assert piece[0..] == piece;
    assert forall i | 0 <= i < |piece| :: piece[i] == u[i];
    forall i | 0 < i < |piece| ensures !Loose(piece, i) { assert u[i] == piece[i] && u[i - 1] == piece[i - 1]; }
    if piece != "" { assert Loose(piece, 0) <==> StartsLikeMention(u); }
  }

  /** The second run finds a mention only right behind one of the first. */
  lemma {:induction false} CalmUnlessTouching(before: Option<char>, piece: string, t: string)
    requires Guarded(piece + t, 1, |piece|)
    requires piece != "" ==> before == Some(piece[|piece| - 1])
    requires piece == "" && before.Some? ==> IsGuard(before.value)
    ensures Calm(before, piece, t) <==>
      !(StartsLikeMention(piece + t) && (piece != "" || before.Some?)) && !Touching(before, t)
    decreases |t|
  {
    hide IsGuard, IsAlnum, MentionLength, NoMention;
    var u := piece + t;
    assert forall i | 0 <= i < |piece| :: u[i] == piece[i];
    if t == "" {
      assert u == piece;
      if piece != "" { PieceIsCalm(piece, u); } else { NothingIsCalm(); }
    } else if MentionAt(before, t) {
      var n := MentionLength(t);
      AtIsNotAlnum();
      assert u[|piece|] == t[0];
      if piece != "" { PieceIsCalm(piece, u); } else { NothingIsCalm(); }
      AfterMention(t);
      assert "" + t[n..] == t[n..];
      CalmUnlessTouching(Some(t[n - 1]), "", t[n..]);
    } else {
      var next := piece + [t[0]];
      assert next + t[1..] == u;
      assert u[|piece|] == t[0];
      assert |t| > 1 ==> u[|piece| + 1] == t[1];
      CalmUnlessTouching(Some(t[0]), next, t[1..]);
    }
  }

  lemma NothingIsCalm()
    ensures NoMention(None, "")
  {
  }

  lemma AtIsNotAlnum()
    ensures !IsAlnum('@')
  {
  }

  lemma AgainIffTouching(t: string)
    ensures |Again(None, "", t)| >= |Wrap(None, t)|
    ensures |Again(None, "", t)| == |Wrap(None, t)| <==> !Touching(None, t)
    ensures !Touching(None, t) ==> Again(None, "", t) == Wrap(None, t)
  {
    hide Wrap, Again, Calm, Touching;
    AgainGrows(None, "", t);
    assert "" + t == t && "" + Wrap(None, t) == Wrap(None, t);
    CalmUnlessTouching(None, "", t);
  }

  // ---- A span stays what it was, whatever is inserted around it -----------------------------------

  lemma InsertsOpen(x: string, z: string)
    requires Inserts(x, z) && OpensComment(z)
    ensures OpensComment(x) && Inserts(x[4..], z[4..])
  {
    assert Inserts(x[1..], z[1..]);
    assert Inserts(x[1..][1..], z[1..][1..]) && x[1..][1..] == x[2..] && z[1..][1..] == z[2..];
    assert Inserts(x[2..][1..], z[2..][1..]) && x[2..][1..] == x[3..] && z[2..][1..] == z[3..];
    assert x[3..][1..] == x[4..] && z[3..][1..] == z[4..];
  }

  lemma InsertsClosing(x: string, z: string)
    requires Inserts(x, z) && ClosesComment(z)
    ensures ClosesComment(x)
  {
    assert Inserts(x[1..], z[1..]);
    assert Inserts(x[1..][1..], z[1..][1..]) && x[1..][1..] == x[2..] && z[1..][1..] == z[2..];
  }

  /** Inserted backticks never complete a comment end. */
  lemma {:induction false} InsertsClose(x: string, z: string)
    requires Inserts(x, z) && HasClose(z)
    ensures HasClose(x)
    decreases |z|
  {
    if ClosesComment(z) {
      InsertsClosing(x, z);
    } else if x != "" && x[0] == z[0] && Inserts(x[1..], z[1..]) {
      InsertsClose(x[1..], z[1..]);
    } else {
      InsertsClose(x, z[1..]);
    }
  }

  /** No span starts at a plain character the first run left in place. */
  lemma PlainStays(p: Option<char>, q: Option<char>, x: string, z: string)
    requires x != "" && z != "" && x[0] == z[0] != '`' && Inserts(x, z)
    requires ProtectedLength(p, x) == 0
    ensures ProtectedLength(q, z) == 0
  {
    if OpensComment(z) && HasClose(z[4..]) {
      InsertsOpen(x, z);
      InsertsClose(x[4..], z[4..]);
    }
  }

  lemma {:induction false} TickRunLocal(s: string, n: nat, r: string)
    requires TickRun(s) < n <= |s|
    ensures TickRun(s[..n] + r) == TickRun(s)
  {
    var t := s[..n] + r;
    assert t[0] == s[0];
    if s[0] == '`' {
      assert t[1..] == s[1..][..n - 1] + r;
      TickRunLocal(s[1..], n - 1, r);
    }
  }

  lemma {:induction false} TickRunToEnd(s: string, k: nat, r: string)
    requires TickRun(s) == k && (r != "" ==> r[0] != '`')
    ensures TickRun(s[..k] + r) == k
  {
    var t := s[..k] + r;
    if k == 0 {
      assert t == r;
    } else {
      assert t[1..] == s[1..][..k - 1] + r;
      TickRunToEnd(s[1..], k - 1, r);
    }
  }

  /** The closing run lies past any run it is not. */
  lemma {:induction false} CloserIsFurther(before: char, s: string, k: nat)
    requires k > 0 && TicksClose(before, s, k).Some?
    ensures TicksClose(before, s, k).value >= k
    ensures !(before != '`' && TickRun(s) == k) ==> TickRun(s) < TicksClose(before, s, k).value
    decreases |s|
  {
    if !(before != '`' && TickRun(s) == k) {
      CloserIsFurther(s[0], s[1..], k);
    }
  }

  /** A code span ends where it did, whatever follows it. */
  lemma {:induction false} TicksCloseLocal(before: char, s: string, k: nat, r: string)
    requires k > 0 && TicksClose(before, s, k).Some? && (r != "" ==> r[0] != '`')
    ensures TicksClose(before, s[..TicksClose(before, s, k).value] + r, k) == TicksClose(before, s, k)
    decreases |s|
  {
    var n := TicksClose(before, s, k).value;
    var t := s[..n] + r;
    CloserIsFurther(before, s, k);
    if before != '`' && TickRun(s) == k {
      TickRunToEnd(s, k, r);
    } else {
      TickRunLocal(s, n, r);
      assert t[0] == s[0] && t[1..] == s[1..][..n - 1] + r;
      TicksCloseLocal(s[0], s[1..], k, r);
    }
  }

  lemma CommentKept(p: Option<char>, q: Option<char>, s: string, r: string)
    requires OpensComment(s) && HasClose(s[4..])
    ensures ProtectedLength(q, s[..ProtectedLength(p, s)] + r) == ProtectedLength(p, s)
  {
    var e := 4 + CloseLength(s[4..]);
    CloseLengthLocal(s[4..], r);
    assert (s[..e] + r)[4..] == s[4..][..e - 4] + r;
  }

  lemma CodeTail(s: string, k: nat, close: nat, r: string)
    requires k + 1 + close <= |s|
    ensures var t := s[..k + 1 + close] + r;
      t[k] == s[k] && t[0] == s[0] && t[k + 1..] == s[k + 1..][..close] + r
  {
  }

  /** A code span of two runs of `k`, the second `close` behind the first, with something else
  put behind it. */
  lemma CodeKeptAs(q: Option<char>, s: string, k: nat, close: nat, t: string, r: string)
    requires s != "" && s[0] == '`' && q != Some('`') && (r != "" ==> r[0] != '`')
    requires 0 < k == TickRun(s) && k + 1 + close <= |s| && TicksClose(s[k], s[k + 1..], k) == Some(close)
    requires t == s[..k + 1 + close] + r
    ensures ProtectedLength(q, t) == k + 1 + close
  {
    hide ProtectedLength, TicksClose, TickRun;
    TickRunLocal(s, k + 1 + close, r);
    TicksCloseLocal(s[k], s[k + 1..], k, r);
    CodeTail(s, k, close, r);
    CodeLength(q, t);
  }

  lemma CodeKept(p: Option<char>, q: Option<char>, s: string, r: string)
    requires ProtectedLength(p, s) > 0 && s[0] == '`' && q != Some('`') && (r != "" ==> r[0] != '`')
    ensures ProtectedLength(q, s[..ProtectedLength(p, s)] + r) == ProtectedLength(p, s)
  {
    assert p != Some('`');
    hide ProtectedLength, TicksClose, TickRun;
    CodeLength(p, s);
    var k := TickRun(s);
    var close := TicksClose(s[k], s[k + 1..], k).value;
    CodeKeptAs(q, s, k, close, s[..k + 1 + close] + r, r);
  }

  lemma SpanKept(p: Option<char>, q: Option<char>, span: string, rest: string, out: string)
    requires span != "" && ProtectedLength(p, span + rest) == |span|
    requires IsCode(span) ==> q != Some('`') && (out != "" ==> out[0] != '`')
    ensures ProtectedLength(q, span + out) == |span|
  {
    var s := span + rest;
    assert s[..|span|] == span && s[0] == span[0];
    if IsCode(span) { CodeKept(p, q, s, out); } else { CommentKept(p, q, s, out); }
  }

  // ---- The second run meets the first run's code spans --------------------------------------------

  lemma SplitOne(p: Option<char>, s: string)
    requires Split(p, s).piece != ""
    ensures s != "" && s[0] == Split(p, s).piece[0] && ProtectedLength(p, s) == 0
    ensures var parts := Split(p, s);
      Split(Some(s[0]), s[1..]) == Parts(parts.piece[1..], parts.span, parts.rest)
  {
    hide ProtectedLength;
  }

  lemma {:induction false} SplitMore(p: Option<char>, t: string, span: string, rest: string, n: nat)
    requires 0 < n <= |t| && Split(p, t + span + rest) == Parts(t, span, rest)
    ensures Split(Some(t[n - 1]), t[n..] + span + rest) == Parts(t[n..], span, rest)
    decreases n
  {
    SplitOne(p, t + span + rest);
    assert (t + span + rest)[1..] == t[1..] + span + rest;
    if n > 1 {
      SplitMore(Some(t[0]), t[1..], span, rest, n - 1);
      assert t[1..][n - 1..] == t[n..];
    }
  }

  lemma ScanPlain(q: Option<char>, piece: string, c: char, rest: string)
    requires ProtectedLength(q, [c] + rest) == 0
    ensures Scan(q, piece, [c] + rest) == Scan(Some(c), piece + [c], rest)
  {
    assert ([c] + rest)[1..] == rest;
  }

  lemma ScanSpan(q: Option<char>, piece: string, span: string, rest: string)
    requires span != "" && ProtectedLength(q, span + rest) == |span|
    ensures Scan(q, piece, span + rest) == Wrap(None, piece) + (span + Scan(Some(Last(span)), "", rest))
  {
    hide ProtectedLength, Wrap;
    var s := span + rest;
    assert s[..|span|] == span && s[|span|..] == rest && s[|span| - 1] == Last(span);
    Regroup(Wrap(None, piece), span, Scan(Some(Last(span)), "", rest));
  }

  /** One split of the first run's output: the second run finds the mentions it wrapped as
  code spans, and the span that ends the piece as it was. */
  lemma {:induction false} ScanOfWrap(q: Option<char>, piece: string, before: Option<char>, p: Option<char>,
      t: string, span: string, rest: string, out: string)
    requires Split(p, t + span + rest) == Parts(t, span, rest)
    requires span != "" ==> ProtectedLength(Behind(p, t), span + rest) == |span|
    requires NoTick(t) && Inserts(rest, out) && (span == "" ==> out == "")
    requires q == Some('`') ==> !MentionAt(before, t)
    requires IsCode(span) ==> !EndsInMention(before, t) && (out != "" ==> out[0] != '`') && (t == "" ==> q != Some('`'))
    ensures Scan(q, piece, Wrap(before, t) + (span + out)) == Again(before, piece, t) + Past(span, out)
    decreases |t|, 1
  {
    hide ProtectedLength, MentionLength, Scan, Split, Past, Inserts;
    if t == "" {
      AtTheSpan(q, piece, p, span, rest, out);
      assert Wrap(before, t) + (span + out) == span + out;
    } else if MentionAt(before, t) {
      AtAMention(q, piece, before, p, t, span, rest, out);
    } else {
      AtAPlain(q, piece, before, p, t, span, rest, out);
    }
  }

  lemma AtTheSpan(q: Option<char>, piece: string, p: Option<char>, span: string, rest: string, out: string)
    requires span != "" ==> ProtectedLength(p, span + rest) == |span|
    requires span == "" ==> out == ""
    requires IsCode(span) ==> q != Some('`') && (out != "" ==> out[0] != '`')
    ensures Scan(q, piece, span + out) == Wrap(None, piece) + Past(span, out)
  {
    hide ProtectedLength, Wrap;
    if span == "" {
      assert span + out == "" && Wrap(None, piece) + "" == Wrap(None, piece);
    } else {
      SpanKept(p, q, span, rest, out);
      ScanSpan(q, piece, span, out);
    }
  }

  lemma AtAPlain(q: Option<char>, piece: string, before: Option<char>, p: Option<char>,
      t: string, span: string, rest: string, out: string)
    requires t != "" && !MentionAt(before, t)
    requires Split(p, t + span + rest) == Parts(t, span, rest)
    requires span != "" ==> ProtectedLength(Behind(p, t), span + rest) == |span|
    requires NoTick(t) && Inserts(rest, out) && (span == "" ==> out == "")
    requires IsCode(span) ==> !EndsInMention(before, t) && (out != "" ==> out[0] != '`')
    ensures Scan(q, piece, Wrap(before, t) + (span + out)) == Again(before, piece, t) + Past(span, out)
    decreases |t|, 0
  {
    hide ProtectedLength, MentionLength, Scan, Split, Past, Inserts, MentionAt;
    var c := t[0];
    SplitOne(p, t + span + rest);
    assert (t + span + rest)[1..] == t[1..] + span + rest;
    var z := Wrap(Some(c), t[1..]) + (span + out);
    assert Wrap(before, t) + (span + out) == [c] + z;
    WholeInserts(before, t, span, rest, out);
    PlainStays(p, q, t + span + rest, [c] + z);
    ScanPlain(q, piece, c, z);
    assert Behind(p, t) == Behind(Some(c), t[1..]);
    ScanOfWrap(Some(c), piece + [c], Some(c), Some(c), t[1..], span, rest, out);
  }

  lemma WholeInserts(before: Option<char>, t: string, span: string, rest: string, out: string)
    requires Inserts(rest, out)
    ensures Inserts(t + span + rest, Wrap(before, t) + (span + out))
  {
    hide Inserts, Wrap;
    WrapInserts(before, t);
    InsertsSame(span);
    InsertsConcat(span, span, rest, out);
    InsertsConcat(t, Wrap(before, t), span + rest, span + out);
    Regroup(t, span, rest);
  }

  lemma AtAMention(q: Option<char>, piece: string, before: Option<char>, p: Option<char>,
      t: string, span: string, rest: string, out: string)
    requires MentionAt(before, t) && q != Some('`')
    requires Split(p, t + span + rest) == Parts(t, span, rest)
    requires span != "" ==> ProtectedLength(Behind(p, t), span + rest) == |span|
    requires NoTick(t) && Inserts(rest, out) && (span == "" ==> out == "")
    requires IsCode(span) ==> !EndsInMention(before, t) && (out != "" ==> out[0] != '`')
    ensures Scan(q, piece, Wrap(before, t) + (span + out)) == Again(before, piece, t) + Past(span, out)
    decreases |t|, 0
  {
    hide ProtectedLength, MentionLength, Scan, Split, Past, Inserts, IsGuard, Wrap, Again, EndsInMention, NoTick;
    var n := MentionLength(t);
    var m, t', after := t[..n], t[n..], Some(t[n - 1]);
    var z := Wrap(after, t') + (span + out);
    AfterMention(t);
    WrapsOne(before, t, span + out);
    TellsOne(before, piece, t);
    NoTickCut(t, n);
    HeadNotTick(after, t', span, out);
    CodeSpanHere(q, m, z);
    ScanSpan(q, piece, "`" + m + "`", z);
    SplitMore(p, t, span, rest, n);
    assert Behind(p, t) == Behind(after, t');
    ScanOfWrap(Some('`'), "", after, after, t', span, rest, out);
    Requote(Wrap(None, piece), m, Again(after, "", t'), Past(span, out));
  }

  lemma TellsOne(before: Option<char>, piece: string, t: string)
    requires MentionAt(before, t)
    ensures var n := MentionLength(t); var after := Some(t[n - 1]);
      && Again(before, piece, t) == Wrap(None, piece) + "`" + t[..n] + "`" + Again(after, "", t[n..])
      && (EndsInMention(before, t) <==> n == |t| || EndsInMention(after, t[n..]))
  {
    hide Wrap;
  }

  lemma NoTickCut(t: string, n: nat)
    requires NoTick(t) && n <= |t|
    ensures NoTick(t[..n]) && NoTick(t[n..])
  {
  }

  lemma WrapsOne(before: Option<char>, t: string, r: string)
    requires MentionAt(before, t)
    ensures var n := MentionLength(t);
      Wrap(before, t) + r == "`" + t[..n] + "`" + (Wrap(Some(t[n - 1]), t[n..]) + r)
  {
  }

  lemma HeadNotTick(before: Option<char>, t: string, span: string, out: string)
    requires NoTick(t) && !MentionAt(before, t) && (t == "" ==> !IsCode(span)) && (span == "" ==> out == "")
    ensures var z := Wrap(before, t) + (span + out); z != "" ==> z[0] != '`'
  {
    if t == "" {
      assert Wrap(before, t) + (span + out) == span + out;
    }
  }

  lemma Requote(a: string, m: string, b: string, c: string)
    ensures a + ("`" + m + "`" + (b + c)) == (a + "`" + m + "`" + b) + c
  {
  }

  // ---- The whole paragraph ----------------------------------------------------------------------------

  /** Two runs, told by the split of the paragraph itself. */
  function Twice(before: Option<char>, s: string): string
    decreases |s|
  {
    var p := Split(before, s);
    Again(None, "", p.piece) + (if p.span == "" then "" else p.span + Twice(Some(Last(p.span)), p.rest))
  }

  /** What follows a code span still starts with no backtick after the first run. */
  lemma AfterCodeNotTick(s: string)
    requires Orderly(Some('`'), s)
    ensures var out := Scan(Some('`'), "", s); out != "" ==> out[0] != '`'
  {
    hide Scan, MentionLength, Orderly;
    var p := Split(Some('`'), s);
    assert NoTick(p.piece) && !StartsLikeMention(p.piece) by { OrderlyHead(Some('`'), s); }
    ScanSplit(Some('`'), "", s);
    assert "" + p.piece == p.piece;
    SpanProtected(Some('`'), s);
    if p.piece == "" {
      assert Wrap(None, p.piece) + Past(p.span, p.rest) == Past(p.span, p.rest);
      if p.span != "" { assert (p.span + p.rest)[0] == p.span[0]; }
    }
  }

  lemma OrderlyHead(before: Option<char>, s: string)
    requires Orderly(before, s)
    ensures var p := Split(before, s);
      && NoTick(p.piece)
      && (before == Some('`') ==> !StartsLikeMention(p.piece))
      && (IsCode(p.span) ==> !EndsInMention(None, p.piece))
      && (p.span != "" ==> |p.rest| < |s| && Orderly(Some(Last(p.span)), p.rest))
  {
    hide Split;
  }

  /** The last character of a code span is a backtick. */
  lemma {:induction false} TicksCloseOnTick(before: char, s: string, k: nat)
    requires k > 0 && TicksClose(before, s, k).Some?
    ensures var n := TicksClose(before, s, k).value; n > 0 && s[n - 1] == '`'
    decreases |s|
  {
    if !(before != '`' && TickRun(s) == k) { TicksCloseOnTick(s[0], s[1..], k); }
  }

  lemma CodeEndsInTick(p: Option<char>, span: string, rest: string)
    requires IsCode(span) && ProtectedLength(p, span + rest) == |span|
    ensures Last(span) == '`' && p != Some('`')
  {
    var s := span + rest;
    assert s[0] == span[0];
    var k := TickRun(s);
    TicksCloseOnTick(s[k], s[k + 1..], k);
    assert s[|span| - 1] == span[|span| - 1];
  }

  /** On an orderly paragraph the second run finds every span of the first where it was, and
  searches what lies between them piece by piece. */
  lemma {:induction false} ScanTwice(before: Option<char>, s: string)
    requires Orderly(before, s)
    ensures Scan(before, "", Scan(before, "", s)) == Twice(before, s)
    decreases |s|
  {
    hide Scan, Split, ProtectedLength, Orderly, Again, MentionLength, Wrap;
    var p := Split(before, s);
    OrderlyHead(before, s);
    ScanSplit(before, "", s);
    assert "" + p.piece == p.piece;
    SpanProtected(before, s);
    SplitWhole(before, s);
    var out := if p.span == "" then "" else Scan(Some(Last(p.span)), "", p.rest);
    ScanInserts(if p.span == "" then None else Some(Last(p.span)), "", p.rest);
    assert "" + p.rest == p.rest;
    InsertsSame("");
    if IsCode(p.span) {
      CodeEndsInTick(Behind(before, p.piece), p.span, p.rest);
      AfterCodeNotTick(p.rest);
    }
    assert p.span == "" ==> p.span + out == "";
    ScanOfWrap(before, "", None, before, p.piece, p.span, p.rest, out);
    if p.span != "" {
      ScanTwice(Some(Last(p.span)), p.rest);
    }
  }

  /** A mention of the paragraph is directly followed by an `@` and a letter or digit. */
  predicate MentionsTouch(before: Option<char>, s: string)
    decreases |s|
  {
    var p := Split(before, s);
    Touching(None, p.piece) || (p.span != "" && MentionsTouch(Some(Last(p.span)), p.rest))
  }

  lemma {:induction false} TwiceGrows(before: Option<char>, s: string)
    ensures |Twice(before, s)| >= |Scan(before, "", s)|
    ensures |Twice(before, s)| == |Scan(before, "", s)| <==> !MentionsTouch(before, s)
    decreases |s|
  {
    hide Scan, Split, Again, Wrap, Touching;
    var p := Split(before, s);
    ScanSplit(before, "", s);
    assert "" + p.piece == p.piece;
    AgainIffTouching(p.piece);
    if p.span != "" {
      TwiceGrows(Some(Last(p.span)), p.rest);
    }
  }

  /** On an orderly paragraph, a second run changes nothing, and no mention is live in what the
  first returned, exactly when no mention is directly followed by another `@` and a letter
  or digit. */
  lemma {:induction false} SecondRunChangesNothingIff(s: string)
    requires Orderly(None, s)
    ensures NeutralizeProse(NeutralizeProse(s)) == NeutralizeProse(s) <==> !MentionsTouch(None, s)
    ensures NoLiveMention(None, "", NeutralizeProse(s)) <==> !MentionsTouch(None, s)
  {
    hide Scan, Orderly, MentionsTouch;
    ScanTwice(None, s);
    TwiceGrows(None, s);
    UnchangedIff(NeutralizeProse(s));
  }

  /** A paragraph with no backtick is orderly. */
  lemma {:induction false} TickFreeIsOrderly(before: Option<char>, s: string)
    requires NoTick(s) && before != Some('`')
    ensures Orderly(before, s)
    decreases |s|
  {
    hide Split, StartsLikeMention, EndsInMention;
    var p := Split(before, s);
    SplitWhole(before, s);
    assert NoTick(p.piece) && NoTick(p.span) && NoTick(p.rest) by { NoTickParts(p.piece, p.span, p.rest); }
    if p.span != "" {
      TickFreeIsOrderly(Some(Last(p.span)), p.rest);
    }
  }

  lemma NoTickParts(a: string, b: string, c: string)
    requires NoTick(a + b + c)
    ensures NoTick(a) && NoTick(b) && NoTick(c)
  {
    var s := a + b + c;
    assert forall i | 0 <= i < |a| :: s[i] == a[i];
    assert forall i | 0 <= i < |b| :: s[|a| + i] == b[i];
    assert forall i | 0 <= i < |c| :: s[|a| + |b| + i] == c[i];
  }

  // ---- A backtick that nothing closes -------------------------------------------------------------------

  /** Where the first mention of `t` begins: nothing before it, and a mention there. */
  lemma {:induction false} FirstMention(before: Option<char>, t: string) returns (k: nat)
    requires !NoMention(before, t)
    ensures k < |t| && MentionAt(Prior(before, t, k), t[k..])
    ensures Wrap(before, t) == t[..k] + Wrap(Prior(before, t, k), t[k..])
    decreases |t|
  {
    hide MentionAt, MentionLength;
    if MentionAt(before, t) {
      k := 0;
      assert t[0..] == t && t[..0] + Wrap(before, t) == Wrap(before, t);
    } else {
      k := FirstMention(Some(t[0]), t[1..]);
      assert t[1..][k..] == t[k + 1..];
      var w := Wrap(Prior(Some(t[0]), t[1..], k), t[k + 1..]);
      assert [t[0]] + (t[1..][..k] + w) == t[..k + 1] + w;
      k := k + 1;
    }
  }

  /** A piece that starts with a mention is live. */
  lemma LiveAtStart(rest: string)
    requires StartsLikeMention(rest)
    ensures !NoLiveMention(Some('`'), "", rest)
  {
    hide MentionLength;
    assert ProtectedLength(Some('`'), rest) == 0 && ProtectedLength(Some('@'), rest[1..]) == 0;
    assert rest[1..][1..] == rest[2..] && "" + [rest[0]] == [rest[0]];
    var piece := [rest[0]] + [rest[1]];
    PieceGrows(Some(rest[1]), piece, rest[2..]);
    assert NoLiveMention(Some('`'), "", rest) == NoLiveMention(Some('@'), [rest[0]], rest[1..]);
  }

  lemma {:induction false} PieceGrows(before: Option<char>, piece: string, s: string)
    requires StartsLikeMention(piece)
    ensures !NoLiveMention(before, piece, s)
    decreases |s|
  {
    hide ProtectedLength, MentionLength;
    if s != "" && ProtectedLength(before, s) == 0 {
      PieceGrows(Some(s[0]), piece + [s[0]], s[1..]);
    }
  }

  /** The first run over a stray backtick and a mention: the two backticks pair up. */
  lemma StrayPairs(t: string) returns (u: string, rest: string)
    requires NoTick(t) && !NoMention(Some('`'), t)
    ensures "`" + Wrap(Some('`'), t) == "`" + u + "`" + rest
    ensures u != "" && NoTick(u) && StartsLikeMention(rest)
  {
    hide MentionLength;
    var k := FirstMention(Some('`'), t);
    var m := t[k..];
    var n := MentionLength(m);
    u := t[..k];
    rest := m[..n] + "`" + Wrap(Some(m[n - 1]), m[n..]);
    Paired(u, m[..n], Wrap(Some(m[n - 1]), m[n..]));
  }

  lemma Paired(u: string, m: string, w: string)
    ensures "`" + (u + ("`" + m + "`" + w)) == "`" + u + "`" + (m + "`" + w)
  {
  }

  lemma WholePiece(s: string)
    requires Split(None, s).span == ""
    ensures NeutralizeProse(s) == Wrap(None, s)
  {
    ScanSplit(None, "", s);
    var p := Split(None, s);
    SplitWhole(None, s);
    assert p.piece + "" + "" == p.piece == "" + p.piece;
    assert Wrap(None, s) + "" == Wrap(None, s);
  }

  lemma StrayWrap(t: string)
    ensures Wrap(None, "`" + t) == "`" + Wrap(Some('`'), t)
  {
    assert ("`" + t)[1..] == t;
  }

  lemma LiveBehindSpan(span: string, rest: string)
    requires span != "" && ProtectedLength(None, span + rest) == |span|
    requires !NoLiveMention(Some(Last(span)), "", rest)
    ensures !NoLiveMention(None, "", span + rest)
  {
    hide ProtectedLength;
    assert (span + rest)[|span|..] == rest && (span + rest)[|span| - 1] == Last(span);
  }

  /** A stray backtick before a mention defeats the purpose: it pairs with the one put before
  the mention, which is left live, and a second run changes the text. */
  lemma StrayTickFreesAMention(t: string)
    requires NoTick(t) && !NoMention(Some('`'), t) && Split(None, "`" + t).span == ""
    ensures !NoLiveMention(None, "", NeutralizeProse("`" + t))
    ensures NeutralizeProse(NeutralizeProse("`" + t)) != NeutralizeProse("`" + t)
  {
    hide Scan, NoLiveMention, Wrap, ProtectedLength, NeutralizeProse, StartsLikeMention;
    WholePiece("`" + t);
    StrayWrap(t);
    var u, rest := StrayPairs(t);
    assert rest[0] != '`' by { assert StartsLikeMention(rest); MentionHead(rest); }
    CodeSpanHere(None, u, rest);
    LiveAtStart(rest);
    assert Last("`" + u + "`") == '`';
    LiveBehindSpan("`" + u + "`", rest);
    UnchangedIff(NeutralizeProse("`" + t));
  }

  lemma MentionHead(s: string)
    requires StartsLikeMention(s)
    ensures s != "" && s[0] == '@'
  {
  }
}
