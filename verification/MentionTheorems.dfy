/** What neutralising a paragraph changes. */
module MentionTheorems {
  import opened MentionText
  import opened Option

  predicate NoTick(s: string) {
    forall i | 0 <= i < |s| :: s[i] != '`'
  }

  // ---- Only backticks are added ----------------------------------------------------------

  /** `out` is `s` with backticks inserted and nothing else. */
  predicate Inserts(s: string, out: string)
    decreases |out|
  {
    if out == "" then s == ""
    else (s != "" && s[0] == out[0] && Inserts(s[1..], out[1..])) || (out[0] == '`' && Inserts(s, out[1..]))
  }

  lemma {:induction false} InsertsSame(s: string)
    ensures Inserts(s, s)
  {
    if s != "" { InsertsSame(s[1..]); }
  }

  lemma {:induction false} InsertsConcat(a: string, a': string, b: string, b': string)
    requires Inserts(a, a') && Inserts(b, b')
    ensures Inserts(a + b, a' + b')
    decreases |a'|
  {
    if a' == "" {
      assert a + b == b && a' + b' == b';
    } else {
      assert (a' + b')[1..] == a'[1..] + b';
      if a != "" && a[0] == a'[0] && Inserts(a[1..], a'[1..]) {
        assert (a + b)[1..] == a[1..] + b;
        InsertsConcat(a[1..], a'[1..], b, b');
      } else {
        InsertsConcat(a, a'[1..], b, b');
      }
    }
  }

  lemma InsertsQuoted(m: string, rest: string, out: string)
    requires Inserts(rest, out)
    ensures Inserts(m + rest, "`" + m + "`" + out)
  {
    var close := "`" + out;
    assert close[1..] == out && Inserts(rest, close);
    InsertsSame(m);
    InsertsConcat(m, m, rest, close);
    assert "`" + m + "`" + out == "`" + (m + close);
    assert ("`" + (m + close))[1..] == m + close;
  }

  lemma {:induction false} WrapInserts(before: Option<char>, s: string)
    ensures Inserts(s, Wrap(before, s))
    decreases |s|
  {
    hide Inserts, MentionLength;
    if s == "" {
      InsertsSame(s);
    } else if MentionAt(before, s) {
      var n := MentionLength(s);
      WrapInserts(Some(s[n - 1]), s[n..]);
      InsertsQuoted(s[..n], s[n..], Wrap(Some(s[n - 1]), s[n..]));
      Halves(s, n);
    } else {
      WrapInserts(Some(s[0]), s[1..]);
      InsertsSame([s[0]]);
      InsertsConcat([s[0]], [s[0]], s[1..], Wrap(Some(s[0]), s[1..]));
      Halves(s, 1);
    }
  }

  lemma Halves(s: string, n: nat)
    requires n <= |s|
    ensures s[..n] + s[n..] == s && (n == 1 ==> s[..n] == [s[0]])
  {
  }

  lemma InsertsAround(piece: string, wrapped: string, kept: string, rest: string, out: string)
    requires Inserts(piece, wrapped) && Inserts(rest, out)
    ensures Inserts(piece + (kept + rest), wrapped + kept + out)
  {
    hide Inserts;
    InsertsSame(kept);
    InsertsConcat(kept, kept, rest, out);
    InsertsConcat(piece, wrapped, kept + rest, kept + out);
    assert wrapped + (kept + out) == wrapped + kept + out;
  }

  lemma SpanInserts(piece: string, wrapped: string, s: string, n: nat, out: string)
    requires n <= |s| && Inserts(piece, wrapped) && Inserts("" + s[n..], out)
    ensures Inserts(piece + s, wrapped + s[..n] + out)
  {
    hide Inserts;
    assert "" + s[n..] == s[n..] && s[..n] + s[n..] == s;
    InsertsAround(piece, wrapped, s[..n], s[n..], out);
  }

  lemma PlainInserts(piece: string, s: string, out: string)
    requires s != "" && Inserts(piece + [s[0]] + s[1..], out)
    ensures Inserts(piece + s, out)
  {
    hide Inserts;
    assert piece + [s[0]] + s[1..] == piece + s;
  }

  lemma EndInserts(piece: string, out: string)
    requires Inserts(piece, out)
    ensures Inserts(piece + "", out)
  {
    hide Inserts;
    assert piece + "" == piece;
  }

  lemma {:induction false} ScanInserts(before: Option<char>, piece: string, s: string)
    ensures Inserts(piece + s, Scan(before, piece, s))
    decreases |s|
  {
    hide Inserts, ProtectedLength, Wrap;
    WrapInserts(None, piece);
    if s == "" {
      EndInserts(piece, Wrap(None, piece));
    } else {
      var n := ProtectedLength(before, s);
      if n > 0 {
        ScanInserts(Some(s[n - 1]), "", s[n..]);
        SpanInserts(piece, Wrap(None, piece), s, n, Scan(Some(s[n - 1]), "", s[n..]));
      } else {
        ScanInserts(Some(s[0]), piece + [s[0]], s[1..]);
        PlainInserts(piece, s, Scan(Some(s[0]), piece + [s[0]], s[1..]));
      }
    }
  }

  /** Neutralising inserts backticks and changes nothing else. */
  lemma NeutralizeInserts(s: string)
    ensures Inserts(s, NeutralizeProse(s))
  {
    ScanInserts(None, "", s);
    assert "" + s == s;
  }

  // ---- What is left unchanged -------------------------------------------------------------------

  predicate NoMention(before: Option<char>, s: string)
    decreases |s|
  {
    s != "" ==> !MentionAt(before, s) && NoMention(Some(s[0]), s[1..])
  }

  lemma {:induction false} WrapGrows(before: Option<char>, s: string)
    ensures |Wrap(before, s)| >= |s|
    ensures |Wrap(before, s)| == |s| <==> NoMention(before, s)
    ensures NoMention(before, s) ==> Wrap(before, s) == s
    decreases |s|
  {
    if s != "" {
      if MentionAt(before, s) {
        WrapGrows(Some(s[MentionLength(s) - 1]), s[MentionLength(s)..]);
      } else {
        WrapGrows(Some(s[0]), s[1..]);
        assert [s[0]] + s[1..] == s;
      }
    }
  }

  /** No mention is live in `s`: none of the pieces between comments and code spans, each
  searched on its own, holds one. */
  predicate NoLiveMention(before: Option<char>, piece: string, s: string)
    decreases |s|
  {
    if s == "" then NoMention(None, piece)
    else
      var n := ProtectedLength(before, s);
      if n > 0 then NoMention(None, piece) && NoLiveMention(Some(s[n - 1]), "", s[n..])
      else NoLiveMention(Some(s[0]), piece + [s[0]], s[1..])
  }

  lemma {:induction false} ScanGrows(before: Option<char>, piece: string, s: string)
    ensures |Scan(before, piece, s)| >= |piece| + |s|
    ensures |Scan(before, piece, s)| == |piece| + |s| <==> NoLiveMention(before, piece, s)
    decreases |s|
  {
    hide ProtectedLength, NoMention, Wrap;
    WrapGrows(None, piece);
    if s != "" {
      var n := ProtectedLength(before, s);
      if n > 0 {
        ScanGrows(Some(s[n - 1]), "", s[n..]);
      } else {
        ScanGrows(Some(s[0]), piece + [s[0]], s[1..]);
      }
    }
  }

  /** Insertions that add no length add nothing. */
  lemma {:induction false} InsertsLonger(s: string, out: string)
    requires Inserts(s, out)
    ensures |out| >= |s| && (|out| == |s| ==> out == s)
    decreases |out|
  {
    if out != "" {
      if s != "" && s[0] == out[0] && Inserts(s[1..], out[1..]) {
        InsertsLonger(s[1..], out[1..]);
      } else {
        InsertsLonger(s, out[1..]);
      }
    }
  }

  /** Any paragraph at all, backticks and comments included, is left as it is exactly when
  no mention is live in it. */
  lemma UnchangedIff(s: string)
    ensures |NeutralizeProse(s)| >= |s|
    ensures |NeutralizeProse(s)| == |s| <==> NeutralizeProse(s) == s
    ensures NeutralizeProse(s) == s <==> NoLiveMention(None, "", s)
  {
    ScanGrows(None, "", s);
    NeutralizeInserts(s);
    InsertsLonger(s, NeutralizeProse(s));
  }
}
