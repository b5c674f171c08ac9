/** Trimming captured output to a budget while keeping the lines that name the failure. */
module SalientTail {
  import opened Text

  /** Python's `s[k:]`. */
  function From(s: string, k: int): string {
    if k >= 0 then (if k <= |s| then s[k..] else "") else if |s| + k >= 0 then s[|s| + k..] else s
  }

  /** Python's `s[:k]`. */
  function Upto(s: string, k: int): string {
    if k >= 0 then (if k <= |s| then s[..k] else s) else if |s| + k >= 0 then s[..|s| + k] else ""
  }

  function JoinLines(lines: seq<string>): string {
    if |lines| == 0 then "" else if |lines| == 1 then lines[0] else lines[0] + "\n" + JoinLines(lines[1..])
  }

  /** What lines cost of the budget: each is charged its newline. */
  function Cost(lines: seq<string>): nat {
    if lines == [] then 0 else |lines[0]| + 1 + Cost(lines[1..])
  }

  function Salient(lines: seq<string>, salient: string -> bool): seq<string> {
    if lines == [] then []
    else (if salient(lines[0]) then [lines[0]] else []) + Salient(lines[1..], salient)
  }

  /** The salient lines a plain tail would lose. */
  function Rescued(text: string, limit: int, salient: string -> bool): seq<string> {
    Salient(Lines(Upto(text, |text| - limit)), salient)
  }

  /** The last `k` lines fit the budget, and one more would not. */
  predicate LongestFit(lines: seq<string>, budget: int, k: nat) {
    && k <= |lines|
    && (k > 0 ==> Cost(lines[|lines| - k..]) <= budget)
    && (k < |lines| ==> Cost(lines[|lines| - k - 1..]) > budget)
  }

  function Note(kept: nat, dropped: nat): string {
    "[" + Decimal(kept) + NoteTail(dropped)
  }

  /** What the note says behind the first count. */
  function NoteTail(dropped: nat): string {
    " line(s)" + " lifted from earlier in the output because they name the failure"
    + (if dropped > 0 then "; " + Decimal(dropped) + " more not shown" else "") + "]"
  }

  const END_MARK: string := "\n\n[end of output:]\n"

  /** Characters left for the plain tail once the lifted lines and the note are paid for. */
  function Room(limit: int, rescued: seq<string>, k: nat): int
    requires k <= |rescued|
  {
    limit - Cost(rescued[|rescued| - k..]) - |Note(k, |rescued| - k)| - 32
  }

  /** The result when the last `k` of the rescued lines are lifted. */
  function Lifted(text: string, limit: int, rescued: seq<string>, k: nat): string
    requires k <= |rescued|
  {
    Note(k, |rescued| - k) + "\n" + JoinLines(rescued[|rescued| - k..]) + END_MARK
    + From(From(text, -limit), -Room(limit, rescued, k))
  }

  lemma {:induction false} CostAppend(a: seq<string>, b: seq<string>)
    ensures Cost(a + b) == Cost(a) + Cost(b)
  {
    if a == [] {
      assert a + b == b;
    } else {
      assert (a + b)[1..] == a[1..] + b;
      CostAppend(a[1..], b);
    }
  }

  /** Fitting is monotone, so what fits and cannot grow is the longest that fits. */
  lemma LongestFitIsLongest(lines: seq<string>, budget: int, k: nat, other: nat)
    requires LongestFit(lines, budget, k)
    requires other <= |lines| && Cost(lines[|lines| - other..]) <= budget
    ensures other <= k
  {
    if other > k {
      var a, b := |lines| - other, |lines| - k - 1;
      assert lines[a..] == lines[a..b] + lines[b..];
      CostAppend(lines[a..b], lines[b..]);
      assert false;
    }
  }

  /** The result of trimming a text over its budget, `k` lines of it lifted. */
  predicate Trims(text: string, limit: int, salient: string -> bool, result: string, k: nat) {
    && |text| > limit
    && LongestFit(Rescued(text, limit, salient), limit / 2, k)
    && result == if k == 0 then From(text, -limit) else Lifted(text, limit, Rescued(text, limit, salient), k)
  }

  method Trim(text: string, limit: int, salient: string -> bool) returns (result: string, kept: nat)
    ensures |text| <= limit ==> result == text && kept == 0
    ensures |text| > limit ==> LongestFit(Rescued(text, limit, salient), limit / 2, kept)
    ensures |text| > limit ==> Trims(text, limit, salient, result, kept)
  {
    hide Lines, Salient, Note, JoinLines, From;
    kept := 0;
    if |text| <= limit {
      return text, 0;
    }
    var tail := From(text, -limit);
    var rescued := Rescued(text, limit, salient);
    if rescued == [] {
      return tail, 0;
    }
    var budget, used := limit / 2, 0;
    while kept < |rescued|
      invariant kept <= |rescued|
      invariant used == Cost(rescued[|rescued| - kept..])
      invariant kept > 0 ==> used <= budget
    {
      var line := rescued[|rescued| - kept - 1];
      assert rescued[|rescued| - kept - 1..] == [line] + rescued[|rescued| - kept..];
      if used + |line| + 1 > budget {
        break;
      }
      kept, used := kept + 1, used + |line| + 1;
    }
    if kept == 0 {
      return tail, 0;
    }
    var lines := rescued[|rescued| - kept..];
    var note := Note(kept, |rescued| - kept);
    result := note + "\n" + JoinLines(lines) + END_MARK + From(tail, -(limit - used - |note| - 32));
  }

  // ---- Which lines are lifted, and where they stand -------------------------------------------

  /** Just the salient lines are rescued, as often as they occur and in their order. */
  lemma {:induction false} SalientAre(lines: seq<string>, salient: string -> bool, line: string)
    ensures multiset(Salient(lines, salient))[line] == if salient(line) then multiset(lines)[line] else 0
  {
    if lines != [] {
      SalientAre(lines[1..], salient, line);
      assert lines == [lines[0]] + lines[1..];
    }
  }

  lemma {:induction false} SalientInOrder(a: seq<string>, b: seq<string>, salient: string -> bool)
    ensures Salient(a + b, salient) == Salient(a, salient) + Salient(b, salient)
  {
    if a == [] {
      assert a + b == b;
    } else {
      assert (a + b)[1..] == a[1..] + b;
      SalientInOrder(a[1..], b, salient);
    }
  }

  /** What is rescued is what the plain tail loses of them: the salient lines among those of
  the text before its last `limit` characters. */
  lemma RescuedAre(text: string, limit: nat, salient: string -> bool, line: string)
    requires limit < |text|
    ensures multiset(Rescued(text, limit, salient))[line] ==
      if salient(line) then multiset(Lines(text[..|text| - limit]))[line] else 0
  {
    hide Lines, Salient;
    SalientAre(Lines(text[..|text| - limit]), salient, line);
  }

  lemma {:induction false} LineAt(lines: seq<string>, j: nat)
    requires j < |lines|
    ensures Cost(lines[..j]) + |lines[j]| <= |JoinLines(lines)|
    ensures JoinLines(lines)[Cost(lines[..j])..Cost(lines[..j]) + |lines[j]|] == lines[j]
  {
    if j == 0 {
      assert lines[..0] == [];
    } else {
      LineAt(lines[1..], j - 1);
      assert lines[..j][1..] == lines[1..][..j - 1];
      var head, rest := lines[0] + "\n", JoinLines(lines[1..]);
      var c := Cost(lines[1..][..j - 1]);
      assert JoinLines(lines) == head + rest;
      assert (head + rest)[|head| + c..|head| + c + |lines[j]|] == rest[c..c + |lines[j]|];
    }
  }

  /** Every lifted line stands behind the note, whole and in reading order. */
  lemma LiftedLineAt(text: string, limit: int, rescued: seq<string>, k: nat, j: nat)
    requires 0 < k <= |rescued| && j < k
    ensures var lifted, lines := Lifted(text, limit, rescued, k), rescued[|rescued| - k..];
      var at := |Note(k, |rescued| - k)| + 1 + Cost(lines[..j]);
      at + |lines[j]| <= |lifted| && lifted[at..at + |lines[j]|] == lines[j]
  {
    hide Note, JoinLines, From, Cost;
    var lines := rescued[|rescued| - k..];
    var head, joined := Note(k, |rescued| - k) + "\n", JoinLines(lines);
    var tail := END_MARK + From(From(text, -limit), -Room(limit, rescued, k));
    LineAt(lines, j);
    assert Lifted(text, limit, rescued, k) == head + joined + tail;
    Sliced(head, joined, tail, Cost(lines[..j]), Cost(lines[..j]) + |lines[j]|);
  }

  lemma Sliced(a: string, b: string, c: string, i: nat, j: nat)
    requires i <= j <= |b|
    ensures (a + b + c)[|a| + i..|a| + j] == b[i..j]
  {
  }

  // ---- How long the result is -----------------------------------------------------------

  lemma {:induction false} JoinLength(lines: seq<string>)
    requires lines != []
    ensures |JoinLines(lines)| == Cost(lines) - 1
  {
    if |lines| > 1 { JoinLength(lines[1..]); }
  }

  lemma {:induction false} DigitsEnd(a: string, b: string, x: string, y: string)
    requires a + x == b + y && x != "" && y != "" && !('0' <= x[0] <= '9') && !('0' <= y[0] <= '9')
    requires forall i | 0 <= i < |a| :: '0' <= a[i] <= '9'
    requires forall i | 0 <= i < |b| :: '0' <= b[i] <= '9'
    ensures a == b && x == y
    decreases |a|
  {
    assert b != "" ==> (b + y)[0] == b[0];
    assert a != "" ==> (a + x)[0] == a[0];
    if a == "" || b == "" {
      assert a + x == x || b + y == y;
      assert a == b == "";
    } else {
      assert (a + x)[1..] == a[1..] + x && (b + y)[1..] == b[1..] + y;
      DigitsEnd(a[1..], b[1..], x, y);
      assert a == [a[0]] + a[1..] && b == [b[0]] + b[1..];
    }
  }

  /** The note tells how many lines were lifted and how many were not: no two notes that differ
  in either are the same. */
  lemma NoteTellsBoth(k: nat, d: nat, k': nat, d': nat)
    requires Note(k, d) == Note(k', d')
    ensures k == k' && d == d'
  {
    hide Decimal;
    NoteParts(k, d);
    NoteParts(k', d');
    assert ("[" + (Decimal(k) + NoteTail(d)))[1..] == Decimal(k) + NoteTail(d);
    assert ("[" + (Decimal(k') + NoteTail(d')))[1..] == Decimal(k') + NoteTail(d');
    DigitsEnd(Decimal(k), Decimal(k'), NoteTail(d), NoteTail(d'));
    DecimalInjective(k, k');
    TailsDiffer(d, d');
  }

  lemma NoteParts(k: nat, d: nat)
    ensures Note(k, d) == "[" + (Decimal(k) + NoteTail(d)) && NoteTail(d)[0] == ' '
  {
    hide Decimal;
    var more := if d > 0 then "; " + Decimal(d) + " more not shown" else "";
    assert NoteTail(d) == " line(s)" + (" lifted from earlier in the output because they name the failure" + more + "]");
    assert "[" + Decimal(k) + NoteTail(d) == "[" + (Decimal(k) + NoteTail(d));
  }

  lemma TailsDiffer(d: nat, d': nat)
    requires NoteTail(d) == NoteTail(d')
    ensures d == d'
  {
    hide Decimal;
    var head := " line(s)" + " lifted from earlier in the output because they name the failure";
    var a, b := NoteTail(d)[|head|..], NoteTail(d')[|head|..];
    assert a == if d > 0 then "; " + Decimal(d) + " more not shown]" else "]";
    assert b == if d' > 0 then "; " + Decimal(d') + " more not shown]" else "]";
    if d > 0 && d' > 0 {
      assert a[2..] == Decimal(d) + " more not shown]" && b[2..] == Decimal(d') + " more not shown]";
      DigitsEnd(Decimal(d), Decimal(d'), " more not shown]", " more not shown]");
      DecimalInjective(d, d');
    } else {
      assert a[0] == b[0];
    }
  }

  lemma NoteIsLong(kept: nat, dropped: nat)
    ensures |Note(kept, dropped)| >= 70
  {
  }

  lemma RoomIsSmall(limit: int, rescued: seq<string>, k: nat)
    requires 0 < k <= |rescued|
    ensures Room(limit, rescued, k) < limit - 100
  {
    hide Note;
    NoteIsLong(k, |rescued| - k);
  }

  lemma LiftedLength(text: string, limit: int, rescued: seq<string>, k: nat)
    requires |text| > limit && 0 < k <= |rescued| && Cost(rescued[|rescued| - k..]) <= limit / 2
    ensures limit >= 2
    ensures var room := Room(limit, rescued, k);
      |Lifted(text, limit, rescued, k)| ==
        limit - 13 - room +
        (if room > 0 then room else if room == 0 then limit else if limit + room > 0 then limit + room else 0)
  {
    JoinLength(rescued[|rescued| - k..]);
    assert |END_MARK| == 19;
    assert |From(text, -limit)| == limit;
  }

  /** The budget is kept exactly when the plain tail had a budget to keep, or the lifted
  lines and the note leave room for some of it. */
  lemma WithinBudgetIff(text: string, limit: int, salient: string -> bool, result: string, k: nat)
    requires Trims(text, limit, salient, result, k)
    ensures |result| <= limit <==> if k == 0 then limit > 0 else Room(limit, Rescued(text, limit, salient), k) > 0
    ensures k > 0 && |result| <= limit ==> |result| == limit - 13
  {
    hide Lines, Salient, Lifted, Note, Room;
    var rescued := Rescued(text, limit, salient);
    if k > 0 {
      LiftedLength(text, limit, rescued, k);
      RoomIsSmall(limit, rescued, k);
    }
  }

  /** How much of the text's end the result keeps. */
  function KeptOfTail(limit: int, rescued: seq<string>, k: nat): int
    requires k <= |rescued|
  {
    if k == 0 then limit else Room(limit, rescued, k)
  }

  /** The result ends with the end of the text; once lines are lifted it keeps over a
  hundred characters less of it than the plain tail does. */
  lemma EndsWithTheTextsEnd(text: string, limit: int, salient: string -> bool, result: string, k: nat)
    requires Trims(text, limit, salient, result, k) && limit > 0
    requires KeptOfTail(limit, Rescued(text, limit, salient), k) > 0
    ensures var n := KeptOfTail(limit, Rescued(text, limit, salient), k);
      && n <= |text| && n <= |result| && result[|result| - n..] == text[|text| - n..]
      && (k > 0 ==> n < limit - 100)
  {
    hide Lines, Salient, JoinLines, Decimal, Note, Lifted, Room;
    if k > 0 {
      LiftedEnd(text, limit, Rescued(text, limit, salient), k);
    }
  }

  lemma LiftedEnd(text: string, limit: int, rescued: seq<string>, k: nat)
    requires |text| > limit > 0 && 0 < k <= |rescued| && Room(limit, rescued, k) > 0
    ensures var n, r := Room(limit, rescued, k), Lifted(text, limit, rescued, k);
      && n <= |text| && n <= |r| && r[|r| - n..] == text[|text| - n..] && n < limit - 100
  {
    hide Lines, Salient, JoinLines, Note, Room;
    var room := Room(limit, rescued, k);
    RoomIsSmall(limit, rescued, k);
    assert From(From(text, -limit), -room) == text[|text| - room..];
  }
}
