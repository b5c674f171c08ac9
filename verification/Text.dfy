/** Characters and lines, as the source's string methods see them. */
module Text {

  /** What `str.strip` and `str.split` drop: ASCII whitespace and the Latin-1 and Unicode
  spaces. */
  predicate IsSpace(c: char) {
    || '\t' <= c <= '\r' || '\U{1c}' <= c <= ' ' || c == '\U{85}' || c == '\U{a0}'
    || c == '\U{1680}' || '\U{2000}' <= c <= '\U{200a}' || c == '\U{2028}' || c == '\U{2029}'
    || c == '\U{202f}' || c == '\U{205f}' || c == '\U{3000}'
  }

  /** The characters for which `str.isspace` holds, one by one. */
  const SPACES: string :=
    "\t\n\U{b}\U{c}\r\U{1c}\U{1d}\U{1e}\U{1f} \U{85}\U{a0}\U{1680}" +
    "\U{2000}\U{2001}\U{2002}\U{2003}\U{2004}\U{2005}\U{2006}\U{2007}\U{2008}\U{2009}\U{200a}" +
    "\U{2028}\U{2029}\U{202f}\U{205f}\U{3000}"

  /** And those `str.splitlines` ends a line at. */
  const BREAKS: string := "\n\U{b}\U{c}\r\U{1c}\U{1d}\U{1e}\U{85}\U{2028}\U{2029}"

  lemma SpacesAre(c: char)
    ensures IsSpace(c) <==> c in SPACES
  {
  }

  lemma BreaksAre(c: char)
    ensures IsBreak(c) <==> c in BREAKS
  {
  }

  predicate AllOf(s: string, c: char) {
    forall i | 0 <= i < |s| :: s[i] == c
  }

  predicate IsBlank(s: string) {
    forall i | 0 <= i < |s| :: IsSpace(s[i])
  }

  /** What `str.splitlines` ends a line at; a carriage return takes a newline with it. */
  predicate IsBreak(c: char) {
    || '\n' <= c <= '\r' || '\U{1c}' <= c <= '\U{1e}' || c == '\U{85}'
    || c == '\U{2028}' || c == '\U{2029}'
  }

  /** `str.splitlines()`. */
  function Lines(s: string): seq<string>
    decreases |s|
  {
    if s == "" then []
    else
      var n := LineLength(s);
      [s[..n]] + Lines(s[n + BreakLength(s[n..])..])
  }

  /** Length of the first line, without its line end. */
  function LineLength(s: string): (n: nat)
    ensures n <= |s| && (n < |s| ==> IsBreak(s[n]))
    ensures forall i | 0 <= i < n :: !IsBreak(s[i])
  {
    if s == "" || IsBreak(s[0]) then 0 else 1 + LineLength(s[1..])
  }

  /** Length of the line end `s` starts with. */
  function BreakLength(s: string): (n: nat)
    requires s == "" || IsBreak(s[0])
    ensures n <= |s| && (s != "" ==> n >= 1)
  {
    if s == "" then 0 else if |s| > 1 && s[0] == '\r' && s[1] == '\n' then 2 else 1
  }

  /** `str(n)`. */
  function Decimal(n: nat): (s: string)
    ensures s != "" && forall i | 0 <= i < |s| :: '0' <= s[i] <= '9'
  {
    var digit := ('0' as int + n % 10) as char;
    if n < 10 then [digit] else Decimal(n / 10) + [digit]
  }

  /** The number a text of decimal digits stands for. */
  function ValueOf(s: string): int {
    if s == "" then 0 else ValueOf(s[..|s| - 1]) * 10 + (s[|s| - 1] as int - '0' as int)
  }

  lemma {:induction false} DecimalValue(n: nat)
    ensures ValueOf(Decimal(n)) == n
  {
    var s := Decimal(n);
    if n >= 10 {
      DecimalValue(n / 10);
      assert s[..|s| - 1] == Decimal(n / 10);
    } else {
      assert s[..|s| - 1] == "";
    }
  }

  /** Different numbers are written differently. */
  lemma DecimalInjective(m: nat, n: nat)
    requires Decimal(m) == Decimal(n)
    ensures m == n
  {
    DecimalValue(m);
    DecimalValue(n);
  }

  function Concat(parts: seq<string>): string {
    if parts == [] then "" else parts[0] + Concat(parts[1..])
  }

  /** `str.splitlines(keepends=True)`. */
  function LinesKept(s: string): (lines: seq<string>)
    ensures Concat(lines) == s
    decreases |s|
  {
    if s == "" then []
    else
      var n := LineLength(s) + BreakLength(s[LineLength(s)..]);
      assert s[..n] + s[n..] == s;
      [s[..n]] + LinesKept(s[n..])
  }

  lemma {:induction false} ConcatAppend(a: seq<string>, b: seq<string>)
    ensures Concat(a + b) == Concat(a) + Concat(b)
  {
    if a == [] {
      assert a + b == b;
    } else {
      assert (a + b)[1..] == a[1..] + b;
      ConcatAppend(a[1..], b);
    }
  }

  lemma ConcatOne(part: string)
    ensures Concat([part]) == part
  {
    assert [part][1..] == [];
  }

  /** A line and its line end, which only the last line may lack. */
  predicate IsKept(kept: string, line: string, last: bool) {
    && |kept| >= |line| && kept[..|line|] == line && (forall i | 0 <= i < |line| :: !IsBreak(line[i]))
    && var end := kept[|line|..];
    || (end == "" && last && line != "")
    || (|end| == 1 && IsBreak(end[0]))
    || end == "\r\n"
  }

  lemma BreakKept(end: string, last: bool)
    requires end == "" || IsBreak(end[0])
    requires last <==> BreakLength(end) == |end|
    ensures var e := end[..BreakLength(end)];
      (e == "" && end == "") || (|e| == 1 && IsBreak(e[0])) || e == "\r\n"
  {
    hide IsBreak;
    if end != "" && BreakLength(end) == 2 { assert end[..2] == "\r\n"; }
  }

  lemma MakeKept(line: string, end: string, last: bool)
    requires forall i | 0 <= i < |line| :: !IsBreak(line[i])
    requires (end == "" && last && line != "") || (|end| == 1 && IsBreak(end[0])) || end == "\r\n"
    ensures IsKept(line + end, line, last)
  {
    hide IsBreak;
    assert (line + end)[..|line|] == line && (line + end)[|line|..] == end;
  }

  lemma Joined(s: string, n: nat, e: nat)
    requires n + e <= |s|
    ensures s[..n + e] == s[..n] + s[n..][..e]
  {
  }

  lemma FirstKept(s: string)
    requires s != ""
    ensures var n := LineLength(s); var m := n + BreakLength(s[n..]);
      m <= |s| && IsKept(s[..m], s[..n], m == |s|)
  {
    hide IsBreak, LineLength, BreakLength, IsKept;
    KeptAt(s, LineLength(s), s[LineLength(s)..]);
  }

  lemma KeptAt(s: string, n: nat, end: string)
    requires s != "" && n <= |s| && end == s[n..] && (forall i | 0 <= i < n :: !IsBreak(s[i]))
    requires end == "" || IsBreak(end[0])
    ensures var e := BreakLength(end); n + e <= |s| && IsKept(s[..n + e], s[..n], n + e == |s|)
  {
    hide IsBreak, BreakLength, IsKept;
    var e := BreakLength(end);
    BreakKept(end, e == |end|);
    Unbroken(s, n);
    MakeKept(s[..n], end[..e], n + e == |s|);
    Joined(s, n, e);
  }

  lemma Unbroken(s: string, n: nat)
    requires n <= |s| && forall i | 0 <= i < n :: !IsBreak(s[i])
    ensures forall i | 0 <= i < |s[..n]| :: !IsBreak(s[..n][i])
  {
    hide IsBreak;
  }

  /** The lines of a text, and the same lines with their line ends, which make the text up. */
  lemma {:induction false} LinesAreKept(s: string)
    ensures |Lines(s)| == |LinesKept(s)|
    ensures forall i | 0 <= i < |Lines(s)| :: IsKept(LinesKept(s)[i], Lines(s)[i], i == |Lines(s)| - 1)
    ensures Concat(LinesKept(s)) == s
    decreases |s|
  {
    hide IsKept, IsBreak;
    if s != "" {
      var n := LineLength(s);
      var m := n + BreakLength(s[n..]);
      FirstKept(s);
      LinesAreKept(s[m..]);
      assert Lines(s)[1..] == Lines(s[m..]) && LinesKept(s)[1..] == LinesKept(s[m..]);
      if m == |s| {
        assert s[m..] == "";
      } else {
        SomeLines(s[m..]);
      }
      forall i | 0 <= i < |Lines(s)| ensures IsKept(LinesKept(s)[i], Lines(s)[i], i == |Lines(s)| - 1) {
        if i > 0 {
          assert Lines(s)[i] == Lines(s[m..])[i - 1] && LinesKept(s)[i] == LinesKept(s[m..])[i - 1];
        }
      }
    }
  }

  lemma SomeLines(s: string)
    requires s != ""
    ensures |Lines(s)| > 0
  {
  }
}
