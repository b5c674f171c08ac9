/** The event stream: lines to frames, and streamed text to replies.

The line format is section 9.2.6 of the WHATWG HTML Living Standard; unlike the
standard, this parser dispatches an event that has no data, and what is pending when the
stream ends.
*/
module Sse {
  import opened Option
  import opened Text

  datatype Frame = Frame(event: Option<string>, data: string)

  /** What has been read since the last blank line. */
  datatype Pending = Pending(event: Option<string>, data: seq<string>)

  const Empty: Pending := Pending(None, [])

  function StripEnd(s: string, c: char): string {
    if s != "" && s[|s| - 1] == c then StripEnd(s[..|s| - 1], c) else s
  }

  /** `raw.rstrip('\n').rstrip('\r')`. */
  function Chomp(raw: string): string {
    StripEnd(StripEnd(raw, '\n'), '\r')
  }

  function ColonAt(line: string): (n: nat)
    ensures n <= |line|
  {
    if line == "" || line[0] == ':' then 0 else 1 + ColonAt(line[1..])
  }

  function Name(line: string): string {
    line[..ColonAt(line)]
  }

  /** After the colon, less one leading space. */
  function Value(line: string): string {
    var rest := if ColonAt(line) < |line| then line[ColonAt(line) + 1..] else "";
    if rest != "" && rest[0] == ' ' then rest[1..] else rest
  }

  function Join(parts: seq<string>): string {
    if |parts| == 0 then "" else if |parts| == 1 then parts[0] else parts[0] + "\n" + Join(parts[1..])
  }

  function Dispatch(p: Pending): seq<Frame> {
    if p.data != [] || p.event.Some? then [Frame(p.event, Join(p.data))] else []
  }

  /** A non-blank line, added to what is pending. */
  function Take(p: Pending, line: string): Pending {
    if line != "" && line[0] == ':' then p
    else if Name(line) == "event" then p.(event := Some(Value(line)))
    else if Name(line) == "data" then p.(data := p.data + [Value(line)])
    else p
  }

  function ParseFrom(p: Pending, lines: seq<string>): seq<Frame>
    decreases |lines|
  {
    if lines == [] then Dispatch(p)
    else
      var line := Chomp(lines[0]);
      if line == "" then Dispatch(p) + ParseFrom(Empty, lines[1..])
      else ParseFrom(Take(p, line), lines[1..])
  }

  method ParseSse(lines: seq<string>) returns (frames: seq<Frame>)
    ensures frames == ParseFrom(Empty, lines)
  {
    var event: Option<string>, data: seq<string> := None, [];
    frames := [];
    for i := 0 to |lines|
      invariant frames + ParseFrom(Pending(event, data), lines[i..]) == ParseFrom(Empty, lines)
    {
      assert lines[i..][1..] == lines[i + 1..];
      var line := Chomp(lines[i]);
      if line == "" {
        if data != [] || event.Some? {
          frames := frames + [Frame(event, Join(data))];
        }
        event, data := None, [];
      } else if line[0] != ':' {
        var field, value := Name(line), Value(line);
        if field == "event" {
          event := Some(value);
        } else if field == "data" {
          data := data + [value];
        }
      }
    }
    if data != [] || event.Some? {
      frames := frames + [Frame(event, Join(data))];
    }
  }

  // ---- Lines that do not matter, and where a stream can be cut ------------------------

  /** A comment can stand anywhere without changing what is parsed. */
  lemma {:induction false} CommentsNeverMatter(p: Pending, a: seq<string>, comment: string, b: seq<string>)
    requires Chomp(comment) != "" && Chomp(comment)[0] == ':'
    ensures ParseFrom(p, a + [comment] + b) == ParseFrom(p, a + b)
    decreases |a|
  {
    var all := a + [comment] + b;
    if a == [] {
      assert all[1..] == b && a + b == b;
    } else {
      assert all[1..] == a[1..] + [comment] + b && (a + b)[1..] == a[1..] + b;
      var line := Chomp(a[0]);
      CommentsNeverMatter(if line == "" then Empty else Take(p, line), a[1..], comment, b);
    }
  }

  /** Parsing splits at any blank line. */
  lemma {:induction false} SplitsAtBlank(p: Pending, a: seq<string>, blank: string, b: seq<string>)
    requires Chomp(blank) == ""
    ensures ParseFrom(p, a + [blank] + b) == ParseFrom(p, a + [blank]) + ParseFrom(Empty, b)
    decreases |a|
  {
    var all := a + [blank] + b;
    if a == [] {
      assert all[1..] == b && ([] + [blank])[1..] == [];
      assert ParseFrom(Empty, []) == [];
    } else {
      assert all[1..] == a[1..] + [blank] + b && (a + [blank])[1..] == a[1..] + [blank];
      var line := Chomp(a[0]);
      SplitsAtBlank(if line == "" then Empty else Take(p, line), a[1..], blank, b);
    }
  }

  // ---- What a line says --------------------------------------------------------------------

  /** A line, less its newlines, less its carriage returns before them. */
  lemma ChompShape(raw: string) returns (returns_: string, newlines: string)
    ensures raw == Chomp(raw) + returns_ + newlines && AllOf(returns_, '\r') && AllOf(newlines, '\n')
    ensures Chomp(raw) != "" ==> Chomp(raw)[|Chomp(raw)| - 1] != '\r'
    ensures returns_ == "" && Chomp(raw) != "" ==> Chomp(raw)[|Chomp(raw)| - 1] != '\n'
  {
    var line := StripEnd(raw, '\n');
    newlines := StripEndShape(raw, '\n');
    returns_ := StripEndShape(line, '\r');
    assert raw == Chomp(raw) + returns_ + newlines;
  }

  lemma {:induction false} StripEndShape(s: string, c: char) returns (end: string)
    ensures s == StripEnd(s, c) + end && AllOf(end, c)
    ensures StripEnd(s, c) != "" ==> StripEnd(s, c)[|StripEnd(s, c)| - 1] != c
    decreases |s|
  {
    if s != "" && s[|s| - 1] == c {
      var t := s[..|s| - 1];
      end := StripEndShape(t, c);
      assert s == t + [c] && s == StripEnd(s, c) + (end + [c]);
      end := end + [c];
    } else {
      end := "";
      assert s + "" == s;
    }
  }

  /** A field is what is before the first colon, and its value what is behind it, less one
  space; a line with no colon is a field with no value. */
  lemma FieldShape(name: string, value: string)
    requires ':' !in name
    ensures Name(name + ":" + value) == name
    ensures Value(name + ":" + value) == if value != "" && value[0] == ' ' then value[1..] else value
    ensures Name(name) == name && Value(name) == ""
  {
    ColonAfter(name, value);
    var line := name + ":" + value;
    assert line[..|name|] == name && line[|name| + 1..] == value;
    NoColon(name);
    assert name[..|name|] == name;
  }

  lemma {:induction false} NoColon(name: string)
    requires ':' !in name
    ensures ColonAt(name) == |name|
  {
    if name != "" { NoColon(name[1..]); }
  }

  /** A line of any field but `event` and `data` can be added or removed anywhere. */
  lemma {:induction false} OtherFieldsNeverMatter(p: Pending, a: seq<string>, other: string, b: seq<string>)
    requires Chomp(other) != "" && Name(Chomp(other)) != "event" && Name(Chomp(other)) != "data"
    ensures ParseFrom(p, a + [other] + b) == ParseFrom(p, a + b)
    decreases |a|
  {
    hide Chomp, Name, Value;
    var all := a + [other] + b;
    if a == [] {
      assert all[1..] == b && a + b == b;
    } else {
      assert all[1..] == a[1..] + [other] + b && (a + b)[1..] == a[1..] + b;
      var line := Chomp(a[0]);
      OtherFieldsNeverMatter(if line == "" then Empty else Take(p, line), a[1..], other, b);
    }
  }

  /** What is pending when the stream ends is dispatched, as a blank line would have it. */
  lemma {:induction false} FlushedAtEnd(p: Pending, lines: seq<string>)
    ensures ParseFrom(p, lines) == ParseFrom(p, lines + [""])
    decreases |lines|
  {
    hide Chomp, Take, Dispatch;
    if lines == [] {
      assert [] + [""] == [""];
      BlankDispatches(p);
    } else {
      assert (lines + [""])[1..] == lines[1..] + [""];
      var line := Chomp(lines[0]);
      FlushedAtEnd(if line == "" then Empty else Take(p, line), lines[1..]);
    }
  }

  /** So a last event is not lost for want of its blank line, with data or without. */
  lemma LastEventIsFlushed(event: string)
    requires Chomp(event) == event
    ensures ParseFrom(Empty, ["event: " + event]) == [Frame(Some(event), "")]
  {
    hide Chomp, Name, Value;
    EventLineParses(event, []);
    assert ["event: " + event] + [] == ["event: " + event];
  }

  // ---- Round trip -----------------------------------------------------------------------

  /** The pieces of a text between its newlines. */
  function Pieces(s: string): seq<string>
    ensures Pieces(s) != []
    decreases |s|
  {
    if s == "" then [""]
    else
      var rest := Pieces(s[1..]);
      if s[0] == '\n' then [""] + rest else [[s[0]] + rest[0]] + rest[1..]
  }

  function DataLines(parts: seq<string>): seq<string> {
    if parts == [] then [] else ["data: " + parts[0]] + DataLines(parts[1..])
  }

  /** A frame as a server writes it: its type, its data line by line, a blank line. */
  function Serialise(f: Frame): seq<string> {
    (if f.event.Some? then ["event: " + f.event.value] else []) + DataLines(Pieces(f.data)) + [""]
  }

  function SerialiseAll(fs: seq<Frame>): seq<string> {
    if fs == [] then [] else Serialise(fs[0]) + SerialiseAll(fs[1..])
  }

  function ChompAll(parts: seq<string>): (r: seq<string>)
    ensures |r| == |parts|
  {
    if parts == [] then [] else [Chomp(parts[0])] + ChompAll(parts[1..])
  }

  /** What the wire does to a frame: line ends at the end of a line are lost. */
  function Cleaned(f: Frame): Frame {
    Frame(if f.event.Some? then Some(Chomp(f.event.value)) else None, Join(ChompAll(Pieces(f.data))))
  }

  lemma {:induction false} ColonAfter(name: string, rest: string)
    requires ':' !in name
    ensures ColonAt(name + ":" + rest) == |name|
  {
    var line := name + ":" + rest;
    if name != "" {
      assert line[1..] == name[1..] + ":" + rest;
      ColonAfter(name[1..], rest);
    }
  }

  lemma {:induction false} StripEndKeepsHead(a: string, s: string, c: char)
    requires a != "" && a[|a| - 1] != c
    ensures StripEnd(a + s, c) == a + StripEnd(s, c)
    decreases |s|
  {
    if s == "" {
      assert a + s == a;
    } else if s[|s| - 1] == c {
      assert (a + s)[..|a + s| - 1] == a + s[..|s| - 1];
      StripEndKeepsHead(a, s[..|s| - 1], c);
    }
  }

  lemma FieldLine(name: string, value: string)
    requires ':' !in name
    ensures var line := Chomp(name + ": " + value);
      line != "" && Name(line) == name && Value(line) == Chomp(value) && (name != "" ==> line[0] != ':')
  {
    var head := name + ": ";
    StripEndKeepsHead(head, value, '\n');
    StripEndKeepsHead(head, StripEnd(value, '\n'), '\r');
    assert head + value == name + ": " + value;
    var line := head + Chomp(value);
    ColonAfter(name, " " + Chomp(value));
    assert line == name + ":" + (" " + Chomp(value));
    assert line[|name| + 1..] == " " + Chomp(value);
  }

  lemma BlankDispatches(p: Pending)
    ensures ParseFrom(p, [""]) == Dispatch(p)
  {
    assert [""][1..] == [] && ParseFrom(Empty, []) == [];
  }

  lemma DataLineParses(p: Pending, piece: string, rest: seq<string>)
    ensures ParseFrom(p, ["data: " + piece] + rest) == ParseFrom(p.(data := p.data + [Chomp(piece)]), rest)
  {
    hide Chomp, Name, Value;
    FieldLine("data", piece);
    assert "data" + ": " + piece == "data: " + piece;
    assert (["data: " + piece] + rest)[1..] == rest;
  }

  lemma {:induction false} DataLinesParse(p: Pending, parts: seq<string>)
    ensures ParseFrom(p, DataLines(parts) + [""]) == Dispatch(p.(data := p.data + ChompAll(parts)))
    decreases |parts|
  {
    hide ParseFrom, Dispatch, Chomp, DataLines, ChompAll;
    if parts == [] {
      NoDataLines(p.data);
      BlankDispatches(p);
    } else {
      OneDataLine(p.data, parts);
      DataLineParses(p, parts[0], DataLines(parts[1..]) + [""]);
      DataLinesParse(p.(data := p.data + [Chomp(parts[0])]), parts[1..]);
    }
  }

  lemma NoDataLines(data: seq<string>)
    ensures DataLines([]) + [""] == [""] && data + ChompAll([]) == data
  {
  }

  lemma OneDataLine(data: seq<string>, parts: seq<string>)
    requires parts != []
    ensures DataLines(parts) + [""] == ["data: " + parts[0]] + (DataLines(parts[1..]) + [""])
    ensures data + [Chomp(parts[0])] + ChompAll(parts[1..]) == data + ChompAll(parts)
  {
  }

  lemma EventLineParses(event: string, body: seq<string>)
    ensures ParseFrom(Empty, ["event: " + event] + body) == ParseFrom(Pending(Some(Chomp(event)), []), body)
  {
    hide Chomp, Name, Value;
    FieldLine("event", event);
    assert "event" + ": " + event == "event: " + event;
    assert (["event: " + event] + body)[1..] == body;
  }

  lemma FrameParses(f: Frame)
    ensures ParseFrom(Empty, Serialise(f)) == [Cleaned(f)]
  {
    hide Chomp, Pieces, ParseFrom, DataLines, Join;
    var body := DataLines(Pieces(f.data)) + [""];
    var data := ChompAll(Pieces(f.data));
    assert [] + data == data != [];
    if f.event.Some? {
      EventLineParses(f.event.value, body);
      assert Serialise(f) == ["event: " + f.event.value] + body;
      DataLinesParse(Pending(Some(Chomp(f.event.value)), []), Pieces(f.data));
    } else {
      assert Serialise(f) == body;
      DataLinesParse(Empty, Pieces(f.data));
    }
  }

  lemma {:induction false} JoinPieces(s: string)
    ensures Join(Pieces(s)) == s
    decreases |s|
  {
    if s != "" {
      JoinPieces(s[1..]);
      var rest := Pieces(s[1..]);
      if s[0] == '\n' {
        assert ([""] + rest)[1..] == rest;
      } else {
        assert ([[s[0]] + rest[0]] + rest[1..])[1..] == rest[1..];
      }
    }
  }

  predicate OneLine(s: string) {
    '\n' !in s
  }

  predicate EventOnOneLine(f: Frame) {
    f.event.Some? ==> OneLine(f.event.value)
  }

  /** The event is one line, and no line of the frame ends in a character the parser takes for
  a line end. */
  predicate Survives(f: Frame) {
    && EventOnOneLine(f)
    && (f.event.Some? ==> Chomp(f.event.value) == f.event.value)
    && forall i | 0 <= i < |Pieces(f.data)| :: Chomp(Pieces(f.data)[i]) == Pieces(f.data)[i]
  }

  lemma {:induction false} ChompShrinks(s: string)
    ensures |Chomp(s)| <= |s| && (|Chomp(s)| == |s| ==> Chomp(s) == s)
  {
    StripEndShrinks(s, '\n');
    StripEndShrinks(StripEnd(s, '\n'), '\r');
  }

  lemma {:induction false} StripEndShrinks(s: string, c: char)
    ensures |StripEnd(s, c)| <= |s| && (|StripEnd(s, c)| == |s| ==> StripEnd(s, c) == s)
  {
    if s != "" && s[|s| - 1] == c { StripEndShrinks(s[..|s| - 1], c); }
  }

  /** Joining chomped pieces gives the same text only if nothing was chomped. */
  lemma {:induction false} JoinChomped(parts: seq<string>)
    ensures |Join(ChompAll(parts))| <= |Join(parts)|
    ensures |Join(ChompAll(parts))| == |Join(parts)| <==> forall i | 0 <= i < |parts| :: Chomp(parts[i]) == parts[i]
    ensures (forall i | 0 <= i < |parts| :: Chomp(parts[i]) == parts[i]) ==> ChompAll(parts) == parts
    decreases |parts|
  {
    if parts != [] {
      ChompShrinks(parts[0]);
      JoinChomped(parts[1..]);
      assert ChompAll(parts)[1..] == ChompAll(parts[1..]);
      assert forall i | 1 <= i < |parts| :: parts[i] == parts[1..][i - 1];
      assert (forall i | 0 <= i < |parts| :: Chomp(parts[i]) == parts[i])
        <==> Chomp(parts[0]) == parts[0] && (forall i | 0 <= i < |parts[1..]| :: Chomp(parts[1..][i]) == parts[1..][i]) by {
        if (forall i | 0 <= i < |parts| :: Chomp(parts[i]) == parts[i]) {
          forall i | 0 <= i < |parts[1..]| ensures Chomp(parts[1..][i]) == parts[1..][i] {
            assert parts[1..][i] == parts[i + 1];
          }
        }
      }
    }
  }

  lemma CleanedIffSurvives(f: Frame)
    requires EventOnOneLine(f)
    ensures Cleaned(f) == f <==> Survives(f)
  {
    JoinPieces(f.data);
    JoinChomped(Pieces(f.data));
  }

  function CleanedAll(fs: seq<Frame>): (r: seq<Frame>)
    ensures |r| == |fs| && forall i | 0 <= i < |fs| :: r[i] == Cleaned(fs[i])
  {
    if fs == [] then [] else [Cleaned(fs[0])] + CleanedAll(fs[1..])
  }

  lemma {:induction false} AllParse(fs: seq<Frame>)
    ensures ParseFrom(Empty, SerialiseAll(fs)) == CleanedAll(fs)
    decreases |fs|
  {
    if fs != [] {
      var one := Serialise(fs[0]);
      var a, rest := one[..|one| - 1], SerialiseAll(fs[1..]);
      assert one == a + [""];
      assert one + rest == a + [""] + rest;
      SplitsAtBlank(Empty, a, "", rest);
      FrameParses(fs[0]);
      AllParse(fs[1..]);
    }
  }

  // ---- The stream the lines come in --------------------------------------------------------

  /** The lines as they are sent, each with its newline. */
  function Wire(lines: seq<string>): string {
    if lines == [] then "" else lines[0] + "\n" + Wire(lines[1..])
  }

  function NewlineAt(s: string): (n: nat)
    ensures n <= |s| && OneLine(s[..n]) && (n < |s| ==> s[n] == '\n')
  {
    if s == "" || s[0] == '\n' then 0
    else
      var n := NewlineAt(s[1..]);
      assert s[..n + 1] == [s[0]] + s[1..][..n];
      n + 1
  }

  /** The lines a response yields: up to and with each newline, and what is left at the end. */
  function Received(text: string): seq<string>
    decreases |text|
  {
    if text == "" then []
    else
      var n := NewlineAt(text);
      if n == |text| then [text] else [text[..n + 1]] + Received(text[n + 1..])
  }

  function WithEnds(lines: seq<string>): seq<string> {
    if lines == [] then [] else [lines[0] + "\n"] + WithEnds(lines[1..])
  }

  predicate AllOneLine(lines: seq<string>) {
    forall i | 0 <= i < |lines| :: OneLine(lines[i])
  }

  lemma {:induction false} NewlineFirst(line: string, rest: string)
    requires OneLine(line)
    ensures NewlineAt(line + "\n" + rest) == |line|
  {
    var s := line + "\n" + rest;
    if line != "" {
      assert s[1..] == line[1..] + "\n" + rest;
      NewlineFirst(line[1..], rest);
    }
  }

  lemma {:induction false} WireIsReceived(lines: seq<string>)
    requires AllOneLine(lines)
    ensures Received(Wire(lines)) == WithEnds(lines)
    decreases |lines|
  {
    if lines != [] {
      var line, rest := lines[0], Wire(lines[1..]);
      NewlineFirst(line, rest);
      assert Wire(lines)[..|line| + 1] == line + "\n" && Wire(lines)[|line| + 1..] == rest;
      WireIsReceived(lines[1..]);
    }
  }

  /** A line's own newline is the parser's to strip. */
  lemma {:induction false} EndsNeverMatter(p: Pending, lines: seq<string>)
    ensures ParseFrom(p, WithEnds(lines)) == ParseFrom(p, lines)
    decreases |lines|
  {
    hide Dispatch, Take;
    if lines != [] {
      var line := Chomp(lines[0]);
      assert (lines[0] + "\n")[..|lines[0]|] == lines[0];
      assert Chomp(lines[0] + "\n") == line;
      assert WithEnds(lines)[1..] == WithEnds(lines[1..]);
      EndsNeverMatter(if line == "" then Empty else Take(p, line), lines[1..]);
    }
  }

  predicate PendingOnOneLine(p: Pending) {
    p.event.Some? ==> OneLine(p.event.value)
  }

  lemma {:induction false} StripsToOneLine(s: string, n: nat)
    requires n <= |s| && OneLine(s[..n]) && forall i | n <= i < |s| :: s[i] == '\n'
    ensures OneLine(StripEnd(s, '\n'))
    decreases |s|
  {
    if |s| > n {
      assert s[..|s| - 1][..n] == s[..n];
      StripsToOneLine(s[..|s| - 1], n);
    } else {
      assert s[..n] == s;
      StripEndIsPart(s, '\n');
    }
  }

  lemma {:induction false} StripEndIsPart(s: string, c: char)
    ensures forall x | x in StripEnd(s, c) :: x in s
  {
    if s != "" && s[|s| - 1] == c { StripEndIsPart(s[..|s| - 1], c); }
  }

  lemma ReceivedIsOneLine(text: string)
    requires text != ""
    ensures OneLine(Chomp(Received(text)[0]))
  {
    var line, n := Received(text)[0], NewlineAt(text);
    assert line[..n] == text[..n];
    StripsToOneLine(line, n);
    StripEndIsPart(StripEnd(line, '\n'), '\r');
  }

  /** Whatever the stream holds, no event that is parsed from it has a newline in it. */
  lemma {:induction false} EventsAreOneLine(p: Pending, text: string)
    requires PendingOnOneLine(p)
    ensures forall i | 0 <= i < |ParseFrom(p, Received(text))| :: EventOnOneLine(ParseFrom(p, Received(text))[i])
    decreases |text|
  {
    hide NewlineAt, Join, Chomp;
    if text != "" {
      var n := NewlineAt(text);
      var lines := Received(text);
      var line := Chomp(lines[0]);
      var rest := if n == |text| then "" else text[n + 1..];
      assert lines[1..] == Received(rest);
      ReceivedIsOneLine(text);
      EventsAreOneLine(Empty, rest);
      TakeKeepsOneLine(p, line);
      EventsAreOneLine(Take(p, line), rest);
    }
  }

  lemma TakeKeepsOneLine(p: Pending, line: string)
    requires PendingOnOneLine(p) && OneLine(line)
    ensures PendingOnOneLine(Take(p, line))
  {
    assert forall x | x in Value(line) :: x in line;
  }

  lemma {:induction false} PiecesAreOneLine(s: string)
    ensures AllOneLine(Pieces(s))
    decreases |s|
  {
    if s != "" { PiecesAreOneLine(s[1..]); }
  }

  lemma {:induction false} DataLinesAreOneLine(parts: seq<string>)
    requires AllOneLine(parts)
    ensures AllOneLine(DataLines(parts))
  {
    if parts != [] { DataLinesAreOneLine(parts[1..]); }
  }

  lemma {:induction false} LinesAreOneLine(fs: seq<Frame>)
    requires forall i | 0 <= i < |fs| :: EventOnOneLine(fs[i])
    ensures AllOneLine(SerialiseAll(fs))
  {
    if fs != [] {
      PiecesAreOneLine(fs[0].data);
      DataLinesAreOneLine(Pieces(fs[0].data));
      assert AllOneLine(Serialise(fs[0]));
      LinesAreOneLine(fs[1..]);
    }
  }

  /** Sending frames and parsing what arrives gives the frames, exactly when every event is
  one line and no line of a frame ends in a line end. */
  lemma {:induction false} RoundTripIff(fs: seq<Frame>)
    ensures ParseFrom(Empty, Received(Wire(SerialiseAll(fs)))) == fs <==> forall i | 0 <= i < |fs| :: Survives(fs[i])
  {
    hide ParseFrom, Received, Wire, SerialiseAll, Cleaned, Chomp, Pieces;
    EventsAreOneLine(Empty, Wire(SerialiseAll(fs)));
    if forall i | 0 <= i < |fs| :: EventOnOneLine(fs[i]) {
      LinesAreOneLine(fs);
      WireIsReceived(SerialiseAll(fs));
      EndsNeverMatter(Empty, SerialiseAll(fs));
      AllParse(fs);
      forall i | 0 <= i < |fs| ensures Cleaned(fs[i]) == fs[i] <==> Survives(fs[i]) {
        CleanedIffSurvives(fs[i]);
      }
      if CleanedAll(fs) == fs {
        forall i | 0 <= i < |fs| ensures Survives(fs[i]) { assert CleanedAll(fs)[i] == fs[i]; }
      }
    }
  }

  // ---- Streamed text ----------------------------------------------------------------------

  /** One text chunk of the stream, and whether it is the last of its message. */
  datatype Chunk = Chunk(delta: Option<string>, final: bool)

  function DeltaOf(chunk: Chunk): string {
    if chunk.delta.Some? then chunk.delta.value else ""
  }

  function Texts(chunks: seq<Chunk>): string {
    if chunks == [] then "" else DeltaOf(chunks[0]) + Texts(chunks[1..])
  }

  lemma {:induction false} TextsAppend(chunks: seq<Chunk>, c: Chunk)
    ensures Texts(chunks + [c]) == Texts(chunks) + DeltaOf(c)
  {
    if chunks != [] {
      assert (chunks + [c])[1..] == chunks[1..] + [c];
      TextsAppend(chunks[1..], c);
    }
  }

  class DeltaBuffer {
    var parts: seq<string>

    constructor ()
      ensures parts == []
    {
      parts := [];
    }

    /** Buffers a chunk; the final one of a message empties the buffer into a reply. */
    method DeltaEvent(chunk: Chunk) returns (reply: Option<string>)
      modifies this
      ensures reply.Some? ==> reply.value != "" && chunk.final
      ensures chunk.final ==> parts == []
      ensures (if reply.Some? then reply.value else "") + Concat(parts) == old(Concat(parts)) + DeltaOf(chunk)
    {
      if chunk.delta.Some? {
        ConcatAppend(parts, [chunk.delta.value]);
        ConcatOne(chunk.delta.value);
        parts := parts + [chunk.delta.value];
      }
      if !chunk.final {
        return None;
      }
      var text := Concat(parts);
      parts := [];
      reply := if text != "" then Some(text) else None;
    }

    /** Over any stream, the replies and the buffer hold all the text that arrived, in order. */
    method ReadChunks(chunks: seq<Chunk>) returns (replies: seq<string>)
      modifies this
      ensures Concat(replies) + Concat(parts) == old(Concat(parts)) + Texts(chunks)
      ensures forall i | 0 <= i < |replies| :: replies[i] != ""
    {
      hide DeltaOf, Texts, Concat;
      replies := [];
      NoText();
      for i := 0 to |chunks|
        invariant Concat(replies) + Concat(parts) == old(Concat(parts)) + Texts(chunks[..i])
        invariant forall j | 0 <= j < |replies| :: replies[j] != ""
      {
        assert chunks[..i + 1] == chunks[..i] + [chunks[i]];
        TextsAppend(chunks[..i], chunks[i]);
        ghost var held, said := Concat(parts), Concat(replies);
        var reply := DeltaEvent(chunks[i]);
        ghost var text := if reply.Some? then reply.value else "";
        if reply.Some? {
          ConcatAppend(replies, [reply.value]);
          ConcatOne(reply.value);
          replies := replies + [reply.value];
        }
        Regroup(said, text, Concat(parts), held, DeltaOf(chunks[i]), old(Concat(parts)), Texts(chunks[..i]));
      }
      assert chunks[..|chunks|] == chunks;
    }
  }

  lemma NoText()
    ensures Concat([]) == "" && Texts([]) == ""
  {
  }

  lemma Regroup(said: string, text: string, left: string, held: string, more: string, first: string, read: string)
    requires text + left == held + more && said + held == first + read
    ensures (said + text) + left == first + (read + more) && said + "" == said
  {
    assert (said + text) + left == said + (held + more);
    assert said + (held + more) == (said + held) + more;
  }
}
