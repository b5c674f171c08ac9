/** The lines that name a subtask: a list marker, an id in brackets, a title. */
module ItemLines {
  import opened Option
  import opened Text

  /** `str.lower`, as far as an id can tell: two letters outside ASCII have lower-case forms
  with an ASCII letter in them, and no form of any other matters. */
  function Lower(c: char): string {
    if 'A' <= c <= 'Z' then [c - 'A' + 'a']
    else if c == '\U{212a}' then "k"
    else if c == '\U{130}' then "i\U{307}"
    else [c]
  }

  function LowerAll(s: string): string {
    if s == "" then "" else Lower(s[0]) + LowerAll(s[1..])
  }

  function Strip(s: string): string
    decreases |s|
  {
    if s != "" && IsSpace(s[0]) then Strip(s[1..])
    else if s != "" && IsSpace(s[|s| - 1]) then Strip(s[..|s| - 1])
    else s
  }

  /** Letters of either case are the same to an id, and what is lower case stays. */
  lemma {:induction false} CaseNeverMatters(a: string, b: string)
    requires |a| == |b| && forall i | 0 <= i < |a| :: a[i] == b[i] || ('A' <= a[i] <= 'Z' && b[i] == a[i] - 'A' + 'a')
    ensures LowerAll(a) == LowerAll(b)
  {
    if a != "" { CaseNeverMatters(a[1..], b[1..]); }
  }

  lemma {:induction false} LowerStays(s: string)
    requires forall i | 0 <= i < |s| :: s[i] < '\U{80}' && !('A' <= s[i] <= 'Z')
    ensures LowerAll(s) == s
  {
    if s != "" { LowerStays(s[1..]); }
  }

  /** `str.strip`: the text less the spaces at either end. */
  lemma {:induction false} StripShape(s: string) returns (a: string, b: string)
    ensures s == a + Strip(s) + b && IsBlank(a) && IsBlank(b)
    ensures Strip(s) != "" ==> !IsSpace(Strip(s)[0]) && !IsSpace(Strip(s)[|Strip(s)| - 1])
    decreases |s|
  {
    hide IsSpace;
    if s != "" && IsSpace(s[0]) {
      a, b := StripShape(s[1..]);
      assert s == [s[0]] + s[1..] && s == [s[0]] + a + Strip(s) + b;
      a := [s[0]] + a;
    } else if s != "" && IsSpace(s[|s| - 1]) {
      a, b := StripShape(s[..|s| - 1]);
      assert s == s[..|s| - 1] + [s[|s| - 1]] && s == a + Strip(s) + (b + [s[|s| - 1]]);
      b := b + [s[|s| - 1]];
    } else {
      a, b := "", "";
      assert s == "" + s + "";
    }
  }

  predicate IsPad(c: char) {
    c in " \t"
  }

  predicate AllPad(s: string) {
    forall i | 0 <= i < |s| :: IsPad(s[i])
  }

  predicate IsDigit(c: char) {
    '0' <= c <= '9'
  }

  function PadLength(s: string): (n: nat)
    ensures n <= |s| && AllPad(s[..n]) && (n < |s| ==> !IsPad(s[n]))
  {
    if s == "" || !IsPad(s[0]) then 0
    else
      var n := PadLength(s[1..]);
      assert s[..n + 1] == [s[0]] + s[1..][..n];
      n + 1
  }

  /** Without the blanks at its end. */
  function Unpadded(s: string): string {
    if s != "" && IsPad(s[|s| - 1]) then Unpadded(s[..|s| - 1]) else s
  }

  function DigitsLength(s: string): (n: nat)
    ensures n <= |s| && (forall i | 0 <= i < n :: IsDigit(s[i])) && (n < |s| ==> !IsDigit(s[n]))
  {
    if s == "" || !IsDigit(s[0]) then 0 else 1 + DigitsLength(s[1..])
  }

  /** A dash, a star, or a number with a dot or a bracket. */
  predicate IsMarker(s: string) {
    || s == "-" || s == "*"
    || (|s| > 1 && s[|s| - 1] in ".)" && forall i | 0 <= i < |s| - 1 :: IsDigit(s[i]))
  }

  /** Length of the list marker `s` starts with; zero when there is none. */
  function MarkerLength(s: string): (n: nat)
    ensures n <= |s| && (n > 0 ==> IsMarker(s[..n]))
  {
    var d := DigitsLength(s);
    if s != "" && s[0] in "-*" then 1
    else if 0 < d < |s| && s[d] in ".)" then d + 1
    else 0
  }

  function CloserAt(s: string): (n: nat)
    ensures n <= |s| && ']' !in s[..n] && (n < |s| ==> s[n] == ']')
  {
    if s == "" || s[0] == ']' then 0
    else
      var n := CloserAt(s[1..]);
      assert s[..n + 1] == [s[0]] + s[1..][..n];
      n + 1
  }

  /** An item as parsed: its id, and its title or, when it has none, its id again. */
  datatype Item = Item(id: string, title: string)

  function ItemFrom(id: string, tail: string): Item {
    var title := Unpadded(tail[PadLength(tail)..]);
    Item(Strip(id), Strip(if title == "" then Strip(id) else title))
  }

  lemma {:induction false} UnpaddedShape(s: string) returns (b: string)
    ensures s == Unpadded(s) + b && AllPad(b)
    ensures Unpadded(s) != "" ==> !IsPad(Unpadded(s)[|Unpadded(s)| - 1])
    decreases |s|
  {
    hide IsPad;
    if s != "" && IsPad(s[|s| - 1]) {
      b := UnpaddedShape(s[..|s| - 1]);
      assert s == s[..|s| - 1] + [s[|s| - 1]] && s == Unpadded(s) + (b + [s[|s| - 1]]);
      b := b + [s[|s| - 1]];
    } else {
      b := "";
      assert s + "" == s;
    }
  }

  /** The title is what the rest holds between its blanks, or the id when that is nothing. */
  lemma TitleShape(id: string, tail: string) returns (a: string, title: string, b: string)
    ensures tail == a + title + b && AllPad(a) && AllPad(b)
    ensures title != "" ==> !IsPad(title[0]) && !IsPad(title[|title| - 1])
    ensures ItemFrom(id, tail).id == Strip(id)
    ensures ItemFrom(id, tail).title == Strip(if title == "" then Strip(id) else title)
  {
    hide IsPad, Strip;
    a := tail[..PadLength(tail)];
    var rest := tail[PadLength(tail)..];
    title := Unpadded(rest);
    b := UnpaddedShape(rest);
    assert tail == a + rest && rest == title + b;
    if title != "" { assert title[0] == rest[0] == tail[PadLength(tail)]; }
  }

  /** What a line says, if it is an item line. */
  function ItemOf(line: string): Option<Item> {
    var a := line[PadLength(line)..];
    var m := MarkerLength(a);
    var b := a[m..][PadLength(a[m..])..];
    if m == 0 || b == "" || b[0] != '[' then None
    else
      var n := CloserAt(b[1..]);
      if n == 0 || n == |b| - 1 then None else Some(ItemFrom(b[1..n + 1], b[n + 2..]))
  }

  /** The line is blanks, a marker, blanks, an id in brackets, and the rest. */
  predicate IsItem(line: string, pad: string, marker: string, gap: string, id: string, tail: string) {
    && line == pad + marker + gap + "[" + id + "]" + tail
    && AllPad(pad) && IsMarker(marker) && AllPad(gap) && id != "" && ']' !in id
  }

  lemma {:induction false} PadLengthOf(pad: string, rest: string)
    requires AllPad(pad) && rest != "" && !IsPad(rest[0])
    ensures PadLength(pad + rest) == |pad| && (pad + rest)[|pad|..] == rest
  {
    if pad == "" {
      assert pad + rest == rest;
    } else {
      assert (pad + rest)[1..] == pad[1..] + rest;
      PadLengthOf(pad[1..], rest);
    }
  }

  lemma {:induction false} DigitsLengthOf(s: string, n: nat)
    requires n < |s| && (forall i | 0 <= i < n :: IsDigit(s[i])) && !IsDigit(s[n])
    ensures DigitsLength(s) == n
  {
    if n > 0 { DigitsLengthOf(s[1..], n - 1); }
  }

  lemma MarkerLengthOf(marker: string, rest: string)
    requires IsMarker(marker)
    ensures MarkerLength(marker + rest) == |marker| && (marker + rest)[|marker|..] == rest && !IsPad(marker[0])
  {
    if marker != "-" && marker != "*" {
      DigitsLengthOf(marker + rest, |marker| - 1);
    }
  }

  lemma {:induction false} CloserAtOf(id: string, tail: string)
    requires ']' !in id
    ensures CloserAt(id + "]" + tail) == |id|
  {
    var s := id + "]" + tail;
    if id != "" {
      assert s[1..] == id[1..] + "]" + tail;
      CloserAtOf(id[1..], tail);
    }
  }

  lemma ItemFound(line: string, pad: string, marker: string, gap: string, id: string, tail: string)
    requires IsItem(line, pad, marker, gap, id, tail)
    ensures ItemOf(line) == Some(ItemFrom(id, tail))
  {
    hide PadLength, MarkerLength, CloserAt, IsMarker, IsPad, ItemFrom;
    var close := id + "]" + tail;
    var b := "[" + close;
    var a := marker + (gap + b);
    assert line == pad + a;
    MarkerLengthOf(marker, gap + b);
    assert a[0] == marker[0] by { MarkerNotEmpty(marker); }
    PadLengthOf(pad, a);
    BracketIsNoPad();
    PadLengthOf(gap, b);
    CloserAtOf(id, tail);
    assert b[1..] == close;
    assert b[1..|id| + 1] == id && b[|id| + 2..] == tail;
    MarkerNotEmpty(marker);
  }

  lemma BracketIsNoPad()
    ensures !IsPad('[')
  {
  }

  lemma MarkerNotEmpty(marker: string)
    requires IsMarker(marker)
    ensures marker != ""
  {
  }

  lemma ItemShape(line: string) returns (pad: string, marker: string, gap: string, id: string, tail: string)
    requires ItemOf(line).Some?
    ensures IsItem(line, pad, marker, gap, id, tail)
  {
    hide MarkerLength, PadLength, CloserAt, IsMarker, AllPad, ItemFrom;
    var p := PadLength(line);
    var a := line[p..];
    var m := MarkerLength(a);
    var g := PadLength(a[m..]);
    var b := a[m..][g..];
    var n := CloserAt(b[1..]);
    pad, marker, gap, id, tail := line[..p], a[..m], a[m..][..g], b[1..n + 1], b[n + 2..];
    assert b[1..][..n] == id;
    InBrackets(b, n);
    Reassembled(line, p, a, m, g, b);
    Regrouped(pad, marker, gap, id, tail);
  }

  lemma InBrackets(b: string, n: nat)
    requires n + 1 < |b| && b[0] == '[' && b[1..][n] == ']'
    ensures b == "[" + b[1..n + 1] + "]" + b[n + 2..]
  {
  }

  lemma Reassembled(line: string, p: nat, a: string, m: nat, g: nat, b: string)
    requires p <= |line| && a == line[p..] && m <= |a| && g <= |a[m..]| && b == a[m..][g..]
    ensures line == line[..p] + (a[..m] + (a[m..][..g] + b))
  {
  }

  lemma Regrouped(pad: string, marker: string, gap: string, id: string, tail: string)
    ensures pad + (marker + (gap + ("[" + id + "]" + tail))) == pad + marker + gap + "[" + id + "]" + tail
  {
  }

  /** A line is an item exactly when it has that form, and then in one way only. */
  lemma ItemIff(line: string)
    ensures ItemOf(line).Some? <==>
      exists pad, marker, gap, id, tail :: IsItem(line, pad, marker, gap, id, tail)
    ensures forall pad, marker, gap, id, tail | IsItem(line, pad, marker, gap, id, tail) ::
      ItemOf(line) == Some(ItemFrom(id, tail))
  {
    hide ItemOf, IsItem, ItemFrom;
    forall pad, marker, gap, id, tail | IsItem(line, pad, marker, gap, id, tail)
      ensures ItemOf(line) == Some(ItemFrom(id, tail))
    {
      ItemFound(line, pad, marker, gap, id, tail);
    }
    if ItemOf(line).Some? {
      var pad, marker, gap, id, tail := ItemShape(line);
    }
  }

  function ItemsOf(lines: seq<string>): seq<Item> {
    if lines == [] then []
    else
      var earlier := ItemsOf(lines[..|lines| - 1]);
      match ItemOf(lines[|lines| - 1])
      case Some(item) => earlier + [item]
      case None => earlier
  }
}
