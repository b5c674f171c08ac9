/** Ids that are safe in a branch name and never repeat. */
module SubtaskIds {
  import opened ItemLines
  import opened Option
  import opened Text

  predicate IsIdChar(c: char) {
    'a' <= c <= 'z' || '0' <= c <= '9'
  }

  /** Letters, digits and dashes, and at least one of them. */
  predicate Safe(id: string) {
    id != "" && forall i | 0 <= i < |id| :: IsIdChar(id[i]) || id[i] == '-'
  }

  /** Every run of other characters becomes one dash. */
  function Dashed(lowered: string): string {
    if lowered == "" then ""
    else if IsIdChar(lowered[0]) then [lowered[0]] + Dashed(lowered[1..])
    else
      var rest := Dashed(lowered[1..]);
      if |lowered| > 1 && !IsIdChar(lowered[1]) then rest else "-" + rest
  }

  function StripDashes(s: string): string
    decreases |s|
  {
    if s != "" && s[0] == '-' then StripDashes(s[1..])
    else if s != "" && s[|s| - 1] == '-' then StripDashes(s[..|s| - 1])
    else s
  }

  function Clean(lowered: string): string {
    StripDashes(Dashed(lowered))
  }

  predicate IdChars(s: string) {
    forall i | 0 <= i < |s| :: IsIdChar(s[i]) || s[i] == '-'
  }

  lemma {:induction false} DashedIsSafe(lowered: string)
    ensures IdChars(Dashed(lowered))
  {
    if lowered != "" { DashedIsSafe(lowered[1..]); }
  }

  lemma {:induction false} StripKeepsSafe(s: string)
    requires IdChars(s)
    ensures IdChars(StripDashes(s))
    ensures StripDashes(s) != "" ==> StripDashes(s)[0] != '-' && StripDashes(s)[|StripDashes(s)| - 1] != '-'
    decreases |s|
  {
    if s != "" && s[0] == '-' {
      StripKeepsSafe(s[1..]);
    } else if s != "" && s[|s| - 1] == '-' {
      StripKeepsSafe(s[..|s| - 1]);
    }
  }

  // ---- What cleaning keeps ----------------------------------------------------------------

  /** The letters and digits of a text, in order. */
  function Kept(s: string): string {
    if s == "" then "" else (if IsIdChar(s[0]) then [s[0]] else "") + Kept(s[1..])
  }

  predicate NoDoubleDash(s: string) {
    forall i | 0 < i < |s| :: s[i - 1] != '-' || s[i] != '-'
  }

  /** Single dashes between letters and digits, and none at the ends. */
  predicate Tidy(s: string) {
    IdChars(s) && NoDoubleDash(s) && (s != "" ==> s[0] != '-' && s[|s| - 1] != '-')
  }

  lemma {:induction false} DashedShape(s: string)
    ensures NoDoubleDash(Dashed(s)) && Kept(Dashed(s)) == Kept(s)
    ensures (Dashed(s) == "" <==> s == "") && (s != "" ==> (Dashed(s)[0] == '-' <==> !IsIdChar(s[0])))
    ensures IdChars(s) && NoDoubleDash(s) ==> Dashed(s) == s
  {
    if s != "" {
      DashedShape(s[1..]);
      var d, rest := Dashed(s), Dashed(s[1..]);
      if d != rest {
        assert d == [d[0]] + rest && d[1..] == rest;
      }
      NoDoubleTail(s);
    }
  }

  lemma {:induction false} NoDoubleTail(s: string)
    requires s != ""
    ensures IdChars(s) && NoDoubleDash(s) ==> IdChars(s[1..]) && NoDoubleDash(s[1..])
    ensures forall i | 1 <= i < |s| :: s[i] == s[1..][i - 1]
  {
  }

  lemma {:induction false} KeptDropsDash(s: string)
    requires s != "" && s[|s| - 1] == '-'
    ensures Kept(s[..|s| - 1]) == Kept(s)
  {
    if |s| > 1 {
      assert s[1..][..|s| - 2] == s[..|s| - 1][1..];
      KeptDropsDash(s[1..]);
    }
  }

  lemma {:induction false} StripKeepsKept(s: string)
    ensures Kept(StripDashes(s)) == Kept(s)
    decreases |s|
  {
    if s != "" && s[0] == '-' {
      StripKeepsKept(s[1..]);
    } else if s != "" && s[|s| - 1] == '-' {
      KeptDropsDash(s);
      StripKeepsKept(s[..|s| - 1]);
    }
  }

  lemma {:induction false} StripKeepsSingle(s: string)
    requires NoDoubleDash(s)
    ensures NoDoubleDash(StripDashes(s))
    decreases |s|
  {
    if s != "" && s[0] == '-' {
      StripKeepsSingle(s[1..]);
    } else if s != "" && s[|s| - 1] == '-' {
      StripKeepsSingle(s[..|s| - 1]);
    }
  }

  lemma {:induction false} TidyIsKept(s: string)
    requires IdChars(s) && NoDoubleDash(s)
    ensures |s| > 1 || Tidy(s) ==> (Kept(s) == "" <==> s == "")
  {
    if |s| > 1 {
      if !IsIdChar(s[0]) {
        assert IsIdChar(s[1]);
        assert Kept(s) == Kept(s[1..]);
      }
    } else if s != "" {
      assert s[1..] == "";
    }
  }

  /** Cleaning keeps every letter and digit in order, with single dashes between them, and
  comes to nothing exactly when there are none. */
  lemma CleanIsTidy(lowered: string)
    ensures Tidy(Clean(lowered)) && Kept(Clean(lowered)) == Kept(lowered)
    ensures Clean(lowered) == "" <==> Kept(lowered) == ""
  {
    DashedIsSafe(lowered);
    DashedShape(lowered);
    StripKeepsSafe(Dashed(lowered));
    StripKeepsKept(Dashed(lowered));
    StripKeepsSingle(Dashed(lowered));
    TidyIsKept(Clean(lowered));
  }

  /** Exactly the tidy ids are left as they are. */
  lemma CleanKeepsIff(lowered: string)
    ensures Clean(lowered) == lowered <==> Tidy(lowered)
  {
    CleanIsTidy(lowered);
    DashedShape(lowered);
  }

  /** The names tried for a base, in order: itself, then with a number from 2 on. */
  function Candidate(base: string, k: nat): string {
    if k == 0 then base else base + "-" + Decimal(k + 1)
  }

  /** The second name tried ends in 2, and each after it in the next number. */
  lemma CandidatesCount(base: string, k: nat)
    requires k > 0
    ensures |Candidate(base, k)| > |base| + 1 && Candidate(base, k)[..|base| + 1] == base + "-"
    ensures ValueOf(Candidate(base, k)[|base| + 1..]) == k + 1
  {
    DecimalValue(k + 1);
    assert Candidate(base, k)[|base| + 1..] == Decimal(k + 1);
  }

  lemma CandidatesDiffer(base: string, j: nat, k: nat)
    requires Candidate(base, j) == Candidate(base, k)
    ensures j == k
  {
    var stem := base + "-";
    if j > 0 && k > 0 {
      assert Candidate(base, j)[|stem|..] == Decimal(j + 1) && Candidate(base, k)[|stem|..] == Decimal(k + 1);
      DecimalInjective(j + 1, k + 1);
    }
  }

  lemma CandidateIsSafe(base: string, k: nat)
    requires Safe(base)
    ensures Safe(Candidate(base, k))
  {
    var digits := Decimal(k + 1);
  }

  /** Candidate `k` is the first not taken, and no more were tried than names are taken. */
  predicate FirstFree(base: string, seen: set<string>, k: nat) {
    && Candidate(base, k) !in seen
    && (forall j | 0 <= j < k :: Candidate(base, j) in seen)
    && k <= |seen|
  }

  /** Names differ and only so many are taken, so the search ends. */
  method UniqueId(base: string, seen: set<string>) returns (id: string, k: nat)
    ensures id == Candidate(base, k) && FirstFree(base, seen, k)
  {
    id, k := base, 0;
    ghost var tried: set<string> := {};
    while id in seen
      invariant id == Candidate(base, k)
      invariant tried <= seen && |tried| == k
      invariant forall s | s in tried :: exists j | 0 <= j < k :: s == Candidate(base, j)
      invariant forall j | 0 <= j < k :: Candidate(base, j) in seen
      decreases |seen| - |tried|
    {
      if id in tried {
        var j :| 0 <= j < k && id == Candidate(base, j);
        CandidatesDiffer(base, j, k);
        assert false;
      }
      tried := tried + {id};
      SubsetSize(tried, seen);
      k := k + 1;
      id := base + "-" + Decimal(k + 1);
    }
    SubsetSize(tried, seen);
  }

  lemma {:induction false} SubsetSize<T>(a: set<T>, b: set<T>)
    requires a <= b
    ensures |a| <= |b|
  {
    if a != {} {
      var x :| x in a;
      SubsetSize(a - {x}, b - {x});
    }
  }

  datatype Subtask = Subtask(id: string, title: string)

  /** What the items of a text stand for when theirs sanitise to nothing: their position. */
  function BaseOf(item: Item, position: nat): string {
    if Clean(LowerAll(item.id)) != "" then Clean(LowerAll(item.id)) else "s" + Decimal(position)
  }

  /** Subtask `i` is called after its own id, or its position when that cleans to nothing, as
  long as no earlier subtask is. */
  predicate KeepsItsName(items: seq<Item>, out: seq<Subtask>, i: nat)
    requires i < |out| <= |items|
  {
    var clean := Clean(LowerAll(items[i].id));
    && (clean != "" && (forall j | 0 <= j < i :: out[j].id != clean) ==> out[i].id == clean)
    && (clean == "" && (forall j | 0 <= j < i :: out[j].id != "s" + Decimal(i)) ==> out[i].id == "s" + Decimal(i))
  }

  /** An id no earlier subtask has is kept as it was cleaned; one that cleans to nothing is
  called after its position, if that is free. */
  lemma FreeNameIsKept(items: seq<Item>, out: seq<Subtask>, i: nat)
    requires i < |out| <= |items| && FirstFreeName(items, out, i)
    ensures KeepsItsName(items, out, i)
  {
    var base := BaseOf(items[i], i);
    var k: nat :| k <= i && NamedInTurn(items, out, i, k);
    if forall j | 0 <= j < i :: out[j].id != base {
      assert base !in IdsOf(out[..i]) && base == Candidate(base, 0);
    }
  }

  lemma BaseIsSafe(item: Item, position: nat)
    ensures Safe(BaseOf(item, position))
  {
    DashedIsSafe(LowerAll(item.id));
    StripKeepsSafe(Dashed(LowerAll(item.id)));
  }

  function IdsOf(out: seq<Subtask>): set<string> {
    set i | 0 <= i < |out| :: out[i].id
  }

  /** Subtask `i` has the first free name for its item among those before it. */
  predicate NamedInTurn(items: seq<Item>, out: seq<Subtask>, i: nat, k: nat)
    requires i < |items| && |out| <= |items| && i < |out|
  {
    && out[i].id == Candidate(BaseOf(items[i], i), k)
    && FirstFree(BaseOf(items[i], i), IdsOf(out[..i]), k)
  }

  ghost predicate FirstFreeName(items: seq<Item>, out: seq<Subtask>, i: nat)
    requires i < |out| <= |items|
  {
    exists k: nat | k <= i :: NamedInTurn(items, out, i, k)
  }

  lemma NoIds()
    ensures IdsOf([]) == {}
  {
  }

  lemma IdsAppend(out: seq<Subtask>, s: Subtask)
    ensures IdsOf(out + [s]) == IdsOf(out) + {s.id}
    ensures s.id !in IdsOf(out) ==> forall i | 0 <= i < |out| :: out[i].id != s.id
  {
    var out' := out + [s];
    assert out'[|out|] == s;
    forall id | id in IdsOf(out) ensures id in IdsOf(out') {
      var i :| 0 <= i < |out| && out[i].id == id;
      assert out'[i].id == id;
    }
  }

  lemma StillFirstFree(items: seq<Item>, out: seq<Subtask>, s: Subtask, i: nat)
    requires i < |out| < |items| && FirstFreeName(items, out, i)
    ensures FirstFreeName(items, out + [s], i)
  {
    var k: nat :| k <= i && NamedInTurn(items, out, i, k);
    assert (out + [s])[..i] == out[..i];
    assert NamedInTurn(items, out + [s], i, k);
  }

  lemma AllStillFirstFree(items: seq<Item>, out: seq<Subtask>, s: Subtask)
    requires |out| < |items| && forall i | 0 <= i < |out| :: FirstFreeName(items, out, i)
    ensures forall i | 0 <= i < |out| :: FirstFreeName(items, out + [s], i)
  {
    hide FirstFreeName;
    forall i | 0 <= i < |out| ensures FirstFreeName(items, out + [s], i) {
      StillFirstFree(items, out, s, i);
    }
  }

  /** What the subtasks of the items so far look like. */
  ghost predicate Named(items: seq<Item>, out: seq<Subtask>) {
    && |out| == |items|
    && (forall i | 0 <= i < |out| :: Safe(out[i].id) && out[i].title == items[i].title)
    && (forall i, j | 0 <= i < j < |out| :: out[i].id != out[j].id)
    && forall i | 0 <= i < |out| :: FirstFreeName(items, out, i)
  }

  lemma NameNext(items: seq<Item>, out: seq<Subtask>, item: Item, s: Subtask, k: nat)
    requires Named(items, out) && s.title == item.title && k <= |out|
    requires s.id == Candidate(BaseOf(item, |out|), k) && FirstFree(BaseOf(item, |out|), IdsOf(out), k)
    ensures Named(items + [item], out + [s])
  {
    hide Safe, Candidate, BaseOf, FirstFreeName, IdsOf;
    var items', out' := items + [item], out + [s];
    BaseIsSafe(item, |out|);
    CandidateIsSafe(BaseOf(item, |out|), k);
    SameNames(items, out, item);
    NamedNow(items', out, s, k);
    AllStillFirstFree(items', out, s);
    IdsAppend(out, s);
  }

  /** Later items do not change what the earlier ones are called. */
  lemma SameNames(items: seq<Item>, out: seq<Subtask>, item: Item)
    requires |out| == |items| && forall i | 0 <= i < |out| :: FirstFreeName(items, out, i)
    ensures forall i | 0 <= i < |out| :: FirstFreeName(items + [item], out, i)
  {
    hide FirstFree, BaseOf, Candidate;
    forall i | 0 <= i < |out| ensures FirstFreeName(items + [item], out, i) {
      assert FirstFreeName(items, out, i);
      var k: nat :| k <= i && NamedInTurn(items, out, i, k);
      assert (items + [item])[i] == items[i];
      assert NamedInTurn(items + [item], out, i, k);
    }
  }

  /** One subtask an item line, in order, with safe ids that never repeat. */
  method ParseSubtaskItems(text: string) returns (out: seq<Subtask>)
    ensures var items := ItemsOf(Lines(text));
      && |out| == |items|
      && (forall i | 0 <= i < |out| :: Safe(out[i].id) && out[i].title == items[i].title)
      && (forall i, j | 0 <= i < j < |out| :: out[i].id != out[j].id)
      && (forall i | 0 <= i < |out| :: FirstFreeName(items, out, i))
      && forall i | 0 <= i < |out| :: KeepsItsName(items, out, i)
  {
    hide Safe, Candidate, BaseOf, FirstFreeName, IdsOf, ItemOf, Lines, KeepsItsName;
    var lines := Lines(text);
    out := [];
    var seen: set<string> := {};
    NoIds();
    for n := 0 to |lines|
      invariant Named(ItemsOf(lines[..n]), out)
      invariant seen == IdsOf(out) && |seen| <= |out|
    {
      assert lines[..n + 1][..n] == lines[..n];
      var item := ItemOf(lines[n]);
      if item.Some? {
        var id, k := UniqueId(BaseOf(item.value, |out|), seen);
        var s := Subtask(id, item.value.title);
        NameNext(ItemsOf(lines[..n]), out, item.value, s, k);
        IdsAppend(out, s);
        out := out + [s];
        seen := seen + {id};
      }
    }
    assert lines[..|lines|] == lines;
    forall i | 0 <= i < |out| ensures KeepsItsName(ItemsOf(lines), out, i) { FreeNameIsKept(ItemsOf(lines), out, i); }
  }

  lemma NamedNow(items: seq<Item>, out: seq<Subtask>, s: Subtask, k: nat)
    requires |out| < |items| && k <= |out|
    requires s.id == Candidate(BaseOf(items[|out|], |out|), k)
    requires FirstFree(BaseOf(items[|out|], |out|), IdsOf(out), k)
    ensures FirstFreeName(items, out + [s], |out|)
  {
    assert (out + [s])[..|out|] == out;
    assert NamedInTurn(items, out + [s], |out|, k);
  }
}
