/** What counts as a bare approval: a whole message that is the phrase and nothing else. */
module Approval {
  import opened Text

  /** Chat decoration trimmed from both ends before anything else. */
  predicate IsTrim(c: char) {
    c in " \t\r\n*_`\"'.!"
  }

  function StripLeft(s: string): string {
    if s != "" && IsTrim(s[0]) then StripLeft(s[1..]) else s
  }

  function StripRight(s: string): string {
    if s != "" && IsTrim(s[|s| - 1]) then StripRight(s[..|s| - 1]) else s
  }

  function SkipSpaces(s: string): (r: string)
    ensures |r| <= |s|
  {
    if s != "" && IsSpace(s[0]) then SkipSpaces(s[1..]) else s
  }

  /** Length of the run of non-spaces `s` starts with. */
  function WordLength(s: string): nat
    ensures WordLength(s) <= |s|
  {
    if s == "" || IsSpace(s[0]) then 0 else 1 + WordLength(s[1..])
  }

  /** `' '.join(s.split())`. */
  function Collapse(s: string): string
    decreases |s|, 1
  {
    CollapseFrom(SkipSpaces(s))
  }

  function CollapseFrom(s: string): string
    decreases |s|, 0
  {
    var n := WordLength(s);
    if n == 0 then "" else
      var rest := SkipSpaces(s[n..]);
      if rest == "" then s[..n] else s[..n] + " " + CollapseFrom(rest)
  }

  function Upper(c: char): char {
    if 'a' <= c <= 'z' then c - 'a' + 'A' else c
  }

  function UpperAll(s: string): (u: string)
    ensures |u| == |s| && forall i | 0 <= i < |s| :: u[i] == Upper(s[i])
  {
    seq(|s|, i requires 0 <= i < |s| => Upper(s[i]))
  }

  /** The text as it is compared with a phrase. */
  function Normalised(text: string): string {
    UpperAll(Collapse(StripRight(StripLeft(text))))
  }

  // ---- The whole message, and nothing else -----------------------------------------

  predicate TrimIn(s: string, i: nat, j: nat)
    requires i <= j <= |s|
  {
    forall k | i <= k < j :: IsTrim(s[k])
  }

  predicate SpaceIn(s: string, i: nat, j: nat)
    requires i <= j <= |s|
  {
    forall k | i <= k < j :: IsSpace(s[k])
  }

  predicate NoSpaceIn(s: string, i: nat, j: nat)
    requires i <= j <= |s|
  {
    forall k | i <= k < j :: !IsSpace(s[k])
  }

  /** A phrase the gate can be given: one word, with nothing trimmable at its ends. */
  predicate OneWord(phrase: string) {
    && phrase != "" && NoSpaceIn(phrase, 0, |phrase|)
    && !IsTrim(phrase[0]) && !IsTrim(phrase[|phrase| - 1])
  }

  /** Decoration, then spaces, then the phrase in either case, then the same mirrored. */
  predicate IsOnly(text: string, phrase: string, a: nat, b: nat, c: nat, d: nat) {
    && a <= b <= c <= d <= |text|
    && TrimIn(text, 0, a) && SpaceIn(text, a, b)
    && UpperAll(text[b..c]) == phrase
    && SpaceIn(text, c, d) && TrimIn(text, d, |text|)
  }

  lemma {:induction false} StripLeftShape(s: string) returns (k: nat)
    ensures k <= |s| && StripLeft(s) == s[k..] && TrimIn(s, 0, k)
    ensures k < |s| ==> !IsTrim(s[k])
  {
    if s != "" && IsTrim(s[0]) {
      var t := s[1..];
      k := StripLeftShape(t);
      assert s[k + 1..] == t[k..];
      assert forall i | 1 <= i < |s| :: s[i] == t[i - 1];
      k := k + 1;
    } else {
      k := 0;
    }
  }

  lemma {:induction false} StripRightShape(s: string) returns (k: nat)
    ensures k <= |s| && StripRight(s) == s[..k] && TrimIn(s, k, |s|)
    ensures k > 0 ==> !IsTrim(s[k - 1])
  {
    if s != "" && IsTrim(s[|s| - 1]) {
      var t := s[..|s| - 1];
      k := StripRightShape(t);
      assert s[..k] == t[..k];
      assert forall i | 0 <= i < |t| :: s[i] == t[i];
    } else {
      k := |s|;
    }
  }

  lemma {:induction false} SkipSpacesShape(s: string) returns (k: nat)
    ensures k <= |s| && SkipSpaces(s) == s[k..] && SpaceIn(s, 0, k)
    ensures k < |s| ==> !IsSpace(s[k])
  {
    if s != "" && IsSpace(s[0]) {
      var t := s[1..];
      k := SkipSpacesShape(t);
      assert s[k + 1..] == t[k..];
      assert forall i | 1 <= i < |s| :: s[i] == t[i - 1];
      k := k + 1;
    } else {
      k := 0;
    }
  }

  lemma {:induction false} WordShape(s: string)
    ensures NoSpaceIn(s, 0, WordLength(s))
    ensures WordLength(s) < |s| ==> IsSpace(s[WordLength(s)])
  {
    if s != "" && !IsSpace(s[0]) {
      var t := s[1..];
      WordShape(t);
      assert forall i | 1 <= i < |s| :: s[i] == t[i - 1];
    }
  }

  /** Collapsing leaves one word, found between spaces, or a text with a space in it. */
  lemma CollapseShape(s: string) returns (b: nat, c: nat)
    ensures b <= c <= |s| && SpaceIn(s, 0, b) && NoSpaceIn(s, b, c)
    ensures b < |s| ==> b < c
    ensures c < |s| ==> IsSpace(s[c])
    ensures if SpaceIn(s, c, |s|) then Collapse(s) == s[b..c] else ' ' in Collapse(s)
  {
    hide IsSpace;
    UpperKeepsKind(' ');
    b := SkipSpacesShape(s);
    var t := s[b..];
    var n := WordLength(t);
    WordShape(t);
    c := b + n;
    assert forall i | b <= i < |s| :: s[i] == t[i - b];
    var u := t[n..];
    assert forall i | c <= i < |s| :: s[i] == u[i - c];
    var k := SkipSpacesShape(u);
    assert s[b..c] == t[..n];
    if n > 0 && SkipSpaces(u) != "" {
      assert !IsSpace(s[c + k]);
      assert Collapse(s)[n] == ' ';
    } else {
      assert n == 0 ==> c == |s|;
    }
  }

  lemma CollapseToWord(s: string, b': nat, c': nat)
    requires b' < c' <= |s| && SpaceIn(s, 0, b') && NoSpaceIn(s, b', c') && SpaceIn(s, c', |s|)
    ensures Collapse(s) == s[b'..c']
  {
    var b, c := CollapseShape(s);
    assert b == b' by {
      assert !IsSpace(s[b']);
      assert b < |s| ==> !IsSpace(s[b]);
    }
    assert c == c' by {
      assert c < |s| ==> IsSpace(s[c]);
      assert c' < |s| ==> IsSpace(s[c']);
    }
  }

  lemma UpperKeepsKind(c: char)
    ensures IsSpace(Upper(c)) <==> IsSpace(c)
    ensures IsTrim(Upper(c)) <==> IsTrim(c)
    ensures IsSpace(' ')
  {
  }

  /** A message passes exactly when it is the phrase, in any case, with nothing around it
  but decoration and spaces: prose never does. */
  lemma NormalisedIffOnly(text: string, phrase: string)
    requires OneWord(phrase)
    ensures Normalised(text) == phrase <==> exists a, b, c, d :: IsOnly(text, phrase, a, b, c, d)
  {
    if Normalised(text) == phrase {
      var a, b, c, d := NormalisedShape(text, phrase);
    }
    if a, b, c, d :| IsOnly(text, phrase, a, b, c, d) {
      OnlyNormalises(text, phrase, a, b, c, d);
    }
  }

  /** What stripping leaves: `text[a..d]`. */
  lemma StripShape(text: string) returns (a: nat, d: nat)
    ensures a <= d <= |text| && StripRight(StripLeft(text)) == text[a..d]
    ensures TrimIn(text, 0, a) && TrimIn(text, d, |text|)
    ensures a < |text| ==> !IsTrim(text[a]) && a < d && !IsTrim(text[d - 1])
  {
    a := StripLeftShape(text);
    var left := text[a..];
    assert forall i | a <= i < |text| :: text[i] == left[i - a];
    var k := StripRightShape(left);
    d := a + k;
    assert left[..k] == text[a..d];
  }

  lemma Within(text: string, a: nat, d: nat, i: nat, j: nat)
    requires a <= d <= |text| && i <= j <= d - a
    ensures text[a..d][i..j] == text[a + i..a + j]
    ensures SpaceIn(text[a..d], i, j) <==> SpaceIn(text, a + i, a + j)
    ensures NoSpaceIn(text[a..d], i, j) <==> NoSpaceIn(text, a + i, a + j)
  {
    hide IsSpace;
    var mid := text[a..d];
    assert forall k | a <= k < d :: text[k] == mid[k - a];
  }

  lemma NoSpaceInWord(word: string, phrase: string)
    requires OneWord(phrase) && UpperAll(word) == phrase
    ensures NoSpaceIn(word, 0, |word|) && ' ' !in word && |word| == |phrase|
    ensures !IsTrim(word[0]) && !IsTrim(word[|word| - 1])
  {
    hide IsSpace, IsTrim, Upper;
    assert |word| == |UpperAll(word)|;
    forall i | 0 <= i < |word| ensures !IsSpace(word[i]) {
      assert phrase[i] == Upper(word[i]);
      UpperKeepsKind(word[i]);
    }
    UpperKeepsKind(word[0]);
    UpperKeepsKind(word[|word| - 1]);
    assert phrase[0] == Upper(word[0]) && phrase[|phrase| - 1] == Upper(word[|word| - 1]);
  }

  lemma NormalisedShape(text: string, phrase: string) returns (a: nat, b: nat, c: nat, d: nat)
    requires OneWord(phrase) && Normalised(text) == phrase
    ensures IsOnly(text, phrase, a, b, c, d)
  {
    hide IsSpace, IsTrim, Upper, UpperAll, Collapse, StripLeft, StripRight, OneWord;
    a, d := StripShape(text);
    var mid := text[a..d];
    NoSpaceInWord(Collapse(mid), phrase);
    var b', c' := CollapseShape(mid);
    b, c := a + b', a + c';
    Within(text, a, d, 0, b');
    Within(text, a, d, b', c');
    Within(text, a, d, c', d - a);
  }

  lemma StripStays(text: string, a': nat, b: nat, c: nat, d': nat, a: nat, d: nat)
    requires a' <= b < c <= d' <= |text| && TrimIn(text, 0, a') && TrimIn(text, d', |text|)
    requires !IsTrim(text[b]) && !IsTrim(text[c - 1])
    requires a <= d <= |text| && TrimIn(text, 0, a) && TrimIn(text, d, |text|)
    requires a < |text| ==> !IsTrim(text[a]) && a < d && !IsTrim(text[d - 1])
    ensures a' <= a <= b && c <= d <= d'
  {
    hide IsTrim;
  }

  lemma MidCollapses(text: string, a: nat, b: nat, c: nat, d: nat)
    requires a <= b < c <= d <= |text|
    requires SpaceIn(text, a, b) && NoSpaceIn(text, b, c) && SpaceIn(text, c, d)
    ensures Collapse(text[a..d]) == text[b..c]
  {
    hide IsSpace, Collapse;
    Within(text, a, d, 0, b - a);
    Within(text, a, d, b - a, c - a);
    Within(text, a, d, c - a, d - a);
    CollapseToWord(text[a..d], b - a, c - a);
  }

  lemma OnlyNormalises(text: string, phrase: string, a': nat, b: nat, c: nat, d': nat)
    requires OneWord(phrase) && IsOnly(text, phrase, a', b, c, d')
    ensures Normalised(text) == phrase
  {
    hide IsSpace, IsTrim, Upper, UpperAll, Collapse, StripLeft, StripRight;
    var word := text[b..c];
    NoSpaceInWord(word, phrase);
    assert NoSpaceIn(text, b, c) by {
      assert forall i | b <= i < c :: text[i] == word[i - b];
    }
    assert text[b] == word[0] && text[c - 1] == word[|word| - 1];
    var a, d := StripShape(text);
    StripStays(text, a', b, c, d', a, d);
    MidCollapses(text, a, b, c, d);
  }

  /** Letters of either case are the same to the comparison, and no other character changes. */
  lemma CaseNeverMatters(a: string, b: string)
    requires |a| == |b|
    requires forall i | 0 <= i < |a| :: a[i] == b[i] || ('a' <= a[i] <= 'z' && b[i] == a[i] - 'a' + 'A')
    ensures UpperAll(a) == UpperAll(b)
    ensures (forall i | 0 <= i < |b| :: !('a' <= b[i] <= 'z')) ==> UpperAll(b) == b
  {
  }

  /** All the decoration a chat message can have around the word. */
  const DECORATION := " \t\r\n*_`\"'.!"

  /** The ways a human types the word pass. */
  lemma AsTypedInChat(word: string)
    requires UpperAll(word) == "APPROVED"
    ensures Normalised(DECORATION + word + DECORATION) == "APPROVED"
    ensures Normalised("**" + word + "**") == "APPROVED"
    ensures Normalised("\"" + word + "\"") == "APPROVED"
    ensures Normalised("" + word + "!") == "APPROVED"
  {
    hide Normalised, UpperAll;
    Typed(DECORATION, word, DECORATION);
    Typed("**", word, "**");
    Typed("\"", word, "\"");
    Typed("", word, "!");
  }

  /** Prose with the word in it does not. */
  lemma ProseIsNoApproval()
    ensures Normalised("looks great, approved!") != "APPROVED"
    ensures Normalised("approved?") != "APPROVED"
  {
    hide Normalised;
    OneWordApproved();
    NormalisedIffOnly("looks great, approved!", "APPROVED");
    NormalisedIffOnly("approved?", "APPROVED");
    if a, b, c, d :| IsOnly("looks great, approved!", "APPROVED", a, b, c, d) {
      OtherStart("looks great, approved!", "APPROVED", a, b, c, d);
    }
    if a, b, c, d :| IsOnly("approved?", "APPROVED", a, b, c, d) {
      OtherEnd("approved?", "APPROVED", a, b, c, d);
    }
  }

  /** Nor one that ends in another character that is not decoration. */
  lemma OtherEnd(text: string, phrase: string, a: nat, b: nat, c: nat, d: nat)
    requires text != "" && phrase != "" && !IsTrim(text[|text| - 1]) && !IsSpace(text[|text| - 1])
    requires Upper(text[|text| - 1]) != phrase[|phrase| - 1]
    ensures !IsOnly(text, phrase, a, b, c, d)
  {
    var n := |text|;
    assert d <= n && TrimIn(text, d, n) ==> d == n;
    assert c <= n && SpaceIn(text, c, n) ==> c == n;
    assert b < n ==> UpperAll(text[b..n])[n - b - 1] == Upper(text[n - 1]);
    assert b < n ==> UpperAll(text[b..n]) != phrase;
  }

  lemma OneWordApproved()
    ensures OneWord("APPROVED")
  {
  }

  lemma Typed(a: string, word: string, b: string)
    requires TrimIn(a, 0, |a|) && TrimIn(b, 0, |b|) && UpperAll(word) == "APPROVED"
    ensures Normalised(a + word + b) == "APPROVED"
  {
    hide Normalised, IsTrim, UpperAll;
    var text := a + word + b;
    OneWordApproved();
    NormalisedIffOnly(text, "APPROVED");
    var i, j := |a|, |a| + |word|;
    assert forall k | 0 <= k < i :: text[k] == a[k];
    assert forall k | j <= k < |text| :: text[k] == b[k - j];
    assert text[i..j] == word;
    assert IsOnly(text, "APPROVED", i, i, j, j);
  }

  /** A message that starts with another letter than the phrase is not the phrase. */
  lemma OtherStart(text: string, phrase: string, a: nat, b: nat, c: nat, d: nat)
    requires text != "" && phrase != "" && !IsTrim(text[0]) && !IsSpace(text[0]) && Upper(text[0]) != phrase[0]
    ensures !IsOnly(text, phrase, a, b, c, d)
  {
    assert a <= |text| && TrimIn(text, 0, a) ==> a == 0;
    assert b <= |text| && SpaceIn(text, 0, b) ==> b == 0;
    assert 0 < c <= |text| ==> UpperAll(text[0..c])[0] == Upper(text[0]);
    assert 0 < c <= |text| ==> UpperAll(text[0..c]) != phrase;
  }
}
