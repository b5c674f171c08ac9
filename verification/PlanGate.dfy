/** The gate between a plan and the build: which message releases it, and when it gives up. */
module PlanGate {
  import opened Approval
  import opened Items
  import opened Option

  /** How many of the newest items a poll reads. */
  const TAIL: nat := 200

  datatype Decision = Decision(plan: string, phrase: string)

  function Window(store: seq<Item>): seq<Item> {
    if |store| <= TAIL then store else store[|store| - TAIL..]
  }

  function Ids(items: seq<Item>): set<string> {
    set i | 0 <= i < |items| && items[i].id.Some? :: items[i].id.value
  }

  /** A user message that may release the gate: bare, and not seen when the wait began. */
  predicate Releases(item: Item, phrases: set<string>, seen: set<string>) {
    && item.body.Message? && item.body.role == User
    && (item.id.Some? ==> item.id.value !in seen)
    && Normalised(item.body.text) in phrases
  }

  predicate SaysPlan(item: Item) {
    item.body.Message? && item.body.role == Assistant && item.body.text != ""
  }

  predicate NoReleaseIn(items: seq<Item>, phrases: set<string>, seen: set<string>, i: nat, j: nat)
    requires i <= j <= |items|
  {
    forall k | i <= k < j :: !Releases(items[k], phrases, seen)
  }

  predicate NoPlanIn(items: seq<Item>, i: nat, j: nat)
    requires i <= j <= |items|
  {
    forall k | i <= k < j :: !SaysPlan(items[k])
  }

  /** Item `i` is the last that releases, and `p` the last plan before it. */
  predicate ApprovedAt(items: seq<Item>, phrases: set<string>, seen: set<string>, p: nat, i: nat) {
    && p < i < |items|
    && Releases(items[i], phrases, seen) && NoReleaseIn(items, phrases, seen, i + 1, |items|)
    && SaysPlan(items[p]) && NoPlanIn(items, p + 1, i)
  }

  /** The decision the items hold, if they hold one. */
  ghost predicate IsDecision(items: seq<Item>, phrases: set<string>, seen: set<string>, turn: Option<Decision>) {
    if turn.None? then forall p: nat, i: nat :: !ApprovedAt(items, phrases, seen, p, i)
    else exists p: nat, i: nat :: (
      && ApprovedAt(items, phrases, seen, p, i)
      && turn.value == Decision(items[p].body.text, Normalised(items[i].body.text)))
  }

  method ApprovalTurn(items: seq<Item>, phrases: set<string>, seen: set<string>) returns (turn: Option<Decision>)
    ensures IsDecision(items, phrases, seen, turn)
  {
    var approval := -1;
    for k := 0 to |items|
      invariant -1 <= approval < k
      invariant approval >= 0 ==> Releases(items[approval], phrases, seen)
      invariant NoReleaseIn(items, phrases, seen, approval + 1, k)
    {
      if Releases(items[k], phrases, seen) {
        approval := k;
      }
    }
    if approval < 0 {
      return None;
    }
    var p := approval;
    while p > 0
      invariant 0 <= p <= approval
      invariant NoPlanIn(items, p, approval)
    {
      p := p - 1;
      if SaysPlan(items[p]) {
        assert ApprovedAt(items, phrases, seen, p, approval);
        return Some(Decision(items[p].body.text, Normalised(items[approval].body.text)));
      }
    }
    turn := None;
  }

  /** What the first read rules out: nothing at all when it failed. */
  function Baseline(first: Option<seq<Item>>): set<string> {
    if first.Some? then Ids(Window(first.value)) else {}
  }

  // ---- What the window cannot hide ----------------------------------------------------

  /** Items are only ever added, at the end. */
  predicate Grew(before: seq<Item>, after: seq<Item>) {
    before <= after
  }

  predicate AllIdentified(store: seq<Item>) {
    forall i | 0 <= i < |store| :: store[i].id.Some?
  }

  /** An old item the later window still shows was in the first window too. */
  lemma SeenAtBaseline(before: seq<Item>, after: seq<Item>, i: nat)
    requires Grew(before, after) && AllIdentified(before)
    requires |after| - |Window(after)| <= i < |before|
    ensures after[i].id.Some? && after[i].id.value in Ids(Window(before))
  {
    var j := i - (|before| - |Window(before)|);
    assert Window(before)[j] == before[i] == after[i];
  }

  /** Item `i` of the session is a user message added after `before` that is the phrase of the
  decision, and item `p` the last plan said before it. */
  predicate NewTurn(before: seq<Item>, after: seq<Item>, phrases: set<string>, decision: Decision, p: nat, i: nat) {
    && |before| <= i < |after| && p < i
    && after[i].body.Message? && after[i].body.role == User
    && Normalised(after[i].body.text) == decision.phrase && decision.phrase in phrases
    && SaysPlan(after[p]) && after[p].body.text == decision.plan && NoPlanIn(after, p + 1, i)
  }

  /** Only a message added after the baseline read releases the gate, whatever scrolled out
  of either window, and the plan is the last one said before it in the whole session. */
  lemma OnlyNewTurnsRelease(before: seq<Item>, after: seq<Item>, phrases: set<string>, decision: Decision)
      returns (p: nat, i: nat)
    requires Grew(before, after) && AllIdentified(before)
    requires IsDecision(Window(after), phrases, Baseline(Some(before)), Some(decision))
    ensures NewTurn(before, after, phrases, decision, p, i)
  {
    var p': nat, i': nat :| ApprovedAt(Window(after), phrases, Baseline(Some(before)), p', i')
      && decision == Decision(Window(after)[p'].body.text, Normalised(Window(after)[i'].body.text));
    p, i := NewTurnAt(before, after, phrases, p', i');
  }

  /** Where the window's items stand in the whole session. */
  lemma NewTurnAt(before: seq<Item>, after: seq<Item>, phrases: set<string>, p': nat, i': nat)
      returns (p: nat, i: nat)
    requires Grew(before, after) && AllIdentified(before)
    requires ApprovedAt(Window(after), phrases, Baseline(Some(before)), p', i')
    ensures |before| <= i < |after| && p < i
    ensures after[i] == Window(after)[i'] && after[p] == Window(after)[p']
    ensures NoPlanIn(after, p + 1, i)
  {
    hide Normalised, Window, Baseline, Releases, NoReleaseIn;
    var items := Window(after);
    var off := |after| - |items|;
    WindowIsEnd(after);
    p, i := off + p', off + i';
    assert items[i'] == after[i];
    if i < |before| {
      SeenIsScreened(before, after, phrases, i);
      assert false;
    }
    forall k | p + 1 <= k < i ensures !SaysPlan(after[k]) {
      assert items[k - off] == after[k];
    }
  }

  lemma WindowIsEnd(store: seq<Item>)
    ensures |Window(store)| <= |store|
    ensures forall k | 0 <= k < |Window(store)| :: Window(store)[k] == store[|store| - |Window(store)| + k]
  {
  }

  lemma SeenIsScreened(before: seq<Item>, after: seq<Item>, phrases: set<string>, i: nat)
    requires Grew(before, after) && AllIdentified(before)
    requires |after| - |Window(after)| <= i < |before|
    ensures !Releases(after[i], phrases, Baseline(Some(before)))
  {
    hide Normalised;
    SeenAtBaseline(before, after, i);
  }

  // ---- A new approval opens the gate ---------------------------------------------------------

  /** A user message that is nothing but one of the phrases. */
  predicate IsPhrase(item: Item, phrases: set<string>) {
    item.body.Message? && item.body.role == User && Normalised(item.body.text) in phrases
  }

  /** Item `i` is the session's last bare approval, added after `before`; item `p` is the last
  non-empty assistant message before it; and the 200 newest items hold both. */
  predicate NewApproval(before: seq<Item>, store: seq<Item>, phrases: set<string>, p: nat, i: nat) {
    && p < i < |store| && |before| <= i && |store| - 200 <= p
    && IsPhrase(store[i], phrases) && (forall k | i < k < |store| :: !IsPhrase(store[k], phrases))
    && store[p].body.Message? && store[p].body.role == Assistant && store[p].body.text != ""
    && forall k | p < k < i :: !(store[k].body.Message? && store[k].body.role == Assistant && store[k].body.text != "")
  }

  /** No item added after `before` has the id of one of its items. */
  predicate NewIds(before: seq<Item>, store: seq<Item>) {
    forall j, k | 0 <= j < |before| <= k < |store| && store[k].id.Some? :: before[j].id != store[k].id
  }

  /** What the first read screens, an item with a new id escapes. */
  lemma NewIsUnseen(before: seq<Item>, store: seq<Item>, i: nat)
    requires NewIds(before, store) && |before| <= i < |store| && store[i].id.Some?
    ensures store[i].id.value !in Baseline(Some(before))
  {
    WindowIsEnd(before);
  }

  /** The decision on a new approval is that approval and the plan before it. */
  lemma NewApprovalReleases(before: seq<Item>, store: seq<Item>, phrases: set<string>, p: nat, i: nat,
      turn: Option<Decision>)
    requires Grew(before, store) && NewIds(before, store) && NewApproval(before, store, phrases, p, i)
    requires IsDecision(Window(store), phrases, Baseline(Some(before)), turn)
    ensures turn == Some(Decision(store[p].body.text, Normalised(store[i].body.text)))
  {
    hide Normalised, Baseline, IsDecision;
    var items, seen := Window(store), Baseline(Some(before));
    var off := |store| - |items|;
    NewApprovalAt(before, store, phrases, p, i);
    DecisionAt(items, phrases, seen, p - off, i - off, turn);
    WindowIsEnd(store);
  }

  /** `items` are the items of `store` from `off` on. */
  predicate EndOf(items: seq<Item>, store: seq<Item>, off: nat) {
    off + |items| == |store| && forall k | 0 <= k < |items| :: items[k] == store[off + k]
  }

  lemma NoneReleasesAfter(items: seq<Item>, store: seq<Item>, off: nat, phrases: set<string>, seen: set<string>, i: nat)
    requires EndOf(items, store, off) && off <= i < |store|
    requires forall k | i < k < |store| :: !IsPhrase(store[k], phrases)
    ensures NoReleaseIn(items, phrases, seen, i - off + 1, |items|)
  {
    hide Normalised;
    forall k | i - off + 1 <= k < |items| ensures !Releases(items[k], phrases, seen) {
      assert items[k] == store[off + k] && !IsPhrase(store[off + k], phrases);
    }
  }

  lemma NoPlanBetween(items: seq<Item>, store: seq<Item>, off: nat, p: nat, i: nat)
    requires EndOf(items, store, off) && off <= p < i < |store|
    requires forall k | p < k < i :: !SaysPlan(store[k])
    ensures NoPlanIn(items, p - off + 1, i - off)
  {
    forall k | p - off + 1 <= k < i - off ensures !SaysPlan(items[k]) {
      assert items[k] == store[off + k];
    }
  }

  lemma NewApprovalAt(before: seq<Item>, store: seq<Item>, phrases: set<string>, p: nat, i: nat)
    requires Grew(before, store) && NewIds(before, store) && NewApproval(before, store, phrases, p, i)
    ensures var off := |store| - |Window(store)|;
      off <= p && ApprovedAt(Window(store), phrases, Baseline(Some(before)), p - off, i - off)
  {
    hide Normalised, Baseline, NewIds, NoReleaseIn, NoPlanIn, Window, EndOf;
    var items, seen := Window(store), Baseline(Some(before));
    var off := WindowEnds(store);
    if store[i].id.Some? { NewIsUnseen(before, store, i); }
    EndAt(items, store, off, i);
    EndAt(items, store, off, p);
    NoneReleasesAfter(items, store, off, phrases, seen, i);
    NoPlanBetween(items, store, off, p, i);
  }

  lemma WindowEnds(store: seq<Item>) returns (off: nat)
    ensures |Window(store)| <= |store| && off == |store| - |Window(store)|
    ensures EndOf(Window(store), store, off) && (off == 0 || off == |store| - 200)
  {
    off := |store| - |Window(store)|;
    WindowIsEnd(store);
  }

  lemma EndAt(items: seq<Item>, store: seq<Item>, off: nat, k: nat)
    requires EndOf(items, store, off) && off <= k < |store|
    ensures k - off < |items| && items[k - off] == store[k]
  {
  }

  /** Items hold at most one decision. */
  lemma DecisionAt(items: seq<Item>, phrases: set<string>, seen: set<string>, p: nat, i: nat, turn: Option<Decision>)
    requires ApprovedAt(items, phrases, seen, p, i) && IsDecision(items, phrases, seen, turn)
    ensures turn == Some(Decision(items[p].body.text, Normalised(items[i].body.text)))
  {
    hide Normalised;
    if turn.None? {
      assert false;
    } else {
      var p': nat, i': nat :| ApprovedAt(items, phrases, seen, p', i')
        && turn.value == Decision(items[p'].body.text, Normalised(items[i'].body.text));
      assert i == i' && p == p';
    }
  }

  /** On a session nothing was added to, the gate releases exactly on what the baseline
  fails to screen: every bare message when the read failed, else those without an id. */
  lemma QuietSessionReleasesIff(store: seq<Item>, phrases: set<string>, read: bool)
    ensures var items, seen := Window(store), Baseline(if read then Some(store) else None);
      (exists p: nat, i: nat :: ApprovedAt(items, phrases, seen, p, i))
      <==> (exists p: nat, i: nat :: Unscreened(items, phrases, read, p, i))
  {
    var items := Window(store);
    var seen := Baseline(if read then Some(store) else None);
    assert forall k | 0 <= k < |items| :: Releases(items[k], phrases, seen) <==> Bare(items[k], phrases, read);
    if p: nat, i: nat :| ApprovedAt(items, phrases, seen, p, i) {
      assert Unscreened(items, phrases, read, p, i);
    }
    if p: nat, i: nat :| Unscreened(items, phrases, read, p, i) {
      assert ApprovedAt(items, phrases, seen, p, i);
    }
  }

  predicate Bare(item: Item, phrases: set<string>, read: bool) {
    && item.body.Message? && item.body.role == User && (read ==> item.id.None?)
    && Normalised(item.body.text) in phrases
  }

  predicate Unscreened(items: seq<Item>, phrases: set<string>, read: bool, p: nat, i: nat) {
    && p < i < |items|
    && Bare(items[i], phrases, read) && (forall k | i < k < |items| :: !Bare(items[k], phrases, read))
    && SaysPlan(items[p]) && NoPlanIn(items, p + 1, i)
  }

  // ---- The wait --------------------------------------------------------------------------

  /** One pass: the clock at the loop's test, the store if it could be read, and the clock
  when the silence cap is restarted. */
  datatype Poll = Poll(check: real, store: Option<seq<Item>>, moved: real)

  function Read(poll: Poll): seq<Item> {
    if poll.store.Some? then Window(poll.store.value) else []
  }

  /** Ids known before poll `k`. */
  function Known(baseline: set<string>, polls: seq<Poll>, k: nat): set<string>
    requires k <= |polls|
  {
    if k == 0 then baseline else Known(baseline, polls, k - 1) + Ids(Read(polls[k - 1]))
  }

  /** Poll `k` shows an item no earlier read did. */
  predicate Moves(baseline: set<string>, polls: seq<Poll>, k: nat)
    requires k < |polls|
  {
    !(Ids(Read(polls[k])) <= Known(baseline, polls, k))
  }

  ghost predicate Undecided(polls: seq<Poll>, phrases: set<string>, seen: set<string>, n: nat)
    requires n <= |polls|
  {
    forall k | 0 <= k < n :: IsDecision(Read(polls[k]), phrases, seen, None)
  }

  predicate Ticking(start: real, polls: seq<Poll>) {
    && (forall k | 0 <= k < |polls| :: start <= polls[k].check <= polls[k].moved)
    && forall j, k | 0 <= j < k < |polls| :: polls[j].moved <= polls[k].check
  }

  /** `deadline` is a full cap after the start or a poll of the first `n` that showed news, and
  no sooner than a full cap after any of them. */
  predicate CapRuns(start: real, idle: real, baseline: set<string>, polls: seq<Poll>, n: nat, deadline: real)
    requires n <= |polls|
  {
    && deadline >= start + idle
    && (forall k | 0 <= k < n && Moves(baseline, polls, k) :: deadline >= polls[k].moved + idle)
    && (deadline == start + idle || exists k | 0 <= k < n :: Moves(baseline, polls, k) && deadline == polls[k].moved + idle)
  }

  lemma CapRestarts(start: real, idle: real, baseline: set<string>, polls: seq<Poll>, n: nat, deadline: real)
    requires n < |polls| && Ticking(start, polls) && CapRuns(start, idle, baseline, polls, n, deadline)
    ensures CapRuns(start, idle, baseline, polls, n + 1,
                    if Moves(baseline, polls, n) then polls[n].moved + idle else deadline)
  {
    hide Moves;
    assert forall k | 0 <= k < n :: polls[k].moved <= polls[n].check;
  }

  lemma KnownGrows(baseline: set<string>, polls: seq<Poll>, n: nat)
    requires n < |polls|
    ensures Known(baseline, polls, n + 1) == Known(baseline, polls, n) + Ids(Read(polls[n]))
    ensures Moves(baseline, polls, n) <==> !(Ids(Read(polls[n])) <= Known(baseline, polls, n))
  {
  }

  lemma StillUndecided(polls: seq<Poll>, phrases: set<string>, seen: set<string>, n: nat)
    requires n < |polls| && Undecided(polls, phrases, seen, n) && IsDecision(Read(polls[n]), phrases, seen, None)
    ensures Undecided(polls, phrases, seen, n + 1)
  {
    hide IsDecision, Read;
  }

  /** Poll `k` shows an item whose id neither the first read nor any earlier poll did. */
  lemma MovesIff(baseline: set<string>, polls: seq<Poll>, k: nat)
    requires k < |polls|
    ensures Moves(baseline, polls, k) <==>
      exists id :: id in Ids(Read(polls[k])) && id !in baseline && forall j | 0 <= j < k :: id !in Ids(Read(polls[j]))
  {
    hide Ids, Read;
    KnownIs(baseline, polls, k);
  }

  lemma {:induction false} KnownIs(baseline: set<string>, polls: seq<Poll>, k: nat)
    requires k <= |polls|
    ensures forall id :: id in Known(baseline, polls, k) <==>
      id in baseline || exists j :: 0 <= j < k && id in Ids(Read(polls[j]))
  {
    hide Ids, Read;
    if k > 0 { KnownIs(baseline, polls, k - 1); }
  }

  /** The cap has not run out at poll `k`: it is within a cap of the start or of a poll that
  showed news. */
  predicate StillFresh(start: real, idle: real, baseline: set<string>, polls: seq<Poll>, k: nat)
    requires k < |polls|
  {
    || polls[k].check < start + idle
    || exists j | 0 <= j < k :: Moves(baseline, polls, j) && polls[k].check < polls[j].moved + idle
  }

  /** Every read of the store extends `before`. */
  predicate Appends(before: seq<Item>, polls: seq<Poll>) {
    forall k | 0 <= k < |polls| && polls[k].store.Some? :: Grew(before, polls[k].store.value)
  }

  /** Poll `k` reads a session with a new approval in it. */
  predicate ShowsApproval(before: seq<Item>, poll: Poll, phrases: set<string>, p: nat, i: nat) {
    poll.store.Some? && NewIds(before, poll.store.value) && NewApproval(before, poll.store.value, phrases, p, i)
  }

  lemma ShownIsDecided(before: seq<Item>, poll: Poll, phrases: set<string>, p: nat, i: nat, turn: Option<Decision>)
    requires ShowsApproval(before, poll, phrases, p, i) && Grew(before, poll.store.value)
    requires IsDecision(Read(poll), phrases, Baseline(Some(before)), turn)
    ensures turn == Some(Decision(poll.store.value[p].body.text, Normalised(poll.store.value[i].body.text)))
  {
    hide IsDecision, NewIds, NewApproval;
    NewApprovalReleases(before, poll.store.value, phrases, p, i, turn);
  }

  /** No poll passed over showed a new approval. */
  lemma NonePassedOver(before: seq<Item>, polls: seq<Poll>, phrases: set<string>, n: nat)
    requires n <= |polls| && Appends(before, polls) && Undecided(polls, phrases, Baseline(Some(before)), n)
    ensures forall k, p: nat, i: nat | 0 <= k < n :: !ShowsApproval(before, polls[k], phrases, p, i)
  {
    hide IsDecision, NewIds, NewApproval, Read, Baseline, ShowsApproval;
    forall k, p: nat, i: nat | 0 <= k < n ensures !ShowsApproval(before, polls[k], phrases, p, i) {
      if ShowsApproval(before, polls[k], phrases, p, i) {
        assert polls[k].store.Some? by { ShowsAStore(before, polls[k], phrases, p, i); }
        ShownIsDecided(before, polls[k], phrases, p, i, None);
        assert false;
      }
    }
  }

  lemma ShowsAStore(before: seq<Item>, poll: Poll, phrases: set<string>, p: nat, i: nat)
    requires ShowsApproval(before, poll, phrases, p, i)
    ensures poll.store.Some? && p < |poll.store.value| && i < |poll.store.value|
    ensures poll.store.value[p].body.Message? && poll.store.value[i].body.Message?
  {
  }

  /** The poll read a turn added after `before`, and decided on it. */
  ghost predicate DecidedOnNewTurn(before: seq<Item>, poll: Poll, phrases: set<string>, decision: Decision) {
    poll.store.Some? && exists p: nat, i: nat :: NewTurn(before, poll.store.value, phrases, decision, p, i)
  }

  lemma DecisionIsNew(before: seq<Item>, poll: Poll, phrases: set<string>, decision: Decision)
    requires AllIdentified(before) && (poll.store.Some? ==> Grew(before, poll.store.value))
    requires IsDecision(Read(poll), phrases, Baseline(Some(before)), Some(decision))
    ensures DecidedOnNewTurn(before, poll, phrases, decision)
  {
    hide Normalised;
    if poll.store.Some? {
      var p, i := OnlyNewTurnsRelease(before, poll.store.value, phrases, decision);
    }
  }

  /** The decision is items `i` and `p` of the session. */
  predicate DecidedBy(poll: Poll, p: nat, i: nat, decision: Decision) {
    && poll.store.Some? && p < |poll.store.value| && i < |poll.store.value|
    && poll.store.value[p].body.Message? && poll.store.value[i].body.Message?
    && decision == Decision(poll.store.value[p].body.text, Normalised(poll.store.value[i].body.text))
  }

  lemma LastShownIsDecided(before: seq<Item>, polls: seq<Poll>, phrases: set<string>, n: nat, turn: Decision)
    requires n < |polls| && Appends(before, polls) && Undecided(polls, phrases, Baseline(Some(before)), n)
    requires IsDecision(Read(polls[n]), phrases, Baseline(Some(before)), Some(turn))
    ensures forall k, p: nat, i: nat | 0 <= k <= n && ShowsApproval(before, polls[k], phrases, p, i) ::
      k == n && DecidedBy(polls[k], p, i, turn)
  {
    hide IsDecision, Read, Baseline, ShowsApproval, Normalised;
    NonePassedOver(before, polls, phrases, n);
    forall k, p: nat, i: nat | 0 <= k <= n && ShowsApproval(before, polls[k], phrases, p, i)
      ensures k == n && DecidedBy(polls[k], p, i, turn)
    {
      ShowsAStore(before, polls[k], phrases, p, i);
      if k == n { ShownIsDecided(before, polls[k], phrases, p, i, Some(turn)); }
    }
  }

  /** Polls until the items hold a decision, or the session has been silent for `idle`. */
  method WaitForPlanDecision(first: Option<seq<Item>>, start: real, polls: seq<Poll>, idle: real, phrases: set<string>)
    returns (decision: Option<Decision>, gaveUp: bool, used: nat)
    requires Ticking(start, polls)
    ensures used <= |polls| && (decision.None? && !gaveUp ==> used == |polls|)
    // Released by the first poll that holds a decision against the baseline.
    ensures decision.None? ==> Undecided(polls, phrases, Baseline(first), used)
    ensures decision.Some? ==> used > 0 && Undecided(polls, phrases, Baseline(first), used - 1)
    ensures decision.Some? ==> IsDecision(Read(polls[used - 1]), phrases, Baseline(first), decision)
    // On a store that is only added to, whose first read worked and has ids: by a new turn.
    ensures decision.Some? && first.Some? && AllIdentified(first.value) && Appends(first.value, polls) ==>
      DecidedOnNewTurn(first.value, polls[used - 1], phrases, decision.value)
    // On such a store a new approval is decided on by the first poll that shows it.
    ensures first.Some? && Appends(first.value, polls) ==>
      forall k, p: nat, i: nat | 0 <= k < used && ShowsApproval(first.value, polls[k], phrases, p, i) ::
        used == k + 1 && decision.Some? && DecidedBy(polls[k], p, i, decision.value)
    // Each poll is made while the cap runs.
    ensures forall k | 0 <= k < used :: StillFresh(start, idle, Baseline(first), polls, k)
    // Given up at a test a full cap after the start and after every poll that showed news.
    ensures gaveUp ==> decision.None? && used < |polls| && polls[used].check >= start + idle
    ensures gaveUp ==>
      forall k | 0 <= k < used && Moves(Baseline(first), polls, k) :: polls[used].check >= polls[k].moved + idle
  {
    hide IsDecision, Moves, Known, Ids, Read, Undecided, Baseline, AllIdentified, DecidedOnNewTurn, Ticking;
    hide ShowsApproval, DecidedBy, CapRuns, StillFresh;
    var baseline := Baseline(first);
    var seen, deadline := baseline, start + idle;
    used, decision, gaveUp := 0, None, false;
    NothingKnown(baseline, polls, phrases);
    assert CapRuns(start, idle, baseline, polls, 0, deadline) by { CapStarts(start, idle, baseline, polls); }
    while used < |polls|
      invariant used <= |polls| && decision.None? && !gaveUp
      invariant seen == Known(baseline, polls, used)
      invariant CapRuns(start, idle, baseline, polls, used, deadline)
      invariant Undecided(polls, phrases, baseline, used)
      invariant forall k | 0 <= k < used :: StillFresh(start, idle, baseline, polls, k)
    {
      if polls[used].check >= deadline {
        CapRan(start, idle, baseline, polls, used, deadline);
        if first.Some? && Appends(first.value, polls) { NonePassedOver(first.value, polls, phrases, used); }
        gaveUp := true;
        return;
      }
      var items := Read(polls[used]);
      var turn := ApprovalTurn(items, phrases, baseline);
      CapHolds(start, idle, baseline, polls, used, deadline);
      CapRestarts(start, idle, baseline, polls, used, deadline);
      KnownGrows(baseline, polls, used);
      used := used + 1;
      if turn.Some? {
        decision := turn;
        if first.Some? && AllIdentified(first.value) && Appends(first.value, polls) {
          DecisionIsNew(first.value, polls[used - 1], phrases, turn.value);
        }
        if first.Some? && Appends(first.value, polls) {
          LastShownIsDecided(first.value, polls, phrases, used - 1, turn.value);
        }
        return;
      }
      StillUndecided(polls, phrases, baseline, used - 1);
      var ids := Ids(items);
      if !(ids <= seen) {
        deadline := polls[used - 1].moved + idle;
      }
      seen := seen + ids;
    }
    if first.Some? && Appends(first.value, polls) { NonePassedOver(first.value, polls, phrases, used); }
  }

  lemma CapStarts(start: real, idle: real, baseline: set<string>, polls: seq<Poll>)
    ensures CapRuns(start, idle, baseline, polls, 0, start + idle)
  {
  }

  lemma CapRan(start: real, idle: real, baseline: set<string>, polls: seq<Poll>, n: nat, deadline: real)
    requires n < |polls| && CapRuns(start, idle, baseline, polls, n, deadline) && polls[n].check >= deadline
    ensures polls[n].check >= start + idle
    ensures forall k | 0 <= k < n && Moves(baseline, polls, k) :: polls[n].check >= polls[k].moved + idle
  {
  }

  lemma CapHolds(start: real, idle: real, baseline: set<string>, polls: seq<Poll>, n: nat, deadline: real)
    requires n < |polls| && CapRuns(start, idle, baseline, polls, n, deadline) && polls[n].check < deadline
    ensures StillFresh(start, idle, baseline, polls, n)
  {
    hide Moves;
  }

  lemma NothingKnown(baseline: set<string>, polls: seq<Poll>, phrases: set<string>)
    ensures Known(baseline, polls, 0) == baseline && Undecided(polls, phrases, baseline, 0)
  {
  }
}
