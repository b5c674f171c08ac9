/** Posting a turn, and posting it again when the session swallowed it. */
module Delivery {
  import opened Option
  import opened Text
  import opened TurnEndings
  import opened TurnSpec
  import opened TurnTheorems
  import opened TurnWaits

  datatype Post = Accepted | TookTooLong | Refused

  /** What one subscribe, post and wait meets. `stored` is the last reply in the item store. */
  datatype Attempt = Attempt(
    subscribed: bool, post: Post, start: real, deadline: real, wakes: seq<Wake>, stored: string)

  datatype Delivered =
    | NotSubscribed
    | PostFailed(timedOut: bool)
    | Raised(why: Verdict)
    | Waiting
    | Ok(reply: string)
    | Bad(fault: Fault, reply: string, started: bool)

  /** The first verdict the wakes come to. */
  function Conclude(cfg: Config, ws: seq<Wake>): Option<Verdict>
    decreases |ws|
  {
    if ws == [] then None
    else
      var earlier := Conclude(cfg, Front(ws));
      if earlier.Some? then earlier else Advance(cfg, After(cfg, Front(ws)), Last(ws)).verdict
  }

  lemma {:induction false} ConcludeIsFirst(cfg: Config, ws: seq<Wake>, used: nat)
    requires 0 < used <= |ws| && Live(cfg, ws[..used - 1])
    requires Advance(cfg, After(cfg, ws[..used - 1]), ws[used - 1]).verdict.Some?
    ensures Conclude(cfg, ws) == Advance(cfg, After(cfg, ws[..used - 1]), ws[used - 1]).verdict
    decreases |ws|
  {
    if used == |ws| {
      assert ws[..used - 1] == Front(ws);
      LiveIffInconclusive(cfg, Front(ws));
    } else {
      assert Front(ws)[..used - 1] == ws[..used - 1];
      ConcludeIsFirst(cfg, Front(ws), used);
    }
  }

  lemma {:induction false} LiveIffInconclusive(cfg: Config, ws: seq<Wake>)
    ensures Live(cfg, ws) <==> Conclude(cfg, ws).None?
    decreases |ws|
  {
    if ws != [] { LiveIffInconclusive(cfg, Front(ws)); }
  }

  function ConfigOf(a: Attempt, grace: real, stall: Option<real>, autoApprove: bool): Config {
    Config(a.start, a.deadline, grace, stall, autoApprove)
  }

  /** What one delivery comes to. */
  function Deliver(cfg: Config, a: Attempt): Delivered {
    if !a.subscribed then NotSubscribed
    else if a.post != Accepted then PostFailed(a.post == TookTooLong)
    else match Conclude(cfg, a.wakes)
      case None => Waiting
      case Some(EndedOk(reply)) => Ok(if reply == "" then a.stored else reply)
      case Some(EndedBad(fault, reply, started)) => Bad(fault, reply, started)
      case Some(why) => Raised(why)
  }

  /** The delivery came to nothing: no text, and no failure of a turn that had started. */
  predicate SaidNothing(d: Delivered) {
    || (d.Ok? && IsBlank(d.reply))
    || (d.Bad? && IsBlank(d.reply) && !d.started)
  }

  lemma {:induction false} Decided(cfg: Config, ws: seq<Wake>) returns (used: nat)
    requires Conclude(cfg, ws).Some?
    ensures 0 < used <= |ws| && Live(cfg, ws[..used - 1])
    ensures Conclude(cfg, ws) == Advance(cfg, After(cfg, ws[..used - 1]), ws[used - 1]).verdict
    decreases |ws|
  {
    LiveIffInconclusive(cfg, Front(ws));
    if Conclude(cfg, Front(ws)).Some? {
      used := Decided(cfg, Front(ws));
      assert Front(ws)[..used - 1] == ws[..used - 1];
    } else {
      used := |ws|;
    }
  }

  /** A stall verdict needs the watchdog, and always counts as a dropped submit. */
  lemma StallIsADroppedSubmit(cfg: Config, a: Attempt)
    requires Deliver(cfg, a).Bad? && Deliver(cfg, a).fault.Stalled?
    ensures cfg.stall.Some? && SaidNothing(Deliver(cfg, a))
  {
    var used := Decided(cfg, a.wakes);
    StartedMeansOutput(cfg, a.wakes[..used - 1], a.wakes[used - 1]);
  }

  // ---- What a delivery comes to, told from its events ----------------------------------

  /** The turn was posted, and went on until its `used`-th wake. */
  predicate Reaches(cfg: Config, a: Attempt, used: nat) {
    a.subscribed && a.post == Accepted && 0 < used <= |a.wakes| && Live(cfg, a.wakes[..used - 1])
  }

  /** The turn ends well at its `used`-th wake. */
  predicate GoesWell(cfg: Config, a: Attempt, used: nat) {
    Reaches(cfg, a, used) && Completes(cfg, a.wakes[..used - 1], a.wakes[used - 1])
  }

  /** What a good turn returns: the closing message a poll found, or the last text of the
  stream, or the stored reply exactly when that is empty. */
  function Returned(a: Attempt, used: nat): string
    requires 0 < used <= |a.wakes|
  {
    var before, w := a.wakes[..used - 1], a.wakes[used - 1];
    var said := if w.Silence? && !GracePending(before) then ClosingReply(w.view) else LastText(a.wakes[..used]);
    if said == "" then a.stored else said
  }

  /** The turn fails at its `used`-th wake, before any text or completion. */
  ghost predicate FailsSilently(cfg: Config, a: Attempt, used: nat) {
    && Reaches(cfg, a, used)
    && var before, w := a.wakes[..used - 1], a.wakes[used - 1];
    && !HasCompleted(before) && !HasText(before)
    && (StallDue(cfg, HistoryOf(cfg, before), w) || exists error :: Reports(cfg, HistoryOf(cfg, before), w, error))
  }

  /** A delivery that is followed by another, if there may be one. */
  ghost predicate WorthRepeating(cfg: Config, a: Attempt, used: nat) {
    || (0 < used <= |a.wakes| && GoesWell(cfg, a, used) && IsBlank(Returned(a, used)))
    || FailsSilently(cfg, a, used)
  }

  /** Some wake makes the delivery one to repeat. */
  ghost predicate Repeats(cfg: Config, a: Attempt) {
    exists used: nat :: WorthRepeating(cfg, a, used)
  }

  lemma VerdictConcludes(cfg: Config, a: Attempt, used: nat)
    requires Reaches(cfg, a, used)
    requires Advance(cfg, After(cfg, a.wakes[..used - 1]), a.wakes[used - 1]).verdict.Some?
    ensures Conclude(cfg, a.wakes) == Advance(cfg, After(cfg, a.wakes[..used - 1]), a.wakes[used - 1]).verdict
  {
    ConcludeIsFirst(cfg, a.wakes, used);
  }

  /** A good turn is returned with its reply. */
  lemma GoodIsReturned(cfg: Config, a: Attempt, used: nat)
    requires 0 < used <= |a.wakes| && GoesWell(cfg, a, used)
    ensures Deliver(cfg, a) == Ok(Returned(a, used))
  {
    hide Live, Advance, After, Completes, Conclude, ClosingReply, LastText, LatestText, GracePending;
    var before, w := a.wakes[..used - 1], a.wakes[used - 1];
    EndsOkIff(cfg, before, w);
    VerdictConcludes(cfg, a, used);
    var said := Advance(cfg, After(cfg, before), w).verdict.value.reply;
    assert before + [w] == a.wakes[..used];
    if w.Frame? || GracePending(before) { LastTextIsLatest(a.wakes[..used], said); }
  }

  /** A failed one keeps its fault and the last text, and counts as started exactly when a text
  or a completion came. */
  lemma FailureIsReturned(cfg: Config, a: Attempt, used: nat)
    requires Reaches(cfg, a, used)
    requires WentBadly(Advance(cfg, After(cfg, a.wakes[..used - 1]), a.wakes[used - 1]).verdict)
    ensures var before := a.wakes[..used - 1]; var d := Deliver(cfg, a);
      && d.Bad? && d.reply == LastText(before) && (d.started <==> HasCompleted(before) || HasText(before))
      && FailsWith(Advance(cfg, After(cfg, before), a.wakes[used - 1]).verdict, d.fault)
  {
    hide Live, Advance, After, Conclude, LastText, LatestText, HasCompleted, HasText;
    var before, w := a.wakes[..used - 1], a.wakes[used - 1];
    StartedMeansOutput(cfg, before, w);
    VerdictConcludes(cfg, a, used);
    LastTextIsLatest(before, Deliver(cfg, a).reply);
  }

  lemma NoTextIsEmpty(ws: seq<Wake>)
    requires !HasText(ws)
    ensures LastText(ws) == ""
  {
    LastTextIsLatest(ws, "");
  }

  /** Exactly such deliveries come to nothing. */
  lemma SaidNothingIff(cfg: Config, a: Attempt)
    ensures SaidNothing(Deliver(cfg, a)) <==> Repeats(cfg, a)
  {
    if used: nat :| WorthRepeating(cfg, a, used) {
      if GoesWell(cfg, a, used) {
        GoodIsReturned(cfg, a, used);
      } else {
        FailsBeforeOutput(cfg, a, used);
      }
    }
    if SaidNothing(Deliver(cfg, a)) {
      var used := NothingWasSaid(cfg, a);
    }
  }

  lemma FailsBeforeOutput(cfg: Config, a: Attempt, used: nat)
    requires FailsSilently(cfg, a, used) && !GoesWell(cfg, a, used)
    ensures SaidNothing(Deliver(cfg, a))
  {
    hide Live, Advance, After, Conclude, LastText, HasCompleted, HasText, StallDue, Reports, Deliver, Completes;
    var before, w := a.wakes[..used - 1], a.wakes[used - 1];
    StalledAndTimedOutIff(cfg, before, w);
    if error :| Reports(cfg, HistoryOf(cfg, before), w, error) {
      ReportedAndLostIff(cfg, before, w, error);
    }
    FailureIsReturned(cfg, a, used);
    NoTextIsEmpty(before);
  }

  lemma NothingWasSaid(cfg: Config, a: Attempt) returns (used: nat)
    requires SaidNothing(Deliver(cfg, a))
    ensures WorthRepeating(cfg, a, used)
  {
    hide Live, Advance, After, Conclude, LastText, HasCompleted, HasText, Completes, Returned;
    hide StallDue, Reports, PollDue, IdleOn, Asks;
    used := Decided(cfg, a.wakes);
    var before, w := a.wakes[..used - 1], a.wakes[used - 1];
    var h := HistoryOf(cfg, before);
    EndsOkIff(cfg, before, w);
    if GoesWell(cfg, a, used) {
      GoodIsReturned(cfg, a, used);
    } else {
      FailureIsReturned(cfg, a, used);
      StalledAndTimedOutIff(cfg, before, w);
      assert h.completed == HasCompleted(before) && h.text == HasText(before);
      PollNeedsOutput(cfg, h, w);
      match Deliver(cfg, a).fault
      case Reported(error) => ReportedAndLostIff(cfg, before, w, error);
      case AskingTurn(question) => PolledFailuresIff(cfg, before, w, question);
      case AskingLoop(question) => PolledFailuresIff(cfg, before, w, question);
      case AbandonedTurn => PolledFailuresIff(cfg, before, w, "");
      case Stalled =>
    }
  }

  lemma PollNeedsOutput(cfg: Config, h: History, w: Wake)
    ensures PollDue(cfg, h, w) ==> h.completed || h.text
  {
  }

  /** What became of a turn that never got to a verdict. */
  lemma UndecidedDeliveries(cfg: Config, a: Attempt)
    ensures Deliver(cfg, a) == NotSubscribed <==> !a.subscribed
    ensures a.subscribed ==> (Deliver(cfg, a).PostFailed? <==> a.post != Accepted)
    ensures a.subscribed && a.post == TookTooLong ==> Deliver(cfg, a) == PostFailed(true)
    ensures a.subscribed && a.post == Refused ==> Deliver(cfg, a) == PostFailed(false)
    ensures a.subscribed && a.post == Accepted ==> (Deliver(cfg, a) == Waiting <==> Live(cfg, a.wakes))
  {
    LiveIffInconclusive(cfg, a.wakes);
  }

  method DeliverOnce(a: Attempt, cfg: Config) returns (d: Delivered)
    requires Clocked(cfg, a.wakes)
    ensures d == Deliver(cfg, a)
  {
    if !a.subscribed {
      return NotSubscribed;
    }
    if a.post != Accepted {
      return PostFailed(a.post == TookTooLong);
    }
    var turn := new TurnWait(cfg);
    var verdict, used := turn.AwaitTerminal(a.wakes);
    if verdict.None? {
      LiveIffInconclusive(cfg, a.wakes);
      return Waiting;
    }
    ConcludeIsFirst(cfg, a.wakes, used);
    match verdict.value {
      case EndedOk(reply) =>
        d := Ok(reply);
        if reply == "" && a.stored != "" {
          d := Ok(a.stored);
        }
      case EndedBad(fault, reply, started) =>
        d := Bad(fault, reply, started);
      case _ =>
        d := Raised(verdict.value);
    }
  }

  /** The stall watchdog is armed on every delivery but the last. */
  function StallOf(index: nat, attempts: nat, stall: real): Option<real> {
    if index == attempts - 1 then None else Some(stall)
  }

  /** How a delivery waits. */
  datatype Setup = Setup(attempts: nat, grace: real, stall: real, autoApprove: bool) {
    function For(a: Attempt, index: nat): Config {
      ConfigOf(a, grace, StallOf(index, attempts, stall), autoApprove)
    }
  }

  /** Delivers the turn until a delivery says something, fails for real or is the last. */
  method SendAndWait(script: seq<Attempt>, maxResubmits: int, grace: real, stall: real, autoApprove: bool)
    returns (result: Delivered, tried: nat, posts: nat)
    requires |script| > maxResubmits && script != []
    requires forall i, s | 0 <= i < |script| :: Clocked(ConfigOf(script[i], grace, s, autoApprove), script[i].wakes)
    ensures 1 <= tried && posts <= tried && tried <= if maxResubmits > 0 then maxResubmits + 1 else 1
    // A delivery is followed by another only if it ended well on a blank reply, or failed before
    // any output; and by none only if it did not, or was the last.
    ensures var setup := Setup(if maxResubmits > 0 then maxResubmits + 1 else 1, grace, stall, autoApprove);
      && (forall i | 0 <= i < tried - 1 :: Repeats(setup.For(script[i], i), script[i]))
      && (tried < setup.attempts ==>
            !Repeats(setup.For(script[tried - 1], tried - 1), script[tried - 1]))
      && result == Deliver(setup.For(script[tried - 1], tried - 1), script[tried - 1])
      // Each waits by its own deadline and the caller's grace, and the last with no watchdog.
      && (forall i | 0 <= i < tried :: setup.For(script[i], i) ==
            Config(script[i].start, script[i].deadline, grace,
                   if i == setup.attempts - 1 then None else Some(stall), autoApprove))
      // A reply with anything but spaces in it ends the loop, and is what the caller gets.
      && (forall i, used | 0 <= i < tried && 0 < used <= |script[i].wakes|
            && GoesWell(setup.For(script[i], i), script[i], used) && !IsBlank(Returned(script[i], used)) ::
            i == tried - 1 && result == Ok(Returned(script[i], used)))
    ensures posts == tried - (if result.NotSubscribed? then 1 else 0)
    // A stall never reaches the caller: it is only found where another delivery follows.
    ensures !(result.Bad? && result.fault.Stalled?)
  {
    hide GoesWell, WorthRepeating, Returned, Deliver;
    var attempts := if maxResubmits > 0 then maxResubmits + 1 else 1;
    ghost var setup := Setup(attempts, grace, stall, autoApprove);
    tried, posts := 0, 0;
    while true
      invariant 0 <= tried < attempts && posts == tried
      invariant forall i | 0 <= i < tried :: SaidNothing(Deliver(setup.For(script[i], i), script[i]))
      decreases attempts - tried
    {
      var final := tried == attempts - 1;
      var a := script[tried];
      var cfg := ConfigOf(a, grace, if final then None else Some(stall), autoApprove);
      result := DeliverOnce(a, cfg);
      tried := tried + 1;
      posts := posts + (if result.NotSubscribed? then 0 else 1);
      if result.Bad? && result.fault.Stalled? { StallIsADroppedSubmit(cfg, a); }
      if !result.Ok? && !result.Bad? {
        Stops(setup, script, tried, result);
        return;
      }
      var gotOutput := !IsBlank(result.reply);
      if final || gotOutput || (result.Bad? && result.started) {
        Stops(setup, script, tried, result);
        return;
      }
    }
  }

  lemma Stops(setup: Setup, script: seq<Attempt>, tried: nat, result: Delivered)
    requires 0 < tried <= |script|
    requires result == Deliver(setup.For(script[tried - 1], tried - 1), script[tried - 1])
    requires forall i | 0 <= i < tried - 1 :: SaidNothing(Deliver(setup.For(script[i], i), script[i]))
    ensures forall i | 0 <= i < tried - 1 :: Repeats(setup.For(script[i], i), script[i])
    ensures SaidNothing(result) <==>
      Repeats(setup.For(script[tried - 1], tried - 1), script[tried - 1])
    ensures forall i, used | 0 <= i < tried && 0 < used <= |script[i].wakes|
      && GoesWell(setup.For(script[i], i), script[i], used) && !IsBlank(Returned(script[i], used)) ::
      i == tried - 1 && result == Ok(Returned(script[i], used))
  {
    hide GoesWell, WorthRepeating, Returned, Deliver;
    forall i | 0 <= i < tried
      ensures SaidNothing(Deliver(setup.For(script[i], i), script[i])) <==>
        Repeats(setup.For(script[i], i), script[i])
    {
      SaidNothingIff(setup.For(script[i], i), script[i]);
    }
    forall i, used | 0 <= i < tried && 0 < used <= |script[i].wakes|
      && GoesWell(setup.For(script[i], i), script[i], used) && !IsBlank(Returned(script[i], used))
      ensures i == tried - 1 && result == Ok(Returned(script[i], used))
    {
      GoodIsReturned(setup.For(script[i], i), script[i], used);
    }
  }
}
