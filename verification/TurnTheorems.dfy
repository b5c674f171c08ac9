/** What ends a turn, told from the events that arrived, and what its clocks guarantee. */
module TurnTheorems {
  import opened Items
  import opened Option
  import opened TurnSpec

  // ---- The history of a turn ----------------------------------------------------

  predicate SaysCompleted(w: Wake) {
    w.Frame? && w.event.Completed?
  }

  predicate SaysText(w: Wake) {
    w.Frame? && w.event.Reply? && Given(w.event.text)
  }

  /** A status edge with a response id, which only one of the two harness families sends. */
  predicate SaysId(w: Wake) {
    w.Frame? && w.event.StatusEdge? && Given(w.event.responseId)
  }

  predicate SaysMoving(w: Wake) {
    w.Frame? && w.event.StatusEdge? && w.event.status == Moving
  }

  predicate SaysBareIdle(w: Wake) {
    w.Frame? && w.event.StatusEdge? && w.event.status == Idle && !Given(w.event.responseId)
  }

  predicate HasCompleted(ws: seq<Wake>) {
    exists i | 0 <= i < |ws| :: SaysCompleted(ws[i])
  }

  predicate HasText(ws: seq<Wake>) {
    exists i | 0 <= i < |ws| :: SaysText(ws[i])
  }

  predicate HasId(ws: seq<Wake>) {
    exists i | 0 <= i < |ws| :: SaysId(ws[i])
  }

  /** `reply` is the last text the stream carried, or empty when it carried none. */
  predicate LatestText(ws: seq<Wake>, reply: string) {
    if HasText(ws) then
      exists i | 0 <= i < |ws| :: SaysText(ws[i]) && ws[i].event.text.value == reply && NoTextAfter(ws, i)
    else reply == ""
  }

  predicate NoTextAfter(ws: seq<Wake>, i: int) {
    forall j | 0 <= j < |ws| && i < j :: !SaysText(ws[j])
  }

  /** Wake `i` was an id-less idle after completion, before any text or id, and the turn
  has not moved since: the reply may still be lagging. */
  predicate GraceSince(ws: seq<Wake>, i: nat) {
    && i < |ws|
    && SaysBareIdle(ws[i])
    && HasCompleted(ws[..i]) && !HasText(ws[..i]) && !HasId(ws[..i])
    && forall j | i < j < |ws| :: !SaysMoving(ws[j])
  }

  predicate GracePending(ws: seq<Wake>) {
    exists i | 0 <= i < |ws| :: GraceSince(ws, i)
  }

  /** When the wait last heard from the turn or polled it. */
  function Stamp(cfg: Config, ws: seq<Wake>): real {
    if ws == [] then cfg.start else if Last(ws).Frame? then Last(ws).at else Last(ws).done
  }

  /** The last text the stream carried. */
  function LastText(ws: seq<Wake>): string
    decreases |ws|
  {
    if ws == [] then "" else if SaysText(Last(ws)) then Last(ws).event.text.value else LastText(Front(ws))
  }

  lemma {:induction false} LastTextIsLatest(ws: seq<Wake>, reply: string)
    ensures LatestText(ws, LastText(ws))
    ensures LatestText(ws, reply) ==> reply == LastText(ws)
    decreases |ws|
  {
    if ws != [] {
      LastTextIsLatest(Front(ws), reply);
      ExtendLatest(ws, LastText(Front(ws)));
    }
    if LatestText(ws, reply) { LatestIsOne(ws, reply, LastText(ws)); }
  }

  /** There is only one last text. */
  lemma LatestIsOne(ws: seq<Wake>, a: string, b: string)
    requires LatestText(ws, a) && LatestText(ws, b)
    ensures a == b
  {
    if HasText(ws) {
      var i :| 0 <= i < |ws| && SaysText(ws[i]) && ws[i].event.text.value == a && NoTextAfter(ws, i);
      var j :| 0 <= j < |ws| && SaysText(ws[j]) && ws[j].event.text.value == b && NoTextAfter(ws, j);
      assert i == j;
    }
  }

  lemma Extend(ws: seq<Wake>)
    requires ws != []
    ensures HasCompleted(ws) <==> HasCompleted(Front(ws)) || SaysCompleted(Last(ws))
    ensures HasText(ws) <==> HasText(Front(ws)) || SaysText(Last(ws))
    ensures HasId(ws) <==> HasId(Front(ws)) || SaysId(Last(ws))
  {
    assert forall i | 0 <= i < |Front(ws)| :: Front(ws)[i] == ws[i];
  }

  lemma ExtendLatest(ws: seq<Wake>, reply: string)
    requires ws != []
    ensures !SaysText(Last(ws)) && LatestText(Front(ws), reply) ==> LatestText(ws, reply)
    ensures SaysText(Last(ws)) ==> LatestText(ws, Last(ws).event.text.value)
  {
    Extend(ws);
    var n := |ws| - 1;
    assert forall i | 0 <= i < n :: Front(ws)[i] == ws[i];
    if SaysText(Last(ws)) {
      assert NoTextAfter(ws, n);
      assert SaysText(ws[n]);
    } else if LatestText(Front(ws), reply) && HasText(Front(ws)) {
      var i :| 0 <= i < n && SaysText(Front(ws)[i]) && Front(ws)[i].event.text.value == reply && NoTextAfter(Front(ws), i);
      assert NoTextAfter(ws, i) by {
        forall j | 0 <= j < |ws| && i < j ensures !SaysText(ws[j]) {
          if j < n { assert Front(ws)[j] == ws[j]; }
        }
      }
      assert SaysText(ws[i]);
    }
  }

  lemma ExtendGrace(ws: seq<Wake>)
    requires ws != []
    ensures SaysMoving(Last(ws)) ==> !GracePending(ws)
    ensures !SaysMoving(Last(ws)) ==>
      (GracePending(ws) <==> GracePending(Front(ws)) || GraceSince(ws, |ws| - 1))
    ensures GraceSince(ws, |ws| - 1) <==>
      SaysBareIdle(Last(ws)) && HasCompleted(Front(ws)) && !HasText(Front(ws)) && !HasId(Front(ws))
  {
    var n := |ws| - 1;
    if SaysMoving(Last(ws)) {
      assert SaysMoving(ws[n]);
    } else {
      if i: nat :| GraceSince(ws, i) && i < n {
        assert ws[..i] == Front(ws)[..i];
        assert GraceSince(Front(ws), i);
      }
      if i: nat :| GraceSince(Front(ws), i) {
        assert ws[..i] == Front(ws)[..i];
        assert GraceSince(ws, i);
      }
    }
  }

  /** The wait's fields, told by five facts about its history. */
  predicate Told(cfg: Config, s: State, completed: bool, text: bool, id: bool, grace: bool, stamp: real) {
    && s.sawCompleted == completed
    && s.sawResponseId == id
    && (s.reply != "") == text
    && s.graceDeadline.Some? == grace
    && s.turnStarted == (completed || text)
    && (id ==> !grace)
    && (grace ==> completed && !text)
    && s.nextConfirmAt == stamp + CONFIRM_S
    && s.stallDeadline.Some? == cfg.stall.Some?
  }

  lemma ToldStep(cfg: Config, s: State, w: Wake, completed: bool, text: bool, id: bool, grace: bool, stamp: real)
    requires Told(cfg, s, completed, text, id, grace, stamp)
    requires Advance(cfg, s, w).verdict.None?
    ensures Told(cfg, Advance(cfg, s, w).state,
              completed || SaysCompleted(w), text || SaysText(w), id || SaysId(w),
              !SaysMoving(w) && (grace || (SaysBareIdle(w) && completed && !text && !id)),
              if w.Frame? then w.at else w.done)
    ensures Advance(cfg, s, w).state.reply == if SaysText(w) then w.event.text.value else s.reply
  {
  }

  /** What the wait knows is exactly what its history says, at every point of every turn. */
  lemma {:induction false} StateIsHistory(cfg: Config, ws: seq<Wake>)
    requires Live(cfg, ws)
    ensures Told(cfg, After(cfg, ws), HasCompleted(ws), HasText(ws), HasId(ws), GracePending(ws), Stamp(cfg, ws))
    ensures LatestText(ws, After(cfg, ws).reply)
    decreases |ws|
  {
    if ws != [] {
      var f := Front(ws);
      StateIsHistory(cfg, f);
      Extend(ws);
      ExtendLatest(ws, After(cfg, f).reply);
      ExtendGrace(ws);
      ToldStep(cfg, After(cfg, f), Last(ws), HasCompleted(f), HasText(f), HasId(f), GracePending(f), Stamp(cfg, f));
    }
  }

  // ---- What a poll finds ---------------------------------------------------------

  /** The session has open prompts, which read as `question`; whatever its status. */
  predicate Asks(view: View, question: string) {
    view.View? && question == view.asking && question != ""
  }

  /** An idle session with no open prompt, whose last item is `body`. */
  predicate IdleOn(view: View, body: Body) {
    && view.View? && view.asking == "" && view.status == Idle
    && view.items.Some? && view.items.value != [] && Last(view.items.value).body == body
  }

  /** The reply a finished session closed with; empty when it is not finished, or said nothing. */
  function ClosingReply(view: View): string {
    if view.View? && view.items.Some? && view.items.value != [] then
      match Last(view.items.value).body
      case Message(Assistant, text) => if IdleOn(view, Message(Assistant, text)) then text else ""
      case _ => ""
    else ""
  }

  /** The table the source documents: open prompts before anything, then status, then the last
  item; all else is work in progress. */
  lemma ClassifyTable(view: View)
    ensures forall q :: Classify(view) == Asking(q) <==> Asks(view, q)
    ensures forall text :: Classify(view) == Finished(text) <==> IdleOn(view, Message(Assistant, text))
    ensures Classify(view).Abandoned? <==> IdleOn(view, ToolOutput)
    ensures ClosingReply(view) != "" <==> Classify(view).Finished? && Classify(view).text != ""
    ensures Classify(view).Finished? ==> ClosingReply(view) == Classify(view).text
  {
  }

  // ---- What ends a turn well ---------------------------------------------------

  /** The declarative end of a turn: whether `w` completes it, told from five facts
  about what came before. */
  predicate CompletesBy(cfg: Config, w: Wake, completed: bool, text: bool, id: bool, grace: bool, stamp: real) {
    && w.now < cfg.deadline
    && match w
       case Frame(_, _, _, StatusEdge(Idle, _, rid), _) => Given(rid) || (!id && text)
       case Frame(_, _, _, Reply(_), _) => grace
       case Frame(_, _, _, StreamEnd(_), polled) => grace || polled == Some(Idle)
       case Frame(_, _, _, _, _) => false
       case Silence(_, at, _, _, view, _) =>
         || grace
         || ((completed || text) && at >= stamp + CONFIRM_S && ClosingReply(view) != "")
  }

  predicate Completes(cfg: Config, ws: seq<Wake>, w: Wake) {
    CompletesBy(cfg, w, HasCompleted(ws), HasText(ws), HasId(ws), GracePending(ws), Stamp(cfg, ws))
  }

  predicate WentWell(v: Option<Verdict>) {
    v.Some? && v.value.EndedOk?
  }

  lemma ToldEnd(cfg: Config, s: State, w: Wake, completed: bool, text: bool, id: bool, grace: bool, stamp: real)
    requires Told(cfg, s, completed, text, id, grace, stamp)
    ensures WentWell(Advance(cfg, s, w).verdict) <==> CompletesBy(cfg, w, completed, text, id, grace, stamp)
    ensures WentWell(Advance(cfg, s, w).verdict) ==>
      Advance(cfg, s, w).verdict.value.reply ==
        if SaysText(w) then w.event.text.value
        else if w.Silence? && !grace then ClosingReply(w.view)
        else s.reply
  {
    if w.Silence? { ClassifyTable(w.view); }
    hide ClosingReply, Classify, IdleOn;
  }

  /** A turn ends well on exactly the wakes its history says complete it, and returns the
  last text of the stream, or the closing message when a poll found the turn finished. */
  lemma {:induction false} EndsOkIff(cfg: Config, ws: seq<Wake>, w: Wake)
    requires Live(cfg, ws)
    ensures WentWell(Advance(cfg, After(cfg, ws), w).verdict) <==> Completes(cfg, ws, w)
    ensures Completes(cfg, ws, w) && (w.Frame? || GracePending(ws)) ==>
      LatestText(ws + [w], Advance(cfg, After(cfg, ws), w).verdict.value.reply)
    ensures Completes(cfg, ws, w) && w.Silence? && !GracePending(ws) ==>
      Advance(cfg, After(cfg, ws), w).verdict.value.reply == ClosingReply(w.view)
  {
    var s := After(cfg, ws);
    StateIsHistory(cfg, ws);
    ToldEnd(cfg, s, w, HasCompleted(ws), HasText(ws), HasId(ws), GracePending(ws), Stamp(cfg, ws));
    assert Front(ws + [w]) == ws && Last(ws + [w]) == w;
    ExtendLatest(ws + [w], s.reply);
  }

  /** Once an id was seen, only an idle with an id, a stream that ended on an idle
  session, or a poll that found the closing reply ends the turn well. */
  lemma TaggedTurnEnds(cfg: Config, ws: seq<Wake>, w: Wake)
    requires Live(cfg, ws) && HasId(ws + [w])
    requires WentWell(Advance(cfg, After(cfg, ws), w).verdict)
    ensures
      || (SaysId(w) && w.event.status == Idle)
      || (w.Frame? && w.event.StreamEnd? && w.polled == Some(Idle))
      || (w.Silence? && w.at >= Stamp(cfg, ws) + CONFIRM_S && ClosingReply(w.view) != "")
  {
    assert Front(ws + [w]) == ws && Last(ws + [w]) == w;
    Extend(ws + [w]);
    EndsOkIff(cfg, ws, w);
    StateIsHistory(cfg, ws);
    hide HasCompleted, HasText, HasId, GracePending, Advance, After, Live, LatestText, ClosingReply;
    assert Completes(cfg, ws, w);
  }

  predicate WentBadly(v: Option<Verdict>) {
    v.Some? && v.value.EndedBad?
  }

  lemma ToldFailure(cfg: Config, s: State, w: Wake, completed: bool, text: bool, id: bool, grace: bool, stamp: real)
    requires Told(cfg, s, completed, text, id, grace, stamp)
    requires WentBadly(Advance(cfg, s, w).verdict)
    ensures var v := Advance(cfg, s, w).verdict.value;
      && v.reply == s.reply
      && (v.started <==> completed || text)
      && (v.fault.Stalled? ==> cfg.stall.Some? && !completed && !text)
  {
  }

  /** A failed turn is reported as started exactly when a completion or a text arrived;
  a stall verdict needs the watchdog and means neither did. */
  lemma StartedMeansOutput(cfg: Config, ws: seq<Wake>, w: Wake)
    requires Live(cfg, ws) && WentBadly(Advance(cfg, After(cfg, ws), w).verdict)
    ensures var v := Advance(cfg, After(cfg, ws), w).verdict.value;
      && LatestText(ws, v.reply)
      && (v.started <==> HasCompleted(ws) || HasText(ws))
      && (v.fault.Stalled? ==> cfg.stall.Some? && !v.started && v.reply == "")
  {
    StateIsHistory(cfg, ws);
    ToldFailure(cfg, After(cfg, ws), w, HasCompleted(ws), HasText(ws), HasId(ws), GracePending(ws), Stamp(cfg, ws));
  }

  // ---- Clocks --------------------------------------------------------------------

  /** Every reading a wake left behind lies between the start and the clock. */
  lemma {:induction false} ReadingsBounded(cfg: Config, ws: seq<Wake>)
    requires Live(cfg, ws) && WellTimed(cfg, ws)
    ensures cfg.start <= Stamp(cfg, ws) <= Clock(cfg, ws)
    ensures forall i | 0 <= i < |ws| :: cfg.start <= ws[i].now <= ws[i].at <= Finish(ws[i]) <= Clock(cfg, ws)
    decreases |ws|
  {
    if ws != [] {
      ReadingsBounded(cfg, Front(ws));
      forall i | 0 <= i < |ws|
        ensures cfg.start <= ws[i].now <= ws[i].at <= Finish(ws[i]) <= Clock(cfg, ws)
      {
        if i < |ws| - 1 { assert ws[i] == Front(ws)[i]; }
      }
    }
  }

  /** The wait times out only once its deadline has passed. */
  lemma TimeoutOnlyPastDeadline(cfg: Config, ws: seq<Wake>, w: Wake)
    requires Live(cfg, ws) && Timed(cfg, After(cfg, ws), Clock(cfg, ws), w)
    requires Advance(cfg, After(cfg, ws), w).verdict == Some(TimedOut)
    ensures w.at >= cfg.deadline
  {
  }

  lemma NothingYet(cfg: Config)
    ensures Live(cfg, []) && WellTimed(cfg, []) && After(cfg, []) == Begin(cfg)
  {
  }

  /** One more wake of a clocked script, taken from where the wait stands. */
  lemma OneWakeMore(cfg: Config, wakes: seq<Wake>, i: nat)
    requires i < |wakes| && Clocked(cfg, wakes) && Live(cfg, wakes[..i]) && WellTimed(cfg, wakes[..i])
    ensures var step := Advance(cfg, After(cfg, wakes[..i]), wakes[i]);
      && WellTimed(cfg, wakes[..i + 1])
      && (step.verdict.None? ==> Live(cfg, wakes[..i + 1]) && After(cfg, wakes[..i + 1]) == step.state)
      && (step.verdict == Some(TimedOut) ==> wakes[i].at >= cfg.deadline)
    ensures wakes[i].Silence? && wakes[i].now < cfg.deadline ==>
      wakes[i].at >= wakes[i].now + WaitFor(After(cfg, wakes[..i]), wakes[i].now, cfg.deadline)
  {
    hide Advance;
    assert Front(wakes[..i + 1]) == wakes[..i] && Last(wakes[..i + 1]) == wakes[i];
    if Advance(cfg, After(cfg, wakes[..i]), wakes[i]).verdict == Some(TimedOut) {
      TimeoutOnlyPastDeadline(cfg, wakes[..i], wakes[i]);
    }
  }

  /** A silent wake acts on the armed clock that ran out, and none runs out early.

  A pending grace is the exception the source makes: silence ends the turn there, even
  when it was the turn's own deadline that came first.
  */
  lemma SilenceFiresTheLeastClock(cfg: Config, ws: seq<Wake>, w: Wake)
    requires Live(cfg, ws) && Timed(cfg, After(cfg, ws), Clock(cfg, ws), w)
    requires w.Silence? && w.now < cfg.deadline
    ensures var s, step := After(cfg, ws), Advance(cfg, After(cfg, ws), w);
      if GracePending(ws) then
        step.verdict.Some? && step.verdict.value.EndedOk?
        && s.graceDeadline.Some? && (w.at >= s.graceDeadline.value || w.at >= cfg.deadline)
      else if HasCompleted(ws) || HasText(ws) then
        (step.verdict == Some(TimedOut) <==> w.at < Stamp(cfg, ws) + CONFIRM_S)
        && (w.at < Stamp(cfg, ws) + CONFIRM_S ==> w.at >= cfg.deadline)
      else if cfg.stall.Some? then
        s.stallDeadline.Some?
        && (step.verdict == Some(EndedBad(Stalled, "", false)) <==> w.mid >= s.stallDeadline.value)
        && (step.verdict != Some(TimedOut) <==> w.mid >= s.stallDeadline.value)
        && (w.mid < s.stallDeadline.value ==> w.at >= cfg.deadline)
      else
        step.verdict == Some(TimedOut) && w.at >= cfg.deadline
  {
    StateIsHistory(cfg, ws);
  }

  /** The turn is being polled: it showed output and no reply grace is pending. */
  predicate Polling(ws: seq<Wake>) {
    (HasCompleted(ws) || HasText(ws)) && !GracePending(ws)
  }

  /** The stall watchdog is armed: nothing came out of the turn yet. */
  predicate Stalling(cfg: Config, ws: seq<Wake>) {
    cfg.stall.Some? && !HasCompleted(ws) && !HasText(ws)
  }

  /** Every wait asked for ends at the least of the clocks the history arms: not past any of
  them, nor past the deadline, and not before all of them. */
  lemma WaitIsTheLeastClock(cfg: Config, ws: seq<Wake>, now: real)
    requires Live(cfg, ws) && now < cfg.deadline
    ensures var s, wait := After(cfg, ws), WaitFor(After(cfg, ws), now, cfg.deadline);
      var poll := Stamp(cfg, ws) + CONFIRM_S;
      && 0.0 <= wait <= cfg.deadline - now
      && (GracePending(ws) ==> s.graceDeadline.Some? && wait <= Max(0.0, s.graceDeadline.value - now))
      && (Polling(ws) ==> wait <= Max(0.0, poll - now))
      && (Stalling(cfg, ws) ==> s.stallDeadline.Some? && wait <= Max(0.0, s.stallDeadline.value - now))
      && (|| wait == cfg.deadline - now
          || (GracePending(ws) && wait == Max(0.0, s.graceDeadline.value - now))
          || (Polling(ws) && wait == Max(0.0, poll - now))
          || (Stalling(cfg, ws) && wait == Max(0.0, s.stallDeadline.value - now)))
  {
    StateIsHistory(cfg, ws);
  }

  /** `i` is the last id-less idle of `ws`. */
  predicate LastBareIdle(ws: seq<Wake>, i: nat) {
    && i < |ws| && SaysBareIdle(ws[i])
    && forall j | i < j < |ws| :: !SaysBareIdle(ws[j])
  }

  /** The reply grace runs from the moment the wait for that idle began, not from when the
  idle arrived. */
  lemma {:induction false} GraceRunsFromWaitStart(cfg: Config, ws: seq<Wake>, i: nat)
    requires Live(cfg, ws) && GracePending(ws) && LastBareIdle(ws, i)
    ensures After(cfg, ws).graceDeadline == Some(ws[i].now + cfg.grace)
    decreases |ws|
  {
    var f := Front(ws);
    StateIsHistory(cfg, f);
    StateIsHistory(cfg, ws);
    ExtendGrace(ws);
    if i < |f| {
      assert forall j | 0 <= j < |f| :: f[j] == ws[j];
      assert LastBareIdle(f, i);
      GraceRunsFromWaitStart(cfg, f, i);
    }
  }

  /** When silence may end a turn whose reply is pending. */
  function GraceEnd(cfg: Config, ws: seq<Wake>): Option<real> {
    var s := After(cfg, ws);
    if s.graceDeadline.Some? then Some(Min(s.graceDeadline.value, cfg.deadline)) else None
  }

  /** The reply has its full grace after the idle arrived exactly when the wait for the idle
  took no time and the deadline is no sooner. */
  lemma FullGraceIff(cfg: Config, ws: seq<Wake>, i: nat)
    requires Live(cfg, ws) && WellTimed(cfg, ws) && GracePending(ws) && LastBareIdle(ws, i)
    ensures GraceEnd(cfg, ws).Some?
    ensures GraceEnd(cfg, ws).value >= ws[i].at + cfg.grace
      <==> ws[i].at == ws[i].now && cfg.deadline >= ws[i].at + cfg.grace
  {
    GraceRunsFromWaitStart(cfg, ws, i);
    ReadingsBounded(cfg, ws);
  }

  /** A silence that finds a reply pending ends the turn, and no sooner than that. */
  lemma GraceEndsTheTurn(cfg: Config, ws: seq<Wake>, w: Wake)
    requires Live(cfg, ws) && GracePending(ws)
    requires Timed(cfg, After(cfg, ws), Clock(cfg, ws), w) && w.Silence? && w.now < cfg.deadline
    ensures GraceEnd(cfg, ws).Some? && w.at >= GraceEnd(cfg, ws).value
    ensures WentWell(Advance(cfg, After(cfg, ws), w).verdict)
  {
    SilenceFiresTheLeastClock(cfg, ws, w);
  }

  /** So the wait after an idle can be as short as nothing: a wait that blocked for the
  whole grace before the idle came leaves none of it for the reply. */
  lemma GraceCanBeSpentOnArrival(start: real, grace: real)
    requires 0.0 < grace < CONFIRM_S
    ensures
      var cfg := Config(start, start + 1800.0, grace, None, false);
      var done := Frame(start, start, start, Completed, None);
      var idle := Frame(start, start + grace, start + grace, StatusEdge(Idle, None, None), None);
      var quiet := Silence(start + grace, start + grace, start + grace, start + grace, Unreadable, 0);
      && WellTimed(cfg, [done, idle, quiet]) && Live(cfg, [done, idle])
      && Advance(cfg, After(cfg, [done, idle]), quiet).verdict == Some(EndedOk(""))
      && quiet.at == idle.at
  {
    var cfg := Config(start, start + 1800.0, grace, None, false);
    var done := Frame(start, start, start, Completed, None);
    var idle := Frame(start, start + grace, start + grace, StatusEdge(Idle, None, None), None);
    var quiet := Silence(start + grace, start + grace, start + grace, start + grace, Unreadable, 0);
    assert Front([done]) == [] && Front([done, idle]) == [done] && Front([done, idle, quiet]) == [done, idle];
    assert After(cfg, [done]) == Advance(cfg, Begin(cfg), done).state;
    assert WellTimed(cfg, [done]);
    assert After(cfg, [done, idle]) == Advance(cfg, After(cfg, [done]), idle).state;
    assert WellTimed(cfg, [done, idle]);
    assert After(cfg, [done, idle]).graceDeadline == Some(start + grace);
  }

  /** When the stall clock was last set: after the last frame, or at the start. */
  function StallFrom(cfg: Config, ws: seq<Wake>): real
    decreases |ws|
  {
    if ws == [] then cfg.start
    else if Last(ws).Frame? then Last(ws).stallAt
    else StallFrom(cfg, Front(ws))
  }

  /** While nothing has come out of the turn, the stall clock runs from the last frame. */
  lemma {:induction false} StallClock(cfg: Config, ws: seq<Wake>)
    requires Live(cfg, ws) && Stalling(cfg, ws)
    ensures After(cfg, ws).stallDeadline == Some(StallFrom(cfg, ws) + cfg.stall.value)
    decreases |ws|
  {
    hide HasCompleted, HasText, HasId, GracePending, LatestText;
    if ws != [] {
      Extend(ws);
      StallClock(cfg, Front(ws));
      StateIsHistory(cfg, Front(ws));
    }
  }

  /** Which is no sooner than any frame. */
  lemma {:induction false} StallFromLatest(cfg: Config, ws: seq<Wake>)
    requires Live(cfg, ws) && WellTimed(cfg, ws)
    ensures cfg.start <= StallFrom(cfg, ws) <= Clock(cfg, ws)
    ensures forall i | 0 <= i < |ws| && ws[i].Frame? :: ws[i].at <= StallFrom(cfg, ws)
    decreases |ws|
  {
    hide Advance;
    if ws != [] {
      StallFromLatest(cfg, Front(ws));
      ReadingsBounded(cfg, ws);
      assert forall i | 0 <= i < |Front(ws)| :: ws[i] == Front(ws)[i];
    }
  }

  lemma {:induction false} StallNeedsFullGrace(cfg: Config, ws: seq<Wake>, w: Wake)
    requires Live(cfg, ws) && WellTimed(cfg, ws)
    requires var v := Advance(cfg, After(cfg, ws), w).verdict; WentBadly(v) && v.value.fault.Stalled?
    ensures cfg.stall.Some? && !HasCompleted(ws) && !HasText(ws)
    ensures w.mid >= cfg.start + cfg.stall.value
    ensures forall i | 0 <= i < |ws| && ws[i].Frame? :: w.mid >= ws[i].at + cfg.stall.value
  {
    hide Live, WellTimed, After;
    StartedMeansOutput(cfg, ws, w);
    StallVerdictIsDue(cfg, After(cfg, ws), w);
    StallClock(cfg, ws);
    StallFromLatest(cfg, ws);
  }

  lemma StallVerdictIsDue(cfg: Config, s: State, w: Wake)
    requires var v := Advance(cfg, s, w).verdict; WentBadly(v) && v.value.fault.Stalled?
    ensures w.Silence? && s.stallDeadline.Some? && w.mid >= s.stallDeadline.value
  {
  }

  /** The wake finds open prompts, and verdicts were sent for them. */
  predicate Approved(cfg: Config, before: nat, w: Wake) {
    && w.Silence? && w.view.View? && w.view.asking != ""
    && cfg.autoApprove && before < MAX_APPROVALS && w.answered > 0
  }

  /** Prompts answered over the turn's rounds. */
  function Answered(cfg: Config, ws: seq<Wake>): nat
    decreases |ws|
  {
    if ws == [] then 0
    else
      var before := Answered(cfg, Front(ws));
      before + (if Approved(cfg, before, Last(ws)) then Last(ws).answered else 0)
  }

  /** The poll after the wakes `ws[..i]` answered prompts and let the turn go on. */
  predicate ApprovalAt(cfg: Config, ws: seq<Wake>, i: nat)
    requires i < |ws|
  {
    Approved(cfg, Answered(cfg, ws[..i]), ws[i])
  }

  lemma LastApproval(cfg: Config, ws: seq<Wake>)
    requires ws != []
    ensures ApprovalAt(cfg, ws, |ws| - 1) <==> Approved(cfg, Answered(cfg, Front(ws)), Last(ws))
  {
    assert ws[..|ws| - 1] == Front(ws);
  }

  lemma ApprovalStep(cfg: Config, s: State, w: Wake)
    requires Advance(cfg, s, w).verdict.None?
    ensures Advance(cfg, s, w).state.approvals == s.approvals + if Approved(cfg, s.approvals, w) then w.answered else 0
  {
  }

  lemma {:induction false} ApprovalsAreAnswered(cfg: Config, ws: seq<Wake>)
    requires Live(cfg, ws)
    ensures After(cfg, ws).approvals == Answered(cfg, ws)
    decreases |ws|
  {
    hide Advance, Approved;
    if ws != [] {
      ApprovalsAreAnswered(cfg, Front(ws));
      ApprovalStep(cfg, After(cfg, Front(ws)), Last(ws));
    }
  }

  /** What one live wake does to the silence clock. */
  lemma SilenceStep(cfg: Config, s: State, w: Wake)
    requires Advance(cfg, s, w).verdict.None?
    ensures var s' := Advance(cfg, s, w).state;
      s'.lastFrameAt == if w.Frame? then w.at else if Approved(cfg, s.approvals, w) then w.done else s.lastFrameAt
  {
  }

  /** The last frame or approval, or the start when there was none. */
  function LastActivity(cfg: Config, ws: seq<Wake>): real
    decreases |ws|
  {
    if ws == [] then cfg.start
    else if Last(ws).Frame? then Last(ws).at
    else if Approved(cfg, Answered(cfg, Front(ws)), Last(ws)) then Last(ws).done
    else LastActivity(cfg, Front(ws))
  }

  lemma {:induction false} SilenceSinceActivity(cfg: Config, ws: seq<Wake>)
    requires Live(cfg, ws)
    ensures After(cfg, ws).lastFrameAt == LastActivity(cfg, ws)
    decreases |ws|
  {
    hide Approved, Advance;
    if ws != [] {
      SilenceSinceActivity(cfg, Front(ws));
      ApprovalsAreAnswered(cfg, Front(ws));
      SilenceStep(cfg, After(cfg, Front(ws)), Last(ws));
    }
  }

  lemma {:induction false} SilenceClock(cfg: Config, ws: seq<Wake>)
    requires Live(cfg, ws) && WellTimed(cfg, ws)
    ensures cfg.start <= After(cfg, ws).lastFrameAt <= Clock(cfg, ws)
    ensures forall i | 0 <= i < |ws| && ws[i].Frame? :: ws[i].at <= After(cfg, ws).lastFrameAt
    decreases |ws|
  {
    hide Approved, Advance;
    if ws != [] {
      var f, w := Front(ws), Last(ws);
      SilenceClock(cfg, f);
      ReadingsBounded(cfg, f);
      SilenceStep(cfg, After(cfg, f), w);
      assert Clock(cfg, f) <= w.now <= w.at <= Finish(w);
      assert forall i | 0 <= i < |f| :: ws[i] == f[i];
    }
  }

  lemma {:induction false} SilenceSinceApproval(cfg: Config, ws: seq<Wake>, i: nat)
    requires Live(cfg, ws) && WellTimed(cfg, ws) && i < |ws| && ApprovalAt(cfg, ws, i)
    ensures ws[i].done <= After(cfg, ws).lastFrameAt
    decreases |ws|
  {
    hide Advance;
    var f, w := Front(ws), Last(ws);
    ApprovalsAreAnswered(cfg, f);
    SilenceStep(cfg, After(cfg, f), w);
    if i < |f| {
      assert ws[i] == f[i] && ws[..i] == f[..i];
      SilenceSinceApproval(cfg, f, i);
      SilenceClock(cfg, f);
    } else {
      assert ws[..i] == f;
    }
  }

  /** A turn is called abandoned only 360 s after every frame and every approval. */
  lemma AbandonedNeedsFullSilence(cfg: Config, ws: seq<Wake>, w: Wake)
    requires Live(cfg, ws) && WellTimed(cfg, ws)
    requires var v := Advance(cfg, After(cfg, ws), w).verdict; WentBadly(v) && v.value.fault.AbandonedTurn?
    ensures w.Silence? && IdleOn(w.view, ToolOutput) && w.mid >= cfg.start + ABANDON_S
    ensures forall i | 0 <= i < |ws| && ws[i].Frame? :: w.mid >= ws[i].at + ABANDON_S
    ensures forall i | 0 <= i < |ws| && ApprovalAt(cfg, ws, i) :: w.mid >= ws[i].done + ABANDON_S
  {
    SilenceClock(cfg, ws);
    if w.Silence? { ClassifyTable(w.view); }
    forall i | 0 <= i < |ws| && ApprovalAt(cfg, ws, i) ensures w.mid >= ws[i].done + ABANDON_S {
      SilenceSinceApproval(cfg, ws, i);
    }
  }

  // ---- How long a turn can last ----------------------------------------------------

  /** Polls of a turn; a live silent wake is always one. */
  function Polls(ws: seq<Wake>): nat
    decreases |ws|
  {
    if ws == [] then 0 else Polls(Front(ws)) + (if Last(ws).Silence? then 1 else 0)
  }

  function Frames(ws: seq<Wake>): nat
    decreases |ws|
  {
    if ws == [] then 0 else Frames(Front(ws)) + (if Last(ws).Frame? then 1 else 0)
  }

  /** Every poll costs a full confirmation interval after whatever came before it. */
  lemma {:induction false} PollsTakeTime(cfg: Config, ws: seq<Wake>)
    requires Live(cfg, ws) && WellTimed(cfg, ws)
    ensures Stamp(cfg, ws) >= cfg.start + CONFIRM_S * Polls(ws) as real
    ensures |ws| == Frames(ws) + Polls(ws)
    decreases |ws|
  {
    if ws != [] {
      PollsTakeTime(cfg, Front(ws));
      StateIsHistory(cfg, Front(ws));
      ReadingsBounded(cfg, Front(ws));
    }
  }

  /** Two polls of a turn are at least 120 s apart. */
  lemma {:induction false} PollsApart(cfg: Config, ws: seq<Wake>, i: nat, j: nat)
    requires Live(cfg, ws) && WellTimed(cfg, ws)
    requires i < j < |ws| && ws[i].Silence? && ws[j].Silence?
    ensures ws[j].at >= ws[i].done + CONFIRM_S
    decreases |ws|
  {
    if j < |ws| - 1 {
      assert ws[i] == Front(ws)[i] && ws[j] == Front(ws)[j];
      PollsApart(cfg, Front(ws), i, j);
    } else {
      StateIsHistory(cfg, Front(ws));
      var f := Front(ws);
      assert f[i] == ws[i];
      ReadingsBounded(cfg, f);
      if Last(f).Frame? && i == |f| - 1 { assert false; }
      StampAfter(cfg, f, i);
    }
  }

  lemma {:induction false} StampAfter(cfg: Config, ws: seq<Wake>, i: nat)
    requires Live(cfg, ws) && WellTimed(cfg, ws) && i < |ws| && ws[i].Silence?
    ensures Stamp(cfg, ws) >= ws[i].done
    decreases |ws|
  {
    if i < |ws| - 1 {
      assert ws[i] == Front(ws)[i];
      ReadingsBounded(cfg, Front(ws));
    }
  }

  /** A turn of E frames and a budget of T seconds is over within E + 1 + T/120 wakes,
  and however it goes it is polled fewer than 1 + T/120 times. */
  lemma TurnTerminates(cfg: Config, ws: seq<Wake>, w: Wake)
    requires Live(cfg, ws) && WellTimed(cfg, ws) && Timed(cfg, After(cfg, ws), Clock(cfg, ws), w)
    requires w.now < cfg.deadline
    ensures CONFIRM_S * Polls(ws) as real < cfg.deadline - cfg.start
    ensures CONFIRM_S * (|ws| - Frames(ws)) as real < cfg.deadline - cfg.start
    ensures CONFIRM_S * (Polls(ws + [w]) as real - 1.0) < cfg.deadline - cfg.start
  {
    PollsTakeTime(cfg, ws);
    ReadingsBounded(cfg, ws);
    assert Front(ws + [w]) == ws;
  }

  /** Rounds in which prompts were approved. */
  function Rounds(cfg: Config, ws: seq<Wake>): nat
    decreases |ws|
  {
    if ws == [] then 0
    else Rounds(cfg, Front(ws)) + (if Approved(cfg, Answered(cfg, Front(ws)), Last(ws)) then 1 else 0)
  }

  /** Every round answers at least one prompt, and the cap is checked before each: there
  are at most 25 rounds, however many prompts one of them answers. */
  lemma {:induction false} ApprovalRoundsCapped(cfg: Config, ws: seq<Wake>)
    ensures Rounds(cfg, ws) <= MAX_APPROVALS && Rounds(cfg, ws) <= Answered(cfg, ws)
    decreases |ws|
  {
    if ws != [] { ApprovalRoundsCapped(cfg, Front(ws)); }
  }

  // ---- How many prompts a turn answers ---------------------------------------------

  /** Round `i` starts below the cap and answers past it. */
  predicate Overshoots(cfg: Config, ws: seq<Wake>, i: nat)
    requires i < |ws|
  {
    ApprovalAt(cfg, ws, i) && Answered(cfg, ws[..i]) + ws[i].answered > MAX_APPROVALS
  }

  /** A turn answers more than 25 prompts exactly when one of its rounds overshoots. */
  lemma {:induction false} CapPassedIff(cfg: Config, ws: seq<Wake>)
    ensures Answered(cfg, ws) > MAX_APPROVALS <==> exists i | 0 <= i < |ws| :: Overshoots(cfg, ws, i)
    decreases |ws|
  {
    if ws != [] {
      var f, n := Front(ws), |ws| - 1;
      CapPassedIff(cfg, f);
      assert ws[..n] == f;
      assert forall i | 0 <= i < n :: ws[..i] == f[..i] && ws[i] == f[i];
      assert forall i | 0 <= i < n :: Overshoots(cfg, ws, i) <==> Overshoots(cfg, f, i);
      assert Overshoots(cfg, ws, n) <==> (ApprovalAt(cfg, ws, n) && Answered(cfg, f) + ws[n].answered > MAX_APPROVALS);
    }
  }

  /** Where no poll answers more than `most` prompts, a turn answers fewer than 25 + `most`:
  one prompt a poll keeps the documented cap. */
  lemma {:induction false} PromptsBounded(cfg: Config, ws: seq<Wake>, most: nat)
    requires most >= 1
    requires forall i | 0 <= i < |ws| && ws[i].Silence? :: ws[i].answered <= most
    ensures Answered(cfg, ws) < MAX_APPROVALS + most
    decreases |ws|
  {
    if ws != [] {
      var f := Front(ws);
      assert forall i | 0 <= i < |f| :: f[i] == ws[i];
      PromptsBounded(cfg, f, most);
    }
  }

  /** One round can answer any number of prompts at all, so the documented cap can be passed. */
  lemma OneRoundCanPassTheCap(start: real, grace: real, most: nat)
    requires most > MAX_APPROVALS
    ensures
      var cfg := Config(start, start + 1800.0, grace, None, true);
      var done := Frame(start, start, start, Completed, None);
      var at := start + CONFIRM_S;
      var ask := Silence(start, at, at, at, View("Proceed?", Idle, None), most);
      && WellTimed(cfg, [done, ask]) && Live(cfg, [done, ask])
      && Rounds(cfg, [done, ask]) == 1 && Answered(cfg, [done, ask]) == most
  {
    var cfg := Config(start, start + 1800.0, grace, None, true);
    var done := Frame(start, start, start, Completed, None);
    var at := start + CONFIRM_S;
    var ask := Silence(start, at, at, at, View("Proceed?", Idle, None), most);
    var ws := [done, ask];
    assert Front([done]) == [] && Front(ws) == [done] && ws[..1] == [done] && [done][..0] == [];
    assert After(cfg, [done]) == Advance(cfg, Begin(cfg), done).state;
    NothingYet(cfg);
    assert Timed(cfg, Begin(cfg), Clock(cfg, []), done);
    assert WellTimed(cfg, [done]) && Live(cfg, [done]);
    assert Answered(cfg, [done]) == 0 && Rounds(cfg, [done]) == 0;
    assert ApprovalAt(cfg, ws, 1);
  }
}
