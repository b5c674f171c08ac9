/** Which verdict every wake of a turn comes to, told from the history alone. */
module TurnEndings {
  import opened Items
  import opened Option
  import opened TurnSpec
  import opened TurnTheorems

  /** What is known of a turn, in terms of its events. */
  datatype History = History(
    completed: bool, text: bool, id: bool, grace: bool, stamp: real,
    answered: nat, activity: real, stallFrom: real)

  function HistoryOf(cfg: Config, ws: seq<Wake>): History {
    History(HasCompleted(ws), HasText(ws), HasId(ws), GracePending(ws), Stamp(cfg, ws),
            Answered(cfg, ws), LastActivity(cfg, ws), StallFrom(cfg, ws))
  }

  predicate Fits(cfg: Config, s: State, h: History) {
    && Told(cfg, s, h.completed, h.text, h.id, h.grace, h.stamp)
    && s.approvals == h.answered && s.lastFrameAt == h.activity
    && (cfg.stall.Some? && !h.completed && !h.text ==> s.stallDeadline == Some(h.stallFrom + cfg.stall.value))
  }

  lemma StateFits(cfg: Config, ws: seq<Wake>)
    requires Live(cfg, ws)
    ensures Fits(cfg, After(cfg, ws), HistoryOf(cfg, ws))
  {
    hide Live, After, HasCompleted, HasText, HasId, GracePending, LatestText, Answered, LastActivity, StallFrom, Told, Stamp;
    StateIsHistory(cfg, ws);
    ApprovalsAreAnswered(cfg, ws);
    SilenceSinceActivity(cfg, ws);
    if Stalling(cfg, ws) { StallClock(cfg, ws); }
  }

  predicate FailsWith(v: Option<Verdict>, fault: Fault) {
    v.Some? && v.value.EndedBad? && v.value.fault == fault
  }

  // ---- The conditions ------------------------------------------------------------------

  /** A status edge says the turn failed, or the stream ends on a session that did, with no
  reply pending. An edge needs no id for this. */
  predicate Reports(cfg: Config, h: History, w: Wake, error: Option<string>) {
    && w.Frame? && w.now < cfg.deadline
    && (|| (w.event.StatusEdge? && w.event.status == Failed && w.event.error == error)
        || (w.event == StreamEnd(error) && w.polled == Some(Failed) && !h.grace))
  }

  /** The stream ends with no reply pending, and the session is neither idle nor failed. */
  predicate LosesStream(cfg: Config, h: History, w: Wake) {
    && w.Frame? && w.now < cfg.deadline && w.event.StreamEnd?
    && !h.grace && w.polled != Some(Idle) && w.polled != Some(Failed)
  }

  /** The turn is polled: it showed output, no reply is pending, and 120 s passed. */
  predicate PollDue(cfg: Config, h: History, w: Wake) {
    && w.Silence? && w.now < cfg.deadline
    && (h.completed || h.text) && !h.grace && w.at >= h.stamp + CONFIRM_S
  }

  predicate StallDue(cfg: Config, h: History, w: Wake) {
    && w.Silence? && w.now < cfg.deadline
    && cfg.stall.Some? && !h.completed && !h.text && w.mid >= h.stallFrom + cfg.stall.value
  }

  /** The deadline has passed, or a silence finds no reply pending and nothing else due. */
  predicate RunsOut(cfg: Config, h: History, w: Wake) {
    || w.now >= cfg.deadline
    || (w.Silence? && !h.grace && !PollDue(cfg, h, w) && !StallDue(cfg, h, w))
  }

  // ---- The verdicts ----------------------------------------------------------------------

  lemma FrameVerdicts(cfg: Config, s: State, h: History, w: Wake, error: Option<string>)
    requires Fits(cfg, s, h)
    ensures var v := Advance(cfg, s, w).verdict;
      && (FailsWith(v, Reported(error)) <==> Reports(cfg, h, w, error))
      && (v == Some(StreamLost) <==> LosesStream(cfg, h, w))
  {
  }

  lemma PollVerdicts(cfg: Config, s: State, h: History, w: Wake, question: string)
    requires Fits(cfg, s, h)
    ensures var v := Advance(cfg, s, w).verdict;
      && (FailsWith(v, AskingLoop(question)) <==>
            PollDue(cfg, h, w) && Asks(w.view, question) && cfg.autoApprove && h.answered >= MAX_APPROVALS)
      && (FailsWith(v, AskingTurn(question)) <==>
            PollDue(cfg, h, w) && Asks(w.view, question)
            && (!cfg.autoApprove || (h.answered < MAX_APPROVALS && w.answered == 0)))
      && (FailsWith(v, AbandonedTurn) <==>
            PollDue(cfg, h, w) && IdleOn(w.view, ToolOutput) && w.mid >= h.activity + ABANDON_S)
  {
  }

  lemma ClockVerdicts(cfg: Config, s: State, h: History, w: Wake)
    requires Fits(cfg, s, h)
    ensures var v := Advance(cfg, s, w).verdict;
      && (FailsWith(v, Stalled) <==> StallDue(cfg, h, w))
      && (v == Some(TimedOut) <==> RunsOut(cfg, h, w))
  {
  }

  /** A failure is reported, with its text, on exactly the failed edges, tagged or not, and the
  streams that end on a failed session; the stream is lost on exactly the other ends of it
  that no idle session explains. */
  lemma ReportedAndLostIff(cfg: Config, ws: seq<Wake>, w: Wake, error: Option<string>)
    requires Live(cfg, ws)
    ensures var v, h := Advance(cfg, After(cfg, ws), w).verdict, HistoryOf(cfg, ws);
      && (FailsWith(v, Reported(error)) <==> Reports(cfg, h, w, error))
      && (v == Some(StreamLost) <==> LosesStream(cfg, h, w))
  {
    hide Advance, Fits, After, Live, HistoryOf, Reports, LosesStream;
    StateFits(cfg, ws);
    FrameVerdicts(cfg, After(cfg, ws), HistoryOf(cfg, ws), w, error);
  }

  /** Prompts end a turn on exactly the due polls that find some and do not approve them, told
  apart by whether the cap was reached; a turn is abandoned on exactly the due polls that find
  a dangling tool output 360 s after the last frame or approval. */
  lemma PolledFailuresIff(cfg: Config, ws: seq<Wake>, w: Wake, question: string)
    requires Live(cfg, ws)
    ensures var v, h := Advance(cfg, After(cfg, ws), w).verdict, HistoryOf(cfg, ws);
      && (FailsWith(v, AskingLoop(question)) <==>
            PollDue(cfg, h, w) && Asks(w.view, question) && cfg.autoApprove && h.answered >= MAX_APPROVALS)
      && (FailsWith(v, AskingTurn(question)) <==>
            PollDue(cfg, h, w) && Asks(w.view, question)
            && (!cfg.autoApprove || (h.answered < MAX_APPROVALS && w.answered == 0)))
      && (FailsWith(v, AbandonedTurn) <==>
            PollDue(cfg, h, w) && IdleOn(w.view, ToolOutput) && w.mid >= h.activity + ABANDON_S)
  {
    hide Advance, Fits, After, Live, HistoryOf, PollDue, Asks, IdleOn;
    StateFits(cfg, ws);
    PollVerdicts(cfg, After(cfg, ws), HistoryOf(cfg, ws), w, question);
  }

  /** A stall is called on exactly the silences that outlast the stall grace with no output; a
  turn times out on exactly the wakes past its deadline and the silences nothing else claims. */
  lemma StalledAndTimedOutIff(cfg: Config, ws: seq<Wake>, w: Wake)
    requires Live(cfg, ws)
    ensures var v, h := Advance(cfg, After(cfg, ws), w).verdict, HistoryOf(cfg, ws);
      && (FailsWith(v, Stalled) <==> StallDue(cfg, h, w))
      && (v == Some(TimedOut) <==> RunsOut(cfg, h, w))
  {
    hide Advance, Fits, After, Live, HistoryOf, StallDue, RunsOut;
    StateFits(cfg, ws);
    ClockVerdicts(cfg, After(cfg, ws), HistoryOf(cfg, ws), w);
  }

  /** The turn goes on after exactly the wakes that none of these, nor a good end, claims. */
  lemma GoesOnIff(cfg: Config, ws: seq<Wake>, w: Wake)
    requires Live(cfg, ws)
    ensures var v, h := Advance(cfg, After(cfg, ws), w).verdict, HistoryOf(cfg, ws);
      v.None? <==>
        && !Completes(cfg, ws, w) && !LosesStream(cfg, h, w) && !RunsOut(cfg, h, w) && !StallDue(cfg, h, w)
        && !(exists error :: Reports(cfg, h, w, error))
        && !(PollDue(cfg, h, w) && w.view.View? && w.view.asking != "" && !Approved(cfg, h.answered, w))
        && !(PollDue(cfg, h, w) && IdleOn(w.view, ToolOutput) && w.mid >= h.activity + ABANDON_S)
  {
    hide Advance, Fits, After, Live, HistoryOf, Completes, LosesStream, RunsOut, StallDue, Reports, PollDue, IdleOn;
    var v, h := Advance(cfg, After(cfg, ws), w).verdict, HistoryOf(cfg, ws);
    EndsOkIff(cfg, ws, w);
    StalledAndTimedOutIff(cfg, ws, w);
    ReportedAndLostIff(cfg, ws, w, None);
    PolledFailuresIff(cfg, ws, w, if w.Silence? && w.view.View? then w.view.asking else "");
    OnlyDueWhenSilent(cfg, h, w);
    if error :| Reports(cfg, h, w, error) {
      ReportedAndLostIff(cfg, ws, w, error);
    }
    if v.Some? && v.value.EndedBad? {
      match v.value.fault
      case Reported(error) => ReportedAndLostIff(cfg, ws, w, error);
      case AskingTurn(question) => PolledFailuresIff(cfg, ws, w, question);
      case AskingLoop(question) => PolledFailuresIff(cfg, ws, w, question);
      case _ =>
    }
  }

  lemma OnlyDueWhenSilent(cfg: Config, h: History, w: Wake)
    ensures PollDue(cfg, h, w) ==> w.Silence?
  {
  }
}
