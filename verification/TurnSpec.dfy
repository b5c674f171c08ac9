/** When a turn is over: what each wake of the wait does to what it knows.

Time is real seconds on the monotonic clock. A wake carries the clock readings taken
while it is handled, in the order they are taken.
*/
module TurnSpec {
  import opened Items
  import opened Option

  const CONFIRM_S: real := 120.0
  const ABANDON_S: real := 360.0
  const MAX_APPROVALS: nat := 25

  /** A `session.status`: idle, failed, or anything else. */
  datatype Status = Idle | Failed | Moving

  /** `StreamEnd` is the stream's sentinel, its close, or the reader's failure. */
  datatype Event =
    | StatusEdge(status: Status, error: Option<string>, responseId: Option<string>)
    | Completed
    | Reply(text: Option<string>)
    | StreamEnd(error: Option<string>)

  /** What a poll of the session finds: its open prompts as text, its status, its last items. */
  datatype View = Unreadable | View(asking: string, status: Status, items: Option<seq<Item>>)

  datatype Settled = Asking(question: string) | Working | Finished(text: string) | Abandoned

  /** `polled` is the status a snapshot would show; `answered` counts prompts a verdict reached. */
  datatype Wake =
    | Frame(now: real, at: real, stallAt: real, event: Event, polled: Option<Status>)
    | Silence(now: real, at: real, mid: real, done: real, view: View, answered: nat)

  datatype Fault =
    | Reported(text: Option<string>)
    | AbandonedTurn
    | AskingTurn(question: string)
    | AskingLoop(question: string)
    | Stalled

  datatype Verdict =
    | EndedOk(reply: string)
    | EndedBad(fault: Fault, reply: string, started: bool)
    | TimedOut
    | StreamLost

  datatype Config = Config(
    start: real, deadline: real, grace: real, stall: Option<real>, autoApprove: bool)

  datatype State = State(
    lastFrameAt: real, nextConfirmAt: real, stallDeadline: Option<real>, reply: string,
    sawCompleted: bool, sawResponseId: bool, graceDeadline: Option<real>,
    turnStarted: bool, approvals: nat)
  {
    predicate WatchStall() {
      stallDeadline.Some? && !turnStarted
    }

    predicate WatchSilence() {
      turnStarted && graceDeadline.None?
    }
  }

  datatype Step = Step(state: State, verdict: Option<Verdict>)

  /** Present and not empty, which is all the source asks of an id or a text. */
  predicate Given(s: Option<string>) {
    s.Some? && s.value != ""
  }

  function Min(a: real, b: real): real {
    if a <= b then a else b
  }

  function Max(a: real, b: real): real {
    if a >= b then a else b
  }

  /** Reads the item store of a silent session; open prompts come before status. */
  function Classify(view: View): Settled {
    if view.Unreadable? then Working
    else if view.asking != "" then Asking(view.asking)
    else if view.status != Idle || view.items.None? || view.items.value == [] then Working
    else
      match view.items.value[|view.items.value| - 1].body
      case Message(Assistant, text) => Finished(text)
      case ToolOutput => Abandoned
      case _ => Working
  }

  /** Seconds to block for the next frame: the least armed clock. */
  function WaitFor(s: State, now: real, deadline: real): real {
    var w0 := deadline - now;
    var w1 := if s.graceDeadline.Some? then Min(w0, Max(0.0, s.graceDeadline.value - now)) else w0;
    var w2 := if s.WatchSilence() then Min(w1, Max(0.0, s.nextConfirmAt - now)) else w1;
    if s.WatchStall() then Min(w2, Max(0.0, s.stallDeadline.value - now)) else w2
  }

  function Begin(cfg: Config): State {
    State(cfg.start, cfg.start + CONFIRM_S,
          if cfg.stall.Some? then Some(cfg.start + cfg.stall.value) else None,
          "", false, false, None, false, 0)
  }

  function Arrive(cfg: Config, s: State, at: real, stallAt: real): State {
    s.(lastFrameAt := at, nextConfirmAt := at + CONFIRM_S,
       stallDeadline := if cfg.stall.Some? && !s.turnStarted then Some(stallAt + cfg.stall.value)
                        else s.stallDeadline)
  }

  function OnEvent(cfg: Config, s: State, event: Event, now: real, polled: Option<Status>): Step {
    match event
    case Completed => Step(s.(sawCompleted := true, turnStarted := true), None)
    case Reply(text) =>
      var s' := if Given(text) then s.(turnStarted := true, reply := text.value) else s;
      Step(s', if s.graceDeadline.Some? then Some(EndedOk(s'.reply)) else None)
    case StatusEdge(Failed, error, _) =>
      Step(s, Some(EndedBad(Reported(error), s.reply, s.turnStarted)))
    case StatusEdge(Idle, _, id) =>
      if Given(id) then Step(s.(sawResponseId := true), Some(EndedOk(s.reply)))
      else if s.sawResponseId then Step(s, None)
      else if s.reply != "" then Step(s, Some(EndedOk(s.reply)))
      else if s.sawCompleted then Step(s.(graceDeadline := Some(now + cfg.grace)), None)
      else Step(s, None)
    case StatusEdge(Moving, _, id) =>
      Step(s.(sawResponseId := s.sawResponseId || Given(id), graceDeadline := None), None)
    case StreamEnd(error) =>
      if s.graceDeadline.Some? || polled == Some(Idle) then Step(s, Some(EndedOk(s.reply)))
      else if polled == Some(Failed) then Step(s, Some(EndedBad(Reported(error), s.reply, s.turnStarted)))
      else Step(s, Some(StreamLost))
  }

  /** The poll found open prompts and a verdict may be sent for them. */
  predicate Approves(cfg: Config, s: State, view: View, answered: nat) {
    Classify(view).Asking? && cfg.autoApprove && s.approvals < MAX_APPROVALS && answered > 0
  }

  function OnPoll(cfg: Config, s: State, mid: real, done: real, view: View, answered: nat): Step {
    var paced := s.(nextConfirmAt := done + CONFIRM_S);
    match Classify(view)
    case Finished(text) =>
      if text != "" then Step(s, Some(EndedOk(text))) else Step(paced, None)
    case Asking(question) =>
      if Approves(cfg, s, view, answered) then
        Step(paced.(approvals := s.approvals + answered, lastFrameAt := done), None)
      else if cfg.autoApprove && s.approvals >= MAX_APPROVALS then
        Step(s, Some(EndedBad(AskingLoop(question), s.reply, true)))
      else Step(s, Some(EndedBad(AskingTurn(question), s.reply, true)))
    case Abandoned =>
      if mid - s.lastFrameAt >= ABANDON_S then Step(s, Some(EndedBad(AbandonedTurn, s.reply, true)))
      else Step(paced, None)
    case Working => Step(paced, None)
  }

  function OnSilence(cfg: Config, s: State, w: Wake): Step
    requires w.Silence?
  {
    if s.graceDeadline.Some? then Step(s, Some(EndedOk(s.reply)))
    else if s.WatchSilence() && w.at >= s.nextConfirmAt then
      OnPoll(cfg, s, w.mid, w.done, w.view, w.answered)
    else if s.WatchStall() && w.mid >= s.stallDeadline.value then
      Step(s, Some(EndedBad(Stalled, s.reply, false)))
    else Step(s, Some(TimedOut))
  }

  /** One pass of the wait loop. */
  function Advance(cfg: Config, s: State, w: Wake): Step {
    if w.now >= cfg.deadline then Step(s, Some(TimedOut))
    else match w
      case Frame(now, at, stallAt, event, polled) =>
        OnEvent(cfg, Arrive(cfg, s, at, stallAt), event, now, polled)
      case Silence(_, _, _, _, _, _) => OnSilence(cfg, s, w)
  }

  // ---- Runs -------------------------------------------------------------------

  function Front<T>(s: seq<T>): seq<T>
    requires s != []
  {
    s[..|s| - 1]
  }

  function Last<T>(s: seq<T>): T
    requires s != []
  {
    s[|s| - 1]
  }

  /** What the wait knows after the wakes `ws`. */
  function After(cfg: Config, ws: seq<Wake>): State
    decreases |ws|
  {
    if ws == [] then Begin(cfg) else Advance(cfg, After(cfg, Front(ws)), Last(ws)).state
  }

  /** None of the wakes ended the turn. */
  predicate Live(cfg: Config, ws: seq<Wake>)
    decreases |ws|
  {
    ws == [] || (Live(cfg, Front(ws)) && Advance(cfg, After(cfg, Front(ws)), Last(ws)).verdict.None?)
  }

  /** The last clock reading taken while a wake was handled. */
  function Finish(w: Wake): real {
    if w.Frame? then w.stallAt else w.done
  }

  function Clock(cfg: Config, ws: seq<Wake>): real {
    if ws == [] then cfg.start else Finish(Last(ws))
  }

  /** Readings never go back, and a silent wait lasts at least what it asked for. */
  predicate Timed(cfg: Config, s: State, before: real, w: Wake) {
    && before <= w.now <= w.at
    && (w.Frame? ==> w.at <= w.stallAt)
    && (w.Silence? ==> w.at <= w.mid <= w.done)
    && (w.Silence? && w.now < cfg.deadline ==> w.at >= w.now + WaitFor(s, w.now, cfg.deadline))
  }

  predicate WellTimed(cfg: Config, ws: seq<Wake>)
    decreases |ws|
  {
    ws == [] || (WellTimed(cfg, Front(ws)) && Timed(cfg, After(cfg, Front(ws)), Clock(cfg, Front(ws)), Last(ws)))
  }

  /** The wakes a clock and a queue can produce, for as long as the wait goes on. */
  predicate Clocked(cfg: Config, ws: seq<Wake>) {
    forall i | 0 <= i < |ws| && Live(cfg, ws[..i]) ::
      Timed(cfg, After(cfg, ws[..i]), Clock(cfg, ws[..i]), ws[i])
  }
}
