/** The wait for a turn's end, as the client runs it: one event or one silence at a time. */
module TurnWaits {
  import opened Items
  import opened Option
  import opened TurnSpec
  import opened TurnTheorems

  class TurnWait {
    const cfg: Config
    var lastFrameAt: real
    var nextConfirmAt: real
    var stallDeadline: Option<real>
    var reply: string
    var sawCompleted: bool
    var sawResponseId: bool
    var graceDeadline: Option<real>
    var turnStarted: bool
    var approvals: nat

    constructor (cfg: Config)
      ensures this.cfg == cfg && Known() == Begin(cfg)
    {
      this.cfg := cfg;
      lastFrameAt := cfg.start;
      nextConfirmAt := cfg.start + CONFIRM_S;
      stallDeadline := if cfg.stall.Some? then Some(cfg.start + cfg.stall.value) else None;
      reply, sawCompleted, sawResponseId := "", false, false;
      graceDeadline, turnStarted, approvals := None, false, 0;
    }

    ghost function Known(): State
      reads this
    {
      State(lastFrameAt, nextConfirmAt, stallDeadline, reply, sawCompleted, sawResponseId,
            graceDeadline, turnStarted, approvals)
    }

    predicate WatchStall()
      reads this
    {
      stallDeadline.Some? && !turnStarted
    }

    predicate WatchSilence()
      reads this
    {
      turnStarted && graceDeadline.None?
    }

    /** A frame is activity: the silence clocks start over. */
    method FrameArrived(at: real, stallAt: real)
      modifies this
      ensures Known() == Arrive(cfg, old(Known()), at, stallAt)
    {
      lastFrameAt := at;
      nextConfirmAt := lastFrameAt + CONFIRM_S;
      if cfg.stall.Some? && !turnStarted {
        stallDeadline := Some(stallAt + cfg.stall.value);
      }
    }

    method TurnWaitSeconds(now: real) returns (wait: real)
      ensures wait == WaitFor(Known(), now, cfg.deadline)
    {
      wait := cfg.deadline - now;
      if graceDeadline.Some? {
        wait := Min(wait, Max(0.0, graceDeadline.value - now));
      }
      if WatchSilence() {
        wait := Min(wait, Max(0.0, nextConfirmAt - now));
      }
      if WatchStall() && stallDeadline.Some? {
        wait := Min(wait, Max(0.0, stallDeadline.value - now));
      }
    }

    method OnIdleEdge(responseId: Option<string>, error: Option<string>, now: real, polled: Option<Status>)
      returns (verdict: Option<Verdict>)
      requires Given(responseId) ==> sawResponseId
      modifies this
      ensures Step(Known(), verdict) ==
        OnEvent(cfg, old(Known()), StatusEdge(Idle, error, responseId), now, polled)
    {
      if Given(responseId) {
        return Some(EndedOk(reply));
      }
      if sawResponseId {
        return None;
      }
      if reply != "" {
        return Some(EndedOk(reply));
      }
      if sawCompleted {
        graceDeadline := Some(now + cfg.grace);
      }
      verdict := None;
    }

    method OnStatusEdge(event: Event, now: real, polled: Option<Status>) returns (verdict: Option<Verdict>)
      requires event.StatusEdge?
      modifies this
      ensures Step(Known(), verdict) == OnEvent(cfg, old(Known()), event, now, polled)
    {
      if event.status == Failed {
        return Some(EndedBad(Reported(event.error), reply, turnStarted));
      }
      if Given(event.responseId) {
        sawResponseId := true;
      }
      if event.status == Idle {
        verdict := OnIdleEdge(event.responseId, event.error, now, polled);
        return;
      }
      if graceDeadline.Some? {
        graceDeadline := None;
      }
      verdict := None;
    }

    method OnTurnEvent(event: Event, now: real, polled: Option<Status>) returns (verdict: Option<Verdict>)
      modifies this
      ensures Step(Known(), verdict) == OnEvent(cfg, old(Known()), event, now, polled)
    {
      match event {
        case Completed =>
          sawCompleted, turnStarted := true, true;
          verdict := None;
        case Reply(text) =>
          if Given(text) {
            turnStarted, reply := true, text.value;
          }
          verdict := if graceDeadline.Some? then Some(EndedOk(reply)) else None;
        case StatusEdge(_, _, _) =>
          verdict := OnStatusEdge(event, now, polled);
        case StreamEnd(error) =>
          if graceDeadline.Some? {
            return Some(EndedOk(reply));
          }
          verdict := ResolveOnStreamEnd(error, polled);
      }
    }

    method ResolveOnStreamEnd(error: Option<string>, polled: Option<Status>) returns (verdict: Option<Verdict>)
      requires graceDeadline.None?
      ensures Step(Known(), verdict) == OnEvent(cfg, Known(), StreamEnd(error), 0.0, polled)
    {
      if polled == Some(Idle) {
        verdict := Some(EndedOk(reply));
      } else if polled == Some(Failed) {
        verdict := Some(EndedBad(Reported(error), reply, turnStarted));
      } else {
        verdict := Some(StreamLost);
      }
    }

    method OnAsking(question: string, mid: real, done: real, view: View, answered: nat)
      returns (verdict: Option<Verdict>)
      requires Classify(view) == Asking(question)
      modifies this
      ensures Step(Known(), verdict) == OnPoll(cfg, old(Known()), mid, done, view, answered)
    {
      if cfg.autoApprove && approvals < MAX_APPROVALS && answered > 0 {
        approvals := approvals + answered;
        lastFrameAt := done;
        nextConfirmAt := lastFrameAt + CONFIRM_S;
        return None;
      }
      var capped := cfg.autoApprove && approvals >= MAX_APPROVALS;
      verdict := Some(EndedBad(if capped then AskingLoop(question) else AskingTurn(question), reply, true));
    }

    method OnSettledCheck(mid: real, done: real, view: View, answered: nat) returns (verdict: Option<Verdict>)
      modifies this
      ensures Step(Known(), verdict) == OnPoll(cfg, old(Known()), mid, done, view, answered)
    {
      var silent := mid - lastFrameAt;
      var settled := Classify(view);
      if settled.Finished? && settled.text != "" {
        return Some(EndedOk(settled.text));
      }
      if settled.Asking? {
        verdict := OnAsking(settled.question, mid, done, view, answered);
        return;
      }
      if settled.Abandoned? && silent >= ABANDON_S {
        return Some(EndedBad(AbandonedTurn, reply, true));
      }
      nextConfirmAt := done + CONFIRM_S;
      verdict := None;
    }

    method OnTurnSilence(w: Wake) returns (verdict: Option<Verdict>)
      requires w.Silence?
      modifies this
      ensures Step(Known(), verdict) == OnSilence(cfg, old(Known()), w)
    {
      if graceDeadline.Some? {
        return Some(EndedOk(reply));
      }
      if WatchSilence() && w.at >= nextConfirmAt {
        verdict := OnSettledCheck(w.mid, w.done, w.view, w.answered);
        return;
      }
      if WatchStall() && w.mid >= stallDeadline.value {
        return Some(EndedBad(Stalled, reply, false));
      }
      verdict := Some(TimedOut);
    }

    /** Consumes wakes until one ends the turn; `used` counts those consumed. */
    method AwaitTerminal(wakes: seq<Wake>) returns (verdict: Option<Verdict>, used: nat)
      requires Known() == Begin(cfg) && Clocked(cfg, wakes)
      modifies this
      ensures used <= |wakes| && WellTimed(cfg, wakes[..used])
      ensures verdict.None? ==> used == |wakes| && Live(cfg, wakes) && Known() == After(cfg, wakes)
      ensures verdict.Some? ==> 0 < used && Live(cfg, wakes[..used - 1])
      ensures verdict.Some? ==> verdict == Advance(cfg, After(cfg, wakes[..used - 1]), wakes[used - 1]).verdict
      ensures verdict == Some(TimedOut) ==> wakes[used - 1].at >= cfg.deadline
    {
      hide Live, After, WellTimed, Timed, OnEvent, OnSilence, Arrive, Clock;
      used, verdict := 0, None;
      NothingYet(cfg);
      while used < |wakes|
        invariant used <= |wakes| && WellTimed(cfg, wakes[..used])
        invariant verdict.None? && Live(cfg, wakes[..used]) && Known() == After(cfg, wakes[..used])
      {
        var w := wakes[used];
        OneWakeMore(cfg, wakes, used);
        var wait := TurnWaitSeconds(w.now);
        used := used + 1;
        if w.now >= cfg.deadline {
          return Some(TimedOut), used;
        }
        assert w.Silence? ==> w.at >= w.now + wait;
        if w.Silence? {
          verdict := OnTurnSilence(w);
        } else {
          FrameArrived(w.at, w.stallAt);
          verdict := OnTurnEvent(w.event, w.now, w.polled);
        }
        if verdict.Some? {
          return;
        }
      }
      assert wakes[..used] == wakes;
    }
  }
}
