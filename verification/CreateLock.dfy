/** Concurrent sandbox creation: one process-wide lock, and a settle gap between creates.

Any number of launcher threads run at once. Each passes through the lock, waits out what
is left of its own stagger since the last completion stamp, creates, stamps and releases.
Every step below is one atomic move of one thread, or the clock.
*/
module CreateLock {
  import opened Option

  type Thread = nat

  /** Where a thread is; inside the lock it carries its launcher's stagger. */
  datatype Pc =
    | Outside
    | Holding(gap: real)
    | Sleeping(gap: real, until: real)
    | Ready(gap: real)
    | Creating(gap: real, start: real)
    | Ended(gap: real, start: real, end: real)
    | Stamped

  /** A create that ended, successfully or not, and when its completion was stamped. */
  datatype Create = Create(gap: real, start: real, end: real, stamp: real)

  datatype Process = Process(
    now: real, owner: Option<Thread>, pcs: map<Thread, Pc>, lastDone: real, log: seq<Create>)
  {
    function Pc(t: Thread): Pc {
      if t in pcs then pcs[t] else Outside
    }

    function At(t: Thread, pc: Pc): Process {
      this.(pcs := pcs[t := pc])
    }
  }

  /** Before any create the stamp is zero, which reads as "none yet". */
  function Begin(now: real): Process {
    Process(now, None, map[], 0.0, [])
  }

  datatype Move =
    | Tick(seconds: real)
    | Acquire(t: Thread, gap: real)
    | CheckGap(t: Thread)
    | WakeUp(t: Thread)
    | Start(t: Thread)
    | End(t: Thread)
    | StampDone(t: Thread)
    | Release(t: Thread)

  /** What a thread waits for after it reads the stamp. */
  function Remaining(p: Process, gap: real): real {
    if gap <= 0.0 || p.lastDone <= 0.0 then 0.0 else gap - (p.now - p.lastDone)
  }

  /** Where a move takes its thread; one that is not where the move needs it stays put. */
  function Goes(p: Process, m: Move): Pc
    requires !m.Tick?
  {
    match (m, p.Pc(m.t))
    case (Acquire(_, gap), Outside) => if p.owner.None? then Holding(gap) else Outside
    case (CheckGap(_), Holding(gap)) =>
      if Remaining(p, gap) > 0.0 then Sleeping(gap, p.now + Remaining(p, gap)) else Ready(gap)
    case (WakeUp(_), Sleeping(gap, until)) => if p.now >= until then Ready(gap) else Sleeping(gap, until)
    case (Start(_), Ready(gap)) => Creating(gap, p.now)
    case (End(_), Creating(gap, start)) => Ended(gap, start, p.now)
    case (StampDone(_), Ended(_, _, _)) => Stamped
    case (Release(_), Stamped) => Outside
    case (_, pc) => pc
  }

  function Next(p: Process, m: Move): Process {
    if m.Tick? then (if m.seconds >= 0.0 then p.(now := p.now + m.seconds) else p)
    else
      var pc, p' := p.Pc(m.t), p.At(m.t, Goes(p, m));
      if m.Acquire? && pc.Outside? && p.owner.None? then p'.(owner := Some(m.t))
      else if m.Release? && pc.Stamped? then p'.(owner := None)
      else if m.StampDone? && pc.Ended? then
        p'.(lastDone := p.now, log := p.log + [Create(pc.gap, pc.start, pc.end, p.now)])
      else p'
  }

  function Run(p: Process, moves: seq<Move>): Process
    decreases |moves|
  {
    if moves == [] then p else Run(Next(p, moves[0]), moves[1..])
  }

  // ---- What every interleaving keeps ----------------------------------------------------

  /** A create may start at `start` after the creates of `log`: past the last stamp, and by
  the gap unless that stamp reads as "none yet". */
  predicate Spaced(log: seq<Create>, gap: real, start: real) {
    log != [] ==>
      var last := log[|log| - 1];
      start >= last.stamp && (last.stamp > 0.0 ==> start >= last.stamp + gap)
  }

  predicate LogSound(log: seq<Create>) {
    forall j | 0 <= j < |log| ::
      log[j].start <= log[j].end <= log[j].stamp && Spaced(log[..j], log[j].gap, log[j].start)
  }

  /** Only the owner of the lock is past it. */
  predicate LockHeld(p: Process) {
    forall t | t in p.pcs :: !p.pcs[t].Outside? ==> p.owner == Some(t)
  }

  predicate StampRight(p: Process) {
    if p.log == [] then p.lastDone == 0.0 else p.lastDone == p.log[|p.log| - 1].stamp <= p.now
  }

  predicate PcSound(p: Process, pc: Pc) {
    match pc
    case Outside => false
    case Sleeping(gap, until) => until <= p.now + gap && Spaced(p.log, gap, until)
    case Ready(gap) => Spaced(p.log, gap, p.now)
    case Creating(gap, start) => start <= p.now && Spaced(p.log, gap, start)
    case Ended(gap, start, end) => start <= end <= p.now && Spaced(p.log, gap, start)
    case _ => true
  }

  predicate OwnerSound(p: Process) {
    p.owner.Some? ==> PcSound(p, p.Pc(p.owner.value))
  }

  predicate Sound(p: Process) {
    LockHeld(p) && StampRight(p) && LogSound(p.log) && OwnerSound(p)
  }

  lemma LogGrows(log: seq<Create>, c: Create)
    requires LogSound(log) && c.start <= c.end <= c.stamp && Spaced(log, c.gap, c.start)
    ensures LogSound(log + [c])
  {
    var log' := log + [c];
    forall j | 0 <= j < |log'|
      ensures log'[j].start <= log'[j].end <= log'[j].stamp && Spaced(log'[..j], log'[j].gap, log'[j].start)
    {
      assert log'[..j] == if j < |log| then log[..j] else log;
    }
  }

  lemma LockKept(p: Process, m: Move)
    requires LockHeld(p)
    ensures LockHeld(Next(p, m))
  {
    if !m.Tick? && p.owner == Some(m.t) {
      assert forall t | t in p.pcs && t != m.t :: p.pcs[t].Outside?;
    }
  }

  lemma LogKept(p: Process, m: Move)
    requires Sound(p)
    ensures StampRight(Next(p, m)) && LogSound(Next(p, m).log)
  {
    if m.StampDone? && p.Pc(m.t).Ended? {
      var pc := p.Pc(m.t);
      LogGrows(p.log, Create(pc.gap, pc.start, pc.end, p.now));
    }
  }

  lemma OwnerKept(p: Process, m: Move)
    requires Sound(p)
    ensures OwnerSound(Next(p, m))
  {
    hide LogSound;
    if !m.Tick? && p.owner == Some(m.t) {
      assert PcSound(p, p.Pc(m.t));
    }
  }

  lemma MoveKeepsSound(p: Process, m: Move)
    requires Sound(p)
    ensures Sound(Next(p, m))
  {
    hide LogSound, Next, PcSound, Spaced;
    LockKept(p, m);
    LogKept(p, m);
    OwnerKept(p, m);
  }

  lemma {:induction false} RunKeepsSound(p: Process, moves: seq<Move>)
    requires Sound(p)
    ensures Sound(Run(p, moves))
    decreases |moves|
  {
    if moves != [] {
      MoveKeepsSound(p, moves[0]);
      RunKeepsSound(Next(p, moves[0]), moves[1..]);
    }
  }

  predicate Positive(p: Process) {
    p.now > 0.0 && forall i | 0 <= i < |p.log| :: p.log[i].stamp > 0.0
  }

  lemma {:induction false} RunKeepsPositive(p: Process, moves: seq<Move>)
    requires Positive(p)
    ensures Positive(Run(p, moves))
    decreases |moves|
  {
    if moves != [] { RunKeepsPositive(Next(p, moves[0]), moves[1..]); }
  }

  /** Stamps never go back along a sound log. */
  lemma {:induction false} StampsGrow(log: seq<Create>, i: nat, j: nat)
    requires LogSound(log) && i <= j < |log|
    ensures log[i].stamp <= log[j].stamp
    decreases j
  {
    if i < j {
      StampsGrow(log, i, j - 1);
      assert log[..j][|log[..j]| - 1] == log[j - 1];
    }
  }

  /** In every interleaving at most one thread creates, and it owns the lock. */
  lemma OneCreateAtATime(now: real, moves: seq<Move>, s: Thread, t: Thread)
    requires Run(Begin(now), moves).Pc(s).Creating? && Run(Begin(now), moves).Pc(t).Creating?
    ensures s == t && Run(Begin(now), moves).owner == Some(t)
  {
    RunKeepsSound(Begin(now), moves);
  }

  /** In every interleaving, creates do not overlap, failed ones included, and each starts
  its own launcher's stagger after every one that ended before it. */
  lemma CreatesAreSpaced(now: real, moves: seq<Move>, i: nat, j: nat)
    requires i < j < |Run(Begin(now), moves).log|
    ensures var log := Run(Begin(now), moves).log;
      && log[i].start <= log[i].end <= log[i].stamp <= log[j].start
      && (now > 0.0 ==> log[j].start >= log[i].stamp + log[j].gap)
  {
    var log := Run(Begin(now), moves).log;
    RunKeepsSound(Begin(now), moves);
    if now > 0.0 { RunKeepsPositive(Begin(now), moves); }
    assert Spaced(log[..j], log[j].gap, log[j].start);
    assert log[..j][|log[..j]| - 1] == log[j - 1];
    StampsGrow(log, i, j - 1);
  }

  /** So does the one under way. */
  lemma CurrentCreateIsSpaced(now: real, moves: seq<Move>, i: nat, t: Thread)
    requires i < |Run(Begin(now), moves).log| && Run(Begin(now), moves).Pc(t).Creating?
    ensures var p := Run(Begin(now), moves);
      && p.log[i].end <= p.log[i].stamp <= p.Pc(t).start <= p.now
      && (now > 0.0 ==> p.Pc(t).start >= p.log[i].stamp + p.Pc(t).gap)
  {
    var p := Run(Begin(now), moves);
    RunKeepsSound(Begin(now), moves);
    if now > 0.0 { RunKeepsPositive(Begin(now), moves); }
    StampsGrow(p.log, i, |p.log| - 1);
  }

  // ---- No thread waits longer than it must -------------------------------------------------

  /** After it reads the stamp a thread sleeps until exactly its stagger after the last create
  was stamped, and not at all when that is past, when it has no stagger or when there is no
  stamp above zero. */
  lemma SleepsExactly(now: real, moves: seq<Move>, t: Thread)
    requires Run(Begin(now), moves).Pc(t).Holding?
    ensures var p := Run(Begin(now), moves);
      var gap, pc := p.Pc(t).gap, Next(p, CheckGap(t)).Pc(t);
      if p.log != [] && gap > 0.0 && p.log[|p.log| - 1].stamp > 0.0 && p.now < p.log[|p.log| - 1].stamp + gap
      then pc == Sleeping(gap, p.log[|p.log| - 1].stamp + gap)
      else pc == Ready(gap)
  {
    RunKeepsSound(Begin(now), moves);
  }

  // ---- The lock is always given back -----------------------------------------------------

  /** How long a thread at `pc` still has to sleep. */
  function Wait(p: Process, pc: Pc): real {
    match pc
    case Holding(gap) => if gap > 0.0 then gap else 0.0
    case Sleeping(_, until) => if until > p.now then until - p.now else 0.0
    case _ => 0.0
  }

  /** How many moves a thread at `pc` is from giving the lock back. */
  function Rank(p: Process, pc: Pc): nat {
    match pc
    case Outside => 0
    case Holding(_) => 7
    case Sleeping(_, until) => if p.now < until then 6 else 5
    case Ready(_) => 4
    case Creating(_, _) => 3
    case Ended(_, _, _) => 2
    case Stamped => 1
  }

  /** The owner's next move, once the clock has passed the time it sleeps until. */
  function NextOf(p: Process, t: Thread): Move {
    match p.Pc(t)
    case Outside => Acquire(t, 0.0)
    case Holding(_) => CheckGap(t)
    case Sleeping(_, until) => if p.now < until then Tick(until - p.now) else WakeUp(t)
    case Ready(_) => Start(t)
    case Creating(_, _) => End(t)
    case Ended(_, _, _) => StampDone(t)
    case Stamped => Release(t)
  }

  lemma OwnerMoves(p: Process, t: Thread)
    requires Sound(p) && p.owner == Some(t)
    ensures var p' := Next(p, NextOf(p, t));
      && Rank(p', p'.Pc(t)) < Rank(p, p.Pc(t))
      && p'.now + Wait(p', p'.Pc(t)) <= p.now + Wait(p, p.Pc(t))
      && (if p.Pc(t).Stamped? then p'.owner.None? else p'.owner == Some(t))
  {
    hide LogSound, Spaced;
    assert PcSound(p, p.Pc(t));
  }

  /** From any state the owner alone can get to the end: no other thread has to move, and
  the clock need not pass what is left of the owner's own gap. */
  lemma {:induction false} OwnerCanFinish(p: Process, t: Thread) returns (moves: seq<Move>)
    requires Sound(p) && p.owner == Some(t)
    ensures forall i | 0 <= i < |moves| :: moves[i].Tick? || moves[i].t == t
    ensures Run(p, moves).owner.None?
    ensures Run(p, moves).now <= p.now + Wait(p, p.Pc(t))
    decreases Rank(p, p.Pc(t))
  {
    hide Sound, Rank, Wait;
    var m := NextOf(p, t);
    var p' := Next(p, m);
    OwnerMoves(p, t);
    MoveKeepsSound(p, m);
    if p'.owner.None? {
      moves := [m];
      assert Run(p', moves[1..]) == p';
      assert 0.0 <= Wait(p', p'.Pc(t)) by { WaitIsPositive(p', p'.Pc(t)); }
    } else {
      var rest := OwnerCanFinish(p', t);
      moves := [m] + rest;
      assert moves[1..] == rest;
    }
  }

  lemma WaitIsPositive(p: Process, pc: Pc)
    ensures Wait(p, pc) >= 0.0
  {
  }

  /** So no interleaving, failed creates included, leaves the lock held for good. */
  lemma LockIsNeverStuck(now: real, before: seq<Move>, t: Thread) returns (after: seq<Move>)
    requires Run(Begin(now), before).owner == Some(t)
    ensures forall i | 0 <= i < |after| :: after[i].Tick? || after[i].t == t
    ensures Run(Run(Begin(now), before), after).owner.None?
    ensures var p := Run(Begin(now), before);
      Run(p, after).now <= p.now + Wait(p, p.Pc(t))
  {
    RunKeepsSound(Begin(now), before);
    after := OwnerCanFinish(Run(Begin(now), before), t);
  }

  lemma {:induction false} RunOneMore(p: Process, moves: seq<Move>, m: Move)
    ensures Run(p, moves + [m]) == Next(Run(p, moves), m)
    decreases |moves|
  {
    if moves == [] {
      assert Run(Next(p, m), []) == Next(p, m);
    } else {
      assert (moves + [m])[1..] == moves[1..] + [m];
      RunOneMore(Next(p, moves[0]), moves[1..], m);
    }
  }

  /** One thread's passage from the lock to the release, on a clock that stands still. */
  function Passage(t: Thread, gap: real): seq<Move> {
    [Acquire(t, gap), CheckGap(t), Start(t), End(t), StampDone(t), Release(t)]
  }

  /** Thread `t` owns the lock and is at `pc`. */
  function Within(p: Process, t: Thread, pc: Pc): Process {
    p.At(t, pc).(owner := Some(t))
  }

  lemma MovesWithin(p: Process, t: Thread, pc: Pc, m: Move)
    requires (m.CheckGap? || m.Start? || m.End?) && m.t == t
    ensures Next(Within(p, t, pc), m) == Within(p, t, Goes(Within(p, t, pc), m))
  {
    var next := Goes(Within(p, t, pc), m);
    assert p.pcs[t := pc][t := next] == p.pcs[t := next];
  }

  lemma RunUnfolds(p: Process, m: Move, rest: seq<Move>)
    ensures Run(p, [m] + rest) == Run(Next(p, m), rest)
  {
    assert ([m] + rest)[1..] == rest;
  }

  /** From a free lock and a stamp that reads as "none yet", a thread reaches the end of its
  create in no time. */
  lemma CreatesAtOnce(p: Process, t: Thread, gap: real)
    requires p.owner.None? && p.Pc(t).Outside? && p.lastDone <= 0.0
    ensures Run(p, [Acquire(t, gap), CheckGap(t), Start(t), End(t)]) == Within(p, t, Ended(gap, p.now, p.now))
  {
    hide Run;
    MovesWithin(p, t, Holding(gap), CheckGap(t));
    MovesWithin(p, t, Ready(gap), Start(t));
    MovesWithin(p, t, Creating(gap, p.now), End(t));
    RunUnfolds(p, Acquire(t, gap), [CheckGap(t), Start(t), End(t)]);
    RunUnfolds(Within(p, t, Holding(gap)), CheckGap(t), [Start(t), End(t)]);
    RunUnfolds(Within(p, t, Ready(gap)), Start(t), [End(t)]);
    RunUnfolds(Within(p, t, Creating(gap, p.now)), End(t), []);
    assert [Acquire(t, gap)] + [CheckGap(t), Start(t), End(t)] == [Acquire(t, gap), CheckGap(t), Start(t), End(t)];
    assert [CheckGap(t)] + [Start(t), End(t)] == [CheckGap(t), Start(t), End(t)];
    assert [Start(t)] + [End(t)] == [Start(t), End(t)] && [End(t)] + [] == [End(t)];
    RunNothing(Within(p, t, Ended(gap, p.now, p.now)));
  }

  lemma RunNothing(p: Process)
    ensures Run(p, []) == p
  {
  }

  lemma PassageAtOnce(p: Process, t: Thread, gap: real)
    requires p.owner.None? && p.Pc(t).Outside? && p.lastDone <= 0.0
    ensures Run(p, Passage(t, gap)) ==
      p.At(t, Outside).(lastDone := p.now, log := p.log + [Create(gap, p.now, p.now, p.now)])
  {
    var first := [Acquire(t, gap), CheckGap(t), Start(t), End(t)];
    var ended := Within(p, t, Ended(gap, p.now, p.now));
    CreatesAtOnce(p, t, gap);
    RunOneMore(p, first, StampDone(t));
    RunOneMore(p, first + [StampDone(t)], Release(t));
    assert first + [StampDone(t)] + [Release(t)] == Passage(t, gap);
    hide Run;
    StampAndRelease(p, t, gap);
  }

  lemma StampAndRelease(p: Process, t: Thread, gap: real)
    requires p.owner.None?
    ensures Next(Next(Within(p, t, Ended(gap, p.now, p.now)), StampDone(t)), Release(t)) ==
      p.At(t, Outside).(lastDone := p.now, log := p.log + [Create(gap, p.now, p.now, p.now)])
  {
    var ended: Pc := Ended(gap, p.now, p.now);
    assert p.pcs[t := ended][t := Stamped][t := Outside] == p.pcs[t := Outside];
  }

  /** On a clock that is not positive a stamp reads as "none yet": the gap is skipped, and one
  create can follow another at once. */
  lemma GapSkippedBeforeZero(now: real, gap: real)
    requires now <= 0.0
    ensures Run(Begin(now), Passage(0, gap) + Passage(1, gap)).log ==
      [Create(gap, now, now, now), Create(gap, now, now, now)]
  {
    RunConcat(Begin(now), Passage(0, gap), Passage(1, gap));
    PassageAtOnce(Begin(now), 0, gap);
    PassageAtOnce(Run(Begin(now), Passage(0, gap)), 1, gap);
  }

  lemma {:induction false} RunConcat(p: Process, a: seq<Move>, b: seq<Move>)
    ensures Run(p, a + b) == Run(Run(p, a), b)
    decreases |a|
  {
    if a == [] {
      assert a + b == b;
    } else {
      assert (a + b)[1..] == a[1..] + b;
      RunConcat(Next(p, a[0]), a[1..], b);
    }
  }

  /** Each create starts its own launcher's stagger after every one before it. */
  predicate EverySpaced(log: seq<Create>) {
    forall i, j | 0 <= i < j < |log| :: log[j].start >= log[i].stamp + log[j].gap
  }

  /** Every interleaving keeps the stagger exactly when the clock starts above zero. */
  lemma AlwaysSpacedIff(now: real)
    ensures (forall moves :: EverySpaced(Run(Begin(now), moves).log)) <==> now > 0.0
  {
    if now > 0.0 {
      forall moves ensures EverySpaced(Run(Begin(now), moves).log) {
        var log := Run(Begin(now), moves).log;
        forall i, j | 0 <= i < j < |log| ensures log[j].start >= log[i].stamp + log[j].gap {
          CreatesAreSpaced(now, moves, i, j);
        }
      }
    } else {
      var moves := Passage(0, 1.0) + Passage(1, 1.0);
      GapSkippedBeforeZero(now, 1.0);
      var log := Run(Begin(now), moves).log;
      assert log[1].start < log[0].stamp + log[1].gap;
      assert !EverySpaced(log);
    }
  }
}
