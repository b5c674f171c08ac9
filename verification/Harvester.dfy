/** The token harvester's cadence: a steady interval, and a backoff while it fails. */
module Harvester {

  const FLOOR_S: real := 30.0
  const CEIL_S: real := 600.0

  /** How a cycle went: the token was fetched, or not, and installed, or not. */
  datatype Cycle = Cycle(poked: bool, installed: bool) {
    predicate Succeeds() {
      poked && installed
    }
  }

  function Pow2(k: nat): real {
    if k == 0 then 1.0 else 2.0 * Pow2(k - 1)
  }

  function Capped(pause: real): real {
    if pause <= CEIL_S then pause else CEIL_S
  }

  /** How many cycles right before cycle `i` failed. */
  function FailuresBefore(cycles: seq<Cycle>, i: nat): nat
    requires i <= |cycles|
  {
    if i == 0 || cycles[i - 1].Succeeds() then 0 else 1 + FailuresBefore(cycles, i - 1)
  }

  /** The pause after cycle `i`: the interval, or the floor doubled once for every failure
  in a row before it, up to the ceiling. */
  function PauseAfter(cycles: seq<Cycle>, interval: real, i: nat): real
    requires i < |cycles|
  {
    if cycles[i].Succeeds() then interval else Capped(FLOOR_S * Pow2(FailuresBefore(cycles, i)))
  }

  /** That many cycles in a row failed, and the one before them, if there was one, did not. */
  lemma {:induction false} FailuresInARow(cycles: seq<Cycle>, i: nat)
    requires i <= |cycles|
    ensures var k := FailuresBefore(cycles, i);
      && k <= i && (forall j | i - k <= j < i :: !(cycles[j].poked && cycles[j].installed))
      && (k < i ==> cycles[i - k - 1].poked && cycles[i - k - 1].installed)
  {
    if i > 0 && !cycles[i - 1].Succeeds() { FailuresInARow(cycles, i - 1); }
  }

  /** Capping at every doubling is capping once at the end. */
  lemma DoubleThenCap(k: nat)
    ensures Capped(Capped(FLOOR_S * Pow2(k)) * 2.0) == Capped(FLOOR_S * Pow2(k + 1))
  {
  }

  /** `stamps` are the cycles that recorded a harvest. */
  method RunForever(cycles: seq<Cycle>, interval: real) returns (pauses: seq<real>, stamps: seq<nat>)
    ensures forall i | 0 <= i < |cycles| && cycles[i].poked && cycles[i].installed :: i < |pauses| && pauses[i] == interval
    ensures forall i | 0 <= i < |cycles| && !(cycles[i].poked && cycles[i].installed) ::
      i < |pauses| && pauses[i] ==
        if 30.0 * Pow2(FailuresBefore(cycles, i)) <= 600.0 then 30.0 * Pow2(FailuresBefore(cycles, i)) else 600.0
    ensures |pauses| == |cycles| && forall i | 0 <= i < |cycles| :: pauses[i] == PauseAfter(cycles, interval, i)
    ensures forall i | 0 <= i < |cycles| :: i in stamps <==> cycles[i].poked && cycles[i].installed
    ensures forall i, j | 0 <= i < j < |stamps| :: stamps[i] < stamps[j]
  {
    var backoff := FLOOR_S;
    pauses, stamps := [], [];
    for n := 0 to |cycles|
      invariant backoff == Capped(FLOOR_S * Pow2(FailuresBefore(cycles, n)))
      invariant |pauses| == n && forall i | 0 <= i < n :: pauses[i] == PauseAfter(cycles, interval, i)
      invariant forall i | 0 <= i < n :: i in stamps <==> cycles[i].Succeeds()
      invariant forall i | 0 <= i < |stamps| :: stamps[i] < n
      invariant forall i, j | 0 <= i < j < |stamps| :: stamps[i] < stamps[j]
    {
      if !cycles[n].poked || !cycles[n].installed {
        pauses := pauses + [backoff];
        backoff := Capped(backoff * 2.0);
        DoubleThenCap(FailuresBefore(cycles, n));
      } else {
        stamps := stamps + [n];
        backoff := FLOOR_S;
        pauses := pauses + [interval];
      }
    }
  }
}
