/** Waiting for something outside to hold still: a session's idle, a node's working tree. */
module Settle {

  // ---- wait_for_session_idle --------------------------------------------------------------

  /** One pass: the clock at the loop's test, whether the session read as idle, and the clock
  after the read. A read that failed is not idle. */
  datatype Beat = Beat(check: real, idle: bool, now: real)

  predicate AllIdle(beats: seq<Beat>, i: nat, k: nat)
    requires i <= k <= |beats|
  {
    forall j | i <= j < k :: beats[j].idle
  }

  /** Every beat from some `i` up to `k` was idle, and together they span the window. */
  ghost predicate IdleFor(beats: seq<Beat>, window: real, k: nat)
    requires k < |beats|
  {
    exists i: nat :: SpansIdle(beats, window, i, k)
  }

  predicate SpansIdle(beats: seq<Beat>, window: real, i: nat, k: nat)
    requires k < |beats|
  {
    i < k && AllIdle(beats, i, k + 1) && beats[k].now - beats[i].now >= window
  }

  predicate BeatsTick(beats: seq<Beat>) {
    forall j, k | 0 <= j < k < |beats| :: beats[j].now <= beats[k].now
  }

  /** True at the first beat that ends a long enough idle stretch; a transient idle never
  counts, and the wait gives up only at a test past its deadline. */
  method WaitForSessionIdle(start: real, timeout: real, window: real, beats: seq<Beat>)
    returns (settled: bool, gaveUp: bool, used: nat)
    requires BeatsTick(beats)
    ensures used <= |beats| && !(settled && gaveUp) && (!settled && !gaveUp ==> used == |beats|)
    ensures settled ==> used > 0 && IdleFor(beats, window, used - 1)
    ensures forall k | 0 <= k < (if settled then used - 1 else used) :: !IdleFor(beats, window, k)
    ensures forall k | 0 <= k < used :: beats[k].check < start + timeout
    ensures gaveUp ==> used < |beats| && beats[used].check >= start + timeout
  {
    settled, gaveUp, used := false, false, 0;
    var isIdle, since := false, 0.0;
    ghost var first := 0;
    while used < |beats|
      invariant used <= |beats| && !settled && !gaveUp
      invariant isIdle ==> first < used && AllIdle(beats, first, used) && since == beats[first].now
      invariant isIdle && first > 0 ==> !beats[first - 1].idle
      invariant !isIdle && used > 0 ==> !beats[used - 1].idle
      invariant forall k | 0 <= k < used :: beats[k].check < start + timeout
      invariant forall k | 0 <= k < used :: !IdleFor(beats, window, k)
    {
      if beats[used].check >= start + timeout {
        gaveUp := true;
        return;
      }
      var beat := beats[used];
      used := used + 1;
      if !beat.idle {
        isIdle := false;
      } else if !isIdle {
        isIdle, since, first := true, beat.now, used - 1;
      } else if beat.now - since >= window {
        settled := true;
        assert SpansIdle(beats, window, first, used - 1);
        return;
      }
    }
  }

  // ---- wait_for_node_settle ------------------------------------------------------------------

  /** A sample of the tree: the loop's test, a fingerprint, whether `git status` lists
  anything, and the clock after that. */
  datatype Look = Look(check: real, tree: string, dirty: bool, now: real)

  predicate Unchanged(looks: seq<Look>, i: nat, k: nat)
    requires i <= k < |looks|
  {
    forall j | i <= j <= k :: looks[j].tree == looks[k].tree
  }

  predicate SpansStill(looks: seq<Look>, window: real, i: nat, k: nat)
    requires k < |looks|
  {
    i < k && Unchanged(looks, i, k) && looks[k].now - looks[i].now >= window
  }

  /** Look `k` finds edits, and every look since some `i` a window earlier found the same. */
  ghost predicate StillFor(looks: seq<Look>, window: real, k: nat)
    requires k < |looks|
  {
    looks[k].dirty && exists i: nat :: SpansStill(looks, window, i, k)
  }

  predicate LooksTick(looks: seq<Look>) {
    forall j, k | 0 <= j < k < |looks| :: looks[j].now <= looks[k].now
  }

  /** Returns at the first look that ends a long enough still stretch of an edited tree, or
  past the deadline; `looks[0]` is the sample taken before the loop. */
  method WaitForNodeSettle(present: bool, start: real, timeout: real, window: real, looks: seq<Look>)
    returns (settled: bool, gaveUp: bool, used: nat)
    requires LooksTick(looks) && looks != []
    ensures !present ==> !settled && !gaveUp && used == 0
    ensures present ==> 1 <= used <= |looks| && !(settled && gaveUp) && (!settled && !gaveUp ==> used == |looks|)
    ensures settled ==> used > 1 && StillFor(looks, window, used - 1)
    ensures forall k | 0 <= k < (if settled then used - 1 else used) :: !StillFor(looks, window, k)
    ensures forall k | 1 <= k < used :: looks[k].check < start + timeout
    ensures gaveUp ==> used < |looks| && looks[used].check >= start + timeout
  {
    settled, gaveUp, used := false, false, 0;
    if !present {
      return;
    }
    used := 1;
    var last, lastChange := looks[0].tree, looks[0].now;
    ghost var first := 0;
    while used < |looks|
      invariant 1 <= used <= |looks| && !settled && !gaveUp
      invariant first < used && Unchanged(looks, first, used - 1)
      invariant last == looks[used - 1].tree && lastChange == looks[first].now
      invariant first > 0 ==> looks[first - 1].tree != last
      invariant forall k | 1 <= k < used :: looks[k].check < start + timeout
      invariant forall k | 0 <= k < used :: !StillFor(looks, window, k)
    {
      if looks[used].check >= start + timeout {
        gaveUp := true;
        return;
      }
      var look := looks[used];
      used := used + 1;
      if look.tree != last {
        last, lastChange, first := look.tree, look.now, used - 1;
      } else if look.dirty && look.now - lastChange >= window {
        settled := true;
        assert SpansStill(looks, window, first, used - 1);
        return;
      }
    }
  }
}
