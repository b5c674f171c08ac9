/** What holds of a hub branch over every run, whatever the agents do. */
module HubSafety {
  import opened CommitGraph
  import opened Clones
  import opened HubSpec
  import opened Option

  /** Branch `b` is kept by the step from `h` to `h'`: it only moves to a descendant. */
  predicate Forward(h: Refs, h': Refs, b: Branch) {
    b in h ==> b in h' && Ancestor(h[b], h'[b])
  }

  /** One of the two tips is behind the other. */
  predicate InLine(a: Commit, b: Commit) {
    Ancestor(a, b) || Ancestor(b, a)
  }

  /** The event discards part of branch `b`: the two forced moves the launcher makes.

  A re-cut is forced, but discards only when the branch and the seed have diverged: neither
  has the other's tip behind it.
  */
  predicate Discards(w: World, op: Op, b: Branch) {
    b in w.hub &&
    match op
    case Create(n, seed, _, replace) =>
      b == OfNode(n) && replace && seed.Some? && OfNode(seed.value) in w.hub
      && !InLine(w.hub[b], w.hub[OfNode(seed.value)])
    case Alias(n, target) =>
      b == OfNode(n) && OfNode(target) in w.hub && !Ancestor(w.hub[b], w.hub[OfNode(target)])
    case _ => false
  }

  /** Exactly the discarding events move a hub branch anywhere but forward. */
  lemma ForwardUnlessDiscarded(w: World, op: Op, b: Branch)
    ensures Forward(w.hub, Apply(w, op).hub, b) <==> !Discards(w, op, b)
  {
    match op
    case CommitWork(n, info, mergeInfo) =>
      if n in w.clones && Snapshot(w.clones[n], info).Ok? { }
    case Create(n, seed, base, replace) =>
    case _ =>
  }

  /** Some event of the run discards part of `b` in the state it meets. */
  predicate EverDiscards(w: World, ops: seq<Op>, b: Branch)
    decreases |ops|
  {
    ops != [] && (Discards(w, ops[0], b) || EverDiscards(Apply(w, ops[0]), ops[1..], b))
  }

  /** A hub branch only moves forward over a whole run of arbitrary agents. */
  lemma {:induction false} RunForward(w: World, ops: seq<Op>, b: Branch)
    requires !EverDiscards(w, ops, b)
    ensures Forward(w.hub, Run(w, ops).hub, b)
    decreases |ops|
  {
    if ops != [] {
      var w1 := Apply(w, ops[0]);
      ForwardUnlessDiscarded(w, ops[0], b);
      RunForward(w1, ops[1..], b);
      if b in w.hub {
        AncestorTrans(w.hub[b], w1.hub[b], Run(w, ops).hub[b]);
      }
    }
  }

  /** Every commit that was ever behind a hub branch stays behind it. */
  lemma NothingIsLost(w: World, before: seq<Op>, after: seq<Op>, b: Branch, c: Commit)
    requires b in Run(w, before).hub && Ancestor(c, Run(w, before).hub[b])
    requires !EverDiscards(Run(w, before), after, b)
    ensures b in Run(w, before + after).hub && Ancestor(c, Run(w, before + after).hub[b])
  {
    RunConcat(w, before, after);
    RunForward(Run(w, before), after, b);
    AncestorTrans(c, Run(w, before).hub[b], Run(w, before + after).hub[b]);
  }

  lemma {:induction false} RunConcat(w: World, a: seq<Op>, b: seq<Op>)
    ensures Run(w, a + b) == Run(Run(w, a), b)
    decreases |a|
  {
    if a == [] {
      assert a + b == b;
    } else {
      assert (a + b)[1..] == a[1..] + b;
      RunConcat(Apply(w, a[0]), a[1..], b);
    }
  }

  /** The only hub branch an event can move. */
  function Target(op: Op): Option<Branch> {
    match op
    case CommitWork(n, _, _) => Some(OfNode(n))
    case RacedPush(n) => Some(OfNode(n))
    case Merge(_, n, _, _) => Some(OfNode(n))
    case Create(n, _, _, _) => Some(OfNode(n))
    case Alias(n, _) => Some(OfNode(n))
    case _ => None
  }

  lemma OtherUntouched(w: World, op: Op, b: Branch)
    requires Target(op) != Some(b)
    ensures b in w.hub <==> b in Apply(w, op).hub
    ensures b in w.hub ==> Apply(w, op).hub[b] == w.hub[b]
  {
    hide Snapshot, Integrate, Ancestor, StartOf, FreshClone, CheckOut;
  }

  /** No event touches a base branch, or the branch of a node it does not name. */
  lemma {:induction false} OthersUntouched(w: World, ops: seq<Op>, b: Branch)
    requires forall i | 0 <= i < |ops| :: Target(ops[i]) != Some(b)
    ensures b in w.hub <==> b in Run(w, ops).hub
    ensures b in w.hub ==> Run(w, ops).hub[b] == w.hub[b]
    decreases |ops|
  {
    if ops != [] {
      OtherUntouched(w, ops[0], b);
      OthersUntouched(Apply(w, ops[0]), ops[1..], b);
    }
  }
}
