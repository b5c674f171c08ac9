/** What the node operations do to a run: the hub's branches and the node clones. */
module HubSpec {
  import opened CommitGraph
  import opened Clones
  import opened Option

  /** `trunk` is the branch the hub's own HEAD is on. */
  datatype World = World(hub: Refs, clones: map<string, Clone>, trunk: Branch) {

    /** A node's clone, replaced. */
    function With(n: string, c: Clone): World {
      this.(clones := clones[n := c])
    }

    /** The hub holds nothing less than the clone does. */
    predicate Matches(n: string) {
      n in clones && clones[n].Clean() && clones[n].Born()
      && OfNode(n) in hub && clones[n].HeadCommit() == hub[OfNode(n)]
    }

    /** The clone's HEAD is not the hub's tip. */
    predicate Ahead(n: string) {
      n in clones && clones[n].Born() && OfNode(n) in hub && clones[n].HeadCommit() != hub[OfNode(n)]
    }

    /** The branch of `n` holds the tip of `ancestor`; a missing branch answers no. */
    predicate Contains(n: string, ancestor: string) {
      OfNode(n) in hub && OfNode(ancestor) in hub && Ancestor(hub[OfNode(ancestor)], hub[OfNode(n)])
    }

    /** A node that left a branch behind which lacks the seed it is re-cut from. */
    predicate Stale(n: string, from: Option<string>) {
      from.Some? && OfNode(n) in hub && !Contains(n, from.value)
    }
  }

  /** Where an operation left the run, and why it stopped short. */
  datatype Report = Report(world: World, error: Option<Error>)

  /** Everything the clone holds, as a commit: pending edits go on top of HEAD. */
  function Snapshot(c: Clone, info: string): Effect {
    if c.Clean() then Ok(c)
    else if c.work == c.HeadTree() then Fail(c.(index := c.work), NothingToCommit)
    else
      var parents := if c.Born() then [c.HeadCommit()] else [];
      Ok(c.MoveHead(Commit(parents, c.work, info)).(index := c.work))
  }

  /** A clone whose HEAD has the hub's tip behind it, or the reason it cannot have. */
  function Integrate(c: Clone, tip: Commit, info: string): Effect {
    if !c.Born() then Fail(c, NoHead)
    else if Ancestor(tip, c.HeadCommit()) then Ok(c)
    else if Ancestor(c.HeadCommit(), tip) then Fail(c, BehindHub)
    else c.MergeOurs(tip, info)
  }

  /** `git push origin <branch of n>`; without `force` only a fast-forward is taken. */
  function Push(w: World, n: string, force: bool): Report
    requires n in w.clones
  {
    var b, c := OfNode(n), w.clones[n];
    if b !in c.branches then Report(w, Some(NoSuchRef))
    else if !force && b in w.hub && !Ancestor(w.hub[b], c.branches[b]) then Report(w, Some(NotFastForward))
    else
      var tip := c.branches[b];
      Report(w.(hub := w.hub[b := tip]).With(n, c.(remote := c.remote[b := tip])), None)
  }

  /** `commit_node`. */
  function CommitNode(w: World, n: string, info: string, mergeInfo: string): Report {
    if n !in w.clones then Report(w, Some(NoClone))
    else match Snapshot(w.clones[n], info)
      case Fail(c, why) => Report(w.With(n, c), Some(why))
      case Ok(c) =>
        var done := if OfNode(n) in w.hub then Integrate(c, w.hub[OfNode(n)], mergeInfo) else Ok(c);
        if done.Fail? then Report(w.With(n, done.clone), Some(done.why))
        else Push(w.With(n, done.clone), n, false)
  }

  /** `reseed_node_worktree`. */
  function Reseed(w: World, n: string, from: string): Report {
    if n !in w.clones then Report(w, Some(NoClone))
    else match w.clones[n].Fetch(w.hub, OfNode(from))
      case Fail(c, why) => Report(w, Some(why))
      case Ok(c) => Report(w.With(n, c.ResetHard(OfNode(from)).clone), None)
  }

  /** `merge_node_into`. */
  function MergeInto(w: World, source: string, target: string, info: string, content: Content): Report {
    if target !in w.clones then Report(w, Some(NoClone))
    else
      var c := w.clones[target].(remote := w.clones[target].remote + w.hub);
      if OfNode(source) !in c.remote then Report(w.With(target, c), Some(NoSuchRef))
      else match c.MergeNoFf(c.remote[OfNode(source)], info, content)
        case Fail(c', why) => Report(w.With(target, c'), Some(why))
        case Ok(c') => Push(w.With(target, c'), target, false)
  }

  /** The branch a node is cut from. */
  function StartOf(w: World, n: string, from: Option<string>, base: Branch, replace: bool): Branch {
    if replace && OfNode(n) in w.hub && !w.Stale(n, from) then OfNode(n)
    else if from.Some? then OfNode(from.value)
    else base
  }

  /** `create_node_worktree`. */
  function CreateNode(w: World, n: string, from: Option<string>, base: Branch, replace: bool): Report {
    if n in w.clones && !replace then Report(w, Some(CloneExists))
    else
      var start := StartOf(w, n, from, base, replace);
      var bare := FreshClone(w.hub, w.trunk);
      if start !in w.hub then Report(w.With(n, bare), Some(NoSuchRef))
      else Push(w.With(n, CheckOut(bare, OfNode(n), w.hub[start])), n, replace)
  }

  /** `alias_node_branch`: a forced move, made in the hub itself. */
  function AliasNode(w: World, alias: string, target: string): Report {
    if OfNode(target) !in w.hub then Report(w, Some(NoSuchRef))
    else Report(w.(hub := w.hub[OfNode(alias) := w.hub[OfNode(target)]]), None)
  }

  /** `dispose_node_worktrees`. */
  function Dispose(w: World, nodes: seq<string>): World {
    w.(clones := map n | n in w.clones && n !in nodes :: w.clones[n])
  }

  // ---- Runs -------------------------------------------------------------------

  /** One event of a run. */
  datatype Op =
    | Agent(node: string, clone: Clone)
    | CommitWork(node: string, info: string, mergeInfo: string)
    | RacedPush(node: string)
    | ReseedFrom(node: string, from: string)
    | Merge(source: string, node: string, info: string, content: Content)
    | Create(node: string, seed: Option<string>, base: Branch, replace: bool)
    | Alias(node: string, target: string)
    | Drop(nodes: seq<string>)

  /** The run after one event.

  An agent leaves its own clone in any state at all, and cannot reach the hub. A raced
  push is the last step of `commit_node` after the agent moved the clone under it.
  */
  function Apply(w: World, op: Op): World {
    match op
    case Agent(n, c) => if n in w.clones then w.With(n, c) else w
    case CommitWork(n, info, mergeInfo) => CommitNode(w, n, info, mergeInfo).world
    case RacedPush(n) => if n in w.clones then Push(w, n, false).world else w
    case ReseedFrom(n, from) => Reseed(w, n, from).world
    case Merge(source, n, info, content) => MergeInto(w, source, n, info, content).world
    case Create(n, seed, base, replace) => CreateNode(w, n, seed, base, replace).world
    case Alias(n, target) => AliasNode(w, n, target).world
    case Drop(nodes) => Dispose(w, nodes)
  }

  function Run(w: World, ops: seq<Op>): World
    decreases |ops|
  {
    if ops == [] then w else Run(Apply(w, ops[0]), ops[1..])
  }
}
