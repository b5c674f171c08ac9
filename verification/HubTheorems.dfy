/** What each node operation promises about the branch it works on. */
module HubTheorems {
  import opened CommitGraph
  import opened Clones
  import opened HubSpec
  import opened HubSafety
  import opened Option

  /** HEAD is on branch `b`, with `tip` behind it. */
  predicate Extends(c: Clone, b: Branch, tip: Commit) {
    c.On(b) && Ancestor(tip, c.HeadCommit())
  }

  // ---- commit_node ------------------------------------------------------------

  /** Edits were staged and then taken back: something to add, nothing to commit. */
  predicate StagedThenUndone(c: Clone) {
    c.work == c.HeadTree() && c.index != c.work
  }

  /** The commit HEAD names once pending edits are committed. */
  function Work(c: Clone, info: string): Commit
    requires c.Born()
  {
    if c.work == c.HeadTree() then c.HeadCommit() else Commit([c.HeadCommit()], c.work, info)
  }

  /** The clone's working tree is what the hub would show after `report`. */
  predicate Published(report: Report, n: string, work: Tree) {
    OfNode(n) in report.world.hub && report.world.hub[OfNode(n)].tree == work
  }

  /** With HEAD on the node's branch, when `commit_node` refuses and what it publishes.

  The agent may have amended, rebased, squashed or reset: only related histories and
  HEAD on the branch are asked for.
  */
  lemma CommitNodeOnBranch(w: World, n: string, info: string, mergeInfo: string)
    requires n in w.clones && w.clones[n].On(OfNode(n)) && OfNode(n) in w.hub
    requires Related(w.clones[n].HeadCommit(), w.hub[OfNode(n)])
    ensures var c, tip, r := w.clones[n], w.hub[OfNode(n)], CommitNode(w, n, info, mergeInfo);
      var mine := Work(c, info);
      // Refused exactly when there is nothing to commit after all, or the work is behind.
      && (r.error.Some? <==> StagedThenUndone(c) || (Ancestor(mine, tip) && mine != tip))
      && (r.error.Some? ==> r.world.hub == w.hub && r.error.value in {NothingToCommit, BehindHub})
      && (r.error == Some(BehindHub) ==> !StagedThenUndone(c))
      // Otherwise the hub shows the agent's own tree, with both histories behind it.
      && (r.error.None? ==>
        && Published(r, n, c.work)
        && var tip' := r.world.hub[OfNode(n)];
        && Ancestor(tip, tip') && Ancestor(mine, tip')
        && tip' == (if Ancestor(tip, mine) then mine else Commit([mine, tip], c.work, mergeInfo))
        && (tip' == tip <==> mine == tip)
        && r.world.Matches(n) && !r.world.Ahead(n))
  {
    var c, tip := w.clones[n], w.hub[OfNode(n)];
    var head, mine := c.HeadCommit(), Work(c, info);
    if !StagedThenUndone(c) {
      assert Ancestor(head, mine) by { if mine != head { ParentIsAncestor(head, mine); } }
      assert Ancestor(tip, tip);
      RelatedForward(head, tip, mine, tip);
      if Ancestor(mine, tip) && Ancestor(tip, mine) { AncestorAntisym(mine, tip); }
      var joined := Commit([mine, tip], mine.tree, mergeInfo);
      assert joined.parents[0] == mine && joined.parents[1] == tip;
      ParentIsAncestor(mine, joined);
      ParentIsAncestor(tip, joined);
    }
  }

  /** What HEAD names once pending edits are committed, if it names anything. */
  function Mine(c: Clone, info: string): Option<Commit> {
    if c.Born() then Some(Work(c, info))
    else if c.work == map[] then None
    else Some(Commit([], c.work, info))
  }

  /** What HEAD names once the hub's tip is behind it as well. */
  function Landing(c: Clone, tip: Option<Commit>, info: string, mergeInfo: string): Option<Commit> {
    var mine := Mine(c, info);
    if mine.Some? && tip.Some? && !Ancestor(tip.value, mine.value) then
      Some(Commit([mine.value, tip.value], mine.value.tree, mergeInfo))
    else mine
  }

  function TipOf(w: World, n: string): Option<Commit> {
    if OfNode(n) in w.hub then Some(w.hub[OfNode(n)]) else None
  }

  /** The work can have the hub's tip behind it: there is some, and it is neither behind the
  tip nor unrelated to it. */
  predicate Joins(mine: Option<Commit>, tip: Commit) {
    && mine.Some?
    && (Ancestor(tip, mine.value) || (!Ancestor(mine.value, tip) && Related(mine.value, tip)))
  }

  function HeadOf(c: Clone): Option<Commit> {
    if c.Born() then Some(c.HeadCommit()) else None
  }

  /** Branch `b` is HEAD's in both or in neither, and as it was if in neither. */
  predicate BranchKept(c: Clone, c': Clone, b: Branch) {
    && (c'.head == Attached(b) <==> c.head == Attached(b))
    && (c.head != Attached(b) ==> (b in c'.branches <==> b in c.branches))
    && (c.head != Attached(b) && b in c.branches ==> c'.branches[b] == c.branches[b])
  }

  lemma SnapshotIsMine(c: Clone, info: string, b: Branch)
    ensures Snapshot(c, info).Ok? <==> !StagedThenUndone(c)
    ensures var c' := Snapshot(c, info).clone;
      Snapshot(c, info).Ok? ==> c'.Clean() && HeadOf(c') == Mine(c, info) && BranchKept(c, c', b)
  {
  }

  lemma IntegrateLands(c: Clone, tip: Commit, info: string, b: Branch)
    requires c.Clean()
    ensures Integrate(c, tip, info).Ok? <==> Joins(HeadOf(c), tip)
    ensures Integrate(c, tip, info).Ok? ==>
      var c', head := Integrate(c, tip, info).clone, c.HeadCommit();
      && c'.Clean() && c'.Born() && BranchKept(c, c', b) && Ancestor(tip, c'.HeadCommit())
      && c'.HeadCommit() == if Ancestor(tip, head) then head else Commit([head, tip], head.tree, info)
  {
    hide Related;
    if c.Born() {
      var joined := Commit([c.HeadCommit(), tip], c.HeadTree(), info);
      assert joined.parents[1] == tip;
      ParentIsAncestor(tip, joined);
    }
  }

  /** The clone a commit pushes from, if it gets that far. */
  lemma ReadyToPush(w: World, n: string, info: string, mergeInfo: string) returns (c': Clone)
    requires n in w.clones
    ensures var c, tip := w.clones[n], TipOf(w, n);
      if !StagedThenUndone(c) && (tip.Some? ==> Joins(Mine(c, info), tip.value)) then
        && CommitNode(w, n, info, mergeInfo) == Push(w.With(n, c'), n, false)
        && c'.Clean() && BranchKept(c, c', OfNode(n)) && HeadOf(c') == Landing(c, tip, info, mergeInfo)
        && (tip.Some? ==> c'.Born() && Ancestor(tip.value, c'.HeadCommit()))
      else CommitNode(w, n, info, mergeInfo).error.Some?
  {
    hide Related, Ancestor, Snapshot, Integrate, Push, Mine, StagedThenUndone;
    var c, b := w.clones[n], OfNode(n);
    SnapshotIsMine(c, info, b);
    c' := Snapshot(c, info).clone;
    if Snapshot(c, info).Ok? && b in w.hub {
      IntegrateLands(c', w.hub[b], mergeInfo, b);
      c' := Integrate(c', w.hub[b], mergeInfo).clone;
    }
  }

  /** For every clone, wherever its HEAD is: when `commit_node` succeeds, told before the call. */
  lemma CommitNodeSucceedsIff(w: World, n: string, info: string, mergeInfo: string)
    requires n in w.clones
    ensures var c, tip, b := w.clones[n], TipOf(w, n), OfNode(n);
      CommitNode(w, n, info, mergeInfo).error.None? <==>
        && !StagedThenUndone(c)
        && (tip.Some? ==> Joins(Mine(c, info), tip.value))
        && (if c.head == Attached(b) then Mine(c, info).Some?
            else b in c.branches && (tip.Some? ==> Ancestor(tip.value, c.branches[b])))
  {
    hide Related, Ancestor, Mine, StagedThenUndone, CommitNode, Joins;
    var c' := ReadyToPush(w, n, info, mergeInfo);
  }

  lemma PushPublishes(w: World, n: string)
    requires n in w.clones && w.clones[n].Clean() && Push(w, n, false).error.None?
    ensures var c, b, w' := w.clones[n], OfNode(n), Push(w, n, false).world;
      && b in w'.hub && b in c.branches && w'.hub[b] == c.branches[b]
      && (w'.Matches(n) <==> HeadOf(c) == Some(c.branches[b]))
  {
    hide Ancestor;
  }

  /** For every clone a commit succeeds on: the branch published is the landing when HEAD is
  on it and the branch as it was otherwise, and the hub holds all of the clone exactly when
  HEAD was on the branch, or what it lands on is that branch already. */
  lemma CommitNodePublishesTheBranch(w: World, n: string, info: string, mergeInfo: string)
    requires CommitNode(w, n, info, mergeInfo).error.None?
    ensures n in w.clones
    ensures var c, b, w' := w.clones[n], OfNode(n), CommitNode(w, n, info, mergeInfo).world;
      var landing := Landing(c, TipOf(w, n), info, mergeInfo);
      && b in w'.hub && (c.head != Attached(b) ==> b in c.branches)
      && Some(w'.hub[b]) == (if c.head == Attached(b) then landing else Some(c.branches[b]))
      && (w'.Matches(n) <==> c.head == Attached(b) || landing == Some(c.branches[b]))
  {
    assert n in w.clones;
    hide Related, Ancestor, Mine, StagedThenUndone, CommitNode, Joins, Landing, Push;
    var c' := ReadyToPush(w, n, info, mergeInfo);
    PushPublishes(w.With(n, c'), n);
  }

  /** Committing again right after a success publishes nothing new. */
  lemma CommitNodeAgain(w: World, n: string, info: string, mergeInfo: string, info': string, mergeInfo': string)
    requires CommitNode(w, n, info, mergeInfo).error.None?
    requires CommitNode(w, n, info, mergeInfo).world.Matches(n)
    ensures var w' := CommitNode(w, n, info, mergeInfo).world;
      CommitNode(w', n, info', mergeInfo') == Report(w', None)
  {
    var w' := CommitNode(w, n, info, mergeInfo).world;
    var c := w'.clones[n];
    assert Ancestor(c.HeadCommit(), c.HeadCommit());
    assert c.remote[OfNode(n) := w'.hub[OfNode(n)]] == c.remote;
    assert w'.hub[OfNode(n) := w'.hub[OfNode(n)]] == w'.hub;
    assert w'.clones[n := c] == w'.clones;
  }

  /** Off the branch, a commit can succeed, report no change and leave the work behind. */
  lemma CommitNodeOffBranchLosesWork(n: string, base: Commit, work: Tree, info: string, mergeInfo: string)
    requires work != base.tree
    ensures
      var refs := map[OfNode(n) := base];
      var w := World(refs, map[n := Clone(Detached(base), refs, refs, base.tree, work)], Named("main"));
      var r := CommitNode(w, n, info, mergeInfo);
      r.error.None? && r.world.hub == w.hub && !r.world.Matches(n) && r.world.Ahead(n)
  {
    var mine := Commit([base], work, info);
    ParentIsAncestor(base, mine);
    assert Ancestor(base, base);
  }

  // ---- merge_node_into --------------------------------------------------------

  /** A join that succeeds with HEAD on the branch holds both branches it joined. */
  lemma MergeIntoJoins(w: World, source: string, target: string, info: string, content: Content)
    requires MergeInto(w, source, target, info, content).error.None?
    requires w.clones[target].On(OfNode(target))
    requires OfNode(source) in w.hub && OfNode(target) in w.hub
    ensures var hub' := MergeInto(w, source, target, info, content).world.hub;
      && OfNode(target) in hub'
      && Ancestor(w.hub[OfNode(source)], hub'[OfNode(target)])
      && Ancestor(w.hub[OfNode(target)], hub'[OfNode(target)])
      && Ancestor(w.clones[target].HeadCommit(), hub'[OfNode(target)])
    // A merge is recorded exactly when HEAD lacked the source, and shows the merged content.
    ensures var head, joined := w.clones[target].HeadCommit(), w.hub[OfNode(source)];
      var tip' := MergeInto(w, source, target, info, content).world.hub[OfNode(target)];
      && (Ancestor(joined, head) ==> tip' == head)
      && (!Ancestor(joined, head) ==>
            && tip'.parents == [head, joined] && content.Blend?
            && tip'.tree == if Ancestor(head, joined) then joined.tree else content.tree)
  {
    var head := w.clones[target].HeadCommit();
    var tip' := MergeInto(w, source, target, info, content).world.hub[OfNode(target)];
    assert Ancestor(head, head);
    if !Ancestor(w.hub[OfNode(source)], head) {
      assert tip'.parents[0] == head && tip'.parents[1] == w.hub[OfNode(source)];
      ParentIsAncestor(head, tip');
      ParentIsAncestor(w.hub[OfNode(source)], tip');
    }
  }

  /** With HEAD on the branch and ahead of the hub, a join of related histories is refused
  exactly on something to join and a staged edit or a conflict, and then leaves the hub alone. */
  lemma MergeRefusedIff(w: World, source: string, target: string, info: string, content: Content)
    requires target in w.clones && OfNode(source) in w.hub && OfNode(target) in w.hub
    requires Extends(w.clones[target], OfNode(target), w.hub[OfNode(target)])
    requires Related(w.clones[target].HeadCommit(), w.hub[OfNode(source)])
    ensures var c, r := w.clones[target], MergeInto(w, source, target, info, content);
      && (r.error.Some? <==>
            !Ancestor(w.hub[OfNode(source)], c.HeadCommit()) && (c.index != c.HeadTree() || content.Clash?))
      && (r.error.Some? ==> r.error == Some(MergeConflict) && r.world.hub == w.hub)
  {
    var c, tip := w.clones[target], w.hub[OfNode(target)];
    var head, join := c.HeadCommit(), w.hub[OfNode(source)];
    assert (c.remote + w.hub)[OfNode(source)] == join;
    if content.Blend? {
      var merged := Commit([head, join], if Ancestor(head, join) then join.tree else content.tree, info);
      assert merged.parents[0] == head;
      ParentIsAncestor(head, merged);
      AncestorTrans(tip, head, merged);
    }
  }

  /** A join whose files are the merged tree leaves nothing behind: the clone matches the hub. */
  lemma MergeMatchesHub(w: World, source: string, target: string, info: string, content: Content)
    requires MergeInto(w, source, target, info, content).error.None?
    requires w.clones[target].On(OfNode(target)) && w.clones[target].Clean()
    requires OfNode(source) in w.hub
    requires content.Blend? ==>
      var head, joined := w.clones[target].HeadCommit(), w.hub[OfNode(source)];
      content.work == if Ancestor(head, joined) then joined.tree else content.tree
    ensures MergeInto(w, source, target, info, content).world.Matches(target)
  {
  }

  // ---- create_node_worktree and the frozen contract ---------------------------

  /** However it was cut, a new clone is on its branch, clean, and what the hub holds. */
  lemma CreateMatchesHub(w: World, n: string, seed: Option<string>, base: Branch, replace: bool)
    requires CreateNode(w, n, seed, base, replace).error.None?
    ensures var w' := CreateNode(w, n, seed, base, replace).world;
      w'.Matches(n) && w'.clones[n].On(OfNode(n))
  {
  }

  /** The branch of `n` can be resumed: it is there, and holds the seed's tip if one is named. */
  predicate Resumable(hub: Refs, n: string, seed: Option<string>) {
    && OfNode(n) in hub
    && (seed.Some? ==> OfNode(seed.value) in hub && Ancestor(hub[OfNode(seed.value)], hub[OfNode(n)]))
  }

  /** A fresh cut has somewhere to start. */
  predicate CanStart(hub: Refs, seed: Option<string>, base: Branch) {
    if seed.Some? then OfNode(seed.value) in hub else base in hub
  }

  function Start(hub: Refs, seed: Option<string>, base: Branch): Commit
    requires CanStart(hub, seed, base)
  {
    if seed.Some? then hub[OfNode(seed.value)] else hub[base]
  }

  /** Which commit a cut puts the node's branch at, and that it moves nothing else. */
  lemma CreateCutsFrom(w: World, n: string, seed: Option<string>, base: Branch, replace: bool)
    requires CreateNode(w, n, seed, base, replace).error.None?
    ensures var w' := CreateNode(w, n, seed, base, replace).world;
      && OfNode(n) in w'.hub && w'.hub == w.hub[OfNode(n) := w'.hub[OfNode(n)]]
      && n in w'.clones && w'.clones == w.clones[n := w'.clones[n]]
      && w'.clones[n].work == w'.hub[OfNode(n)].tree
      && (replace && Resumable(w.hub, n, seed) ==> w'.hub[OfNode(n)] == w.hub[OfNode(n)])
      && (!(replace && Resumable(w.hub, n, seed)) ==>
            CanStart(w.hub, seed, base) && w'.hub[OfNode(n)] == Start(w.hub, seed, base))
  {
  }

  /** A cut fails exactly when the clone is there and may not be replaced, when there is no
  commit to start from, or when the hub has a branch the start does not contain; and then the
  hub is as it was. */
  lemma CreateFailsIff(w: World, n: string, seed: Option<string>, base: Branch, replace: bool)
    ensures CreateNode(w, n, seed, base, replace).error.Some? <==>
      || (n in w.clones && !replace)
      || (!(replace && Resumable(w.hub, n, seed)) && !CanStart(w.hub, seed, base))
      || (!replace && CanStart(w.hub, seed, base) && OfNode(n) in w.hub
          && !Ancestor(w.hub[OfNode(n)], Start(w.hub, seed, base)))
    ensures CreateNode(w, n, seed, base, replace).error.Some? ==>
      var w' := CreateNode(w, n, seed, base, replace).world;
      w'.hub == w.hub && (n in w.clones && !replace ==> w' == w)
  {
  }

  /** A seeded cut carries the seed's tip: fresh, resumed or re-cut. */
  lemma CreateInheritsSeed(w: World, n: string, seed: string, base: Branch, replace: bool)
    requires CreateNode(w, n, Some(seed), base, replace).error.None?
    ensures OfNode(seed) in w.hub && OfNode(n) in CreateNode(w, n, Some(seed), base, replace).world.hub
    ensures Ancestor(w.hub[OfNode(seed)], CreateNode(w, n, Some(seed), base, replace).world.hub[OfNode(n)])
  {
  }

  /** One stage of a pipeline: events of any kind, then a node cut from the last one. */
  datatype Stage = Stage(before: seq<Op>, node: string, base: Branch, replace: bool)

  function RunStage(w: World, seed: string, s: Stage): Report {
    CreateNode(Run(w, s.before), s.node, Some(seed), s.base, s.replace)
  }

  /** Every cut of the chain succeeds, and no seed loses commits before it is used. */
  predicate ChainHolds(w: World, seed: string, stages: seq<Stage>)
    decreases |stages|
  {
    stages == [] ||
    (&& !EverDiscards(w, stages[0].before, OfNode(seed))
     && RunStage(w, seed, stages[0]).error.None?
     && ChainHolds(RunStage(w, seed, stages[0]).world, stages[0].node, stages[1..]))
  }

  function ChainEnd(w: World, seed: string, stages: seq<Stage>): (World, string)
    decreases |stages|
  {
    if stages == [] then (w, seed)
    else ChainEnd(RunStage(w, seed, stages[0]).world, stages[0].node, stages[1..])
  }

  /** A contract frozen on one branch is inherited along any chain of seeds. */
  lemma {:induction false} ContractReachesChainEnd(w: World, seed: string, stages: seq<Stage>, contract: Commit)
    requires OfNode(seed) in w.hub && Ancestor(contract, w.hub[OfNode(seed)])
    requires ChainHolds(w, seed, stages)
    ensures var (w', last) := ChainEnd(w, seed, stages);
      OfNode(last) in w'.hub && Ancestor(contract, w'.hub[OfNode(last)])
    decreases |stages|
  {
    if stages != [] {
      var s := stages[0];
      var w1 := Run(w, s.before);
      RunForward(w, s.before, OfNode(seed));
      AncestorTrans(contract, w.hub[OfNode(seed)], w1.hub[OfNode(seed)]);
      CreateInheritsSeed(w1, s.node, seed, s.base, s.replace);
      var w2 := RunStage(w, seed, s).world;
      AncestorTrans(contract, w1.hub[OfNode(seed)], w2.hub[OfNode(s.node)]);
      ContractReachesChainEnd(w2, s.node, stages[1..], contract);
    }
  }

  // ---- reseed_node_worktree: what it does to any clone -------------------------

  /** A reseed fails exactly when the clone or the upstream is missing. Otherwise, whatever the
  agent did, HEAD names the upstream's tip, the index is its tree, every file of it is in
  place, no other tracked file is left, untracked ones are kept, and no hub branch moves. */
  lemma ReseedLands(w: World, n: string, from: string)
    ensures Reseed(w, n, from).error.Some? <==> n !in w.clones || OfNode(from) !in w.hub
    ensures Reseed(w, n, from).error.Some? ==> Reseed(w, n, from).world == w
    ensures Reseed(w, n, from).error.None? ==>
      var c, c', tip := w.clones[n], Reseed(w, n, from).world.clones[n], w.hub[OfNode(from)];
      && Reseed(w, n, from).world.hub == w.hub
      && c'.Born() && c'.HeadCommit() == tip && c'.index == tip.tree
      && (c.head.Attached? ==> c'.head == c.head)
      && (forall p | p in tip.tree :: p in c'.work && c'.work[p] == tip.tree[p])
      && (forall p | p in c'.work && p !in tip.tree :: p in c.work && p !in c.index && c'.work[p] == c.work[p])
      && (forall p | p in c.work && p !in c.index :: p in c'.work)
  {
  }

  // ---- reseed_node_worktree: pre-warming is a late cut ------------------------

  /** A node cut early from `up` and moved onto it later. */
  function Prewarm(w: World, n: string, up: string, base: Branch, meanwhile: seq<Op>): World {
    Reseed(Run(CreateNode(w, n, Some(up), base, false).world, meanwhile), n, up).world
  }

  /** The same run, with the node cut only once `up` has its commits. */
  function LateCut(w: World, n: string, up: string, base: Branch): World {
    CreateNode(w, n, Some(up), base, false).world
  }

  /** The event reads or writes the clone or the branch of `n`. */
  predicate Touches(op: Op, n: string) {
    Target(op) == Some(OfNode(n)) ||
    match op
    case Agent(m, _) => m == n
    case ReseedFrom(m, _) => m == n
    case Drop(nodes) => n in nodes
    case _ => false
  }

  lemma CloneLeftAlone(w: World, op: Op, n: string)
    requires n in w.clones && !Touches(op, n)
    ensures n in Apply(w, op).clones && Apply(w, op).clones[n] == w.clones[n]
  {
    hide Snapshot, Integrate, Ancestor, StartOf, FreshClone, CheckOut;
  }

  lemma {:induction false} LeftAlone(w: World, ops: seq<Op>, n: string)
    requires n in w.clones && OfNode(n) in w.hub
    requires forall i | 0 <= i < |ops| :: !Touches(ops[i], n)
    ensures n in Run(w, ops).clones && Run(w, ops).clones[n] == w.clones[n]
    ensures OfNode(n) in Run(w, ops).hub && Run(w, ops).hub[OfNode(n)] == w.hub[OfNode(n)]
    decreases |ops|
  {
    if ops != [] {
      OtherUntouched(w, ops[0], OfNode(n));
      CloneLeftAlone(w, ops[0], n);
      LeftAlone(Apply(w, ops[0]), ops[1..], n);
    }
  }

  /** While the upstream works, the booted node waits. */
  predicate Waits(w: World, n: string, up: string, base: Branch, meanwhile: seq<Op>) {
    && n != up && n !in w.clones && OfNode(n) !in w.hub
    && CreateNode(w, n, Some(up), base, false).error.None?
    && !EverDiscards(CreateNode(w, n, Some(up), base, false).world, meanwhile, OfNode(up))
    && forall i | 0 <= i < |meanwhile| :: !Touches(meanwhile[i], n)
  }

  /** The run at the reseed, as it would be had the node never been booted. */
  function WithoutNode(w: World, n: string): World {
    w.(hub := w.hub - {OfNode(n)}, clones := w.clones - {n})
  }

  /** After the reseed the clone has the late cut's HEAD, branch, index and files. */
  lemma ReseedIsLateCut(w: World, n: string, up: string, base: Branch, meanwhile: seq<Op>)
    requires Waits(w, n, up, base, meanwhile)
    ensures
      var w1 := Run(CreateNode(w, n, Some(up), base, false).world, meanwhile);
      var warm := Prewarm(w, n, up, base, meanwhile);
      var late := LateCut(WithoutNode(w1, n), n, up, base);
      && n in warm.clones && n in late.clones && OfNode(up) in w1.hub && OfNode(n) in w1.hub
      && warm.clones[n].On(OfNode(n)) && late.clones[n].On(OfNode(n))
      && warm.clones[n].HeadCommit() == late.clones[n].HeadCommit() == w1.hub[OfNode(up)]
      && warm.clones[n].index == late.clones[n].index
      && warm.clones[n].work == late.clones[n].work
      && warm.hub == w1.hub && late.hub == w1.hub[OfNode(n) := w1.hub[OfNode(up)]]
      && Ancestor(w1.hub[OfNode(n)], w1.hub[OfNode(up)])
  {
    var w0 := CreateNode(w, n, Some(up), base, false).world;
    var w1 := Run(w0, meanwhile);
    RunForward(w0, meanwhile, OfNode(up));
    LeftAlone(w0, meanwhile, n);
    var c := w1.clones[n];
    assert (c.work - c.index.Keys) + w1.hub[OfNode(up)].tree == w1.hub[OfNode(up)].tree;
    var cold := WithoutNode(w1, n);
    assert StartOf(cold, n, Some(up), base, false) == OfNode(up);
    assert cold.hub[OfNode(n) := w1.hub[OfNode(up)]] == w1.hub[OfNode(n) := w1.hub[OfNode(up)]];
  }

  /** Work on top of the hub's tip is published as it stands. */
  lemma CommitOnTop(w: World, n: string, info: string, mergeInfo: string)
    requires n in w.clones && OfNode(n) in w.hub && Extends(w.clones[n], OfNode(n), w.hub[OfNode(n)])
    requires !StagedThenUndone(w.clones[n])
    ensures CommitNode(w, n, info, mergeInfo).error.None?
    ensures CommitNode(w, n, info, mergeInfo).world.hub == w.hub[OfNode(n) := Work(w.clones[n], info)]
    ensures Ancestor(w.clones[n].HeadCommit(), Work(w.clones[n], info))
  {
    var head, mine := w.clones[n].HeadCommit(), Work(w.clones[n], info);
    assert Ancestor(head, mine) by { if mine != head { ParentIsAncestor(head, mine); } }
    AncestorTrans(w.hub[OfNode(n)], head, mine);
  }

  /** Whatever the agent then adds, the pre-warmed node publishes what the late cut would:
  no merge is recorded, and the upstream is behind the tip. */
  lemma PrewarmPublishesLikeLateCut(
      w: World, n: string, up: string, base: Branch, meanwhile: seq<Op>, warm: World, late: World,
      c: Clone, info: string, mergeInfo: string)
    requires Waits(w, n, up, base, meanwhile)
    requires warm == Prewarm(w, n, up, base, meanwhile)
    requires late == LateCut(WithoutNode(Run(CreateNode(w, n, Some(up), base, false).world, meanwhile), n), n, up, base)
    requires OfNode(up) in warm.hub && Extends(c, OfNode(n), warm.hub[OfNode(up)]) && !StagedThenUndone(c)
    ensures CommitNode(warm.With(n, c), n, info, mergeInfo).error.None?
    ensures CommitNode(late.With(n, c), n, info, mergeInfo).error.None?
    ensures CommitNode(warm.With(n, c), n, info, mergeInfo).world.hub == warm.hub[OfNode(n) := Work(c, info)]
    ensures CommitNode(late.With(n, c), n, info, mergeInfo).world.hub == warm.hub[OfNode(n) := Work(c, info)]
    ensures Ancestor(warm.hub[OfNode(up)], Work(c, info))
  {
    ReseedIsLateCut(w, n, up, base, meanwhile);
    PublishTheSame(warm, late, n, up, c, info, mergeInfo);
  }

  lemma PublishTheSame(warm: World, late: World, n: string, up: string, c: Clone, info: string, mergeInfo: string)
    requires OfNode(up) in warm.hub && OfNode(n) in warm.hub
    requires Ancestor(warm.hub[OfNode(n)], warm.hub[OfNode(up)])
    requires late.hub == warm.hub[OfNode(n) := warm.hub[OfNode(up)]]
    requires Extends(c, OfNode(n), warm.hub[OfNode(up)]) && !StagedThenUndone(c)
    ensures CommitNode(warm.With(n, c), n, info, mergeInfo).error.None?
    ensures CommitNode(late.With(n, c), n, info, mergeInfo).error.None?
    ensures CommitNode(warm.With(n, c), n, info, mergeInfo).world.hub == warm.hub[OfNode(n) := Work(c, info)]
    ensures CommitNode(late.With(n, c), n, info, mergeInfo).world.hub == warm.hub[OfNode(n) := Work(c, info)]
    ensures Ancestor(warm.hub[OfNode(up)], Work(c, info))
  {
    AncestorTrans(warm.hub[OfNode(n)], warm.hub[OfNode(up)], c.HeadCommit());
    CommitOnTop(warm.With(n, c), n, info, mergeInfo);
    CommitOnTop(late.With(n, c), n, info, mergeInfo);
    AncestorTrans(warm.hub[OfNode(up)], c.HeadCommit(), Work(c, info));
  }

  // ---- alias_node_branch -------------------------------------------------------

  /** An alias fails exactly when its target is missing. Otherwise the name it is given is cut
  at the target's tip, whatever it named before, and no other branch moves. */
  lemma AliasThenCut(w: World, alias: string, target: string, base: Branch)
    ensures AliasNode(w, alias, target).error.Some? <==> OfNode(target) !in w.hub
    ensures AliasNode(w, alias, target).error.Some? ==> AliasNode(w, alias, target).world == w
    ensures AliasNode(w, alias, target).error.None? ==>
      var w1 := AliasNode(w, alias, target).world;
      var r := CreateNode(w1, alias, None, base, true);
      && r.error.None? && r.world.hub == w1.hub && r.world.clones[alias].HeadCommit() == w.hub[OfNode(target)]
      && forall b | b != OfNode(alias) :: (b in w1.hub <==> b in w.hub) && (b in w.hub ==> w1.hub[b] == w.hub[b])
  {
    if OfNode(target) in w.hub {
      var hub := AliasNode(w, alias, target).world.hub;
      assert hub[OfNode(alias) := hub[OfNode(alias)]] == hub;
    }
  }

  /** Edits that are not committed do not make a clone ahead; a clean one either matches or is. */
  lemma AheadOrMatches(w: World, n: string)
    requires n in w.clones && w.clones[n].Born() && OfNode(n) in w.hub
    ensures w.Ahead(n) <==> w.clones[n].HeadCommit() != w.hub[OfNode(n)]
    ensures w.Matches(n) <==> w.clones[n].Clean() && !w.Ahead(n)
  {
  }

  // ---- dispose_node_worktrees --------------------------------------------------

  /** A clone the hub matches can be deleted and cut again without losing anything. */
  lemma DisposeLosesNothing(w: World, n: string, nodes: seq<string>, seed: Option<string>, base: Branch)
    requires w.Matches(n) && n in nodes
    requires seed.Some? ==> w.Contains(n, seed.value)
    ensures
      var r := CreateNode(Dispose(w, nodes), n, seed, base, true);
      && n !in Dispose(w, nodes).clones
      && r.error.None? && r.world.hub == w.hub && r.world.Matches(n)
      && r.world.clones[n].On(OfNode(n))
      && r.world.clones[n].HeadCommit() == w.clones[n].HeadCommit()
      && r.world.clones[n].index == w.clones[n].index
      && r.world.clones[n].work == w.clones[n].work
  {
    assert w.hub[OfNode(n) := w.hub[OfNode(n)]] == w.hub;
  }

  /** The condition is needed: a seed the branch lacks replaces what the branch held. */
  lemma DisposeThenStaleRecut(w: World, n: string, nodes: seq<string>, seed: string, base: Branch)
    requires w.Matches(n) && n in nodes && OfNode(seed) in w.hub && !w.Contains(n, seed)
    ensures
      var r := CreateNode(Dispose(w, nodes), n, Some(seed), base, true);
      && r.error.None? && r.world.hub[OfNode(n)] == w.hub[OfNode(seed)] != w.hub[OfNode(n)]
      && r.world.clones[n].HeadCommit() == w.hub[OfNode(seed)]
  {
    assert Ancestor(w.hub[OfNode(n)], w.hub[OfNode(n)]);
  }
}
