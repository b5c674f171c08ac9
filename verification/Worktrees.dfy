/** The node operations as the launcher issues them, one git command at a time. */
module Worktrees {
  import opened CommitGraph
  import opened Clones
  import opened HubSpec
  import opened Option

  lemma WithTwice(w: World, n: string, a: Clone, b: Clone)
    ensures w.With(n, a).With(n, b) == w.With(n, b)
    ensures w.(clones := w.clones - {n}).With(n, a) == w.With(n, a)
  {
    assert w.clones[n := a][n := b] == w.clones[n := b];
    assert (w.clones - {n})[n := a] == w.clones[n := a];
  }

  lemma DisposeOneMore(w: World, nodes: seq<string>, n: string)
    ensures Dispose(w, nodes + [n]).clones == Dispose(w, nodes).clones - {n}
  {
    assert forall m :: m in nodes + [n] <==> m in nodes || m == n;
  }

  class WorktreeManager {
    var hub: Refs
    var clones: map<string, Clone>
    const trunk: Branch

    constructor (hub: Refs, trunk: Branch)
      ensures State() == World(hub, map[], trunk)
    {
      this.hub := hub;
      this.clones := map[];
      this.trunk := trunk;
    }

    ghost function State(): World
      reads this
    {
      World(hub, clones, trunk)
    }

    method HubBranchTip(n: string) returns (tip: Option<Commit>)
      ensures tip == if OfNode(n) in hub then Some(hub[OfNode(n)]) else None
    {
      tip := None;
      if OfNode(n) in hub {
        tip := Some(hub[OfNode(n)]);
      }
    }

    method BranchContains(n: string, ancestor: string) returns (answer: bool)
      ensures answer <==>
        OfNode(ancestor) in hub && OfNode(n) in hub && Ancestor(hub[OfNode(ancestor)], hub[OfNode(n)])
      ensures answer <==> State().Contains(n, ancestor)
    {
      if OfNode(ancestor) !in hub || OfNode(n) !in hub {
        return false;
      }
      answer := Ancestor(hub[OfNode(ancestor)], hub[OfNode(n)]);
    }

    method PushBranch(n: string, force: bool) returns (error: Option<Error>)
      requires n in clones
      modifies this
      ensures Report(State(), error) == Push(old(State()), n, force)
    {
      var b, clone := OfNode(n), clones[n];
      if b !in clone.branches {
        return Some(NoSuchRef);
      }
      var tip := clone.branches[b];
      if b in hub && !force && !Ancestor(hub[b], tip) {
        return Some(NotFastForward);
      }
      hub := hub[b := tip];
      clones := clones[n := clone.(remote := clone.remote[b := tip])];
      error := None;
    }

    method CreateNodeWorktree(n: string, seed: Option<string>, base: Branch, replace: bool)
      returns (error: Option<Error>)
      modifies this
      ensures Report(State(), error) == CreateNode(old(State()), n, seed, base, replace)
    {
      if n in clones {
        if !replace {
          return Some(CloneExists);
        }
        clones := clones - {n};
      }
      var stale := false;
      if replace && seed.Some? && OfNode(n) in hub {
        var inherited := BranchContains(n, seed.value);
        stale := !inherited;
      }
      var start: Branch;
      if stale {
        start := OfNode(seed.value);
      } else if replace && OfNode(n) in hub {
        start := OfNode(n);
      } else if seed.Some? {
        start := OfNode(seed.value);
      } else {
        start := base;
      }
      var clone := FreshClone(hub, trunk);
      clones := clones[n := clone];
      WithTwice(old(State()), n, clone, clone);
      if start !in clone.remote {
        return Some(NoSuchRef);
      }
      clones := clones[n := CheckOut(clone, OfNode(n), clone.remote[start])];
      WithTwice(old(State()), n, clone, clones[n]);
      assert State() == old(State()).With(n, clones[n]);
      error := PushBranch(n, replace);
    }

    method ReseedNodeWorktree(n: string, from: string) returns (error: Option<Error>)
      modifies this
      ensures Report(State(), error) == Reseed(old(State()), n, from)
    {
      if n !in clones {
        return Some(NoClone);
      }
      var fetched := clones[n].Fetch(hub, OfNode(from));
      if fetched.Fail? {
        return Some(fetched.why);
      }
      clones := clones[n := fetched.clone];
      var reset := clones[n].ResetHard(OfNode(from));
      clones := clones[n := reset.clone];
      error := None;
    }

    /** `advanced` is whether the hub's branch differs from what it was. */
    method CommitNode(n: string, info: string, mergeInfo: string)
      returns (advanced: bool, error: Option<Error>)
      modifies this
      ensures Report(State(), error) == HubSpec.CommitNode(old(State()), n, info, mergeInfo)
      ensures advanced <==> (error.None? && (OfNode(n) in old(hub) ==> hub[OfNode(n)] != old(hub)[OfNode(n)]))
    {
      if n !in clones {
        return false, Some(NoClone);
      }
      var before := HubBranchTip(n);
      var clean := clones[n].Clean();
      if !clean {
        clones := clones[n := clones[n].AddAll()];
        var committed := clones[n].CommitIndex(info);
        WithTwice(old(State()), n, clones[n], committed.clone);
        if committed.Fail? {
          return false, Some(committed.why);
        }
        clones := clones[n := committed.clone];
      }
      assert State() == old(State()).With(n, Snapshot(old(clones)[n], info).clone) by {
        assert clones == old(clones)[n := clones[n]];
      }
      ghost var snapped := clones[n];
      assert Snapshot(old(clones)[n], info) == Ok(snapped);
      if before.Some? {
        error := IntegrateRewrite(n, before.value, mergeInfo);
        WithTwice(old(State()), n, snapped, clones[n]);
        assert State() == old(State()).With(n, clones[n]);
        if error.Some? {
          return false, error;
        }
      }
      error := PushBranch(n, false);
      if error.Some? {
        return false, error;
      }
      var after := HubBranchTip(n);
      advanced := after != before;
    }

    /** The hub is never forced: a rewrite is recorded as a merge, a clone behind is refused. */
    method IntegrateRewrite(n: string, hubTip: Commit, info: string) returns (error: Option<Error>)
      requires n in clones
      modifies this
      ensures var done := Integrate(old(clones)[n], hubTip, info);
        && State() == old(State()).With(n, done.clone)
        && error == if done.Fail? then Some(done.why) else None
    {
      var clone := clones[n];
      assert clones[n := clone] == clones;
      if !clone.Born() {
        return Some(NoHead);
      }
      var head := clone.HeadCommit();
      if Ancestor(hubTip, head) {
        return None;
      }
      if Ancestor(head, hubTip) {
        return Some(BehindHub);
      }
      var merged := clone.MergeOurs(hubTip, info);
      clones := clones[n := merged.clone];
      error := if merged.Fail? then Some(merged.why) else None;
    }

    method MergeNodeInto(source: string, target: string, info: string, content: Content)
      returns (error: Option<Error>)
      modifies this
      ensures Report(State(), error) == MergeInto(old(State()), source, target, info, content)
    {
      if target !in clones {
        return Some(NoClone);
      }
      var clone := clones[target];
      clone := clone.(remote := clone.remote + hub);
      clones := clones[target := clone];
      if OfNode(source) !in clone.remote {
        return Some(NoSuchRef);
      }
      var merged := clone.MergeNoFf(clone.remote[OfNode(source)], info, content);
      clones := clones[target := merged.clone];
      WithTwice(old(State()), target, clone, merged.clone);
      assert State() == old(State()).With(target, merged.clone);
      if merged.Fail? {
        return Some(merged.why);
      }
      error := PushBranch(target, false);
    }

    method NodeAheadOfHub(n: string) returns (ahead: bool)
      ensures ahead <==>
        n in clones && clones[n].Born() && OfNode(n) in hub && clones[n].HeadCommit() != hub[OfNode(n)]
      ensures ahead <==> State().Ahead(n)
    {
      if n !in clones || !clones[n].Born() {
        return false;
      }
      var tip := HubBranchTip(n);
      ahead := tip.Some? && clones[n].HeadCommit() != tip.value;
    }

    method NodeMatchesHub(n: string) returns (matches: bool)
      ensures matches <==> State().Matches(n)
    {
      if n !in clones || !clones[n].Clean() || !clones[n].Born() {
        return false;
      }
      var tip := HubBranchTip(n);
      matches := tip == Some(clones[n].HeadCommit());
    }

    method AliasNodeBranch(alias: string, target: string) returns (error: Option<Error>)
      modifies this
      ensures Report(State(), error) == AliasNode(old(State()), alias, target)
    {
      if OfNode(target) !in hub {
        return Some(NoSuchRef);
      }
      hub := hub[OfNode(alias) := hub[OfNode(target)]];
      error := None;
    }

    /** Removes the named clones that exist, and says how many there were. */
    method DisposeNodeWorktrees(nodes: seq<string>) returns (removed: nat)
      modifies this
      ensures State() == Dispose(old(State()), nodes)
      ensures removed == |old(clones)| - |clones|
    {
      removed := 0;
      for i := 0 to |nodes|
        invariant hub == old(hub)
        invariant State() == Dispose(old(State()), nodes[..i])
        invariant removed == |old(clones)| - |clones|
      {
        var n := nodes[i];
        assert nodes[..i + 1] == nodes[..i] + [n];
        DisposeOneMore(old(State()), nodes[..i], n);
        if n in clones {
          ghost var was := clones;
          clones := clones - {n};
          assert clones.Keys == was.Keys - {n};
          assert |clones.Keys| == |clones| && |was.Keys| == |was|;
          removed := removed + 1;
        } else {
          assert clones - {n} == clones;
        }
      }
      assert nodes[..|nodes|] == nodes;
    }
  }
}
