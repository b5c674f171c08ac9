/** What each git command the launcher issues does to one node's clone.

The agent owns its clone: HEAD may be on the node's branch, on another one, detached
or on a branch with no commit yet, and the index may differ from the working tree.
Ignored files are not part of `work`.
*/
module Clones {
  import opened CommitGraph
  import opened Option

  /** A branch name: the branch of a pipeline node, or any other. */
  datatype Branch = Named(name: string) | OfNode(id: string)

  type Refs = map<Branch, Commit>

  datatype Head = Attached(branch: Branch) | Detached(at: Commit)

  datatype Error =
    | NoClone
    | CloneExists
    | NoSuchRef
    | NoHead
    | NothingToCommit
    | BehindHub
    | UnrelatedHistories
    | MergeConflict
    | NotFastForward

  /** How one command left the clone, and whether it failed. */
  datatype Effect = Ok(clone: Clone) | Fail(clone: Clone, why: Error)

  /** What a content merge comes to, which git decides line by line. */
  datatype Content =
    | Clash(index: Tree, work: Tree)
    | Blend(tree: Tree, work: Tree)

  datatype Clone = Clone(head: Head, branches: Refs, remote: Refs, index: Tree, work: Tree) {

    /** HEAD resolves to a commit. */
    predicate Born() {
      head.Attached? ==> head.branch in branches
    }

    function HeadCommit(): Commit
      requires Born()
    {
      if head.Attached? then branches[head.branch] else head.at
    }

    function HeadTree(): Tree {
      if Born() then HeadCommit().tree else map[]
    }

    /** `git status --porcelain` prints nothing. */
    predicate Clean() {
      index == HeadTree() && work == index
    }

    /** HEAD is on branch `b`, and the branch has a commit. */
    predicate On(b: Branch) {
      head == Attached(b) && b in branches
    }

    /** Move what HEAD names to `c`: its branch, or HEAD itself when detached. */
    function MoveHead(c: Commit): Clone {
      if head.Attached? then this.(branches := branches[head.branch := c])
      else this.(head := Detached(c))
    }

    /** `git add -A`. */
    function AddAll(): Clone {
      this.(index := work)
    }

    /** `git commit`: refused when the index records nothing new. */
    function CommitIndex(info: string): Effect {
      if index == HeadTree() then Fail(this, NothingToCommit)
      else Ok(MoveHead(Commit(if Born() then [HeadCommit()] else [], index, info)))
    }

    /** `git fetch origin b`. */
    function Fetch(hub: Refs, b: Branch): Effect {
      if b !in hub then Fail(this, NoSuchRef)
      else Ok(this.(remote := remote[b := hub[b]]))
    }

    /** `git reset --hard origin/b`: files the index does not track stay. */
    function ResetHard(b: Branch): Effect {
      if b !in remote then Fail(this, NoSuchRef)
      else
        var target := remote[b];
        Ok(MoveHead(target).(index := target.tree, work := (work - index.Keys) + target.tree))
    }

    /** `git merge -s ours tip`, once HEAD is known not to contain `tip`. */
    function MergeOurs(tip: Commit, info: string): Effect
      requires Born()
    {
      if !Related(HeadCommit(), tip) then Fail(this, UnrelatedHistories)
      else Ok(MoveHead(Commit([HeadCommit(), tip], HeadTree(), info)))
    }

    /** `git merge --no-ff source`. */
    function MergeNoFf(source: Commit, info: string, content: Content): Effect {
      if !Born() then Fail(this, NoHead)
      else if Ancestor(source, HeadCommit()) then Ok(this)
      else if !Related(HeadCommit(), source) then Fail(this, UnrelatedHistories)
      else if index != HeadTree() then Fail(this, MergeConflict)
      else match content
        case Clash(index', work') =>
          Fail(this.(index := index', work := work'), MergeConflict)
        case Blend(tree, work') =>
          // When HEAD is behind the source there is nothing of its own to blend in.
          var merged := if Ancestor(HeadCommit(), source) then source.tree else tree;
          Ok(MoveHead(Commit([HeadCommit(), source], merged, info)).(index := merged, work := work'))
    }
  }

  /** `git clone --no-checkout` of a repository whose own HEAD is on `trunk`. */
  function FreshClone(hub: Refs, trunk: Branch): Clone {
    Clone(
      Attached(trunk),
      if trunk in hub then map[trunk := hub[trunk]] else map[],
      hub, map[], map[])
  }

  /** `git checkout -B b start` in a fresh clone. */
  function CheckOut(c: Clone, b: Branch, start: Commit): Clone {
    c.(head := Attached(b), branches := c.branches[b := start], index := start.tree, work := start.tree)
  }
}
