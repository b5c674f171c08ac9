/** Git history as values.

A commit is named by its content: its parents, its tree and its metadata decide its
id. An inductive datatype has exactly that identity, so equal commits are equal
values, a history cannot contain a cycle, and the history of a commit is part of it.
*/
module CommitGraph {

  /** The tracked content of a commit: path to file content. */
  type Tree = map<string, string>

  /** `info` stands for author, committer, date and message. */
  datatype Commit = Commit(parents: seq<Commit>, tree: Tree, info: string)

  /** What `git merge-base --is-ancestor a d` answers. A commit is its own ancestor. */
  predicate Ancestor(a: Commit, d: Commit)
    decreases d
  {
    a == d || exists i | 0 <= i < |d.parents| :: Ancestor(a, d.parents[i])
  }

  /** Whether the two histories meet, which `git merge` insists on. */
  predicate Related(a: Commit, b: Commit)
    decreases a
  {
    Ancestor(a, b) || exists i | 0 <= i < |a.parents| :: Related(a.parents[i], b)
  }

  lemma {:induction false} AncestorTrans(a: Commit, b: Commit, c: Commit)
    requires Ancestor(a, b) && Ancestor(b, c)
    ensures Ancestor(a, c)
    decreases c
  {
    if b != c {
      var i :| 0 <= i < |c.parents| && Ancestor(b, c.parents[i]);
      AncestorTrans(a, b, c.parents[i]);
    }
  }

  /** A proper ancestor is a proper part of its descendant. */
  lemma {:induction false} AncestorIsPart(a: Commit, d: Commit)
    requires Ancestor(a, d)
    ensures a == d || a < d
    decreases d
  {
    if a != d {
      var i :| 0 <= i < |d.parents| && Ancestor(a, d.parents[i]);
      AncestorIsPart(a, d.parents[i]);
    }
  }

  /** No two commits are each other's ancestor. */
  lemma AncestorAntisym(a: Commit, b: Commit)
    requires Ancestor(a, b) && Ancestor(b, a)
    ensures a == b
  {
    AncestorIsPart(a, b);
    AncestorIsPart(b, a);
  }

  /** `r` lies behind both commits. */
  ghost predicate Common(r: Commit, a: Commit, b: Commit) {
    Ancestor(r, a) && Ancestor(r, b)
  }

  /** The recursive test finds a meeting point exactly when there is one. */
  lemma {:induction false} RelatedIffMeet(a: Commit, b: Commit)
    ensures Related(a, b) <==> exists r :: Common(r, a, b)
    decreases a
  {
    if Ancestor(a, b) {
      assert Common(a, a, b);
    } else {
      if Related(a, b) {
        var i :| 0 <= i < |a.parents| && Related(a.parents[i], b);
        RelatedIffMeet(a.parents[i], b);
        var r :| Common(r, a.parents[i], b);
        assert Common(r, a, b);
      }
      if r :| Common(r, a, b) {
        var i :| 0 <= i < |a.parents| && Ancestor(r, a.parents[i]);
        assert Common(r, a.parents[i], b);
        RelatedIffMeet(a.parents[i], b);
      }
    }
  }

  /** A commit made on top of `p` has `p`, and nothing of its own, behind it. */
  lemma ParentIsAncestor(p: Commit, c: Commit)
    requires p in c.parents
    ensures Ancestor(p, c) && p != c
  {
    var i :| 0 <= i < |c.parents| && c.parents[i] == p;
    assert Ancestor(p, c.parents[i]);
    assert p < c;
  }

  /** Histories that meet still meet after either side moves forward. */
  lemma RelatedForward(a: Commit, b: Commit, a': Commit, b': Commit)
    requires Related(a, b) && Ancestor(a, a') && Ancestor(b, b')
    ensures Related(a', b')
  {
    RelatedIffMeet(a, b);
    var r :| Common(r, a, b);
    AncestorTrans(r, a, a');
    AncestorTrans(r, b, b');
    assert Common(r, a', b');
    RelatedIffMeet(a', b');
  }
}
