/** Small concrete repositories and what the projector draws for them. */
module Scenarios {
  import opened Repository
  import opened Selection
  import opened NodeSet
  import opened Styling
  import opened Projection

  function NoEntries<V>(): Dict<V> {
    Dict([], map[])
  }

  /** Commits alone: exactly one node, for the commit. */
  lemma CommitsAloneNodes(m: GitModel, c1: string)
    requires m.commits.keys == [c1]
    ensures ProjectNodes(m, "c") == [NodeStmt(c1, Prefix(c1), "#85d5fa")]
  {
    OnlyCommits(m);
    SingleIdentityNodes(m, 'c', c1);
  }

  /** Commits alone: no edge from a commit to its tree `t1` or to its
      parent `c2` when neither is a commit of the model. */
  lemma CommitsAloneEdges(m: GitModel, c1: string, c2: string, t1: string)
    requires m.commits == Dict([c1], map[c1 := [c2, t1]]) && c2 != c1 && t1 != c1
    ensures ProjectEdges(m, "c") == []
  {
    var sel := NodeSelection(m, "c");
    assert c2 !in sel && t1 !in sel;
    OnlyCommits(m);
    SingleIdentityEdges(m, 'c', c1, sel);
    assert [c2, t1][..1] == [c2];
  }

  /** The letter `c` selects the commit category alone. */
  lemma OnlyCommits(m: GitModel)
    ensures ProjectNodes(m, "c") == CategoryNodes(m, 'c')
    ensures ProjectEdges(m, "c") == CategoryEdges(m, 'c', NodeSelection(m, "c"))
  {
    forall k | 0 <= k < |Order| && Order[k] in "c" ensures k == 2 {
      OrderRank(k);
    }
    OnlyCategory(m, "c", 2);
  }

  /** Commits and trees: exactly two nodes, the tree's and then the
      commit's, although the specifier names the commits first. */
  lemma CommitsAndTreesNodes(m: GitModel, c1: string, t1: string)
    requires m.commits.keys == [c1] && m.trees.keys == [t1]
    ensures ProjectNodes(m, "ct") == [NodeStmt(t1, Prefix(t1), "#bc9b8f"), NodeStmt(c1, Prefix(c1), "#85d5fa")]
  {
    TreesThenCommits(m);
    SingleIdentityNodes(m, 't', t1);
    SingleIdentityNodes(m, 'c', c1);
  }

  /** Commits and trees: exactly one edge, from the commit to its tree. The
      tree's entries `es` (blobs, say) are not selected, so the tree has no
      edge, and neither is the edge to the parent `c2`, which is not in the
      model. */
  lemma CommitsAndTreesEdges(m: GitModel, c1: string, c2: string, t1: string, es: seq<TreeEntry>)
    requires m.commits == Dict([c1], map[c1 := [c2, t1]]) && m.trees == Dict([t1], map[t1 := es])
    requires forall e :: e in es ==> e.0 != c1 && e.0 != t1
    requires c2 != c1 && c2 != t1
    ensures ProjectEdges(m, "ct") == [EdgeStmt(c1, t1)]
  {
    var sel := NodeSelection(m, "ct");
    assert t1 in sel by {
      assert 't' in "ct" && t1 in CategoryIds(m, 't');
    }
    forall x | x in sel ensures x == c1 || x == t1 {
      var c :| c in "ct" && x in CategoryIds(m, c);
    }
    TreesThenCommits(m);
    SingleIdentityEdges(m, 'c', c1, sel);
    TreeWithoutSelectedEntries(m, t1, es, sel);
    assert [c2, t1][..1] == [c2];
  }

  /** A single tree none of whose entries is selected draws no edge. */
  lemma TreeWithoutSelectedEntries(m: GitModel, t1: string, es: seq<TreeEntry>, sel: set<string>)
    requires m.trees == Dict([t1], map[t1 := es])
    requires forall e :: e in es ==> e.0 !in sel
    ensures CategoryEdges(m, 't', sel) == []
  {
    SingleIdentityEdges(m, 't', t1, sel);
    forall t | t in EntryHashes(es) ensures t !in sel {
      var i :| 0 <= i < |es| && EntryHashes(es)[i] == t;
      assert es[i] in es;
    }
    KeyEdgesNone(t1, EntryHashes(es), sel);
  }

  /** The letters `ct` select the trees and then the commits. */
  lemma TreesThenCommits(m: GitModel)
    ensures ProjectNodes(m, "ct") == CategoryNodes(m, 't') + CategoryNodes(m, 'c')
    ensures ProjectEdges(m, "ct") == CategoryEdges(m, 't', NodeSelection(m, "ct")) + CategoryEdges(m, 'c', NodeSelection(m, "ct"))
  {
    forall k | 0 <= k < |Order| && Order[k] in "ct" ensures k == 1 || k == 2 {
      OrderRank(k);
    }
    CategoryPair(m, "ct", 1, 2);
  }

  /** Local branches and commits: exactly two nodes, the commit's and then
      the branch's. */
  lemma BranchAndCommitNodes(m: GitModel, b: string, c1: string)
    requires m.commits.keys == [c1] && m.localBranches.keys == [b]
    ensures ProjectNodes(m, "lc") == [NodeStmt(c1, Prefix(c1), "#85d5fa"), NodeStmt(b, Prefix(b), "#9999ff")]
  {
    CommitsThenBranches(m);
    SingleIdentityNodes(m, 'c', c1);
    SingleIdentityNodes(m, 'l', b);
  }

  /** Local branches and commits: exactly one edge, from the branch to its
      commit; the commit's edges to its tree `t1` and parent `c2`, neither
      of which is selected, are not drawn. */
  lemma BranchAndCommitEdges(m: GitModel, b: string, c1: string, c2: string, t1: string)
    requires m.commits == Dict([c1], map[c1 := [c2, t1]]) && m.localBranches == Dict([b], map[b := c1])
    requires c2 != c1 && c2 != b && t1 != c1 && t1 != b
    ensures ProjectEdges(m, "lc") == [EdgeStmt(b, c1)]
  {
    var sel := NodeSelection(m, "lc");
    assert c2 !in sel && t1 !in sel;
    assert c1 in sel by {
      assert 'c' in "lc" && c1 in CategoryIds(m, 'c');
    }
    CommitsThenBranches(m);
    SingleIdentityEdges(m, 'c', c1, sel);
    SingleIdentityEdges(m, 'l', b, sel);
    assert [c2, t1][..1] == [c2];
  }

  /** The letters `lc` select the commits and then the local branches. */
  lemma CommitsThenBranches(m: GitModel)
    ensures ProjectNodes(m, "lc") == CategoryNodes(m, 'c') + CategoryNodes(m, 'l')
    ensures ProjectEdges(m, "lc") == CategoryEdges(m, 'c', NodeSelection(m, "lc")) + CategoryEdges(m, 'l', NodeSelection(m, "lc"))
  {
    forall k | 0 <= k < |Order| && Order[k] in "lc" ensures k == 2 || k == 3 {
      OrderRank(k);
    }
    CategoryPair(m, "lc", 2, 3);
  }

  /** A local branch `main` that tracks the remote branch `origin/main`. */
  function Tracking(): GitModel {
    GitModel([], NoEntries(), NoEntries(), Dict(["main"], map["main" := "c1"]), ("main", "c1"),
      Dict(["origin/main"], map["origin/main" := "c1"]), NoEntries(), NoEntries(), NoEntries(), NoEntries(),
      Dict(["main"], map["main" := "origin/main"]))
  }

  /** Upstream edges are gated on their target only: with remote branches
      and upstream links selected but local branches not, the edge from
      `main` to `origin/main` is drawn although no node `main` is. */
  lemma UpstreamSourceUnchecked()
    ensures EdgeStmt("main", "origin/main") in ProjectEdges(Tracking(), "ur")
    ensures "main" !in NodeSelection(Tracking(), "ur")
    ensures forall x :: x in ProjectNodes(Tracking(), "ur") ==> x.id != "main"
  {
    var m := Tracking();
    assert 'r' in "ur" && "origin/main" in CategoryIds(m, 'r');
    assert 'u' in "ur" && "main" in Keys(m, 'u') && "origin/main" in Targets(m, 'u', "main");
    EdgeOrigin(m, "ur", EdgeStmt("main", "origin/main"));
    forall x | x in ProjectNodes(m, "ur") ensures x.id != "main" {
      NodeOrigin(m, "ur", x);
    }
  }

  /** A remote branch `remote/name`, for a remote whose name has no '/', is
      drawn with the label of `name` alone, so `origin/main` is labelled
      `main`. */
  lemma RemoteBranchLabel(m: GitModel, letters: string, remote: string, name: string)
    requires 'r' in letters && remote + "/" + name in m.remoteBranches.keys && '/' !in remote
    ensures NodeStmt(remote + "/" + name, Prefix(name), "#ffa366") in ProjectNodes(m, letters)
  {
    var id := remote + "/" + name;
    RemoteLabelDropsRemote(remote, name, 'r');
    assert id in Keys(m, 'r');
    NodeOrigin(m, letters, NodeStmt(id, Label('r', id), Color('r')));
  }

  /** The "branches" keyword keeps the local head letter, so the head is
      drawn even for a repository without any branch or tag. */
  lemma BranchesDrawsHead(m: GitModel)
    ensures NodeStmt(m.localHead.0, Prefix(m.localHead.0), "#e6ccff") in ProjectNodes(m, Resolve(Branches))
  {
    assert 'h' in Letters(Resolve(Branches));
    HeadNode(m, Resolve(Branches));
  }
}
