/** What the graph projector emits, as a reference definition: per category,
    one node statement per identity and one edge statement per related
    identity that is in the node-selection set, categories taken in the
    order b, t, c, l, h, r, d, s, a, g, u. */
module Projection {
  import opened Repository
  import opened Selection
  import opened NodeSet
  import opened Styling

  /** A graphviz node statement: identity, label and fill colour. */
  datatype NodeStmt = NodeStmt(id: string, caption: string, color: string)

  /** A graphviz edge statement. */
  datatype EdgeStmt = EdgeStmt(src: string, dst: string)

  /** The identities category `c` iterates over, in iteration order. The
      local head is the single identity `localHead.0`. */
  function Keys(m: GitModel, c: char): (r: seq<string>)
    ensures c !in Categories ==> r == []
    ensures c == 'h' ==> r == [m.localHead.0]
  {
    match c
    case 'b' => m.blobs
    case 't' => m.trees.keys
    case 'c' => m.commits.keys
    case 'l' => m.localBranches.keys
    case 'h' => [m.localHead.0]
    case 'r' => m.remoteBranches.keys
    case 'd' => m.remoteHeads.keys
    case 's' => m.remoteServers.keys
    case 'a' => m.annotatedTags.keys
    case 'g' => m.tags.keys
    case 'u' => m.upstreams.keys
    case _ => []
  }

  /** The hashes of a tree's entries, `e[0]` for each entry `e`, in entry order. */
  function EntryHashes(entries: seq<TreeEntry>): (r: seq<string>)
    ensures |r| == |entries| && forall i :: 0 <= i < |entries| ==> r[i] == entries[i].0
  {
    seq(|entries|, i requires 0 <= i < |entries| => entries[i].0)
  }

  /** The single identity a reference dictionary maps `k` to. */
  function Ref(d: Dict<string>, k: string): seq<string> {
    if k in d.values then [d.values[k]] else []
  }

  /** The identities that identity `k` of category `c` relates to, in the
      order the edges to them are considered. */
  function Targets(m: GitModel, c: char, k: string): (r: seq<string>)
    ensures c !in Categories - {'b'} ==> r == []
    ensures c in "lrdagu" ==> |r| <= 1
    ensures c == 'h' ==> r == [m.localHead.1]
  {
    match c
    case 't' => if k in m.trees.values then EntryHashes(m.trees.values[k]) else []
    case 'c' => if k in m.commits.values then m.commits.values[k] else []
    case 'l' => Ref(m.localBranches, k)
    case 'h' => [m.localHead.1]
    case 'r' => Ref(m.remoteBranches, k)
    case 'd' => Ref(m.remoteHeads, k)
    case 's' => if k in m.remoteServers.values then m.remoteServers.values[k] else []
    case 'a' => Ref(m.annotatedTags, k)
    case 'g' => Ref(m.tags, k)
    case 'u' => Ref(m.upstreams, k)
    case _ => []
  }

  /** One node statement per identity of `ids`, in order. */
  function NodesOf(c: char, ids: seq<string>): (r: seq<NodeStmt>)
    ensures |r| == |ids|
  {
    if ids == [] then []
    else NodesOf(c, ids[..|ids| - 1]) + [NodeStmt(ids[|ids| - 1], Label(c, ids[|ids| - 1]), Color(c))]
  }

  /** The `i`-th node is the node of the `i`-th identity. */
  lemma {:induction false} NodesOfAt(c: char, ids: seq<string>, i: nat)
    requires i < |ids|
    ensures NodesOf(c, ids)[i] == NodeStmt(ids[i], Label(c, ids[i]), Color(c))
    decreases |ids|
  {
    if i < |ids| - 1 {
      NodesOfAt(c, ids[..|ids| - 1], i);
    }
  }

  /** The edge statements from `k` to those of `targets` that are in `sel`,
      in the order of `targets`. */
  function KeyEdges(k: string, targets: seq<string>, sel: set<string>): (r: seq<EdgeStmt>)
    ensures |r| <= |targets|
    ensures forall e :: e in r ==> e.src == k && e.dst in targets && e.dst in sel
    ensures forall t :: t in targets && t in sel ==> EdgeStmt(k, t) in r
  {
    if targets == [] then []
    else
      var last := targets[|targets| - 1];
      assert forall t :: t in targets ==> t in targets[..|targets| - 1] || t == last;
      KeyEdges(k, targets[..|targets| - 1], sel) + if last in sel then [EdgeStmt(k, last)] else []
  }

  /** The edge statements of the identities `ids` of category `c`, in order. */
  function EdgesOf(m: GitModel, c: char, ids: seq<string>, sel: set<string>): seq<EdgeStmt> {
    if ids == [] then []
    else
      var k := ids[|ids| - 1];
      EdgesOf(m, c, ids[..|ids| - 1], sel) + KeyEdges(k, Targets(m, c, k), sel)
  }

  /** The node statements of the identities `ids` of category `c`; the
      upstream category has none. */
  function ShownNodes(c: char, ids: seq<string>): seq<NodeStmt> {
    if c == 'u' then [] else NodesOf(c, ids)
  }

  /** The node statements of category `c`. */
  function CategoryNodes(m: GitModel, c: char): seq<NodeStmt> {
    ShownNodes(c, Keys(m, c))
  }

  /** The edge statements of category `c`. */
  function CategoryEdges(m: GitModel, c: char, sel: set<string>): seq<EdgeStmt> {
    EdgesOf(m, c, Keys(m, c), sel)
  }

  /** The node statements of the selected categories among the first `n` of `Order`. */
  function NodesUpTo(m: GitModel, letters: string, n: nat): seq<NodeStmt>
    requires n <= |Order|
  {
    if n == 0 then []
    else if Order[n - 1] in letters then NodesUpTo(m, letters, n - 1) + CategoryNodes(m, Order[n - 1])
    else NodesUpTo(m, letters, n - 1)
  }

  /** The edge statements of the selected categories among the first `n` of `Order`. */
  function EdgesUpTo(m: GitModel, letters: string, sel: set<string>, n: nat): seq<EdgeStmt>
    requires n <= |Order|
  {
    if n == 0 then []
    else if Order[n - 1] in letters then EdgesUpTo(m, letters, sel, n - 1) + CategoryEdges(m, Order[n - 1], sel)
    else EdgesUpTo(m, letters, sel, n - 1)
  }

  /** All node statements emitted for the resolved letter string `letters`. */
  function ProjectNodes(m: GitModel, letters: string): seq<NodeStmt> {
    NodesUpTo(m, letters, |Order|)
  }

  /** All edge statements emitted for the resolved letter string `letters`;
      edge targets are gated by the node-selection set. */
  function ProjectEdges(m: GitModel, letters: string): seq<EdgeStmt> {
    EdgesUpTo(m, letters, NodeSelection(m, letters), |Order|)
  }

  /** Extending the identities by one extends the statements by that identity's. */
  lemma ShownNodesSnoc(c: char, ids: seq<string>, i: nat)
    requires i < |ids|
    ensures ShownNodes(c, ids[..i + 1]) == ShownNodes(c, ids[..i]) + if c == 'u' then [] else [NodeStmt(ids[i], Label(c, ids[i]), Color(c))]
  {
    assert ids[..i + 1][..i] == ids[..i];
  }

  /** Appending to a sequence that extends `a` extends it by both parts. */
  lemma AppendStep<T>(a: seq<T>, b: seq<T>, d: seq<T>, x: seq<T>, y: seq<T>)
    requires x == a + b && y == x + d
    ensures y == a + (b + d)
  {
  }

  lemma EdgesOfSnoc(m: GitModel, c: char, ids: seq<string>, i: nat, sel: set<string>)
    requires i < |ids|
    ensures EdgesOf(m, c, ids[..i + 1], sel) == EdgesOf(m, c, ids[..i], sel) + KeyEdges(ids[i], Targets(m, c, ids[i]), sel)
  {
    assert ids[..i + 1][..i] == ids[..i];
  }

  // ----- The tables -----

  /** In a well-formed model, every category other than the head and the
      upstream links adds to the node-selection set exactly the identities
      it draws. */
  lemma CategoryIdsAreKeys(m: GitModel, c: char)
    requires m.Valid() && c in Categories - {'h', 'u'}
    ensures CategoryIds(m, c) == set k | k in Keys(m, c)
  {
  }

  /** In a well-formed model, each category iterates over each of its
      identities once. */
  lemma KeysDistinct(m: GitModel, c: char)
    requires m.Valid()
    ensures forall i, j :: 0 <= i < j < |Keys(m, c)| ==> Keys(m, c)[i] != Keys(m, c)[j]
  {
  }

  /** A category relates only identities it iterates over: outside a
      well-formed model's keys there are no related identities, except for
      the head, whose single key is always its identifier. */
  lemma TargetsOnlyForKeys(m: GitModel, c: char, k: string)
    requires m.Valid() && c != 'h' && k !in Keys(m, c)
    ensures Targets(m, c, k) == []
  {
  }

  // ----- Nodes -----

  lemma {:induction false} NodesOfMembers(c: char, ids: seq<string>, x: NodeStmt)
    ensures x in NodesOf(c, ids) <==> exists k :: k in ids && x == NodeStmt(k, Label(c, k), Color(c))
  {
    if ids != [] {
      var init, last := ids[..|ids| - 1], ids[|ids| - 1];
      NodesOfMembers(c, init, x);
      assert ids == init + [last];
      assert NodesOf(c, ids) == NodesOf(c, init) + [NodeStmt(last, Label(c, last), Color(c))];
    }
  }

  lemma CategoryNodesMembers(m: GitModel, c: char, x: NodeStmt)
    ensures x in CategoryNodes(m, c) <==>
      c != 'u' && exists k :: k in Keys(m, c) && x == NodeStmt(k, Label(c, k), Color(c))
  {
    NodesOfMembers(c, Keys(m, c), x);
  }

  lemma {:induction false} NodesUpToMembers(m: GitModel, letters: string, n: nat, x: NodeStmt)
    requires n <= |Order|
    ensures x in NodesUpTo(m, letters, n) <==>
      exists i, k :: 0 <= i < n && Order[i] in letters && Order[i] != 'u' && k in Keys(m, Order[i]) &&
        x == NodeStmt(k, Label(Order[i], k), Color(Order[i]))
  {
    if n > 0 {
      NodesUpToMembers(m, letters, n - 1, x);
      CategoryNodesMembers(m, Order[n - 1], x);
    }
  }

  /** Nodes come exactly from the selected node categories: a node statement
      is emitted iff it is the statement of an identity of a selected
      category other than 'u', with that category's label and colour. */
  lemma NodeOrigin(m: GitModel, letters: string, x: NodeStmt)
    ensures x in ProjectNodes(m, letters) <==>
      exists c, k :: c in letters && c in Categories - {'u'} && k in Keys(m, c) &&
        x == NodeStmt(k, Label(c, k), Color(c))
  {
    NodesUpToMembers(m, letters, |Order|, x);
    LettersOfOrder();
    if exists c, k :: c in letters && c in Categories - {'u'} && k in Keys(m, c) && x == NodeStmt(k, Label(c, k), Color(c)) {
      var c, k :| c in letters && c in Categories - {'u'} && k in Keys(m, c) && x == NodeStmt(k, Label(c, k), Color(c));
      assert c in Letters(Order);
      var i :| 0 <= i < |Order| && Order[i] == c;
    }
  }

  /** Every label is at most `Short` characters long and is a prefix of the
      identity, or, for a remote branch or remote head, of its remote name;
      an identity without '/' is labelled by its own prefix. */
  lemma LabelBounds(m: GitModel, letters: string, x: NodeStmt)
    requires x in ProjectNodes(m, letters)
    ensures |x.caption| <= Short
    ensures x.caption <= x.id || x.caption <= RemoteName(x.id)
    ensures '/' !in x.id ==> x.caption == Prefix(x.id)
  {
    NodeOrigin(m, letters, x);
    var c, k :| c in letters && c in Categories - {'u'} && k in Keys(m, c) &&
      x == NodeStmt(k, Label(c, k), Color(c));
    LabelIsPrefix(c, k);
  }

  /** The local head, when selected, is drawn as a node. */
  lemma HeadNode(m: GitModel, letters: string)
    requires 'h' in letters
    ensures NodeStmt(m.localHead.0, Prefix(m.localHead.0), "#e6ccff") in ProjectNodes(m, letters)
  {
    var h := m.localHead.0;
    assert h in Keys(m, 'h');
    NodeOrigin(m, letters, NodeStmt(h, Label('h', h), Color('h')));
  }

  // ----- Edges -----

  lemma {:induction false} EdgesOfMembers(m: GitModel, c: char, ids: seq<string>, sel: set<string>, e: EdgeStmt)
    ensures e in EdgesOf(m, c, ids, sel) <==>
      exists k :: k in ids && e.src == k && e.dst in Targets(m, c, k) && e.dst in sel
  {
    if ids != [] {
      var k := ids[|ids| - 1];
      EdgesOfMembers(m, c, ids[..|ids| - 1], sel, e);
      assert forall j :: j in ids <==> j in ids[..|ids| - 1] || j == k;
      if e.src == k && e.dst in Targets(m, c, k) && e.dst in sel {
        assert e == EdgeStmt(k, e.dst);
      }
    }
  }

  lemma {:induction false} EdgesUpToMembers(m: GitModel, letters: string, sel: set<string>, n: nat, e: EdgeStmt)
    requires n <= |Order|
    ensures e in EdgesUpTo(m, letters, sel, n) <==>
      exists i, k :: 0 <= i < n && Order[i] in letters && k in Keys(m, Order[i]) &&
        e.src == k && e.dst in Targets(m, Order[i], k) && e.dst in sel
  {
    if n > 0 {
      EdgesUpToMembers(m, letters, sel, n - 1, e);
      EdgesOfMembers(m, Order[n - 1], Keys(m, Order[n - 1]), sel, e);
    }
  }

  /** Edges are exactly the relations of the selected categories whose
      target is in the node-selection set; the source is not checked. */
  lemma EdgeOrigin(m: GitModel, letters: string, e: EdgeStmt)
    ensures e in ProjectEdges(m, letters) <==>
      exists c, k :: c in letters && c in Categories && k in Keys(m, c) &&
        e.src == k && e.dst in Targets(m, c, k) && e.dst in NodeSelection(m, letters)
  {
    EdgesUpToMembers(m, letters, NodeSelection(m, letters), |Order|, e);
    LettersOfOrder();
    if exists c, k :: c in letters && c in Categories && k in Keys(m, c) &&
        e.src == k && e.dst in Targets(m, c, k) && e.dst in NodeSelection(m, letters) {
      var c, k :| c in letters && c in Categories && k in Keys(m, c) &&
        e.src == k && e.dst in Targets(m, c, k) && e.dst in NodeSelection(m, letters);
      assert c in Letters(Order);
      var i :| 0 <= i < |Order| && Order[i] == c;
    }
  }

  /** No edge points at an identity outside the node-selection set. */
  lemma NoDanglingTargets(m: GitModel, letters: string)
    ensures forall e :: e in ProjectEdges(m, letters) ==> e.dst in NodeSelection(m, letters)
  {
    forall e | e in ProjectEdges(m, letters) ensures e.dst in NodeSelection(m, letters) {
      EdgeOrigin(m, letters, e);
    }
  }

  /** An edge target in the node-selection set is drawn as a node by its own
      category, unless it is one character of the head identifier. */
  lemma EdgeTargetsAreDrawn(m: GitModel, letters: string, e: EdgeStmt)
    requires m.Valid()
    requires e in ProjectEdges(m, letters)
    ensures (exists x :: x in ProjectNodes(m, letters) && x.id == e.dst) ||
            ('h' in letters && e.dst in HeadCharacters(m.localHead.0))
  {
    NoDanglingTargets(m, letters);
    var c :| c in letters && e.dst in CategoryIds(m, c);
    CategoryIdsDomain(m, c);
    if c != 'h' {
      CategoryIdsAreKeys(m, c);
      assert c in letters && c in Categories - {'u'} && e.dst in Keys(m, c);
      NodeOrigin(m, letters, NodeStmt(e.dst, Label(c, e.dst), Color(c)));
    }
  }

  /** The edges from one identity follow its related identities in order:
      the edges for `t1 + t2` are those for `t1` followed by those for `t2`. */
  lemma {:induction false} KeyEdgesInOrder(k: string, t1: seq<string>, t2: seq<string>, sel: set<string>)
    ensures KeyEdges(k, t1 + t2, sel) == KeyEdges(k, t1, sel) + KeyEdges(k, t2, sel)
  {
    if t2 == [] {
      assert t1 + t2 == t1;
    } else {
      var init, last := t2[..|t2| - 1], t2[|t2| - 1];
      KeyEdgesInOrder(k, t1, init, sel);
      assert (t1 + t2)[..|t1 + t2| - 1] == t1 + init;
      var tail := if last in sel then [EdgeStmt(k, last)] else [];
      assert KeyEdges(k, t1 + t2, sel) == KeyEdges(k, t1 + init, sel) + tail;
      assert KeyEdges(k, t2, sel) == KeyEdges(k, init, sel) + tail;
      AppendStep(KeyEdges(k, t1, sel), KeyEdges(k, init, sel), tail, KeyEdges(k, t1 + init, sel), KeyEdges(k, t1 + t2, sel));
    }
  }

  /** One related identity gives its edge exactly when it is in `sel`. */
  lemma KeyEdgesSingle(k: string, t: string, sel: set<string>)
    ensures KeyEdges(k, [t], sel) == if t in sel then [EdgeStmt(k, t)] else []
  {
    assert [t][..0] == [];
  }

  /** The upstream category emits an edge from a tracking identity to the
      identity it tracks exactly when the latter is in the node-selection set. */
  lemma UpstreamEdges(m: GitModel, sel: set<string>, e: EdgeStmt)
    ensures e in CategoryEdges(m, 'u', sel) <==>
      e.src in m.upstreams.keys && e.src in m.upstreams.values && e.dst == m.upstreams.values[e.src] && e.dst in sel
  {
    var u := m.upstreams;
    assert Targets(m, 'u', e.src) == Ref(u, e.src);
    EdgesOfMembers(m, 'u', u.keys, sel, e);
    assert e in CategoryEdges(m, 'u', sel) <==> e.src in u.keys && e.dst in Ref(u, e.src) && e.dst in sel;
  }

  /** Within a category, the edges from one identity are the related
      identities in `sel`; a single-reference category gives at most one. */
  lemma EdgesPerIdentity(m: GitModel, c: char, k: string, sel: set<string>)
    ensures forall e :: e in KeyEdges(k, Targets(m, c, k), sel) ==> e.src == k && e.dst in sel
    ensures c in "lhrdagu" ==> |KeyEdges(k, Targets(m, c, k), sel)| <= 1
  {
  }

  // ----- Selection letters -----

  /** Categories at positions `p` to `n - 1` of `Order` that are not
      selected contribute no node. */
  lemma {:induction false} UnselectedNodes(m: GitModel, letters: string, p: nat, n: nat)
    requires p <= n <= |Order|
    requires forall i :: p <= i < n ==> Order[i] !in letters
    ensures NodesUpTo(m, letters, n) == NodesUpTo(m, letters, p)
    decreases n - p
  {
    if p < n {
      UnselectedNodes(m, letters, p, n - 1);
    }
  }

  /** Categories at positions `p` to `n - 1` of `Order` that are not
      selected contribute no edge. */
  lemma {:induction false} UnselectedEdges(m: GitModel, letters: string, sel: set<string>, p: nat, n: nat)
    requires p <= n <= |Order|
    requires forall i :: p <= i < n ==> Order[i] !in letters
    ensures EdgesUpTo(m, letters, sel, n) == EdgesUpTo(m, letters, sel, p)
    decreases n - p
  {
    if p < n {
      UnselectedEdges(m, letters, sel, p, n - 1);
    }
  }

  /** When the letter at position `i` of `Order` is the only category
      selected, the graph is that category's statements. */
  lemma OnlyCategory(m: GitModel, letters: string, i: nat)
    requires i < |Order| && Order[i] in letters
    requires forall k :: 0 <= k < |Order| && Order[k] in letters ==> k == i
    ensures ProjectNodes(m, letters) == CategoryNodes(m, Order[i])
    ensures ProjectEdges(m, letters) == CategoryEdges(m, Order[i], NodeSelection(m, letters))
  {
    var sel := NodeSelection(m, letters);
    UnselectedNodes(m, letters, i + 1, |Order|);
    UnselectedNodes(m, letters, 0, i);
    UnselectedEdges(m, letters, sel, i + 1, |Order|);
    UnselectedEdges(m, letters, sel, 0, i);
  }

  /** When the letters at positions `i < j` of `Order` are the only
      categories selected, the graph is the statements of the category at
      `i` followed by those of the category at `j`, whatever the order of
      the letters in the specifier. */
  lemma CategoryPair(m: GitModel, letters: string, i: nat, j: nat)
    requires i < j < |Order| && Order[i] in letters && Order[j] in letters
    requires forall k :: 0 <= k < |Order| && Order[k] in letters ==> k == i || k == j
    ensures ProjectNodes(m, letters) == CategoryNodes(m, Order[i]) + CategoryNodes(m, Order[j])
    ensures ProjectEdges(m, letters) == CategoryEdges(m, Order[i], NodeSelection(m, letters)) + CategoryEdges(m, Order[j], NodeSelection(m, letters))
  {
    PairNodes(m, letters, i, j);
    PairEdges(m, letters, NodeSelection(m, letters), i, j);
  }

  /** The node half of `CategoryPair`. */
  lemma PairNodes(m: GitModel, letters: string, i: nat, j: nat)
    requires i < j < |Order| && Order[i] in letters && Order[j] in letters
    requires forall k :: 0 <= k < |Order| && Order[k] in letters ==> k == i || k == j
    ensures NodesUpTo(m, letters, |Order|) == CategoryNodes(m, Order[i]) + CategoryNodes(m, Order[j])
  {
    UnselectedNodes(m, letters, 0, i);
    assert NodesUpTo(m, letters, i + 1) == CategoryNodes(m, Order[i]);
    UnselectedNodes(m, letters, i + 1, j);
    assert NodesUpTo(m, letters, j + 1) == NodesUpTo(m, letters, j) + CategoryNodes(m, Order[j]);
    UnselectedNodes(m, letters, j + 1, |Order|);
  }

  /** The edge half of `CategoryPair`, for any gating set `sel`. */
  lemma PairEdges(m: GitModel, letters: string, sel: set<string>, i: nat, j: nat)
    requires i < j < |Order| && Order[i] in letters && Order[j] in letters
    requires forall k :: 0 <= k < |Order| && Order[k] in letters ==> k == i || k == j
    ensures EdgesUpTo(m, letters, sel, |Order|) == CategoryEdges(m, Order[i], sel) + CategoryEdges(m, Order[j], sel)
  {
    UnselectedEdges(m, letters, sel, 0, i);
    assert EdgesUpTo(m, letters, sel, i + 1) == CategoryEdges(m, Order[i], sel);
    UnselectedEdges(m, letters, sel, i + 1, j);
    assert EdgesUpTo(m, letters, sel, j + 1) == EdgesUpTo(m, letters, sel, j) + CategoryEdges(m, Order[j], sel);
    UnselectedEdges(m, letters, sel, j + 1, |Order|);
  }

  /** No edge is drawn from `k` when none of `targets` is in `sel`. */
  lemma {:induction false} KeyEdgesNone(k: string, targets: seq<string>, sel: set<string>)
    requires forall t :: t in targets ==> t !in sel
    ensures KeyEdges(k, targets, sel) == []
  {
    if targets != [] {
      KeyEdgesNone(k, targets[..|targets| - 1], sel);
    }
  }

  /** A category with the single identity `k` draws its one node. */
  lemma SingleIdentityNodes(m: GitModel, c: char, k: string)
    requires Keys(m, c) == [k] && c != 'u'
    ensures CategoryNodes(m, c) == [NodeStmt(k, Label(c, k), Color(c))]
  {
    assert [k][..0] == [];
  }

  /** A category with the single identity `k` draws that identity's edges. */
  lemma SingleIdentityEdges(m: GitModel, c: char, k: string, sel: set<string>)
    requires Keys(m, c) == [k]
    ensures CategoryEdges(m, c, sel) == KeyEdges(k, Targets(m, c, k), sel)
  {
    assert [k][..0] == [];
    assert EdgesOf(m, c, [], sel) == [];
  }

  lemma {:induction false} NodesUpToSameLetters(m: GitModel, s1: string, s2: string, n: nat)
    requires n <= |Order|
    requires forall c :: c in Categories - {'u'} ==> (c in s1 <==> c in s2)
    ensures NodesUpTo(m, s1, n) == NodesUpTo(m, s2, n)
  {
    if n > 0 {
      NodesUpToSameLetters(m, s1, s2, n - 1);
      OrderLetter(n - 1);
    }
  }

  lemma {:induction false} EdgesUpToSameLetters(m: GitModel, s1: string, s2: string, sel: set<string>, n: nat)
    requires n <= |Order|
    requires forall c :: c in Categories ==> (c in s1 <==> c in s2)
    ensures EdgesUpTo(m, s1, sel, n) == EdgesUpTo(m, s2, sel, n)
  {
    if n > 0 {
      EdgesUpToSameLetters(m, s1, s2, sel, n - 1);
      OrderLetter(n - 1);
    }
  }

  /** Only which category letters are present matters: order, repetition
      and unknown letters change nothing, and 'u' changes no node. */
  lemma SameLettersSameGraph(m: GitModel, s1: string, s2: string)
    requires forall c :: c in Categories - {'u'} ==> (c in s1 <==> c in s2)
    ensures ProjectNodes(m, s1) == ProjectNodes(m, s2)
    ensures NodeSelection(m, s1) == NodeSelection(m, s2)
    ensures ('u' in s1 <==> 'u' in s2) ==> ProjectEdges(m, s1) == ProjectEdges(m, s2)
  {
    NodesUpToSameLetters(m, s1, s2, |Order|);
    SelectionIgnoresOtherLetters(m, s1, s2);
    if 'u' in s1 <==> 'u' in s2 {
      EdgesUpToSameLetters(m, s1, s2, NodeSelection(m, s1), |Order|);
    }
  }

  /** Two letter strings with the same letters give the same graph. */
  lemma LetterOrderIrrelevant(m: GitModel, s1: string, s2: string)
    requires Letters(s1) == Letters(s2)
    ensures ProjectNodes(m, s1) == ProjectNodes(m, s2)
    ensures ProjectEdges(m, s1) == ProjectEdges(m, s2)
  {
    forall c ensures c in s1 <==> c in s2 {
      assert c in s1 <==> c in Letters(s1);
      assert c in s2 <==> c in Letters(s2);
    }
    SameLettersSameGraph(m, s1, s2);
  }

  /** Without a recognised letter nothing is drawn. */
  lemma NothingSelected(m: GitModel, letters: string)
    requires forall c :: c in Categories ==> c !in letters
    ensures ProjectNodes(m, letters) == [] && ProjectEdges(m, letters) == []
  {
    SameLettersSameGraph(m, letters, "");
    NothingUpTo(m, |Order|);
  }

  lemma {:induction false} NothingUpTo(m: GitModel, n: nat)
    requires n <= |Order|
    ensures NodesUpTo(m, "", n) == [] && EdgesUpTo(m, "", NodeSelection(m, ""), n) == []
  {
    if n > 0 {
      NothingUpTo(m, n - 1);
    }
  }
}
