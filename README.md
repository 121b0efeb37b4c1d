# git-graph: graph projection of a repository model

git-graph draws a Git repository's objects and references as a graphviz
directed graph. It covers blobs, trees, commits, local branches, the local
head, remote branches, remote heads, remote servers, annotated tags,
lightweight tags and upstream links. The part modelled here is the
projector in `git_graph/dot_graph.py`. It has three steps:

- It resolves a selection specifier. The keywords `all`, `commits` and
  `branches` stand for fixed letter strings; any other string is taken
  as a string of category letters.
- It computes the node-selection set. These are the identities an edge
  may point at.
- It builds the graph. Each selected category gives one node per
  identity, labelled with the identity's first `SHORT` = 7 characters and
  filled with the category's colour. It then gives one edge to each
  related identity that is in the node-selection set.

Modules:

- `Repository` (`repository.dfy`): the model handed to the projector.
  Each dictionary is a key sequence, which is its iteration order, plus a
  map.
- `Selection` (`selection.dfy`): the category letters, the keyword
  constants and the resolver.
- `Styling` (`styling.dfy`): labels (`s[:SHORT]`, and the part after the
  first `/` for remote branches and remote heads) and colours.
- `NodeSet` (`node_set.dfy`): the node-selection set, as a reference
  definition `NodeSelection` and as the method `FilterNodes` that builds
  it.
- `Projection` (`projection.dfy`): reference definitions of the node and
  edge statements the projector emits, and the lemmas about them.
- `Graph` (`dot_graph.dfy`): the class `DotGraph`, whose constructor
  appends node and edge statements to its `nodes` and `edges` fields.
  The constructor is proved to produce exactly the reference statements.
- `Scenarios` (`scenarios.dfy`): small concrete repositories.

The source tests the letters one after another: `if 'b' in nodes: …`,
then `if 't' in nodes: …`, and so on through `u`. The model writes this
as one loop over the fixed order `Order = "btclhrdsagu"`, with a
per-letter table (`CategoryIds` for the node-selection set, `Keys` and
`Targets` for the graph). It makes the same updates in the same order.
The `u` letter adds nothing to the node-selection set, and it emits
edges but no nodes.

Two behaviours of the code are modelled as written:

- The local head adds the characters of its identifier to the
  node-selection set, not the identifier.
- An upstream edge is gated on its target only; its source need not be
  selected.

`branches` (`BRANCH_NODES = 'dhasglur'`, dot_graph.py:21) keeps the head
letter `h`, so even a repository with no references draws its head node
(`Scenarios.BranchesDrawsHead`).

## Model

| member | source | states |
|---|---|---|
| Selection.Resolve | git_graph/dot_graph.py:24-33 | `all` gives all eleven category letters, each once; `commits` gives all but blob and tree; `branches` gives all but blob, tree and commit; every other specifier is returned unchanged |
| Selection.KeywordLetters | git_graph/dot_graph.py:19-21 | the letter sets of `ALL_NODES`, `COMMIT_NODES` (b and t deleted) and `BRANCH_NODES` (c deleted as well) |
| Selection.KeywordStringsHaveNoRepeats | git_graph/dot_graph.py:19-21 | no keyword string lists a letter twice |
| Selection.LettersOfOrder | git_graph/dot_graph.py:38-58 | the processing order lists each of the eleven categories exactly once |
| Selection.Rank | git_graph/dot_graph.py:73-130 | the position of each category's `if` block in the source, which is where that letter stands in the processing order |
| Selection.OrderRank | git_graph/dot_graph.py:73-130 | each position of the processing order is the rank of the letter standing there, so no letter is processed twice |
| Selection.ResolveIdempotent | git_graph/dot_graph.py:24-33 | resolving an already resolved specifier changes nothing |
| Styling.Prefix | git_graph/dot_graph.py:75 | `s[:SHORT]` is a prefix of `s` of length min(len(s), 7) |
| Styling.Find | git_graph/dot_graph.py:102 | `str.find`: -1 exactly when the character is absent, otherwise the index of its first occurrence |
| Styling.RemoteName | git_graph/dot_graph.py:102 | the text after the first '/', or the whole identity when it contains none |
| Styling.Label | git_graph/dot_graph.py:75-128 | a label is at most 7 characters long |
| Styling.LabelIsPrefix | git_graph/dot_graph.py:75-128 | a label is a prefix of the identity, or of its remote name for remote branches and remote heads; it is cut short only at 7; an identity without '/' is labelled by its plain prefix |
| Styling.Color | git_graph/dot_graph.py:73-130 | exactly the ten node categories have a colour; upstream links have none |
| Styling.ColorsDistinct | git_graph/dot_graph.py:73-129 | different node categories have different colours |
| Styling.RemoteLabelDropsRemote | git_graph/dot_graph.py:100-111 | `remote/name` is labelled by the prefix of `name`, for a remote whose name has no '/' |
| Styling.OriginMainLabel | git_graph/dot_graph.py:102 | `origin/main` is labelled `main` |
| NodeSet.CategoryIds | git_graph/dot_graph.py:38-59 | what each letter adds to the node-selection set: only the ten node categories add anything, and 'h' adds only one-character strings |
| NodeSet.FilterNodes | git_graph/dot_graph.py:36-60 | builds exactly the union, over the selected letters, of what each category contributes |
| NodeSet.SelectedUpToAll | git_graph/dot_graph.py:36-60 | processing every letter of the order yields the union over the selected letters |
| NodeSet.CategoryIdsDomain | git_graph/dot_graph.py:36-60 | only the ten node categories contribute; 'u' and unknown letters add nothing |
| NodeSet.SelectionMonotone | git_graph/dot_graph.py:36-60 | selecting more letters never removes an identity |
| NodeSet.SelectionIgnoresOtherLetters | git_graph/dot_graph.py:36-60 | the set depends only on which of the ten node letters occur, not on their order or repetition, on 'u' or on unknown letters |
| NodeSet.HeadAddsCharacters | git_graph/dot_graph.py:46-47 | 'h' adds the one-character strings of the head identifier; the identifier itself is added only when it is one character long |
| Projection.Keys | git_graph/dot_graph.py:74-131 | the identities each category's loop iterates over: unknown letters iterate nothing, and the head iterates only its identifier `local_head[0]` |
| Projection.Targets | git_graph/dot_graph.py:79-132 | the identities each identity relates to: blobs and unknown letters relate to nothing; local and remote branches, remote heads, tags and upstream links relate to at most one; the head relates to `local_head[1]` |
| Projection.CategoryIdsAreKeys | git_graph/dot_graph.py:38-131 | in a well-formed model, every category other than the head and upstream links adds to the node-selection set exactly the identities it iterates over when drawing |
| Projection.KeysDistinct | git_graph/dot_graph.py:74-131 | in a well-formed model, no category draws an identity twice |
| Projection.TargetsOnlyForKeys | git_graph/dot_graph.py:79-134 | in a well-formed model, an identity that a category other than the head does not iterate over has no related identities in that category |
| Projection.NodesOf | git_graph/dot_graph.py:73-129 | one node per identity |
| Projection.NodesOfAt | git_graph/dot_graph.py:73-129 | nodes follow the iteration order: the i-th node is the node of the i-th identity, with the category's label and colour |
| Projection.KeyEdges | git_graph/dot_graph.py:79-81 | the edges from one identity start at it, point at related identities in the node-selection set, include every such one, and are no more than the related identities |
| Projection.KeyEdgesInOrder | git_graph/dot_graph.py:79-117 | edges follow the related identities in their order: the edges for `t1 + t2` are those for `t1` followed by those for `t2` |
| Projection.KeyEdgesNone | git_graph/dot_graph.py:79-81 | an identity none of whose related identities is in the node-selection set draws no edge |
| Projection.KeyEdgesSingle | git_graph/dot_graph.py:91-93 | one related identity gives its edge exactly when it is in the node-selection set |
| Projection.EntryHashes | git_graph/dot_graph.py:79-80 | a tree's edges go to the hash component `e[0]` of each entry, in entry order |
| Projection.NodeOrigin | git_graph/dot_graph.py:73-129 | a node is emitted exactly when it is the node of an identity of a selected category other than 'u', with that category's label and colour |
| Projection.LabelBounds | git_graph/dot_graph.py:75-128 | every emitted label is at most 7 characters, a prefix of the identity or of its remote name, and the plain prefix when the identity has no '/' |
| Projection.HeadNode | git_graph/dot_graph.py:94-96 | with 'h' selected, the head identifier is drawn as a node in pale violet |
| Projection.EdgeOrigin | git_graph/dot_graph.py:73-134 | an edge is emitted exactly when it goes from an identity of a selected category to one of its related identities that is in the node-selection set |
| Projection.NoDanglingTargets | git_graph/dot_graph.py:72-134 | no edge points at an identity outside the node-selection set |
| Projection.EdgeTargetsAreDrawn | git_graph/dot_graph.py:72-134 | in a well-formed model, an edge's target is drawn as a node, unless it is one character of the head identifier |
| Projection.UpstreamEdges | git_graph/dot_graph.py:130-134 | an upstream edge is emitted exactly when its target is in the node-selection set; its source is not checked |
| Projection.EdgesPerIdentity | git_graph/dot_graph.py:88-134 | each identity's edges start at it and end in the node-selection set; a single-reference category gives at most one |
| Projection.OnlyCategory | git_graph/dot_graph.py:73-134 | when one category alone is selected, the graph is exactly that category's nodes and edges |
| Projection.CategoryPair | git_graph/dot_graph.py:73-134 | when exactly two categories are selected, the graph is the first one's statements in source order followed by the second one's, whatever the order of the letters in the specifier |
| Projection.SingleIdentityNodes | git_graph/dot_graph.py:74-128 | a category other than upstream links that has one identity draws exactly that identity's node, with the category's label and colour |
| Projection.SingleIdentityEdges | git_graph/dot_graph.py:79-134 | a category with one identity draws exactly that identity's edges |
| Projection.SameLettersSameGraph | git_graph/dot_graph.py:71-134 | nodes and the node-selection set depend only on which node letters occur; edges also depend on 'u' |
| Projection.LetterOrderIrrelevant | git_graph/dot_graph.py:71-134 | two specifiers with the same letters give the same nodes and edges |
| Projection.NothingSelected | git_graph/dot_graph.py:71-134 | without a recognised letter, no node and no edge is emitted |
| Graph.DotGraph.constructor | git_graph/dot_graph.py:65-134 | the constructed graph's nodes and edges are exactly the reference projection of the resolved specifier |
| Graph.DotGraph.EmitCategory | git_graph/dot_graph.py:76-87 | emitting a category appends its node statements and its edge statements, in iteration order |
| Graph.DotGraph.EmitIdentity | git_graph/dot_graph.py:89-93 | emitting an identity appends its node, except for upstream links, and then its edges |
| Graph.DotGraph.EmitEdges | git_graph/dot_graph.py:79-81 | appends an edge to each related identity in the node-selection set, in order, and no node |
| Graph.DotGraph.Node | git_graph/dot_graph.py:75 | `node` appends one node statement and leaves the edges alone |
| Graph.DotGraph.Edge | git_graph/dot_graph.py:81 | `edge` appends one edge statement and leaves the nodes alone |
| Scenarios.CommitsAloneNodes | git_graph/dot_graph.py:82-84 | `c` on a repository with one commit draws exactly one node, the commit's, in blue |
| Scenarios.CommitsAloneEdges | git_graph/dot_graph.py:82-87 | `c` draws no edge from a commit to its tree or its parent when neither is a commit of the repository |
| Scenarios.CommitsAndTreesNodes | git_graph/dot_graph.py:76-84 | `ct` on one commit and its tree draws exactly two nodes, the tree's in brown and then the commit's in blue |
| Scenarios.CommitsAndTreesEdges | git_graph/dot_graph.py:76-87 | `ct` draws exactly one edge, commit to tree, for a tree whose entries point at neither the commit nor the tree; the tree's edges to unselected entries and the edge to a parent missing from the repository are not drawn |
| Scenarios.TreeWithoutSelectedEntries | git_graph/dot_graph.py:76-81 | a single tree none of whose entries is in the node-selection set draws no edge |
| Scenarios.BranchAndCommitNodes | git_graph/dot_graph.py:82-90 | `lc` on one commit and one branch draws exactly two nodes, the commit's in blue and then the branch's in violet |
| Scenarios.BranchAndCommitEdges | git_graph/dot_graph.py:82-93 | `lc` draws exactly one edge, branch to commit; the commit's edges to its unselected tree and parent are not drawn |
| Scenarios.UpstreamSourceUnchecked | git_graph/dot_graph.py:130-134 | with 'u' and 'r' selected, the edge `main -> origin/main` is drawn although `main` is neither selected nor drawn |
| Scenarios.RemoteBranchLabel | git_graph/dot_graph.py:100-102 | a remote branch `remote/name`, for a remote whose name has no '/', is drawn with the label of `name` in orange |
| Scenarios.BranchesDrawsHead | git_graph/dot_graph.py:15-96 | the `branches` keyword draws the head node for any repository |

## Left out

- `persist` and `main`: they are file-system, clock, command-line and rendering I/O.
- The repository-model builder (`gg.GitGraph(path).build_graph()`) is not part of this model. Its output is the input datatype `GitModel`, so the `path` field is not modelled.
- The graphviz library is not modelled. The graph, node and edge attribute defaults are left out, and so is the implicit node graphviz creates for an edge endpoint that has no node statement.
- Statement interleaving is not kept: graphviz keeps one body in which node and edge statements interleave. The model keeps nodes and edges as two sequences, each in emission order.
- The default argument `nodes=ALL_NODES` of `handle_specific_node_sets`, `filter_nodes` and `DotGraph.__init__` (dot_graph.py:24, 36, 65) is not modelled: the model's `Resolve`, `FilterNodes` and constructor always take an explicit specifier. Passing `AllNodes` gives the default behaviour.
- `COMMIT_NODES` and `BRANCH_NODES` are written as the literal strings that the `str.replace` calls produce.
- The source's eleven `if` blocks are written as one loop over the fixed order `btclhrdsagu`, in both `filter_nodes` and the constructor. The updates and their order are the same.
- Projection.KeyEdges: the order of the edges is stated separately, by Projection.KeyEdgesInOrder and Projection.KeyEdgesSingle. KeyEdges's own contract states only membership and a length bound.
- Styling.Label: its contract gives only the length bound. The prefix properties are in Styling.LabelIsPrefix.
- A key listed in a dictionary's key sequence but missing from its map has no related identities here. In Python it cannot occur, and `Dict.Valid` rules it out.
