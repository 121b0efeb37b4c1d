/** The graph projector: a dot graph whose body is filled with node and edge
    statements while it is constructed from a repository model. */
module Graph {
  import opened Repository
  import opened Selection
  import opened NodeSet
  import opened Styling
  import opened Projection

  class DotGraph {
    /** The node statements added so far, in order. */
    var nodes: seq<NodeStmt>
    /** The edge statements added so far, in order. */
    var edges: seq<EdgeStmt>

    /** Projects `m` with the categories that `spec` selects: resolves the
        specifier, computes the node-selection set, then emits every selected
        category in the order b, t, c, l, h, r, d, s, a, g, u. */
    constructor (m: GitModel, spec: string)
      ensures nodes == ProjectNodes(m, Resolve(spec))
      ensures edges == ProjectEdges(m, Resolve(spec))
    {
      nodes, edges := [], [];
      new;
      var letters := Resolve(spec);
      var nodeSet := FilterNodes(m, letters);
      for i := 0 to |Order|
        invariant nodes == NodesUpTo(m, letters, i)
        invariant edges == EdgesUpTo(m, letters, nodeSet, i)
      {
        var c := Order[i];
        if c in letters {
          EmitCategory(m, c, nodeSet);
        }
      }
    }

    /** Adds one node statement. */
    method Node(id: string, caption: string, color: string)
      modifies this
      ensures nodes == old(nodes) + [NodeStmt(id, caption, color)]
      ensures edges == old(edges)
    {
      nodes := nodes + [NodeStmt(id, caption, color)];
    }

    /** Adds one edge statement. */
    method Edge(src: string, dst: string)
      modifies this
      ensures edges == old(edges) + [EdgeStmt(src, dst)]
      ensures nodes == old(nodes)
    {
      edges := edges + [EdgeStmt(src, dst)];
    }

    /** Emits category `c`: for each of its identities, a node (except for
        upstream links) followed by an edge to each related identity that is
        in `nodeSet`. */
    method EmitCategory(m: GitModel, c: char, nodeSet: set<string>)
      modifies this
      ensures nodes == old(nodes) + CategoryNodes(m, c)
      ensures edges == old(edges) + CategoryEdges(m, c, nodeSet)
    {
      var keys := Keys(m, c);
      for i := 0 to |keys|
        invariant nodes == old(nodes) + ShownNodes(c, keys[..i])
        invariant edges == old(edges) + EdgesOf(m, c, keys[..i], nodeSet)
      {
        ghost var nodes0, edges0 := nodes, edges;
        EmitIdentity(m, c, keys[i], nodeSet);
        ShownNodesSnoc(c, keys, i);
        EdgesOfSnoc(m, c, keys, i, nodeSet);
        AppendStep(old(nodes), ShownNodes(c, keys[..i]), nodes[|nodes0|..], nodes0, nodes);
        AppendStep(old(edges), EdgesOf(m, c, keys[..i], nodeSet), edges[|edges0|..], edges0, edges);
      }
      assert keys[..|keys|] == keys;
    }

    /** Emits identity `k` of category `c`: its node, unless `c` is the
        upstream category, then its edges. */
    method EmitIdentity(m: GitModel, c: char, k: string, nodeSet: set<string>)
      modifies this
      ensures nodes == old(nodes) + if c == 'u' then [] else [NodeStmt(k, Label(c, k), Color(c))]
      ensures edges == old(edges) + KeyEdges(k, Targets(m, c, k), nodeSet)
    {
      if c != 'u' {
        Node(k, Label(c, k), Color(c));
      }
      EmitEdges(k, Targets(m, c, k), nodeSet);
    }

    /** Emits an edge from `k` to each of `targets` that is in `nodeSet`, in order. */
    method EmitEdges(k: string, targets: seq<string>, nodeSet: set<string>)
      modifies this
      ensures nodes == old(nodes)
      ensures edges == old(edges) + KeyEdges(k, targets, nodeSet)
    {
      for j := 0 to |targets|
        invariant nodes == old(nodes)
        invariant edges == old(edges) + KeyEdges(k, targets[..j], nodeSet)
      {
        assert targets[..j + 1][..j] == targets[..j];
        if targets[j] in nodeSet {
          Edge(k, targets[j]);
        }
      }
      assert targets[..|targets|] == targets;
    }
  }
}
