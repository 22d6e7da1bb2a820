/** The part of networkx's DiGraph that the agents use. A graph keeps its nodes
    in insertion order and, for every node, its successors in insertion order;
    adding a node or an edge that is already present changes nothing. */
module Graphs {
  import opened Seqs

  type Node = string
  type Edge = (Node, Node)

  /** The "dependency_graph" dictionary the structure analyzer produces and the
      flow reasoner consumes: node list, edge list, weakly connected components. */
  datatype GraphData = GraphData(nodes: seq<Node>, edges: seq<Edge>, components: seq<set<Node>>)

  /** The endpoints of the edges, edge by edge, source before target. */
  function Endpoints(es: seq<Edge>): seq<Node> {
    if es == [] then []
    else Endpoints(es[..|es| - 1]) + [es[|es| - 1].0, es[|es| - 1].1]
  }

  /** The node order of a DiGraph filled by add_nodes_from(nodes) and then
      add_edges_from(edges): an edge adds its source, then its target, when new. */
  function GraphNodes(nodes: seq<Node>, edges: seq<Edge>): seq<Node> {
    Dedup(nodes + Endpoints(edges))
  }

  /** The targets of the edges leaving n, in edge order, repeats included. */
  function Targets(es: seq<Edge>, n: Node): seq<Node> {
    if es == [] then []
    else Targets(es[..|es| - 1], n) + (if es[|es| - 1].0 == n then [es[|es| - 1].1] else [])
  }

  /** The edges from n to each of vs, in the order of vs. */
  function Out(n: Node, vs: seq<Node>): seq<Edge> {
    seq(|vs|, i requires 0 <= i < |vs| => (n, vs[i]))
  }

  /** The edge list G.edges() reports for a graph built from the edges es over the
      node order ns: node by node, the distinct successors in the order first added. */
  function EdgeOrder(ns: seq<Node>, es: seq<Edge>): seq<Edge> {
    if ns == [] then [] else Out(ns[0], Dedup(Targets(es, ns[0]))) + EdgeOrder(ns[1..], es)
  }

  /** G.degree(n) in a DiGraph: in-degree plus out-degree over the set of edges, so
      an edge given twice counts once and a self-loop counts twice. */
  function Degree(es: seq<Edge>, n: Node): (r: nat)
    ensures r == 0 <==> forall e :: e in es ==> e.0 != n && e.1 != n
  {
    var outs := Filter(Dedup(es), (e: Edge) => e.0 == n);
    var ins := Filter(Dedup(es), (e: Edge) => e.1 == n);
    assert outs != [] ==> outs[0] in es;
    assert ins != [] ==> ins[0] in es;
    |outs| + |ins|
  }

  /** The successors of n in the successor map; none for an absent node. */
  function SuccOf(succ: map<Node, seq<Node>>, n: Node): seq<Node> {
    if n in succ then succ[n] else []
  }

  /** The edge list of a successor map, node by node over ns. */
  function AdjEdges(ns: seq<Node>, succ: map<Node, seq<Node>>): seq<Edge> {
    if ns == [] then [] else Out(ns[0], SuccOf(succ, ns[0])) + AdjEdges(ns[1..], succ)
  }

  /** Every node appears once and has a successor list; successor lists hold
      distinct nodes of the graph. */
  ghost predicate WellFormed(nodes: seq<Node>, succ: map<Node, seq<Node>>) {
    NoDup(nodes) &&
    (forall n :: n in succ <==> n in nodes) &&
    (forall n :: n in succ ==> NoDup(succ[n]) && forall v :: v in succ[n] ==> v in nodes)
  }

  /** Recording v as a successor of u keeps a graph well formed when both are nodes. */
  lemma AddSuccessor(nodes: seq<Node>, succ: map<Node, seq<Node>>, u: Node, v: Node)
    requires WellFormed(nodes, succ) && u in nodes && v in nodes
    ensures WellFormed(nodes, succ[u := Added(succ[u], v)])
  {
    if v !in succ[u] {
      forall i, j | 0 <= i < j < |succ[u] + [v]| ensures (succ[u] + [v])[i] != (succ[u] + [v])[j] {
        if j == |succ[u]| {
          assert (succ[u] + [v])[i] in succ[u];
        }
      }
    }
  }

  /** A DiGraph under construction, as structure_analyzer_agent.process fills it. */
  class DiGraph {
    var nodes: seq<Node>
    var succ: map<Node, seq<Node>>

    /** Every node appears once and has a successor list; successor lists hold
        distinct nodes of the graph. */
    ghost predicate Valid()
      reads this
    {
      WellFormed(nodes, succ)
    }

    function Successors(n: Node): seq<Node>
      reads this
    {
      SuccOf(succ, n)
    }

    /** G.edges() */
    function Edges(): seq<Edge>
      reads this
    {
      AdjEdges(nodes, succ)
    }

    /** nx.DiGraph(): no nodes, no edges. */
    constructor ()
      ensures Valid()
      ensures nodes == [] && forall n :: Successors(n) == []
    {
      nodes := [];
      succ := map[];
    }

    /** G.add_node(n): a new node goes last, without successors; a present node is
        left as it is. */
    method AddNode(n: Node)
      requires Valid()
      modifies this
      ensures Valid()
      ensures nodes == Added(old(nodes), n)
      ensures forall m :: Successors(m) == old(Successors(m))
    {
      if n !in succ {
        nodes := nodes + [n];
        succ := succ[n := []];
      }
    }

    /** G.add_edge(u, v): adds u, then v, when new, then v to the successors of u
        when it is not one already. */
    method AddEdge(u: Node, v: Node)
      requires Valid()
      modifies this
      ensures Valid()
      ensures nodes == Added(Added(old(nodes), u), v)
      ensures forall m :: Successors(m) == if m == u then Added(old(Successors(m)), v) else old(Successors(m))
    {
      AddNode(u);
      AddNode(v);
      AddSuccessor(nodes, succ, u, v);
      succ := succ[u := Added(succ[u], v)];
    }

    /** G.add_nodes_from(ns): add_node for each of ns in turn. */
    method AddNodesFrom(ns: seq<Node>)
      requires Valid()
      modifies this
      ensures Valid()
      ensures nodes == Dedup(old(nodes) + ns)
      ensures forall m :: Successors(m) == old(Successors(m))
    {
      DedupOfNoDup(nodes);
      assert old(nodes) + ns[..0] == old(nodes);
      for i := 0 to |ns|
        invariant Valid()
        invariant nodes == Dedup(old(nodes) + ns[..i])
        invariant forall m :: Successors(m) == old(Successors(m))
      {
        DedupStep(old(nodes), ns, i);
        AddNode(ns[i]);
      }
      assert ns[..|ns|] == ns;
    }

    /** G.add_edges_from(es): add_edge for each of es in turn. */
    method AddEdgesFrom(es: seq<Edge>)
      requires Valid()
      modifies this
      ensures Valid()
      ensures nodes == Dedup(old(nodes) + Endpoints(es))
      ensures forall m :: Successors(m) == Dedup(old(Successors(m)) + Targets(es, m))
    {
      NoEdgesYet(nodes, succ, es);
      for j := 0 to |es|
        invariant Valid()
        invariant nodes == Dedup(old(nodes) + Endpoints(es[..j]))
        invariant forall m :: Successors(m) == Dedup(SuccOf(old(succ), m) + Targets(es[..j], m))
      {
        EdgeStep(old(nodes), old(succ), es, j);
        AddEdge(es[j].0, es[j].1);
      }
      assert es[..|es|] == es;
    }
  }

  /** A DiGraph filled node by node, then edge by edge: its nodes come in the
      order GraphNodes gives and its edge list is the one EdgeOrder describes. */
  method Build(nodes: seq<Node>, edges: seq<Edge>) returns (g: DiGraph)
    ensures fresh(g) && g.Valid()
    ensures g.nodes == GraphNodes(nodes, edges)
    ensures g.Edges() == EdgeOrder(g.nodes, edges)
  {
    g := new DiGraph();
    g.AddNodesFrom(nodes);
    g.AddEdgesFrom(edges);
    assert [] + nodes == nodes;
    DedupDedup(nodes, Endpoints(edges));
    forall n ensures g.Successors(n) == Dedup(Targets(edges, n)) {
      assert [] + Targets(edges, n) == Targets(edges, n);
    }
    AdjEdgesOrder(g.nodes, g.succ, edges);
  }

  /** Before any edge is added, the graph is what it was. */
  lemma NoEdgesYet(nodes: seq<Node>, succ: map<Node, seq<Node>>, es: seq<Edge>)
    requires WellFormed(nodes, succ)
    ensures nodes == Dedup(nodes + Endpoints(es[..0]))
    ensures forall m :: SuccOf(succ, m) == Dedup(SuccOf(succ, m) + Targets(es[..0], m))
  {
    assert nodes + Endpoints(es[..0]) == nodes;
    DedupOfNoDup(nodes);
    forall m ensures SuccOf(succ, m) == Dedup(SuccOf(succ, m) + Targets(es[..0], m)) {
      assert SuccOf(succ, m) + Targets(es[..0], m) == SuccOf(succ, m);
      DedupOfNoDup(SuccOf(succ, m));
    }
  }

  /** What adding edge j does to the node order and to the successor lists. */
  lemma EdgeStep(base: seq<Node>, succ: map<Node, seq<Node>>, es: seq<Edge>, j: nat)
    requires j < |es|
    ensures Dedup(base + Endpoints(es[..j + 1])) ==
      Added(Added(Dedup(base + Endpoints(es[..j])), es[j].0), es[j].1)
    ensures forall n :: (Dedup(SuccOf(succ, n) + Targets(es[..j + 1], n)) ==
      if n == es[j].0 then Added(Dedup(SuccOf(succ, n) + Targets(es[..j], n)), es[j].1)
      else Dedup(SuccOf(succ, n) + Targets(es[..j], n)))
  {
    var (u, v) := es[j];
    var pre := base + Endpoints(es[..j]);
    assert es[..j + 1][..j] == es[..j];
    assert base + Endpoints(es[..j + 1]) == (pre + [u]) + [v];
    DedupSnoc(pre, u);
    DedupSnoc(pre + [u], v);
    assert es[..j + 1] == es[..j] + [es[j]];
    forall n ensures Dedup(SuccOf(succ, n) + Targets(es[..j + 1], n)) ==
      if n == u then Added(Dedup(SuccOf(succ, n) + Targets(es[..j], n)), v)
      else Dedup(SuccOf(succ, n) + Targets(es[..j], n))
    {
      TargetsSnoc(SuccOf(succ, n), es[..j], es[j], n);
    }
  }

  /** Both ends of every edge are among the endpoints, hence among the graph's nodes. */
  lemma {:induction false} EndpointsMember(nodes: seq<Node>, edges: seq<Edge>)
    ensures forall e :: e in edges ==> e.0 in GraphNodes(nodes, edges) && e.1 in GraphNodes(nodes, edges)
    ensures forall n :: n in nodes ==> n in GraphNodes(nodes, edges)
  {
    EndpointsOf(edges);
  }

  lemma {:induction false} EndpointsOf(edges: seq<Edge>)
    ensures forall e :: e in edges ==> e.0 in Endpoints(edges) && e.1 in Endpoints(edges)
  {
    if edges != [] {
      var edges' := edges[..|edges| - 1];
      EndpointsOf(edges');
      assert edges == edges' + [edges[|edges| - 1]];
    }
  }

  lemma {:induction false} TargetsMember(es: seq<Edge>, a: Node, b: Node)
    ensures b in Targets(es, a) <==> (a, b) in es
  {
    if es != [] {
      var es' := es[..|es| - 1];
      TargetsMember(es', a, b);
      assert es == es' + [es[|es| - 1]];
    }
  }

  /** Adding one more edge to the end extends the targets of its source only. */
  lemma TargetsSnoc(pre: seq<Node>, es: seq<Edge>, e: Edge, n: Node)
    ensures Dedup(pre + Targets(es + [e], n)) ==
      if e.0 == n then Added(Dedup(pre + Targets(es, n)), e.1) else Dedup(pre + Targets(es, n))
  {
    assert (es + [e])[..|es|] == es;
    if e.0 == n {
      assert pre + Targets(es + [e], n) == (pre + Targets(es, n)) + [e.1];
      DedupSnoc(pre + Targets(es, n), e.1);
    } else {
      assert Targets(es + [e], n) == Targets(es, n);
    }
  }

  /** The reported edge list holds each edge of the graph once: exactly the given
      edges whose source is a node of ns. */
  lemma {:induction false} EdgeOrderContents(ns: seq<Node>, es: seq<Edge>, a: Node, b: Node)
    ensures (a, b) in EdgeOrder(ns, es) <==> a in ns && (a, b) in es
  {
    if ns != [] {
      EdgeOrderContents(ns[1..], es, a, b);
      TargetsMember(es, a, b);
      var vs := Dedup(Targets(es, ns[0]));
      assert (a, b) in Out(ns[0], vs) ==> a == ns[0] && b in vs;
      if a == ns[0] && b in vs {
        var k :| 0 <= k < |vs| && vs[k] == b;
        assert Out(ns[0], vs)[k] == (a, b);
      }
      assert a in ns <==> a == ns[0] || a in ns[1..];
    }
  }

  lemma {:induction false} EdgeOrderNoDup(ns: seq<Node>, es: seq<Edge>)
    requires NoDup(ns)
    ensures NoDup(EdgeOrder(ns, es))
  {
    if ns != [] {
      EdgeOrderNoDup(ns[1..], es);
      var first := Out(ns[0], Dedup(Targets(es, ns[0])));
      var rest := EdgeOrder(ns[1..], es);
      assert ns[0] !in ns[1..];
      forall e | e in first ensures e !in rest {
        EdgeOrderContents(ns[1..], es, e.0, e.1);
      }
      NoDupConcat(first, rest);
    }
  }

  /** A successor map that agrees with the edges es, node by node, reports the
      edges in the order EdgeOrder describes. */
  lemma {:induction false} AdjEdgesOrder(ns: seq<Node>, succ: map<Node, seq<Node>>, es: seq<Edge>)
    requires forall n :: n in ns ==> SuccOf(succ, n) == Dedup(Targets(es, n))
    ensures AdjEdges(ns, succ) == EdgeOrder(ns, es)
  {
    if ns != [] {
      AdjEdgesOrder(ns[1..], succ, es);
    }
  }

  /** When every endpoint is already among the distinct nodes, the edges add no
      nodes and the graph's node order is the given one. */
  lemma GraphNodesClosed(nodes: seq<Node>, edges: seq<Edge>)
    requires NoDup(nodes)
    requires forall e :: e in edges ==> e.0 in nodes && e.1 in nodes
    ensures GraphNodes(nodes, edges) == nodes
  {
    EndpointsWithin(edges, nodes);
    AddKnown(nodes, Endpoints(edges));
  }

  lemma {:induction false} EndpointsWithin(edges: seq<Edge>, nodes: seq<Node>)
    requires forall e :: e in edges ==> e.0 in nodes && e.1 in nodes
    ensures forall x :: x in Endpoints(edges) ==> x in nodes
  {
    if edges != [] {
      EndpointsWithin(edges[..|edges| - 1], nodes);
      assert edges[|edges| - 1] in edges;
    }
  }

  /** Adding only elements already present leaves a duplicate-free sequence as it is. */
  lemma {:induction false} AddKnown(nodes: seq<Node>, t: seq<Node>)
    requires NoDup(nodes)
    requires forall x :: x in t ==> x in nodes
    ensures Dedup(nodes + t) == nodes
  {
    if t == [] {
      assert nodes + t == nodes;
      DedupOfNoDup(nodes);
    } else {
      var t' := t[..|t| - 1];
      AddKnown(nodes, t');
      assert nodes + t == (nodes + t') + [t[|t| - 1]];
      DedupSnoc(nodes + t', t[|t| - 1]);
    }
  }
}
