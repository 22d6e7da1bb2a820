/** agents/flow_reasoning_agent.py: a summary of a dependency graph as an
    execution flow over a node ordering, the five nodes of highest degree, and up
    to five function-like node names. */
module FlowReasoning {
  import opened Seqs
  import opened Text
  import opened Graphs

  /** The three lists the flow reasoner answers with. */
  datatype FlowResponse = FlowResponse(executionFlow: seq<string>, keyComponents: seq<Node>, keyFunctions: seq<Node>)

  const DefaultFlow: seq<string> := ["System initializes", "Processes input", "Returns output"]
  const DefaultComponents: seq<Node> := ["core system", "input handler", "output formatter"]
  const DefaultFunctions: seq<Node> := ["main", "init", "run"]
  const FunctionKeywords: seq<string> :=
    ["handler", "process", "create", "update", "delete", "fetch", "get", "post", "put"]

  /** At most this many flow steps, and this many key components or functions. */
  const MaxSteps: nat := 8
  const MaxPicks: nat := 5

  const ReturnPrefix: string := "Return result from "

  // ---------------------------------------------------------------------------
  // build_execution_flow
  // ---------------------------------------------------------------------------

  /** The label of step i over the ordering: the first node initializes, the node
      at the last position of the whole ordering returns, any other is processed. */
  function StepLabel(order: seq<Node>, i: nat): string
    requires i < |order|
  {
    if i == 0 then "Initialize " + order[i]
    else if i == |order| - 1 then ReturnPrefix + order[i]
    else "Process " + order[i]
  }

  /** The steps after k rounds of the loop. */
  function FlowSteps(order: seq<Node>, k: nat): seq<string>
    requires k <= |order|
  {
    if k == 0 then [] else FlowSteps(order, k - 1) + [StepLabel(order, k - 1)]
  }

  /** The execution flow of a graph with the given node list, over the given node
      ordering (passed in: the topological order networkx computes). */
  function ExecutionFlow(nodes: seq<Node>, order: seq<Node>): seq<string> {
    if nodes == [] then DefaultFlow else FlowSteps(order, Min(MaxSteps, |order|))
  }

  /** build_execution_flow, with the ordering passed in. */
  method BuildExecutionFlow(g: GraphData, order: seq<Node>) returns (steps: seq<string>)
    ensures steps == ExecutionFlow(g.nodes, order)
  {
    if g.nodes == [] {
      return DefaultFlow;
    }
    steps := [];
    var top := Take(order, MaxSteps);
    for i := 0 to |top|
      invariant steps == FlowSteps(order, i)
    {
      var node := top[i];
      if i == 0 {
        steps := steps + ["Initialize " + node];
      } else if i == |order| - 1 {
        steps := steps + [ReturnPrefix + node];
      } else {
        steps := steps + ["Process " + node];
      }
    }
  }

  lemma {:induction false} FlowStepsIndex(order: seq<Node>, k: nat)
    requires k <= |order|
    ensures |FlowSteps(order, k)| == k
    ensures forall i :: 0 <= i < k ==> FlowSteps(order, k)[i] == StepLabel(order, i)
  {
    if k > 0 {
      FlowStepsIndex(order, k - 1);
    }
  }

  /** A step that returns a result. */
  predicate IsReturnStep(step: string) {
    |ReturnPrefix| <= |step| && step[..|ReturnPrefix|] == ReturnPrefix
  }

  /** The shape of the flow: the fixed three steps for a graph without nodes;
      otherwise one step per node of the ordering, at most eight, the first one
      initializing the first node and every later one processing its node, except
      a step at the last position of the whole ordering, which returns. */
  lemma FlowShape(nodes: seq<Node>, order: seq<Node>)
    ensures nodes == [] ==> ExecutionFlow(nodes, order) == DefaultFlow
    ensures nodes != [] ==> |ExecutionFlow(nodes, order)| == Min(MaxSteps, |order|)
    ensures nodes != [] && order != [] ==> ExecutionFlow(nodes, order)[0] == "Initialize " + order[0]
    ensures nodes != [] ==> forall i :: 0 < i < |ExecutionFlow(nodes, order)| ==>
      ExecutionFlow(nodes, order)[i] == (if i == |order| - 1 then ReturnPrefix else "Process ") + order[i]
  {
    FlowStepsIndex(order, Min(MaxSteps, |order|));
  }

  /** A step returns exactly at the last position of a flow over two to eight
      nodes, and nowhere in a longer or shorter one. */
  lemma FlowReturn(nodes: seq<Node>, order: seq<Node>)
    requires nodes != []
    ensures var flow := ExecutionFlow(nodes, order);
      forall i :: 0 <= i < |flow| ==> (IsReturnStep(flow[i]) <==> 2 <= |order| <= MaxSteps && i == |order| - 1)
    ensures (exists i :: 0 <= i < |ExecutionFlow(nodes, order)| && IsReturnStep(ExecutionFlow(nodes, order)[i]))
      <==> 2 <= |order| <= MaxSteps
  {
    var flow := ExecutionFlow(nodes, order);
    FlowStepsIndex(order, Min(MaxSteps, |order|));
    forall i | 0 <= i < |flow|
      ensures IsReturnStep(flow[i]) <==> 2 <= |order| <= MaxSteps && i == |order| - 1
    {
      assert flow[i] == StepLabel(order, i);
      assert IsReturnStep(flow[i]) ==> flow[i][0] == 'R';
    }
    if 2 <= |order| <= MaxSteps {
      assert IsReturnStep(flow[|order| - 1]);
    }
  }

  /** order lists every node of the graph once and puts the source of each edge
      before its target. */
  ghost predicate IsTopologicalOrder(order: seq<Node>, nodes: seq<Node>, edges: seq<Edge>) {
    NoDup(order) &&
    (forall n :: n in order <==> n in GraphNodes(nodes, edges)) &&
    (forall i, j :: 0 <= i < |order| && 0 <= j < |order| && (order[i], order[j]) in edges ==> i < j)
  }

  /** Over a topological order, the flow initializes a node that no edge enters,
      and a returning step names a node that no edge leaves. */
  lemma FlowEnds(g: GraphData, order: seq<Node>)
    requires g.nodes != [] && IsTopologicalOrder(order, g.nodes, g.edges)
    ensures |ExecutionFlow(g.nodes, order)| == Min(MaxSteps, |order|)
    ensures var flow := ExecutionFlow(g.nodes, order);
      flow != [] && flow[0] == "Initialize " + order[0] && forall e :: e in g.edges ==> e.1 != order[0]
    ensures 2 <= |order| <= MaxSteps ==>
      ExecutionFlow(g.nodes, order)[|order| - 1] == ReturnPrefix + order[|order| - 1] &&
      forall e :: e in g.edges ==> e.0 != order[|order| - 1]
  {
    EndpointsMember(g.nodes, g.edges);
    assert g.nodes[0] in order;
    FlowStepsIndex(order, Min(MaxSteps, |order|));
  }

  // ---------------------------------------------------------------------------
  // extract_key_components
  // ---------------------------------------------------------------------------

  /** The ranking key: the node's degree in the graph of the given edges. */
  function DegreeKey(edges: seq<Edge>): Node -> int {
    n => Degree(edges, n)
  }

  /** The nodes whose key is d. */
  function KeyIs(key: Node -> int, d: int): Node -> bool {
    n => key(n) == d
  }

  predicate SortedDesc(s: seq<Node>, key: Node -> int) {
    forall i, j :: 0 <= i < j < |s| ==> key(s[i]) >= key(s[j])
  }

  /** x placed before the first element whose key is not larger than its own. */
  function InsertDesc(x: Node, s: seq<Node>, key: Node -> int): (r: seq<Node>)
    ensures |r| == |s| + 1
  {
    if s == [] || key(s[0]) <= key(x) then [x] + s else [s[0]] + InsertDesc(x, s[1..], key)
  }

  /** sorted(s, key=key, reverse=True): by non-increasing key, elements with equal
      keys in their original order. */
  function SortDesc(s: seq<Node>, key: Node -> int): (r: seq<Node>)
    ensures |r| == |s|
  {
    if s == [] then [] else InsertDesc(s[0], SortDesc(s[1..], key), key)
  }

  /** The graph's nodes ranked by degree; with two or more nodes degree_centrality
      divides every degree by the same positive number, so ranking by degree gives
      the same order (a single node is first either way). */
  function Ranking(nodes: seq<Node>, edges: seq<Edge>): seq<Node> {
    SortDesc(GraphNodes(nodes, edges), DegreeKey(edges))
  }

  /** Never empty, and at most five names. */
  function KeyComponents(g: GraphData): (r: seq<Node>)
    ensures 0 < |r| <= MaxPicks
  {
    if g.nodes == [] then DefaultComponents
    else
      assert g.nodes[0] in GraphNodes(g.nodes, g.edges);
      Take(Ranking(g.nodes, g.edges), MaxPicks)
  }

  lemma {:induction false} InsertDescPerm(x: Node, s: seq<Node>, key: Node -> int)
    ensures multiset(InsertDesc(x, s, key)) == multiset([x] + s)
  {
    if s != [] && key(s[0]) > key(x) {
      InsertDescPerm(x, s[1..], key);
      assert s == [s[0]] + s[1..];
    }
  }

  lemma {:induction false} SortDescPerm(s: seq<Node>, key: Node -> int)
    ensures multiset(SortDesc(s, key)) == multiset(s)
  {
    if s != [] {
      SortDescPerm(s[1..], key);
      InsertDescPerm(s[0], SortDesc(s[1..], key), key);
      assert s == [s[0]] + s[1..];
    }
  }

  /** An element whose key is at least every key of a sorted sequence can go first. */
  lemma SortedCons(y: Node, t: seq<Node>, key: Node -> int)
    requires SortedDesc(t, key)
    requires forall k :: 0 <= k < |t| ==> key(y) >= key(t[k])
    ensures SortedDesc([y] + t, key)
  {
    var s := [y] + t;
    forall i, j | 0 <= i < j < |s| ensures key(s[i]) >= key(s[j]) {
      assert s[j] == t[j - 1];
      if i > 0 {
        assert s[i] == t[i - 1];
      }
    }
  }

  lemma {:induction false} InsertDescSorted(x: Node, s: seq<Node>, key: Node -> int)
    requires SortedDesc(s, key)
    ensures SortedDesc(InsertDesc(x, s, key), key)
  {
    if s != [] && key(s[0]) > key(x) {
      var s' := s[1..];
      var r' := InsertDesc(x, s', key);
      assert InsertDesc(x, s, key) == [s[0]] + r';
      InsertDescSorted(x, s', key);
      InsertDescPerm(x, s', key);
      forall k | 0 <= k < |r'| ensures key(s[0]) >= key(r'[k]) {
        assert r'[k] in multiset([x] + s');
      }
      SortedCons(s[0], r', key);
    } else {
      SortedCons(x, s, key);
    }
  }

  lemma {:induction false} SortDescSorted(s: seq<Node>, key: Node -> int)
    ensures SortedDesc(SortDesc(s, key), key)
  {
    if s != [] {
      SortDescSorted(s[1..], key);
      InsertDescSorted(s[0], SortDesc(s[1..], key), key);
    }
  }

  /** Inserting x keeps the order among the elements of any one key: p selects
      elements of a single key. */
  lemma {:induction false} InsertDescStable(x: Node, s: seq<Node>, key: Node -> int, p: Node -> bool)
    requires forall a, b :: p(a) && p(b) ==> key(a) == key(b)
    ensures Filter(InsertDesc(x, s, key), p) == Filter([x] + s, p)
  {
    if s != [] && key(s[0]) > key(x) {
      var s' := s[1..];
      var r' := InsertDesc(x, s', key);
      assert InsertDesc(x, s, key) == [s[0]] + r';
      assert s == [s[0]] + s';
      InsertDescStable(x, s', key, p);
      FilterCons(s[0], r', p);
      FilterCons(x, s', p);
      FilterCons(x, s, p);
      FilterCons(s[0], s', p);
      assert !(p(s[0]) && p(x));
    }
  }

  lemma {:induction false} SortDescStable(s: seq<Node>, key: Node -> int, p: Node -> bool)
    requires forall a, b :: p(a) && p(b) ==> key(a) == key(b)
    ensures Filter(SortDesc(s, key), p) == Filter(s, p)
  {
    if s != [] {
      SortDescStable(s[1..], key, p);
      InsertDescStable(s[0], SortDesc(s[1..], key), key, p);
      FilterCons(s[0], SortDesc(s[1..], key), p);
      FilterCons(s[0], s[1..], p);
      assert s == [s[0]] + s[1..];
    }
  }

  /** The ranking lists every node of the graph once, by non-increasing degree,
      nodes of equal degree in graph node order. */
  lemma RankingSpec(nodes: seq<Node>, edges: seq<Edge>, d: int)
    ensures var r := Ranking(nodes, edges);
      multiset(r) == multiset(GraphNodes(nodes, edges)) && NoDup(r) &&
      SortedDesc(r, DegreeKey(edges)) &&
      Filter(r, KeyIs(DegreeKey(edges), d)) == Filter(GraphNodes(nodes, edges), KeyIs(DegreeKey(edges), d))
  {
    var r := Ranking(nodes, edges);
    SortDescPerm(GraphNodes(nodes, edges), DegreeKey(edges));
    SortDescSorted(GraphNodes(nodes, edges), DegreeKey(edges));
    SortDescStable(GraphNodes(nodes, edges), DegreeKey(edges), KeyIs(DegreeKey(edges), d));
    SortDescNoDup(GraphNodes(nodes, edges), DegreeKey(edges));
  }

  lemma {:induction false} InsertDescNoDup(x: Node, s: seq<Node>, key: Node -> int)
    requires NoDup(s) && x !in s
    ensures NoDup(InsertDesc(x, s, key))
  {
    if s == [] || key(s[0]) <= key(x) {
      NoDupConcat([x], s);
    } else {
      assert s == [s[0]] + s[1..];
      InsertDescNoDup(x, s[1..], key);
      InsertDescPerm(x, s[1..], key);
      assert s[0] !in multiset([x] + s[1..]);
      NoDupConcat([s[0]], InsertDesc(x, s[1..], key));
    }
  }

  lemma {:induction false} SortDescNoDup(s: seq<Node>, key: Node -> int)
    requires NoDup(s)
    ensures NoDup(SortDesc(s, key))
  {
    if s != [] {
      SortDescNoDup(s[1..], key);
      SortDescPerm(s[1..], key);
      assert s[0] !in multiset(s[1..]);
      InsertDescNoDup(s[0], SortDesc(s[1..], key), key);
    }
  }

  /** The first k of a sorted permutation of `all` are elements of `all`, and no
      element left out has a larger key than one taken. */
  lemma TakeSortedTop(ranked: seq<Node>, all: seq<Node>, key: Node -> int, k: nat)
    requires multiset(ranked) == multiset(all) && SortedDesc(ranked, key)
    ensures forall x :: x in Take(ranked, k) ==> x in all
    ensures forall x, y :: x in Take(ranked, k) && y in all && y !in Take(ranked, k) ==> key(y) <= key(x)
  {
    var r := Take(ranked, k);
    assert r == ranked[..|r|];
    forall x | x in r ensures x in all {
      assert x in multiset(ranked);
    }
    forall x, y | x in r && y in all && y !in r ensures key(y) <= key(x) {
      assert y in multiset(ranked);
      var i :| 0 <= i < |r| && r[i] == x;
      var j :| 0 <= j < |ranked| && ranked[j] == y;
      assert ranked[i] == x;
      assert j >= |r|;
    }
  }

  /** Without nodes, the fixed three names; otherwise at most five distinct graph
      nodes by non-increasing degree, none of the nodes left out of higher degree
      than one picked. */
  lemma KeyComponentsSpec(g: GraphData)
    ensures g.nodes == [] ==> KeyComponents(g) == DefaultComponents
    ensures g.nodes != [] ==> var r := KeyComponents(g); var all := GraphNodes(g.nodes, g.edges);
      |r| == Min(MaxPicks, |all|) && NoDup(r) && (forall x :: x in r ==> x in all) &&
      (forall i, j :: 0 <= i < j < |r| ==> Degree(g.edges, r[i]) >= Degree(g.edges, r[j])) &&
      (forall x, y :: x in r && y in all && y !in r ==> Degree(g.edges, y) <= Degree(g.edges, x))
  {
    if g.nodes != [] {
      var key := DegreeKey(g.edges);
      TopPicks(GraphNodes(g.nodes, g.edges), key, MaxPicks);
      assert forall x :: key(x) == Degree(g.edges, x);
    }
  }

  /** The first k of the sorted distinct elements of `all`: min(k, |all|) distinct
      elements of `all`, by non-increasing key, none of those left out with a
      larger key than one taken. */
  lemma TopPicks(all: seq<Node>, key: Node -> int, k: nat)
    requires NoDup(all)
    ensures var r := Take(SortDesc(all, key), k);
      |r| == Min(k, |all|) && NoDup(r) && (forall x :: x in r ==> x in all) &&
      SortedDesc(r, key) &&
      (forall x, y :: x in r && y in all && y !in r ==> key(y) <= key(x))
  {
    var ranked := SortDesc(all, key);
    SortDescPerm(all, key);
    SortDescSorted(all, key);
    SortDescNoDup(all, key);
    TakeSortedTop(ranked, all, key, k);
    var r := Take(ranked, k);
    assert r == ranked[..|r|];
    assert |ranked| == |multiset(ranked)| == |multiset(all)| == |all|;
  }

  // ---------------------------------------------------------------------------
  // extract_key_functions
  // ---------------------------------------------------------------------------

  /** The lower-cased name contains one of the function keywords; in particular a
      name that contains a keyword as written (all of them are lower case) is
      function-like. */
  predicate IsFunctionLike(n: Node): (r: bool)
    ensures (exists k | 0 <= k < |FunctionKeywords| :: Contains(n, FunctionKeywords[k])) ==> r
  {
    KeywordsMatchLowered(n);
    exists k | 0 <= k < |FunctionKeywords| :: Contains(LowerStr(n), FunctionKeywords[k])
  }

  lemma KeywordsMatchLowered(n: Node)
    ensures forall k | 0 <= k < |FunctionKeywords| ::
      Contains(n, FunctionKeywords[k]) ==> Contains(LowerStr(n), FunctionKeywords[k])
  {
    forall k | 0 <= k < |FunctionKeywords| && Contains(n, FunctionKeywords[k])
      ensures Contains(LowerStr(n), FunctionKeywords[k])
    {
      var kw := FunctionKeywords[k];
      assert forall i | 0 <= i < |kw| :: 'a' <= kw[i] <= 'z';
      ContainsLowered(n, kw);
    }
  }

  /** Never empty, and at most five names. */
  function KeyFunctions(g: GraphData): (r: seq<Node>)
    ensures 0 < |r| <= MaxPicks
  {
    var functions := Filter(g.nodes, IsFunctionLike);
    if functions != [] then Take(functions, MaxPicks)
    else if g.nodes != [] then Take(g.nodes, MaxPicks)
    else DefaultFunctions
  }

  /** At most five names: without nodes the fixed three; otherwise the function-like
      nodes, in node order, all of them when fewer than five are picked, exactly
      those of some prefix of the node list; failing any, the first five nodes. */
  lemma KeyFunctionsSpec(g: GraphData)
    ensures |KeyFunctions(g)| <= MaxPicks
    ensures g.nodes == [] ==> KeyFunctions(g) == DefaultFunctions
    ensures (exists n :: n in g.nodes && IsFunctionLike(n)) ==> var r := KeyFunctions(g);
      (forall x :: x in r ==> x in g.nodes && IsFunctionLike(x)) &&
      (forall a, b :: Before(r, a, b) ==> Before(g.nodes, a, b)) &&
      |r| == Min(MaxPicks, |Filter(g.nodes, IsFunctionLike)|) &&
      (|r| < MaxPicks ==> forall n :: n in g.nodes && IsFunctionLike(n) ==> n in r) &&
      (forall x, n :: x in r && n in g.nodes && IsFunctionLike(n) && n !in r ==> Before(g.nodes, x, n)) &&
      (exists j :: 0 <= j <= |g.nodes| && r == Filter(g.nodes[..j], IsFunctionLike))
    ensures g.nodes != [] && (forall n :: n in g.nodes ==> !IsFunctionLike(n)) ==>
      KeyFunctions(g) == Take(g.nodes, MaxPicks)
  {
    TakeFiltered(g.nodes, IsFunctionLike, MaxPicks);
  }

  /** The first k elements of s that satisfy p are elements of s that satisfy p, in
      their order in s; when fewer than k are taken, every such element is; every
      such element left out comes after every one taken; and the picks are exactly
      the elements satisfying p of some prefix of s, so with the count they are
      Python's [x for x in s if p(x)][:k] even when s repeats an element. */
  lemma TakeFiltered(s: seq<Node>, p: Node -> bool, k: nat)
    ensures var r := Take(Filter(s, p), k);
      (forall x :: x in r ==> x in s && p(x)) &&
      (forall a, b :: Before(r, a, b) ==> Before(s, a, b)) &&
      |r| == Min(k, |Filter(s, p)|) &&
      (|r| < k ==> forall n :: n in s && p(n) ==> n in r) &&
      (forall x, n :: x in r && n in s && p(n) && n !in r ==> Before(s, x, n)) &&
      (exists j :: 0 <= j <= |s| && r == Filter(s[..j], p))
    ensures (exists n :: n in s && p(n)) <==> Filter(s, p) != []
  {
    TakeFilterPrefix(s, p, k);
    var f := Filter(s, p);
    var r := Take(f, k);
    assert r == f[..|r|];
    forall a, b | Before(r, a, b) ensures Before(s, a, b) {
      var i, j :| 0 <= i < j < |r| && r[i] == a && r[j] == b;
      assert f[i] == a && f[j] == b;
      FilterBefore(s, p, a, b);
    }
    forall x, n | x in r && n in s && p(n) && n !in r ensures Before(s, x, n) {
      var i :| 0 <= i < |r| && r[i] == x;
      var j :| 0 <= j < |f| && f[j] == n;
      assert f[i] == x;
      FilterBefore(s, p, x, n);
    }
    assert f != [] ==> f[0] in s && p(f[0]);
  }

  // ---------------------------------------------------------------------------
  // process
  // ---------------------------------------------------------------------------

  /** process: the three summaries of one dependency graph. */
  method Process(g: GraphData, order: seq<Node>) returns (r: FlowResponse)
    ensures r.executionFlow == ExecutionFlow(g.nodes, order)
    ensures r.keyComponents == KeyComponents(g)
    ensures r.keyFunctions == KeyFunctions(g)
  {
    var flow := BuildExecutionFlow(g, order);
    r := FlowResponse(flow, KeyComponents(g), KeyFunctions(g));
  }
}
