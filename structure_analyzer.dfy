/** agents/structure_analyzer_agent.py: identifiers named after declaration
    keywords become entities; entities mentioned together in one chunk become
    dependency pairs; both are assembled into a directed graph. */
module StructureAnalyzer {
  import opened Seqs
  import opened Text
  import opened Graphs

  /** The keywords of the thirteen patterns \b<keyword>\s+(\w+), in pattern order. */
  const Keywords: seq<string> := ["class", "function", "def", "const", "let", "var",
    "interface", "type", "component", "API", "endpoint", "service", "module"]

  // ---------------------------------------------------------------------------
  // re.findall(r'\b<keyword>\s+(\w+)', chunk, re.IGNORECASE)
  // ---------------------------------------------------------------------------

  /** kw occurs at p, ignoring ASCII case. */
  predicate KeywordAt(s: string, p: nat, kw: string) {
    p + |kw| <= |s| && LowerStr(s[p..p + |kw|]) == LowerStr(kw)
  }

  /** \b in front of a keyword that starts with a word character: the start of
      the text, or a non-word character just before. */
  predicate BoundaryBefore(s: string, p: nat) {
    p == 0 || (p <= |s| && !IsWordChar(s[p - 1]))
  }

  /** The length of the run of separators (\s) starting at i. */
  function SpaceRun(s: string, i: nat): (n: nat)
    requires i <= |s|
    ensures i + n <= |s|
    ensures forall k :: i <= k < i + n ==> IsSpace(s[k])
    ensures i + n < |s| ==> !IsSpace(s[i + n])
    decreases |s| - i
  {
    if i < |s| && IsSpace(s[i]) then 1 + SpaceRun(s, i + 1) else 0
  }

  /** The length of the run of word characters (\w) starting at i. */
  function WordRun(s: string, i: nat): (n: nat)
    requires i <= |s|
    ensures i + n <= |s|
    ensures forall k :: i <= k < i + n ==> IsWordChar(s[k])
    ensures i + n < |s| ==> !IsWordChar(s[i + n])
    decreases |s| - i
  {
    if i < |s| && IsWordChar(s[i]) then 1 + WordRun(s, i + 1) else 0
  }

  /** The pattern \b<kw>\s+(\w+) matches at p, its group spanning s[q..e]: the
      keyword in any ASCII case at a word start, one or more separators, then a
      run of word characters that the next character does not extend. */
  predicate IsMatch(s: string, kw: string, p: nat, q: nat, e: nat) {
    p + |kw| < q < e <= |s| && BoundaryBefore(s, p) && KeywordAt(s, p, kw) &&
    (forall i :: p + |kw| <= i < q ==> IsSpace(s[i])) &&
    (forall i :: q <= i < e ==> IsWordChar(s[i])) &&
    (e == |s| || !IsWordChar(s[e]))
  }

  /** One attempt of the pattern at p: the captured identifier and the end of the
      match. Greedy \s+ and \w+ leave no choice, so there is at most one match. */
  function MatchAt(s: string, p: nat, kw: string): (r: Option<(string, nat)>)
    ensures r.Some? ==> p < r.value.1 <= |s|
  {
    if p < |s| && BoundaryBefore(s, p) && KeywordAt(s, p, kw) then
      var q := p + |kw|;
      var sp := SpaceRun(s, q);
      var w := WordRun(s, q + sp);
      if sp > 0 && w > 0 then Some((s[q + sp..q + sp + w], q + sp + w)) else None
    else None
  }

  /** Scanning from p: a match resumes the scan at its end, a failed attempt one
      character further, so matches never overlap. */
  function FindAllFrom(s: string, kw: string, p: nat): seq<string>
    decreases |s| - p
  {
    if p >= |s| then []
    else match MatchAt(s, p, kw)
      case Some((m, e)) => [m] + FindAllFrom(s, kw, e)
      case None => FindAllFrom(s, kw, p + 1)
  }

  /** re.findall: every reported identifier is made of word characters and is
      mentioned by the text. */
  function FindAll(s: string, kw: string): (r: seq<string>)
    ensures forall m :: m in r ==> IsIdentifier(m) && Mentions(s, m)
  {
    FindAllIdentifiers(s, kw);
    FindAllFrom(s, kw, 0)
  }

  lemma MatchAtSound(s: string, p: nat, kw: string)
    requires MatchAt(s, p, kw).Some?
    ensures var (m, e) := MatchAt(s, p, kw).value;
      exists q: nat :: IsMatch(s, kw, p, q, e) && m == s[q..e]
  {
    var q := p + |kw|;
    var sp := SpaceRun(s, q);
    assert IsMatch(s, kw, p, q + sp, q + sp + WordRun(s, q + sp));
  }

  /** Every match of the pattern at p is the one MatchAt reports. */
  lemma MatchAtComplete(s: string, p: nat, kw: string, q: nat, e: nat)
    requires IsMatch(s, kw, p, q, e)
    ensures MatchAt(s, p, kw) == Some((s[q..e], e))
  {
    var k := p + |kw|;
    var sp := SpaceRun(s, k);
    assert !IsSpace(s[q]);
    assert k + sp == q by {
      assert !(k + sp < q);
      assert !(k + sp > q);
    }
    var w := WordRun(s, q);
    assert q + w == e by {
      assert !(q + w < e);
      assert !(q + w > e);
    }
  }

  /** An identifier findall reports comes from a match of the pattern. */
  lemma {:induction false} FindAllFromSound(s: string, kw: string, p: nat, m: string)
    requires m in FindAllFrom(s, kw, p)
    ensures exists p': nat, q: nat, e: nat :: IsMatch(s, kw, p', q, e) && m == s[q..e]
    decreases |s| - p
  {
    if p < |s| {
      match MatchAt(s, p, kw)
      case Some((m', e)) =>
        if m == m' {
          MatchAtSound(s, p, kw);
        } else {
          FindAllFromSound(s, kw, e, m);
        }
      case None =>
        FindAllFromSound(s, kw, p + 1, m);
    }
  }

  // ---------------------------------------------------------------------------
  // extract_entities
  // ---------------------------------------------------------------------------

  /** findall for each keyword's pattern, on the chunk c. */
  function Finder(c: string): string -> seq<string> {
    kw => FindAll(c, kw)
  }

  /** The matches of the patterns for the keywords kws in one chunk, pattern by pattern. */
  function PatternMatches(c: string, kws: seq<string>): seq<string> {
    FlatMap(kws, Finder(c))
  }

  function ChunkMatches(c: string): seq<string> {
    PatternMatches(c, Keywords)
  }

  /** All matches, chunk by chunk, in the order the nested loops visit them. */
  function AllMatches(cs: seq<string>): seq<string> {
    FlatMap(cs, ChunkMatches)
  }

  /** The entity set, in the order its elements were first added. */
  function Entities(cs: seq<string>): seq<string> {
    Dedup(AllMatches(cs))
  }

  /** entities.update(matches), for an entity set that is already the set order of
      the identifiers in `seen`. */
  method Update(entities: seq<string>, matches: seq<string>, ghost seen: seq<string>) returns (r: seq<string>)
    requires entities == Dedup(seen)
    ensures r == Dedup(seen + matches)
  {
    r := entities;
    assert seen + matches[..0] == seen;
    for k := 0 to |matches|
      invariant r == Dedup(seen + matches[..k])
    {
      DedupStep(seen, matches, k);
      if matches[k] !in r {
        r := r + [matches[k]];
      }
    }
    assert matches[..|matches|] == matches;
  }

  /** extract_entities: every chunk, every pattern, every match into the set. */
  method ExtractEntities(chunks: seq<string>) returns (entities: seq<string>)
    ensures entities == Entities(chunks)
  {
    entities := [];
    for i := 0 to |chunks|
      invariant entities == Dedup(AllMatches(chunks[..i]))
    {
      var chunk := chunks[i];
      ghost var seen := AllMatches(chunks[..i]);
      assert seen + PatternMatches(chunk, Keywords[..0]) == seen;
      for j := 0 to |Keywords|
        invariant entities == Dedup(seen + PatternMatches(chunk, Keywords[..j]))
      {
        var matches := FindAll(chunk, Keywords[j]);
        entities := Update(entities, matches, seen + PatternMatches(chunk, Keywords[..j]));
        FlatMapStep(Keywords, Finder(chunk), j);
        ConcatAssoc(seen, PatternMatches(chunk, Keywords[..j]), matches);
      }
      assert Keywords[..|Keywords|] == Keywords;
      FlatMapStep(chunks, ChunkMatches, i);
    }
    assert chunks[..|chunks|] == chunks;
  }

  /** The entities are the union of the identifiers matched in each chunk by any
      of the patterns; no chunks give no entities. */
  lemma EntitiesUnion(cs: seq<string>, x: string)
    ensures x in Entities(cs) <==>
      exists k, j :: 0 <= k < |cs| && 0 <= j < |Keywords| && x in FindAll(cs[k], Keywords[j])
    ensures cs == [] ==> Entities(cs) == []
  {
    FlatMapMember(cs, ChunkMatches, x);
    forall k | 0 <= k < |cs|
      ensures x in ChunkMatches(cs[k]) <==> exists j :: 0 <= j < |Keywords| && x in FindAll(cs[k], Keywords[j])
    {
      FlatMapMember(Keywords, Finder(cs[k]), x);
    }
  }

  /** More chunks never remove an entity nor move one: the entities of a prefix
      of the chunks come first, in the same order. */
  lemma EntitiesGrow(cs: seq<string>, more: seq<string>)
    ensures |Entities(cs)| <= |Entities(cs + more)|
    ensures Entities(cs + more)[..|Entities(cs)|] == Entities(cs)
  {
    FlatMapConcat(cs, more, ChunkMatches);
    DedupPrefix(AllMatches(cs), AllMatches(more));
  }

  /** An identifier: one or more word characters. */
  predicate IsIdentifier(x: string) {
    x != [] && forall i :: 0 <= i < |x| ==> IsWordChar(x[i])
  }

  /** The chunk mentions x, as find_dependencies tests it: x.lower() in chunk.lower(). */
  predicate Mentions(chunk: string, x: string) {
    Contains(LowerStr(chunk), LowerStr(x))
  }

  /** A captured identifier is made of word characters and is mentioned by the
      text it was captured from. */
  lemma MatchedIdentifier(s: string, kw: string, p: nat, q: nat, e: nat)
    requires IsMatch(s, kw, p, q, e)
    ensures IsIdentifier(s[q..e]) && Mentions(s, s[q..e])
  {
    LowerContains(s, q, e);
  }

  lemma FindAllIdentifiers(s: string, kw: string)
    ensures forall m :: m in FindAllFrom(s, kw, 0) ==> IsIdentifier(m) && Mentions(s, m)
  {
    forall m | m in FindAllFrom(s, kw, 0) ensures IsIdentifier(m) && Mentions(s, m) {
      FindAllFromSound(s, kw, 0, m);
      var p: nat, q: nat, e: nat :| IsMatch(s, kw, p, q, e) && m == s[q..e];
      MatchedIdentifier(s, kw, p, q, e);
    }
  }

  /** Every entity is an identifier captured after a keyword in some chunk, and
      that chunk mentions it. */
  lemma EntitiesSound(cs: seq<string>, x: string)
    requires x in Entities(cs)
    ensures IsIdentifier(x)
    ensures exists k :: 0 <= k < |cs| && Mentions(cs[k], x)
    ensures exists k, j, p: nat, q: nat, e: nat ::
      (0 <= k < |cs| && 0 <= j < |Keywords| && IsMatch(cs[k], Keywords[j], p, q, e) && x == cs[k][q..e])
  {
    EntitiesUnion(cs, x);
    var k, j :| 0 <= k < |cs| && 0 <= j < |Keywords| && x in FindAll(cs[k], Keywords[j]);
    var c := cs[k];
    FindAllFromSound(c, Keywords[j], 0, x);
    var p: nat, q: nat, e: nat :| IsMatch(c, Keywords[j], p, q, e) && x == c[q..e];
    MatchedIdentifier(c, Keywords[j], p, q, e);
  }

  // ---------------------------------------------------------------------------
  // find_dependencies
  // ---------------------------------------------------------------------------

  /** found_entities: the entities the chunk mentions, in entity order. */
  function Found(es: seq<string>, chunk: string): seq<string> {
    Filter(es, x => Mentions(chunk, x))
  }

  /** The pairs (x, y) for each y of ys, in order, skipping y == x. */
  function PairsWith(x: string, ys: seq<string>): seq<Edge> {
    if ys == [] then []
    else PairsWith(x, ys[..|ys| - 1]) + (if x != ys[|ys| - 1] then [(x, ys[|ys| - 1])] else [])
  }

  /** The pairs the first i rounds of the enumerate loop emit over found list f. */
  function PairsUpTo(f: seq<string>, i: nat): seq<Edge>
    requires i <= |f|
  {
    if i == 0 then [] else PairsUpTo(f, i - 1) + PairsWith(f[i - 1], f[i..])
  }

  function PairsOf(f: seq<string>): seq<Edge> {
    PairsUpTo(f, |f|)
  }

  /** The pairs one chunk contributes. */
  function ChunkPairs(chunk: string, es: seq<string>): seq<Edge> {
    PairsOf(Found(es, chunk))
  }

  function PairsIn(es: seq<string>): string -> seq<Edge> {
    c => ChunkPairs(c, es)
  }

  /** The dependency list, chunk by chunk. */
  function Dependencies(cs: seq<string>, es: seq<string>): seq<Edge> {
    FlatMap(cs, PairsIn(es))
  }

  /** find_dependencies: for each chunk, each found entity paired with every
      later found entity that differs from it. */
  method FindDependencies(chunks: seq<string>, entities: seq<string>) returns (deps: seq<Edge>)
    ensures deps == Dependencies(chunks, entities)
  {
    deps := [];
    for c := 0 to |chunks|
      invariant deps == Dependencies(chunks[..c], entities)
    {
      var found := Found(entities, chunks[c]);
      deps := AppendPairs(deps, found);
      FlatMapStep(chunks, PairsIn(entities), c);
    }
    assert chunks[..|chunks|] == chunks;
  }

  /** The two inner loops of find_dependencies over one chunk's found list. */
  method AppendPairs(deps: seq<Edge>, found: seq<string>) returns (r: seq<Edge>)
    ensures r == deps + PairsOf(found)
  {
    r := deps;
    for i := 0 to |found|
      invariant r == deps + PairsUpTo(found, i)
    {
      r := AppendPairsWith(r, found, i);
      ConcatAssoc(deps, PairsUpTo(found, i), PairsWith(found[i], found[i + 1..]));
    }
  }

  /** The inner loop of find_dependencies: pair found[i] with every later entity
      it differs from, in order. */
  method AppendPairsWith(deps: seq<Edge>, found: seq<string>, i: nat) returns (r: seq<Edge>)
    requires i < |found|
    ensures r == deps + PairsWith(found[i], found[i + 1..])
  {
    r := deps;
    assert found[i + 1..i + 1] == [];
    for j := i + 1 to |found|
      invariant r == deps + PairsWith(found[i], found[i + 1..j])
    {
      PairsWithStep(found[i], found, i + 1, j);
      if found[i] != found[j] {
        r := r + [(found[i], found[j])];
      }
    }
    assert found[i + 1..|found|] == found[i + 1..];
  }

  lemma PairsWithStep(x: string, f: seq<string>, i: nat, j: nat)
    requires i <= j < |f|
    ensures PairsWith(x, f[i..j + 1]) == PairsWith(x, f[i..j]) + (if x != f[j] then [(x, f[j])] else [])
  {
    assert f[i..j + 1][..j - i] == f[i..j];
  }


  lemma {:induction false} PairsWithMember(x: string, ys: seq<string>, a: string, b: string)
    ensures (a, b) in PairsWith(x, ys) <==> a == x && b in ys && a != b
  {
    if ys != [] {
      var ys' := ys[..|ys| - 1];
      PairsWithMember(x, ys', a, b);
      assert ys == ys' + [ys[|ys| - 1]];
    }
  }

  lemma {:induction false} PairsUpToMember(f: seq<string>, i: nat, a: string, b: string)
    requires i <= |f|
    ensures (a, b) in PairsUpTo(f, i) <==>
      a != b && exists k, l :: 0 <= k < i && k < l < |f| && f[k] == a && f[l] == b
  {
    if i > 0 {
      PairsUpToMember(f, i - 1, a, b);
      PairsWithMember(f[i - 1], f[i..], a, b);
      if b in f[i..] {
        var l :| 0 <= l < |f[i..]| && f[i..][l] == b;
        assert f[i + l] == b;
      }
      forall l | i - 1 < l < |f| && f[l] == b ensures b in f[i..] {
        assert f[i..][l - i] == b;
      }
    }
  }

  /** A found list contributes exactly the pairs of distinct entities in which the
      first comes earlier in the list. */
  lemma PairsOfMember(f: seq<string>, a: string, b: string)
    ensures (a, b) in PairsOf(f) <==> a != b && Before(f, a, b)
  {
    PairsUpToMember(f, |f|, a, b);
  }

  lemma {:induction false} PairsWithCount(x: string, ys: seq<string>)
    requires x !in ys
    ensures |PairsWith(x, ys)| == |ys|
  {
    if ys != [] {
      PairsWithCount(x, ys[..|ys| - 1]);
    }
  }

  lemma {:induction false} PairsUpToCount(f: seq<string>, i: nat)
    requires NoDup(f) && i <= |f|
    ensures 2 * |PairsUpTo(f, i)| == i * (2 * |f| - i - 1)
  {
    if i > 0 {
      PairsUpToCount(f, i - 1);
      assert f[i - 1] !in f[i..];
      PairsWithCount(f[i - 1], f[i..]);
      assert |PairsUpTo(f, i)| == |PairsUpTo(f, i - 1)| + (|f| - i);
      CountStep(i, |f|);
    }
  }

  lemma CountStep(i: int, n: int)
    ensures (i - 1) * (2 * n - i) + 2 * (n - i) == i * (2 * n - i - 1)
  {
    assert (i - 1) * (2 * n - i) == i * (2 * n - i) - (2 * n - i);
    assert i * (2 * n - i) - i == i * (2 * n - i - 1);
  }

  /** k distinct entities in one chunk give exactly k * (k - 1) / 2 pairs. */
  lemma PairsOfCount(f: seq<string>)
    requires NoDup(f)
    ensures 2 * |PairsOf(f)| == |f| * (|f| - 1)
  {
    PairsUpToCount(f, |f|);
  }

  lemma {:induction false} PairsWithNoDup(x: string, ys: seq<string>)
    requires NoDup(ys)
    ensures NoDup(PairsWith(x, ys))
  {
    if ys != [] {
      var ys' := ys[..|ys| - 1];
      PairsWithNoDup(x, ys');
      assert ys[|ys| - 1] !in ys';
      forall a, b | (a, b) in PairsWith(x, ys') ensures b in ys' {
        PairsWithMember(x, ys', a, b);
      }
      NoDupConcat(PairsWith(x, ys'), if x != ys[|ys| - 1] then [(x, ys[|ys| - 1])] else []);
    }
  }

  /** No pair is emitted twice for one chunk. */
  lemma {:induction false} PairsUpToNoDup(f: seq<string>, i: nat)
    requires NoDup(f) && i <= |f|
    ensures NoDup(PairsUpTo(f, i))
  {
    if i > 0 {
      PairsUpToNoDup(f, i - 1);
      PairsWithNoDup(f[i - 1], f[i..]);
      var earlier, later := PairsUpTo(f, i - 1), PairsWith(f[i - 1], f[i..]);
      forall x | x in earlier ensures x !in later {
        var (a, b) := x;
        PairsUpToMember(f, i - 1, a, b);
        PairsWithMember(f[i - 1], f[i..], a, b);
      }
      NoDupConcat(earlier, later);
    }
  }

  /** A chunk that mentions k distinct entities contributes k * (k - 1) / 2 pairs,
      each one once, and none at all when k < 2. */
  lemma ChunkPairsCount(chunk: string, es: seq<string>)
    requires NoDup(es)
    ensures var k := |Found(es, chunk)|;
      2 * |ChunkPairs(chunk, es)| == k * (k - 1) && (k < 2 ==> ChunkPairs(chunk, es) == [])
    ensures NoDup(ChunkPairs(chunk, es))
  {
    var f := Found(es, chunk);
    FilterNoDup(es, x => Mentions(chunk, x));
    PairsOfCount(f);
    PairsUpToNoDup(f, |f|);
  }

  /** The pairs of one chunk: distinct entities, both mentioned by the chunk, the
      first earlier in entity order. */
  lemma ChunkPairsMember(chunk: string, es: seq<string>, a: string, b: string)
    ensures (a, b) in ChunkPairs(chunk, es) <==> a != b && Before(es, a, b) && Mentions(chunk, a) && Mentions(chunk, b)
  {
    PairsOfMember(Found(es, chunk), a, b);
    FilterBefore(es, x => Mentions(chunk, x), a, b);
  }

  /** Some one chunk mentions both a and b. */
  predicate CoMentioned(cs: seq<string>, a: string, b: string) {
    exists k :: 0 <= k < |cs| && Mentions(cs[k], a) && Mentions(cs[k], b)
  }

  /** Every dependency pair is two different entities, the first earlier in entity
      order, that one chunk mentions together; and every such pair is emitted. */
  lemma DependenciesMember(cs: seq<string>, es: seq<string>, a: string, b: string)
    ensures (a, b) in Dependencies(cs, es) <==> a != b && Before(es, a, b) && CoMentioned(cs, a, b)
  {
    FlatMapMember(cs, PairsIn(es), (a, b));
    forall k | 0 <= k < |cs| ensures (a, b) in ChunkPairs(cs[k], es) <==>
      a != b && Before(es, a, b) && Mentions(cs[k], a) && Mentions(cs[k], b)
    {
      ChunkPairsMember(cs[k], es, a, b);
    }
  }

  /** Pairs come grouped by chunk, in chunk order. */
  lemma DependenciesConcat(a: seq<string>, b: seq<string>, es: seq<string>)
    ensures Dependencies(a + b, es) == Dependencies(a, es) + Dependencies(b, es)
    ensures Dependencies([], es) == [] && forall c :: Dependencies([c], es) == ChunkPairs(c, es)
  {
    FlatMapConcat(a, b, PairsIn(es));
    forall c ensures Dependencies([c], es) == ChunkPairs(c, es) {
      FlatMapStep([c], PairsIn(es), 0);
      assert [c][..1] == [c];
    }
  }

  /** No chunks, or no entities, give no pairs. */
  lemma {:induction false} NoDependencies(cs: seq<string>, es: seq<string>)
    requires cs == [] || es == []
    ensures Dependencies(cs, es) == []
  {
    if cs != [] {
      NoDependencies(cs[..|cs| - 1], es);
      assert Found(es, cs[|cs| - 1]) == [];
    }
  }

  // ---------------------------------------------------------------------------
  // process
  // ---------------------------------------------------------------------------

  /** process: the entities become the nodes, the pairs the edges, and the weakly
      connected components (a networkx routine, passed in as wcc) are computed
      only for a graph with nodes. */
  method Process(chunks: seq<string>, wcc: (seq<Node>, seq<Edge>) -> seq<set<Node>>) returns (r: GraphData)
    ensures r.nodes == Entities(chunks)
    ensures r.edges == EdgeOrder(r.nodes, Dependencies(chunks, r.nodes))
    ensures r.components == if r.nodes == [] then [] else wcc(r.nodes, r.edges)
  {
    var entities := ExtractEntities(chunks);
    var deps := FindDependencies(chunks, entities);
    var g := Build(entities, deps);
    NodesAreEntities(chunks);
    var edges := g.Edges();
    r := GraphData(g.nodes, edges, if g.nodes != [] then wcc(g.nodes, edges) else []);
  }

  /** The graph's nodes are exactly the entities: every pair's endpoints are
      entities already, so adding the edges adds no node. */
  lemma NodesAreEntities(cs: seq<string>)
    ensures GraphNodes(Entities(cs), Dependencies(cs, Entities(cs))) == Entities(cs)
  {
    var es := Entities(cs);
    forall e | e in Dependencies(cs, es) ensures e.0 in es && e.1 in es {
      DependenciesMember(cs, es, e.0, e.1);
    }
    GraphNodesClosed(es, Dependencies(cs, es));
  }

  /** The edge list holds each dependency pair once, and nothing else. */
  lemma EdgesAreDependencies(cs: seq<string>, a: string, b: string)
    ensures var es := Entities(cs);
      ((a, b) in EdgeOrder(es, Dependencies(cs, es)) <==> (a, b) in Dependencies(cs, es)) &&
      NoDup(EdgeOrder(es, Dependencies(cs, es)))
  {
    var es := Entities(cs);
    EdgeOrderContents(es, Dependencies(cs, es), a, b);
    DependenciesMember(cs, es, a, b);
    EdgeOrderNoDup(es, Dependencies(cs, es));
  }
}
