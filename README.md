# Code-analysis agents, modelled in Dafny

This project models the three analysis agents of the repository:

- **Repo fetcher** (`agents/repo_fetcher_agent.py`). It splits a text into whitespace-separated words. It packs the words greedily into chunks: a chunk closes at the first word that brings its running size (`len(word) + 1` per word) to the chunk size, 1000 by default. It then attaches one embedding per chunk.
- **Structure analyzer** (`agents/structure_analyzer_agent.py`).
  - It finds entities: identifiers written after one of thirteen declaration keywords, using `re.findall(r'\b<kw>\s+(\w+)', chunk, re.IGNORECASE)`.
  - It pairs up the entities that one chunk mentions together.
  - It loads both into a networkx `DiGraph` and reports its nodes, edges and weakly connected components.
- **Flow reasoner** (`agents/flow_reasoning_agent.py`). From such a graph it derives three things:
  - an execution flow over a node ordering (at most eight steps);
  - the five nodes of highest degree;
  - up to five "function-like" node names.

## Modules

| Module | File | What it covers |
|---|---|---|
| `Seqs` | `seqs.dfy` | Shared vocabulary. A Python set is a duplicate-free sequence in first-insertion order (`Dedup`). Also `Filter` (list comprehensions with a condition), `FlatMap` (nested `for` loops that extend one list) and `Before` (relative order). |
| `Text` | `text.dfy` | Python string built-ins: `str.split()`, `" ".join`, ASCII `str.lower`, substring `in`, and the `\s`/`\w` classes. |
| `Graphs` | `graphs.dfy` | The subset of networkx `DiGraph` in use. It is a class with a node list and successor lists that `AddNode`/`AddEdge` update in place, plus pure descriptions of its node order, edge order and degree. |
| `RepoFetcher` | `repo_fetcher.dfy` | `chunk_text` as a method with a loop, proved against a declarative grouping (`Groups`), and `process`. |
| `StructureAnalyzer` | `structure_analyzer.dfy` | A concrete scanner for the thirteen patterns. `extract_entities` and `find_dependencies` are methods with nested loops. `process` builds the graph. |
| `FlowReasoning` | `flow_reasoning.dfy` | `build_execution_flow` as a loop. Key components are a stable descending sort by degree, cut to five. Key functions are a keyword filter with fallbacks. `process` combines the three. |

Inputs the agents take from libraries the model does not include are parameters:

- the embedding function (MD5-based in the source);
- the node ordering (the result of `nx.topological_sort`; the model does not decide when the `nodes[:10]` fallback applies);
- the weakly-connected-components routine.

## Model

| member | source | states |
|---|---|---|
| Text.Words | agents/repo_fetcher_agent.py:19 | `str.split()` yields only non-empty words without separators |
| Text.WordsEmptyIffBlank | agents/repo_fetcher_agent.py:19 | a text splits into no words exactly when every character is whitespace |
| Text.WordsOfJoin | agents/repo_fetcher_agent.py:28 | splitting a single-space join of words gives the same words back |
| Text.LowerContains | agents/structure_analyzer_agent.py:46-47 | a substring's lower-cased form occurs in the lower-cased text |
| RepoFetcher.ChunkEndIsFirstReach | agents/repo_fetcher_agent.py:24-30 | a chunk ends at the first word whose running size reaches the chunk size; every earlier prefix stays below it |
| RepoFetcher.GroupsShape | agents/repo_fetcher_agent.py:19-33 | the chunks' words, concatenated, are exactly the words of the text; there are between 1 and #words chunks when there is a word; no chunk is empty; every chunk but the last reaches the size; no proper prefix of a chunk does |
| RepoFetcher.GroupsUnique | agents/repo_fetcher_agent.py:24-33 | any split of the words with that shape is the grouping chunk_text produces, so the shape determines the output |
| RepoFetcher.AppendWord | agents/repo_fetcher_agent.py:25-30 | appending a word adds len(word)+1 to the size; once the size reaches the threshold, the open chunk is the next group |
| RepoFetcher.LastChunk | agents/repo_fetcher_agent.py:32-33 | words left open below the threshold at the end form exactly one final chunk; none are left when the chunk is empty |
| RepoFetcher.ChunkText | agents/repo_fetcher_agent.py:18-35 | the loop returns the word groups, each joined with single spaces |
| RepoFetcher.ChunkWords | agents/repo_fetcher_agent.py:24-33 | splitting chunk i again gives back exactly word group i |
| RepoFetcher.ResplitChunks | agents/repo_fetcher_agent.py:18-35 | re-splitting every chunk and concatenating the results gives `text.split()`: no word is lost, duplicated or reordered |
| RepoFetcher.ChunkShape | agents/repo_fetcher_agent.py:18-35 | stated on the chunk strings: each is a join of ≥1 words; #chunks ≤ #words, and ≥1 when there is a word; every chunk but the last reaches the size; no proper word-prefix of a chunk does |
| RepoFetcher.BlankTextNoChunks | agents/repo_fetcher_agent.py:19-35 | no chunks exactly when the text is empty or whitespace only |
| RepoFetcher.Process | agents/repo_fetcher_agent.py:43-50 | the chunks use size 1000; there is one embedding per chunk, and embedding i is the embedding of chunk i |
| Graphs.DiGraph.constructor | agents/structure_analyzer_agent.py:60 | a new graph has no nodes and no successors |
| Graphs.DiGraph.AddNode | agents/structure_analyzer_agent.py:62 | a new node goes last with no successors; a present node changes nothing; the graph stays well formed |
| Graphs.DiGraph.AddEdge | agents/structure_analyzer_agent.py:64 | adds u, then v, when new; appends v to u's successors unless already there; no other successor list changes |
| Graphs.DiGraph.AddNodesFrom | agents/structure_analyzer_agent.py:61-62 | the node order becomes the set order of the old nodes followed by the added ones |
| Graphs.DiGraph.AddEdgesFrom | agents/structure_analyzer_agent.py:63-64 | nodes gain the endpoints in edge order; each node's successors become the set order of its old successors followed by its new targets |
| Graphs.Build | agents/structure_analyzer_agent.py:60-68 | the graph's nodes are GraphNodes(nodes, edges); `G.edges()` lists edges source node by source node, each successor in first-added order |
| Graphs.EndpointsMember | agents/flow_reasoning_agent.py:25-27 | both ends of every edge, and every given node, are nodes of the graph |
| Graphs.EdgeOrderContents | agents/structure_analyzer_agent.py:68 | an edge is reported exactly when it was added and its source is a node |
| Graphs.EdgeOrderNoDup | agents/structure_analyzer_agent.py:68 | the reported edge list has no duplicates, even when an edge was added twice |
| Graphs.GraphNodesClosed | agents/structure_analyzer_agent.py:60-67 | when all endpoints are already distinct nodes, adding the edges leaves the node list unchanged |
| StructureAnalyzer.SpaceRun | agents/structure_analyzer_agent.py:20-32 | `\s+` is greedy: the run holds only separators and stops at a non-separator or at the end |
| StructureAnalyzer.WordRun | agents/structure_analyzer_agent.py:20-32 | `\w+` is greedy: the run holds only word characters and stops at a non-word character or at the end |
| StructureAnalyzer.MatchAtSound | agents/structure_analyzer_agent.py:20-37 | an attempt that succeeds at p is a match of `\b<kw>\s+(\w+)`, and it captures the group |
| StructureAnalyzer.MatchAtComplete | agents/structure_analyzer_agent.py:20-37 | any match of the pattern at p is the one the attempt reports, so there is at most one match per position |
| StructureAnalyzer.MatchAt | agents/structure_analyzer_agent.py:20-37 | one attempt of `\b<kw>\s+(\w+)` at position p; a success ends after p and within the text (what it matches is stated by MatchAtSound and MatchAtComplete) |
| StructureAnalyzer.FindAll | agents/structure_analyzer_agent.py:37 | `re.findall` reports only identifiers (non-empty, word characters) that the chunk mentions; FindAllFromSound ties each to a match |
| StructureAnalyzer.FindAllFromSound | agents/structure_analyzer_agent.py:37 | every identifier findall returns is the group of some match of the pattern |
| StructureAnalyzer.Update | agents/structure_analyzer_agent.py:38 | `entities.update(matches)` adds the new matches in order, each once |
| StructureAnalyzer.ExtractEntities | agents/structure_analyzer_agent.py:17-40 | the nested loops give the set of all matches, chunk by chunk and pattern by pattern |
| StructureAnalyzer.EntitiesUnion | agents/structure_analyzer_agent.py:35-40 | x is an entity exactly when some pattern finds x in some chunk; no chunks give no entities |
| StructureAnalyzer.EntitiesGrow | agents/structure_analyzer_agent.py:35-38 | adding chunks never removes or reorders an entity |
| StructureAnalyzer.MatchedIdentifier | agents/structure_analyzer_agent.py:20-32 | a captured group is a non-empty run of word characters, and its text mentions it |
| StructureAnalyzer.EntitiesSound | agents/structure_analyzer_agent.py:17-40 | every entity is an identifier, captured after a keyword in some chunk, and that chunk mentions it (case-insensitively) |
| StructureAnalyzer.FindDependencies | agents/structure_analyzer_agent.py:42-54 | the loop returns the pairs of each chunk's found entities, chunk by chunk |
| StructureAnalyzer.AppendPairs | agents/structure_analyzer_agent.py:49-52 | the enumerate loop appends exactly the pairs of the found list |
| StructureAnalyzer.AppendPairsWith | agents/structure_analyzer_agent.py:50-52 | the inner loop appends (found[i], y) for each later y ≠ found[i], in order |
| StructureAnalyzer.PairsWithMember | agents/structure_analyzer_agent.py:50-52 | (a, b) comes from pairing x with ys exactly when a = x, b is in ys and a ≠ b |
| StructureAnalyzer.PairsUpToMember | agents/structure_analyzer_agent.py:49-52 | after i rounds, (a, b) has been emitted exactly when a ≠ b, a sits at some k < i and b at some later index |
| StructureAnalyzer.PairsOfMember | agents/structure_analyzer_agent.py:49-52 | a found list yields (a, b) exactly when a ≠ b and a comes before b in it |
| StructureAnalyzer.PairsOfCount | agents/structure_analyzer_agent.py:49-52 | k distinct found entities yield exactly k(k−1)/2 pairs |
| StructureAnalyzer.PairsUpToNoDup | agents/structure_analyzer_agent.py:49-52 | no pair is emitted twice for one duplicate-free found list |
| StructureAnalyzer.ChunkPairsCount | agents/structure_analyzer_agent.py:45-52 | a chunk that mentions k distinct entities contributes k(k−1)/2 pairs, each once, and none when k < 2 |
| StructureAnalyzer.ChunkPairsMember | agents/structure_analyzer_agent.py:45-52 | a chunk contributes (a, b) exactly when a ≠ b, the chunk mentions both, and a precedes b in entity order |
| StructureAnalyzer.DependenciesMember | agents/structure_analyzer_agent.py:42-54 | (a, b) is a dependency exactly when a ≠ b, a precedes b in entity order, and one chunk mentions both |
| StructureAnalyzer.DependenciesConcat | agents/structure_analyzer_agent.py:45-52 | pairs come grouped by chunk, in chunk order; one chunk contributes exactly its own pairs |
| StructureAnalyzer.NoDependencies | agents/structure_analyzer_agent.py:42-54 | no chunks, or no entities, give no pairs |
| StructureAnalyzer.Process | agents/structure_analyzer_agent.py:56-74 | nodes are the entities; edges are the dependency pairs in networkx edge order; components come from the graph only when there are nodes, and are empty otherwise |
| StructureAnalyzer.NodesAreEntities | agents/structure_analyzer_agent.py:60-67 | adding the dependency edges adds no node: the node list is exactly the entity list |
| StructureAnalyzer.EdgesAreDependencies | agents/structure_analyzer_agent.py:63-68 | the edge list holds each dependency pair exactly once and nothing else |
| FlowReasoning.BuildExecutionFlow | agents/flow_reasoning_agent.py:18-43 | the loop returns the fixed three steps for a graph with no nodes; otherwise it returns the labelled steps over the first eight nodes of the ordering |
| FlowReasoning.FlowStepsIndex | agents/flow_reasoning_agent.py:34-41 | after k rounds there are k steps, and step i is labelled by its position |
| FlowReasoning.FlowShape | agents/flow_reasoning_agent.py:18-43 | no nodes give the default list; otherwise there are min(8, \|order\|) steps; step 0 initializes order[0]; step i > 0 is "Return result from " + order[i] at the ordering's last position and "Process " + order[i] elsewhere |
| FlowReasoning.FlowReturn | agents/flow_reasoning_agent.py:35-41 | a returning step occurs only at position \|order\|−1, so it appears exactly when the ordering has 2 to 8 nodes |
| FlowReasoning.FlowEnds | agents/flow_reasoning_agent.py:29-41 | over a topological order, the initialized node has no incoming edge and the returning node has no outgoing edge |
| Graphs.Degree | agents/flow_reasoning_agent.py:52-56 | a node's degree (the numerator of `degree_centrality`) is 0 exactly when no edge starts or ends at it |
| FlowReasoning.SortDesc | agents/flow_reasoning_agent.py:57 | the sort keeps the length; SortDescPerm, SortDescSorted and SortDescStable state that it is a stable descending sort |
| FlowReasoning.InsertDescPerm | agents/flow_reasoning_agent.py:57 | inserting into the sorted list loses and adds nothing |
| FlowReasoning.SortDescPerm | agents/flow_reasoning_agent.py:57 | the sort is a permutation |
| FlowReasoning.InsertDescSorted | agents/flow_reasoning_agent.py:57 | insertion keeps the list in non-increasing key order |
| FlowReasoning.SortDescSorted | agents/flow_reasoning_agent.py:57 | the result is in non-increasing key order |
| FlowReasoning.InsertDescStable | agents/flow_reasoning_agent.py:57 | insertion keeps the relative order of elements with equal keys |
| FlowReasoning.SortDescStable | agents/flow_reasoning_agent.py:57 | the sort is stable: among elements of one key, the order is unchanged |
| FlowReasoning.SortDescNoDup | agents/flow_reasoning_agent.py:57 | sorting distinct nodes gives distinct nodes |
| FlowReasoning.RankingSpec | agents/flow_reasoning_agent.py:52-57 | the ranking lists each graph node once, by non-increasing degree; nodes of equal degree stay in graph node order |
| FlowReasoning.TakeSortedTop | agents/flow_reasoning_agent.py:57-59 | the first k of a sorted permutation come from the input, and no node left out has a higher key than one taken |
| FlowReasoning.TopPicks | agents/flow_reasoning_agent.py:57-59 | the first k of the sort are min(k, n) distinct input nodes, sorted, and none left out outranks one taken |
| FlowReasoning.KeyComponents | agents/flow_reasoning_agent.py:45-59 | the result is never empty and holds at most five names; KeyComponentsSpec states which |
| FlowReasoning.KeyComponentsSpec | agents/flow_reasoning_agent.py:45-59 | no nodes give the fixed three names; otherwise there are min(5, #nodes) distinct graph nodes, by non-increasing degree, and no node left out has a higher degree than one picked |
| FlowReasoning.TakeFiltered | agents/flow_reasoning_agent.py:65-67 | `filtered[:k]` holds min(k, #qualifying) elements, all qualifying, in their order in the input, and they are exactly the qualifying elements of some prefix of the input, so these are the first k even when the input repeats an element; every qualifying element left out comes after every one taken; when fewer than k are taken, all are |
| FlowReasoning.IsFunctionLike | agents/flow_reasoning_agent.py:64-65 | the keyword test on the lower-cased name; a name containing a keyword as written is function-like |
| FlowReasoning.KeyFunctions | agents/flow_reasoning_agent.py:61-67 | the result is never empty and holds at most five names; KeyFunctionsSpec states which |
| FlowReasoning.KeyFunctionsSpec | agents/flow_reasoning_agent.py:61-67 | at most five names; no nodes give ["main","init","run"]; otherwise, when some node is function-like, exactly the first min(5, #function-like) function-like nodes: the function-like nodes of some prefix of the node list, in node order, repeated names included (every function-like node left out comes after every one picked); when none is, the first five nodes |
| FlowReasoning.Process | agents/flow_reasoning_agent.py:69-78 | the response holds the flow, the key components and the key functions of the same graph |

## Left out

- The embedding (`simple_embedding`, MD5 and float division): `RepoFetcher.Process` takes the embedding function as a parameter.
- `nx.topological_sort` and its `except nx.NetworkXError` fallback (agents/flow_reasoning_agent.py:29-32): the source uses `nodes[:10]` only when `topological_sort` raises `NetworkXError`, and which inputs make it raise lies inside networkx, outside the modelled code. The ordering is therefore a parameter of `FlowReasoning.BuildExecutionFlow`, any ordering is accepted, and the raise is not modelled. `FlowReasoning.FlowEnds` states what holds when the ordering is topological.
- `nx.weakly_connected_components`: it is a parameter of `StructureAnalyzer.Process`. The model states only that it is consulted exactly when the graph has nodes.
- FlowReasoning.KeyComponentsSpec: ranks by integer degree, not by the float `degree_centrality`. For two or more nodes, centrality is degree divided by the same positive n−1, so the order is the same; a single node is trivially first; floating-point rounding is not modelled.
- Python set iteration order: the entity set is a duplicate-free sequence in first-insertion order. CPython iterates a set of strings in hash order, which varies between runs. Every dependency and edge property is therefore stated relative to the order of the entity list it is given (`Before(es, a, b)`), and holds for any order.
- Regular expressions: `\w`, `\s` and `re.IGNORECASE` are taken as ASCII (plus the Unicode whitespace that `str.isspace` accepts for `\s`). Unicode letters, digits and case folding beyond ASCII are not modelled. The same holds for `str.lower` in `find_dependencies` and `extract_key_functions`.
- StructureAnalyzer.FindAllFromSound: only soundness of `re.findall` is proved (every returned identifier comes from a match). The converse, that every non-overlapping leftmost match is returned, is stated only per position (`StructureAnalyzer.MatchAtComplete`).
- `graph_data.get("nodes", [])` and `.get("edges", [])`: `GraphData` always carries both lists, so the missing-key default is not modelled.
- The `uagents` Agent/Model wrappers, `async` scheduling and `agents/agent_graph.py`: these hold no logic of the modelled functions.
