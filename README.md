# FlatSSU path engine — a Dafny model

FlatSSU routes walkers across a university campus. Campus points (building
entrances and the like) are nodes, and walkable connections are undirected
edges with an integer distance and a convenience score in 0..600. The engine
answers two queries: the shortest route, and the most convenient one, which
adds a penalty of `(600 - convenience) * 5` per edge.

This project models the engine's routing core in `path_engine.cpp`:

- **Cost model** (`cost_model.dfy`, module `CostModel`): edges, the two
  modes, `MAX_CONV` and `BETA`, and `edgeCost`.
- **Graphs and walks** (`graphs.dfy`, module `Graphs`): adjacency lists, walks
  and paths as node sequences, and what a walk costs. One hop costs as much as
  its cheapest parallel edge. The module also defines path reversal and the
  symmetric shape that the loader builds.
- **Frontier** (`frontier.dfy`, module `Frontier`): the `priority_queue` of
  `(cost, node)` pairs, popped in lexicographic order.
- **Solver** (`dijkstra.dfy`, module `PathEngine`): `dijkstra`. It is split
  into its search loop (`Search`), the relaxation of one node's edges
  (`RelaxNeighbours`), and path reconstruction (`Reconstruct`,
  `ReverseInPlace`). `Dijkstra` composes them. The INT_MAX sentinel is the
  datatype value `Dist.Inf`. Ghost invariants carry the proof:
  - the settled set is relaxed;
  - every reached, unsettled node waits in the frontier;
  - the frontier never undercuts a settled cost;
  - the predecessor links form a tree, ordered by when each node was settled.
- **Text fields** (`text_fields.dfy`, module `TextFields`): `trim`,
  `isNumber`, the value `stoi` gives for a digit string, and the clamp to
  0..600.
- **Edge loading** (`edge_loader.dfy`, module `EdgeLoader`): the
  `GraphStore` class holds the engine's global `nodes`, `name2id` and `graph`.
  Its methods cover:
  - node loading;
  - the per-row body of the edge loop: split, trim, check, resolve names with
    `operator[]`, read the numbers, clamp, and insert into both lists;
  - the whole row loop with its `bad` counter;
  - the two query wrappers.

Two behaviours of the loader are easy to expect otherwise, and the model
follows the code in both:

- **Unknown node names are not rejected.** A reader might expect a row that
  names a node missing from the node file to be skipped and counted as bad.
  It is not: `name2id[a]` inserts the missing name with index 0, so the row
  adds an edge at node 0. See `Resolve`, `GraphStore.Id` and
  `GraphStore.AcceptRow`.
- **A negative convenience score rejects the row.** A reader might expect the
  clamp of line 142 to raise `-10` to 0. It never sees it: `isNumber` admits
  digits only, so the row fails the check and is counted as bad. See
  `ParseNegativeScore` and `OnlyUpperClampApplies`: only the upper clamp can
  take effect.

The solver requires what its callers must ensure:

- `S` and `T` are node indices.
- Every edge leads to a node of the graph.
- Every edge carries the weights the loader produces: distance ≥ 0 and
  convenience in 0..600. This is `Graphs.WellFormed`.

`GraphStore.Valid` implies the last two. The first is a precondition of
`GraphStore.FindShortest` and `GraphStore.FindConvenient` themselves, as it
is of the C++ functions, which index `dist[S]` and `dist[T]` unchecked.
`GraphStore.InitGraph` establishes `Valid`, and `GraphStore.AddEdge` keeps it.

## Model

| member | source | states |
|---|---|---|
| `CostModel.EdgeCost` | FlatSSUWeb/FlatSSUWeb/cpp/path_engine.cpp:54-64 | over an edge with distance ≥ 0 and convenience in 0..600, the cost in either mode is at least the distance, so it is never negative |
| `CostModel.ModeCosts` | FlatSSUWeb/FlatSSUWeb/cpp/path_engine.cpp:54-64 | Shortest charges exactly the distance; Convenient charges (MAX_CONV − conv)·BETA more; a fully convenient edge costs the same in both modes |
| `CostModel.MoreConvenientIsCheaper` | FlatSSUWeb/FlatSSUWeb/cpp/path_engine.cpp:59-63 | of two edges of equal distance, the more convenient one is never dearer in Convenient mode, and each unit of convenience saves BETA |
| `Frontier.PopMin` | FlatSSUWeb/FlatSSUWeb/cpp/path_engine.cpp:73-77 | the popped pair is in the queue and lexicographically no larger than any entry; the remaining queue is the old one minus exactly that pair (as multisets) |
| `Graphs.MinCost` | FlatSSUWeb/FlatSSUWeb/cpp/path_engine.cpp:80-82 | the cheapest edge to v in a list: finite exactly when some edge leads to v, no dearer than any such edge, and equal to one of them |
| `Graphs.HopCostIsCheapestEdge` | FlatSSUWeb/FlatSSUWeb/cpp/path_engine.cpp:80-82 | the cost of a hop u→v is the cost of one of its parallel edges and no more than that of any of them |
| `Graphs.PathCost` | FlatSSUWeb/FlatSSUWeb/cpp/path_engine.cpp:81 | over edges with the loader's weights, every walk costs at least 0 |
| `Graphs.HopCostBounds` | FlatSSUWeb/FlatSSUWeb/cpp/path_engine.cpp:80-82 | a hop over accepted edges costs at least 0 and no more than any of its parallel edges |
| `Graphs.PathCostCons` | FlatSSUWeb/FlatSSUWeb/cpp/path_engine.cpp:81 | putting a hop in front of a walk gives a walk whose cost is the hop's cost plus the walk's |
| `Graphs.PrefixIsWalk` | FlatSSUWeb/FlatSSUWeb/cpp/path_engine.cpp:80-81 | a prefix of a walk is a walk |
| `Graphs.SuffixIsWalk` | FlatSSUWeb/FlatSSUWeb/cpp/path_engine.cpp:80-81 | a walk without its first node is a walk |
| `Graphs.ConsIsWalk` | FlatSSUWeb/FlatSSUWeb/cpp/path_engine.cpp:80-81 | a hop in front of a walk gives a walk |
| `Graphs.PathCostSnoc` | FlatSSUWeb/FlatSSUWeb/cpp/path_engine.cpp:81 | appending a hop to a walk gives a walk whose cost is the walk's cost plus the hop's |
| `Graphs.PrefixCostBound` | FlatSSUWeb/FlatSSUWeb/cpp/path_engine.cpp:81 | with non-negative edge costs, no prefix of a walk costs more than the walk |
| `Graphs.Reversed` | FlatSSUWeb/FlatSSUWeb/cpp/path_engine.cpp:86 | the reversal has the same length, and position i holds the element at |s|−1−i |
| `Graphs.ReversedSnoc` | FlatSSUWeb/FlatSSUWeb/cpp/path_engine.cpp:86 | reversing a sequence with one more element at its end puts that element first |
| `Graphs.HopCostSymmetric` | FlatSSUWeb/FlatSSUWeb/cpp/path_engine.cpp:143-144 | in a graph where every edge has its twin, a hop u→v exists backwards, v→u, at the same cost |
| `Graphs.ReversedWalkCost` | FlatSSUWeb/FlatSSUWeb/cpp/path_engine.cpp:143-144 | in such a graph, a walk read backwards is a walk of the same cost |
| `Graphs.ReachableSymmetric` | FlatSSUWeb/FlatSSUWeb/cpp/path_engine.cpp:143-144 | in such a graph, t is reachable from s exactly when s is reachable from t |
| `PathEngine.Dijkstra` | FlatSSUWeb/FlatSSUWeb/cpp/path_engine.cpp:68-88 | a non-empty result is a path from S to T over real edges whose cost is at most that of every S→T path; the result is empty exactly when T is unreachable from S; for S = T it is exactly [S] |
| `PathEngine.Below` | FlatSSUWeb/FlatSSUWeb/cpp/path_engine.cpp:82 | for every cost below INT_MAX, the test agrees with the int comparison `nd < dist[v]` when an unreached node stores INT_MAX |
| `PathEngine.Exceeds` | FlatSSUWeb/FlatSSUWeb/cpp/path_engine.cpp:78 | for every int cost, the stale test agrees with the int comparison `cd > dist[u]` when an unreached node stores INT_MAX, so it never drops a pop of an unreached node |
| `PathEngine.Search` | FlatSSUWeb/FlatSSUWeb/cpp/path_engine.cpp:70-84 | the loop invariants hold when the loop ends; when the target was popped fresh, its cost is at most that of every S→T path; otherwise the frontier ran dry |
| `PathEngine.InitialState` | FlatSSUWeb/FlatSSUWeb/cpp/path_engine.cpp:70-74 | the starting state (only S reached, at cost 0, no predecessors, frontier [(0, S)], nothing settled) satisfies the loop invariant |
| `PathEngine.Step` | FlatSSUWeb/FlatSSUWeb/cpp/path_engine.cpp:76-84 | one pass keeps the invariant; when it stops at the target, the target's cost is optimal; otherwise one more node is settled or the frontier shrinks, so the loop ends |
| `PathEngine.Settle` | FlatSSUWeb/FlatSSUWeb/cpp/path_engine.cpp:80-83 | relaxing all edges of a freshly popped node other than the target keeps the invariant, and settles a new node or shortens the frontier |
| `PathEngine.Reconstruct` | FlatSSUWeb/FlatSSUWeb/cpp/path_engine.cpp:85-86 | the collected chain, reversed in place, is a path from S to T costing no more than T's tentative cost; for S = T it is [S] |
| `PathEngine.CollectLinks` | FlatSSUWeb/FlatSSUWeb/cpp/path_engine.cpp:85-86 | following predecessor links from a reached T ends at S; the nodes collected, read backwards, form a path from S to T costing no more than T's tentative cost |
| `PathEngine.LinkStep` | FlatSSUWeb/FlatSSUWeb/cpp/path_engine.cpp:85-86 | a link out of a reached node is -1 exactly at S; otherwise it points over an edge to a node settled earlier whose cost plus the hop does not exceed the node's cost |
| `PathEngine.ChainStart` | FlatSSUWeb/FlatSSUWeb/cpp/path_engine.cpp:86 | the walk along the links starts at a reached target with nothing collected |
| `PathEngine.ChainExtend` | FlatSSUWeb/FlatSSUWeb/cpp/path_engine.cpp:86 | putting a node in front of the collected walk, when the hop to the walk's first node fits within their cost difference, keeps the collected nodes a walk to T within T's cost |
| `PathEngine.ChainEnd` | FlatSSUWeb/FlatSSUWeb/cpp/path_engine.cpp:86 | when the links run out, the collected nodes form a path from S to T costing at most T's tentative cost, and for S = T just [T] |
| `PathEngine.ChainStep` | FlatSSUWeb/FlatSSUWeb/cpp/path_engine.cpp:85-86 | following one more link keeps the collected nodes a walk to T within T's cost and moves to a node settled earlier |
| `PathEngine.ReverseInPlace` | FlatSSUWeb/FlatSSUWeb/cpp/path_engine.cpp:86 | the array afterwards holds its old contents reversed |
| `PathEngine.RelaxedUpToNext` | FlatSSUWeb/FlatSSUWeb/cpp/path_engine.cpp:81-82 | after edge i of u is examined, whether it lowered its neighbour or not, the first i + 1 edges of u are relaxed |
| `PathEngine.RelaxNeighbours` | FlatSSUWeb/FlatSSUWeb/cpp/path_engine.cpp:80-83 | after the edge loop of a settled node u, every edge of u is relaxed from u's cost and all solver invariants still hold; when u was settled before, nothing is pushed |
| `PathEngine.RelaxLowered` | FlatSSUWeb/FlatSSUWeb/cpp/path_engine.cpp:81-82 | lowering a neighbour's cost, setting its predecessor to u and pushing it keeps the relaxation invariant for one more edge; the neighbour was not yet settled |
| `PathEngine.RelaxKept` | FlatSSUWeb/FlatSSUWeb/cpp/path_engine.cpp:81-82 | an edge that does not lower its neighbour's cost leaves the state as it was and counts as relaxed |
| `PathEngine.LowerKeepsRelaxed` | FlatSSUWeb/FlatSSUWeb/cpp/path_engine.cpp:82 | lowering the cost of an unsettled node keeps the settled set relaxed |
| `PathEngine.LowerKeepsPending` | FlatSSUWeb/FlatSSUWeb/cpp/path_engine.cpp:82-83 | lowering a node's cost and pushing the new pair keeps every reached unsettled node queued at its cost |
| `PathEngine.LowerKeepsBounded` | FlatSSUWeb/FlatSSUWeb/cpp/path_engine.cpp:82-83 | lowering an unsettled node to a cost no cheaper than any settled node, and pushing it, keeps the frontier bounded below by the settled costs |
| `PathEngine.LowerKeepsTree` | FlatSSUWeb/FlatSSUWeb/cpp/path_engine.cpp:82 | linking a lowered neighbour to the settled u keeps the predecessor links a tree within the costs |
| `PathEngine.LowerKeepsBasics` | FlatSSUWeb/FlatSSUWeb/cpp/path_engine.cpp:82 | lowering a node outside Q to a non-negative cost keeps costs non-negative, links in range, and Q capped |
| `PathEngine.StaleSkip` | FlatSSUWeb/FlatSSUWeb/cpp/path_engine.cpp:78 | dropping an entry costlier than its node's current cost keeps the loop invariant |
| `PathEngine.SettleShrinks` | FlatSSUWeb/FlatSSUWeb/cpp/path_engine.cpp:84 | settling a node not yet settled shrinks the set of unsettled nodes, so the loop terminates |
| `PathEngine.PoppedInRange` | FlatSSUWeb/FlatSSUWeb/cpp/path_engine.cpp:77-78 | a popped entry names a reached node and is no cheaper than that node's cost |
| `PathEngine.SettledPrefixBound` | FlatSSUWeb/FlatSSUWeb/cpp/path_engine.cpp:80-83 | along a walk from S whose nodes before position j are settled, q[j] is reached at no more than the walk's cost up to it |
| `PathEngine.FrontierLowerBound` | FlatSSUWeb/FlatSSUWeb/cpp/path_engine.cpp:76-84 | with the target unsettled and nothing cheaper than c in the frontier, every walk from S to T costs at least c |
| `PathEngine.TargetPopped` | FlatSSUWeb/FlatSSUWeb/cpp/path_engine.cpp:79 | when the target is popped and not stale, its tentative cost equals the popped cost and is at most the cost of every S→T path |
| `PathEngine.PoppedTargetIsOptimal` | FlatSSUWeb/FlatSSUWeb/cpp/path_engine.cpp:76-84 | with the settled set relaxed, pending nodes queued and nothing cheaper than c in the frontier, every S→T path costs at least c |
| `PathEngine.ExhaustedMeansUnreachable` | FlatSSUWeb/FlatSSUWeb/cpp/path_engine.cpp:76-86 | once the frontier is empty and the target is still unsettled, no path leads from S to T |
| `PathEngine.ExhaustedWalkSettled` | FlatSSUWeb/FlatSSUWeb/cpp/path_engine.cpp:76-84 | once the frontier is empty, every node of a walk from S is settled |
| `PathEngine.BeginSettle` | FlatSSUWeb/FlatSSUWeb/cpp/path_engine.cpp:77-80 | a fresh pop of a node other than the target starts the edge loop with that node counted as settled |
| `PathEngine.FinishSettle` | FlatSSUWeb/FlatSSUWeb/cpp/path_engine.cpp:80-84 | after the edge loop, the loop invariant holds with the node added to the settled set |
| `PathEngine.SettledRelaxed` | FlatSSUWeb/FlatSSUWeb/cpp/path_engine.cpp:80-84 | once every edge of u is relaxed from u's cost, the settled set extended by u is relaxed |
| `PathEngine.SettleOrder` | FlatSSUWeb/FlatSSUWeb/cpp/path_engine.cpp:77-84 | a newly settled node gets the next settle rank, so every rank stays below the count |
| `TextFields.TrimStartShape` | FlatSSUWeb/FlatSSUWeb/cpp/path_engine.cpp:96 | TrimStart keeps a suffix of s, everything it cuts is whitespace, and what it keeps does not start with whitespace |
| `TextFields.TrimEndShape` | FlatSSUWeb/FlatSSUWeb/cpp/path_engine.cpp:97 | TrimEnd keeps a prefix of s, everything it cuts is whitespace, and what it keeps does not end with whitespace |
| `TextFields.TrimStartAt` | FlatSSUWeb/FlatSSUWeb/cpp/path_engine.cpp:96 | when the first i characters are whitespace and the next is not, TrimStart cuts exactly i characters |
| `TextFields.TrimEndAt` | FlatSSUWeb/FlatSSUWeb/cpp/path_engine.cpp:97 | when everything from j on is whitespace and s[j−1] is not, TrimEnd keeps exactly j characters |
| `TextFields.FirstNonSpace` | FlatSSUWeb/FlatSSUWeb/cpp/path_engine.cpp:96 | the index of the first non-whitespace character, or the length when there is none; everything before it is whitespace |
| `TextFields.EndOfNonSpace` | FlatSSUWeb/FlatSSUWeb/cpp/path_engine.cpp:97 | one past the last non-whitespace character, or 0 when there is none; everything from it on is whitespace |
| `TextFields.Trim` | FlatSSUWeb/FlatSSUWeb/cpp/path_engine.cpp:93-98 | the result is the string with its leading and trailing spaces, tabs, CRs and LFs removed |
| `TextFields.TrimmedIsCore` | FlatSSUWeb/FlatSSUWeb/cpp/path_engine.cpp:93-98 | trimming keeps a contiguous piece of s, cuts only whitespace, and leaves no whitespace at either end |
| `TextFields.TrimIdempotent` | FlatSSUWeb/FlatSSUWeb/cpp/path_engine.cpp:93-98 | trimming twice is trimming once |
| `TextFields.TrimEmptyIffAllSpace` | FlatSSUWeb/FlatSSUWeb/cpp/path_engine.cpp:93-98 | trimming yields the empty string exactly when s is all whitespace |
| `TextFields.TrimPadding` | FlatSSUWeb/FlatSSUWeb/cpp/path_engine.cpp:93-98 | a core that neither starts nor ends with whitespace, padded with whitespace on both sides, trims back to exactly that core |
| `TextFields.TrimExamples` | FlatSSUWeb/FlatSSUWeb/cpp/path_engine.cpp:95-97 | " 120\r" trims to "120", " \t\r\n" to "", and inner blanks survive |
| `TextFields.AllDigits` | FlatSSUWeb/FlatSSUWeb/cpp/path_engine.cpp:102-103 | true exactly when every character is an ASCII digit |
| `TextFields.IsNumber` | FlatSSUWeb/FlatSSUWeb/cpp/path_engine.cpp:99-104 | true exactly when s is non-empty and every character is an ASCII digit |
| `TextFields.SignedRejected` | FlatSSUWeb/FlatSSUWeb/cpp/path_engine.cpp:99-104 | a field starting with '-' or '+' is not a number |
| `TextFields.IsNumberExamples` | FlatSSUWeb/FlatSSUWeb/cpp/path_engine.cpp:99-104 | "", "abc", "-10" and "1 2" fail the test; "0" and "700" pass it |
| `TextFields.DigitChar` | FlatSSUWeb/FlatSSUWeb/cpp/path_engine.cpp:141 | the character for a value below ten is a digit whose value is that value |
| `TextFields.DecimalString` | FlatSSUWeb/FlatSSUWeb/cpp/path_engine.cpp:141 | the decimal spelling of a number is a non-empty digit string |
| `TextFields.DecimalRoundTrip` | FlatSSUWeb/FlatSSUWeb/cpp/path_engine.cpp:141 | reading back the decimal spelling of n gives n |
| `TextFields.LeadingZero` | FlatSSUWeb/FlatSSUWeb/cpp/path_engine.cpp:141 | a leading zero does not change a digit string's value |
| `TextFields.DigitValue` | FlatSSUWeb/FlatSSUWeb/cpp/path_engine.cpp:141 | a digit's value lies in 0..9 |
| `TextFields.ClampConv` | FlatSSUWeb/FlatSSUWeb/cpp/path_engine.cpp:142 | the stored convenience score always lies in 0..600 |
| `TextFields.ClampProperties` | FlatSSUWeb/FlatSSUWeb/cpp/path_engine.cpp:142 | the clamped score lies in 0..600; a score already in range is kept; scores above become 600 and below become 0; clamping is idempotent |
| `TextFields.OnlyUpperClampApplies` | FlatSSUWeb/FlatSSUWeb/cpp/path_engine.cpp:137-142 | for a score that passed the digit test, the clamp is just min(score, 600) |
| `TextFields.ClampExamples` | FlatSSUWeb/FlatSSUWeb/cpp/path_engine.cpp:141-142 | "700" is stored as 600 and "0420" as 420 |
| `EdgeLoader.SplitField` | FlatSSUWeb/FlatSSUWeb/cpp/path_engine.cpp:135 | the field holds no comma; when s has a comma, s is the field, the comma and the rest; otherwise the field is all of s and nothing is left |
| `EdgeLoader.FieldsShape` | FlatSSUWeb/FlatSSUWeb/cpp/path_engine.cpp:134-135 | none of the four fields holds a comma; a line without a comma is one field followed by three empty ones |
| `EdgeLoader.SplitFieldAt` | FlatSSUWeb/FlatSSUWeb/cpp/path_engine.cpp:135 | text without a comma, followed by a comma, is split off exactly |
| `EdgeLoader.FieldsOf` | FlatSSUWeb/FlatSSUWeb/cpp/path_engine.cpp:134-135 | a line of four comma-free fields joined by commas splits back into those four fields |
| `EdgeLoader.Parse` | FlatSSUWeb/FlatSSUWeb/cpp/path_engine.cpp:134-142 | an accepted row has two non-empty names and a convenience score in 0..600 |
| `EdgeLoader.ParseSplit` | FlatSSUWeb/FlatSSUWeb/cpp/path_engine.cpp:136-142 | given the split fields and their trimmed forms, the row is rejected exactly when a name is empty or a number field is not a digit string, and is otherwise accepted with the read values and clamped score |
| `EdgeLoader.AcceptedNamesClean` | FlatSSUWeb/FlatSSUWeb/cpp/path_engine.cpp:135-136 | the names of an accepted row contain no comma and are already trimmed |
| `EdgeLoader.AcceptedEdgeWeighted` | FlatSSUWeb/FlatSSUWeb/cpp/path_engine.cpp:141-142 | an accepted row yields distance ≥ 0 and convenience in 0..600 |
| `EdgeLoader.ParsePaddedRow` | FlatSSUWeb/FlatSSUWeb/cpp/path_engine.cpp:134-142 | whitespace on either side of every field (blanks, tabs, a trailing CR), each run of any length of its own, is ignored: a padded row with clean names and digit fields is accepted with those names, the numbers' values and the clamped score |
| `EdgeLoader.ParseNegativeScore` | FlatSSUWeb/FlatSSUWeb/cpp/path_engine.cpp:137 | the row A,B,10,-10 is rejected; the negative score is not clamped |
| `EdgeLoader.ParseBlankName` | FlatSSUWeb/FlatSSUWeb/cpp/path_engine.cpp:137 | the row A, ,1,1 is rejected because its second name trims to empty |
| `EdgeLoader.ParseMissingField` | FlatSSUWeb/FlatSSUWeb/cpp/path_engine.cpp:135-137 | the row A,B,1 is rejected because its fourth field is empty |
| `EdgeLoader.PaddedField` | FlatSSUWeb/FlatSSUWeb/cpp/path_engine.cpp:135-136 | a clean field between two runs of whitespace holds no comma and trims back to itself |
| `EdgeLoader.ResolveStored` | FlatSSUWeb/FlatSSUWeb/cpp/path_engine.cpp:140 | a known name gets its stored index, and the result is always a stored index or 0 |
| `EdgeLoader.ResolveInRange` | FlatSSUWeb/FlatSSUWeb/cpp/path_engine.cpp:140 | with at least one node and every stored index in range, operator[] yields an index of the node list |
| `EdgeLoader.Inserted` | FlatSSUWeb/FlatSSUWeb/cpp/path_engine.cpp:143-144 | the list of u gains {v,d,c} at its end, the list of v gains {u,d,c}, and every other list is unchanged |
| `EdgeLoader.InsertKeepsSymmetric` | FlatSSUWeb/FlatSSUWeb/cpp/path_engine.cpp:143-144 | inserting a row keeps every edge paired with a twin of the same weights |
| `EdgeLoader.InsertKeepsWellFormed` | FlatSSUWeb/FlatSSUWeb/cpp/path_engine.cpp:141-144 | inserting an edge between two nodes with accepted weights keeps every edge in range and accepted |
| `EdgeLoader.EntryCountBounds` | FlatSSUWeb/FlatSSUWeb/cpp/path_engine.cpp:146 | no list is longer than the total, and the total is 0 exactly when every list is empty |
| `EdgeLoader.EntryCountGrow` | FlatSSUWeb/FlatSSUWeb/cpp/path_engine.cpp:146 | appending to one list adds exactly its length to the total entry count |
| `EdgeLoader.InsertAddsTwo` | FlatSSUWeb/FlatSSUWeb/cpp/path_engine.cpp:143-146 | an accepted row adds exactly two adjacency entries |
| `EdgeLoader.EmptyGraph` | FlatSSUWeb/FlatSSUWeb/cpp/path_engine.cpp:130 | n lists, all empty |
| `EdgeLoader.EmptyGraphFacts` | FlatSSUWeb/FlatSSUWeb/cpp/path_engine.cpp:130 | the freshly assigned graph has no entries and is well formed and symmetric |
| `EdgeLoader.RejectedCount` | FlatSSUWeb/FlatSSUWeb/cpp/path_engine.cpp:137-138 | the number of rejected rows never exceeds the number of rows |
| `EdgeLoader.RejectedCountStep` | FlatSSUWeb/FlatSSUWeb/cpp/path_engine.cpp:138 | one more row adds one to the count exactly when that row is rejected |
| `EdgeLoader.NameIndex` | FlatSSUWeb/FlatSSUWeb/cpp/path_engine.cpp:117-124 | the map built from the node list holds exactly the listed names, each at its last position in the list |
| `EdgeLoader.ResolveKeepsIndexed` | FlatSSUWeb/FlatSSUWeb/cpp/path_engine.cpp:117-140 | resolving names with operator[] keeps listed names at their positions and gives every other name index 0 |
| `EdgeLoader.ReadRow` | FlatSSUWeb/FlatSSUWeb/cpp/path_engine.cpp:134-137 | the row passes exactly when Parse accepts it; then both number fields are digit strings and Parse yields the trimmed names, the distance and the clamped score |
| `EdgeLoader.GraphStore.constructor` | FlatSSUWeb/FlatSSUWeb/cpp/path_engine.cpp:43-45 | the store starts with no nodes, no names and no lists, and is valid |
| `EdgeLoader.GraphStore.Id` | FlatSSUWeb/FlatSSUWeb/cpp/path_engine.cpp:140 | returns the name's index, or 0 for an unknown name, which is then entered with 0; nothing else changes |
| `EdgeLoader.GraphStore.LoadNodes` | FlatSSUWeb/FlatSSUWeb/cpp/path_engine.cpp:117-124 | afterwards the node list is the given names, and the map is `NameIndex(names)`: exactly those names, each at its last position |
| `EdgeLoader.GraphStore.AddEdge` | FlatSSUWeb/FlatSSUWeb/cpp/path_engine.cpp:143-144 | the graph becomes Inserted(old graph, u, v, d, c); the store stays valid |
| `EdgeLoader.GraphStore.AcceptRow` | FlatSSUWeb/FlatSSUWeb/cpp/path_engine.cpp:133-145 | a rejected row adds one to bad and changes nothing else; an accepted row leaves bad alone, resolves both names as operator[] does, and inserts the edge into exactly the two lists; that is `LoadRow` of the old lists and map; the entry count grows by two exactly for an accepted row; the store and the name indexing stay valid |
| `EdgeLoader.GraphStore.NextRow` | FlatSSUWeb/FlatSSUWeb/cpp/path_engine.cpp:132-145 | one turn of the row loop moves its state from i rows to i + 1: the rejected count, the entry count, and the lists and map that `Loaded` gives for the rows read so far |
| `EdgeLoader.GraphStore.LoadEdges` | FlatSSUWeb/FlatSSUWeb/cpp/path_engine.cpp:132-145 | bad equals the number of rejected rows; the lists and the name map are those `Loaded` gives for the old ones and the rows, in order; the entry count grows by twice the number of accepted rows; the store and name map stay valid |
| `EdgeLoader.GraphStore.InitGraph` | FlatSSUWeb/FlatSSUWeb/cpp/path_engine.cpp:109-149 | after loading, the nodes are the given names; the lists and name map are what the rows after the header give when read in order into empty lists and `NameIndex(names)`; the store is valid (symmetric, well formed); bad counts the rejected data rows; and there are two adjacency entries per accepted row |
| `EdgeLoader.GraphStore.FindShortest` | FlatSSUWeb/FlatSSUWeb/cpp/path_engine.cpp:154 | an optimal path from s to t in Shortest mode when non-empty; empty exactly when t is unreachable from s, and (the graph being symmetric) exactly when s is unreachable from t |
| `EdgeLoader.GraphStore.FindConvenient` | FlatSSUWeb/FlatSSUWeb/cpp/path_engine.cpp:155 | an optimal path from s to t in Convenient mode when non-empty; empty exactly when t is unreachable from s, and exactly when s is unreachable from t |

## Left out

- File I/O is not modelled. This covers opening the node and edge files, reading lines, the working directory, and all `cout`/`cerr` output. `InitGraph` takes the node names and the edge file's lines as sequences.
- Parsing the node file with the JSON library is not modelled. The node list arrives as names in file order.
- Node latitude and longitude are not modelled. They are floating-point and unused by routing.
- The `row` counter is left out because it only feeds the per-row diagnostic message.
- The early returns when a file cannot be opened are not modelled. When the edge file fails, the source keeps the old `graph` next to cleared `nodes`.
- `stoi` overflow is not modelled. `DecimalValue` is unbounded, while the source throws `std::out_of_range` for a digit string above INT_MAX and aborts the load.
- C++ `int` width is not modelled: costs and distances are mathematical integers. The INT_MAX sentinel is the separate value `Dist.Inf`. A graph whose path costs overflow `int` is outside the model.
- `PathEngine.Dijkstra`: the contract assumes the weights the loader produces (`Graphs.WellFormed`: distance ≥ 0, convenience in 0..600). The C++ function accepts any graph.
- `Frontier.PopMin`: the binary-heap layout of `std::priority_queue` is replaced by a linear scan over an unordered sequence. Both pop the same lexicographically smallest pair.
- `Graphs.Symmetric` states that each edge's twin is present. It does not state that parallel twins occur equally often, which the loader also ensures.
- `GraphStore.AcceptRow` requires at least one node when the row is accepted. With no nodes the source indexes an empty `graph` at lines 143-144, which is undefined behaviour.
- `GraphStore.LoadEdges` requires at least one node when some row is accepted, for the same reason.
- `GraphStore.InitGraph` requires a non-empty node list when some data row is accepted, for the same reason.
- The Emscripten bindings and the interactive CLI `main` are not modelled.
