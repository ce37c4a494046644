# Spatial graph store (HF::SpatialStructures::Graph)

This project models the graph class of the DHART spatial-analysis library. A graph
has four parts:

- an **identity registry** that gives every distinct 3-D node position a dense integer id;
- an **edit buffer** of staged `(parent, child, cost)` edges;
- a **compactor** that rebuilds a compressed-sparse-row (CSR) edge matrix from the buffer;
- the **queries** over that matrix: edge tests, edge lists, per-node aggregates, and an
  export of the CSR's three arrays.

A graph is built either empty, and then filled with addEdge and Compress, or in one
step by the bulk constructor from per-node child lists and costs.

The model has four modules:

- `Csr` (csr.dfy) holds the CSR matrix value and its well-formedness. It also defines the
  row, incoming-edge and undirected views, and the `CSRPtrs` export record with `AreValid`.
- `Compactor` (compactor.dfy) holds the staged edits (`Triplet`). `Build` is the matrix
  the compactor produces from them, with repeated `(parent, child)` pairs summed.
  `Dim` is the dimension that compression chooses: the largest id + 1.
- `Aggregation` (aggregation.dfy) holds `COST_AGGREGATE` (SUM = 0, AVERAGE = 1, COUNT = 2)
  and the per-node scores.
- `SpatialStructures` (graph.dfy) holds the `Graph` class.

`Graph` has the source's fields: `orderedNodes`, `idToNodes`, `idmap`, `edgeMatrix`,
`nextId`, `triplets` and `needsCompression`. Its mutators are methods with `modifies`:
getOrAssignID ×2, addEdge ×2, Compress, GetCSRPointers and Clear. Its const queries are
functions or read-only methods. The invariant `Valid()` covers three things:

- the registry: every registered position names the slot of a node at that position;
- the buffer: every edit names registered ids only;
- the matrix: whenever it is fresh, it is exactly `Build` of the edits it was built from.

The ghost field `Loaded` records those edits. They are the bulk constructor's edges, or
the buffer as it stood at the last compression. That is how every query is specified in
terms of the edits that were added.

## Model

| member | source | states |
|---|---|---|
| SpatialStructures.Graph.constructor | src/Cpp/spatialstructures/src/graph.h:209-226 | the empty graph: no nodes, no edits, an empty matrix, and compression pending |
| SpatialStructures.Graph.FromEdges | src/Cpp/spatialstructures/src/graph.h:155-207 | requires edges, distances and nodes of equal lengths, matching inner lengths, children that are valid ids, and distinct positions, and no child listed twice for one node; node i gets id i; the graph is already compressed with an empty edit buffer; an edge (r, c) exists exactly when c is listed in edges[r]; the edge from node i to edges[i][k] costs exactly distances[i][k], and the compressed row i holds that edge with that cost |
| SpatialStructures.Graph.RegisterAll | src/Cpp/spatialstructures/src/graph.h:155-207 | the bulk constructor's registration pass: node i of the input, in order, receives id i, and the id map holds exactly the input's positions |
| SpatialStructures.Graph.GetOrAssignNode | src/Cpp/spatialstructures/src/graph.h:104-122 | a known position returns its id and changes nothing; a new position receives nextId, is appended to the nodes and the id map, and nextId grows by one; existing ids never change |
| SpatialStructures.Graph.GetOrAssignId | src/Cpp/spatialstructures/src/graph.h:124-132 | after the call the id has a slot; missing slots up to it are filled with placeholder nodes; known ids and the position map are untouched |
| SpatialStructures.Graph.AddEdge | src/Cpp/spatialstructures/src/graph.h:562-609 | registers both endpoints (new positions get the next ids in order parent, child, and exactly the new nodes are appended in that order); appends exactly one edit with the given score, 1.0 by default; existing ids keep their values; the graph then needs compression; the matrix is unchanged |
| SpatialStructures.Graph.AddEdgeIds | src/Cpp/spatialstructures/src/graph.h:611-656 | appends exactly one edit (parent, child, score); both ids get a slot, with nextId becoming max id + 1 when either is new, and every slot created holds a placeholder node; the graph then needs compression |
| SpatialStructures.Graph.Compress | src/Cpp/spatialstructures/src/graph.h:829-876 | a no-op on a fresh graph, and so idempotent; otherwise the matrix is rebuilt from all staged edits with dimension max id + 1; the registry and the buffer are kept |
| SpatialStructures.Graph.GetCsrPointers | src/Cpp/spatialstructures/src/graph.h:878-926 | compresses first if needed; returns the matrix's sizes and arrays, from which the matrix can be rebuilt exactly; the record is valid exactly when nnz > 0 |
| SpatialStructures.Graph.Clear | src/Cpp/spatialstructures/src/graph.h:963-991 | the matrix keeps its shape but stores nothing; the edits and nodes are gone; the graph needs compression |
| SpatialStructures.Graph.CheckForEdge | src/Cpp/spatialstructures/src/graph.h:135-148 | the scan of the parent's row finds the child exactly when the matrix stores that entry |
| SpatialStructures.Graph.HasEdgeIds | src/Cpp/spatialstructures/src/graph.h:310-343 | fails exactly when the graph is stale; otherwise true exactly when some edit added parent -> child, or also child -> parent when undirected |
| SpatialStructures.Graph.HasEdgeNodes | src/Cpp/spatialstructures/src/graph.h:273-308 | same as HasEdgeIds on the nodes' ids; false when either node is unknown |
| SpatialStructures.Graph.HasEdgePositions | src/Cpp/spatialstructures/src/graph.h:228-271 | same as HasEdgeNodes on the nodes at these positions |
| SpatialStructures.Graph.EdgesFrom | src/Cpp/spatialstructures/src/graph.h:512-560 | operator[]: out_of_range for an unknown node, NotCompressed for a known node on a stale graph, and a result otherwise; the edges listed are exactly the children some edit connected the node to, each with the summed cost, one per distinct child |
| SpatialStructures.Graph.GetUndirectedEdges | src/Cpp/spatialstructures/src/graph.h:374-416 | fails exactly when the graph is stale; empty for an unknown node; otherwise lists (v, w) exactly when edits connect the node to v with summed cost w, or a different node v to the node with summed cost w |
| SpatialStructures.Graph.GetEdges | src/Cpp/spatialstructures/src/graph.h:418-461 | fails exactly when the graph is stale; otherwise one edge set per node (size() of them), in id order; each lists, in strictly ascending child order, exactly the children some edit gave that parent, with the summed weights |
| SpatialStructures.Graph.AggregateGraph | src/Cpp/spatialstructures/src/graph.h:463-510 | an unknown aggregation code is out_of_range; a stale graph fails; otherwise one score per id, SUM, AVERAGE or COUNT, over outgoing edges or over both directions |
| SpatialStructures.Graph.NodeFromID | src/Cpp/spatialstructures/src/graph.h:928-961 | succeeds exactly for ids 0 .. size-1 and returns the node in that slot; out_of_range otherwise |
| SpatialStructures.Graph.GetID | src/Cpp/spatialstructures/src/graph.h:784-827 | -1 exactly for an unseen position; otherwise an id whose node has this position |
| SpatialStructures.Graph.HasKey | src/Cpp/spatialstructures/src/graph.h:658-708 | true exactly when getID is not -1, and then NodeFromID of that id has the node's position |
| SpatialStructures.Graph.Size | src/Cpp/spatialstructures/src/graph.h:755-782 | NodeFromID succeeds exactly on the ids below size |
| SpatialStructures.Graph.Nodes | src/Cpp/spatialstructures/src/graph.h:345-372 | size nodes, where node i is the one NodeFromID(i) returns |
| SpatialStructures.Graph.NodesAsFloat3 | src/Cpp/spatialstructures/src/graph.h:710-753 | the positions of Nodes(), in the same order |
| SpatialStructures.OutgoingEdges | src/Cpp/spatialstructures/src/graph.h:512-560 | the children of a row of the compacted matrix, as nodes, are exactly those some edit connected, with summed weights |
| SpatialStructures.UndirectedEdges | src/Cpp/spatialstructures/src/graph.h:374-416 | the undirected view of the compacted matrix is exactly the outgoing edits plus the edits from other nodes towards this one |
| SpatialStructures.CountIsOutDegree | src/Cpp/spatialstructures/src/graph.h:463-510 | outgoing COUNT is the number of distinct children the edits gave the node |
| Aggregation.KindOfCode | src/Cpp/spatialstructures/src/graph.h:21-32 | the codes 0, 1 and 2 and no others name a COST_AGGREGATE, and decoding inverts the enum's values |
| Aggregation.OutgoingScores | src/Cpp/spatialstructures/src/graph.h:463-510 | for a node with a row, SUM is the sum of the row's stored values, COUNT is outer[i+1] - outer[i], and AVERAGE is SUM / COUNT (0 for no edges); a node without a row scores 0 |
| Aggregation.BothDirectionsCount | src/Cpp/spatialstructures/src/graph.h:463-510 | with both directions, COUNT is the out-degree plus the number of other nodes with an edge to the node |
| Compactor.Dim | src/Cpp/spatialstructures/src/graph.h:831-835 | the compaction dimension covers every id named, and it is the least such bound |
| Compactor.BuildWellFormed | src/Cpp/spatialstructures/src/graph.h:831-835 | the compacted matrix is a valid n x n CSR |
| Compactor.BuildEntries | src/Cpp/spatialstructures/src/graph.h:831-835 | row r stores (c, w) exactly when some edit names (r, c) and w is the sum of their costs |
| Compactor.BuildHasEntry | src/Cpp/spatialstructures/src/graph.h:135-148 | an entry is stored exactly when some edit added it |
| Compactor.OutDegree | src/Cpp/spatialstructures/src/graph.h:831-835 | a row holds one entry per distinct child, however many edits repeat it |
| Compactor.BuildDimensionIrrelevant | src/Cpp/spatialstructures/src/graph.h:170-178 | for one sequence of edits, any dimension covering the ids gives the same rows |
| Compactor.WeightReordered | src/Cpp/spatialstructures/src/graph.h:831-835 | the summed weight of a pair is the same for any ordering of the same edits |
| Compactor.PresentReordered | src/Cpp/spatialstructures/src/graph.h:831-835 | whether a pair is named is the same for any ordering of the same edits |
| Compactor.BuildRespects | src/Cpp/spatialstructures/src/graph.h:831-835 | two edit lists that name the same pairs with the same summed weights compact into the same matrix |
| Compactor.ReorderedEditsBuildAlike | src/Cpp/spatialstructures/src/graph.h:831-835 | the same edits staged in any order compact into the same matrix |
| Compactor.CompactionMatchesBulk | src/Cpp/spatialstructures/src/graph.h:170-178 | staging the bulk constructor's edges in any order and compacting (dimension max id + 1) gives every node the same stored edges as the bulk constructor |
| Compactor.BulkTripletsPresent | src/Cpp/spatialstructures/src/graph.h:157-166 | the bulk constructor's edits name (r, c) exactly when c is listed in edges[r] |
| Compactor.BulkTripletsWeight | src/Cpp/spatialstructures/src/graph.h:157-169 | when no node lists a child twice, the bulk constructor's edits give the edge from node i to edges[i][k] the summed cost distances[i][k] |
| Compactor.BulkBuild | src/Cpp/spatialstructures/src/graph.h:155-169 | the matrix built from the bulk edits is well formed, has an edge (r, c) exactly when c is listed in edges[r], and row i holds the edge to edges[i][k] with cost distances[i][k] |
| Compactor.DuplicateEditsAreSummed | src/Cpp/spatialstructures/src/graph.h:831-835 | two edits of the same edge, with costs 3 and 4, compact into one entry of cost 7 |
| Compactor.DirectedEdgeScenario | src/Cpp/spatialstructures/src/graph.h:228-233 | after the single edit 0 -> 1, the edge 0 -> 1 is stored and 1 -> 0 is not |
| Csr.ExportRoundTrip | src/Cpp/spatialstructures/src/graph.h:34-41 | a client rebuilding a matrix from the exported sizes and arrays gets the matrix back |
| Csr.ExportValidity | src/Cpp/spatialstructures/src/graph.h:79-81 | AreValid holds exactly when all three arrays are non-null, which for an export means nnz > 0; the outer array has rows + 1 offsets ending at nnz |
| Csr.UndirectedMember | src/Cpp/spatialstructures/src/graph.h:374-416 | (x, w) is in the undirected view of i exactly when i stores (x, w), or a different node x stores (i, w) |
| Csr.FromRowsRow | src/Cpp/spatialstructures/src/graph.h:42-50 | laying rows out in the CSR arrays and reading a row back gives that row |

## Left out

- Floating point: costs are `real`, and positions are integer triples. Rounding and single-precision sums are not modelled. Position equality is exact, whereas a real node compares float coordinates.
- Eigen's internals (the storage of `SparseMatrix`, `setFromTriplets`, `makeCompressed`, buffer squeezing) are not modelled. Only their observable result is: the CSR built from the edits, with duplicates summed and each row in ascending column order.
- Memory and pointer lifetimes of the exported arrays are not modelled. A null pointer is modelled as "the array holds nothing", which is how Eigen reports an empty array.
- The deprecated, never-implemented `UpdateIDs`, `GenerateCrossSlope` and `GenerateEnergy` are not modelled.
- Time complexity statements are not modelled.
- graph.cpp, Node.h and Edge.h are not part of this model. Method bodies are modelled from their documented behaviour. A `Node` is its position plus one integer tag, and nodes are deduplicated by position.
- Several behaviours are not stated in the header. Each was chosen as follows:
  - repeated edits of an edge are summed, which is Eigen's default for `setFromTriplets`;
  - AVERAGE over a node with no edges scores 0;
  - `operator[]` and GetUndirectedEdges on a stale graph fail with NotCompressed;
  - HasEdge on an unknown id answers false;
  - Clear also forgets the nodes, following its summary "Clear all nodes and edges from the graph".
- SpatialStructures.Graph.GetOrAssignId: takes a `nat`; negative integer ids are not modelled.
- SpatialStructures.Graph.AddEdgeIds: takes `nat` ids; negative integer ids are not modelled.
- SpatialStructures.Graph.GetOrAssignNode and SpatialStructures.Graph.GetOrAssignId are private in the source, but Dafny has no private members here, so they are callable like any method. Called directly on a compressed graph, they add nodes and leave the graph compressed. The matrix then has fewer rows than there are nodes, and the queries treat the missing rows as empty.
- SpatialStructures.Graph.EdgesFrom: the edges come in ascending child-id order, but the contract does not state that order, because children are given as nodes and placeholder nodes can repeat. It states the membership and the count. The same holds for SpatialStructures.Graph.GetUndirectedEdges, whose order (outgoing edges, then incoming edges by parent id) is also not stated.
- AddEdge on a graph built by the bulk constructor is allowed. The header warns that the bulk constructor keeps no edit list, so the next compression rebuilds from the new edits alone.
- Integer widths: node ids, `next_id` and the CSR sizes are 32-bit `int` in the source (graph.h lines 43-45, 100, 132 and 656), while the model uses unbounded `int` and `nat`. Overflow past 2^31 - 1 nodes or entries is not modelled.
