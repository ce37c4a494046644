/** The spatial graph store: an identity registry for node positions, an edit buffer
    of pending edges, a compressed edge matrix, and the queries over them. */
module SpatialStructures {
  import opened Csr
  import opened Compactor
  import opened Aggregation

  /** A 3-D position: the key under which a node is deduplicated. */
  datatype Position = Position(x: int, y: int, z: int)

  /** A node: its position and the extra integer a node may be constructed with. */
  datatype Node = Node(pos: Position, tag: int)

  /** The node standing in for an id that was referenced before any position was known. */
  const Placeholder: Node := Node(Position(0, 0, 0), -1)

  /** An edge seen from its parent: the child node and the cost of traversing to it. */
  datatype Edge = Edge(child: Node, score: real)

  /** All edges of one parent, by id: (child id, weight) pairs in ascending child order. */
  datatype EdgeSet = EdgeSet(parent: int, children: seq<IntEdge>)

  /** Why a query fails: the matrix is stale (needs Compress), or an id, a node or an
      aggregation kind is unknown (out_of_range). */
  datatype GraphError = NotCompressed | OutOfRange

  datatype Result<T> = Ok(value: T) | Err(error: GraphError)

  /** The edges of a row, each child id replaced by the node with that id. */
  function ToEdges(nodes: seq<Node>, row: seq<IntEdge>): (es: seq<Edge>)
    requires forall x :: x in row ==> 0 <= x.child < |nodes|
    ensures |es| == |row|
  {
    seq(|row|, k requires 0 <= k < |row| => assert row[k] in row; Edge(nodes[row[k].child], row[k].weight))
  }

  lemma ToEdgesMember(nodes: seq<Node>, row: seq<IntEdge>, e: Edge)
    requires forall x :: x in row ==> 0 <= x.child < |nodes|
    ensures e in ToEdges(nodes, row) <==> exists x :: x in row && e == Edge(nodes[x.child], x.weight)
  {
    var es := ToEdges(nodes, row);
    if e in es {
      var k :| 0 <= k < |es| && es[k] == e;
      assert row[k] in row;
    }
    if exists x :: x in row && e == Edge(nodes[x.child], x.weight) {
      var x :| x in row && e == Edge(nodes[x.child], x.weight);
      var k :| 0 <= k < |row| && row[k] == x;
      assert es[k] == e;
    }
  }

  /** e is an edge of `id` in the edits `ts`: some edit connects id to the node
      nodes[c], and e.score is the summed cost of those edits. */
  ghost predicate IsOutgoingEdge(nodes: seq<Node>, ts: seq<Triplet>, id: int, e: Edge) {
    exists c :: 0 <= c < |nodes| && e.child == nodes[c] && Present(ts, id, c) && e.score == Weight(ts, id, c)
  }

  /** e is an undirected edge of `id` in the edits `ts`: e is an outgoing edge of id,
      or a different node nodes[c] has edits towards id whose summed cost is e.score. */
  ghost predicate IsUndirectedEdge(nodes: seq<Node>, ts: seq<Triplet>, id: int, e: Edge) {
    exists c :: 0 <= c < |nodes| && e.child == nodes[c] &&
      (|| (Present(ts, id, c) && e.score == Weight(ts, id, c))
       || (c != id && Present(ts, c, id) && e.score == Weight(ts, c, id)))
  }

  /** The outgoing edges of `id` in the compaction of `ts`, as nodes: (v, w) is listed
      exactly when some edit connects id to the node v with id c, w being their summed cost. */
  lemma OutgoingEdges(nodes: seq<Node>, ts: seq<Triplet>, n: nat, id: int)
    requires AllBelow(ts, n) && n <= |nodes|
    ensures WellFormed(Build(ts, n))
    ensures forall x :: x in RowEntries(Build(ts, n), id) ==> 0 <= x.child < |nodes|
    ensures forall e :: e in ToEdges(nodes, RowEntries(Build(ts, n), id)) <==> IsOutgoingEdge(nodes, ts, id, e)
  {
    var m := Build(ts, n);
    BuildEntries(ts, n);
    var row := RowEntries(m, id);
    forall x | x in row ensures 0 <= x.child < |nodes| {
      RowEntriesInRange(m, id, x);
    }
    forall e ensures e in ToEdges(nodes, row) <==> IsOutgoingEdge(nodes, ts, id, e) {
      ToEdgesMember(nodes, row, e);
      if exists c :: 0 <= c < |nodes| && e.child == nodes[c] && Present(ts, id, c) && e.score == Weight(ts, id, c) {
        var c :| 0 <= c < |nodes| && e.child == nodes[c] && Present(ts, id, c) && e.score == Weight(ts, id, c);
        assert IntEdge(c, e.score) in row;
      }
    }
  }

  /** The undirected edges of `id` in the compaction of `ts`, as nodes: (v, w) is listed
      exactly when some edits connect id to v with summed cost w, or connect a node v
      other than id to id with summed cost w. */
  lemma UndirectedEdges(nodes: seq<Node>, ts: seq<Triplet>, n: nat, id: int)
    requires AllBelow(ts, n) && n <= |nodes|
    ensures WellFormed(Build(ts, n))
    ensures forall x :: x in Undirected(Build(ts, n), id) ==> 0 <= x.child < |nodes|
    ensures forall e :: e in ToEdges(nodes, Undirected(Build(ts, n), id)) <==> IsUndirectedEdge(nodes, ts, id, e)
  {
    var m := Build(ts, n);
    BuildEntries(ts, n);
    var row := Undirected(m, id);
    forall x | x in row ensures 0 <= x.child < |nodes| {
      UndirectedMember(m, id, x);
      if x in RowEntries(m, id) {
        RowEntriesInRange(m, id, x);
      } else {
        RowEntriesInRange(m, x.child, IntEdge(id, x.weight));
      }
    }
    forall e ensures e in ToEdges(nodes, row) <==> IsUndirectedEdge(nodes, ts, id, e) {
      ToEdgesMember(nodes, row, e);
      if e in ToEdges(nodes, row) {
        var x :| x in row && e == Edge(nodes[x.child], x.weight);
        UndirectedMember(m, id, x);
      }
      if exists c :: 0 <= c < |nodes| && e.child == nodes[c] &&
                (|| (Present(ts, id, c) && e.score == Weight(ts, id, c))
                 || (c != id && Present(ts, c, id) && e.score == Weight(ts, c, id))) {
        var c :| 0 <= c < |nodes| && e.child == nodes[c] &&
                (|| (Present(ts, id, c) && e.score == Weight(ts, id, c))
                 || (c != id && Present(ts, c, id) && e.score == Weight(ts, c, id)));
        UndirectedMember(m, id, IntEdge(c, e.score));
        assert IntEdge(c, e.score) in row;
      }
    }
  }

  /** Outgoing COUNT on a compacted matrix is the number of distinct children the
      edits gave a node, not the number of edits. */
  lemma CountIsOutDegree(ts: seq<Triplet>, n: nat, k: nat, i: nat)
    requires i < n && i < k
    ensures WellFormed(Build(ts, n))
    ensures Aggregate(Build(ts, n), Count, false, k)[i] == |Children(ts, i, 0, n)| as real
  {
    OutDegree(ts, n, i);
  }

  class Graph {
    var orderedNodes: seq<Node>           // the nodes, indexed by id
    var idToNodes: seq<nat>               // id -> index in orderedNodes
    var idmap: map<Position, nat>         // position -> id
    var edgeMatrix: Matrix                // the compressed edge matrix
    var nextId: nat                       // the id the next new node receives
    var triplets: seq<Triplet>            // every edge added with AddEdge, in order
    var needsCompression: bool            // the matrix may not reflect `triplets`

    /** The edits the current matrix was built from: the bulk constructor's edges, or
        `triplets` as they stood at the last compression. */
    ghost var Loaded: seq<Triplet>

    /** Registry: ids 0 .. nextId-1 each have a slot, and every registered position
        names the slot holding a node at that position. */
    ghost predicate RegistryValid()
      reads this`orderedNodes, this`idToNodes, this`idmap, this`nextId
    {
      && |orderedNodes| == nextId
      && |idToNodes| == nextId
      && (forall i :: 0 <= i < nextId ==> idToNodes[i] == i)
      && (forall p :: p in idmap ==> idmap[p] < nextId && orderedNodes[idmap[p]].pos == p)
    }

    /** Edit buffer: edges only name registered ids. */
    ghost predicate BufferValid()
      reads this`triplets, this`nextId
    {
      AllBelow(triplets, nextId)
    }

    /** Matrix: always a valid CSR; when fresh, square, within the registry, and
        exactly the compaction of the edits it was built from. */
    ghost predicate MatrixValid()
      reads this`edgeMatrix, this`needsCompression, this`Loaded, this`nextId
    {
      && WellFormed(edgeMatrix)
      && (!needsCompression ==>
            && edgeMatrix.rows == edgeMatrix.cols <= nextId
            && AllBelow(Loaded, edgeMatrix.rows)
            && edgeMatrix == Build(Loaded, edgeMatrix.rows))
    }

    ghost predicate Valid()
      reads this
    {
      RegistryValid() && BufferValid() && MatrixValid()
    }

    /** An empty graph: no nodes, no edits, an empty matrix awaiting compression. */
    constructor ()
      ensures Valid()
      ensures orderedNodes == [] && idToNodes == [] && idmap == map[] && nextId == 0
      ensures triplets == [] && needsCompression
      ensures edgeMatrix == Zero(0, 0)
    {
      orderedNodes, idToNodes, idmap, nextId := [], [], map[], 0;
      edgeMatrix := Zero(0, 0);
      triplets, needsCompression := [], true;
      Loaded := [];
    }

    /** The bulk constructor: node i is nodes[i], and its edges go to the ids listed in
        edges[i] with the costs in distances[i]. The matrix is filled one element at a
        time, so no child may be listed twice for the same node. The result is already
        compressed and has no edit buffer. */
    constructor FromEdges(edges: seq<seq<int>>, distances: seq<seq<real>>, nodes: seq<Node>)
      requires |edges| == |nodes| && |nodes| == |distances|
      requires forall i :: 0 <= i < |edges| ==> |edges[i]| == |distances[i]|
      requires forall i, k :: 0 <= i < |edges| && 0 <= k < |edges[i]| ==> 0 <= edges[i][k] < |nodes|
      requires forall i, j :: 0 <= i < j < |nodes| ==> nodes[i].pos != nodes[j].pos
      requires NoRepeatedChildren(edges)
      ensures Valid() && !needsCompression && triplets == []
      ensures orderedNodes == nodes && nextId == |nodes|
      ensures forall i :: 0 <= i < |nodes| ==> nodes[i].pos in idmap && idmap[nodes[i].pos] == i
      ensures idmap.Keys == set n | n in nodes :: n.pos
      ensures edgeMatrix.rows == |nodes|
      ensures Loaded == BulkTriplets(edges, distances)
      ensures forall r, c :: Present(Loaded, r, c) <==> 0 <= r < |edges| && c in edges[r]
      ensures forall i, k :: 0 <= i < |edges| && 0 <= k < |edges[i]| ==>
                Weight(Loaded, i, edges[i][k]) == distances[i][k]
      ensures forall i, k :: 0 <= i < |edges| && 0 <= k < |edges[i]| ==>
                IntEdge(edges[i][k], distances[i][k]) in RowEntries(edgeMatrix, i)
    {
      orderedNodes, idToNodes, idmap, nextId := [], [], map[], 0;
      edgeMatrix := Zero(0, 0);
      triplets, needsCompression := [], true;
      Loaded := [];
      new;
      RegisterAll(nodes);
      var bulk := BulkTriplets(edges, distances);
      BulkBuild(edges, distances, |nodes|);
      edgeMatrix := Build(bulk, |nodes|);
      Loaded := bulk;
      needsCompression := false;
    }

    // -------------------------------------------------------------------------
    // Identity registry

    /** The registration half of the bulk constructor: each node, in order, is given
        the next id. */
    method RegisterAll(nodes: seq<Node>)
      requires Valid() && needsCompression && triplets == [] && nextId == 0
      requires forall i, j :: 0 <= i < j < |nodes| ==> nodes[i].pos != nodes[j].pos
      modifies this
      ensures Valid() && needsCompression && triplets == []
      ensures orderedNodes == nodes && nextId == |nodes|
      ensures forall i :: 0 <= i < |nodes| ==> nodes[i].pos in idmap && idmap[nodes[i].pos] == i
      ensures idmap.Keys == set n | n in nodes :: n.pos
      ensures edgeMatrix == old(edgeMatrix) && Loaded == old(Loaded)
    {
      var i := 0;
      while i < |nodes|
        invariant 0 <= i <= |nodes|
        invariant Valid() && needsCompression && triplets == []
        invariant orderedNodes == nodes[..i] && nextId == i
        invariant forall j :: 0 <= j < i ==> nodes[j].pos in idmap && idmap[nodes[j].pos] == j
        invariant edgeMatrix == old(edgeMatrix) && Loaded == old(Loaded)
      {
        assert forall p | p in idmap :: idmap[p] < i && nodes[idmap[p]].pos == p;
        assert nodes[i].pos !in idmap;
        var id := GetOrAssignNode(nodes[i]);
        assert nodes[..i + 1] == nodes[..i] + [nodes[i]];
        i := i + 1;
      }
      assert nodes[..i] == nodes;
      forall p | p in idmap ensures p in set n | n in nodes :: n.pos {
        assert nodes[idmap[p]] in nodes;
      }
    }

    /** getOrAssignID(Node): the id of n's position, assigning the next id (and
        appending n) when the position is new. */
    method GetOrAssignNode(n: Node) returns (id: nat)
      requires Valid()
      modifies this
      ensures Valid()
      ensures id == if n.pos in old(idmap) then old(idmap)[n.pos] else old(nextId)
      ensures idmap == old(idmap)[n.pos := id]
      ensures nextId == old(nextId) + (if n.pos in old(idmap) then 0 else 1)
      ensures orderedNodes == old(orderedNodes) + (if n.pos in old(idmap) then [] else [n])
      ensures idToNodes == old(idToNodes) + (if n.pos in old(idmap) then [] else [id])
      ensures n.pos in idmap && idmap[n.pos] == id
      ensures triplets == old(triplets) && edgeMatrix == old(edgeMatrix)
      ensures needsCompression == old(needsCompression) && Loaded == old(Loaded)
    {
      if n.pos in idmap {
        id := idmap[n.pos];
      } else {
        id := nextId;
        idmap := idmap[n.pos := id];
        orderedNodes := orderedNodes + [n];
        idToNodes := idToNodes + [id];
        nextId := nextId + 1;
      }
    }

    /** getOrAssignID(int): make sure id has a slot, filling every missing slot up to
        it with a placeholder node. */
    method GetOrAssignId(id: nat) returns (slot: nat)
      requires Valid()
      modifies this
      ensures Valid()
      ensures slot == id && id < nextId
      ensures id < old(nextId) ==> nextId == old(nextId) && orderedNodes == old(orderedNodes)
      ensures old(nextId) <= id ==>
                && nextId == id + 1
                && orderedNodes == old(orderedNodes) + seq(id + 1 - old(nextId), _ => Placeholder)
      ensures idmap == old(idmap)
      ensures triplets == old(triplets) && edgeMatrix == old(edgeMatrix)
      ensures needsCompression == old(needsCompression) && Loaded == old(Loaded)
    {
      ghost var start := nextId;
      while nextId <= id
        invariant Valid()
        invariant start <= nextId <= if start <= id then id + 1 else start
        invariant orderedNodes == old(orderedNodes) + seq(nextId - start, _ => Placeholder)
        invariant idmap == old(idmap)
        invariant triplets == old(triplets) && edgeMatrix == old(edgeMatrix)
        invariant needsCompression == old(needsCompression) && Loaded == old(Loaded)
      {
        orderedNodes := orderedNodes + [Placeholder];
        idToNodes := idToNodes + [nextId];
        nextId := nextId + 1;
      }
      slot := id;
    }

    // -------------------------------------------------------------------------
    // Edit buffer

    /** addEdge(Node, Node, score): register both endpoints and stage one edit. The id
        map gains at most the two endpoints' positions and keeps every existing id; a
        new parent takes the next id, then a new, different child the one after. */
    method AddEdge(parent: Node, child: Node, score: real := 1.0)
      requires Valid()
      modifies this
      ensures Valid() && needsCompression
      ensures parent.pos in idmap && child.pos in idmap
      ensures triplets == old(triplets) + [Triplet(idmap[parent.pos], idmap[child.pos], score)]
      ensures idmap == old(idmap)[parent.pos := idmap[parent.pos]][child.pos := idmap[child.pos]]
      ensures idmap[parent.pos] == if parent.pos in old(idmap) then old(idmap)[parent.pos] else old(nextId)
      ensures idmap[child.pos] ==
                if child.pos in old(idmap) then old(idmap)[child.pos]
                else if child.pos == parent.pos then idmap[parent.pos]
                else old(nextId) + (if parent.pos in old(idmap) then 0 else 1)
      ensures nextId == old(nextId) + (if parent.pos in old(idmap) then 0 else 1)
                + (if child.pos in old(idmap) || child.pos == parent.pos then 0 else 1)
      ensures orderedNodes == old(orderedNodes)
                + (if parent.pos in old(idmap) then [] else [parent])
                + (if child.pos in old(idmap) || child.pos == parent.pos then [] else [child])
      ensures edgeMatrix == old(edgeMatrix) && Loaded == old(Loaded)
    {
      var p := GetOrAssignNode(parent);
      var c := GetOrAssignNode(child);
      triplets := triplets + [Triplet(p, c, score)];
      needsCompression := true;
    }

    /** addEdge(int, int, score): give both ids a slot and stage one edit. */
    method AddEdgeIds(parentId: nat, childId: nat, score: real)
      requires Valid()
      modifies this
      ensures Valid() && needsCompression
      ensures triplets == old(triplets) + [Triplet(parentId, childId, score)]
      ensures parentId < nextId && childId < nextId
      ensures nextId == if parentId < old(nextId) && childId < old(nextId) then old(nextId)
                        else Max(parentId, childId) + 1
      ensures orderedNodes == old(orderedNodes) + seq(nextId - old(nextId), _ => Placeholder)
      ensures idmap == old(idmap)
      ensures edgeMatrix == old(edgeMatrix) && Loaded == old(Loaded)
    {
      ghost var start := nextId;
      var p := GetOrAssignId(parentId);
      ghost var mid := nextId;
      var c := GetOrAssignId(childId);
      assert seq(mid - start, _ => Placeholder) + seq(nextId - mid, _ => Placeholder)
          == seq(nextId - start, _ => Placeholder);
      triplets := triplets + [Triplet(p, c, score)];
      needsCompression := true;
    }

    // -------------------------------------------------------------------------
    // Compactor and export

    /** Compress: a no-op on a fresh graph; otherwise rebuild the matrix from every
        staged edit, sized by the largest id they name. */
    method Compress()
      requires Valid()
      modifies this
      ensures Valid() && !needsCompression
      ensures old(needsCompression) ==>
                edgeMatrix == Build(triplets, Dim(triplets)) && Loaded == triplets
      ensures !old(needsCompression) ==> edgeMatrix == old(edgeMatrix) && Loaded == old(Loaded)
      ensures orderedNodes == old(orderedNodes) && idToNodes == old(idToNodes)
      ensures idmap == old(idmap) && nextId == old(nextId) && triplets == old(triplets)
    {
      if needsCompression {
        var n := Dim(triplets);
        BuildWellFormed(triplets, n);
        edgeMatrix := Build(triplets, n);
        Loaded := triplets;
        needsCompression := false;
      }
    }

    /** GetCSRPointers: compress if needed, then hand out the matrix's three arrays. */
    method GetCsrPointers() returns (ptrs: CsrPtrs)
      requires Valid()
      modifies this
      ensures Valid() && !needsCompression
      ensures ptrs == Export(edgeMatrix) && Import(ptrs) == edgeMatrix
      ensures ptrs.nnz == |edgeMatrix.data| && ptrs.rows == ptrs.cols
      ensures ptrs.AreValid() <==> ptrs.nnz > 0
      ensures old(needsCompression) ==>
                edgeMatrix == Build(triplets, Dim(triplets)) && Loaded == triplets
      ensures !old(needsCompression) ==> edgeMatrix == old(edgeMatrix) && Loaded == old(Loaded)
      ensures orderedNodes == old(orderedNodes) && idToNodes == old(idToNodes)
      ensures idmap == old(idmap) && nextId == old(nextId) && triplets == old(triplets)
    {
      Compress();
      ptrs := Export(edgeMatrix);
      ExportRoundTrip(edgeMatrix);
      ExportValidity(edgeMatrix);
    }

    /** Clear: forget every node and edit; the matrix keeps its shape but loses every
        entry, and the graph needs compression again. */
    method Clear()
      requires Valid()
      modifies this
      ensures Valid() && needsCompression
      ensures orderedNodes == [] && idToNodes == [] && idmap == map[] && nextId == 0
      ensures triplets == [] && Loaded == []
      ensures edgeMatrix == Zero(old(edgeMatrix).rows, old(edgeMatrix).cols)
    {
      edgeMatrix := Zero(edgeMatrix.rows, edgeMatrix.cols);
      triplets := [];
      needsCompression := true;
      orderedNodes, idToNodes, idmap, nextId := [], [], map[], 0;
      Loaded := [];
    }

    // -------------------------------------------------------------------------
    // Edge queries

    /** checkForEdge: scan the parent's row for the child. */
    method CheckForEdge(parent: int, child: int) returns (found: bool)
      requires Valid()
      ensures found <==> HasEntry(edgeMatrix, parent, child)
    {
      if !(0 <= parent < edgeMatrix.rows) {
        return false;
      }
      var k := edgeMatrix.outer[parent];
      var end := edgeMatrix.outer[parent + 1];
      assert edgeMatrix.outer[0] <= k <= end <= edgeMatrix.outer[edgeMatrix.rows];
      ghost var row := RowEntries(edgeMatrix, parent);
      while k < end
        invariant edgeMatrix.outer[parent] <= k <= end
        invariant forall j :: 0 <= j < k - edgeMatrix.outer[parent] ==> row[j].child != child
      {
        if edgeMatrix.inner[k] == child {
          assert row[k - edgeMatrix.outer[parent]].child == child;
          return true;
        }
        k := k + 1;
      }
      return false;
    }

    /** HasEdge(int, int, undirected): whether an edit added the edge parent -> child
        (or, when undirected, child -> parent); ids the graph does not know have no
        edges. Fails on a stale graph. */
    method HasEdgeIds(parent: int, child: int, undirected: bool := false) returns (r: Result<bool>)
      requires Valid()
      ensures r.Err? <==> needsCompression
      ensures r.Err? ==> r.error == NotCompressed
      ensures r.Ok? ==>
                (r.value <==> Present(Loaded, parent, child) || (undirected && Present(Loaded, child, parent)))
    {
      if needsCompression {
        return Err(NotCompressed);
      }
      BuildHasEntry(Loaded, edgeMatrix.rows, parent, child);
      BuildHasEntry(Loaded, edgeMatrix.rows, child, parent);
      var found := CheckForEdge(parent, child);
      if !found && undirected {
        found := CheckForEdge(child, parent);
      }
      return Ok(found);
    }

    /** HasEdge(Node, Node, undirected): looks both nodes up and asks the id overload;
        a node the graph does not know has no edges. */
    method HasEdgeNodes(parent: Node, child: Node, undirected: bool := false) returns (r: Result<bool>)
      requires Valid()
      ensures r.Err? <==> needsCompression
      ensures r.Err? ==> r.error == NotCompressed
      ensures r.Ok? && !(HasKey(parent) && HasKey(child)) ==> r == Ok(false)
      ensures r.Ok? && HasKey(parent) && HasKey(child) ==>
                (r.value <==> Present(Loaded, GetID(parent), GetID(child))
                              || (undirected && Present(Loaded, GetID(child), GetID(parent))))
    {
      r := HasEdgeIds(GetID(parent), GetID(child), undirected);
    }

    /** HasEdge(position, position, undirected): the node overload on the nodes at
        these positions. */
    method HasEdgePositions(parent: Position, child: Position, undirected: bool := false)
      returns (r: Result<bool>)
      requires Valid()
      ensures r.Err? <==> needsCompression
      ensures r.Err? ==> r.error == NotCompressed
      ensures r.Ok? && !(parent in idmap && child in idmap) ==> r == Ok(false)
      ensures r.Ok? && parent in idmap && child in idmap ==>
                (r.value <==> Present(Loaded, idmap[parent], idmap[child])
                              || (undirected && Present(Loaded, idmap[child], idmap[parent])))
    {
      r := HasEdgeNodes(Node(parent, -1), Node(child, -1), undirected);
    }

    /** operator[]: the edges leaving node n, one per distinct child. */
    function EdgesFrom(n: Node): (r: Result<seq<Edge>>)
      reads this
      requires Valid()
      ensures n.pos !in idmap ==> r == Err(OutOfRange)
      ensures n.pos in idmap && needsCompression ==> r == Err(NotCompressed)
      ensures r.Ok? <==> n.pos in idmap && !needsCompression
      ensures r.Ok? ==> |r.value| == |Children(Loaded, idmap[n.pos], 0, edgeMatrix.rows)|
      ensures r.Ok? ==> forall e :: e in r.value <==> IsOutgoingEdge(orderedNodes, Loaded, idmap[n.pos], e)
    {
      if n.pos !in idmap then Err(OutOfRange)
      else if needsCompression then Err(NotCompressed)
      else
        OutgoingEdges(orderedNodes, Loaded, edgeMatrix.rows, idmap[n.pos]);
        OutDegree(Loaded, edgeMatrix.rows, idmap[n.pos]);
        Ok(ToEdges(orderedNodes, RowEntries(edgeMatrix, idmap[n.pos])))
    }

    /** GetUndirectedEdges: the edges leaving n followed by the edges other nodes have
        towards n (each reported with that other node as its child); empty when n is
        not in the graph. */
    function GetUndirectedEdges(n: Node): (r: Result<seq<Edge>>)
      reads this
      requires Valid()
      ensures r.Err? <==> needsCompression
      ensures r.Err? ==> r.error == NotCompressed
      ensures r.Ok? && n.pos !in idmap ==> r.value == []
      ensures r.Ok? && n.pos in idmap ==> forall e :: e in r.value <==> IsUndirectedEdge(orderedNodes, Loaded, idmap[n.pos], e)
    {
      if needsCompression then Err(NotCompressed)
      else if n.pos !in idmap then Ok([])
      else
        UndirectedEdges(orderedNodes, Loaded, edgeMatrix.rows, idmap[n.pos]);
        Ok(ToEdges(orderedNodes, Undirected(edgeMatrix, idmap[n.pos])))
    }

    /** GetEdges: one edge set per node, in id order; each lists, in ascending
        child order, every child some edit connected the parent to, with the summed
        weight of those edits. Fails on a stale graph. */
    function GetEdges(): (r: Result<seq<EdgeSet>>)
      reads this
      requires Valid()
      ensures r.Err? <==> needsCompression
      ensures r.Err? ==> r.error == NotCompressed
      ensures r.Ok? ==> |r.value| == Size()
      ensures r.Ok? ==> forall i :: 0 <= i < |r.value| ==>
                && r.value[i].parent == i
                && StrictlyAscending(r.value[i].children)
                && (forall e :: e in r.value[i].children <==>
                      Present(Loaded, i, e.child) && e.weight == Weight(Loaded, i, e.child))
    {
      if needsCompression then Err(NotCompressed)
      else
        BuildEntries(Loaded, edgeMatrix.rows);
        var m, n := edgeMatrix, nextId;
        Ok(seq(n, i requires 0 <= i < n => EdgeSet(i, RowEntries(m, i))))
    }

    /** AggregateGraph: one score per node, in id order, over the node's outgoing
        edges, or over its edges in both directions when `directed` is set. An
        unknown kind is out_of_range; a stale graph fails. */
    function AggregateGraph(aggType: int, directed: bool := true): (r: Result<seq<real>>)
      reads this
      requires Valid()
      ensures KindOfCode(aggType).None? <==> r == Err(OutOfRange)
      ensures KindOfCode(aggType).Some? && needsCompression <==> r == Err(NotCompressed)
      ensures r.Ok? ==> |r.value| == nextId
      ensures r.Ok? ==> forall i :: 0 <= i < nextId ==>
                r.value[i] == Score(KindOfCode(aggType).value, Contributing(edgeMatrix, i, directed))
    {
      match KindOfCode(aggType)
      case None => Err(OutOfRange)
      case Some(kind) =>
        if needsCompression then Err(NotCompressed)
        else Ok(Aggregate(edgeMatrix, kind, directed, nextId))
    }

    // -------------------------------------------------------------------------
    // Registry queries

    /** NodeFromID: the node with this id; out_of_range for an id without a slot. */
    function NodeFromID(id: int): (r: Result<Node>)
      reads this
      requires Valid()
      ensures r.Ok? <==> 0 <= id < nextId
      ensures r.Err? ==> r.error == OutOfRange
      ensures r.Ok? ==> r.value == orderedNodes[id]
    {
      if 0 <= id < |idToNodes| then Ok(orderedNodes[idToNodes[id]]) else Err(OutOfRange)
    }

    /** getID: the id of n's position, or -1 when the graph has never seen it. */
    function GetID(n: Node): (id: int)
      reads this
      requires Valid()
      ensures -1 <= id < nextId
      ensures id == -1 <==> n.pos !in idmap
      ensures id != -1 ==> NodeFromID(id).Ok? && NodeFromID(id).value.pos == n.pos
    {
      if n.pos in idmap then idmap[n.pos] else -1
    }

    /** hasKey: whether the graph has a node at n's position. */
    function HasKey(n: Node): (b: bool)
      reads this
      requires Valid()
      ensures b <==> GetID(n) != -1
      ensures b ==> NodeFromID(GetID(n)).Ok? && NodeFromID(GetID(n)).value.pos == n.pos
    {
      n.pos in idmap
    }

    /** size: the number of ids handed out so far. */
    function Size(): (n: nat)
      reads this
      requires Valid()
      ensures forall id :: NodeFromID(id).Ok? <==> 0 <= id < n
    {
      |idToNodes|
    }

    /** Nodes: every node, in id order. */
    function Nodes(): (ns: seq<Node>)
      reads this
      requires Valid()
      ensures |ns| == Size()
      ensures forall id :: 0 <= id < |ns| ==> NodeFromID(id) == Ok(ns[id])
    {
      orderedNodes
    }

    /** NodesAsFloat3: the position of every node, in the same order as Nodes. */
    function NodesAsFloat3(): (ps: seq<Position>)
      reads this
      requires Valid()
      ensures |ps| == |Nodes()|
      ensures forall id :: 0 <= id < |ps| ==> ps[id] == Nodes()[id].pos
    {
      var nodes := orderedNodes;
      seq(|nodes|, id requires 0 <= id < |nodes| => nodes[id].pos)
    }
  }
}
