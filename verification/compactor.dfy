/** The write buffer and the compactor: pending (parent, child, weight) edits and
    the CSR rebuilt from all of them, with repeated (parent, child) pairs summed. */
module Compactor {
  import opened Csr

  /** A pending edit: an edge from node `row` to node `col` with cost `value`. */
  datatype Triplet = Triplet(row: nat, col: nat, value: real)

  /** Some edit names the pair (r, c). */
  predicate Present(ts: seq<Triplet>, r: int, c: int) {
    exists i :: 0 <= i < |ts| && ts[i].row == r && ts[i].col == c
  }

  /** The sum of the values of every edit naming (r, c). */
  function Weight(ts: seq<Triplet>, r: int, c: int): real {
    if ts == [] then 0.0
    else
      Weight(ts[..|ts| - 1], r, c) + Contribution(ts[|ts| - 1], r, c)
  }

  /** What one edit adds to the pair (r, c). */
  function Contribution(t: Triplet, r: int, c: int): real {
    if t.row == r && t.col == c then t.value else 0.0
  }

  /** Every edit names ids below n. */
  predicate AllBelow(ts: seq<Triplet>, n: nat) {
    forall i :: 0 <= i < |ts| ==> ts[i].row < n && ts[i].col < n
  }

  function Max(a: nat, b: nat): nat { if a < b then b else a }

  /** The matrix dimension Compress chooses: one more than the largest id any edit
      names, or 0 when there are no edits. */
  function Dim(ts: seq<Triplet>): (n: nat)
    ensures AllBelow(ts, n)
    ensures forall bound: nat :: AllBelow(ts, bound) ==> n <= bound
  {
    if ts == [] then 0
    else
      var last := ts[|ts| - 1];
      var front := ts[..|ts| - 1];
      var n := Max(Dim(front), Max(last.row, last.col) + 1);
      assert forall bound: nat :: AllBelow(ts, bound) ==> AllBelow(front, bound) by {
        forall bound: nat | AllBelow(ts, bound) ensures AllBelow(front, bound) {
          forall i | 0 <= i < |front| ensures front[i].row < bound && front[i].col < bound {
            assert front[i] == ts[i];
          }
        }
      }
      n
  }

  /** Row r of the rebuilt matrix, columns c .. n-1: one entry per named column, in
      ascending column order, holding the summed weight. */
  function RowFrom(ts: seq<Triplet>, r: int, c: nat, n: nat): seq<IntEdge>
    decreases n - c
  {
    if c >= n then []
    else (if Present(ts, r, c) then [IntEdge(c, Weight(ts, r, c))] else []) + RowFrom(ts, r, c + 1, n)
  }

  /** The n x n matrix that Eigen's setFromTriplets produces from the edits `ts`. */
  function Build(ts: seq<Triplet>, n: nat): Matrix {
    FromRows(seq(n, r requires 0 <= r < n => RowFrom(ts, r, 0, n)), n)
  }

  lemma {:induction false} RowFromMember(ts: seq<Triplet>, r: int, c: nat, n: nat, e: IntEdge)
    ensures e in RowFrom(ts, r, c, n) <==>
              c <= e.child < n && Present(ts, r, e.child) && e.weight == Weight(ts, r, e.child)
    decreases n - c
  {
    if c < n {
      RowFromMember(ts, r, c + 1, n, e);
    }
  }

  lemma {:induction false} RowFromAscending(ts: seq<Triplet>, r: int, c: nat, n: nat)
    ensures StrictlyAscending(RowFrom(ts, r, c, n))
    decreases n - c
  {
    if c < n {
      RowFromAscending(ts, r, c + 1, n);
      var tail := RowFrom(ts, r, c + 1, n);
      forall k | 0 <= k < |tail| ensures c < tail[k].child {
        RowFromMember(ts, r, c + 1, n, tail[k]);
      }
    }
  }

  /** The rebuilt matrix is a valid n x n CSR. */
  lemma BuildWellFormed(ts: seq<Triplet>, n: nat)
    ensures WellFormed(Build(ts, n))
    ensures Build(ts, n).rows == n && Build(ts, n).cols == n
  {
    var rows := seq(n, r requires 0 <= r < n => RowFrom(ts, r, 0, n));
    forall r | 0 <= r < n ensures StrictlyAscending(rows[r]) {
      RowFromAscending(ts, r, 0, n);
    }
    forall r: int, e: IntEdge | 0 <= r < n && e in rows[r] ensures 0 <= e.child < n {
      RowFromMember(ts, r, 0, n, e);
    }
    FromRowsWellFormed(rows, n);
  }

  /** Row r of the rebuilt matrix, in storage order. */
  lemma BuildRow(ts: seq<Triplet>, n: nat, r: int)
    ensures WellFormed(Build(ts, n))
    ensures RowEntries(Build(ts, n), r) == if 0 <= r < n then RowFrom(ts, r, 0, n) else []
  {
    BuildWellFormed(ts, n);
    if 0 <= r < n {
      FromRowsRow(seq(n, r requires 0 <= r < n => RowFrom(ts, r, 0, n)), n, r);
    }
  }

  /** Compaction semantics: when the dimension covers every id, row r of the rebuilt
      matrix stores (c, w) exactly when some edit names (r, c) and w is the sum of
      the weights of all edits naming (r, c). */
  lemma BuildEntries(ts: seq<Triplet>, n: nat)
    requires AllBelow(ts, n)
    ensures WellFormed(Build(ts, n))
    ensures forall r: int, e: IntEdge :: e in RowEntries(Build(ts, n), r) <==>
              Present(ts, r, e.child) && e.weight == Weight(ts, r, e.child)
  {
    BuildWellFormed(ts, n);
    forall r: int, e: IntEdge
      ensures e in RowEntries(Build(ts, n), r) <==>
                Present(ts, r, e.child) && e.weight == Weight(ts, r, e.child)
    {
      BuildRow(ts, n, r);
      RowFromMember(ts, r, 0, n, e);
      if Present(ts, r, e.child) {
        var i :| 0 <= i < |ts| && ts[i].row == r && ts[i].col == e.child;
      }
    }
  }

  /** The edge (r, c) is stored after compaction exactly when some edit added it. */
  lemma BuildHasEntry(ts: seq<Triplet>, n: nat, r: int, c: int)
    requires AllBelow(ts, n)
    ensures WellFormed(Build(ts, n))
    ensures HasEntry(Build(ts, n), r, c) <==> Present(ts, r, c)
  {
    BuildEntries(ts, n);
    if Present(ts, r, c) {
      assert IntEdge(c, Weight(ts, r, c)) in RowEntries(Build(ts, n), r);
    }
  }

  lemma {:induction false} RowFromEmpty(ts: seq<Triplet>, r: int, c: nat, n: nat, bound: nat)
    requires forall x :: bound <= x ==> !Present(ts, r, x)
    requires bound <= c
    ensures RowFrom(ts, r, c, n) == []
    decreases n - c
  {
    if c < n {
      RowFromEmpty(ts, r, c + 1, n, bound);
    }
  }

  lemma {:induction false} RowFromStable(ts: seq<Triplet>, r: int, c: nat, n1: nat, n2: nat)
    requires AllBelow(ts, n1) && n1 <= n2
    ensures RowFrom(ts, r, c, n1) == RowFrom(ts, r, c, n2)
    decreases n1 - c
  {
    if c < n1 {
      RowFromStable(ts, r, c + 1, n1, n2);
    } else {
      forall x | n1 <= x ensures !Present(ts, r, x) {
      }
      RowFromEmpty(ts, r, c, n2, n1);
    }
  }

  /** Growing the dimension beyond the largest id only adds empty rows: every row
      reads the same, so the edge lists agree whichever covering size is chosen. */
  lemma BuildDimensionIrrelevant(ts: seq<Triplet>, n1: nat, n2: nat, r: int)
    requires AllBelow(ts, n1) && n1 <= n2
    ensures WellFormed(Build(ts, n1)) && WellFormed(Build(ts, n2))
    ensures RowEntries(Build(ts, n1), r) == RowEntries(Build(ts, n2), r)
  {
    BuildRow(ts, n1, r);
    BuildRow(ts, n2, r);
    if 0 <= r < n1 {
      RowFromStable(ts, r, 0, n1, n2);
    } else if n1 <= r < n2 {
      forall x | 0 <= x ensures !Present(ts, r, x) {
      }
      RowFromEmpty(ts, r, 0, n2, 0);
    }
  }

  /** The ids c .. n-1 that some edit connects r to. */
  function Children(ts: seq<Triplet>, r: int, c: nat, n: nat): set<nat> {
    set x: nat | c <= x < n && Present(ts, r, x)
  }

  lemma {:induction false} RowFromLength(ts: seq<Triplet>, r: int, c: nat, n: nat)
    ensures |RowFrom(ts, r, c, n)| == |Children(ts, r, c, n)|
    decreases n - c
  {
    if c < n {
      RowFromLength(ts, r, c + 1, n);
      if Present(ts, r, c) {
        assert Children(ts, r, c, n) == {c} + Children(ts, r, c + 1, n);
      } else {
        assert Children(ts, r, c, n) == Children(ts, r, c + 1, n);
      }
    } else {
      assert Children(ts, r, c, n) == {};
    }
  }

  /** Row r of the rebuilt matrix holds one entry per distinct child: however many
      times an edge was added, it is stored once. */
  lemma OutDegree(ts: seq<Triplet>, n: nat, r: int)
    ensures WellFormed(Build(ts, n))
    ensures 0 <= r < n ==> |RowEntries(Build(ts, n), r)| == |Children(ts, r, 0, n)|
  {
    BuildRow(ts, n, r);
    if 0 <= r < n {
      RowFromLength(ts, r, 0, n);
    }
  }

  /** Scenario: after the single edit 0 -> 1, the rebuilt matrix stores 0 -> 1 but not 1 -> 0. */
  lemma DirectedEdgeScenario()
    ensures WellFormed(Build([Triplet(0, 1, 2.5)], 2))
    ensures HasEntry(Build([Triplet(0, 1, 2.5)], 2), 0, 1)
    ensures !HasEntry(Build([Triplet(0, 1, 2.5)], 2), 1, 0)
  {
    var ts := [Triplet(0, 1, 2.5)];
    BuildHasEntry(ts, 2, 0, 1);
    BuildHasEntry(ts, 2, 1, 0);
    assert ts[0].row == 0 && ts[0].col == 1;
  }

  // ---------------------------------------------------------------------------
  // The order of the edits does not matter

  lemma {:induction false} WeightAppend(a: seq<Triplet>, b: seq<Triplet>, r: int, c: int)
    ensures Weight(a + b, r, c) == Weight(a, r, c) + Weight(b, r, c)
    decreases |b|
  {
    if b == [] {
      assert a + b == a;
    } else {
      WeightAppend(a, b[..|b| - 1], r, c);
      assert (a + b)[..|a + b| - 1] == a + b[..|b| - 1];
    }
  }

  lemma WeightSingle(t: Triplet, r: int, c: int)
    ensures Weight([t], r, c) == Contribution(t, r, c)
  {
    assert [t][..0] == [];
  }

  /** The summed weight of a pair depends only on which edits were staged, not on their order. */
  lemma {:induction false} WeightReordered(ts1: seq<Triplet>, ts2: seq<Triplet>, r: int, c: int)
    requires multiset(ts1) == multiset(ts2)
    ensures Weight(ts1, r, c) == Weight(ts2, r, c)
    decreases |ts1|
  {
    if ts1 == [] {
      assert |ts2| == |multiset(ts2)| == 0;
    } else {
      var x := ts1[|ts1| - 1];
      var front := ts1[..|ts1| - 1];
      assert ts1 == front + [x];
      assert x in multiset(ts2);
      var j :| 0 <= j < |ts2| && ts2[j] == x;
      var before, after := ts2[..j], ts2[j + 1..];
      assert ts2 == before + [x] + after;
      assert multiset(ts1) == multiset(front) + multiset{x};
      assert multiset(ts2) == multiset(before) + multiset{x} + multiset(after);
      assert multiset(before + after) == multiset(before) + multiset(after);
      calc {
        multiset(front);
        multiset(ts1) - multiset{x};
        (multiset(before) + multiset(after) + multiset{x}) - multiset{x};
        multiset(before + after);
      }
      WeightReordered(front, before + after, r, c);
      WeightAppend(before + [x], after, r, c);
      WeightAppend(before, [x], r, c);
      WeightAppend(before, after, r, c);
      WeightSingle(x, r, c);
    }
  }

  /** Whether a pair is named depends only on which edits were staged, not on their order. */
  lemma PresentReordered(ts1: seq<Triplet>, ts2: seq<Triplet>, r: int, c: int)
    requires multiset(ts1) == multiset(ts2)
    ensures Present(ts1, r, c) <==> Present(ts2, r, c)
  {
    if Present(ts1, r, c) {
      var i :| 0 <= i < |ts1| && ts1[i].row == r && ts1[i].col == c;
      assert ts1[i] in multiset(ts2);
      var j :| 0 <= j < |ts2| && ts2[j] == ts1[i];
    }
    if Present(ts2, r, c) {
      var j :| 0 <= j < |ts2| && ts2[j].row == r && ts2[j].col == c;
      assert ts2[j] in multiset(ts1);
      var i :| 0 <= i < |ts1| && ts1[i] == ts2[j];
    }
  }

  lemma {:induction false} RowFromRespects(ts1: seq<Triplet>, ts2: seq<Triplet>, r: int, c: nat, n: nat)
    requires forall x :: Present(ts1, r, x) == Present(ts2, r, x) && Weight(ts1, r, x) == Weight(ts2, r, x)
    ensures RowFrom(ts1, r, c, n) == RowFrom(ts2, r, c, n)
    decreases n - c
  {
    if c < n {
      RowFromRespects(ts1, ts2, r, c + 1, n);
    }
  }

  /** Compaction sees the edits only through which pairs they name and the summed weights. */
  lemma BuildRespects(ts1: seq<Triplet>, ts2: seq<Triplet>, n: nat)
    requires forall r, c :: Present(ts1, r, c) == Present(ts2, r, c) && Weight(ts1, r, c) == Weight(ts2, r, c)
    ensures Build(ts1, n) == Build(ts2, n)
  {
    var rows1 := seq(n, r requires 0 <= r < n => RowFrom(ts1, r, 0, n));
    var rows2 := seq(n, r requires 0 <= r < n => RowFrom(ts2, r, 0, n));
    forall r | 0 <= r < n ensures rows1[r] == rows2[r] {
      RowFromRespects(ts1, ts2, r, 0, n);
    }
    assert rows1 == rows2;
  }

  /** The same edits staged in any order compact into the same matrix. */
  lemma ReorderedEditsBuildAlike(ts1: seq<Triplet>, ts2: seq<Triplet>, n: nat)
    requires multiset(ts1) == multiset(ts2)
    ensures Build(ts1, n) == Build(ts2, n)
  {
    forall r, c ensures Present(ts1, r, c) == Present(ts2, r, c) && Weight(ts1, r, c) == Weight(ts2, r, c) {
      PresentReordered(ts1, ts2, r, c);
      WeightReordered(ts1, ts2, r, c);
    }
    BuildRespects(ts1, ts2, n);
  }

  /** No node lists the same child twice. */
  predicate NoRepeatedChildren(edges: seq<seq<int>>) {
    forall i, k1, k2 :: 0 <= i < |edges| && 0 <= k1 < k2 < |edges[i]| ==> edges[i][k1] != edges[i][k2]
  }

  /** The edits the bulk constructor stands for: for each node i, one edit
      (i, edges[i][k], distances[i][k]) per k, node by node. */
  function BulkTriplets(edges: seq<seq<int>>, distances: seq<seq<real>>): (ts: seq<Triplet>)
    requires |edges| == |distances|
    requires forall i :: 0 <= i < |edges| ==> |edges[i]| == |distances[i]|
    requires forall i, k :: 0 <= i < |edges| && 0 <= k < |edges[i]| ==> edges[i][k] >= 0
  {
    if edges == [] then []
    else
      var i := |edges| - 1;
      BulkTriplets(edges[..i], distances[..i]) + Block(i, edges[i], distances[i])
  }

  /** One node's bulk edits: (row, cs[k], ds[k]) for each k, in order. */
  function Block(row: nat, cs: seq<int>, ds: seq<real>): seq<Triplet>
    requires |cs| == |ds|
    requires forall k :: 0 <= k < |cs| ==> cs[k] >= 0
  {
    seq(|cs|, k requires 0 <= k < |cs| => Triplet(row, cs[k], ds[k]))
  }

  /** A pair no edit names has summed weight 0. */
  lemma {:induction false} WeightNotNamed(ts: seq<Triplet>, r: int, c: int)
    requires !Present(ts, r, c)
    ensures Weight(ts, r, c) == 0.0
  {
    if ts != [] {
      var front := ts[..|ts| - 1];
      assert !Present(front, r, c) by {
        forall j | 0 <= j < |front| ensures !(front[j].row == r && front[j].col == c) {
          assert front[j] == ts[j];
        }
      }
      WeightNotNamed(front, r, c);
    }
  }

  /** In one node's block with no repeated child, the edge to cs[k] weighs exactly ds[k]. */
  lemma {:induction false} BlockWeight(row: nat, cs: seq<int>, ds: seq<real>, k: nat)
    requires |cs| == |ds|
    requires forall j :: 0 <= j < |cs| ==> cs[j] >= 0
    requires forall j1, j2 :: 0 <= j1 < j2 < |cs| ==> cs[j1] != cs[j2]
    requires k < |cs|
    ensures Weight(Block(row, cs, ds), row, cs[k]) == ds[k]
  {
    var m := |cs| - 1;
    var b := Block(row, cs, ds);
    var front := Block(row, cs[..m], ds[..m]);
    assert b[..m] == front;
    assert b[m] == Triplet(row, cs[m], ds[m]);
    if k == m {
      assert !Present(front, row, cs[k]) by {
        forall j | 0 <= j < |front| ensures front[j].col != cs[k] {
          assert front[j].col == cs[j];
        }
      }
      WeightNotNamed(front, row, cs[k]);
    } else {
      BlockWeight(row, cs[..m], ds[..m], k);
    }
  }

  /** The bulk edits give the edge from node i to edges[i][k] exactly the cost
      distances[i][k], provided no node lists a child twice. */
  lemma {:induction false} BulkTripletsWeight(edges: seq<seq<int>>, distances: seq<seq<real>>, i: nat, k: nat)
    requires |edges| == |distances|
    requires forall j :: 0 <= j < |edges| ==> |edges[j]| == |distances[j]|
    requires forall j, l :: 0 <= j < |edges| && 0 <= l < |edges[j]| ==> edges[j][l] >= 0
    requires NoRepeatedChildren(edges)
    requires i < |edges| && k < |edges[i]|
    ensures Weight(BulkTriplets(edges, distances), i, edges[i][k]) == distances[i][k]
  {
    var n := |edges| - 1;
    var c := edges[i][k];
    var front := BulkTriplets(edges[..n], distances[..n]);
    var last := Block(n, edges[n], distances[n]);
    WeightAppend(front, last, i, c);
    if i < n {
      assert edges[..n][i] == edges[i] && distances[..n][i] == distances[i];
      BulkTripletsWeight(edges[..n], distances[..n], i, k);
      assert !Present(last, i, c);
      WeightNotNamed(last, i, c);
    } else {
      BulkTripletsPresent(edges[..n], distances[..n], i, c);
      WeightNotNamed(front, i, c);
      BlockWeight(n, edges[n], distances[n], k);
    }
  }

  /** The bulk edits name (r, c) exactly when c is listed among r's children. */
  lemma {:induction false} BulkTripletsPresent(edges: seq<seq<int>>, distances: seq<seq<real>>, r: int, c: int)
    requires |edges| == |distances|
    requires forall i :: 0 <= i < |edges| ==> |edges[i]| == |distances[i]|
    requires forall i, k :: 0 <= i < |edges| && 0 <= k < |edges[i]| ==> edges[i][k] >= 0
    ensures Present(BulkTriplets(edges, distances), r, c) <==> 0 <= r < |edges| && c in edges[r]
  {
    if edges != [] {
      var i := |edges| - 1;
      var front := BulkTriplets(edges[..i], distances[..i]);
      var last := Block(i, edges[i], distances[i]);
      var ts := front + last;
      BulkTripletsPresent(edges[..i], distances[..i], r, c);
      if Present(ts, r, c) {
        var j :| 0 <= j < |ts| && ts[j].row == r && ts[j].col == c;
        if j >= |front| {
          assert edges[i][j - |front|] == c;
        }
      }
      if 0 <= r < |edges| && c in edges[r] {
        if r < i {
          assert edges[..i][r] == edges[r];
          var j :| 0 <= j < |front| && front[j].row == r && front[j].col == c;
          assert ts[j] == front[j];
        } else {
          var k :| 0 <= k < |edges[i]| && edges[i][k] == c;
          assert ts[|front| + k] == last[k];
        }
      }
    }
  }

  /** The bulk edits name only parents below |edges| and children below any bound on the listed ids. */
  lemma {:induction false} BulkTripletsBelow(edges: seq<seq<int>>, distances: seq<seq<real>>, n: nat)
    requires |edges| == |distances| <= n
    requires forall i :: 0 <= i < |edges| ==> |edges[i]| == |distances[i]|
    requires forall i, k :: 0 <= i < |edges| && 0 <= k < |edges[i]| ==> 0 <= edges[i][k] < n
    ensures AllBelow(BulkTriplets(edges, distances), n)
  {
    if edges != [] {
      var i := |edges| - 1;
      BulkTripletsBelow(edges[..i], distances[..i], n);
    }
  }

  /** The matrix built from the bulk edits of n nodes holds, in row i, the edge to
      edges[i][k] with cost distances[i][k], and no edge to a child edges[i] omits. */
  lemma BulkBuild(edges: seq<seq<int>>, distances: seq<seq<real>>, n: nat)
    requires |edges| == |distances| == n
    requires forall i :: 0 <= i < |edges| ==> |edges[i]| == |distances[i]|
    requires forall i, k :: 0 <= i < |edges| && 0 <= k < |edges[i]| ==> 0 <= edges[i][k] < n
    requires NoRepeatedChildren(edges)
    ensures AllBelow(BulkTriplets(edges, distances), n)
    ensures WellFormed(Build(BulkTriplets(edges, distances), n))
    ensures forall r, c :: Present(BulkTriplets(edges, distances), r, c) <==> 0 <= r < |edges| && c in edges[r]
    ensures forall i, k :: 0 <= i < |edges| && 0 <= k < |edges[i]| ==>
              Weight(BulkTriplets(edges, distances), i, edges[i][k]) == distances[i][k]
    ensures forall i, k :: 0 <= i < |edges| && 0 <= k < |edges[i]| ==>
              IntEdge(edges[i][k], distances[i][k]) in RowEntries(Build(BulkTriplets(edges, distances), n), i)
  {
    var bulk := BulkTriplets(edges, distances);
    BulkTripletsBelow(edges, distances, n);
    BuildEntries(bulk, n);
    forall r, c ensures Present(bulk, r, c) <==> 0 <= r < |edges| && c in edges[r] {
      BulkTripletsPresent(edges, distances, r, c);
    }
    forall i, k | 0 <= i < |edges| && 0 <= k < |edges[i]|
      ensures Weight(bulk, i, edges[i][k]) == distances[i][k]
      ensures IntEdge(edges[i][k], distances[i][k]) in RowEntries(Build(bulk, n), i)
    {
      BulkTripletsWeight(edges, distances, i, k);
      BulkTripletsPresent(edges, distances, i, edges[i][k]);
    }
  }

  lemma DuplicateEditsRow()
    ensures RowFrom([Triplet(0, 1, 3.0), Triplet(0, 1, 4.0)], 0, 0, 2) == [IntEdge(1, 7.0)]
  {
    var first, second := Triplet(0, 1, 3.0), Triplet(0, 1, 4.0);
    var ts := [first, second];
    assert ts == [first] + [second];
    WeightAppend([first], [second], 0, 1);
    WeightSingle(first, 0, 1);
    WeightSingle(second, 0, 1);
    assert Present(ts, 0, 1) by { assert ts[0].row == 0 && ts[0].col == 1; }
    assert !Present(ts, 0, 0) by { assert ts[0].col == 1 && ts[1].col == 1; }
    assert RowFrom(ts, 0, 2, 2) == [];
    assert RowFrom(ts, 0, 1, 2) == [IntEdge(1, 7.0)];
  }

  /** Scenario: two edits of the same edge (weights 3 and 4) compact into one stored entry of weight 7. */
  lemma DuplicateEditsAreSummed()
    ensures WellFormed(Build([Triplet(0, 1, 3.0), Triplet(0, 1, 4.0)], 2))
    ensures RowEntries(Build([Triplet(0, 1, 3.0), Triplet(0, 1, 4.0)], 2), 0) == [IntEdge(1, 7.0)]
  {
    BuildRow([Triplet(0, 1, 3.0), Triplet(0, 1, 4.0)], 2, 0);
    DuplicateEditsRow();
  }

  /** Staging the bulk constructor's edges with addEdge, in any order, and compacting
      gives every node the same stored edges as the bulk constructor does. */
  lemma CompactionMatchesBulk(ts: seq<Triplet>, edges: seq<seq<int>>, distances: seq<seq<real>>, r: int)
    requires |edges| == |distances|
    requires forall i :: 0 <= i < |edges| ==> |edges[i]| == |distances[i]|
    requires forall i, k :: 0 <= i < |edges| && 0 <= k < |edges[i]| ==> 0 <= edges[i][k] < |edges|
    requires multiset(ts) == multiset(BulkTriplets(edges, distances))
    ensures WellFormed(Build(ts, Dim(ts))) && WellFormed(Build(BulkTriplets(edges, distances), |edges|))
    ensures RowEntries(Build(ts, Dim(ts)), r) == RowEntries(Build(BulkTriplets(edges, distances), |edges|), r)
  {
    var bulk := BulkTriplets(edges, distances);
    BulkTripletsBelow(edges, distances, |edges|);
    forall i | 0 <= i < |ts| ensures ts[i].row < |edges| && ts[i].col < |edges| {
      assert ts[i] in multiset(bulk);
      var j :| 0 <= j < |bulk| && bulk[j] == ts[i];
    }
    assert AllBelow(ts, |edges|);
    BuildDimensionIrrelevant(ts, Dim(ts), |edges|, r);
    ReorderedEditsBuildAlike(ts, bulk, |edges|);
    BuildWellFormed(bulk, |edges|);
  }
}
