/** Row-major compressed sparse matrices (CSR): the layout of the graph's
    edge matrix, and the three-array view of it handed to external clients. */
module Csr {

  /** One stored entry of a row: its column (the child id) and its value (the edge weight). */
  datatype IntEdge = IntEdge(child: int, weight: real)

  /** A rows x cols sparse matrix. Row r occupies positions outer[r] .. outer[r+1]-1
      of `data` (values) and `inner` (column indices). */
  datatype Matrix = Matrix(rows: nat, cols: nat, data: seq<real>, outer: seq<int>, inner: seq<int>)

  /** The offsets delimit consecutive, non-overlapping row ranges that cover `data` and `inner`. */
  ghost predicate Shaped(m: Matrix) {
    && |m.outer| == m.rows + 1
    && m.outer[0] == 0
    && m.outer[m.rows] == |m.data| == |m.inner|
    && (forall r1, r2 :: 0 <= r1 <= r2 <= m.rows ==> m.outer[r1] <= m.outer[r2])
  }

  /** The entries of row r in storage order; rows outside the matrix have none. */
  function RowEntries(m: Matrix, r: int): (es: seq<IntEdge>)
    requires Shaped(m)
    ensures 0 <= r < m.rows ==> |es| == m.outer[r + 1] - m.outer[r]
    ensures !(0 <= r < m.rows) ==> es == []
  {
    if 0 <= r < m.rows then
      var lo, hi := m.outer[r], m.outer[r + 1];
      seq(hi - lo, k requires 0 <= k < hi - lo => IntEdge(m.inner[lo + k], m.data[lo + k]))
    else
      []
  }

  ghost predicate StrictlyAscending(es: seq<IntEdge>) {
    forall i, j :: 0 <= i < j < |es| ==> es[i].child < es[j].child
  }

  /** A valid CSR: well-shaped, every column index in range, and columns strictly
      ascending within each row (so a (row, column) pair is stored at most once). */
  ghost predicate WellFormed(m: Matrix) {
    && Shaped(m)
    && (forall k :: 0 <= k < |m.inner| ==> 0 <= m.inner[k] < m.cols)
    && (forall r :: 0 <= r < m.rows ==> StrictlyAscending(RowEntries(m, r)))
  }

  /** Row r stores an entry in column c. */
  ghost predicate HasEntry(m: Matrix, r: int, c: int)
    requires Shaped(m)
  {
    exists e :: e in RowEntries(m, r) && e.child == c
  }

  lemma RowEntriesInRange(m: Matrix, r: int, e: IntEdge)
    requires WellFormed(m) && e in RowEntries(m, r)
    ensures 0 <= r < m.rows && 0 <= e.child < m.cols
  {
    var es := RowEntries(m, r);
    var k :| 0 <= k < |es| && es[k] == e;
    assert m.inner[m.outer[r] + k] == e.child;
  }

  /** The matrix with the given shape and no stored entries. */
  function Zero(rows: nat, cols: nat): (m: Matrix)
    ensures WellFormed(m) && m.rows == rows && m.cols == cols
    ensures forall r :: RowEntries(m, r) == []
  {
    Matrix(rows, cols, [], seq(rows + 1, _ => 0), [])
  }

  // ---------------------------------------------------------------------------
  // Building a matrix from its rows

  /** The rows laid end to end. */
  function Flatten(rows: seq<seq<IntEdge>>): seq<IntEdge> {
    if rows == [] then [] else Flatten(rows[..|rows| - 1]) + rows[|rows| - 1]
  }

  /** The CSR whose row r holds exactly rows[r]. */
  function FromRows(rows: seq<seq<IntEdge>>, cols: nat): Matrix {
    var flat := Flatten(rows);
    Matrix(|rows|, cols,
      seq(|flat|, k requires 0 <= k < |flat| => flat[k].weight),
      seq(|rows| + 1, r requires 0 <= r <= |rows| => |Flatten(rows[..r])|),
      seq(|flat|, k requires 0 <= k < |flat| => flat[k].child))
  }

  lemma {:induction false} FlattenPrefix(rows: seq<seq<IntEdge>>, i: nat, j: nat)
    requires i <= j <= |rows|
    ensures Flatten(rows[..i]) <= Flatten(rows[..j])
    decreases j - i
  {
    if i < j {
      FlattenPrefix(rows, i, j - 1);
      assert rows[..j][..j - 1] == rows[..j - 1];
    }
  }

  lemma {:induction false} FlattenMember(rows: seq<seq<IntEdge>>, e: IntEdge)
    requires e in Flatten(rows)
    ensures exists r :: 0 <= r < |rows| && e in rows[r]
  {
    if rows != [] {
      var front := rows[..|rows| - 1];
      if e in Flatten(front) {
        FlattenMember(front, e);
        var r :| 0 <= r < |front| && e in front[r];
        assert e in rows[r];
      } else {
        assert e in rows[|rows| - 1];
      }
    }
  }

  /** Building from rows and reading the rows back is the identity. */
  lemma FromRowsRow(rows: seq<seq<IntEdge>>, cols: nat, r: nat)
    requires r < |rows|
    ensures Shaped(FromRows(rows, cols))
    ensures RowEntries(FromRows(rows, cols), r) == rows[r]
  {
    FromRowsShaped(rows, cols);
    var m := FromRows(rows, cols);
    var flat := Flatten(rows);
    var a := Flatten(rows[..r]);
    var b := Flatten(rows[..r + 1]);
    assert rows[..r + 1][..r] == rows[..r];
    assert b == a + rows[r];
    FlattenPrefix(rows, r + 1, |rows|);
    assert rows[..|rows|] == rows;
    assert m.outer[r] == |a| && m.outer[r + 1] == |b|;
    var es := RowEntries(m, r);
    assert |es| == |rows[r]|;
    forall k | 0 <= k < |es|
      ensures es[k] == rows[r][k]
    {
      assert flat[|a| + k] == b[|a| + k] == rows[r][k];
    }
  }

  lemma FromRowsShaped(rows: seq<seq<IntEdge>>, cols: nat)
    ensures Shaped(FromRows(rows, cols))
  {
    var m := FromRows(rows, cols);
    assert rows[..|rows|] == rows;
    assert rows[..0] == [];
    forall r1, r2 | 0 <= r1 <= r2 <= m.rows
      ensures m.outer[r1] <= m.outer[r2]
    {
      FlattenPrefix(rows, r1, r2);
    }
  }

  /** Rows whose columns are ascending and in range give a well-formed CSR. */
  lemma FromRowsWellFormed(rows: seq<seq<IntEdge>>, cols: nat)
    requires forall r :: 0 <= r < |rows| ==> StrictlyAscending(rows[r])
    requires forall r, e :: 0 <= r < |rows| && e in rows[r] ==> 0 <= e.child < cols
    ensures WellFormed(FromRows(rows, cols))
  {
    var m := FromRows(rows, cols);
    FromRowsShaped(rows, cols);
    var flat := Flatten(rows);
    forall k | 0 <= k < |m.inner|
      ensures 0 <= m.inner[k] < cols
    {
      assert flat[k] in flat;
      FlattenMember(rows, flat[k]);
    }
    forall r | 0 <= r < m.rows
      ensures StrictlyAscending(RowEntries(m, r))
    {
      FromRowsRow(rows, cols, r);
    }
  }

  // ---------------------------------------------------------------------------
  // Edges pointing into a column

  /** The entries of `es` (a row of parent p) that point at column c, as (p, weight) pairs. */
  function Pointing(es: seq<IntEdge>, p: int, c: int): seq<IntEdge> {
    if es == [] then []
    else (if es[0].child == c then [IntEdge(p, es[0].weight)] else []) + Pointing(es[1..], p, c)
  }

  lemma {:induction false} PointingMember(es: seq<IntEdge>, p: int, c: int, e: IntEdge)
    ensures e in Pointing(es, p, c) <==> e.child == p && IntEdge(c, e.weight) in es
  {
    if es != [] {
      PointingMember(es[1..], p, c, e);
      assert es == [es[0]] + es[1..];
    }
  }

  /** Incoming entries of column c found in rows r .. rows-1 other than row `skip`,
      in row order, each given as (parent row, weight). */
  function IncomingFrom(m: Matrix, c: int, skip: int, r: nat): seq<IntEdge>
    requires Shaped(m)
    decreases m.rows - r
  {
    if r >= m.rows then []
    else if r == skip then IncomingFrom(m, c, skip, r + 1)
    else Pointing(RowEntries(m, r), r, c) + IncomingFrom(m, c, skip, r + 1)
  }

  lemma {:induction false} IncomingFromMember(m: Matrix, c: int, skip: int, r: nat, e: IntEdge)
    requires Shaped(m)
    ensures e in IncomingFrom(m, c, skip, r) <==>
              r <= e.child && e.child != skip && IntEdge(c, e.weight) in RowEntries(m, e.child)
    decreases m.rows - r
  {
    if r < m.rows {
      IncomingFromMember(m, c, skip, r + 1, e);
      if r != skip {
        var row := RowEntries(m, r);
        PointingMember(row, r, c, e);
        assert IncomingFrom(m, c, skip, r) == Pointing(row, r, c) + IncomingFrom(m, c, skip, r + 1);
        if e.child == r {
          assert RowEntries(m, e.child) == row;
        }
      } else {
        assert IncomingFrom(m, c, skip, r) == IncomingFrom(m, c, skip, r + 1);
      }
    }
  }

  /** The edges of node i seen as undirected: its own row, then every entry of
      another row that points at i, reported as (that row, weight). */
  function Undirected(m: Matrix, i: int): seq<IntEdge>
    requires Shaped(m)
  {
    RowEntries(m, i) + IncomingFrom(m, i, i, 0)
  }

  /** An (x, w) pair is reported for i exactly when i stores (x, w), or when a
      different node x stores (i, w). */
  lemma UndirectedMember(m: Matrix, i: int, e: IntEdge)
    requires Shaped(m)
    ensures e in Undirected(m, i) <==>
              e in RowEntries(m, i) || (e.child != i && IntEdge(i, e.weight) in RowEntries(m, e.child))
  {
    IncomingFromMember(m, i, i, 0, e);
    if e.child < 0 {
      assert RowEntries(m, e.child) == [];
    }
  }

  // ---------------------------------------------------------------------------
  // Export: the three arrays handed to external clients

  /** A borrowed array that Eigen reports as a null pointer when it holds nothing. */
  datatype Nullable<T> = Null | NonNull(elems: T)

  /** The CSR export record: sizes plus the data, outer-index and inner-index arrays. */
  datatype CsrPtrs = CsrPtrs(
    nnz: int, rows: int, cols: int,
    data: Nullable<seq<real>>, outerIndices: Nullable<seq<int>>, innerIndices: Nullable<seq<int>>)
  {
    /** All three arrays are present (non-null). */
    predicate AreValid() {
      data.NonNull? && outerIndices.NonNull? && innerIndices.NonNull?
    }
  }

  function View<T>(s: seq<T>): Nullable<seq<T>> {
    if s == [] then Null else NonNull(s)
  }

  function Elems<T>(p: Nullable<seq<T>>): seq<T> {
    if p.Null? then [] else p.elems
  }

  /** The export of a matrix: its sizes and views of its three arrays. */
  function Export(m: Matrix): CsrPtrs {
    CsrPtrs(|m.data|, m.rows, m.cols, View(m.data), View(m.outer), View(m.inner))
  }

  /** How a client rebuilds a matrix from an export record. */
  function Import(p: CsrPtrs): Matrix {
    Matrix(if p.rows < 0 then 0 else p.rows, if p.cols < 0 then 0 else p.cols,
           Elems(p.data), Elems(p.outerIndices), Elems(p.innerIndices))
  }

  /** The export loses nothing: a client rebuilding from it gets the matrix back. */
  lemma ExportRoundTrip(m: Matrix)
    ensures Import(Export(m)) == m
  {
  }

  /** An exported well-formed matrix carries rows + 1 offsets and nnz entries, and it
      is valid (no null array) exactly when it stores at least one entry. */
  lemma ExportValidity(m: Matrix)
    requires WellFormed(m)
    ensures Export(m).AreValid() <==> Export(m).nnz > 0
    ensures Export(m).nnz == Export(m).outerIndices.elems[Export(m).rows]
    ensures |Elems(Export(m).outerIndices)| == Export(m).rows + 1
  {
  }
}
