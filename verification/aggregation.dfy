/** Per-node summaries of edge costs (COST_AGGREGATE and AggregateGraph). */
module Aggregation {
  import opened Csr

  datatype Option<T> = None | Some(value: T)

  /** How a node's edge costs are summarised. */
  datatype CostAggregate = Sum | Average | Count

  /** The integer value of each enumerator. */
  function Code(kind: CostAggregate): int {
    match kind
    case Sum => 0
    case Average => 1
    case Count => 2
  }

  /** The enumerator with a given integer value, if any. */
  function KindOfCode(code: int): (kind: Option<CostAggregate>)
    ensures kind.Some? <==> 0 <= code <= 2
    ensures kind.Some? ==> Code(kind.value) == code
  {
    if code == 0 then Some(Sum)
    else if code == 1 then Some(Average)
    else if code == 2 then Some(Count)
    else None
  }

  function RealSum(xs: seq<real>): real {
    if xs == [] then 0.0 else RealSum(xs[..|xs| - 1]) + xs[|xs| - 1]
  }

  /** The sum of the weights of some edges. */
  function TotalWeight(es: seq<IntEdge>): real {
    if es == [] then 0.0 else TotalWeight(es[..|es| - 1]) + es[|es| - 1].weight
  }

  /** The score of one node whose contributing edges are `es`; a node without
      edges averages to 0. */
  function Score(kind: CostAggregate, es: seq<IntEdge>): real {
    match kind
    case Sum => TotalWeight(es)
    case Average => if |es| == 0 then 0.0 else TotalWeight(es) / (|es| as real)
    case Count => |es| as real
  }

  /** The edges that count for node i: its outgoing row, plus, when both directions
      are asked for, the edges other nodes have towards i. */
  function Contributing(m: Matrix, i: int, bothDirections: bool): seq<IntEdge>
    requires Shaped(m)
  {
    if bothDirections then Undirected(m, i) else RowEntries(m, i)
  }

  /** One score per node 0 .. n-1, in id order. */
  function Aggregate(m: Matrix, kind: CostAggregate, bothDirections: bool, n: nat): (scores: seq<real>)
    requires Shaped(m)
    ensures |scores| == n
  {
    seq(n, i requires 0 <= i < n => Score(kind, Contributing(m, i, bothDirections)))
  }

  lemma {:induction false} TotalWeightIsSum(es: seq<IntEdge>, ds: seq<real>)
    requires |es| == |ds|
    requires forall k :: 0 <= k < |es| ==> es[k].weight == ds[k]
    ensures TotalWeight(es) == RealSum(ds)
  {
    if es != [] {
      TotalWeightIsSum(es[..|es| - 1], ds[..|ds| - 1]);
    }
  }

  /** Outgoing aggregation read off the CSR: for a node with a row, SUM is the sum of
      the row's stored values, COUNT is the row's length outer[i+1] - outer[i], and
      AVERAGE is SUM / COUNT (0 for an empty row); a node without a row scores 0. */
  lemma OutgoingScores(m: Matrix, n: nat, i: nat)
    requires Shaped(m) && i < n
    ensures i < m.rows ==>
              && Aggregate(m, Sum, false, n)[i] == RealSum(m.data[m.outer[i]..m.outer[i + 1]])
              && Aggregate(m, Count, false, n)[i] == (m.outer[i + 1] - m.outer[i]) as real
              && Aggregate(m, Average, false, n)[i] ==
                   if m.outer[i + 1] == m.outer[i] then 0.0
                   else Aggregate(m, Sum, false, n)[i] / Aggregate(m, Count, false, n)[i]
    ensures m.rows <= i ==>
              Aggregate(m, Sum, false, n)[i] == Aggregate(m, Count, false, n)[i]
                == Aggregate(m, Average, false, n)[i] == 0.0
  {
    if i < m.rows {
      var es := RowEntries(m, i);
      var ds := m.data[m.outer[i]..m.outer[i + 1]];
      assert m.outer[0] <= m.outer[i] <= m.outer[i + 1] <= m.outer[m.rows];
      TotalWeightIsSum(es, ds);
    }
  }

  lemma {:induction false} PointingNone(es: seq<IntEdge>, p: int, c: int)
    requires forall k :: 0 <= k < |es| ==> es[k].child != c
    ensures Pointing(es, p, c) == []
  {
    if es != [] {
      PointingNone(es[1..], p, c);
    }
  }

  /** A row with strictly ascending columns points at a given column at most once. */
  lemma {:induction false} PointingLength(es: seq<IntEdge>, p: int, c: int)
    requires StrictlyAscending(es)
    ensures |Pointing(es, p, c)| == if exists e :: e in es && e.child == c then 1 else 0
  {
    if es != [] {
      if es[0].child == c {
        PointingNone(es[1..], p, c);
      } else {
        PointingLength(es[1..], p, c);
        assert forall e :: e in es && e.child == c ==> e in es[1..];
      }
    }
  }

  /** The rows r .. rows-1, other than `skip`, that store an entry in column c. */
  ghost function Senders(m: Matrix, c: int, skip: int, r: nat): set<int>
    requires Shaped(m)
  {
    set p | r <= p < m.rows && p != skip && HasEntry(m, p, c)
  }

  /** A stored row points at a given column once if it has an entry there, else never. */
  lemma RowPointingLength(m: Matrix, r: nat, c: int)
    requires WellFormed(m) && r < m.rows
    ensures |Pointing(RowEntries(m, r), r, c)| == if HasEntry(m, r, c) then 1 else 0
  {
    PointingLength(RowEntries(m, r), r, c);
  }

  /** Peeling row r off the senders. */
  lemma SendersStep(m: Matrix, c: int, skip: int, r: nat)
    requires Shaped(m) && r < m.rows
    ensures |Senders(m, c, skip, r)| ==
              (if r != skip && HasEntry(m, r, c) then 1 else 0) + |Senders(m, c, skip, r + 1)|
  {
    var rest := Senders(m, c, skip, r + 1);
    if r != skip && HasEntry(m, r, c) {
      assert Senders(m, c, skip, r) == rest + {r};
      assert r !in rest;
    } else {
      assert Senders(m, c, skip, r) == rest;
    }
  }

  lemma {:induction false} IncomingLength(m: Matrix, c: int, skip: int, r: nat)
    requires WellFormed(m)
    ensures |IncomingFrom(m, c, skip, r)| == |Senders(m, c, skip, r)|
    decreases m.rows - r
  {
    if r < m.rows {
      IncomingLength(m, c, skip, r + 1);
      SendersStep(m, c, skip, r);
      if r != skip {
        var here := Pointing(RowEntries(m, r), r, c);
        assert IncomingFrom(m, c, skip, r) == here + IncomingFrom(m, c, skip, r + 1);
        RowPointingLength(m, r, c);
      } else {
        assert IncomingFrom(m, c, skip, r) == IncomingFrom(m, c, skip, r + 1);
      }
    } else {
      assert Senders(m, c, skip, r) == {};
    }
  }

  /** Aggregating both directions, COUNT is the node's out-degree plus the number of
      other nodes with an edge towards it. */
  lemma BothDirectionsCount(m: Matrix, n: nat, i: nat)
    requires WellFormed(m) && i < n
    ensures Aggregate(m, Count, true, n)[i] ==
              (|RowEntries(m, i)| + |set p | 0 <= p < m.rows && p != i && HasEntry(m, p, i)|) as real
  {
    IncomingLength(m, i, i, 0);
  }
}
