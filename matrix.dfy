/** The sparse matrix of the engine (src/math/matrix.go): the transposed link graph in
    compressed sparse row form. Row i lists the nodes that link TO node i, and the
    stored value is the weight of that link. */
module Matrix {
  import opened Vectors

  /** The abstract value of a CSRMatrix: its row count and the contents of its three arrays. */
  datatype Csr = Csr(rows: nat, values: seq<real>, cols: seq<nat>, ptrs: seq<nat>)
  {
    /** The documented layout: `ptrs` has rows + 1 non-decreasing entries from 0 to the
        number of stored entries, and `values` and `cols` are parallel. Row i owns the
        entries in [ptrs[i], ptrs[i + 1]). */
    predicate WellFormed()
    {
      |ptrs| == rows + 1 && ptrs[0] == 0 &&
      (forall i :: 0 <= i < rows ==> ptrs[i] <= ptrs[i + 1]) &&
      |values| == ptrs[rows] && |cols| == ptrs[rows]
    }

    /** Every stored column index (a source node) is below n. */
    predicate ColumnsBelow(n: nat)
    {
      forall k :: 0 <= k < |cols| ==> cols[k] < n
    }

    /** The entries in [lo, hi) can be read from both parallel arrays and index a vector of
        length n. An empty or inverted range reads nothing. */
    predicate RangeReadable(lo: nat, hi: nat, n: nat)
    {
      hi <= lo || (hi <= |values| && hi <= |cols| && forall k :: lo <= k < hi ==> cols[k] < n)
    }

    /** Row i's range of stored entries can be read and indexes a vector of length n. */
    predicate RowReadable(i: nat, n: nat)
    {
      i + 1 < |ptrs| && RangeReadable(ptrs[i], ptrs[i + 1], n)
    }

    /** Exactly the condition under which every array access of Multiply on a vector of
        length n is in bounds. */
    predicate Accessible(n: nat)
    {
      forall i :: 0 <= i < rows ==> RowReadable(i, n)
    }

    /** The sum over k in [lo, hi) of values[k] * v[cols[k]], in the order Multiply adds them. */
    function RowSum(lo: nat, hi: nat, v: seq<real>): real
      requires RangeReadable(lo, hi, |v|)
      decreases hi
    {
      if hi <= lo then 0.0 else RowSum(lo, hi - 1, v) + values[hi - 1] * v[cols[hi - 1]]
    }

    /** Entry i of the product: the sum over row i's stored entries. */
    function RowProduct(i: nat, v: seq<real>): real
      requires i < rows && Accessible(|v|)
    {
      assert RowReadable(i, |v|);
      RowSum(ptrs[i], ptrs[i + 1], v)
    }

    /** The pull product: entry i is the rank flowing into node i. */
    function Product(v: seq<real>): (r: seq<real>)
      requires Accessible(|v|)
      ensures |r| == rows
    {
      seq(rows, i requires 0 <= i < rows => RowProduct(i, v))
    }
  }

  /** Row offsets of a well-formed matrix are monotone, not only between neighbours. */
  lemma {:induction false} PtrsMonotone(m: Csr, i: nat, j: nat)
    requires m.WellFormed() && i <= j <= m.rows
    ensures m.ptrs[i] <= m.ptrs[j]
    decreases j - i
  {
    if i < j {
      PtrsMonotone(m, i + 1, j);
    }
  }

  /** The in-bounds argument: a well-formed matrix whose source nodes all index v can be
      multiplied with v without any out-of-range access. */
  lemma WellFormedIsAccessible(m: Csr, n: nat)
    requires m.WellFormed() && m.ColumnsBelow(n)
    ensures m.Accessible(n)
  {
    forall i | 0 <= i < m.rows
      ensures m.RowReadable(i, n)
    {
      PtrsMonotone(m, i + 1, m.rows);
    }
  }

  /** A row whose range is empty contributes nothing: its product entry is zero. */
  lemma EmptyRowIsZero(m: Csr, v: seq<real>, i: nat)
    requires m.Accessible(|v|) && i < m.rows
    ensures i + 1 < |m.ptrs|
    ensures m.ptrs[i] == m.ptrs[i + 1] ==> m.Product(v)[i] == 0.0
  {
    assert m.RowReadable(i, |v|);
  }

  /** Adjacent ranges add up. */
  lemma {:induction false} RowSumSplit(m: Csr, lo: nat, mid: nat, hi: nat, v: seq<real>)
    requires lo <= mid <= hi && m.RangeReadable(lo, hi, |v|)
    ensures m.RangeReadable(lo, mid, |v|) && m.RangeReadable(mid, hi, |v|)
    ensures m.RowSum(lo, hi, v) == m.RowSum(lo, mid, v) + m.RowSum(mid, hi, v)
    decreases hi
  {
    if mid < hi {
      RowSumSplit(m, lo, mid, hi - 1, v);
    }
  }

  /** Within a well-formed matrix whose columns index v, any range of stored entries is readable. */
  lemma StoredRangeReadable(m: Csr, lo: nat, hi: nat, n: nat)
    requires m.WellFormed() && m.ColumnsBelow(n) && hi <= |m.values|
    ensures m.RangeReadable(lo, hi, n)
  {
  }

  /** The first j rows of the product add up to the entries that those rows own. */
  lemma {:induction false} ProductPrefix(m: Csr, v: seq<real>, j: nat)
    requires m.WellFormed() && m.ColumnsBelow(|v|) && j <= m.rows
    ensures m.Accessible(|v|)
    ensures m.ptrs[j] <= |m.values| && m.RangeReadable(0, m.ptrs[j], |v|)
    ensures Sum(m.Product(v)[..j]) == m.RowSum(0, m.ptrs[j], v)
  {
    WellFormedIsAccessible(m, |v|);
    PtrsMonotone(m, j, m.rows);
    StoredRangeReadable(m, 0, m.ptrs[j], |v|);
    if j > 0 {
      var p := m.Product(v);
      ProductPrefix(m, v, j - 1);
      assert p[..j][..j - 1] == p[..j - 1];
      assert Sum(p[..j]) == Sum(p[..j - 1]) + p[j - 1];
      RowSumSplit(m, 0, m.ptrs[j - 1], m.ptrs[j], v);
    }
  }

  /** The rows partition the stored entries: summing the product adds every stored
      entry's contribution exactly once. */
  lemma ProductTotal(m: Csr, v: seq<real>)
    requires m.WellFormed() && m.ColumnsBelow(|v|)
    ensures m.Accessible(|v|) && m.RangeReadable(0, |m.values|, |v|)
    ensures Sum(m.Product(v)) == m.RowSum(0, |m.values|, v)
  {
    ProductPrefix(m, v, m.rows);
    assert m.Product(v)[..m.rows] == m.Product(v);
  }

  /** The weight that source node j gives away through the stored entries before hi. */
  function OutWeight(m: Csr, j: nat, hi: nat): real
    requires hi <= |m.values| && hi <= |m.cols|
  {
    if hi == 0 then 0.0
    else OutWeight(m, j, hi - 1) + (if m.cols[hi - 1] == j then m.values[hi - 1] else 0.0)
  }

  /** Every node gives away weight 1 in total over its out-links, as with weights
      1 / out_degree and no dangling node: the matrix is column-stochastic. */
  predicate Stochastic(m: Csr)
  {
    |m.values| == |m.cols| && forall j :: 0 <= j < m.rows ==> OutWeight(m, j, |m.values|) == 1.0
  }

  /** The rank that the entries before hi move out of nodes 0 .. n-1 of v: the sum over
      j < n of v[j] times the weight node j gives away there. */
  function Moved(m: Csr, v: seq<real>, hi: nat, n: nat): real
    requires hi <= |m.values| && hi <= |m.cols| && n <= |v|
  {
    if n == 0 then 0.0 else Moved(m, v, hi, n - 1) + v[n - 1] * OutWeight(m, n - 1, hi)
  }

  /** Before any stored entry nothing is moved. */
  lemma {:induction false} MovedNothing(m: Csr, v: seq<real>, n: nat)
    requires n <= |v|
    ensures Moved(m, v, 0, n) == 0.0
  {
    if n > 0 {
      MovedNothing(m, v, n - 1);
    }
  }

  /** One more stored entry moves its weight times the rank of its source, if that source
      is among the nodes counted. */
  lemma {:induction false} MovedStep(m: Csr, v: seq<real>, hi: nat, n: nat)
    requires hi < |m.values| && hi < |m.cols| && n <= |v|
    ensures Moved(m, v, hi + 1, n)
            == Moved(m, v, hi, n) + (if m.cols[hi] < n then m.values[hi] * v[m.cols[hi]] else 0.0)
  {
    if n > 0 {
      MovedStep(m, v, hi, n - 1);
      var j := n - 1;
      var extra := if m.cols[hi] == j then m.values[hi] else 0.0;
      assert OutWeight(m, j, hi + 1) == OutWeight(m, j, hi) + extra;
      assert v[j] * OutWeight(m, j, hi + 1) == v[j] * OutWeight(m, j, hi) + v[j] * extra;
    }
  }

  /** Summing entry by entry or source by source gives the same total. */
  lemma {:induction false} RowSumIsMoved(m: Csr, v: seq<real>, hi: nat)
    requires |m.values| == |m.cols| && hi <= |m.values| && m.ColumnsBelow(|v|)
    ensures m.RangeReadable(0, hi, |v|)
    ensures m.RowSum(0, hi, v) == Moved(m, v, hi, |v|)
  {
    if hi == 0 {
      MovedNothing(m, v, |v|);
    } else {
      RowSumIsMoved(m, v, hi - 1);
      MovedStep(m, v, hi - 1, |v|);
    }
  }

  /** When every node gives away weight 1, all of its rank is moved. */
  lemma {:induction false} StochasticMovesAll(m: Csr, v: seq<real>, n: nat)
    requires Stochastic(m) && |v| == m.rows && n <= |v|
    ensures Moved(m, v, |m.values|, n) == Sum(v[..n])
  {
    if n > 0 {
      StochasticMovesAll(m, v, n - 1);
      assert v[..n][..n - 1] == v[..n - 1];
      assert OutWeight(m, n - 1, |m.values|) == 1.0;
    }
  }

  /** Mass conservation: following the links of a column-stochastic matrix neither creates
      nor destroys rank. The product sums to what v sums to, for every v. */
  lemma MultiplyConservesMass(m: Csr, v: seq<real>)
    requires m.WellFormed() && m.ColumnsBelow(|v|) && Stochastic(m) && |v| == m.rows
    ensures m.Accessible(|v|)
    ensures Sum(m.Product(v)) == Sum(v)
  {
    ProductTotal(m, v);
    RowSumIsMoved(m, v, |m.values|);
    StochasticMovesAll(m, v, |v|);
    assert v[..|v|] == v;
  }

  /** v pulled k times through the matrix. */
  function ProductPower(m: Csr, v: seq<real>, k: nat): (r: seq<real>)
    requires m.WellFormed() && m.ColumnsBelow(|v|) && |v| == m.rows
    ensures |r| == m.rows
    decreases k
  {
    if k == 0 then v
    else
      WellFormedIsAccessible(m, |v|);
      ProductPower(m, m.Product(v), k - 1)
  }

  /** Repeated link-following keeps the total rank. */
  lemma {:induction false} ProductPowerConservesMass(m: Csr, v: seq<real>, k: nat)
    requires m.WellFormed() && m.ColumnsBelow(|v|) && Stochastic(m) && |v| == m.rows
    ensures Sum(ProductPower(m, v, k)) == Sum(v)
    decreases k
  {
    if k > 0 {
      MultiplyConservesMass(m, v);
      ProductPowerConservesMass(m, m.Product(v), k - 1);
    }
  }

  /** The matrix of the Multiply test: node 0 receives 0.5 from node 1 and 1.0 from node 2,
      node 1 receives 1.0 from node 0, node 2 receives 0.5 from node 1. */
  const TestGraph: Csr := Csr(3, [0.5, 1.0, 1.0, 0.5], [1, 2, 0, 1], [0, 2, 3, 4])

  lemma MultiplyExample()
    ensures TestGraph.WellFormed() && TestGraph.Accessible(3)
    ensures TestGraph.Product([1.0, 1.0, 1.0]) == [1.5, 1.0, 0.5]
  {
    WellFormedIsAccessible(TestGraph, 3);
    var p := TestGraph.Product([1.0, 1.0, 1.0]);
    assert p[0] == 1.5 && p[1] == 1.0 && p[2] == 0.5;
  }

  /** CSRMatrix. Multiply takes the result vector as the source's documentation describes
      it (src/math/matrix.go:36-60); the body in the repository is an unfinished stub that
      returns the zero vector. */
  class CSRMatrix {
    const Values: array<real>
    const ColumnIndices: array<nat>
    const RowPtrs: array<nat>
    const Rows: nat

    /** NewCSRMatrix: stores its arguments as given and checks nothing. */
    constructor (rows: nat, values: array<real>, cols: array<nat>, rowPtrs: array<nat>)
      ensures Rows == rows && Values == values && ColumnIndices == cols && RowPtrs == rowPtrs
    {
      Values := values;
      ColumnIndices := cols;
      RowPtrs := rowPtrs;
      Rows := rows;
    }

    ghost function Data(): Csr
      reads Values, ColumnIndices, RowPtrs
    {
      Csr(Rows, Values[..], ColumnIndices[..], RowPtrs[..])
    }

    /** result = M * v, a fresh vector. Changes neither the matrix nor v, since it
        modifies nothing that existed before the call. */
    method Multiply(v: array<real>) returns (result: array<real>)
      requires Data().Accessible(v.Length)
      ensures fresh(result)
      ensures result[..] == Data().Product(v[..])
    {
      ghost var m := Data();
      result := new real[Rows](_ => 0.0);
      var i := 0;
      while i < Rows
        invariant i <= Rows
        invariant forall j :: 0 <= j < i ==> result[j] == m.RowProduct(j, v[..])
        invariant forall j :: i <= j < Rows ==> result[j] == 0.0
      {
        assert m.RowReadable(i, v.Length);
        var start := RowPtrs[i];
        var end := RowPtrs[i + 1];
        var k := start;
        while k < end
          invariant start <= k && (k <= end || k == start)
          invariant result[i] == m.RowSum(start, k, v[..])
          invariant forall j :: 0 <= j < i ==> result[j] == m.RowProduct(j, v[..])
          invariant forall j :: i < j < Rows ==> result[j] == 0.0
        {
          var sourceNode := ColumnIndices[k];
          var weight := Values[k];
          result[i] := result[i] + weight * v[sourceNode];
          k := k + 1;
        }
        i := i + 1;
      }
    }
  }
}
