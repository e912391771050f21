/** Binary network measures of a connectivity matrix: the binarised
    matrix, node degree, the binary clustering coefficient and the binary
    distance matrix computed by repeated matrix products. */
module Network {
  import opened Connectivity

  /** A square matrix of 0/1 entries. */
  predicate IsBinary(b: seq<seq<nat>>, n: nat)
  {
    Square(b, n) && forall i, j :: 0 <= i < n && 0 <= j < n ==> b[i][j] <= 1
  }

  /** No node is linked to itself. */
  predicate ZeroDiagonal(b: seq<seq<nat>>, n: nat)
    requires Square(b, n)
  {
    forall i :: 0 <= i < n ==> b[i][i] == 0
  }

  /** `binary_matrix[i] = matrix_value[i] > 0 ? 1 : 0`. */
  function Binarized(mv: seq<seq<int>>): seq<seq<nat>>
  {
    seq(|mv|, i requires 0 <= i < |mv| => seq(|mv[i]|, j requires 0 <= j < |mv[i]| => if mv[i][j] > 0 then 1 else 0))
  }

  /** The binarised "count" matrix is a binary matrix with a zero
      diagonal, and links exactly the region pairs whose count passed the
      threshold. */
  lemma {:induction false} BinarizedCount(l1: seq<seq<nat>>, l2: seq<seq<nat>>, n: nat, threshold: real)
    requires |l1| == |l2| && threshold >= 0.0
    ensures var c := CountMatrix(l1, l2, n);
            var b := Binarized(CountValues(l1, l2, n, threshold));
            && IsBinary(b, n) && ZeroDiagonal(b, n)
            && (forall i, j :: 0 <= i < n && 0 <= j < n ==> b[i][j] == b[j][i])
            && (forall i, j :: 0 <= i < n && 0 <= j < n ==>
                  (b[i][j] == 1 <==> c[i][j] > ThresholdCount(MaxEntry(c), threshold)))
  {
    CountValuesFacts(l1, l2, n, threshold);
    var c := CountMatrix(l1, l2, n);
    var v := CountValues(l1, l2, n, threshold);
    var b := Binarized(v);
    forall i, j | 0 <= i < n && 0 <= j < n
      ensures b[i][j] == (if v[i][j] > 0 then 1 else 0) && v[i][j] >= 0
    {
    }
  }

  /** The loop building `binary_matrix`. */
  method BinaryMatrix(mv: seq<seq<int>>) returns (b: seq<seq<nat>>)
    ensures b == Binarized(mv)
  {
    b := [];
    var i := 0;
    while i < |mv|
      invariant i <= |mv| && b == Binarized(mv[..i])
    {
      b := b + [seq(|mv[i]|, j requires 0 <= j < |mv[i]| => if mv[i][j] > 0 then 1 else 0)];
      i := i + 1;
    }
    assert mv[..i] == mv;
  }

  // ---------------------------------------------------------------------
  // degree and clustering coefficient
  // ---------------------------------------------------------------------

  /** `std::accumulate` over a row. */
  function RowSum(row: seq<nat>): nat
  {
    if row == [] then 0 else RowSum(row[..|row| - 1]) + row[|row| - 1]
  }

  /** A binary row of length `n` sums to at most `n`. */
  lemma {:induction false} RowSumBound(row: seq<nat>)
    requires forall j :: 0 <= j < |row| ==> row[j] <= 1
    ensures RowSum(row) <= |row|
  {
    if row != [] {
      RowSumBound(row[..|row| - 1]);
    }
  }

  /** For node `i` and neighbour candidate `j`: the sum over `k < kk` of
      `b[j][k]` taken where both `b[i][j]` and `b[i][k]` are set. */
  function Inner(b: seq<seq<nat>>, n: nat, i: nat, j: nat, kk: nat): nat
    requires Square(b, n) && i < n && j < n && kk <= n
  {
    if kk == 0 then 0
    else Inner(b, n, i, j, kk - 1) + (if b[i][j] != 0 && b[i][kk - 1] != 0 then b[j][kk - 1] else 0)
  }

  /** The same over the neighbour candidates `j < jj`. */
  function Outer(b: seq<seq<nat>>, n: nat, i: nat, jj: nat): nat
    requires Square(b, n) && i < n && jj <= n
  {
    if jj == 0 then 0 else Outer(b, n, i, jj - 1) + Inner(b, n, i, jj - 1, n)
  }

  /** The binary clustering coefficient of node `i`: links among its
      neighbours over `d*d - d`, and 0 for a degree below 2. */
  function Clustering(b: seq<seq<nat>>, n: nat, i: nat): real
    requires Square(b, n) && i < n
  {
    var d := RowSum(b[i]);
    if d >= 2 then Outer(b, n, i, n) as real / (d * d - d) as real else 0.0
  }

  lemma {:induction false} InnerZero(b: seq<seq<nat>>, n: nat, i: nat, j: nat, kk: nat)
    requires Square(b, n) && i < n && j < n && kk <= n && b[i][j] == 0
    ensures Inner(b, n, i, j, kk) == 0
  {
    if kk > 0 {
      InnerZero(b, n, i, j, kk - 1);
    }
  }

  /** A neighbour `j` of `i` meets at most the other neighbours of `i`:
      its own entry `b[j][j]` is zero. */
  lemma {:induction false} InnerBound(b: seq<seq<nat>>, n: nat, i: nat, j: nat, kk: nat)
    requires IsBinary(b, n) && ZeroDiagonal(b, n)
    requires i < n && j < n && kk <= n && b[i][j] == 1
    ensures Inner(b, n, i, j, kk) + (if j < kk then 1 else 0) <= RowSum(b[i][..kk])
  {
    if kk > 0 {
      InnerBound(b, n, i, j, kk - 1);
      assert b[i][..kk][..kk - 1] == b[i][..kk - 1];
    }
  }

  lemma {:induction false} OuterBound(b: seq<seq<nat>>, n: nat, i: nat, jj: nat)
    requires IsBinary(b, n) && ZeroDiagonal(b, n)
    requires i < n && jj <= n && RowSum(b[i]) >= 1
    ensures Outer(b, n, i, jj) <= RowSum(b[i][..jj]) * (RowSum(b[i]) - 1)
  {
    if jj > 0 {
      var d1 := RowSum(b[i]) - 1;
      var r, x := RowSum(b[i][..jj - 1]), b[i][jj - 1];
      OuterBound(b, n, i, jj - 1);
      assert b[i][..jj][..jj - 1] == b[i][..jj - 1];
      assert RowSum(b[i][..jj]) == r + x;
      var inner := Inner(b, n, i, jj - 1, n);
      if x == 0 {
        InnerZero(b, n, i, jj - 1, n);
        MulBound(Outer(b, n, i, jj - 1), inner, r, 0, d1);
      } else {
        InnerBound(b, n, i, jj - 1, n);
        assert b[i][..n] == b[i];
        MulBound(Outer(b, n, i, jj - 1), inner, r, 1, d1);
      }
    }
  }

  lemma {:induction false} MulBound(o1: nat, o2: nat, r: nat, x: nat, d1: nat)
    requires x <= 1 && o1 <= r * d1 && o2 <= x * d1
    ensures o1 + o2 <= (r + x) * d1
  {
  }

  lemma {:induction false} RatioAtMostOne(o: nat, d: nat)
    requires d >= 2 && o <= d * (d - 1)
    ensures 0.0 <= o as real / (d * d - d) as real <= 1.0
  {
    PairsOfDegree(d);
    RealRatio(o, d * d - d);
  }

  lemma {:induction false} PairsOfDegree(d: nat)
    requires d >= 2
    ensures d * (d - 1) == d * d - d && d * d - d > 0
  {
    assert d * (d - 1) >= d * 1;
  }

  lemma {:induction false} RealRatio(o: nat, dd: nat)
    requires 0 < dd && o <= dd
    ensures 0.0 <= o as real / dd as real <= 1.0
  {
    var q := o as real / dd as real;
    assert q * dd as real == o as real;
  }

  /** With no self-links, the binary clustering coefficient lies in
      [0, 1]. */
  lemma {:induction false} ClusteringBounds(b: seq<seq<nat>>, n: nat, i: nat)
    requires IsBinary(b, n) && ZeroDiagonal(b, n) && i < n
    ensures 0.0 <= Clustering(b, n, i) <= 1.0
  {
    var d := RowSum(b[i]);
    if d >= 2 {
      OuterBound(b, n, i, n);
      assert b[i][..n] == b[i];
      RatioAtMostOne(Outer(b, n, i, n), d);
    }
  }

  /** Every two distinct neighbours of `i` are linked. */
  predicate NeighboursLinked(b: seq<seq<nat>>, n: nat, i: nat)
    requires Square(b, n) && i < n
  {
    forall j, k :: 0 <= j < n && 0 <= k < n && j != k && b[i][j] != 0 && b[i][k] != 0 ==> b[j][k] == 1
  }

  /** No two neighbours of `i` are linked. */
  predicate NeighboursApart(b: seq<seq<nat>>, n: nat, i: nat)
    requires Square(b, n) && i < n
  {
    forall j, k :: 0 <= j < n && 0 <= k < n && b[i][j] != 0 && b[i][k] != 0 ==> b[j][k] == 0
  }

  /** With every two neighbours linked, a neighbour `j` of `i` meets every
      other neighbour of `i`. */
  lemma {:induction false} InnerLinked(b: seq<seq<nat>>, n: nat, i: nat, j: nat, kk: nat)
    requires IsBinary(b, n) && ZeroDiagonal(b, n) && i < n && NeighboursLinked(b, n, i)
    requires j < n && kk <= n && b[i][j] == 1
    ensures Inner(b, n, i, j, kk) + (if j < kk then 1 else 0) == RowSum(b[i][..kk])
  {
    if kk > 0 {
      InnerLinked(b, n, i, j, kk - 1);
      assert b[i][..kk][..kk - 1] == b[i][..kk - 1];
    }
  }

  lemma {:induction false} OuterLinked(b: seq<seq<nat>>, n: nat, i: nat, jj: nat)
    requires IsBinary(b, n) && ZeroDiagonal(b, n) && i < n && NeighboursLinked(b, n, i)
    requires jj <= n && RowSum(b[i]) >= 1
    ensures Outer(b, n, i, jj) == RowSum(b[i][..jj]) * (RowSum(b[i]) - 1)
  {
    if jj > 0 {
      var d1 := RowSum(b[i]) - 1;
      var r, x := RowSum(b[i][..jj - 1]), b[i][jj - 1];
      OuterLinked(b, n, i, jj - 1);
      assert b[i][..jj][..jj - 1] == b[i][..jj - 1];
      assert RowSum(b[i][..jj]) == r + x;
      if x == 0 {
        InnerZero(b, n, i, jj - 1, n);
      } else {
        InnerLinked(b, n, i, jj - 1, n);
        assert b[i][..n] == b[i];
      }
      MulSplit(r, x, d1);
    }
  }

  lemma {:induction false} MulSplit(r: nat, x: nat, d1: nat)
    ensures (r + x) * d1 == r * d1 + x * d1
  {
  }

  /** A node of degree at least two whose neighbours are all linked to
      each other has clustering coefficient 1. */
  lemma {:induction false} ClusteringLinked(b: seq<seq<nat>>, n: nat, i: nat)
    requires IsBinary(b, n) && ZeroDiagonal(b, n) && i < n && NeighboursLinked(b, n, i)
    ensures Clustering(b, n, i) == if RowSum(b[i]) >= 2 then 1.0 else 0.0
  {
    var d := RowSum(b[i]);
    if d >= 2 {
      OuterLinked(b, n, i, n);
      assert b[i][..n] == b[i];
      PairsOfDegree(d);
      RatioOne(d * d - d);
    }
  }

  lemma {:induction false} RatioOne(dd: nat)
    requires dd > 0
    ensures dd as real / dd as real == 1.0
  {
  }

  lemma {:induction false} InnerApart(b: seq<seq<nat>>, n: nat, i: nat, j: nat, kk: nat)
    requires Square(b, n) && i < n && NeighboursApart(b, n, i) && j < n && kk <= n
    ensures Inner(b, n, i, j, kk) == 0
  {
    if kk > 0 {
      InnerApart(b, n, i, j, kk - 1);
    }
  }

  lemma {:induction false} OuterApart(b: seq<seq<nat>>, n: nat, i: nat, jj: nat)
    requires Square(b, n) && i < n && NeighboursApart(b, n, i) && jj <= n
    ensures Outer(b, n, i, jj) == 0
  {
    if jj > 0 {
      OuterApart(b, n, i, jj - 1);
      InnerApart(b, n, i, jj - 1, n);
    }
  }

  /** A node none of whose neighbours are linked to each other has
      clustering coefficient 0. */
  lemma {:induction false} ClusteringApart(b: seq<seq<nat>>, n: nat, i: nat)
    requires Square(b, n) && i < n && NeighboursApart(b, n, i)
    ensures Clustering(b, n, i) == 0.0
  {
    OuterApart(b, n, i, n);
  }

  /** The degree and binary clustering loops of `network_property`. */
  method NodeMeasures(b: seq<seq<nat>>, n: nat) returns (degree: seq<nat>, clustering: seq<real>)
    requires Square(b, n)
    ensures |degree| == n && forall i :: 0 <= i < n ==> degree[i] == RowSum(b[i])
    ensures |clustering| == n && forall i :: 0 <= i < n ==> clustering[i] == Clustering(b, n, i)
  {
    degree := seq(n, i requires 0 <= i < n => RowSum(b[i]));
    clustering := [];
    var i := 0;
    while i < n
      invariant i <= n && |clustering| == i
      invariant forall u :: 0 <= u < i ==> clustering[u] == Clustering(b, n, u)
    {
      var c := 0.0;
      if degree[i] >= 2 {
        var tri := Triangles(b, n, i);
        var d := degree[i];
        c := tri as real / (d * d - d) as real;
      }
      clustering := clustering + [c];
      i := i + 1;
    }
  }

  /** The double loop over `j`, `k` for node `i`. */
  method Triangles(b: seq<seq<nat>>, n: nat, i: nat) returns (tri: nat)
    requires Square(b, n) && i < n
    ensures tri == Outer(b, n, i, n)
  {
    tri := 0;
    var j := 0;
    while j < n
      invariant j <= n && tri == Outer(b, n, i, j)
    {
      var k := 0;
      var row := 0;
      while k < n
        invariant k <= n && row == Inner(b, n, i, j, k)
      {
        if b[i][j] != 0 && b[i][k] != 0 {
          row := row + b[j][k];
        }
        k := k + 1;
      }
      tri := tri + row;
      j := j + 1;
    }
  }

  // ---------------------------------------------------------------------
  // distance_bin
  // ---------------------------------------------------------------------

  /** There is a walk of exactly `len` links from `i` to `j`. */
  ghost predicate Walk(b: seq<seq<nat>>, n: nat, i: nat, j: nat, len: nat)
    requires Square(b, n) && i < n && j < n
    decreases len
  {
    if len <= 1 then len == 1 && b[i][j] != 0
    else exists k: nat :: k < n && Walk(b, n, i, k, len - 1) && b[k][j] != 0
  }

  /** `sum_{k < kk} x[i][k] * y[k][j]`. */
  function Dot(x: seq<seq<nat>>, y: seq<seq<nat>>, n: nat, i: nat, j: nat, kk: nat): nat
    requires Square(x, n) && Square(y, n) && i < n && j < n && kk <= n
  {
    if kk == 0 then 0 else Dot(x, y, n, i, j, kk - 1) + x[i][kk - 1] * y[kk - 1][j]
  }

  /** `tipl::mat::product`. */
  function MatMul(x: seq<seq<nat>>, y: seq<seq<nat>>, n: nat): (r: seq<seq<nat>>)
    requires Square(x, n) && Square(y, n)
    ensures Square(r, n)
  {
    seq(n, i requires 0 <= i < n => seq(n, j requires 0 <= j < n => Dot(x, y, n, i, j, n)))
  }

  /** A sum of products of naturals is non-zero exactly when some term
      has both factors non-zero. */
  lemma {:induction false} DotNonZero(x: seq<seq<nat>>, y: seq<seq<nat>>, n: nat, i: nat, j: nat, kk: nat)
    requires Square(x, n) && Square(y, n) && i < n && j < n && kk <= n
    ensures Dot(x, y, n, i, j, kk) != 0 <==> exists k: nat :: k < kk && x[i][k] != 0 && y[k][j] != 0
  {
    if kk > 0 {
      DotNonZero(x, y, n, i, j, kk - 1);
      var a, c := x[i][kk - 1], y[kk - 1][j];
      assert a * c != 0 <==> a != 0 && c != 0;
    }
  }

  /** Multiplying the walk-count matrix of length `len` by the adjacency
      matrix gives the non-zero pattern of walks of length `len + 1`. */
  lemma {:induction false} PowerStep(b: seq<seq<nat>>, n: nat, x: seq<seq<nat>>, len: nat)
    requires Square(b, n) && Square(x, n) && len >= 1
    requires PathsAt(b, n, x, len)
    ensures PathsAt(b, n, MatMul(x, b, n), len + 1)
  {
    forall i: nat, j: nat | i < n && j < n
      ensures MatMul(x, b, n)[i][j] != 0 <==> Walk(b, n, i, j, len + 1)
    {
      DotNonZero(x, b, n, i, j, n);
    }
  }

  /** The non-zero entries of `lpath` are the pairs joined by a walk of
      exactly `len` links. */
  ghost predicate PathsAt(b: seq<seq<nat>>, n: nat, lpath: seq<seq<nat>>, len: nat)
    requires Square(b, n) && Square(lpath, n)
  {
    forall i: nat, j: nat :: i < n && j < n ==> (lpath[i][j] != 0 <==> Walk(b, n, i, j, len))
  }

  /** Every entry of `dd` is the shortest walk length up to `bound`. */
  ghost predicate DistsUpTo(b: seq<seq<nat>>, n: nat, dd: seq<seq<nat>>, bound: nat)
    requires Square(b, n) && Square(dd, n)
  {
    forall i: nat, j: nat :: i < n && j < n ==> DistOk(b, n, i, j, dd[i][j], bound)
  }

  /** Every walk of exactly `l` links can be replaced by a shorter one. */
  ghost predicate Saturated(b: seq<seq<nat>>, n: nat, l: nat)
    requires Square(b, n)
  {
    forall u: nat, v: nat :: u < n && v < n && Walk(b, n, u, v, l) ==>
      exists m': nat :: 1 <= m' < l && Walk(b, n, u, v, m')
  }

  /** `d` is the length of the shortest walk from `i` to `j` among lengths
      up to `bound`, or 0 when there is none. */
  ghost predicate DistOk(b: seq<seq<nat>>, n: nat, i: nat, j: nat, d: nat, bound: nat)
    requires Square(b, n) && i < n && j < n
  {
    && (d == 0 ==> forall m: nat :: 1 <= m <= bound ==> !Walk(b, n, i, j, m))
    && (d != 0 ==> d <= bound && Walk(b, n, i, j, d) && forall m: nat :: 1 <= m < d ==> !Walk(b, n, i, j, m))
  }

  /** The result of `distance_bin`: a walk length, or the largest float
      standing for "unreachable". */
  datatype Dist = Steps(len: nat) | Unreachable

  /** `D[i][j]` is the length of the shortest walk of at least one link
      from `i` to `j` (so the diagonal holds the shortest cycle), and
      `Unreachable` when there is no walk at all. */
  ghost predicate Shortest(b: seq<seq<nat>>, n: nat, i: nat, j: nat, d: Dist)
    requires Square(b, n) && i < n && j < n
  {
    match d
    case Unreachable => forall m: nat :: 1 <= m ==> !Walk(b, n, i, j, m)
    case Steps(len) => 1 <= len && Walk(b, n, i, j, len) && forall m: nat :: 1 <= m < len ==> !Walk(b, n, i, j, m)
  }

  /** The update loop of `distance_bin`: entries first reached by a walk of
      length `l` receive `l`. */
  function Extended(dd: seq<seq<nat>>, lpath: seq<seq<nat>>, n: nat, l: nat): (r: seq<seq<nat>>)
    requires Square(dd, n) && Square(lpath, n)
    ensures Square(r, n)
  {
    seq(n, i requires 0 <= i < n => seq(n, j requires 0 <= j < n => if lpath[i][j] != 0 && dd[i][j] == 0 then l else dd[i][j]))
  }

  /** Some entry is reached for the first time. */
  predicate HasNew(dd: seq<seq<nat>>, lpath: seq<seq<nat>>, n: nat)
    requires Square(dd, n) && Square(lpath, n)
  {
    exists i: nat, j: nat :: i < n && j < n && lpath[i][j] != 0 && dd[i][j] == 0
  }

  /** The pairs not yet reached. */
  function Unreached(dd: seq<seq<nat>>, n: nat): set<(nat, nat)>
    requires Square(dd, n)
  {
    set i: nat, j: nat | i < n && j < n && dd[i][j] == 0 :: (i, j)
  }

  lemma {:induction false} SubsetCard<T>(a: set<T>, b: set<T>)
    requires a <= b
    ensures |a| <= |b|
    decreases |a|
  {
    if a != {} {
      var x :| x in a;
      SubsetCard(a - {x}, b - {x});
    }
  }

  /** A subset missing an element of the superset is strictly smaller. */
  lemma {:induction false} ProperSubsetCard<T>(a: set<T>, b: set<T>, x: T)
    requires a <= b && x in b && x !in a
    ensures |a| < |b|
  {
    SubsetCard(a, b - {x});
  }

  /** Each round that reaches a new pair shrinks the unreached set. */
  lemma {:induction false} ExtendShrinks(dd: seq<seq<nat>>, lpath: seq<seq<nat>>, n: nat, l: nat)
    requires Square(dd, n) && Square(lpath, n) && l > 0 && HasNew(dd, lpath, n)
    ensures |Unreached(Extended(dd, lpath, n, l), n)| < |Unreached(dd, n)|
  {
    var i: nat, j: nat :| i < n && j < n && lpath[i][j] != 0 && dd[i][j] == 0;
    var e := Extended(dd, lpath, n, l);
    assert (i, j) in Unreached(dd, n) && (i, j) !in Unreached(e, n);
    assert Unreached(e, n) <= Unreached(dd, n);
    ProperSubsetCard(Unreached(e, n), Unreached(dd, n), (i, j));
  }

  /** One round keeps the shortest-walk invariant, one length further. */
  lemma {:induction false} ExtendKeeps(b: seq<seq<nat>>, n: nat, dd: seq<seq<nat>>, lpath: seq<seq<nat>>, l: nat)
    requires Square(b, n) && Square(dd, n) && Square(lpath, n) && l >= 2
    requires PathsAt(b, n, lpath, l) && DistsUpTo(b, n, dd, l - 1)
    ensures DistsUpTo(b, n, Extended(dd, lpath, n, l), l)
  {
    forall i: nat, j: nat | i < n && j < n
      ensures DistOk(b, n, i, j, Extended(dd, lpath, n, l)[i][j], l)
    {
      assert DistOk(b, n, i, j, dd[i][j], l - 1);
    }
  }

  /** Once a round reaches nothing new, no longer walk reaches anything
      new either: a walk of any length can be shortened below `l`. */
  lemma {:induction false} Closure(b: seq<seq<nat>>, n: nat, l: nat, i: nat, j: nat, m: nat)
    requires Square(b, n) && l >= 2 && i < n && j < n && m >= 1
    requires Saturated(b, n, l)
    requires Walk(b, n, i, j, m)
    ensures exists m': nat :: 1 <= m' < l && Walk(b, n, i, j, m')
    decreases m
  {
    if m >= l && m != l {
      var k: nat :| k < n && Walk(b, n, i, k, m - 1) && b[k][j] != 0;
      Closure(b, n, l, i, k, m - 1);
      var m': nat :| 1 <= m' < l && Walk(b, n, i, k, m');
      assert Walk(b, n, i, j, m' + 1);
      if m' + 1 == l {
        assert Walk(b, n, i, j, l);
        assert Saturated(b, n, l);
      }
    }
  }

  /** `std::replace(D, 0, max)`. */
  function ToDist(d: nat): Dist
  {
    if d == 0 then Unreachable else Steps(d)
  }

  /** Every entry, turned into a distance, is the shortest walk length. */
  ghost predicate AllShortest(b: seq<seq<nat>>, n: nat, dd: seq<seq<nat>>)
    requires Square(b, n) && Square(dd, n)
  {
    forall i: nat, j: nat :: i < n && j < n ==> Shortest(b, n, i, j, ToDist(dd[i][j]))
  }

  /** When a round reaches nothing new, the entries found so far are the
      shortest walk lengths over all lengths. */
  lemma {:induction false} Finished(b: seq<seq<nat>>, n: nat, dd: seq<seq<nat>>, lpath: seq<seq<nat>>, l: nat)
    requires Square(b, n) && Square(dd, n) && Square(lpath, n) && l >= 2
    requires PathsAt(b, n, lpath, l) && DistsUpTo(b, n, dd, l - 1)
    requires !HasNew(dd, lpath, n)
    ensures AllShortest(b, n, dd)
  {
    forall u: nat, v: nat | u < n && v < n && Walk(b, n, u, v, l)
      ensures exists m': nat :: 1 <= m' < l && Walk(b, n, u, v, m')
    {
      assert lpath[u][v] != 0;
      assert DistOk(b, n, u, v, dd[u][v], l - 1);
    }
    assert Saturated(b, n, l);
    forall i: nat, j: nat | i < n && j < n
      ensures Shortest(b, n, i, j, ToDist(dd[i][j]))
    {
      assert DistOk(b, n, i, j, dd[i][j], l - 1);
      if dd[i][j] == 0 {
        forall m: nat | 1 <= m
          ensures !Walk(b, n, i, j, m)
        {
          if Walk(b, n, i, j, m) {
            Closure(b, n, l, i, j, m);
          }
        }
      }
    }
  }

  /** The update loop over the matrix. */
  method Extend(dd: seq<seq<nat>>, lpath: seq<seq<nat>>, n: nat, l: nat) returns (r: seq<seq<nat>>, con: bool)
    requires Square(dd, n) && Square(lpath, n)
    ensures r == Extended(dd, lpath, n, l) && (con <==> HasNew(dd, lpath, n))
  {
    r := [];
    con := false;
    var i := 0;
    while i < n
      invariant i <= n && |r| == i
      invariant forall u :: 0 <= u < i ==> r[u] == Extended(dd, lpath, n, l)[u]
      invariant con <==> exists u: nat, v: nat :: u < i && v < n && lpath[u][v] != 0 && dd[u][v] == 0
    {
      var row := dd[i];
      var j := 0;
      var rowNew := false;
      while j < n
        invariant j <= n && |row| == n
        invariant forall v :: 0 <= v < j ==> row[v] == Extended(dd, lpath, n, l)[i][v]
        invariant forall v :: j <= v < n ==> row[v] == dd[i][v]
        invariant rowNew <==> exists v: nat :: v < j && lpath[i][v] != 0 && dd[i][v] == 0
      {
        if lpath[i][j] != 0 && row[j] == 0 {
          row := row[j := l];
          rowNew := true;
        }
        j := j + 1;
      }
      assert row == Extended(dd, lpath, n, l)[i];
      r := r + [row];
      con := con || rowNew;
      i := i + 1;
    }
  }

  /** `distance_bin`: walk-count powers of the binary matrix until no new
      pair is reached; unreached pairs become "unreachable". */
  method DistanceBin(b: seq<seq<nat>>, n: nat) returns (dist: seq<seq<Dist>>)
    requires IsBinary(b, n)
    ensures |dist| == n && forall i :: 0 <= i < n ==> |dist[i]| == n
    ensures forall i: nat, j: nat :: i < n && j < n ==> Shortest(b, n, i, j, dist[i][j])
  {
    var lpath := b;
    var dd := b;
    StartDists(b, n);
    var l := 2;
    while true
      invariant l >= 2 && Square(lpath, n) && Square(dd, n)
      invariant PathsAt(b, n, lpath, l - 1) && DistsUpTo(b, n, dd, l - 1)
      decreases |Unreached(dd, n)|
    {
      PowerStep(b, n, lpath, l - 1);
      lpath := MatMul(lpath, b, n);
      ExtendKeeps(b, n, dd, lpath, l);
      var next, con := Extend(dd, lpath, n, l);
      if !con {
        Finished(b, n, dd, lpath, l);
        break;
      }
      ExtendShrinks(dd, lpath, n, l);
      dd := next;
      l := l + 1;
    }
    dist := seq(n, i requires 0 <= i < n => seq(n, j requires 0 <= j < n => ToDist(dd[i][j])));
    assert AllShortest(b, n, dd);
  }

  /** `A = Lpath = D = bin`: walks of one link are the links themselves. */
  lemma {:induction false} StartDists(b: seq<seq<nat>>, n: nat)
    requires IsBinary(b, n)
    ensures PathsAt(b, n, b, 1) && DistsUpTo(b, n, b, 1)
  {
  }
}
