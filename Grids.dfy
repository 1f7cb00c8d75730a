/** Rectangular two-dimensional fields (response maps, structure-tensor sums,
    gray images) stored row by row: g[y][x] is row y, column x. */
module Grids {

  type Grid = seq<seq<real>>

  /** Number of columns; a grid with no rows has none. */
  function Width<T>(g: seq<seq<T>>): nat {
    if |g| == 0 then 0 else |g[0]|
  }

  /** Every row has the same length. */
  predicate IsRect<T>(g: seq<seq<T>>) {
    forall j :: 0 <= j < |g| ==> |g[j]| == Width(g)
  }

  /** Two grids have the same number of rows and every row the same length. */
  predicate SameShape<T, U>(g: seq<seq<T>>, h: seq<seq<U>>) {
    |g| == |h| && forall j :: 0 <= j < |g| ==> |g[j]| == |h[j]|
  }

  /** A pixel position as a pair of indices: (x, y) = (column, row) for the
      lambda-minus detector and the descriptors, (row, column) for the Harris
      detector, whose cells come from np.argwhere; Axes says which. */
  type Corner = (int, int)

  /** (r1, c1) comes strictly before (r2, c2) in a row-by-row scan. */
  predicate RowMajorBefore(r1: int, c1: int, r2: int, c2: int) {
    r1 < r2 || (r1 == r2 && c1 < c2)
  }

  /** How a position is written as a pair: (row, column), as np.argwhere
      yields it, or (x, y) = (column, row). */
  datatype Axes = RowCol | ColRow

  /** Position p comes strictly before position q in a row-by-row scan. */
  predicate Precedes(p: Corner, q: Corner, axes: Axes) {
    match axes
    case RowCol => RowMajorBefore(p.0, p.1, q.0, q.1)
    case ColRow => RowMajorBefore(p.1, p.0, q.1, q.0)
  }

  /** The positions are strictly ascending in scan order (hence distinct). */
  predicate InScanOrder(s: seq<Corner>, axes: Axes) {
    forall i, j :: 0 <= i < j < |s| ==> Precedes(s[i], s[j], axes)
  }

  lemma AppendInScanOrder(a: seq<Corner>, b: seq<Corner>, axes: Axes)
    requires InScanOrder(a, axes) && InScanOrder(b, axes)
    requires forall p, q :: p in a && q in b ==> Precedes(p, q, axes)
    ensures InScanOrder(a + b, axes)
  {
    var s := a + b;
    forall i, j | 0 <= i < j < |s|
      ensures Precedes(s[i], s[j], axes)
    {
      if j < |a| {
        assert s[i] == a[i] && s[j] == a[j];
      } else if i >= |a| {
        assert s[i] == b[i - |a|] && s[j] == b[j - |a|];
      } else {
        assert s[i] in a && s[j] in b;
      }
    }
  }

  function Max(a: real, b: real): real {
    if a < b then b else a
  }

  function MaxInt(a: int, b: int): int {
    if a < b then b else a
  }

  function MinInt(a: int, b: int): int {
    if a < b then a else b
  }

  /** The largest of row[x0..x1]. */
  function RowMax(row: seq<real>, x0: nat, x1: nat): (r: real)
    requires x0 < x1 <= |row|
    ensures forall i :: x0 <= i < x1 ==> row[i] <= r
    ensures exists i :: x0 <= i < x1 && row[i] == r
    decreases x1
  {
    if x1 == x0 + 1 then row[x0] else Max(RowMax(row, x0, x1 - 1), row[x1 - 1])
  }

  /** The largest value of the non-empty block of rows [y0, y1) and columns
      [x0, x1): what np.max returns for the slice g[y0:y1, x0:x1]. */
  function RegionMax(g: Grid, y0: nat, y1: nat, x0: nat, x1: nat): (r: real)
    requires IsRect(g) && y0 < y1 <= |g| && x0 < x1 <= Width(g)
    ensures forall j, i :: y0 <= j < y1 && x0 <= i < x1 ==> g[j][i] <= r
    ensures exists j, i :: y0 <= j < y1 && x0 <= i < x1 && g[j][i] == r
    decreases y1
  {
    if y1 == y0 + 1 then RowMax(g[y0], x0, x1)
    else Max(RegionMax(g, y0, y1 - 1, x0, x1), RowMax(g[y1 - 1], x0, x1))
  }

  /** np.max of a whole non-empty grid. */
  function GridMax(g: Grid): (r: real)
    requires IsRect(g) && |g| > 0 && Width(g) > 0
    ensures forall j, i :: 0 <= j < |g| && 0 <= i < |g[j]| ==> g[j][i] <= r
    ensures exists j, i :: 0 <= j < |g| && 0 <= i < |g[j]| && g[j][i] == r
  {
    RegionMax(g, 0, |g|, 0, Width(g))
  }

  /** The detectors' threshold: a fraction thPct of the largest value. */
  function Threshold(g: Grid, thPct: real): real
    requires IsRect(g) && |g| > 0 && Width(g) > 0
  {
    thPct * GridMax(g)
  }

  /** Every cell multiplied by c. */
  function Scale(g: Grid, c: real): (s: Grid)
    ensures SameShape(s, g)
    ensures forall j, i :: 0 <= j < |g| && 0 <= i < |g[j]| ==> s[j][i] == c * g[j][i]
  {
    seq(|g|, j requires 0 <= j < |g| => seq(|g[j]|, i requires 0 <= i < |g[j]| => c * g[j][i]))
  }

  /** Every cell of g is zero. */
  predicate AllZero(g: Grid) {
    forall j, i :: 0 <= j < |g| && 0 <= i < |g[j]| ==> g[j][i] == 0.0
  }

  /** An upper bound that is attained, at (wj, wi), is the maximum. */
  lemma GridMaxUnique(g: Grid, m: real, wj: nat, wi: nat)
    requires IsRect(g) && |g| > 0 && Width(g) > 0
    requires forall j, i :: 0 <= j < |g| && 0 <= i < |g[j]| ==> g[j][i] <= m
    requires wj < |g| && wi < |g[wj]| && g[wj][wi] == m
    ensures GridMax(g) == m
  {
    assert m <= GridMax(g);
  }

  /** Scaling by a non-negative factor scales the maximum, m, by the same factor. */
  lemma GridMaxScale(g: Grid, c: real, m: real)
    requires IsRect(g) && |g| > 0 && Width(g) > 0 && c >= 0.0 && m == GridMax(g)
    ensures IsRect(Scale(g, c)) && Width(Scale(g, c)) == Width(g)
    ensures GridMax(Scale(g, c)) == c * m
  {
    var j, i := GridMaxAt(g);
    ScaleMaxAt(g, c, m, j, i);
  }

  /** A cell where the maximum is attained. */
  lemma GridMaxAt(g: Grid) returns (j: nat, i: nat)
    requires IsRect(g) && |g| > 0 && Width(g) > 0
    ensures j < |g| && i < |g[j]| && g[j][i] == GridMax(g)
  {
    j, i :| 0 <= j < |g| && 0 <= i < |g[j]| && g[j][i] == GridMax(g);
  }

  lemma ScaleMaxAt(g: Grid, c: real, m: real, j: nat, i: nat)
    requires IsRect(g) && |g| > 0 && Width(g) > 0 && c >= 0.0
    requires forall j, i :: 0 <= j < |g| && 0 <= i < |g[j]| ==> g[j][i] <= m
    requires j < |g| && i < |g[j]| && g[j][i] == m
    ensures IsRect(Scale(g, c)) && Width(Scale(g, c)) == Width(g)
    ensures GridMax(Scale(g, c)) == c * m
  {
    ScaleRect(g, c);
    ScaleAt(g, c, m, j, i);
    ScaleBound(g, c, m);
    GridMaxUnique(Scale(g, c), c * m, j, i);
  }

  lemma ScaleAt(g: Grid, c: real, m: real, j: nat, i: nat)
    requires j < |g| && i < |g[j]| && g[j][i] == m
    ensures Scale(g, c)[j][i] == c * m
  {
  }

  lemma ScaleRect(g: Grid, c: real)
    requires IsRect(g)
    ensures IsRect(Scale(g, c)) && Width(Scale(g, c)) == Width(g)
  {
  }

  lemma ScaleBound(g: Grid, c: real, m: real)
    requires c >= 0.0
    requires forall j, i :: 0 <= j < |g| && 0 <= i < |g[j]| ==> g[j][i] <= m
    ensures forall j, i :: 0 <= j < |g| && 0 <= i < |g[j]| ==> Scale(g, c)[j][i] <= c * m
  {
    var s := Scale(g, c);
    forall j, i | 0 <= j < |s| && 0 <= i < |s[j]|
      ensures s[j][i] <= c * m
    {
      MulMonotone(c, g[j][i], m);
    }
  }

  lemma MulMonotone(c: real, a: real, b: real)
    requires c >= 0.0 && a <= b
    ensures c * a <= c * b
  {
    assert c * b - c * a == c * (b - a);
  }

  /** A grid of zeros has maximum zero. */
  lemma GridMaxZero(g: Grid)
    requires IsRect(g) && |g| > 0 && Width(g) > 0 && AllZero(g)
    ensures GridMax(g) == 0.0
  {
    GridMaxUnique(g, 0.0, 0, 0);
  }

  lemma NoMemberEmpty<T>(s: seq<T>)
    requires forall c :: c !in s
    ensures s == []
  {
    if s != [] {
      var c := Member(s);
    }
  }

  lemma Member<T>(s: seq<T>) returns (c: T)
    requires s != []
    ensures c in s
  {
    c := s[0];
  }
}
