/** The Harris detector's scoring and selection: the response
    R = (Sx2·Sy2 − Sxy²) − k·(Sx2 + Sy2)² computed cell by cell from the
    box-filtered structure-tensor sums, then every cell whose response exceeds
    a fraction of the largest one, as np.argwhere lists it: (row, column)
    pairs in row-major order, border cells included, with no suppression. */
module Harris {
  import opened Grids

  /** The Harris response of one cell. */
  function Response(sx2: real, sy2: real, sxy: real, k: real): real {
    (sx2 * sy2 - sxy * sxy) - k * ((sx2 + sy2) * (sx2 + sy2))
  }

  /** The three window sums are rectangular grids of one shape. */
  predicate Aligned(sx2: Grid, sy2: Grid, sxy: Grid) {
    IsRect(sx2) && SameShape(sx2, sy2) && SameShape(sx2, sxy)
  }

  /** The response map, cell by cell. */
  function ResponseMap(sx2: Grid, sy2: Grid, sxy: Grid, k: real): (r: Grid)
    requires Aligned(sx2, sy2, sxy)
    ensures SameShape(r, sx2) && IsRect(r) && Width(r) == Width(sx2)
  {
    seq(|sx2|, j requires 0 <= j < |sx2| =>
      seq(|sx2[j]|, i requires 0 <= i < |sx2[j]| => Response(sx2[j][i], sy2[j][i], sxy[j][i], k)))
  }

  /** Position c = (row, column) lies in g and its value exceeds th. */
  predicate Above(g: Grid, th: real, c: Corner) {
    0 <= c.0 < |g| && 0 <= c.1 < |g[c.0]| && g[c.0][c.1] > th
  }

  /** The cells (y, x) of row y with x < n and g[y][x] > th, left to right. */
  function RowCellsAbove(g: Grid, th: real, y: nat, n: nat): seq<Corner>
    requires IsRect(g) && y < |g| && n <= Width(g)
  {
    if n == 0 then []
    else RowCellsAbove(g, th, y, n - 1) + (if g[y][n - 1] > th then [(y, n - 1)] else [])
  }

  /** The cells of rows y < n above th, in row-major order. */
  function RowsAbove(g: Grid, th: real, n: nat): seq<Corner>
    requires IsRect(g) && n <= |g|
  {
    if n == 0 then []
    else RowsAbove(g, th, n - 1) + RowCellsAbove(g, th, n - 1, Width(g))
  }

  /** np.argwhere(g > th). */
  function CellsAbove(g: Grid, th: real): seq<Corner>
    requires IsRect(g)
  {
    RowsAbove(g, th, |g|)
  }

  /** harris_corner_detection after the box filter: the response map
      thresholded at thPct times its maximum. */
  function HarrisCorners(sx2: Grid, sy2: Grid, sxy: Grid, k: real, thPct: real): seq<Corner>
    requires Aligned(sx2, sy2, sxy) && |sx2| > 0 && Width(sx2) > 0
  {
    var r := ResponseMap(sx2, sy2, sxy, k);
    CellsAbove(r, Threshold(r, thPct))
  }

  lemma {:induction false} RowCellsAboveMembers(g: Grid, th: real, y: nat, n: nat)
    requires IsRect(g) && y < |g| && n <= Width(g)
    ensures forall c :: c in RowCellsAbove(g, th, y, n) <==> c.0 == y && c.1 < n && Above(g, th, c)
  {
    if n > 0 {
      RowCellsAboveMembers(g, th, y, n - 1);
    }
  }

  lemma {:induction false} RowsAboveMembers(g: Grid, th: real, n: nat)
    requires IsRect(g) && n <= |g|
    ensures forall c :: c in RowsAbove(g, th, n) <==> c.0 < n && Above(g, th, c)
  {
    if n > 0 {
      var rows, row := RowsAbove(g, th, n - 1), RowCellsAbove(g, th, n - 1, Width(g));
      assert RowsAbove(g, th, n) == rows + row;
      RowsAboveMembers(g, th, n - 1);
      RowCellsAboveMembers(g, th, n - 1, Width(g));
      forall c: Corner
        ensures c in rows + row <==> c.0 < n && Above(g, th, c)
      {
        assert c in rows + row <==> c in rows || c in row;
      }
    }
  }

  /** A cell is listed exactly when it lies in the grid and its value exceeds th. */
  lemma CellsAboveExact(g: Grid, th: real)
    requires IsRect(g)
    ensures forall c :: c in CellsAbove(g, th) <==> Above(g, th, c)
  {
    RowsAboveMembers(g, th, |g|);
  }

  lemma {:induction false} RowCellsAboveInOrder(g: Grid, th: real, y: nat, n: nat)
    requires IsRect(g) && y < |g| && n <= Width(g)
    ensures InScanOrder(RowCellsAbove(g, th, y, n), RowCol)
  {
    if n > 0 {
      RowCellsAboveInOrder(g, th, y, n - 1);
      RowCellsAboveMembers(g, th, y, n - 1);
      var tail: seq<Corner> := if g[y][n - 1] > th then [(y, n - 1)] else [];
      AppendInScanOrder(RowCellsAbove(g, th, y, n - 1), tail, RowCol);
    }
  }

  lemma {:induction false} RowsAboveInOrder(g: Grid, th: real, n: nat)
    requires IsRect(g) && n <= |g|
    ensures InScanOrder(RowsAbove(g, th, n), RowCol)
  {
    if n > 0 {
      var rows, row := RowsAbove(g, th, n - 1), RowCellsAbove(g, th, n - 1, Width(g));
      assert RowsAbove(g, th, n) == rows + row;
      RowsAboveInOrder(g, th, n - 1);
      RowsAboveMembers(g, th, n - 1);
      RowCellsAboveInOrder(g, th, n - 1, Width(g));
      RowCellsAboveMembers(g, th, n - 1, Width(g));
      forall p: Corner, q: Corner | p in rows && q in row
        ensures Precedes(p, q, RowCol)
      {
        assert p.0 < n - 1 == q.0;
      }
      AppendInScanOrder(rows, row, RowCol);
    }
  }

  /** The cells come as (row, column) pairs in row-major order, each once. */
  lemma CellsAboveInOrder(g: Grid, th: real)
    requires IsRect(g)
    ensures InScanOrder(CellsAbove(g, th), RowCol)
  {
    RowsAboveInOrder(g, th, |g|);
  }

  /** The Harris path reports exactly the cells of the whole map, borders
      included, whose response exceeds thPct times the largest response, as
      (row, column) pairs in row-major order. */
  lemma HarrisCornersExact(sx2: Grid, sy2: Grid, sxy: Grid, k: real, thPct: real)
    requires Aligned(sx2, sy2, sxy) && |sx2| > 0 && Width(sx2) > 0
    ensures var th := Threshold(ResponseMap(sx2, sy2, sxy, k), thPct);
      forall c :: c in HarrisCorners(sx2, sy2, sxy, k, thPct) <==>
        0 <= c.0 < |sx2| && 0 <= c.1 < Width(sx2) &&
        Response(sx2[c.0][c.1], sy2[c.0][c.1], sxy[c.0][c.1], k) > th
    ensures InScanOrder(HarrisCorners(sx2, sy2, sxy, k, thPct), RowCol)
  {
    var r := ResponseMap(sx2, sy2, sxy, k);
    var th := Threshold(r, thPct);
    CellsAboveExact(r, th);
    CellsAboveInOrder(r, th);
  }

  /** Multiplying the three sums by c multiplies the response by c². */
  lemma ResponseScale(sx2: real, sy2: real, sxy: real, k: real, c: real)
    ensures Response(c * sx2, c * sy2, c * sxy, k) == (c * c) * Response(sx2, sy2, sxy, k)
  {
    var cc := c * c;
    assert (c * sx2) * (c * sy2) == cc * (sx2 * sy2);
    assert (c * sxy) * (c * sxy) == cc * (sxy * sxy);
    assert c * sx2 + c * sy2 == c * (sx2 + sy2);
    assert (c * (sx2 + sy2)) * (c * (sx2 + sy2)) == cc * ((sx2 + sy2) * (sx2 + sy2));
  }

  lemma ResponseMapScale(sx2: Grid, sy2: Grid, sxy: Grid, k: real, c: real)
    requires Aligned(sx2, sy2, sxy)
    ensures Aligned(Scale(sx2, c), Scale(sy2, c), Scale(sxy, c))
    ensures ResponseMap(Scale(sx2, c), Scale(sy2, c), Scale(sxy, c), k) == Scale(ResponseMap(sx2, sy2, sxy, k), c * c)
  {
    ScaleRect(sx2, c);
    var a, b := ResponseMap(Scale(sx2, c), Scale(sy2, c), Scale(sxy, c), k), Scale(ResponseMap(sx2, sy2, sxy, k), c * c);
    assert |a| == |b|;
    forall j | 0 <= j < |a|
      ensures a[j] == b[j]
    {
      assert |a[j]| == |b[j]|;
      forall i | 0 <= i < |a[j]|
        ensures a[j][i] == b[j][i]
      {
        ResponseScale(sx2[j][i], sy2[j][i], sxy[j][i], k, c);
        assert a[j][i] == Response(c * sx2[j][i], c * sy2[j][i], c * sxy[j][i], k);
        assert b[j][i] == (c * c) * Response(sx2[j][i], sy2[j][i], sxy[j][i], k);
      }
    }
  }

  /** Two grids of one shape whose cells pass their thresholds alike select
      the same cells. */
  lemma {:induction false} RowsAboveAlike(g: Grid, th: real, h: Grid, th': real, n: nat)
    requires IsRect(g) && SameShape(g, h) && n <= |g|
    requires forall j, i :: 0 <= j < |g| && 0 <= i < |g[j]| ==> (g[j][i] > th <==> h[j][i] > th')
    ensures IsRect(h) && RowsAbove(g, th, n) == RowsAbove(h, th', n)
  {
    assert IsRect(h) && Width(h) == Width(g);
    if n > 0 {
      RowsAboveAlike(g, th, h, th', n - 1);
      RowCellsAlike(g, th, h, th', n - 1, Width(g));
    }
  }

  lemma {:induction false} RowCellsAlike(g: Grid, th: real, h: Grid, th': real, y: nat, n: nat)
    requires IsRect(g) && SameShape(g, h) && y < |g| && n <= Width(g)
    requires forall j, i :: 0 <= j < |g| && 0 <= i < |g[j]| ==> (g[j][i] > th <==> h[j][i] > th')
    ensures IsRect(h) && Width(h) == Width(g) && RowCellsAbove(g, th, y, n) == RowCellsAbove(h, th', y, n)
  {
    assert IsRect(h) && Width(h) == Width(g);
    if n > 0 {
      RowCellsAlike(g, th, h, th', y, n - 1);
    }
  }

  /** Scaling the three sums by any c ≠ 0 (an intensity scaling of the image
      by s scales them by s²) scales the response map by c² and its maximum
      with it, so the selected cells do not change. */
  lemma HarrisCornersScaleInvariant(sx2: Grid, sy2: Grid, sxy: Grid, k: real, thPct: real, c: real)
    requires Aligned(sx2, sy2, sxy) && |sx2| > 0 && Width(sx2) > 0 && c != 0.0
    ensures Aligned(Scale(sx2, c), Scale(sy2, c), Scale(sxy, c)) && Width(Scale(sx2, c)) == Width(sx2)
    ensures HarrisCorners(Scale(sx2, c), Scale(sy2, c), Scale(sxy, c), k, thPct) == HarrisCorners(sx2, sy2, sxy, k, thPct)
  {
    ResponseMapScale(sx2, sy2, sxy, k, c);
    ScaleRect(sx2, c);
    var cc := c * c;
    SquarePositive(c, cc);
    ScaledMapSameCells(ResponseMap(sx2, sy2, sxy, k), thPct, cc);
  }

  /** Scaling a map by cc > 0 leaves the cells above its threshold unchanged. */
  lemma ScaledMapSameCells(r: Grid, thPct: real, cc: real)
    requires IsRect(r) && |r| > 0 && Width(r) > 0 && cc > 0.0
    ensures IsRect(Scale(r, cc)) && Width(Scale(r, cc)) == Width(r)
    ensures CellsAbove(Scale(r, cc), Threshold(Scale(r, cc), thPct)) == CellsAbove(r, Threshold(r, thPct))
  {
    ScaleRect(r, cc);
    var th := Threshold(r, thPct);
    var th' := Threshold(Scale(r, cc), thPct);
    ThresholdScale(r, thPct, cc, th, th');
    CellsAboveScale(r, th, cc, th');
  }

  /** Scaling a map by cc > 0 scales its threshold th by cc. */
  lemma ThresholdScale(r: Grid, thPct: real, cc: real, th: real, th': real)
    requires IsRect(r) && |r| > 0 && Width(r) > 0 && cc > 0.0 && IsRect(Scale(r, cc))
    requires th == Threshold(r, thPct) && th' == Threshold(Scale(r, cc), thPct)
    ensures th' == cc * th
  {
    var m := GridMax(r);
    var m' := GridMax(Scale(r, cc));
    GridMaxScale(r, cc, m);
    ScaledProduct(thPct, cc, m, m', th, th');
  }

  lemma ScaledProduct(a: real, cc: real, m: real, m': real, th: real, th': real)
    requires m' == cc * m && th == a * m && th' == a * m'
    ensures th' == cc * th
  {
  }

  /** Scaling a map and its threshold by cc > 0 selects the same cells. */
  lemma CellsAboveScale(r: Grid, th: real, cc: real, th': real)
    requires IsRect(r) && cc > 0.0 && th' == cc * th
    ensures IsRect(Scale(r, cc))
    ensures CellsAbove(Scale(r, cc), th') == CellsAbove(r, th)
  {
    ScaleRect(r, cc);
    var r' := Scale(r, cc);
    forall j, i | 0 <= j < |r| && 0 <= i < |r[j]|
      ensures r[j][i] > th <==> r'[j][i] > th'
    {
      ScaledCompare(r[j][i], th, cc);
    }
    RowsAboveAlike(r, th, r', th', |r|);
  }

  lemma SquarePositive(c: real, cc: real)
    requires c != 0.0 && cc == c * c
    ensures cc > 0.0
  {
    calc {
      cc;
    ==
      c * c;
    >
      0.0;
    }
  }

  lemma ScaledCompare(v: real, th: real, cc: real)
    requires cc > 0.0
    ensures v > th <==> cc * v > cc * th
  {
    assert cc * v - cc * th == cc * (v - th);
  }

  /** With all three sums zero the response is zero everywhere, the
      threshold is zero, and no cell is selected. */
  lemma HarrisCornersOfZeroSums(sx2: Grid, sy2: Grid, sxy: Grid, k: real, thPct: real)
    requires Aligned(sx2, sy2, sxy) && |sx2| > 0 && Width(sx2) > 0
    requires AllZero(sx2) && AllZero(sy2) && AllZero(sxy)
    ensures AllZero(ResponseMap(sx2, sy2, sxy, k))
    ensures Threshold(ResponseMap(sx2, sy2, sxy, k), thPct) == 0.0
    ensures HarrisCorners(sx2, sy2, sxy, k, thPct) == []
  {
    var r := ResponseMap(sx2, sy2, sxy, k);
    assert AllZero(r);
    var m := GridMax(r);
    GridMaxZero(r);
    var th := Threshold(r, thPct);
    assert th == thPct * m == 0.0;
    CellsAboveExact(r, th);
    NoMemberEmpty(CellsAbove(r, th));
  }
}
