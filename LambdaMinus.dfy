/** Corner selection of the lambda-minus detector: a threshold at a fraction
    of the map's maximum followed by windowed non-maximum suppression. The
    lambda-minus map itself (gradients, structure tensor, eigenvalues) is an
    input. Corners are (x, y) pairs: x is the column, y the row. */
module LambdaMinus {
  import opened Grids

  /** (x, y) lies at least w cells away from every border: the band the
      detector scans. */
  predicate InBand(m: Grid, w: nat, x: int, y: int) {
    w <= y < |m| - w && w <= x < Width(m) - w
  }

  /** m[y][x] is at least every value of the (2w+1)×(2w+1) window centred on it. */
  predicate DominatesWindow(m: Grid, w: nat, x: int, y: int)
    requires IsRect(m) && InBand(m, w, x, y)
  {
    forall j, i :: y - w <= j <= y + w && x - w <= i <= x + w ==> m[j][i] <= m[y][x]
  }

  /** (x, y) is reported as a corner for threshold th. */
  predicate IsPeak(m: Grid, w: nat, th: real, x: int, y: int)
    requires IsRect(m)
  {
    InBand(m, w, x, y) && m[y][x] > th && DominatesWindow(m, w, x, y)
  }

  /** The corners of row y at columns w <= x < xEnd, left to right. */
  function RowPeaks(m: Grid, w: nat, th: real, y: int, xEnd: int): seq<Corner>
    requires IsRect(m)
    decreases xEnd - w
  {
    if xEnd <= w then []
    else RowPeaks(m, w, th, y, xEnd - 1) + (if IsPeak(m, w, th, xEnd - 1, y) then [(xEnd - 1, y)] else [])
  }

  /** The corners of rows w <= y < yEnd, in scan order. */
  function PeaksAbove(m: Grid, w: nat, th: real, yEnd: int): seq<Corner>
    requires IsRect(m)
    decreases yEnd - w
  {
    if yEnd <= w then []
    else PeaksAbove(m, w, th, yEnd - 1) + RowPeaks(m, w, th, yEnd - 1, Width(m) - w)
  }

  /** Every corner of the map for threshold th, in scan order. */
  function Peaks(m: Grid, w: nat, th: real): seq<Corner>
    requires IsRect(m)
  {
    PeaksAbove(m, w, th, |m| - w)
  }

  /** The double loop of the detector: scan the band row by row and append
      every pixel above the threshold that equals its window's maximum. */
  method NonMaxSuppression(m: Grid, w: nat, thPct: real) returns (corners: seq<Corner>)
    requires IsRect(m) && |m| > 0 && Width(m) > 0
    ensures corners == Peaks(m, w, Threshold(m, thPct))
  {
    var threshold := Threshold(m, thPct);
    corners := [];
    var y := w;
    while y < |m| - w
      invariant w <= y <= |m| - w || y == w
      invariant corners == PeaksAbove(m, w, threshold, y)
    {
      corners := ScanRow(m, w, threshold, y, corners);
      y := y + 1;
    }
  }

  /** The inner loop of the detector over row y: append every pixel of the
      band above th that equals its window's maximum. */
  method ScanRow(m: Grid, w: nat, th: real, y: int, done: seq<Corner>) returns (corners: seq<Corner>)
    requires IsRect(m) && w <= y < |m| - w
    ensures corners == done + RowPeaks(m, w, th, y, Width(m) - w)
  {
    corners := done;
    var x := w;
    while x < Width(m) - w
      invariant w <= x <= Width(m) - w || x == w
      invariant corners == done + RowPeaks(m, w, th, y, x)
    {
      ghost var before := corners;
      if m[y][x] > th {
        var windowMax := RegionMax(m, y - w, y + w + 1, x - w, x + w + 1);
        if m[y][x] == windowMax {
          corners := corners + [(x, y)];
        }
      }
      PeakStep(m, w, th, x, y, done, before, corners);
      x := x + 1;
    }
  }

  /** Inside the band, "equals the maximum of its window" is "dominates its
      window": appending the pixel exactly when it exceeds th and equals the
      maximum of its window extends the scan by one pixel of row y. */
  lemma PeakStep(m: Grid, w: nat, th: real, x: int, y: int, done: seq<Corner>, before: seq<Corner>, after: seq<Corner>)
    requires IsRect(m) && InBand(m, w, x, y)
    requires before == done + RowPeaks(m, w, th, y, x)
    requires after == before + (if m[y][x] > th && m[y][x] == RegionMax(m, y - w, y + w + 1, x - w, x + w + 1) then [(x, y)] else [])
    ensures after == done + RowPeaks(m, w, th, y, x + 1)
  {
    assert IsPeak(m, w, th, x, y) <==> m[y][x] > th && m[y][x] == RegionMax(m, y - w, y + w + 1, x - w, x + w + 1);
  }

  lemma {:induction false} RowPeaksMembers(m: Grid, w: nat, th: real, y: int, xEnd: int)
    requires IsRect(m)
    ensures forall c :: c in RowPeaks(m, w, th, y, xEnd) <==> c.1 == y && c.0 < xEnd && IsPeak(m, w, th, c.0, c.1)
    decreases xEnd - w
  {
    if xEnd > w {
      RowPeaksMembers(m, w, th, y, xEnd - 1);
    }
  }

  lemma {:induction false} PeaksAboveMembers(m: Grid, w: nat, th: real, yEnd: int)
    requires IsRect(m)
    ensures forall c :: c in PeaksAbove(m, w, th, yEnd) <==> c.1 < yEnd && IsPeak(m, w, th, c.0, c.1)
    decreases yEnd - w
  {
    if yEnd > w {
      var rows, row := PeaksAbove(m, w, th, yEnd - 1), RowPeaks(m, w, th, yEnd - 1, Width(m) - w);
      assert PeaksAbove(m, w, th, yEnd) == rows + row;
      PeaksAboveMembers(m, w, th, yEnd - 1);
      RowPeaksMembers(m, w, th, yEnd - 1, Width(m) - w);
      forall c: Corner
        ensures c in rows + row <==> c.1 < yEnd && IsPeak(m, w, th, c.0, c.1)
      {
        assert c in rows + row <==> c in rows || c in row;
      }
    }
  }

  /** A pixel is reported exactly when it lies in the band, exceeds the
      threshold and is at least every value of its window; pixels sharing a
      window maximum are all reported. */
  lemma PeaksExact(m: Grid, w: nat, th: real)
    requires IsRect(m)
    ensures forall c :: c in Peaks(m, w, th) <==> IsPeak(m, w, th, c.0, c.1)
  {
    PeaksAboveMembers(m, w, th, |m| - w);
  }

  /** Every corner is at least w away from each border; a map with no more
      than 2w rows or columns has no corners. */
  lemma PeaksInBand(m: Grid, w: nat, th: real)
    requires IsRect(m)
    ensures forall c :: c in Peaks(m, w, th) ==> w <= c.0 < Width(m) - w && w <= c.1 < |m| - w
    ensures |m| <= 2 * w || Width(m) <= 2 * w ==> Peaks(m, w, th) == []
  {
    PeaksExact(m, w, th);
    if |m| <= 2 * w || Width(m) <= 2 * w {
      NoMemberEmpty(Peaks(m, w, th));
    }
  }

  lemma {:induction false} RowPeaksInScanOrder(m: Grid, w: nat, th: real, y: int, xEnd: int)
    requires IsRect(m)
    ensures InScanOrder(RowPeaks(m, w, th, y, xEnd), ColRow)
    decreases xEnd - w
  {
    if xEnd > w {
      RowPeaksInScanOrder(m, w, th, y, xEnd - 1);
      RowPeaksMembers(m, w, th, y, xEnd - 1);
      var tail: seq<Corner> := if IsPeak(m, w, th, xEnd - 1, y) then [(xEnd - 1, y)] else [];
      AppendInScanOrder(RowPeaks(m, w, th, y, xEnd - 1), tail, ColRow);
    }
  }

  lemma {:induction false} PeaksAboveInScanOrder(m: Grid, w: nat, th: real, yEnd: int)
    requires IsRect(m)
    ensures InScanOrder(PeaksAbove(m, w, th, yEnd), ColRow)
    decreases yEnd - w
  {
    if yEnd > w {
      var rows, row := PeaksAbove(m, w, th, yEnd - 1), RowPeaks(m, w, th, yEnd - 1, Width(m) - w);
      assert PeaksAbove(m, w, th, yEnd) == rows + row;
      PeaksAboveInScanOrder(m, w, th, yEnd - 1);
      PeaksAboveMembers(m, w, th, yEnd - 1);
      RowPeaksInScanOrder(m, w, th, yEnd - 1, Width(m) - w);
      RowPeaksMembers(m, w, th, yEnd - 1, Width(m) - w);
      forall p: Corner, q: Corner | p in rows && q in row
        ensures Precedes(p, q, ColRow)
      {
        assert p.1 < yEnd - 1 == q.1;
      }
      AppendInScanOrder(rows, row, ColRow);
    }
  }

  /** The corners come in row-major scan order (y ascending, then x), hence
      without duplicates. */
  lemma PeaksInScanOrder(m: Grid, w: nat, th: real)
    requires IsRect(m)
    ensures InScanOrder(Peaks(m, w, th), ColRow)
    ensures forall i, j :: 0 <= i < j < |Peaks(m, w, th)| ==> Peaks(m, w, th)[i] != Peaks(m, w, th)[j]
  {
    PeaksAboveInScanOrder(m, w, th, |m| - w);
  }

  /** On an all-zero map the threshold is zero and nothing exceeds it. */
  lemma PeaksOfZeroMap(m: Grid, w: nat, thPct: real)
    requires IsRect(m) && |m| > 0 && Width(m) > 0 && AllZero(m)
    ensures Threshold(m, thPct) == 0.0
    ensures Peaks(m, w, Threshold(m, thPct)) == []
  {
    var top := GridMax(m);
    GridMaxZero(m);
    var th := Threshold(m, thPct);
    assert th == thPct * top == 0.0;
    PeaksExact(m, w, th);
    NoMemberEmpty(Peaks(m, w, th));
  }

  /** Two equal neighbouring maxima are both kept: non-maximum suppression
      here compares with "at least", not "strictly greater". */
  lemma PlateauBothKept()
    ensures Peaks([[0.0, 0.0, 0.0, 0.0], [0.0, 1.0, 1.0, 0.0], [0.0, 0.0, 0.0, 0.0]], 1, 0.0) == [(1, 1), (2, 1)]
  {
    var m := [[0.0, 0.0, 0.0, 0.0], [0.0, 1.0, 1.0, 0.0], [0.0, 0.0, 0.0, 0.0]];
    assert IsPeak(m, 1, 0.0, 1, 1);
    assert IsPeak(m, 1, 0.0, 2, 1);
  }
}
