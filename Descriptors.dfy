/** Patch descriptors around corners of an 8-bit gray image: the p×p block
    centred on each corner, flattened row by row; corners whose block would
    leave the image are dropped. Corners are (x, y) pairs: x is the column,
    y the row. */
module Descriptors {
  import opened Grids

  /** An 8-bit gray level. */
  type Pixel = b: int | 0 <= b < 256

  type Image = seq<seq<Pixel>>

  type Descriptor = seq<Pixel>

  /** How many indices the slice [lo:hi] selects once both bounds lie in range. */
  function SliceLen(lo: int, hi: int): nat {
    if lo < hi then hi - lo else 0
  }

  /** Both coordinates of every corner are non-negative. */
  predicate NonNegative(corners: seq<Corner>) {
    forall k :: 0 <= k < |corners| ==> corners[k].0 >= 0 && corners[k].1 >= 0
  }

  /** The crop bounds of corner c: columns [XMin, XMax) and rows [YMin, YMax),
      each half-size p / 2 (p // 2 for p >= 0) clamped into the image. */
  function XMin(c: Corner, p: nat): int {
    MaxInt(0, c.0 - p / 2)
  }

  function XMax(img: Image, c: Corner, p: nat): int {
    MinInt(Width(img), c.0 + p / 2)
  }

  function YMin(c: Corner, p: nat): int {
    MaxInt(0, c.1 - p / 2)
  }

  function YMax(img: Image, c: Corner, p: nat): int {
    MinInt(|img|, c.1 + p / 2)
  }

  /** img[y0:y1, x0:x1] for bounds already clamped into the image; an axis
      whose lower bound passes its upper bound is empty. */
  function Crop(img: Image, y0: int, y1: int, x0: int, x1: int): (patch: seq<seq<Pixel>>)
    requires IsRect(img) && 0 <= y0 && y1 <= |img| && 0 <= x0 && x1 <= Width(img)
    ensures |patch| == SliceLen(y0, y1)
    ensures forall r :: 0 <= r < |patch| ==> |patch[r]| == SliceLen(x0, x1)
    ensures forall r, c :: 0 <= r < |patch| && 0 <= c < |patch[r]| ==>
      y0 + r < y1 && x0 + c < x1 && patch[r][c] == img[y0 + r][x0 + c]
  {
    seq(SliceLen(y0, y1), r requires 0 <= r < SliceLen(y0, y1) => if x0 < x1 then img[y0 + r][x0..x1] else [])
  }

  /** The rows concatenated in order (numpy's flatten of a 2-D array). */
  function Flatten<T>(rows: seq<seq<T>>): seq<T> {
    if |rows| == 0 then [] else rows[0] + Flatten(rows[1..])
  }

  /** The crop around c is exactly p×p, so the corner is kept. */
  predicate Survives(img: Image, c: Corner, p: nat) {
    SliceLen(YMin(c, p), YMax(img, c, p)) == p && SliceLen(XMin(c, p), XMax(img, c, p)) == p
  }

  /** The descriptor of a kept corner: its crop, flattened. */
  function Patch(img: Image, c: Corner, p: nat): (d: Descriptor)
    requires IsRect(img) && Survives(img, c, p)
    ensures |d| == p * p
  {
    var rows := Crop(img, YMin(c, p), YMax(img, c, p), XMin(c, p), XMax(img, c, p));
    FlattenLength(rows, p);
    RowStartIsProduct(p, p);
    Flatten(rows)
  }

  /** The descriptors of the kept corners, in corner order. */
  function DescriptorsOf(img: Image, corners: seq<Corner>, p: nat): seq<Descriptor>
    requires IsRect(img)
  {
    if |corners| == 0 then []
    else
      var c := corners[|corners| - 1];
      DescriptorsOf(img, corners[..|corners| - 1], p) + (if Survives(img, c, p) then [Patch(img, c, p)] else [])
  }

  /** The positions in corners of the kept corners, ascending. */
  function KeptIndices(img: Image, corners: seq<Corner>, p: nat): seq<nat> {
    if |corners| == 0 then []
    else
      var n := |corners| - 1;
      KeptIndices(img, corners[..n], p) + (if Survives(img, corners[n], p) then [n] else [])
  }

  /** The extraction loop: crop around each corner, skip it unless the crop
      is p×p, otherwise append the flattened crop. */
  method ExtractDescriptors(img: Image, corners: seq<Corner>, p: nat) returns (descriptors: seq<Descriptor>)
    requires IsRect(img) && NonNegative(corners)
    ensures descriptors == DescriptorsOf(img, corners, p)
  {
    descriptors := [];
    for k := 0 to |corners|
      invariant descriptors == DescriptorsOf(img, corners[..k], p)
    {
      assert corners[..k + 1][..k] == corners[..k];
      var (x, y) := corners[k];
      var xMin := MaxInt(0, x - p / 2);
      var xMax := MinInt(Width(img), x + p / 2);
      var yMin := MaxInt(0, y - p / 2);
      var yMax := MinInt(|img|, y + p / 2);
      var patch := Crop(img, yMin, yMax, xMin, xMax);
      if SliceLen(yMin, yMax) != p || SliceLen(xMin, xMax) != p {
        continue;
      }
      descriptors := descriptors + [Flatten(patch)];
    }
    assert corners[..|corners|] == corners;
  }

  /** r·n: where row r starts when rows of length n are laid end to end. */
  function RowStart(r: nat, n: nat): nat {
    if r == 0 then 0 else RowStart(r - 1, n) + n
  }

  lemma {:induction false} RowStartIsProduct(r: nat, n: nat)
    ensures RowStart(r, n) == r * n
  {
    if r > 0 {
      RowStartIsProduct(r - 1, n);
    }
  }

  /** Flattening rows of length n gives RowStart(|rows|, n) = |rows|·n values. */
  lemma {:induction false} FlattenLength<T>(rows: seq<seq<T>>, n: nat)
    requires forall r :: 0 <= r < |rows| ==> |rows[r]| == n
    ensures |Flatten(rows)| == RowStart(|rows|, n)
  {
    if |rows| > 0 {
      FlattenLength(rows[1..], n);
    }
  }

  /** Row r occupies positions [RowStart(r, n), RowStart(r, n) + n) of the flattening. */
  lemma {:induction false} FlattenRow<T>(rows: seq<seq<T>>, n: nat, r: nat)
    requires forall r :: 0 <= r < |rows| ==> |rows[r]| == n
    requires r < |rows|
    ensures RowStart(r, n) + n <= |Flatten(rows)|
    ensures Flatten(rows)[RowStart(r, n)..RowStart(r, n) + n] == rows[r]
  {
    FlattenLength(rows, n);
    var rest := rows[1..];
    assert Flatten(rows) == rows[0] + Flatten(rest);
    if r > 0 {
      FlattenRow(rest, n, r - 1);
      assert rest[r - 1] == rows[r];
      var a := RowStart(r - 1, n);
      assert Flatten(rows)[n + a..n + a + n] == Flatten(rest)[a..a + n];
    } else {
      assert Flatten(rows)[0..n] == rows[0];
    }
  }

  /** A kept corner with p > 0 has its whole block inside the image and its
      crop bounds are the unclamped ones. */
  lemma PatchBounds(img: Image, c: Corner, p: nat)
    requires Survives(img, c, p) && p > 0
    ensures p / 2 <= c.0 && c.0 + p / 2 <= Width(img) && p / 2 <= c.1 && c.1 + p / 2 <= |img|
    ensures YMin(c, p) == c.1 - p / 2 && YMax(img, c, p) == c.1 + p / 2
    ensures XMin(c, p) == c.0 - p / 2 && XMax(img, c, p) == c.0 + p / 2
  {
  }

  /** A kept corner's descriptor holds, row by row, the image block of rows
      [y − p/2, y + p/2) and columns [x − p/2, x + p/2): its r-th run of p
      values is row y − p/2 + r of the image, columns [x − p/2, x + p/2). */
  lemma PatchContents(img: Image, c: Corner, p: nat)
    requires IsRect(img) && Survives(img, c, p)
    ensures p > 0 ==> p / 2 <= c.1 && c.1 + p / 2 <= |img| && p / 2 <= c.0 && c.0 + p / 2 <= Width(img)
    ensures forall r :: 0 <= r < p ==>
      RowStart(r, p) + p <= |Patch(img, c, p)| &&
      Patch(img, c, p)[RowStart(r, p)..RowStart(r, p) + p] == img[c.1 - p / 2 + r][c.0 - p / 2..c.0 + p / 2]
  {
    if p > 0 {
      PatchBounds(img, c, p);
      var h := p / 2;
      var rows := Crop(img, c.1 - h, c.1 + h, c.0 - h, c.0 + h);
      forall r | 0 <= r < p
        ensures RowStart(r, p) + p <= |Patch(img, c, p)| &&
          Patch(img, c, p)[RowStart(r, p)..RowStart(r, p) + p] == img[c.1 - h + r][c.0 - h..c.0 + h]
      {
        FlattenRow(rows, p, r);
        assert rows[r] == img[c.1 - h + r][c.0 - h..c.0 + h];
      }
    }
  }

  /** Row r of a kept corner's block, columns [x − p/2, x + p/2) of image
      row y − p/2 + r, sits at positions [r·p, r·p + p) of its descriptor. */
  lemma PatchRow(img: Image, c: Corner, p: nat, r: nat)
    requires IsRect(img) && Survives(img, c, p) && r < p
    ensures 0 <= c.1 - p / 2 + r < |img| && 0 <= c.0 - p / 2 <= c.0 + p / 2 <= Width(img)
    ensures r * p + p <= |Patch(img, c, p)|
    ensures Patch(img, c, p)[r * p..r * p + p] == img[c.1 - p / 2 + r][c.0 - p / 2..c.0 + p / 2]
  {
    PatchContents(img, c, p);
    RowStartIsProduct(r, p);
  }

  /** For an even patch size and a corner with non-negative coordinates, the
      corner is kept exactly when its whole block lies in the image (or p = 0,
      where every crop is the empty 0×0 patch). */
  lemma SurvivesIff(img: Image, c: Corner, p: nat)
    requires c.0 >= 0 && c.1 >= 0 && p % 2 == 0
    ensures Survives(img, c, p) <==>
      p == 0 || (p / 2 <= c.0 && c.0 + p / 2 <= Width(img) && p / 2 <= c.1 && c.1 + p / 2 <= |img|)
  {
    assert p == 2 * (p / 2);
  }

  /** For an odd patch size the crop is at most p − 1 wide, so no corner is kept. */
  lemma OddPatchNeverSurvives(img: Image, c: Corner, p: nat)
    requires p % 2 == 1
    ensures !Survives(img, c, p)
    ensures SliceLen(XMin(c, p), XMax(img, c, p)) <= p - 1
  {
    assert p == 2 * (p / 2) + 1;
  }

  lemma {:induction false} KeptLength(img: Image, corners: seq<Corner>, p: nat)
    requires IsRect(img)
    ensures |KeptIndices(img, corners, p)| == |DescriptorsOf(img, corners, p)| <= |corners|
  {
    if |corners| > 0 {
      KeptLength(img, corners[..|corners| - 1], p);
    }
  }

  lemma {:induction false} KeptPatches(img: Image, corners: seq<Corner>, p: nat)
    requires IsRect(img)
    ensures forall k :: 0 <= k < |KeptIndices(img, corners, p)| ==>
      KeptIndices(img, corners, p)[k] < |corners| && Survives(img, corners[KeptIndices(img, corners, p)[k]], p) &&
      k < |DescriptorsOf(img, corners, p)| &&
      DescriptorsOf(img, corners, p)[k] == Patch(img, corners[KeptIndices(img, corners, p)[k]], p)
  {
    if |corners| > 0 {
      var n := |corners| - 1;
      var front := corners[..n];
      KeptPatches(img, front, p);
      KeptLength(img, front, p);
      var K, D := KeptIndices(img, front, p), DescriptorsOf(img, front, p);
      var kept, ds := KeptIndices(img, corners, p), DescriptorsOf(img, corners, p);
      assert kept == K + (if Survives(img, corners[n], p) then [n] else []);
      assert ds == D + (if Survives(img, corners[n], p) then [Patch(img, corners[n], p)] else []);
      forall k | 0 <= k < |kept|
        ensures kept[k] < |corners| && Survives(img, corners[kept[k]], p) &&
          k < |ds| && ds[k] == Patch(img, corners[kept[k]], p)
      {
        if k < |K| {
          assert kept[k] == K[k] && ds[k] == D[k] && corners[K[k]] == front[K[k]];
        }
      }
    }
  }

  lemma {:induction false} KeptAscending(img: Image, corners: seq<Corner>, p: nat)
    ensures forall k :: 0 <= k < |KeptIndices(img, corners, p)| ==> KeptIndices(img, corners, p)[k] < |corners|
    ensures forall k, l :: 0 <= k < l < |KeptIndices(img, corners, p)| ==> KeptIndices(img, corners, p)[k] < KeptIndices(img, corners, p)[l]
  {
    if |corners| > 0 {
      KeptAscending(img, corners[..|corners| - 1], p);
    }
  }

  lemma {:induction false} KeptExactly(img: Image, corners: seq<Corner>, p: nat)
    ensures forall i :: i in KeptIndices(img, corners, p) <==> 0 <= i < |corners| && Survives(img, corners[i], p)
  {
    if |corners| > 0 {
      var n := |corners| - 1;
      var front := corners[..n];
      KeptExactly(img, front, p);
      assert forall i :: 0 <= i < n ==> corners[i] == front[i];
    }
  }

  /** The extraction keeps the corners that survive, in their original order:
      descriptor k is the patch of corner Kept[k], Kept is strictly increasing
      and lists exactly the surviving positions, and there are at most as many
      descriptors as corners. */
  lemma DescriptorsFromKept(img: Image, corners: seq<Corner>, p: nat)
    requires IsRect(img)
    ensures var kept, ds := KeptIndices(img, corners, p), DescriptorsOf(img, corners, p);
      |ds| == |kept| <= |corners| &&
      (forall k :: 0 <= k < |kept| ==> kept[k] < |corners| && Survives(img, corners[kept[k]], p) && ds[k] == Patch(img, corners[kept[k]], p)) &&
      (forall k, l :: 0 <= k < l < |kept| ==> kept[k] < kept[l]) &&
      (forall i :: 0 <= i < |corners| ==> (i in kept <==> Survives(img, corners[i], p)))
  {
    KeptLength(img, corners, p);
    KeptPatches(img, corners, p);
    KeptAscending(img, corners, p);
    KeptExactly(img, corners, p);
  }

  /** With an odd patch size the extraction returns nothing. */
  lemma OddPatchNoDescriptors(img: Image, corners: seq<Corner>, p: nat)
    requires IsRect(img) && p % 2 == 1
    ensures DescriptorsOf(img, corners, p) == []
  {
    KeptLength(img, corners, p);
    KeptPatches(img, corners, p);
    var kept := KeptIndices(img, corners, p);
    if kept != [] {
      OddPatchNeverSurvives(img, corners[kept[0]], p);
    }
  }
}
