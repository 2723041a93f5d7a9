/** The movement figure of the two legacy scripts (meisencam.py and
    movedetection.py): both images are shrunk to a 4x3 grey thumbnail and the
    absolute pixel differences are summed by a loop over columns x and, inside
    it, rows y, then divided by the number of pixels.

    A thumbnail is the row-major grey buffer of the resized image, so the pixel
    at (x, y) of a thumbnail `t` of width `w` is t[y * w + x]. */
module Thumbnail {
  import opened Common

  const Width: nat := 4
  const Height: nat := 3

  predicate IsThumb(t: seq<int>) {
    |t| == Width * Height && IsGrey(t)
  }

  lemma IndexInRange(w: nat, h: nat, x: nat, y: nat)
    requires x < w && y < h
    ensures y * w + x < w * h
  {
    assert y * w <= (h - 1) * w;
  }

  lemma RowStartInRange(w: nat, h: nat, y: nat)
    requires y <= h
    ensures y * w <= w * h
  {
  }

  /** |new - old| at column x, row y. */
  function PixelDiff(a: seq<int>, b: seq<int>, w: nat, h: nat, x: nat, y: nat): nat
    requires |a| == |b| == w * h && x < w && y < h
  {
    IndexInRange(w, h, x, y);
    AbsDiff(a[y * w + x], b[y * w + x])
  }

  /** Sum of |a[i] - b[i]| over the first n buffer positions. */
  function FlatSum(a: seq<int>, b: seq<int>, n: nat): nat
    requires n <= |a| == |b|
  {
    if n == 0 then 0 else FlatSum(a, b, n - 1) + AbsDiff(a[n - 1], b[n - 1])
  }

  /** The reference figure: the total absolute difference over every position. */
  function TotalAbsDiff(a: seq<int>, b: seq<int>): nat
    requires |a| == |b|
  {
    FlatSum(a, b, |a|)
  }

  /** Differences of column x over rows 0 .. y-1 (the inner loop). */
  function ColumnSum(a: seq<int>, b: seq<int>, w: nat, h: nat, x: nat, y: nat): nat
    requires |a| == |b| == w * h && x < w && y <= h
  {
    if y == 0 then 0 else ColumnSum(a, b, w, h, x, y - 1) + PixelDiff(a, b, w, h, x, y - 1)
  }

  /** Full columns 0 .. x-1 (the outer loop). */
  function Columns(a: seq<int>, b: seq<int>, w: nat, h: nat, x: nat): nat
    requires |a| == |b| == w * h && x <= w
  {
    if x == 0 then 0 else Columns(a, b, w, h, x - 1) + ColumnSum(a, b, w, h, x - 1, h)
  }

  /** Differences of row y over columns 0 .. x-1. */
  function RowSum(a: seq<int>, b: seq<int>, w: nat, h: nat, y: nat, x: nat): nat
    requires |a| == |b| == w * h && y < h && x <= w
  {
    if x == 0 then 0 else RowSum(a, b, w, h, y, x - 1) + PixelDiff(a, b, w, h, x - 1, y)
  }

  /** Rows 0 .. y-1, each over columns 0 .. x-1. */
  function Rows(a: seq<int>, b: seq<int>, w: nat, h: nat, y: nat, x: nat): nat
    requires |a| == |b| == w * h && y <= h && x <= w
  {
    if y == 0 then 0 else Rows(a, b, w, h, y - 1, x) + RowSum(a, b, w, h, y - 1, x)
  }

  /** Within one row, buffer order and column order agree. */
  lemma {:induction false} FlatSumWithinRow(a: seq<int>, b: seq<int>, w: nat, h: nat, y: nat, x: nat)
    requires |a| == |b| == w * h && y < h && x <= w
    ensures y * w + x <= |a|
    ensures FlatSum(a, b, y * w + x) == FlatSum(a, b, y * w) + RowSum(a, b, w, h, y, x)
  {
    if x == 0 {
      RowStartInRange(w, h, y);
    } else {
      FlatSumWithinRow(a, b, w, h, y, x - 1);
      IndexInRange(w, h, x - 1, y);
    }
  }

  /** The first y rows of the buffer are the first y * w positions. */
  lemma {:induction false} FlatSumIsRows(a: seq<int>, b: seq<int>, w: nat, h: nat, y: nat)
    requires |a| == |b| == w * h && y <= h
    ensures y * w <= |a|
    ensures FlatSum(a, b, y * w) == Rows(a, b, w, h, y, w)
  {
    if y == 0 {
    } else {
      FlatSumIsRows(a, b, w, h, y - 1);
      FlatSumWithinRow(a, b, w, h, y - 1, w);
      assert (y - 1) * w + w == y * w;
    }
  }

  /** Widening every row by one column adds that column's sum. */
  lemma {:induction false} RowsStep(a: seq<int>, b: seq<int>, w: nat, h: nat, y: nat, x: nat)
    requires |a| == |b| == w * h && y <= h && x < w
    ensures Rows(a, b, w, h, y, x + 1) == Rows(a, b, w, h, y, x) + ColumnSum(a, b, w, h, x, y)
  {
    if y > 0 {
      RowsStep(a, b, w, h, y - 1, x);
    }
  }

  lemma {:induction false} RowsEmpty(a: seq<int>, b: seq<int>, w: nat, h: nat, y: nat)
    requires |a| == |b| == w * h && y <= h
    ensures Rows(a, b, w, h, y, 0) == 0
  {
    if y > 0 {
      RowsEmpty(a, b, w, h, y - 1);
    }
  }

  /** Summing row by row equals summing column by column. */
  lemma {:induction false} RowsAreColumns(a: seq<int>, b: seq<int>, w: nat, h: nat, x: nat)
    requires |a| == |b| == w * h && x <= w
    ensures Rows(a, b, w, h, h, x) == Columns(a, b, w, h, x)
  {
    if x == 0 {
      RowsEmpty(a, b, w, h, h);
    } else {
      RowsAreColumns(a, b, w, h, x - 1);
      RowsStep(a, b, w, h, h, x - 1);
    }
  }

  /** The column-major loop order computes the total difference of the buffer. */
  lemma ColumnsIsTotal(a: seq<int>, b: seq<int>, w: nat, h: nat)
    requires |a| == |b| == w * h
    ensures Columns(a, b, w, h, w) == TotalAbsDiff(a, b)
  {
    RowsAreColumns(a, b, w, h, w);
    FlatSumIsRows(a, b, w, h, h);
    assert h * w == |a|;
  }

  /** The nested loop of calculate_movement: for x in range(4), for y in
      range(3), add |new(x, y) - old(x, y)|. */
  method SumAbsDiff(neu: seq<int>, alt: seq<int>) returns (differenz: int)
    requires |neu| == |alt| == Width * Height
    ensures differenz == TotalAbsDiff(neu, alt)
  {
    differenz := 0;
    for x := 0 to Width
      invariant differenz == Columns(neu, alt, Width, Height, x)
    {
      for y := 0 to Height
        invariant differenz == Columns(neu, alt, Width, Height, x) + ColumnSum(neu, alt, Width, Height, x, y)
      {
        differenz := differenz + AbsDiff(neu[y * Width + x], alt[y * Width + x]);
      }
    }
    ColumnsIsTotal(neu, alt, Width, Height);
  }

  /** The movement figure: mean absolute difference per thumbnail pixel. */
  function MeanAbsDiff(a: seq<int>, b: seq<int>): (m: real)
    requires |a| == |b| > 0
    ensures m >= 0.0
    ensures IsGrey(a) && IsGrey(b) ==> m <= 255.0
  {
    FlatSumBound(a, b, |a|);
    MeanBound(TotalAbsDiff(a, b), |a|);
    TotalAbsDiff(a, b) as real / |a| as real
  }

  lemma MeanBound(total: nat, n: nat)
    requires n > 0
    ensures total as real / n as real >= 0.0
    ensures total <= 255 * n ==> total as real / n as real <= 255.0
  {
    var q := total as real / n as real;
    assert q * n as real == total as real;
    if total <= 255 * n {
      assert total as real <= 255.0 * n as real;
    }
  }

  /** Each grey difference is at most 255. */
  lemma {:induction false} FlatSumBound(a: seq<int>, b: seq<int>, n: nat)
    requires n <= |a| == |b|
    ensures IsGrey(a) && IsGrey(b) ==> FlatSum(a, b, n) <= 255 * n
  {
    if n > 0 {
      FlatSumBound(a, b, n - 1);
    }
  }

  /** The total difference vanishes exactly on equal prefixes. */
  lemma {:induction false} FlatSumZeroIff(a: seq<int>, b: seq<int>, n: nat)
    requires n <= |a| == |b|
    ensures FlatSum(a, b, n) == 0 <==> a[..n] == b[..n]
  {
    if n > 0 {
      FlatSumZeroIff(a, b, n - 1);
      assert a[..n] == a[..n - 1] + [a[n - 1]] && b[..n] == b[..n - 1] + [b[n - 1]];
      if a[..n] == b[..n] {
        assert a[..n - 1] == a[..n][..n - 1] && b[..n - 1] == b[..n][..n - 1];
        assert a[n - 1] == a[..n][n - 1];
      }
    }
  }

  lemma {:induction false} FlatSumSymmetric(a: seq<int>, b: seq<int>, n: nat)
    requires n <= |a| == |b|
    ensures FlatSum(a, b, n) == FlatSum(b, a, n)
  {
    if n > 0 {
      FlatSumSymmetric(a, b, n - 1);
    }
  }

  /** The figure is 0 exactly when the two thumbnails are identical. */
  lemma MeanAbsDiffZeroIff(a: seq<int>, b: seq<int>)
    requires |a| == |b| > 0
    ensures MeanAbsDiff(a, b) == 0.0 <==> a == b
  {
    FlatSumZeroIff(a, b, |a|);
    assert a[..|a|] == a && b[..|b|] == b;
  }

  /** Which thumbnail is the old one does not matter. */
  lemma MeanAbsDiffSymmetric(a: seq<int>, b: seq<int>)
    requires |a| == |b| > 0
    ensures MeanAbsDiff(a, b) == MeanAbsDiff(b, a)
  {
    FlatSumSymmetric(a, b, |a|);
  }

  /** The movement figure of one cycle: 0 while there is no old image yet,
      otherwise the mean difference against it. It is 0 exactly when nothing
      moved. */
  function Movement(neu: seq<int>, alt: Option<seq<int>>): (k: real)
    requires IsThumb(neu) && (alt.Some? ==> IsThumb(alt.value))
    ensures 0.0 <= k <= 255.0
    ensures k == 0.0 <==> alt.None? || alt.value == neu
  {
    if alt.None? then 0.0
    else
      MeanAbsDiffZeroIff(neu, alt.value);
      MeanAbsDiff(neu, alt.value)
  }

  /** The figure as calculate_movement computes it, by the nested loop. */
  method ComputeMovement(neu: seq<int>, alt: Option<seq<int>>) returns (kennzahl: real)
    requires IsThumb(neu) && (alt.Some? ==> IsThumb(alt.value))
    ensures kennzahl == Movement(neu, alt)
  {
    if alt.None? {
      return 0.0;
    }
    var differenz := SumAbsDiff(neu, alt.value);
    kennzahl := differenz as real / (Width * Height) as real;
  }
}
