/** Sums of an infinite integer plane over rectangles. */
module PlaneSums {
  import opened Common

  type Plane = (int, int) -> int

  /** Row y over columns x0..x1-1. */
  function RowSum(f: Plane, y: int, x0: int, x1: int): int
    decreases x1 - x0
  {
    if x1 <= x0 then 0 else RowSum(f, y, x0, x1 - 1) + f(x1 - 1, y)
  }

  /** Columns x0..x1-1 of rows y0..y1-1. */
  function RectSum(f: Plane, x0: int, x1: int, y0: int, y1: int): int
    decreases y1 - y0
  {
    if y1 <= y0 then 0 else RectSum(f, x0, x1, y0, y1 - 1) + RowSum(f, y1 - 1, x0, x1)
  }

  lemma {:induction false} RowSplit(f: Plane, y: int, x0: int, m: int, x1: int)
    requires x0 <= m <= x1
    ensures RowSum(f, y, x0, x1) == RowSum(f, y, x0, m) + RowSum(f, y, m, x1)
    decreases x1 - x0
  {
    if m < x1 { RowSplit(f, y, x0, m, x1 - 1); }
  }

  lemma {:induction false} RectSplitRows(f: Plane, x0: int, x1: int, y0: int, m: int, y1: int)
    requires y0 <= m <= y1
    ensures RectSum(f, x0, x1, y0, y1) == RectSum(f, x0, x1, y0, m) + RectSum(f, x0, x1, m, y1)
    decreases y1 - y0
  {
    if m < y1 { RectSplitRows(f, x0, x1, y0, m, y1 - 1); }
  }

  lemma {:induction false} RectSplitColumns(f: Plane, x0: int, m: int, x1: int, y0: int, y1: int)
    requires x0 <= m <= x1
    ensures RectSum(f, x0, x1, y0, y1) == RectSum(f, x0, m, y0, y1) + RectSum(f, m, x1, y0, y1)
    decreases y1 - y0
  {
    if y0 < y1 {
      RectSplitColumns(f, x0, m, x1, y0, y1 - 1);
      RowSplit(f, y1 - 1, x0, m, x1);
    }
  }

  /** A rectangle from four corners of the summed-area table at (x0, y0). */
  lemma FourCorners(f: Plane, x0: int, y0: int, a: int, b: int, c: int, d: int)
    requires x0 <= a <= b && y0 <= c <= d
    ensures RectSum(f, a, b, c, d)
            == RectSum(f, x0, a, y0, c) + RectSum(f, x0, b, y0, d) - RectSum(f, x0, b, y0, c) - RectSum(f, x0, a, y0, d)
  {
    RectSplitRows(f, x0, b, y0, c, d);
    RectSplitRows(f, x0, a, y0, c, d);
    RectSplitColumns(f, x0, a, b, c, d);
  }

  ghost predicate ZeroOn(f: Plane, x0: int, x1: int, y0: int, y1: int) {
    forall x, y :: x0 <= x < x1 && y0 <= y < y1 ==> f(x, y) == 0
  }

  lemma {:induction false} ZeroRow(f: Plane, y: int, x0: int, x1: int)
    requires forall x :: x0 <= x < x1 ==> f(x, y) == 0
    ensures RowSum(f, y, x0, x1) == 0
    decreases x1 - x0
  {
    if x0 < x1 { ZeroRow(f, y, x0, x1 - 1); }
  }

  lemma {:induction false} ZeroRect(f: Plane, x0: int, x1: int, y0: int, y1: int)
    requires ZeroOn(f, x0, x1, y0, y1)
    ensures RectSum(f, x0, x1, y0, y1) == 0
    decreases y1 - y0
  {
    if y0 < y1 {
      ZeroRect(f, x0, x1, y0, y1 - 1);
      ZeroRow(f, y1 - 1, x0, x1);
    }
  }

  lemma {:induction false} EvenRow(f: Plane, y: int, x0: int, x1: int, c: int)
    requires x0 <= x1 && forall x :: x0 <= x < x1 ==> f(x, y) == c
    ensures RowSum(f, y, x0, x1) == c * (x1 - x0)
    decreases x1 - x0
  {
    if x0 < x1 { EvenRow(f, y, x0, x1 - 1, c); }
  }

  lemma {:induction false} EvenRect(f: Plane, x0: int, x1: int, y0: int, y1: int, c: int)
    requires x0 <= x1 && y0 <= y1 && forall x, y :: x0 <= x < x1 && y0 <= y < y1 ==> f(x, y) == c
    ensures RectSum(f, x0, x1, y0, y1) == c * (x1 - x0) * (y1 - y0)
    decreases y1 - y0
  {
    if y0 < y1 {
      EvenRect(f, x0, x1, y0, y1 - 1, c);
      EvenRow(f, y1 - 1, x0, x1, c);
      var row := c * (x1 - x0);
      assert row * (y1 - y0) == row * (y1 - 1 - y0) + row;
    }
  }

  /** Whatever of a window lies outside a region in which all non-zero values
      of the window lie can be cut off. */
  lemma ClipSum(f: Plane, x0: int, x1: int, y0: int, y1: int, a: int, b: int, c: int, d: int)
    requires a <= b && c <= d
    requires Max(a, x0) <= Min(b, x1) && Max(c, y0) <= Min(d, y1)
    requires forall x, y :: a <= x < b && c <= y < d && !(x0 <= x < x1 && y0 <= y < y1) ==> f(x, y) == 0
    ensures RectSum(f, a, b, c, d) == RectSum(f, Max(a, x0), Min(b, x1), Max(c, y0), Min(d, y1))
  {
    var a', b', c', d' := Max(a, x0), Min(b, x1), Max(c, y0), Min(d, y1);
    RectSplitRows(f, a, b, c, c', d);
    RectSplitRows(f, a, b, c', d', d);
    ZeroRect(f, a, b, c, c');
    ZeroRect(f, a, b, d', d);
    RectSplitColumns(f, a, a', b, c', d');
    RectSplitColumns(f, a', b', b, c', d');
    ZeroRect(f, a, a', c', d');
    ZeroRect(f, b', b, c', d');
  }

  ghost predicate Bounded(f: Plane) {
    forall x, y :: 0 <= f(x, y) <= 255
  }

  lemma {:induction false} RowBound(f: Plane, y: int, x0: int, x1: int)
    requires Bounded(f) && x0 <= x1
    ensures 0 <= RowSum(f, y, x0, x1) <= 255 * (x1 - x0)
    decreases x1 - x0
  {
    if x0 < x1 { RowBound(f, y, x0, x1 - 1); }
  }

  lemma {:induction false} RectBound(f: Plane, x0: int, x1: int, y0: int, y1: int)
    requires Bounded(f) && x0 <= x1 && y0 <= y1
    ensures 0 <= RectSum(f, x0, x1, y0, y1) <= 255 * (x1 - x0) * (y1 - y0)
    decreases y1 - y0
  {
    if y0 < y1 {
      RectBound(f, x0, x1, y0, y1 - 1);
      RowBound(f, y1 - 1, x0, x1);
      var w, h := 255 * (x1 - x0), y1 - y0;
      assert w * (h - 1) + w == w * h;
    }
  }
}
