/** One pass of the box blur: its summed-area table, filled row by row. */
module BoxPass {
  import opened Common
  import opened PlaneSums

  const WORD := 0x1_0000_0000

  /** A value as a uint32_t holds it. */
  function Wrap(v: int): int {
    v % WORD
  }

  /** A uint32_t stored in an int32_t. */
  function Signed(v: int): int {
    if v < 0x8000_0000 then v else v - WORD
  }

  /** The one value of 32 bits, and the one of 31 bits and a sign, that differ from
      a number by a multiple of 2^32. */
  lemma WordsAre(v: int)
    ensures 0 <= Wrap(v) <= 0xFFFF_FFFF && (v - Wrap(v)) % 0x1_0000_0000 == 0
    ensures 0 <= v <= 0xFFFF_FFFF ==>
              -0x8000_0000 <= Signed(v) <= 0x7FFF_FFFF && (v - Signed(v)) % 0x1_0000_0000 == 0
  {
    assert v == v / WORD * WORD + Wrap(v);
  }

  lemma WrapSum(a: int, b: int, c: int, r: int)
    ensures Wrap(Wrap(Wrap(Wrap(a) + r) + Wrap(b)) - Wrap(c)) == Wrap(a + r + b - c)
  {
    hide Wrap;
    WrapIn(r, a);
    WrapIn(a + r, b);
    WrapOut(a + r + b, c);
  }

  lemma WrapIn(x: int, y: int)
    ensures Wrap(Wrap(x) + Wrap(y)) == Wrap(x + y) && Wrap(x + Wrap(y)) == Wrap(x + y)
  {
  }

  lemma WrapOut(x: int, y: int)
    ensures Wrap(Wrap(x) - Wrap(y)) == Wrap(x - y) && Wrap(x - Wrap(y)) == Wrap(x - y)
  {
  }

  /** Four wrapped corners still give a sum that fits. */
  lemma WrapCorners(a: int, b: int, c: int, d: int)
    requires 0 <= a + b - c - d < WORD
    ensures Wrap(Wrap(a) + Wrap(b) - Wrap(c) - Wrap(d)) == a + b - c - d
  {
    Small(a + b - c - d);
    hide Wrap;
    WrapOut(Wrap(a) + Wrap(b) - Wrap(c), d);
    WrapOut(Wrap(a) + Wrap(b) - d, c);
    WrapIn(Wrap(a) - c - d, b);
    WrapIn(b - c - d, a);
  }

  lemma Small(v: int)
    requires 0 <= v < WORD
    ensures Wrap(v) == v
  {
  }

  /** Step through the rows of a table of h rows, from wherever. */
  method NormalRow(row: int, h: int) returns (r: int)
    requires 0 < h
    ensures r == row % h
  {
    r := row;
    while r < 0
      invariant r % h == row % h
      decreases -r
    {
      ModShift(r, h);
      r := r + h;
    }
    r := r % h;
  }

  lemma ModShift(r: int, h: int)
    requires 0 < h
    ensures (r + h) % h == r % h
  {
    var q := r / h;
    assert r == q * h + r % h;
    ModUnique(r + h, h, q + 1, r % h);
  }

  lemma ModUnique(x: int, h: int, q: int, r: int)
    requires 0 < h && x == q * h + r && 0 <= r < h
    ensures x % h == r
  {
    var k := x / h;
    assert x == k * h + x % h;
    assert (k - q) * h == r - x % h;
    assert (q - k) * h == -((k - q) * h);
    MulAtLeast(k - q, h);
    MulAtLeast(q - k, h);
  }

  lemma MulAtLeast(n: int, h: int)
    requires 0 < h
    ensures 1 <= n ==> h <= n * h
  {
    if 1 <= n { assert n * h == (n - 1) * h + h; }
  }

  /** The row after row t - 1. */
  lemma ModNext(t: int, h: int)
    requires 1 < h
    ensures t % h == if (t - 1) % h < h - 1 then (t - 1) % h + 1 else 0
  {
    var q, r := (t - 1) / h, (t - 1) % h;
    assert t - 1 == q * h + r;
    if r < h - 1 { ModUnique(t, h, q, r + 1); } else { assert (q + 1) * h == q * h + h; ModUnique(t, h, q + 1, 0); }
  }

  /** Fewer than h rows apart, rows do not share a place. */
  lemma ModDistinct(s: int, t: int, h: int)
    requires s < t < s + h
    ensures s % h != t % h
  {
    var q, r := s / h, s % h;
    assert s == q * h + r;
    if r + (t - s) < h { ModUnique(t, h, q, r + (t - s)); }
    else { assert (q + 1) * h == q * h + h; ModUnique(t, h, q + 1, r + (t - s) - h); }
  }

  /** Clear the columns from..to-1 of a mask row. */
  method ZeroMask(mask: array<int>, from: int, to: int)
    requires 0 <= from <= to <= mask.Length
    modifies mask
    ensures forall x :: from <= x < to ==> mask[x] == 0
    ensures forall x :: 0 <= x < mask.Length && !(from <= x < to) ==> mask[x] == old(mask[x])
  {
    for x := from to to
      invariant forall k :: from <= k < x ==> mask[k] == 0
      invariant forall k :: 0 <= k < mask.Length && !(from <= k < x) ==> mask[k] == old(mask[k])
    {
      mask[x] := 0;
    }
  }

  class PassInfo {
    const left: int
    const top: int
    const right: int
    const bottom: int
    const radius: int
    const window: int
    const width: int
    const stride: int
    const height: int
    const buffer_height: int
    const buffer: array2<int>
    var buffer_nextrow: int
    var buffer_needrow: int

    constructor (left: int, top: int, right: int, bottom: int, radius: int)
      requires left <= right && top < bottom && 0 <= radius
      ensures this.left == left && this.top == top && this.right == right && this.bottom == bottom
               && this.radius == radius
      ensures Shaped() && fresh(buffer)
      ensures buffer_nextrow == top && buffer_needrow == top - 1
      ensures forall i, c :: 0 <= i < buffer_height && 0 <= c < stride ==> buffer[i, c] == 0
    {
      this.left, this.top, this.right, this.bottom, this.radius := left, top, right, bottom, radius;
      window := radius * 2 + 1;
      width := right - left;
      stride := right - left + 1;
      height := bottom - top;
      buffer_height := bottom - top + 1;
      buffer := new int[bottom - top + 1, right - left + 1]((_, _) => 0);
      buffer_nextrow := top;
      buffer_needrow := top - 1;
    }

    /** What the sizes mean.  The table has one row and one column of zeros more
        than the region. */
    ghost predicate Shaped() {
      && width == right - left >= 0 && stride == width + 1 && window == radius * 2 + 1 && 0 <= radius
      && height == bottom - top > 0 && buffer_height == height + 1
      && buffer.Length0 == buffer_height && buffer.Length1 == stride
    }

    /** The table's row for t holds the sums over all rows of the region up to t. */
    ghost predicate RowDone(f: Plane, t: int)
      requires Shaped()
      reads buffer
    {
      forall c :: 0 <= c <= width ==> buffer[t % buffer_height, c] == Wrap(RectSum(f, left, left + c, top, t + 1))
    }

    /** The rows before upto, and the row of zeros before the first, are right. */
    ghost predicate Filled(f: Plane, upto: int)
      reads buffer
    {
      && Shaped() && top <= upto <= bottom
      && (forall i :: 0 <= i < buffer_height ==> buffer[i, 0] == 0)
      && (forall t :: top - 1 <= t < upto ==> RowDone(f, t))
    }

    lemma StartsFilled(f: Plane)
      requires Shaped()
      requires forall i, c :: 0 <= i < buffer_height && 0 <= c < stride ==> buffer[i, c] == 0
      ensures Filled(f, top)
    {
    }

    /** Write one row of the table from the one before it. */
    method SumRow(row: array<int>, prev: int, cur: int, t: int, ghost f: Plane)
      requires Shaped() && top <= t < bottom && row.Length >= width
      requires 0 <= prev < buffer_height && 0 <= cur < buffer_height && prev != cur
      requires buffer[cur, 0] == 0
      requires forall x :: 0 <= x < width ==> row[x] == f(left + x, t)
      requires forall c :: 0 <= c <= width ==> buffer[prev, c] == Wrap(RectSum(f, left, left + c, top, t))
      modifies buffer
      ensures forall c :: 0 <= c <= width ==> buffer[cur, c] == Wrap(RectSum(f, left, left + c, top, t + 1))
      ensures forall i, c :: 0 <= i < buffer_height && 0 <= c <= width && i != cur ==> buffer[i, c] == old(buffer[i, c])
      ensures buffer[cur, 0] == 0
    {
      hide Wrap;
      EmptyColumn(f, t + 1);
      var alpha := 0;
      for x := 0 to width
        invariant alpha == Wrap(RectSum(f, left, left + x, top, t + 1))
        invariant buffer[cur, 0] == 0
        invariant forall c :: 0 <= c <= x ==> buffer[cur, c] == Wrap(RectSum(f, left, left + c, top, t + 1))
        invariant forall i, c :: 0 <= i < buffer_height && 0 <= c <= width && i != cur ==>
                  buffer[i, c] == old(buffer[i, c])
      {
        AlphaStep(f, x, t);
        alpha := Wrap(alpha + row[x]);
        alpha := Wrap(alpha + buffer[prev, x + 1]);
        alpha := Wrap(alpha - buffer[prev, x]);
        buffer[cur, x + 1] := alpha;
      }
    }

    lemma EmptyColumn(f: Plane, y: int)
      ensures RectSum(f, left, left, top, y) == 0 && Wrap(RectSum(f, left, left, top, y)) == 0
    {
      ZeroRect(f, left, left, top, y);
    }

    /** The sum one column on, from the row above and the row's next value. */
    lemma AlphaStep(f: Plane, x: int, t: int)
      requires 0 <= x && top <= t
      ensures Wrap(Wrap(Wrap(Wrap(RectSum(f, left, left + x, top, t + 1)) + f(left + x, t))
                        + Wrap(RectSum(f, left, left + (x + 1), top, t))) - Wrap(RectSum(f, left, left + x, top, t)))
              == Wrap(RectSum(f, left, left + (x + 1), top, t + 1))
    {
      hide Wrap;
      var m := left + (x + 1);
      assert RowSum(f, t, left, m) == RowSum(f, t, left, left + x) + f(left + x, t);
      WrapSum(RectSum(f, left, left + x, top, t + 1), RectSum(f, left, m, top, t),
              RectSum(f, left, left + x, top, t), f(left + x, t));
    }

    /** Fill the next row: where it goes, and what it takes from the row before. */
    method AddRow(row: array<int>, prev: int, t: int, ghost f: Plane) returns (cur: int)
      requires Filled(f, t) && t < bottom && row.Length >= width
      requires prev == (t - 1) % buffer_height
      requires forall x :: 0 <= x < width ==> row[x] == f(left + x, t)
      modifies buffer
      ensures cur == t % buffer_height && Filled(f, t + 1)
    {
      hide Wrap, RectSum;
      ModNext(t, buffer_height);
      ModDistinct(t - 1, t, buffer_height);
      if prev < buffer_height - 1 {
        cur := prev + 1;
      } else {
        cur := 0;
      }
      assert RowDone(f, t - 1);
      SumRow(row, prev, cur, t, f);
      forall s | top - 1 <= s < t ensures RowDone(f, s) {
        ModDistinct(s, t, buffer_height);
        assert old(RowDone(f, s));
      }
    }

    /** The sum over columns a..b-1 of the table between two of its rows, as
        the four corners give it. */
    function Corners(a: int, b: int, above: int, below: int): int
      requires Shaped() && 0 <= a <= width && 0 <= b <= width && 0 <= above < buffer_height
               && 0 <= below < buffer_height
      reads buffer
    {
      Wrap(buffer[above, a] + buffer[below, b] - buffer[above, b] - buffer[below, a])
    }

    /** The corners give the exact sum, whatever has been lost to wrapping. */
    lemma CornersExact(f: Plane, upto: int, a: int, b: int, c: int, d: int)
      requires Filled(f, upto) && Bounded(f)
      requires left <= a <= b <= right && top <= c <= d <= upto
      requires b - a <= 511 && d - c <= 511
      ensures Corners(a - left, b - left, (c - 1) % buffer_height, (d - 1) % buffer_height) == RectSum(f, a, b, c, d)
      ensures 0 <= RectSum(f, a, b, c, d) <= 66585855
    {
      hide Wrap, RectSum;
      assert RowDone(f, c - 1) && RowDone(f, d - 1);
      FourCorners(f, left, top, a, b, c, d);
      RectBound(f, a, b, c, d);
      SmallProduct(b - a, d - c);
      WrapCorners(RectSum(f, left, a, top, c), RectSum(f, left, b, top, d),
                  RectSum(f, left, b, top, c), RectSum(f, left, a, top, d));
      assert left + (a - left) == a && left + (b - left) == b;
    }

    static lemma SmallProduct(w: int, h: int)
      requires 0 <= w <= 511 && 0 <= h <= 511
      ensures 255 * w * h <= 66585855
    {
      assert 255 * w * h <= 255 * 511 * h;
    }

    /** First and last row of the window around row y, cut to the region. */
    function RowAbove(y: int): int { Max(y - radius, top) }
    function RowBelow(y: int): int { Min(y + radius + 1, bottom) }
    function ColumnFrom(x: int): int { Max(x - radius, left) }
    function ColumnTo(x: int): int { Min(x + radius + 1, right) }

    /** The clipped window around a pixel. */
    function Clipped(f: Plane, x: int, y: int): int {
      RectSum(f, ColumnFrom(x), ColumnTo(x), RowAbove(y), RowBelow(y))
    }

    ghost predicate Meets(x: int) {
      ColumnFrom(x) <= ColumnTo(x)
    }

    lemma ClippedExact(f: Plane, upto: int, x: int, y: int)
      requires Filled(f, upto) && Bounded(f) && radius <= 255
      requires RowAbove(y) < RowBelow(y) <= upto && Meets(x)
      ensures 0 <= ColumnFrom(x) - left <= width && 0 <= ColumnTo(x) - left <= width
      ensures Corners(ColumnFrom(x) - left, ColumnTo(x) - left, (RowAbove(y) - 1) % buffer_height,
               (RowBelow(y) - 1) % buffer_height)
              == Clipped(f, x, y)
      ensures 0 <= Clipped(f, x, y) <= 66585855
    {
      CornersExact(f, upto, ColumnFrom(x), ColumnTo(x), RowAbove(y), RowBelow(y));
    }

    lemma AreaPositive()
      requires Shaped()
      ensures 0 < window * window && 0 < buffer_height
    {
      assert window * window >= 1 * window;
    }

    /** Average this pass's windows into the scratch row, for row y of the next
        pass, whose columns start at nextLeft. */
    method Average(row: array<int>, nextLeft: int, nextWidth: int, y: int, ghost f: Plane, ghost upto: int)
      requires Shaped() && Filled(f, upto) && Bounded(f) && radius <= 255 && 0 <= nextWidth <= row.Length
      requires RowAbove(y) < RowBelow(y) <= upto
      requires forall x :: nextLeft <= x < nextLeft + nextWidth ==> Meets(x)
      modifies row
      ensures forall x :: 0 <= x < nextWidth ==> row[x] == Clipped(f, nextLeft + x, y) / (window * window)
    {
      AreaPositive();
      hide Wrap, RectSum, Filled, Corners, Clipped;
      var t_top := Max(-radius, top - y);
      var t_bottom := Min(bottom - y - 1, radius);
      var buff_top := NormalRow(y + t_top - 1, buffer_height);
      var buff_bottom := NormalRow(y + t_bottom, buffer_height);
      var rel_left, rel_right := left - nextLeft, right - nextLeft;
      var area := window * window;
      for x := 0 to nextWidth
        invariant forall k :: 0 <= k < x ==> row[k] == Clipped(f, nextLeft + k, y) / (window * window)
      {
        var t_left := Max(-radius, rel_left - x) - 1;
        var t_right := Min(rel_right - x - 1, radius);
        ClippedExact(f, upto, nextLeft + x, y);
        row[x] := Corners(x + t_left - rel_left + 1, x + t_right - rel_left + 1, buff_top, buff_bottom) / area;
      }
    }
  }
}
