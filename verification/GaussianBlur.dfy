/** `MCBitmapEffectFastGaussianBlur`: the separable blur over a ring of rows. */
module GaussianBlur {
  import opened Common
  import opened PlaneSums
  import opened BoxPass

  const FULL := 0xFFFF_FFFF

  /** Addition that stops at the largest uint32_t, as the loops spell it out. */
  function Saturate(a: int, w: int): int {
    if FULL - a > w then a + w else FULL
  }

  lemma SaturateIs(a: int, w: int)
    ensures 0 <= a && 0 <= w ==> Saturate(Min(FULL, a), w) == Min(FULL, a + w)
  {
  }

  /** The input rectangle relative to the output, the output's width, the radius. */
  datatype Frame = Frame(left: int, top: int, right: int, bottom: int, width: int, radius: int)

  /** The rows of the input and of a window are int32_t numbers. */
  predicate Rows(frame: Frame) {
    && 0 <= frame.radius && -0x8000_0000 <= frame.top <= frame.bottom
    && frame.bottom + 2 * frame.radius + 1 < 0x8000_0000
  }

  /** The unsigned product of stride and first row is the address meant. */
  predicate Addressed(frame: Frame, stride: int) {
    frame.radius == 0 || 0 <= stride * frame.top < WORD
  }

  /** It is not for any first row above the output when the stride is positive. */
  lemma AboveNotAddressed(frame: Frame, stride: int)
    requires 0 < frame.radius && frame.top < 0 < stride
    ensures !Addressed(frame, stride)
  {
    MulAtLeast(-frame.top, stride);
    assert stride * frame.top == -(-frame.top * stride);
  }

  /** What a kernel adds up to. */
  function Sum(kernel: seq<int>): int {
    if kernel == [] then 0 else Sum(kernel[..|kernel| - 1]) + kernel[|kernel| - 1]
  }

  lemma {:induction false} SumNotNegative(kernel: seq<int>)
    requires forall i :: 0 <= i < |kernel| ==> 0 <= kernel[i]
    ensures 0 <= Sum(kernel)
    decreases |kernel|
  {
    if kernel != [] { SumNotNegative(kernel[..|kernel| - 1]); }
  }

  lemma {:induction false} TermAtMost(kernel: seq<int>, k: nat)
    requires k < |kernel| && forall i :: 0 <= i < |kernel| ==> 0 <= kernel[i]
    ensures kernel[k] <= Sum(kernel)
    decreases |kernel|
  {
    var n := |kernel| - 1;
    SumNotNegative(kernel[..n]);
    if k < n { TermAtMost(kernel[..n], k); }
  }

  lemma ProductNotNegative(a: int, b: int)
    ensures 0 <= a && 0 <= b ==> 0 <= a * b
  {
  }

  /** If the whole sum fits its word, so does every term. */
  lemma TermFits(kernel: seq<int>, k: nat, c: int)
    requires k < |kernel| && forall i :: 0 <= i < |kernel| ==> 0 <= kernel[i]
    requires 0 <= c && Sum(kernel) * c <= FULL
    ensures Wrap(kernel[k] * c) == kernel[k] * c
  {
    TermAtMost(kernel, k);
    ProductNotNegative(Sum(kernel) - kernel[k], c);
    ProductNotNegative(kernel[k], c);
    assert (Sum(kernel) - kernel[k]) * c == Sum(kernel) * c - kernel[k] * c;
    Small(kernel[k] * c);
  }

  /** In row y from column lo on, the kernel weighs the same value everywhere. */
  ghost predicate Weighs(f: Plane, y: int, lo: int, kernel: seq<int>, c: int) {
    forall k :: 0 <= k < |kernel| ==> WeighsAt(f, y, lo, kernel, c, k)
  }

  ghost predicate WeighsAt(f: Plane, y: int, lo: int, kernel: seq<int>, c: int, k: int)
    requires 0 <= k < |kernel|
  {
    f(lo + k, y) == kernel[k] * c
  }

  lemma {:induction false} WeightedRow(f: Plane, y: int, lo: int, kernel: seq<int>, c: int, n: nat)
    requires n <= |kernel| && Weighs(f, y, lo, kernel, c)
    ensures RowSum(f, y, lo, lo + n) == Sum(kernel[..n]) * c
  {
    if n > 0 {
      WeightedRow(f, y, lo, kernel, c, n - 1);
      assert kernel[..n][..n - 1] == kernel[..n - 1];
      assert WeighsAt(f, y, lo, kernel, c, n - 1);
      Distribute(Sum(kernel[..n - 1]), kernel[n - 1], c);
    }
  }

  lemma Distribute(a: int, b: int, c: int)
    ensures (a + b) * c == a * c + b * c
  {
  }

  lemma WholeRow(f: Plane, y: int, lo: int, kernel: seq<int>, c: int)
    requires Weighs(f, y, lo, kernel, c)
    ensures RowSum(f, y, lo, lo + |kernel|) == Sum(kernel) * c
  {
    hide Weighs, RowSum, Sum;
    WeightedRow(f, y, lo, kernel, c, |kernel|);
    assert kernel[..|kernel|] == kernel;
  }

  /** The blur by its definition, with no clipping and no ring. */
  datatype Definition = Definition(frame: Frame, kernel: seq<int>, image: Plane)
  {
    ghost predicate Sane() {
      && 0 <= frame.radius && |kernel| == 2 * frame.radius + 1
      && (forall i :: 0 <= i < |kernel| ==> 0 <= kernel[i] < WORD)
      && Bounded(image)
    }

    function Alpha(u: int, v: int): int {
      if frame.left <= u < frame.right && frame.top <= v < frame.bottom then image(u, v) else 0
    }

    /** The kernel at a distance from its midpoint. */
    function KernelAt(d: int): int {
      if 0 <= frame.radius + d < |kernel| then kernel[frame.radius + d] else 0
    }

    /** What column u of a row contributes to column x of the intermediate row. */
    function Across(x: int): Plane {
      (u, v) => Wrap(KernelAt(u - x) * Alpha(u, v))
    }

    /** The intermediate image: every row blurred along itself, saturating. */
    function Horizontal(x: int, v: int): int {
      Min(FULL, RowSum(Across(x), v, x - frame.radius, x + frame.radius + 1))
    }

    /** What row v of it contributes to row y of the mask. */
    function Down(y: int): Plane {
      (v, x) => Wrap(KernelAt(v - y) * (Horizontal(x, v) / 0x1_0000))
    }

    function Vertical(x: int, y: int): int {
      Min(FULL, RowSum(Down(y), x, y - frame.radius, y + frame.radius + 1))
    }

    /** The mask byte. */
    function Mask(x: int, y: int): int {
      if Vertical(x, y) < 0x100_0000 then Vertical(x, y) / 0x1_0000 else 0xFF
    }

    lemma DownSum(y: int, x: int, lo: int, hi: int)
      ensures 0 <= RowSum(Down(y), x, lo, hi)
    {
      SumNonNegative(Down(y), x, lo, hi);
    }

    lemma AcrossSum(x: int, v: int, lo: int, hi: int)
      ensures 0 <= RowSum(Across(x), v, lo, hi)
    {
      SumNonNegative(Across(x), v, lo, hi);
    }

    static lemma {:induction false} SumNonNegative(f: Plane, y: int, lo: int, hi: int)
      requires forall x :: 0 <= f(x, y)
      ensures 0 <= RowSum(f, y, lo, hi)
      decreases hi - lo
    {
      if lo < hi { SumNonNegative(f, y, lo, hi - 1); }
    }

    /** A sum over a range in which only lo..hi-1 is not zero. */
    static lemma ClipRow(f: Plane, y: int, a: int, b: int, lo: int, hi: int)
      requires a <= b
      requires forall x :: a <= x < b && !(lo <= x < hi) ==> f(x, y) == 0
      ensures RowSum(f, y, a, b) == if Max(a, lo) <= Min(b, hi) then RowSum(f, y, Max(a, lo), Min(b, hi)) else 0
    {
      if Max(a, lo) <= Min(b, hi) {
        RowSplit(f, y, a, Max(a, lo), b);
        RowSplit(f, y, Max(a, lo), Min(b, hi), b);
        ZeroRow(f, y, a, Max(a, lo));
        ZeroRow(f, y, Min(b, hi), b);
      } else {
        ZeroRow(f, y, a, b);
      }
    }

    /** Outside the input rectangle there is nothing to sum. */
    lemma HorizontalClipped(x: int, v: int)
      requires 0 <= frame.radius
      ensures var lo, hi := Max(x - frame.radius, frame.left), Min(x + frame.radius + 1, frame.right);
              Horizontal(x, v) == if lo <= hi then Min(FULL, RowSum(Across(x), v, lo, hi)) else 0
    {
      ClipRow(Across(x), v, x - frame.radius, x + frame.radius + 1, frame.left, frame.right);
    }

    lemma HorizontalZero(x: int, v: int)
      requires !(frame.top <= v < frame.bottom)
      ensures Horizontal(x, v) == 0
    {
      ZeroRow(Across(x), v, x - frame.radius, x + frame.radius + 1);
    }

    lemma VerticalClipped(x: int, y: int)
      requires 0 <= frame.radius
      ensures var lo, hi := Max(y - frame.radius, frame.top), Min(y + frame.radius + 1, frame.bottom);
              Vertical(x, y) == if lo <= hi then Min(FULL, RowSum(Down(y), x, lo, hi)) else 0
    {
      forall v | !(frame.top <= v < frame.bottom) ensures Down(y)(v, x) == 0 { HorizontalZero(x, v); }
      ClipRow(Down(y), x, y - frame.radius, y + frame.radius + 1, frame.top, frame.bottom);
    }

    /** The mask byte is the greatest one whose 2^16-fold is not over the sum. */
    lemma MaskIs(x: int, y: int)
      ensures 0 <= Mask(x, y) <= 255 && Mask(x, y) * 0x1_0000 <= Vertical(x, y)
      ensures Mask(x, y) < 255 ==> Vertical(x, y) < (Mask(x, y) + 1) * 0x1_0000
    {
      DownSum(y, x, y - frame.radius, y + frame.radius + 1);
    }

    /** Alpha is c all over the square a window of windows can see. */
    ghost predicate Even(x: int, y: int, c: int) {
      forall u, v :: x - frame.radius <= u <= x + frame.radius && y - frame.radius <= v <= y + frame.radius ==>
        Alpha(u, v) == c
    }

    lemma EvenTerm(x: int, y: int, v: int, c: int, k: nat)
      requires Sane() && Even(x, y, c) && 0 <= c && y - frame.radius <= v <= y + frame.radius
      requires Sum(kernel) * c <= FULL && k < |kernel|
      ensures WeighsAt(Across(x), v, x - frame.radius, kernel, c, k)
    {
      hide Definition.Alpha, Wrap, Sum;
      assert Alpha(x - frame.radius + k, v) == c;
      TermFits(kernel, k, c);
    }

    lemma EvenHorizontal(x: int, y: int, v: int, c: int)
      requires Sane() && Even(x, y, c) && 0 <= c && y - frame.radius <= v <= y + frame.radius
      requires Sum(kernel) * c <= FULL
      ensures Horizontal(x, v) == Sum(kernel) * c
    {
      EvenAcross(x, y, v, c);
      hide Definition.Across, Even, Sane, Sum;
    }

    lemma EvenAcross(x: int, y: int, v: int, c: int)
      requires Sane() && Even(x, y, c) && 0 <= c && y - frame.radius <= v <= y + frame.radius
      requires Sum(kernel) * c <= FULL
      ensures RowSum(Across(x), v, x - frame.radius, x + frame.radius + 1) == Sum(kernel) * c
    {
      assert |kernel| == 2 * frame.radius + 1;
      hide Even, Sane, Definition.Across, WeighsAt, RowSum, Sum;
      var f, lo := Across(x), x - frame.radius;
      forall k | 0 <= k < |kernel| ensures WeighsAt(f, v, lo, kernel, c, k) { EvenTerm(x, y, v, c, k); }
      WholeRow(f, v, lo, kernel, c);
    }

    lemma EvenVertical(x: int, y: int, c: int)
      requires Sane() && Even(x, y, c) && 0 <= c && Sum(kernel) * c <= FULL
      requires Sum(kernel) * (Sum(kernel) * c / 0x1_0000) <= FULL
      ensures Vertical(x, y) == Sum(kernel) * (Sum(kernel) * c / 0x1_0000)
    {
      EvenDown(x, y, c, Sum(kernel) * c / 0x1_0000);
      hide Definition.Down, Even, Sane, Sum;
    }

    lemma EvenDown(x: int, y: int, c: int, q: int)
      requires Sane() && Even(x, y, c) && 0 <= c && Sum(kernel) * c <= FULL
      requires q == Sum(kernel) * c / 0x1_0000 && Sum(kernel) * q <= FULL
      ensures RowSum(Down(y), x, y - frame.radius, y + frame.radius + 1) == Sum(kernel) * q
    {
      assert |kernel| == 2 * frame.radius + 1;
      hide Even, Sane, Definition.Down, WeighsAt, RowSum, Sum;
      var f, lo := Down(y), y - frame.radius;
      forall k | 0 <= k < |kernel| ensures WeighsAt(f, x, lo, kernel, q, k) { EvenTermDown(x, y, c, q, k); }
      WholeRow(f, x, lo, kernel, q);
    }

    lemma EvenTermDown(x: int, y: int, c: int, q: int, k: nat)
      requires Sane() && Even(x, y, c) && 0 <= c && Sum(kernel) * c <= FULL && k < |kernel|
      requires q == Sum(kernel) * c / 0x1_0000 && Sum(kernel) * q <= FULL
      ensures WeighsAt(Down(y), x, y - frame.radius, kernel, q, k)
    {
      SumNotNegative(kernel);
      ProductNotNegative(Sum(kernel), c);
      EvenHorizontal(x, y, y - frame.radius + k, c);
      TermFits(kernel, k, q);
      hide Even, Wrap, Sum, Definition.Horizontal;
    }

    /** Inside an even alpha the mask is that alpha, weighted twice by the sum of
        the kernel; it is the alpha itself if the kernel adds up to 2^16. */
    lemma EvenMask(x: int, y: int, c: int)
      requires Sane() && Even(x, y, c) && 0 <= c && Sum(kernel) * c <= FULL
      requires Sum(kernel) * (Sum(kernel) * c / 0x1_0000) <= FULL
      ensures Mask(x, y) == Min(255, Sum(kernel) * (Sum(kernel) * c / 0x1_0000) / 0x1_0000)
    {
      hide Definition.Vertical, Even, Sum;
      EvenVertical(x, y, c);
    }

    /** A single pixel of alpha c is lit. */
    ghost predicate OneLit(u0: int, v0: int, c: int) {
      forall u, v :: Alpha(u, v) == if u == u0 && v == v0 then c else 0
    }

    lemma LitHorizontal(x: int, v: int, u0: int, v0: int, c: int)
      requires Sane() && OneLit(u0, v0, c)
      ensures Horizontal(x, v)
              == if v == v0 && -frame.radius <= u0 - x <= frame.radius then Wrap(kernel[frame.radius + u0 - x] * c)
                 else 0
    {
      hide Definition.Alpha;
      forall u | u != u0 || v != v0 ensures Across(x)(u, v) == 0 { assert Alpha(u, v) == 0; }
      assert Alpha(u0, v0) == c;
      OneTerm(Across(x), v, x - frame.radius, x + frame.radius + 1, u0);
      if v == v0 && -frame.radius <= u0 - x <= frame.radius {
        assert frame.radius + (u0 - x) == frame.radius + u0 - x;
        assert Across(x)(u0, v0) == Wrap(kernel[frame.radius + u0 - x] * c);
      }
    }

    /** A single pixel spreads as the kernel says: across with the weight for its
        column, down with the weight for its row, both counted from the pixel of
        the mask. */
    lemma LitVertical(x: int, y: int, u0: int, v0: int, c: int)
      requires Sane() && OneLit(u0, v0, c)
      ensures Vertical(x, y)
              == if -frame.radius <= u0 - x <= frame.radius && -frame.radius <= v0 - y <= frame.radius
                 then Wrap(kernel[frame.radius + v0 - y] * (Wrap(kernel[frame.radius + u0 - x] * c) / 0x1_0000))
                 else 0
    {
      hide Definition.Horizontal, OneLit, Definition.Alpha, Definition.Down, Wrap, RowSum;
      forall v | v != v0 ensures Down(y)(v, x) == 0 {
        LitHorizontal(x, v, u0, v0, c);
        DownIs(x, y, v);
      }
      OneTerm(Down(y), x, y - frame.radius, y + frame.radius + 1, v0);
      LitHorizontal(x, v0, u0, v0, c);
      DownIs(x, y, v0);
      WrapBounds(KernelAt(v0 - y) * (Horizontal(x, v0) / 0x1_0000));
      assert frame.radius + (v0 - y) == frame.radius + v0 - y;
    }

    lemma DownIs(x: int, y: int, v: int)
      ensures Down(y)(v, x) == Wrap(KernelAt(v - y) * (Horizontal(x, v) / 0x1_0000))
      ensures Horizontal(x, v) == 0 ==> Down(y)(v, x) == 0
    {
      hide Definition.Horizontal;
      if Horizontal(x, v) == 0 { assert KernelAt(v - y) * 0 == 0; }
    }

    static lemma WrapBounds(v: int)
      ensures 0 <= Wrap(v) <= FULL
    {
    }

    static lemma OneTerm(f: Plane, y: int, a: int, b: int, u0: int)
      requires a <= b && forall u :: u != u0 ==> f(u, y) == 0
      ensures RowSum(f, y, a, b) == if a <= u0 < b then f(u0, y) else 0
    {
      if a <= u0 < b {
        RowSplit(f, y, a, u0, b);
        RowFirst(f, y, u0, b);
        ZeroRow(f, y, a, u0);
        ZeroRow(f, y, u0 + 1, b);
      } else {
        ZeroRow(f, y, a, b);
      }
    }

    /** Taking the first term off a sum. */
    static lemma RowFirst(f: Plane, y: int, lo: int, hi: int)
      requires lo < hi
      ensures RowSum(f, y, lo, hi) == f(lo, y) + RowSum(f, y, lo + 1, hi)
    {
      RowSplit(f, y, lo, lo + 1, hi);
      assert RowSum(f, y, lo, lo + 1) == RowSum(f, y, lo, lo) + f(lo, y);
    }
  }

  /** Alpha is c in every stored pixel of the square around a pixel. */
  ghost predicate EvenSquare(frame: Frame, memory: seq<int>, origin: int, stride: int, x: int, y: int, c: int) {
    forall u, v ::
      x - frame.radius <= u <= x + frame.radius && y - frame.radius <= v <= y + frame.radius ==>
        && frame.left <= u < frame.right && frame.top <= v < frame.bottom
        && var i := FastGaussianBlur.Address(origin, stride, u, v);
           0 <= i < |memory| && memory[i] / 0x100_0000 == c
  }

  /** The byte m that an even alpha c gives under a kernel of that weight: c
      itself if the weight is 2^16; otherwise the weight counts twice, as long as
      no sum saturates. */
  predicate EvenByte(m: int, weight: int, c: int) {
    && (weight == 0x1_0000 ==> m == c)
    && (weight * c <= 0xFFFF_FFFF && weight * (weight * c / 0x1_0000) <= 0xFFFF_FFFF ==>
          m == Min(255, weight * (weight * c / 0x1_0000) / 0x1_0000))
  }

  class FastGaussianBlur {
    const frame: Frame
    const kernel: seq<int>
    const memory: seq<int>
    const origin: int
    const stride: int
    const buffer_height: int
    const buffer: array2<int>
    var y: int
    var pixels: int
    var buffer_nextrow: int

    function At(u: int, v: int): int {
      Address(origin, stride, u, v)
    }

    static function Address(origin: int, stride: int, u: int, v: int): int {
      origin + stride * v + u
    }

    ghost function Image(): Plane {
      (u, v) => if 0 <= At(u, v) < |memory| then memory[At(u, v)] / 0x100_0000 else 0
    }

    ghost function Blurred(): Definition {
      Definition(frame, kernel, Image())
    }

    /** What never changes. */
    ghost predicate Good() {
      && 0 <= frame.width && frame.left <= frame.right && Rows(frame)
      && |kernel| == 2 * frame.radius + 1 && (forall i :: 0 <= i < |kernel| ==> 0 <= kernel[i] < WORD)
      && (forall i :: 0 <= i < |memory| ==> 0 <= memory[i] < WORD)
      && (forall u, v :: frame.left <= u < frame.right && frame.top <= v < frame.bottom ==> 0 <= At(u, v) < |memory|)
      && buffer_height == 2 * frame.radius + 1
      && buffer.Length0 == buffer_height && buffer.Length1 == frame.width
    }

    /** Where row numbers, unsigned as they are, put a row in the ring. */
    function Slot(v: int): int
      requires buffer_height > 0
    {
      Wrap(v + buffer_height) % buffer_height
    }

    /** That is its number modulo the height for every row a window can reach. */
    lemma SlotIs(v: int)
      requires Good() && -buffer_height <= v <= frame.bottom
      ensures Slot(v) == v % buffer_height
    {
      Small(v + buffer_height);
      ModShift(v, buffer_height);
    }

    /** Ring row for v holds the intermediate row v. */
    ghost predicate Holds(v: int)
      requires Good()
      reads buffer
    {
      forall x :: 0 <= x < frame.width ==> buffer[v % buffer_height, x] == Blurred().Horizontal(x, v)
    }

    /** The ring holds the last rows filled before next, as many as it has, of
        those that the window of any row of the mask can reach. */
    ghost predicate Ring(next: int)
      requires Good()
      reads buffer
    {
      forall v :: Max(Max(frame.top, -frame.radius), next - buffer_height) <= v < next ==> Holds(v)
    }

    /** How far the ring has been filled before row y is asked for. */
    function Next(y: int): int {
      if y == 0 || frame.bottom + frame.radius <= 0 then frame.top
      else Max(frame.top, Min(frame.bottom, y + frame.radius))
    }

    ghost predicate Valid()
      reads this, buffer
    {
      && Good() && 0 <= y
      && if frame.radius == 0 then pixels == origin + stride * y
         else buffer_nextrow == Wrap(Next(y)) && pixels == origin + stride * Next(y) && Ring(Next(y))
    }

    lemma ImageBounded()
      requires Good()
      ensures Blurred().Sane()
    {
    }

    lemma Readable(u: int, v: int)
      requires Good() && frame.left <= u < frame.right && frame.top <= v < frame.bottom
      ensures 0 <= origin + stride * v + u < |memory|
               && Blurred().Alpha(u, v) == memory[origin + stride * v + u] / 0x100_0000
    {
      assert 0 <= At(u, v) < |memory|;
    }

    /** One term of the sum, as the loop reads it. */
    lemma AcrossTerm(x: int, t: int, u: int, hi: int)
      requires Good() && frame.top <= t < frame.bottom && frame.left <= u < frame.right
               && x - frame.radius <= u <= x + frame.radius && u < hi
      ensures 0 <= origin + stride * t + u < |memory| && 0 <= frame.radius + u - x < |kernel|
      ensures var pixel := memory[origin + stride * t + u];
              var d, w := Blurred(), Wrap(kernel[frame.radius + u - x] * (pixel / 0x100_0000));
              && 0 <= w
              && Saturate(Min(FULL, RowSum(d.Across(x), t, u + 1, hi)), w) == Min(FULL, RowSum(d.Across(x), t, u, hi))
    {
      var d := Blurred();
      Readable(u, t);
      d.RowFirst(d.Across(x), t, u, hi);
      d.AcrossSum(x, t, u + 1, hi);
      assert frame.radius + u - x == frame.radius + (u - x);
      assert d.Across(x)(u, t) == Wrap(kernel[frame.radius + u - x] * (memory[origin + stride * t + u] / 0x100_0000));
      SaturateIs(RowSum(d.Across(x), t, u + 1, hi), d.Across(x)(u, t));
    }

    static lemma EmptySum(f: Plane, y: int, lo: int, hi: int)
      requires hi <= lo
      ensures RowSum(f, y, lo, hi) == 0 && Min(FULL, RowSum(f, y, lo, hi)) == 0
    {
    }

    lemma RowClipped(x: int, t: int)
      requires Good()
      ensures 0 <= frame.radius
      ensures var lo, hi := Max(x - frame.radius, frame.left), Min(x + frame.radius + 1, frame.right);
              Blurred().Horizontal(x, t) == if lo <= hi then Min(FULL, RowSum(Blurred().Across(x), t, lo, hi)) else 0
    {
      Blurred().HorizontalClipped(x, t);
    }

    lemma ColumnClipped(x: int, row: int)
      requires Good()
      ensures var lo, hi := Max(row - frame.radius, frame.top), Min(row + frame.radius + 1, frame.bottom);
              Blurred().Vertical(x, row) == if lo <= hi then Min(FULL, RowSum(Blurred().Down(row), x, lo, hi)) else 0
    {
      Blurred().VerticalClipped(x, row);
    }

    /** One pixel of an intermediate row, summed from its right end. */
    method RowPixel(x: int, t: int) returns (alpha: int)
      requires Good() && frame.top <= t < frame.bottom && pixels == origin + stride * t
      ensures alpha == Blurred().Horizontal(x, t)
    {
      hide Good, FastGaussianBlur.Blurred, RowSum, Definition.Across, Definition.Horizontal, Wrap;
      var t_left := Max(-frame.radius, frame.left - x);
      var t_right := Min(frame.right - x - 1, frame.radius);
      var hcount := t_right - t_left;
      ghost var f, lo, hi := Blurred().Across(x), x + t_left, x + t_right + 1;
      RowClipped(x, t);
      EmptySum(f, t, lo + hcount + 1, hi);
      alpha := 0;
      var j := hcount;
      while j >= 0
        invariant -1 <= j <= hcount || j == hcount < 0
        invariant 0 <= hcount ==> alpha == Min(FULL, RowSum(f, t, lo + (j + 1), hi))
        invariant hcount < 0 ==> alpha == 0
      {
        AcrossTerm(x, t, lo + j, hi);
        var weighted := Wrap(kernel[frame.radius + t_left + j] * (memory[pixels + x + t_left + j] / 0x100_0000));
        if FULL - alpha > weighted {
          alpha := alpha + weighted;
        } else {
          alpha := FULL;
        }
        j := j - 1;
      }
    }

    lemma RingGrows(t: int, next: int)
      requires Good() && t < next
      ensures forall v :: next - buffer_height <= v < next && v != t ==>
                || v % buffer_height != t % buffer_height
                || t < next - buffer_height
    {
      forall v | next - buffer_height <= v < next && v != t
        ensures v % buffer_height != t % buffer_height || t < next - buffer_height
      {
        if v < t {
          ModDistinct(v, t, buffer_height);
        } else if t < v < t + buffer_height {
          ModDistinct(t, v, buffer_height);
        }
      }
    }

    /** Row t at its slot, and the other slots as they were, make the ring one longer. */
    lemma RowFilled(t: int, slot: int)
      requires Good() && 0 <= slot < buffer_height && (-frame.radius <= t ==> slot == t % buffer_height)
      requires forall k :: 0 <= k < frame.width ==> buffer[slot, k] == Blurred().Horizontal(k, t)
      requires forall v | Max(Max(frame.top, -frame.radius), t - buffer_height) <= v < t ::
                 v % buffer_height != slot ==> Holds(v)
      ensures Ring(t + 1)
    {
      RingGrows(t, t + 1);
    }

    /** Put intermediate row t into the ring, over the row it no longer needs.
        Rows too far above to be seen may go anywhere: none is there yet. */
    method FillRow(t: int)
      requires Good() && frame.top <= t < frame.bottom && Ring(t) && pixels == origin + stride * t
      modifies buffer
      ensures Ring(t + 1)
    {
      var slot := Slot(t);
      if -frame.radius <= t { SlotIs(t); }
      RingShape();
      hide Good, Definition.Horizontal, FastGaussianBlur.Blurred, FastGaussianBlur.Slot, Wrap;
      for x := 0 to frame.width
        invariant forall k :: 0 <= k < x ==> buffer[slot, k] == Blurred().Horizontal(k, t)
        invariant forall i, k :: 0 <= i < buffer_height && 0 <= k < frame.width && i != slot ==>
                  buffer[i, k] == old(buffer[i, k])
      {
        var alpha := RowPixel(x, t);
        buffer[slot, x] := alpha;
      }
      forall v | Max(Max(frame.top, -frame.radius), t - buffer_height) <= v < t && v % buffer_height != slot
        ensures Holds(v)
      {
        assert old(Holds(v));
      }
      RowFilled(t, slot);
    }

    lemma DownTerm(x: int, row: int, lo: int, v: int)
      requires Good() && 0 <= x < frame.width && lo <= v && row - frame.radius <= v <= row + frame.radius && Holds(v)
      ensures 0 <= frame.radius + v - row < |kernel|
      ensures var d, w := Blurred(), Wrap(kernel[frame.radius + v - row] * (buffer[v % buffer_height, x] / 0x1_0000));
              && 0 <= w
              && Saturate(Min(FULL, RowSum(d.Down(row), x, lo, v)), w) == Min(FULL, RowSum(d.Down(row), x, lo, v + 1))
    {
      hide Definition.Horizontal;
      var d := Blurred();
      d.DownSum(row, x, lo, v);
      assert frame.radius + v - row == frame.radius + (v - row);
      assert d.Down(row)(v, x) == Wrap(kernel[frame.radius + v - row] * (buffer[v % buffer_height, x] / 0x1_0000));
      SaturateIs(RowSum(d.Down(row), x, lo, v), d.Down(row)(v, x));
    }

    lemma RingShape()
      requires Good()
      ensures 0 <= frame.radius && buffer_height == 2 * frame.radius + 1
      ensures buffer.Length0 == buffer_height && buffer.Length1 == frame.width
    {
    }

    lemma RingHolds(next: int, v: int)
      requires Good() && Ring(next) && Max(Max(frame.top, -frame.radius), next - buffer_height) <= v < next
      ensures Holds(v)
    {
    }

    /** One pixel of the mask, summed down the ring. */
    method ColumnPixel(x: int, row: int, t_top: int, t_bottom: int, ghost next: int) returns (alpha: int)
      requires Good() && 0 <= x < frame.width && Ring(next)
      requires t_top == Max(-frame.radius, frame.top - row) && t_bottom == Min(frame.bottom - row - 1, frame.radius)
      requires 0 <= row && row + t_bottom < next && next - buffer_height <= row + t_top
      ensures alpha == Blurred().Vertical(x, row)
    {
      hide Good, Ring, Holds, FastGaussianBlur.Blurred, FastGaussianBlur.Slot, RowSum, Definition.Down,
        Definition.Vertical, Wrap;
      RingShape();
      var vcount := t_bottom - t_top + 1;
      ghost var f, lo := Blurred().Down(row), row + t_top;
      var ring := Slot(t_top + row);
      if vcount > 0 { SlotIs(t_top + row); }
      ColumnClipped(x, row);
      EmptySum(f, x, lo, lo);
      alpha := 0;
      for k := 0 to Max(0, vcount)
        invariant vcount > 0 ==> ring == (lo + k) % buffer_height
        invariant alpha == Min(FULL, RowSum(f, x, lo, lo + k))
      {
        RingHolds(next, lo + k);
        DownTerm(x, row, lo, lo + k);
        var weighted := Wrap(kernel[frame.radius + t_top + k] * (buffer[ring, x] / 0x1_0000));
        if FULL - alpha > weighted {
          alpha := alpha + weighted;
        } else {
          alpha := FULL;
        }
        ModAdvance(lo + k);
        if ring < buffer_height - 1 {
          ring := ring + 1;
        } else {
          ring := 0;
        }
      }
    }

    lemma ModAdvance(t: int)
      requires Good()
      ensures (t + 1) % buffer_height == if t % buffer_height < buffer_height - 1 then t % buffer_height + 1 else 0
    {
      if buffer_height > 1 { ModNext(t + 1, buffer_height); }
    }

    /** Rows the window does not reach are empty. */
    lemma VerticalUnreached(x: int, row: int)
      requires Good() && !(frame.top - frame.radius <= row < frame.bottom + frame.radius)
      ensures Blurred().Mask(x, row) == 0
    {
      hide Definition.Horizontal, Definition.Down, Wrap;
      ColumnClipped(x, row);
      EmptySum(Blurred().Down(row), x, Max(row - frame.radius, frame.top), Min(row + frame.radius + 1, frame.bottom));
    }

    /** What a call needs the ring to hold, and what it leaves. */
    lemma WindowInRing(row: int)
      requires Good() && 0 < frame.radius && 0 <= row && frame.top - frame.radius <= row < frame.bottom + frame.radius
      ensures var t_top, t_bottom := Max(-frame.radius, frame.top - row), Min(frame.bottom - row - 1, frame.radius);
              && frame.top <= Next(row) <= row + t_bottom + 1 == Next(row + 1) <= frame.bottom
              && Next(row + 1) - buffer_height <= row + t_top
    {
    }

    lemma NextUnreached(row: int)
      requires Good() && 0 <= row && !(frame.top - frame.radius <= row < frame.bottom + frame.radius)
      ensures Next(row + 1) == Next(row)
    {
    }

    /** Take in the rows that have come into reach. */
    method FillRows(next: int, upto: int)
      requires Good() && frame.top <= next <= upto <= frame.bottom && next == Signed(buffer_nextrow)
      requires Ring(next) && pixels == origin + stride * next
      modifies buffer, `pixels, `buffer_nextrow
      ensures buffer_nextrow == Wrap(upto) && Ring(upto) && pixels == origin + stride * upto
    {
      hide Good, Ring;
      for t_y := next to upto
        invariant Ring(t_y) && pixels == origin + stride * t_y
      {
        FillRow(t_y);
        pixels := pixels + stride;
      }
      buffer_nextrow := Wrap(upto);
    }

    /** The number of the next row survives being stored without a sign. */
    lemma NextStored(row: int)
      requires Good()
      ensures Signed(Wrap(Next(row))) == Next(row)
    {
      SignedIs(Next(row));
    }

    static lemma SignedIs(v: int)
      requires -0x8000_0000 <= v < 0x8000_0000
      ensures Signed(Wrap(v)) == v
    {
      if v < 0 { assert Wrap(v) == v + WORD; }
    }

    /** The mask by its definition; with radius zero the image's own alpha. */
    ghost function Output(x: int, row: int): int {
      if frame.radius == 0 then Blurred().Alpha(x, row) else Blurred().Mask(x, row)
    }

    ghost predicate IsRow(row: seq<int>, v: int) {
      |row| == frame.width && forall x :: 0 <= x < frame.width ==> row[x] == Output(x, v)
    }

    ghost predicate AreRows(rows: seq<seq<int>>) {
      forall v :: 0 <= v < |rows| ==> IsRow(rows[v], v)
    }

    lemma RowsGrow(rows: seq<seq<int>>, row: seq<int>)
      requires rows == [] || AreRows(rows)
      requires |row| == frame.width && forall x :: 0 <= x < frame.width ==> row[x] == Output(x, |rows|)
      ensures AreRows(rows + [row])
    {
      hide FastGaussianBlur.Output;
      assert IsRow(row, |rows|);
    }

    lemma RowsMean(rows: seq<seq<int>>)
      requires rows == [] || AreRows(rows)
      ensures forall v :: 0 <= v < |rows| ==> |rows[v]| == frame.width
      ensures forall x, v :: 0 <= x < frame.width && 0 <= v < |rows| ==> rows[v][x] == Output(x, v)
    {
      hide FastGaussianBlur.Output;
    }

    /** The byte for one pixel, as stored pixels and the kernel have it: the alpha
        stored there if the radius is zero, else the whole part of the vertical
        sum over 2^16, cut off at 255. */
    ghost predicate IsByte(m: int, x: int, v: int) {
      if frame.radius == 0 then
        m == (if frame.left <= x < frame.right && frame.top <= v < frame.bottom
              then PixelAt(Address(origin, stride, x, v)) else 0)
      else
        var sum := Blurred().Vertical(x, v);
        0 <= m <= 255 && m * 0x1_0000 <= sum && (m == 255 || sum < (m + 1) * 0x1_0000)
    }

    lemma OutputIs(x: int, v: int)
      requires Good()
      ensures IsByte(Output(x, v), x, v)
    {
      if frame.radius == 0 {
        OutputPlain(x, v);
      } else {
        hide Definition.Mask, Definition.Vertical, Good, FastGaussianBlur.Blurred;
        Blurred().MaskIs(x, v);
      }
    }

    lemma OutputEven(x: int, v: int, c: int)
      requires Good() && 0 < frame.radius && EvenSquare(frame, memory, origin, stride, x, v, c)
      ensures EvenByte(Output(x, v), Sum(kernel), c)
    {
      ImageBounded();
      EvenThere(x, v, c);
      hide Good, FastGaussianBlur.Blurred, FastGaussianBlur.Output, Definition.Mask, Definition.Sane, Sum, EvenSquare;
      var weight := Sum(kernel);
      if weight * c <= FULL && weight * (weight * c / 0x1_0000) <= FULL {
        Blurred().EvenMask(x, v, c);
      } else {
        FullWeight(c);
      }
    }

    static lemma FullWeight(c: int)
      requires 0 <= c <= 255
      ensures 0x1_0000 * c <= FULL && 0x1_0000 * (0x1_0000 * c / 0x1_0000) <= FULL
    {
    }

    lemma EvenThere(x: int, v: int, c: int)
      requires Good() && 0 < frame.radius && EvenSquare(frame, memory, origin, stride, x, v, c)
      ensures 0 <= c <= 255 && Blurred().Even(x, v, c) && Output(x, v) == Blurred().Mask(x, v)
      ensures Blurred().kernel == kernel
    {
      hide Definition.Mask, Sum;
      assert 0 <= At(x, v) < |memory| && memory[At(x, v)] / 0x100_0000 == c;
      var d := Blurred();
      forall u, w | x - frame.radius <= u <= x + frame.radius && v - frame.radius <= w <= v + frame.radius
        ensures d.Alpha(u, w) == c
      {
        assert At(u, w) == Address(origin, stride, u, w);
      }
    }

    lemma RowsAreBytes(rows: seq<seq<int>>, height: nat)
      requires Good() && |rows| == height && forall v :: 0 <= v < height ==> |rows[v]| == frame.width
      requires forall x, v :: 0 <= x < frame.width && 0 <= v < height ==> rows[v][x] == Output(x, v)
      ensures forall x, v :: 0 <= x < frame.width && 0 <= v < height ==> IsByte(rows[v][x], x, v)
      ensures forall x, v, c | 0 <= x < frame.width && 0 <= v < height && 0 < frame.radius ::
                EvenSquare(frame, memory, origin, stride, x, v, c) ==> EvenByte(rows[v][x], Sum(kernel), c)
    {
      hide FastGaussianBlur.Output, Good, IsByte, EvenByte, EvenSquare, Sum;
      forall x, v | 0 <= x < frame.width && 0 <= v < height ensures IsByte(rows[v][x], x, v) { OutputIs(x, v); }
      forall x, v, c | 0 <= x < frame.width && 0 <= v < height && 0 < frame.radius
                       && EvenSquare(frame, memory, origin, stride, x, v, c)
        ensures EvenByte(rows[v][x], Sum(kernel), c)
      {
        OutputEven(x, v, c);
      }
    }

    method ProcessBlurred(mask: array<int>)
      requires Valid() && 0 < frame.radius && frame.width <= mask.Length
      modifies buffer, `pixels, `buffer_nextrow, mask
      ensures buffer_nextrow == Wrap(Next(y + 1)) && pixels == origin + stride * Next(y + 1) && Ring(Next(y + 1))
      ensures forall x :: 0 <= x < frame.width ==> mask[x] == Output(x, y)
    {
      hide Ring, Wrap, Signed, FastGaussianBlur.Output, Next;
      if y >= frame.top - frame.radius && y < frame.bottom + frame.radius {
        WindowInRing(y);
        var t_top := Max(-frame.radius, frame.top - y);
        var t_bottom := Min(frame.bottom - y - 1, frame.radius);
        NextStored(y);
        FillRows(Signed(buffer_nextrow), t_bottom + y + 1);
        FillMask(mask, t_top, t_bottom);
      } else {
        NextUnreached(y);
        ZeroMask(mask, 0, frame.width);
        forall x | 0 <= x < frame.width ensures mask[x] == Output(x, y) { OutputUnreached(x, y); }
      }
    }

    lemma OutputUnreached(x: int, row: int)
      requires Good() && 0 < frame.radius && !(frame.top - frame.radius <= row < frame.bottom + frame.radius)
      ensures Output(x, row) == 0
    {
      hide Good, FastGaussianBlur.Blurred, Definition.Mask;
      VerticalUnreached(x, row);
    }

    method FillMask(mask: array<int>, t_top: int, t_bottom: int)
      requires Good() && 0 < frame.radius && 0 <= frame.width <= mask.Length && 0 <= y && Ring(y + t_bottom + 1)
      requires t_top == Max(-frame.radius, frame.top - y) && t_bottom == Min(frame.bottom - y - 1, frame.radius)
      requires y + t_bottom + 1 - buffer_height <= y + t_top
      modifies mask
      ensures forall x :: 0 <= x < frame.width ==> mask[x] == Output(x, y)
    {
      hide Good, Ring, FastGaussianBlur.Blurred, Definition.Vertical;
      for x := 0 to frame.width
        invariant forall k :: 0 <= k < x ==> mask[k] == Output(k, y)
      {
        var alpha := ColumnPixel(x, y, t_top, t_bottom, y + t_bottom + 1);
        if alpha < 0x100_0000 {
          mask[x] := alpha / 0x1_0000;
        } else {
          mask[x] := 0xFF;
        }
      }
    }

    /** With radius zero the mask is the alpha inside the input rectangle. */
    lemma OutputPlain(x: int, row: int)
      requires Good() && frame.radius == 0
      ensures Output(x, row) == if frame.left <= x < frame.right && frame.top <= row < frame.bottom
                                then PixelAt(origin + stride * row + x) else 0
    {
    }

    /** The alpha of a stored pixel is its top byte. */
    function PixelAt(i: int): int {
      if 0 <= i < |memory| then memory[i] / 0x100_0000 else 0
    }

    method ProcessPlain(mask: array<int>)
      requires Good() && frame.radius == 0 && frame.width <= mask.Length && pixels == origin + stride * y
      modifies `pixels, mask
      ensures pixels == origin + stride * (y + 1)
      ensures forall x :: 0 <= x < frame.width ==> mask[x] == Output(x, y)
    {
      hide FastGaussianBlur.Output;
      if y >= frame.top && y < frame.bottom {
        var t_left, t_right := Max(0, Min(frame.width, frame.left)), Min(frame.width, frame.right);
        ZeroMask(mask, 0, t_left);
        var to := Max(t_left, t_right);
        CopyAlpha(mask, t_left, to);
        ZeroMask(mask, to, frame.width);
      } else {
        ZeroMask(mask, 0, frame.width);
      }
      forall x | 0 <= x < frame.width ensures mask[x] == Output(x, y) { OutputPlain(x, y); }
      pixels := pixels + stride;
    }

    method CopyAlpha(mask: array<int>, from: int, to: int)
      requires Good() && frame.top <= y < frame.bottom && pixels == origin + stride * y
      requires 0 <= from <= to <= mask.Length && (from < to ==> frame.left <= from && to <= frame.right)
      modifies mask
      ensures forall x :: from <= x < to ==> mask[x] == PixelAt(pixels + x)
      ensures forall x :: 0 <= x < mask.Length && !(from <= x < to) ==> mask[x] == old(mask[x])
    {
      for x := from to to
        invariant forall k :: from <= k < x ==> mask[k] == PixelAt(pixels + k)
        invariant forall k :: 0 <= k < mask.Length && !(from <= k < x) ==> mask[k] == old(mask[k])
      {
        Readable(x, y);
        mask[x] := memory[pixels + x] / 0x100_0000;
      }
    }

    /** `Process`: the next row of the mask is the blur by its definition. */
    method Process(mask: array<int>)
      requires Valid() && frame.width <= mask.Length
      modifies this, buffer, mask
      ensures Valid() && y == old(y) + 1
      ensures forall x :: 0 <= x < frame.width ==> mask[x] == Output(x, old(y))
    {
      if frame.radius > 0 {
        ProcessBlurred(mask);
      } else {
        ProcessPlain(mask);
      }
      hide Ring;
      y := y + 1;
    }

    /** `Initialize`, given the integer kernel.  The first row's address is
        found with an unsigned product. */
    constructor (frame: Frame, kernel: seq<int>, memory: seq<int>, origin: int, stride: int)
      requires 0 <= frame.width && frame.left <= frame.right && Rows(frame)
      requires |kernel| == 2 * frame.radius + 1 && forall i :: 0 <= i < |kernel| ==> 0 <= kernel[i] < WORD
      requires forall i :: 0 <= i < |memory| ==> 0 <= memory[i] < WORD
      requires forall u, v :: frame.left <= u < frame.right && frame.top <= v < frame.bottom ==>
               0 <= Address(origin, stride, u, v) < |memory|
      ensures y == 0 && fresh(buffer) && Good()
      ensures Valid() <==> Addressed(frame, stride)
      ensures this.frame == frame && this.kernel == kernel && this.memory == memory && this.origin == origin
               && this.stride == stride
    {
      this.frame, this.kernel, this.memory, this.origin, this.stride := frame, kernel, memory, origin, stride;
      buffer_height := frame.radius * 2 + 1;
      buffer_nextrow := Wrap(frame.top);
      buffer := new int[frame.radius * 2 + 1, frame.width];
      pixels := if frame.radius > 0 then origin + Wrap(stride * Wrap(frame.top)) else origin;
      y := 0;
      new;
      WrapProduct(stride, frame.top);
    }

    static lemma WrapProduct(a: int, b: int)
      ensures Wrap(a * Wrap(b)) == Wrap(a * b)
      ensures Wrap(a * b) == a * b <==> 0 <= a * b < WORD
    {
      var q := b / WORD;
      assert b == q * WORD + Wrap(b);
      assert a * b == a * Wrap(b) + (a * q) * WORD;
      WrapRound(a * Wrap(b), a * q);
    }

    static lemma WrapRound(v: int, q: int)
      ensures Wrap(v + q * WORD) == Wrap(v)
    {
    }
  }

  /** A whole run: the rows that successive calls give are the blur by its definition. */
  method Blur(frame: Frame, height: nat, kernel: seq<int>, memory: seq<int>, origin: int, stride: int)
    returns (rows: seq<seq<int>>, ghost b: FastGaussianBlur)
    requires 0 <= frame.width && frame.left <= frame.right && Rows(frame) && Addressed(frame, stride)
    requires |kernel| == 2 * frame.radius + 1 && forall i :: 0 <= i < |kernel| ==> 0 <= kernel[i] < WORD
    requires forall i :: 0 <= i < |memory| ==> 0 <= memory[i] < WORD
    requires forall u, v :: frame.left <= u < frame.right && frame.top <= v < frame.bottom ==>
               0 <= FastGaussianBlur.Address(origin, stride, u, v) < |memory|
    ensures b.frame == frame && b.kernel == kernel && b.memory == memory && b.origin == origin && b.stride == stride
    ensures |rows| == height && forall v :: 0 <= v < height ==> |rows[v]| == frame.width
    ensures forall x, v :: 0 <= x < frame.width && 0 <= v < height ==> b.IsByte(rows[v][x], x, v)
    ensures forall x, v, c | 0 <= x < frame.width && 0 <= v < height && 0 < frame.radius ::
              EvenSquare(frame, memory, origin, stride, x, v, c) ==> EvenByte(rows[v][x], Sum(kernel), c)
  {
    var blur := new FastGaussianBlur(frame, kernel, memory, origin, stride);
    b := blur;
    var mask := new int[frame.width];
    rows := [];
    hide *;
    for v := 0 to height
      invariant blur.Valid() && blur.y == v && fresh(blur) && fresh(blur.buffer) && fresh(mask)
      invariant |rows| == v && (rows == [] || b.AreRows(rows))
    {
      blur.Process(mask);
      b.RowsGrow(rows, mask[..frame.width]);
      rows := rows + [mask[..frame.width]];
    }
    b.RowsMean(rows);
    b.RowsAreBytes(rows, height);
  }
}
