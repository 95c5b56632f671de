/** The geometry of the box blur's passes, and the blur by its definition. */
module BoxGeometry {
  import opened Common
  import opened PlaneSums

  /** What `Initialize` is given: the input rectangle relative to the output
      rectangle, the size of the output, the radius and the number of passes. */
  datatype Geometry = Geometry(left: int, top: int, right: int, bottom: int, width: int, height: int, radius: int,
    passes: nat)
  {
    /** A blur is wanted, and the input comes near enough to the output. */
    predicate Active() {
      && 0 < passes && 0 < radius && 0 < width && 0 < height
      && Min(right, width + radius) > Max(left, -radius)
      && Min(bottom, height + radius) > Max(top, -radius)
    }

    /** The part of the radius not used up by the passes before i. */
    function Remaining(i: nat): int
      requires i <= passes
      decreases i, 0
    {
      if i == 0 then radius else Remaining(i - 1) - PassRadius(i - 1)
    }

    /** What is left is shared out, rounding up. */
    function PassRadius(i: nat): int
      requires i < passes
      decreases i, 1
    {
      (Remaining(i) + (passes - i - 1)) / (passes - i)
    }

    /** The input spread by the earlier passes, cut to what later passes read. */
    function Left(i: nat): int requires i <= passes { Max(left - (radius - Remaining(i)), -Remaining(i)) }
    function Right(i: nat): int requires i <= passes { Min(right + (radius - Remaining(i)), width + Remaining(i)) }
    function Top(i: nat): int requires i <= passes { Max(top - (radius - Remaining(i)), -Remaining(i)) }
    function Bottom(i: nat): int requires i <= passes { Min(bottom + (radius - Remaining(i)), height + Remaining(i)) }

    function Area(i: nat): int
      requires i < passes
    {
      (2 * PassRadius(i) + 1) * (2 * PassRadius(i) + 1)
    }

    lemma {:induction false} RemainingBounds(i: nat)
      requires 0 <= radius && i <= passes
      ensures 0 <= Remaining(i) <= radius
      ensures i == passes && 0 < passes ==> Remaining(i) == 0
      ensures i < passes ==> 0 <= PassRadius(i) <= Remaining(i)
      ensures i < passes && Remaining(i) > 0 ==> 0 < PassRadius(i)
    {
      if i > 0 { RemainingBounds(i - 1); }
      if i < passes { ShareBounds(Remaining(i), passes - i); }
    }

    static lemma ShareBounds(t: int, n: int)
      requires 0 <= t && 0 < n
      ensures 0 <= (t + (n - 1)) / n <= t
      ensures 0 < t ==> 0 < (t + (n - 1)) / n
      ensures n == 1 ==> (t + (n - 1)) / n == t
    {
      var q := (t + (n - 1)) / n;
      assert n * q <= t + (n - 1) < n * q + n;
      AtLeast(n, t);
      AtLeastOnce(n, q - t);
      assert n * (q - t) == n * q - n * t;
    }

    static lemma AtLeast(n: int, t: int)
      requires 0 < n && 0 <= t
      ensures t <= n * t
    {
      assert n * t == (n - 1) * t + t;
    }

    static lemma AtLeastOnce(n: int, k: int)
      requires 0 < n
      ensures 1 <= k ==> n <= n * k
    {
      if 1 <= k { assert n * k == n * (k - 1) + n; }
    }

    /** Every pass has a non-empty region, as `Initialize` asserts. */
    lemma RegionNonEmpty(i: nat)
      requires Active() && i < passes
      ensures Left(i) < Right(i) && Top(i) < Bottom(i)
    {
      RemainingBounds(i);
    }

    /** The radii of the passes add up to the radius. */
    lemma {:induction false} RadiiSum(i: nat)
      requires i <= passes
      ensures RadiusBefore(i) == radius - Remaining(i)
    {
      if i > 0 { RadiiSum(i - 1); }
    }

    /** Every pass gets a whole share of the radius, and the first ones a pixel of
        what division leaves over. */
    lemma {:induction false} Shares(i: nat)
      requires 0 <= radius && i < passes
      ensures PassRadius(i) == radius / passes + if i < radius % passes then 1 else 0
    {
      hide PassRadius;
      RemainingShares(i);
      var q, k, m := radius / passes, Max(radius % passes - i, 0), passes - i;
      assert PassRadius(i) == (q * m + k + (m - 1)) / m by { PassRadiusIs(i); }
      RoundUp(q, k, m);
    }

    lemma PassRadiusIs(i: nat)
      requires i < passes
      ensures PassRadius(i) == (Remaining(i) + (passes - i - 1)) / (passes - i)
    {
    }

    /** Before pass i there are as many whole shares left as passes, and what is
        left over but for a pixel for every pass before. */
    lemma {:induction false} RemainingShares(i: nat)
      requires 0 <= radius && i < passes
      ensures Remaining(i) == radius / passes * (passes - i) + Max(radius % passes - i, 0)
    {
      var q := radius / passes;
      assert radius == q * passes + radius % passes;
      if i > 0 {
        RemainingShares(i - 1);
        var k, m := Max(radius % passes - (i - 1), 0), passes - (i - 1);
        PassRadiusIs(i - 1);
        RemainingNext(i - 1);
        hide *;
        NextShares(Remaining(i - 1), Remaining(i), PassRadius(i - 1), q, k, m);
      }
    }

    lemma RemainingNext(i: nat)
      requires i < passes
      ensures Remaining(i + 1) == Remaining(i) - PassRadius(i) && Remaining(0) == radius
    {
    }

    static lemma NextShares(t: int, t': int, r: int, q: int, k: int, m: int)
      requires 0 <= k < m && t == q * m + k && r == (t + (m - 1)) / m && t' == t - r
      ensures t' == q * (m - 1) + if 0 < k then k - 1 else 0
    {
      RoundUp(q, k, m);
      assert q * m == q * (m - 1) + q;
    }

    /** Dividing m shares of q and a rest smaller than m, rounding up. */
    static lemma RoundUp(q: int, k: int, m: int)
      requires 0 <= k < m
      ensures (q * m + k + (m - 1)) / m == q + if 0 < k then 1 else 0
    {
      var r := k + (m - 1);
      var d := if 0 < k then 1 else 0;
      assert (q + d) * m == q * m + d * m;
      QuotientWithin(q * m + r, q + d, m);
    }

    static lemma QuotientWithin(n: int, c: int, a: int)
      requires 0 < a && c * a <= n < c * a + a
      ensures n / a == c
    {
      var k := n / a;
      assert k * a <= n < k * a + a;
      assert (k + 1) * a == k * a + a && (c + 1) * a == c * a + a;
      if k + 1 <= c { MulAtMost(k + 1, c, a); }
      if c + 1 <= k { MulAtMost(c + 1, k, a); }
    }

    function RadiusBefore(i: nat): int
      requires i <= passes
    {
      if i == 0 then 0 else RadiusBefore(i - 1) + PassRadius(i - 1)
    }

    /** The alpha plane: the image inside the input rectangle, zero outside. */
    function Alpha(image: Plane): Plane {
      (x, y) => if left <= x < right && top <= y < bottom then image(x, y) else 0
    }

    /** The window of pass i around a pixel. */
    function Window(f: Plane, i: nat, x: int, y: int): int
      requires i < passes
    {
      var r := PassRadius(i);
      RectSum(f, x - r, x + r + 1, y - r, y + r + 1)
    }

    /** What pass i reads, by definition: the averages of the pass before over
        its windows, with no clipping. */
    function Level(image: Plane, i: nat): Plane
      requires 0 <= radius && i < passes
      decreases i
    {
      if i == 0 then Alpha(image)
      else
        AreaPositive(i - 1);
        (x, y) => Window(Level(image, i - 1), i - 1, x, y) / Area(i - 1)
    }

    lemma AreaPositive(i: nat)
      requires 0 <= radius && i < passes
      ensures 0 < Area(i)
    {
      RemainingBounds(i);
      var w := 2 * PassRadius(i) + 1;
      assert w * w >= 1;
    }

    lemma LevelAverage(image: Plane, i: nat, x: int, y: int)
      requires 0 <= radius && i + 1 < passes
      ensures 0 < Area(i) && Level(image, i + 1)(x, y) == Window(Level(image, i), i, x, y) / Area(i)
    {
      AreaPositive(i);
    }

    /** An average is the whole part: the greatest value that, all over the
        window, adds up to no more than the window does. */
    lemma LevelMeans(image: Plane, i: nat, x: int, y: int)
      requires 0 <= radius && i + 1 < passes
      ensures var w, v := 2 * PassRadius(i) + 1, Level(image, i + 1)(x, y);
              var r, f := PassRadius(i), Level(image, i);
              v * (w * w) <= RectSum(f, x - r, x + r + 1, y - r, y + r + 1) < (v + 1) * (w * w)
    {
      LevelAverage(image, i, x, y);
      hide Level, PassRadius, RectSum;
      WholePart(Window(Level(image, i), i, x, y), Area(i));
    }

    static lemma WholePart(s: int, a: int)
      requires 0 < a
      ensures s / a * a <= s < (s / a + 1) * a
    {
      assert s / a * a <= s < s / a * a + a;
      assert (s / a + 1) * a == s / a * a + a;
    }

    lemma WindowBound(f: Plane, i: nat, x: int, y: int)
      requires Bounded(f) && 0 <= radius && i < passes
      ensures 0 <= Window(f, i, x, y) <= 255 * Area(i)
    {
      RemainingBounds(i);
      var r := PassRadius(i);
      RectBound(f, x - r, x + r + 1, y - r, y + r + 1);
      var w := 2 * r + 1;
      assert 255 * w * w == 255 * (w * w);
    }

    static lemma AverageBound(s: int, area: int)
      requires 0 < area && 0 <= s <= 255 * area
      ensures 0 <= s / area <= 255
    {
      var q := s / area;
      assert area * q <= s;
      AtLeastOnce(area, q - 255);
      assert area * (q - 255) == area * q - 255 * area;
    }

    /** Every level holds byte values. */
    lemma {:induction false} LevelBounded(image: Plane, i: nat)
      requires Bounded(image) && 0 <= radius && i < passes
      ensures Bounded(Level(image, i))
    {
      if i > 0 {
        LevelBounded(image, i - 1);
        AreaPositive(i - 1);
        forall x, y ensures 0 <= Level(image, i)(x, y) <= 255 {
          WindowBound(Level(image, i - 1), i - 1, x, y);
          AverageBound(Window(Level(image, i - 1), i - 1, x, y), Area(i - 1));
        }
      }
    }

    /** Out of reach of the input spread by the passes before i. */
    predicate Outside(i: nat, x: int, y: int)
      requires i <= passes
    {
      var s := radius - Remaining(i);
      !(left - s <= x < right + s && top - s <= y < bottom + s)
    }

    lemma OutsideSpreads(i: nat, x: int, y: int, u: int, v: int)
      requires i < passes && Outside(i + 1, x, y)
      requires var r := PassRadius(i); x - r <= u <= x + r && y - r <= v <= y + r
      ensures Outside(i, u, v)
    {
    }

    static lemma ZeroQuotient(s: int, area: int)
      requires s == 0 && 0 < area
      ensures s / area == 0
    {
    }

    /** Each level is zero where the spread input does not reach. */
    lemma {:induction false} LevelSupport(image: Plane, i: nat, x: int, y: int)
      requires 0 <= radius && i < passes && Outside(i, x, y)
      ensures Level(image, i)(x, y) == 0
      decreases i
    {
      if i > 0 {
        AreaPositive(i - 1);
        hide Outside, Remaining, PassRadius, Area, Alpha, RectSum;
        var r, f := PassRadius(i - 1), Level(image, i - 1);
        forall u, v | x - r <= u < x + r + 1 && y - r <= v < y + r + 1 ensures f(u, v) == 0 {
          OutsideSpreads(i - 1, x, y, u, v);
          LevelSupport(image, i - 1, u, v);
        }
        ZeroRect(f, x - r, x + r + 1, y - r, y + r + 1);
        ZeroQuotient(Window(f, i - 1, x, y), Area(i - 1));
      }
    }

    /** The pixels whose windows in pass i are asked for: the next pass's
        region, or the output for the last. */
    predicate Wanted(i: nat, x: int, y: int)
      requires i < passes
    {
      -Remaining(i + 1) <= x < width + Remaining(i + 1) && -Remaining(i + 1) <= y < height + Remaining(i + 1)
    }

    predicate InRegion(i: nat, u: int, v: int)
      requires i < passes
    {
      Left(i) <= u < Right(i) && Top(i) <= v < Bottom(i)
    }

    /** What a wanted window can see outside the region is zero. */
    lemma ZeroOutsideRegion(image: Plane, i: nat, x: int, y: int, u: int, v: int)
      requires 0 <= radius && i < passes && Wanted(i, x, y) && !InRegion(i, u, v)
      requires var r := PassRadius(i); x - r <= u <= x + r && y - r <= v <= y + r
      ensures Level(image, i)(u, v) == 0
    {
      assert Remaining(i + 1) == Remaining(i) - PassRadius(i);
      LevelSupport(image, i, u, v);
    }

    /** For a wanted pixel, the pass's region holds every non-zero value of its
        window: the clipped window has the same sum. */
    lemma ClippedWindow(image: Plane, i: nat, x: int, y: int)
      requires 0 <= radius && i < passes && Wanted(i, x, y)
      requires var r := PassRadius(i);
               0 <= r && Max(x - r, Left(i)) <= Min(x + r + 1, Right(i))
                 && Max(y - r, Top(i)) <= Min(y + r + 1, Bottom(i))
      ensures var r := PassRadius(i);
              Window(Level(image, i), i, x, y)
              == RectSum(Level(image, i), Max(x - r, Left(i)), Min(x + r + 1, Right(i)), Max(y - r, Top(i)),
                Min(y + r + 1, Bottom(i)))
    {
      hide Left, Right, Top, Bottom, Remaining, PassRadius, Level, Wanted;
      var r, f := PassRadius(i), Level(image, i);
      var x0, x1, y0, y1 := Left(i), Right(i), Top(i), Bottom(i);
      forall u, v | x - r <= u < x + r + 1 && y - r <= v < y + r + 1 && !(x0 <= u < x1 && y0 <= v < y1)
        ensures f(u, v) == 0
      {
        ZeroOutsideRegion(image, i, x, y, u, v);
      }
      ClipSum(f, x0, x1, y0, y1, x - r, x + r + 1, y - r, y + r + 1);
    }

    /** A wanted pixel whose window misses the region has a window sum of zero. */
    lemma MissedWindow(image: Plane, i: nat, x: int, y: int)
      requires 0 <= radius && i < passes && Wanted(i, x, y)
      requires var r := PassRadius(i);
               x + r < Left(i) || Right(i) <= x - r || y + r < Top(i) || Bottom(i) <= y - r
      ensures Window(Level(image, i), i, x, y) == 0
    {
      hide Left, Right, Top, Bottom, Remaining, PassRadius, Level, Wanted;
      var r, f := PassRadius(i), Level(image, i);
      forall u, v | x - r <= u < x + r + 1 && y - r <= v < y + r + 1 ensures f(u, v) == 0 {
        ZeroOutsideRegion(image, i, x, y, u, v);
      }
      ZeroRect(f, x - r, x + r + 1, y - r, y + r + 1);
    }

    /** Every pixel of a pass's region is wanted of the pass before, and meets
        that pass's region. */
    lemma NextRegionWanted(i: nat, x: int, y: int)
      requires Active() && i + 1 < passes
      requires Left(i + 1) <= x < Right(i + 1) && Top(i + 1) <= y < Bottom(i + 1)
      ensures Wanted(i, x, y)
      ensures var r := PassRadius(i);
              && Max(x - r, Left(i)) < Min(x + r + 1, Right(i))
              && Max(y - r, Top(i)) < Min(y + r + 1, Bottom(i))
    {
      RemainingBounds(i);
      RemainingBounds(i + 1);
      RegionNonEmpty(i);
    }

    /** Each pass leaves at most its share of the radius to the later ones. */
    lemma {:induction false} RemainingShare(i: nat)
      requires 0 <= radius && i <= passes && 0 < passes
      ensures Remaining(i) * passes <= radius * (passes - i)
    {
      if i > 0 {
        RemainingShare(i - 1);
        RemainingBounds(i - 1);
        SharePasses(radius, passes, passes - i + 1, Remaining(i - 1));
      }
    }

    /** Taking one of m equal shares, rounded up, from t leaves the rest in proportion. */
    static lemma SharePasses(r: int, n: int, m: int, t: int)
      requires 0 <= t && 0 < m <= n && t * n <= r * m
      ensures (t - (t + (m - 1)) / m) * n <= r * (m - 1)
    {
      var s := (t + (m - 1)) / m;
      assert t <= s * m;
      assert (t - s) * m <= t * (m - 1);
      MulAtMost((t - s) * m, t * (m - 1), n);
      assert (t - s) * m * n == ((t - s) * n) * m;
      assert t * (m - 1) * n == (t * n) * (m - 1);
      MulAtMost(t * n, r * m, m - 1);
      assert (r * m) * (m - 1) == (r * (m - 1)) * m;
      CancelAtMost((t - s) * n, r * (m - 1), m);
    }

    static lemma MulAtMost(a: int, b: int, n: int)
      requires a <= b && 0 <= n
      ensures a * n <= b * n
    {
    }

    static lemma CancelAtMost(a: int, b: int, n: int)
      requires a * n <= b * n && 0 < n
      ensures a <= b
    {
      if b < a { MulAtMost(1, a - b, n); }
    }

    /** The last pass has at most its share of the radius; its window fits the
        limit of the last step exactly if there are two passes, or the radius is
        not over 127. */
    lemma LastAreaIff()
      requires 0 <= radius <= 255 && 0 < passes
      ensures PassRadius(passes - 1) * passes <= radius
      ensures Area(passes - 1) <= 65535 <==> 2 <= passes || radius <= 127
    {
      var k := passes - 1;
      RemainingShare(k);
      RemainingBounds(k);
      assert PassRadius(k) == Remaining(k);
      LastWindow(PassRadius(k), passes, radius);
    }

    /** A window whose radius is one of n shares, or all there is. */
    static lemma LastWindow(r: int, n: int, total: int)
      requires 0 <= r && 0 < n && r * n <= total <= 255 && (n == 1 ==> r == total)
      ensures (2 * r + 1) * (2 * r + 1) <= 65535 <==> 2 <= n || total <= 127
    {
      if 2 <= n { MulAtMost(2, n, r); }
      SquareAtMost(2 * r + 1, 255);
      SquareAtMost(257, 2 * r + 1);
    }

    static lemma SquareAtMost(a: int, b: int)
      requires 0 <= a && 0 <= b
      ensures a <= b ==> a * a <= b * b
    {
      if a <= b {
        MulAtMost(a, b, a);
        MulAtMost(a, b, b);
      }
    }

    /** Alpha is c all over a square. */
    ghost predicate Even(image: Plane, x: int, y: int, reach: int, c: int) {
      forall u, v :: x - reach <= u <= x + reach && y - reach <= v <= y + reach ==> Alpha(image)(u, v) == c
    }

    /** Averaging leaves an even alpha as it is. */
    lemma {:induction false} LevelEven(image: Plane, i: nat, x: int, y: int, c: int)
      requires 0 <= radius && i < passes && Even(image, x, y, RadiusBefore(i), c)
      ensures Level(image, i)(x, y) == c
      decreases i, 0
    {
      if i > 0 {
        WindowEven(image, i - 1, x, y, c);
        AreaPositive(i - 1);
        hide Area;
        QuotientIs(c, Area(i - 1));
      }
    }

    lemma {:induction false} WindowEven(image: Plane, i: nat, x: int, y: int, c: int)
      requires 0 <= radius && i < passes && Even(image, x, y, RadiusBefore(i) + PassRadius(i), c)
      ensures Window(Level(image, i), i, x, y) == c * Area(i)
      decreases i, 1
    {
      RemainingBounds(i);
      hide Level, Geometry.Alpha, PassRadius, RadiusBefore, RectSum;
      var r, f := PassRadius(i), Level(image, i);
      forall u, v | x - r <= u < x + r + 1 && y - r <= v < y + r + 1 ensures f(u, v) == c {
        LevelEven(image, i, u, v, c);
      }
      EvenWindow(f, x, y, r, c);
    }

    static lemma EvenWindow(f: Plane, x: int, y: int, r: int, c: int)
      requires 0 <= r && forall u, v :: x - r <= u < x + r + 1 && y - r <= v < y + r + 1 ==> f(u, v) == c
      ensures RectSum(f, x - r, x + r + 1, y - r, y + r + 1) == c * ((2 * r + 1) * (2 * r + 1))
    {
      EvenRect(f, x - r, x + r + 1, y - r, y + r + 1, c);
      assert c * (2 * r + 1) * (2 * r + 1) == c * ((2 * r + 1) * (2 * r + 1));
    }

    static lemma QuotientIs(c: int, a: int)
      requires 0 < a
      ensures (c * a) / a == c
    {
      QuotientWithin(c * a, c, a);
    }

    /** Without any input every level is zero. */
    lemma {:induction false} EmptyLevel(image: Plane, i: nat, x: int, y: int)
      requires 0 <= radius && i < passes && (right <= left || bottom <= top)
      ensures Level(image, i)(x, y) == 0
      decreases i
    {
      if i > 0 {
        AreaPositive(i - 1);
        hide Area, PassRadius, RectSum;
        var r, f := PassRadius(i - 1), Level(image, i - 1);
        forall u, v | x - r <= u < x + r + 1 && y - r <= v < y + r + 1 ensures f(u, v) == 0 {
          EmptyLevel(image, i - 1, u, v);
        }
        ZeroRect(f, x - r, x + r + 1, y - r, y + r + 1);
        ZeroQuotient(Window(f, i - 1, x, y), Area(i - 1));
      }
    }

    /** Where `Initialize` drops all passes although a blur was asked for, the
        blur and the bare alpha are both zero all over the output. */
    lemma InactiveWindow(image: Plane, x: int, y: int)
      requires 0 < radius && 0 < passes && 0 <= x < width && 0 <= y < height && !Active()
      ensures Alpha(image)(x, y) == 0 && Window(Level(image, passes - 1), passes - 1, x, y) == 0
    {
      var k := passes - 1;
      RemainingBounds(k);
      RemainingBounds(passes);
      assert Remaining(passes) == Remaining(k) - PassRadius(k);
      var r, f := PassRadius(k), Level(image, k);
      forall u, v | x - r <= u < x + r + 1 && y - r <= v < y + r + 1 ensures f(u, v) == 0 {
        if right <= left || bottom <= top {
          EmptyLevel(image, k, u, v);
        } else {
          LevelSupport(image, k, u, v);
        }
      }
      ZeroRect(f, x - r, x + r + 1, y - r, y + r + 1);
    }
  }
}
