/** `MCBitmapEffectBoxBlur`: the streaming box blur. */
module BoxBlur {
  import opened Common
  import opened PlaneSums
  import opened BoxGeometry
  import opened BoxPass
  import opened BoxScale

  /** Alpha is c in every stored pixel of the square around a pixel. */
  ghost predicate EvenSquare(g: Geometry, memory: seq<int>, origin: int, stride: int, x: int, y: int, c: int) {
    forall u, v :: x - g.radius <= u <= x + g.radius && y - g.radius <= v <= y + g.radius ==>
      && g.left <= u < g.right && g.top <= v < g.bottom
      && var i := BoxBlur.Address(origin, stride, u, v);
         0 <= i < |memory| && memory[i] / 0x100_0000 == c
  }

  class BoxBlur {
    // What Initialize is given, and never changes.
    const g: Geometry
    const spread: int
    const memory: seq<int>
    const origin: int
    const stride: int
    // What it sets up once.
    const m_passes: nat
    const pass_info: seq<PassInfo>
    const row_buffer: array<int>
    // What every call moves on.
    var y: int
    var pixels: int

    /** Where the pixel in column u of row v is stored. */
    function At(u: int, v: int): int {
      Address(origin, stride, u, v)
    }

    static function Address(origin: int, stride: int, u: int, v: int): int {
      origin + stride * v + u
    }

    /** The alpha of a stored pixel is its top byte. */
    function PixelAlpha(u: int, v: int): int {
      if 0 <= At(u, v) < |memory| then memory[At(u, v)] / 0x100_0000 else 0
    }

    ghost function Image(): Plane {
      (u, v) => PixelAlpha(u, v)
    }

    ghost predicate Readable() {
      && (forall i :: 0 <= i < |memory| ==> 0 <= memory[i] < WORD)
      && (forall u, v :: g.left <= u < g.right && g.top <= v < g.bottom ==> 0 <= At(u, v) < |memory|)
    }

    /** Pass k as `Initialize` lays it out. */
    ghost predicate Fits(k: nat)
      requires k < |pass_info| <= g.passes
    {
      LaidOut(g, pass_info[k], k) && pass_info[k].width <= row_buffer.Length
    }

    ghost predicate Distinct() {
      forall j, k :: 0 <= j < k < |pass_info| ==>
        && pass_info[j] != pass_info[k]
        && pass_info[j].buffer != pass_info[k].buffer
    }

    ghost predicate Good() {
      && 0 <= g.radius <= 255 && 0 <= g.width && 0 <= g.height && 0 < g.passes
      && Readable()
      && m_passes == (if g.Active() then g.passes else 0) && |pass_info| == m_passes
      && (forall k :: 0 <= k < m_passes ==> Fits(k))
      && Distinct()
    }

    /** What pass k reads, by definition. */
    ghost function Level(k: nat): Plane
      requires 0 <= g.radius && k < g.passes
    {
      g.Level(Image(), k)
    }

    /** The passes before p and their tables. */
    ghost function Below(p: nat): set<object>
      requires p <= |pass_info|
    {
      (set k | 0 <= k < p :: pass_info[k] as object) + (set k | 0 <= k < p :: pass_info[k].buffer as object)
    }

    lemma NotBelow(p: nat, k: nat)
      requires Distinct() && p <= k < |pass_info|
      ensures pass_info[k] !in Below(p) && pass_info[k].buffer !in Below(p)
      ensures row_buffer !in Below(p) && this !in Below(p)
      ensures Below(p) <= Below(k + 1) && pass_info[k] in Below(k + 1) && pass_info[k].buffer in Below(k + 1)
    {
    }

    /** How far pass k has been filled once the next pass has rows before next. */
    function Expected(k: nat, next: int): int
      requires k + 1 < |pass_info|
    {
      if next <= pass_info[k + 1].top then pass_info[k].top else Min(pass_info[k].bottom, next + pass_info[k].radius)
    }

    /** The passes before p are in step with a pass p filled up to next, and
        `pixels` is in step with the first of them. */
    ghost predicate ReadyBelow(p: nat, next: int)
      requires Good() && p <= |pass_info|
      requires p < |pass_info|
      reads `pixels, Below(p)
      decreases p
    {
      if p == 0 then pixels == origin + stride * next
      else
        var prev := pass_info[p - 1];
        && prev.buffer_nextrow == Expected(p - 1, next)
        && prev.Filled(Level(p - 1), prev.buffer_nextrow)
        && ReadyBelow(p - 1, prev.buffer_nextrow)
    }

    ghost predicate Ready(p: nat)
      requires Good() && p < |pass_info|
      reads `pixels, Below(p + 1)
    {
      var pass := pass_info[p];
      pass.Filled(Level(p), pass.buffer_nextrow) && ReadyBelow(p, pass.buffer_nextrow)
    }

    lemma ImageBounded()
      requires Readable()
      ensures Bounded(Image())
    {
    }

    lemma LevelBytes(k: nat)
      requires Good() && k < m_passes
      ensures Bounded(Level(k)) && 0 <= pass_info[k].radius <= 255
    {
      ImageBounded();
      g.LevelBounded(Image(), k);
      g.RemainingBounds(k);
      assert Fits(k);
    }

    /** The window of row t of pass p in the pass before. */
    lemma RowWindow(p: nat, t: int)
      requires Good() && 0 < p < m_passes && pass_info[p].top <= t < pass_info[p].bottom
      ensures var prev := pass_info[p - 1];
              && prev.RowAbove(t) < prev.RowBelow(t)
              && prev.RowBelow(t) == Expected(p - 1, t + 1)
              && Expected(p - 1, t) <= prev.RowBelow(t) <= prev.bottom
    {
      assert Fits(p - 1) && Fits(p);
      g.RegionNonEmpty(p);
      g.NextRegionWanted(p - 1, g.Left(p), t);
    }

    /** Cutting the window of a wanted pixel to the table loses nothing. */
    lemma ClippedIsWindow(k: nat, x: int, y: int)
      requires Good() && k < m_passes && g.Wanted(k, x, y)
      requires pass_info[k].Meets(x) && pass_info[k].RowAbove(y) <= pass_info[k].RowBelow(y)
      ensures pass_info[k].Clipped(Level(k), x, y) == g.Window(Level(k), k, x, y)
    {
      hide Good, BoxBlur.Level, PassInfo.Meets, Geometry.Wanted, Geometry.Level, RectSum;
      PassGeometry(k);
      MeetsMeans(pass_info[k], x);
      g.RemainingBounds(k);
      g.ClippedWindow(Image(), k, x, y);
      LevelIs(k);
    }

    lemma PassGeometry(k: nat)
      requires Good() && k < m_passes
      ensures 0 <= g.radius && k < g.passes && k < |pass_info|
      ensures var p := pass_info[k];
              && p.left == g.Left(k) && p.right == g.Right(k) && p.top == g.Top(k) && p.bottom == g.Bottom(k)
              && p.radius == g.PassRadius(k)
    {
      assert Fits(k);
    }

    static lemma MeetsMeans(p: PassInfo, x: int)
      requires p.Meets(x)
      ensures p.ColumnFrom(x) <= p.ColumnTo(x)
    {
    }

    lemma LevelIs(k: nat)
      requires 0 <= g.radius && k < g.passes
      ensures Level(k) == g.Level(Image(), k)
    {
    }

    lemma NextRegionMeets(p: nat, x: int, t: int)
      requires Good() && 0 < p < m_passes && pass_info[p].top <= t < pass_info[p].bottom
      requires pass_info[p].left <= x < pass_info[p].right
      ensures g.Wanted(p - 1, x, t)
      ensures pass_info[p - 1].Meets(x) && pass_info[p - 1].RowAbove(t) <= pass_info[p - 1].RowBelow(t)
    {
      assert Fits(p - 1) && Fits(p);
      g.NextRegionWanted(p - 1, x, t);
    }

    /** What the averages over the clipped windows are. */
    lemma AveragesLevel(p: nat, t: int, x: int)
      requires Good() && 0 < p < m_passes && pass_info[p].top <= t < pass_info[p].bottom
      requires pass_info[p].left <= x < pass_info[p].right
      ensures var prev := pass_info[p - 1];
              && prev.Meets(x) && 0 < prev.window * prev.window
              && Level(p)(x, t) == prev.Clipped(Level(p - 1), x, t) / (prev.window * prev.window)
    {
      NextRegionMeets(p, x, t);
      ClippedIsWindow(p - 1, x, t);
      g.LevelAverage(Image(), p - 1, x, t);
      assert Fits(p - 1);
      SameArea(p - 1);
    }

    lemma SameArea(k: nat)
      requires k < |pass_info| <= g.passes && Fits(k)
      ensures g.Area(k) == pass_info[k].window * pass_info[k].window
    {
    }

    /** The first pass reads pixels inside the input rectangle only. */
    lemma FirstPassReads(t: int, x: int)
      requires Good() && 0 < m_passes && pass_info[0].top <= t < pass_info[0].bottom && 0 <= x < pass_info[0].width
      ensures var i := origin + stride * t + pass_info[0].left + x;
              0 <= i < |memory| && Level(0)(pass_info[0].left + x, t) == memory[i] / 0x100_0000
    {
      assert Fits(0);
      var u := pass_info[0].left + x;
      assert 0 <= At(u, t) < |memory|;
      assert Level(0)(u, t) == PixelAlpha(u, t);
    }

    /** Copy the alpha of the next image row into the scratch row. */
    method CopyAlpha(t: int)
      requires Good() && 0 < m_passes && pass_info[0].top <= t < pass_info[0].bottom && 0 <= pass_info[0].width
      requires pixels == origin + stride * t && pass_info[0].width <= row_buffer.Length
      modifies row_buffer, `pixels
      ensures pixels == origin + stride * (t + 1)
      ensures forall x :: 0 <= x < pass_info[0].width ==> row_buffer[x] == Level(0)(pass_info[0].left + x, t)
    {
      var pixel_ptr := pixels + pass_info[0].left;
      pixels := pixels + stride;
      hide *;
      for x := 0 to pass_info[0].width
        invariant forall k :: 0 <= k < x ==> row_buffer[k] == Level(0)(pass_info[0].left + k, t)
        invariant pixels == origin + stride * (t + 1)
      {
        FirstPassReads(t, x);
        row_buffer[x] := memory[pixel_ptr + x] / 0x100_0000;
      }
    }

    lemma PassFits(p: nat)
      requires Good() && p < |pass_info|
      ensures pass_info[p].Shaped() && pass_info[p].width <= row_buffer.Length
               && p < m_passes == |pass_info| <= g.passes && 0 <= g.radius && Distinct()
    {
      assert Fits(p);
    }

    static lemma FilledRange(pass: PassInfo, f: Plane, upto: int)
      requires pass.Filled(f, upto)
      ensures pass.Shaped() && pass.top <= upto <= pass.bottom
    {
    }

    lemma PixelsAt(t: int)
      requires Good() && 0 < |pass_info| && ReadyBelow(0, t)
      ensures pixels == origin + stride * t
    {
    }

    lemma PixelsReady(t: int)
      requires Good() && 0 < |pass_info| && pixels == origin + stride * t
      ensures ReadyBelow(0, t)
    {
    }

    /** Have the pass before fill what the windows of row t reach. */
    method FillPrevious(p: nat, t: int)
      requires Good() && 0 < p < |pass_info| && pass_info[p].top <= t < pass_info[p].bottom && ReadyBelow(p, t)
      modifies `pixels, row_buffer, Below(p)
      ensures ReadyBelow(p, t + 1)
      ensures pass_info[p - 1].Filled(Level(p - 1), pass_info[p - 1].RowBelow(t))
      decreases p, 0
    {
      hide Good, PassInfo.Filled, Level, Expected;
      var prev := pass_info[p - 1];
      PassFits(p - 1);
      RowWindow(p, t);
      NotBelow(p - 1, p - 1);
      var t_bottom := Min(prev.bottom - t - 1, prev.radius);
      prev.buffer_needrow := t_bottom + t;
      CalculateRows(p - 1);
    }

    /** Average the rows that row t needs into the scratch row. */
    method AveragePrevious(p: nat, t: int)
      requires Good() && 0 < p < |pass_info| && pass_info[p].top <= t < pass_info[p].bottom
      requires 0 <= pass_info[p].width <= row_buffer.Length
      requires pass_info[p - 1].Filled(Level(p - 1), pass_info[p - 1].RowBelow(t))
      modifies row_buffer
      ensures forall x :: 0 <= x < pass_info[p].width ==> row_buffer[x] == Level(p)(pass_info[p].left + x, t)
    {
      hide *;
      PassFits(p - 1);
      PassFits(p);
      var pass, prev := pass_info[p], pass_info[p - 1];
      RowWindow(p, t);
      LevelBytes(p - 1);
      ShapedMeans(pass);
      forall x | pass.left <= x < pass.left + pass.width ensures prev.Meets(x) { AveragesLevel(p, t, x); }
      prev.Average(row_buffer, pass.left, pass.width, t, Level(p - 1), prev.RowBelow(t));
      forall x | 0 <= x < pass.width ensures row_buffer[x] == Level(p)(pass.left + x, t) {
        AveragesLevel(p, t, pass.left + x);
      }
    }

    static lemma ShapedMeans(pass: PassInfo)
      requires pass.Shaped()
      ensures pass.right == pass.left + pass.width && 0 <= pass.width && 0 < pass.buffer_height
    {
    }

    /** One more row of pass p's table. */
    method NextRow(p: nat, t: int, prev: int) returns (cur: int)
      requires Good() && p < |pass_info| && pass_info[p].Shaped() && pass_info[p].top <= t < pass_info[p].bottom
      requires pass_info[p].Filled(Level(p), t) && ReadyBelow(p, t) && prev == (t - 1) % pass_info[p].buffer_height
      modifies `pixels, row_buffer, Below(p), pass_info[p].buffer
      ensures pass_info[p].Filled(Level(p), t + 1) && ReadyBelow(p, t + 1)
      ensures cur == t % pass_info[p].buffer_height
      decreases p, 1
    {
      hide Good, Fits, Distinct, Readable, ReadyBelow, Ready, Level, Expected, PassInfo.Filled, PassInfo.Shaped,
        PassInfo.RowDone;
      var pass := pass_info[p];
      PassFits(p);
      NotBelow(p, p);
      ShapedMeans(pass);
      if p != 0 {
        FillPrevious(p, t);
        AveragePrevious(p, t);
      } else {
        PixelsAt(t);
        CopyAlpha(t);
        PixelsReady(t + 1);
      }
      cur := pass.AddRow(row_buffer, prev, t, Level(p));
    }

    /** Fill pass p's table up to the row it needs, asking the pass before for
        the rows its windows reach, and so on down to the image. */
    method CalculateRows(p: nat)
      requires Good() && p < |pass_info| && Ready(p)
      requires pass_info[p].buffer_nextrow - 1 <= pass_info[p].buffer_needrow < pass_info[p].bottom
      modifies `pixels, row_buffer, Below(p + 1)
      ensures Ready(p)
      ensures pass_info[p].buffer_needrow == old(pass_info[p].buffer_needrow)
      ensures pass_info[p].buffer_nextrow == old(pass_info[p].buffer_needrow) + 1
      decreases p, 2
    {
      hide Good, Fits, Distinct, Readable, ReadyBelow, Ready, Level, Expected, PassInfo.Filled, PassInfo.Shaped,
        PassInfo.RowDone;
      var pass := pass_info[p];
      PassFits(p);
      NotBelow(p, p);
      ReadyMeans(p);
      FilledRange(pass, Level(p), pass.buffer_nextrow);
      ghost var need := pass.buffer_needrow;
      ShapedMeans(pass);
      var prev := NormalRow(pass.buffer_nextrow - 1, pass.buffer_height);
      var t_y := pass.buffer_nextrow;
      while t_y <= pass.buffer_needrow
        invariant pass.buffer_needrow == need
        invariant pass.top <= t_y <= need + 1
        invariant pass.Filled(Level(p), t_y) && ReadyBelow(p, t_y)
        invariant prev == (t_y - 1) % pass.buffer_height
      {
        prev := NextRow(p, t_y, prev);
        t_y := t_y + 1;
      }
      pass.buffer_nextrow := pass.buffer_needrow + 1;
      ReadyIf(p);
    }

    lemma ReadyMeans(p: nat)
      requires Good() && p < |pass_info| && Ready(p)
      ensures ReadyBelow(p, pass_info[p].buffer_nextrow)
      ensures pass_info[p].Filled(Level(p), pass_info[p].buffer_nextrow)
    {
    }

    lemma ReadyIf(p: nat)
      requires Good() && p < |pass_info|
      requires 0 <= g.radius && p < g.passes
      requires pass_info[p].Filled(Level(p), pass_info[p].buffer_nextrow) && ReadyBelow(p, pass_info[p].buffer_nextrow)
      ensures Ready(p)
    {
    }

    // ---- the calls -------------------------------------------------------

    /** How far the last pass is filled before row y is asked for. */
    function OutNext(y: int): int
      requires 0 < |pass_info|
    {
      var last := pass_info[|pass_info| - 1];
      if y == 0 then last.top else Max(last.top, Min(last.bottom, y + last.radius))
    }

    /** The state between calls. */
    ghost predicate Valid()
      reads this, Below(|pass_info|)
    {
      && Good() && 0 <= spread < WORD && spread != 1 && 0 <= y
      && if m_passes == 0 then pixels == origin + stride * y
         else Ready(m_passes - 1) && pass_info[m_passes - 1].buffer_nextrow == OutNext(y)
    }

    /** The mask by its definition: the last window sum over the last level,
        scaled; or the image's own alpha where nothing is blurred. */
    ghost function Output(x: int, row: int): int
      requires Good()
    {
      if m_passes == 0 then g.Alpha(Image())(x, row)
      else
        g.AreaPositive(m_passes - 1);
        Scale(g.Window(Level(m_passes - 1), m_passes - 1, x, row), g.Area(m_passes - 1), spread)
    }

    /** The sum over the last pass's window, by definition. */
    ghost function Sum(x: int, row: int): int
      requires Good()
    {
      g.Window(Level(g.passes - 1), g.passes - 1, x, row)
    }

    ghost function LastArea(): (area: int)
      requires Good()
      ensures 0 < area
    {
      g.AreaPositive(g.passes - 1);
      g.Area(g.passes - 1)
    }

    /** Wherever a blur is asked for, the mask is scaled from that sum, also
        where `Initialize` has dropped the passes because nothing can be seen. */
    lemma OutputScaled(x: int, row: int)
      requires Good() && 0 <= spread < WORD && spread != 1
      requires 0 < g.radius && 0 <= x < g.width && 0 <= row < g.height
      ensures 0 <= Sum(x, row) <= 255 * LastArea()
      ensures Output(x, row) == Scale(Sum(x, row), LastArea(), spread)
    {
      var k := g.passes - 1;
      ImageBounded();
      g.LevelBounded(Image(), k);
      g.WindowBound(Level(k), k, x, row);
      if m_passes == 0 {
        g.InactiveWindow(Image(), x, row);
        ScaleZero(LastArea(), spread);
      }
    }

    /** With no radius the mask is the stored alpha, inside the input rectangle. */
    lemma OutputPlain(x: int, row: int)
      requires Good() && g.radius == 0
      ensures Output(x, row)
              == if g.left <= x < g.right && g.top <= row < g.bottom then memory[At(x, row)] / 0x100_0000 else 0
    {
    }

    /** What a byte of the mask should be: the average over the last window,
        enlarged by the spread and cut off at 255. */
    ghost function Enlarged(x: int, row: int): int
      requires Good()
    {
      Spread(Sum(x, row), LastArea(), spread)
    }

    /** It is, under exactly this condition; with two or more passes, or a radius
        up to 127, always but where the enlarged average is 256 to the last bit. */
    lemma OutputIff(x: int, row: int)
      requires Good() && 2 <= spread < WORD
      requires 0 < g.radius && 0 <= x < g.width && 0 <= row < g.height
      ensures Output(x, row) == Enlarged(x, row) <==> Exact(Sum(x, row), LastArea(), spread)
      ensures 2 <= g.passes || g.radius <= 127 ==>
                (Output(x, row) == Enlarged(x, row) <==> Sum(x, row) * spread != 65536 * LastArea())
    {
      hide Level, Sum, Output, Exact, Accurate, Scale, Spread, Geometry.Area;
      OutputScaled(x, row);
      ScaleIff(Sum(x, row), LastArea(), spread);
      if 2 <= g.passes || g.radius <= 127 {
        g.LastAreaIff();
        AccurateIff(LastArea());
        AccurateAt(Sum(x, row), LastArea(), spread);
      }
    }

    /** Inside an even alpha the mask is that alpha, enlarged by the spread. */
    lemma OutputEven(x: int, row: int, c: int)
      requires Good() && 0 <= spread < WORD && spread != 1 && (2 <= g.passes || g.radius <= 127)
      requires 0 < g.radius && 0 <= x < g.width && 0 <= row < g.height
      requires g.Even(Image(), x, row, g.radius, c)
      ensures Sum(x, row) == c * LastArea() && Output(x, row) == EvenByte(c, spread)
    {
      var k, area := g.passes - 1, LastArea();
      EvenIsByte(x, row, c);
      g.RemainingBounds(g.passes);
      g.RadiiSum(g.passes);
      g.WindowEven(Image(), k, x, row, c);
      hide Level, Output, Scale, Geometry.Area, LastArea, EvenByte;
      OutputScaled(x, row);
      g.LastAreaIff();
      ScaleEven(c, area, spread);
    }

    lemma EvenIsByte(x: int, row: int, c: int)
      requires Readable() && 0 <= g.radius && g.Even(Image(), x, row, g.radius, c)
      ensures 0 <= c <= 255
    {
      ImageBounded();
      assert g.Alpha(Image())(x, row) == c;
    }

    /** Where an even alpha enlarges to exactly 256, there is a hole in the mask. */
    lemma OutputHole(x: int, row: int, c: int)
      requires Good() && 2 <= spread < WORD && c * spread == 65536 && (2 <= g.passes || g.radius <= 127)
      requires 0 < g.radius && 0 <= x < g.width && 0 <= row < g.height
      requires g.Even(Image(), x, row, g.radius, c)
      ensures Sum(x, row) == c * LastArea()
      ensures Output(x, row) == 0 && Enlarged(x, row) == 255
    {
      OutputEven(x, row, c);
      hide Level, Sum, Output, LastArea;
      g.LastAreaIff();
      HoleAt(c, LastArea(), spread);
    }

    /** With a spread of zero the mask is full wherever the window is not empty. */
    lemma OutputNoSpread(x: int, row: int)
      requires Good() && spread == 0 && 0 < g.radius && 0 <= x < g.width && 0 <= row < g.height
      ensures Output(x, row) == if Sum(x, row) > 0 then 0xFF else 0
    {
      hide Level, Sum, Output, Scale, Geometry.Area;
      OutputScaled(x, row);
      ScaleNoSpread(Sum(x, row), LastArea());
    }

    /** A column whose windows meet the last pass's table. */
    lemma OutputInside(x: int, row: int)
      requires Good() && 0 < m_passes && 0 <= x < g.width && 0 <= row < g.height
      requires var last := pass_info[m_passes - 1];
               && last.Meets(x) && last.RowAbove(row) <= last.RowBelow(row)
      ensures var last := pass_info[m_passes - 1];
              && 0 < last.window * last.window
              && Output(x, row) == Scale(last.Clipped(Level(m_passes - 1), x, row), last.window * last.window, spread)
    {
      var k := m_passes - 1;
      g.RemainingBounds(m_passes);
      ClippedIsWindow(k, x, row);
      g.AreaPositive(k);
      assert Fits(k);
      SameArea(k);
    }

    /** A pixel whose windows miss it. */
    lemma OutputOutside(x: int, row: int)
      requires Good() && 0 <= spread < WORD && spread != 1 && 0 < m_passes && 0 <= x < g.width && 0 <= row < g.height
      requires var last := pass_info[m_passes - 1];
               || x + last.radius < last.left || last.right <= x - last.radius
               || row + last.radius < last.top || last.bottom <= row - last.radius
      ensures Output(x, row) == 0
    {
      var k := m_passes - 1;
      g.RemainingBounds(m_passes);
      assert Fits(k);
      g.MissedWindow(Image(), k, x, row);
      g.AreaPositive(k);
      ScaleZero(g.Area(k), spread);
    }

    /** The guard of `Process`: the last pass's table reaches row y. */
    predicate Reaches(row: int)
      requires 0 < |pass_info|
    {
      var last := pass_info[|pass_info| - 1];
      last.top - last.radius <= row < last.bottom + last.radius
    }

    lemma ReachedWindow(row: int)
      requires Good() && 0 < m_passes && Reaches(row) && 0 <= row
      ensures var last := pass_info[m_passes - 1];
              && last.RowAbove(row) < last.RowBelow(row) <= last.bottom
              && OutNext(row) <= last.RowBelow(row) == OutNext(row + 1)
    {
      assert Fits(m_passes - 1);
      g.RegionNonEmpty(m_passes - 1);
      LevelBytes(m_passes - 1);
    }

    lemma UnreachedRow(row: int)
      requires Good() && 0 < m_passes && !Reaches(row) && 0 <= row < g.height
      ensures row + 1 <= g.height ==> OutNext(row + 1) == OutNext(row)
    {
      assert Fits(m_passes - 1);
      g.RegionNonEmpty(m_passes - 1);
      LevelBytes(m_passes - 1);
      g.RemainingBounds(m_passes);
      g.RemainingBounds(m_passes - 1);
    }

    lemma PassCount()
      requires Good()
      ensures m_passes == |pass_info|
    {
    }

    /** The mask of the columns whose windows meet the last pass's table. */
    method FillMiddle(mask: array<int>, row: int, from: int, to: int)
      requires Good() && 0 < m_passes && Reaches(row) && 0 <= row < g.height
      requires pass_info[m_passes - 1].Filled(Level(m_passes - 1), pass_info[m_passes - 1].RowBelow(row))
      requires 0 <= from <= to <= g.width <= mask.Length
      requires var last := pass_info[m_passes - 1];
               && last.left - last.radius <= from
               && to <= last.right + last.radius + 1
      modifies mask
      ensures forall x :: from <= x < to ==> mask[x] == Output(x, row)
      ensures forall x :: 0 <= x < mask.Length && !(from <= x < to) ==> mask[x] == old(mask[x])
    {
      hide *;
      PassCount();
      PassFits(m_passes - 1);
      var last := pass_info[m_passes - 1];
      LevelBytes(m_passes - 1);
      ShapedMeans(last);
      ReachedWindow(row);
      last.AreaPositive();
      var t_top := Max(-last.radius, last.top - row);
      var t_bottom := Min(last.bottom - row - 1, last.radius);
      var buff_top := NormalRow(row + t_top - 1, last.buffer_height);
      var buff_bottom := NormalRow(row + t_bottom, last.buffer_height);
      WindowRows(last, row, t_top, t_bottom);
      var area := last.window * last.window;
      var max_val := MaxValue(area, spread);
      for x := from to to
        invariant forall k :: from <= k < x ==> mask[k] == Output(k, row)
        invariant forall k :: 0 <= k < mask.Length && !(from <= k < x) ==> mask[k] == old(mask[k])
      {
        var t_left := Max(-last.radius, last.left - x) - 1;
        var t_right := Min(last.right - x - 1, last.radius);
        MaskColumn(last, Level(m_passes - 1), last.RowBelow(row), x, row, t_left, t_right);
        OutputInside(x, row);
        var sum := last.Corners(x + t_left - last.left + 1, x + t_right - last.left + 1, buff_top, buff_bottom);
        ScaleIs(sum, area, spread, max_val);
        mask[x] := if sum <= max_val then Wrap(sum * spread) / (area * 256) % 256 else 0xFF;
      }
    }

    /** The mask of a row that the last pass's table reaches. */
    method FillMask(mask: array<int>, row: int)
      requires Good() && 0 < m_passes && 0 <= spread < WORD && spread != 1
      requires Reaches(row) && 0 <= row < g.height && 0 <= g.width <= mask.Length
      requires pass_info[m_passes - 1].Filled(Level(m_passes - 1), pass_info[m_passes - 1].RowBelow(row))
      modifies mask
      ensures forall x :: 0 <= x < g.width ==> mask[x] == Output(x, row)
    {
      hide Good, Level, PassInfo.Filled, Output, PassInfo.RowBelow, Reaches;
      PassCount();
      PassFits(m_passes - 1);
      var last := pass_info[m_passes - 1];
      var sleft, sright := last.left - last.radius, Min(g.width, last.right + last.radius + 1);
      MaskEdges(sleft, sright);
      var from := Max(0, sleft);
      ZeroMask(mask, 0, from);
      FillMiddle(mask, row, from, Max(from, sright));
      ZeroMask(mask, Max(from, sright), g.width);
      forall x | 0 <= x < g.width ensures mask[x] == Output(x, row) {
        if x < from || Max(from, sright) <= x { OutputOutside(x, row); }
      }
    }

    static lemma WindowRows(last: PassInfo, row: int, t_top: int, t_bottom: int)
      requires t_top == Max(-last.radius, last.top - row) && t_bottom == Min(last.bottom - row - 1, last.radius)
      ensures row + t_top - 1 == last.RowAbove(row) - 1 && row + t_bottom == last.RowBelow(row) - 1
    {
    }

    /** The edges at which the three loops meet. */
    lemma MaskEdges(sleft: int, sright: int)
      requires Good() && 0 < m_passes
      requires var last := pass_info[m_passes - 1];
               && sleft == last.left - last.radius
               && sright == Min(g.width, last.right + last.radius + 1)
      ensures sleft <= g.width && sright <= g.width && sleft <= sright && 0 <= sright
    {
      var k := m_passes - 1;
      assert Fits(k);
      g.RegionNonEmpty(k);
      g.RemainingBounds(m_passes);
      g.RemainingBounds(k);
    }

    static lemma MaskColumn(last: PassInfo, f: Plane, upto: int, x: int, row: int, t_left: int, t_right: int)
      requires last.Filled(f, upto) && Bounded(f) && 0 <= last.radius <= 255
      requires last.RowAbove(row) < last.RowBelow(row) <= upto
      requires last.left - last.radius <= x <= last.right + last.radius
      requires t_left == Max(-last.radius, last.left - x) - 1 && t_right == Min(last.right - x - 1, last.radius)
      ensures last.Shaped() && last.Meets(x)
      ensures 0 <= x + t_left - last.left + 1 <= last.width && 0 <= x + t_right - last.left + 1 <= last.width
      ensures last.Corners(x + t_left - last.left + 1, x + t_right - last.left + 1,
                           (last.RowAbove(row) - 1) % last.buffer_height, (last.RowBelow(row) - 1) % last.buffer_height)
              == last.Clipped(f, x, row)
    {
      hide PassInfo.Corners, PassInfo.Clipped, PassInfo.RowDone;
      assert last.ColumnFrom(x) - last.left == x + t_left - last.left + 1;
      assert last.ColumnTo(x) - last.left == x + t_right - last.left + 1;
      last.ClippedExact(f, upto, x, row);
    }

    static lemma ScaleIs(sum: int, area: int, spread: int, max_val: int)
      requires 0 < area && max_val == MaxValue(area, spread)
      ensures Scale(sum, area, spread) == if sum <= max_val then Wrap(sum * spread) / (area * 256) % 256 else 0xFF
    {
    }

    lemma ValidMeans()
      requires Valid()
      ensures Good() && 0 <= spread < WORD && spread != 1 && 0 <= y && m_passes == |pass_info|
      ensures m_passes == 0 ==> pixels == origin + stride * y
      ensures m_passes > 0 ==> Ready(m_passes - 1) && pass_info[m_passes - 1].buffer_nextrow == OutNext(y)
    {
    }

    lemma OutputUnreached(x: int, row: int)
      requires Good() && 0 <= spread < WORD && spread != 1 && 0 < m_passes && 0 <= x < g.width
               && 0 <= row < g.height && !Reaches(row)
      ensures Output(x, row) == 0
    {
      OutputOutside(x, row);
    }

    /** Have the last pass's table filled down to what row y needs. */
    method FillReach()
      requires Good() && 0 < |pass_info| && 0 <= y && Reaches(y) && Ready(|pass_info| - 1)
      requires pass_info[|pass_info| - 1].buffer_nextrow == OutNext(y)
      modifies `pixels, row_buffer, Below(|pass_info|)
      ensures Ready(|pass_info| - 1) && pass_info[|pass_info| - 1].buffer_nextrow == OutNext(y + 1)
      ensures |pass_info| == m_passes
      ensures pass_info[m_passes - 1].Filled(Level(m_passes - 1), pass_info[m_passes - 1].RowBelow(y))
    {
      hide Good, Ready, Level, PassInfo.Filled, OutNext, ReadyBelow, Reaches, PassInfo.RowBelow;
      PassCount();
      PassFits(m_passes - 1);
      NotBelow(m_passes - 1, m_passes - 1);
      var last := pass_info[m_passes - 1];
      ReachedWindow(y);
      ReadyMeans(m_passes - 1);
      var t_bottom := Min(last.bottom - y - 1, last.radius);
      WindowBottom(last, y);
      last.buffer_needrow := t_bottom + y;
      ReadyIf(m_passes - 1);
      CalculateRows(m_passes - 1);
      ReadyMeans(m_passes - 1);
    }

    static lemma WindowBottom(last: PassInfo, row: int)
      ensures Min(last.bottom - row - 1, last.radius) + row == last.RowBelow(row) - 1
      ensures last.RowBelow(row) <= last.bottom
    {
    }

    method ProcessBlurred(mask: array<int>)
      requires Valid() && 0 < |pass_info| && y < g.height && 0 <= g.width <= mask.Length && mask != row_buffer
      modifies `pixels, row_buffer, Below(|pass_info|), mask
      ensures Good() && 0 < m_passes == |pass_info| && Ready(m_passes - 1)
      ensures pass_info[m_passes - 1].buffer_nextrow == OutNext(y + 1)
      ensures forall x :: 0 <= x < g.width ==> mask[x] == Output(x, y)
    {
      hide Good, Ready, Level, PassInfo.Filled, Output, OutNext, Valid, ReadyBelow, PassInfo.RowBelow;
      ValidMeans();
      PassFits(m_passes - 1);
      var last := pass_info[m_passes - 1];
      if y >= last.top - last.radius && y < last.bottom + last.radius {
        FillReach();
        FillMask(mask, y);
      } else {
        UnreachedRow(y);
        ZeroMask(mask, 0, g.width);
        forall x | 0 <= x < g.width ensures mask[x] == Output(x, y) { OutputUnreached(x, y); }
      }
    }

    /** Nothing to blur: the alpha of the row, inside the input rectangle. */
    method ProcessPlain(mask: array<int>)
      requires Good() && m_passes == 0 && 0 <= g.width <= mask.Length && pixels == origin + stride * y
      modifies `pixels, mask
      ensures pixels == origin + stride * (y + 1)
      ensures forall x :: 0 <= x < g.width ==> mask[x] == Output(x, y)
    {
      if y >= g.top && y < g.bottom {
        var t_left, t_right := Max(0, Min(g.width, g.left)), Min(g.width, g.right);
        ZeroMask(mask, 0, t_left);
        var to := Max(t_left, t_right);
        for x := t_left to to
          invariant forall k :: 0 <= k < x ==> mask[k] == Output(k, y)
          invariant pixels == origin + stride * y
        {
          assert 0 <= At(x, y) < |memory|;
          mask[x] := memory[pixels + x] / 0x100_0000;
        }
        ghost var filled := mask[..to];
        ZeroMask(mask, to, g.width);
        assert forall k :: 0 <= k < to ==> mask[k] == filled[k];
      } else {
        ZeroMask(mask, 0, g.width);
      }
      pixels := pixels + stride;
    }

    /** `Process`: the next row of the mask is the blur by its definition. */
    method Process(mask: array<int>)
      requires Valid() && y < g.height && g.width <= mask.Length && mask != row_buffer
      modifies this, row_buffer, Below(|pass_info|), mask
      ensures Valid() && y == old(y) + 1
      ensures forall x :: 0 <= x < g.width ==> mask[x] == Output(x, old(y))
    {
      ValidMeans();
      if m_passes > 0 {
        ProcessBlurred(mask);
      } else {
        ProcessPlain(mask);
      }
      y := y + 1;
    }

    ghost predicate IsRow(row: seq<int>, v: int)
      requires Good()
    {
      |row| == g.width && forall x :: 0 <= x < g.width ==> row[x] == Output(x, v)
    }

    /** The whole image, row by row. */
    ghost predicate AreRows(rows: seq<seq<int>>)
      requires Good()
    {
      forall v :: 0 <= v < |rows| ==> IsRow(rows[v], v)
    }

    lemma RowsGrow(rows: seq<seq<int>>, row: seq<int>)
      requires Good() && (rows == [] || AreRows(rows)) && |row| == g.width
      requires forall x :: 0 <= x < g.width ==> row[x] == Output(x, |rows|)
      ensures AreRows(rows + [row])
    {
      hide BoxBlur.Output;
      assert IsRow(row, |rows|);
    }

    lemma RowsMean(rows: seq<seq<int>>)
      requires Good() && (rows == [] || AreRows(rows))
      ensures forall v :: 0 <= v < |rows| ==> |rows[v]| == g.width
      ensures forall u, v :: 0 <= u < g.width && 0 <= v < |rows| ==> rows[v][u] == Output(u, v)
    {
      hide BoxBlur.Output;
    }

    /** Every byte is what it should be, but for the holes. */
    ghost predicate AreEnlarged(rows: seq<seq<int>>)
      requires Good() && |rows| == g.height && forall v :: 0 <= v < g.height ==> |rows[v]| == g.width
    {
      forall u, v :: 0 <= u < g.width && 0 <= v < g.height ==>
        (rows[v][u] == Enlarged(u, v) <==> Sum(u, v) * spread != 65536 * LastArea())
    }

    lemma RowsEnlarged(rows: seq<seq<int>>)
      requires Good() && 2 <= spread < WORD && 0 < g.radius && (2 <= g.passes || g.radius <= 127)
      requires |rows| == g.height && forall v :: 0 <= v < g.height ==> |rows[v]| == g.width
      requires forall u, v :: 0 <= u < g.width && 0 <= v < g.height ==> rows[v][u] == Output(u, v)
      ensures AreEnlarged(rows)
    {
      hide Level, Sum, Output, Enlarged, LastArea, Exact;
      forall u, v | 0 <= u < g.width && 0 <= v < g.height
        ensures rows[v][u] == Enlarged(u, v) <==> Sum(u, v) * spread != 65536 * LastArea()
      {
        OutputIff(u, v);
      }
    }

    lemma EvenThere(x: int, v: int, c: int)
      requires Good() && EvenSquare(g, memory, origin, stride, x, v, c)
      ensures g.Even(Image(), x, v, g.radius, c)
    {
      forall u, w | x - g.radius <= u <= x + g.radius && v - g.radius <= w <= v + g.radius
        ensures g.Alpha(Image())(u, w) == c
      {
        assert At(u, w) == Address(origin, stride, u, w);
      }
    }

    lemma RowsEven(rows: seq<seq<int>>)
      requires Good() && 0 <= spread < WORD && spread != 1 && 0 < g.radius && (2 <= g.passes || g.radius <= 127)
      requires |rows| == g.height && forall v :: 0 <= v < g.height ==> |rows[v]| == g.width
      requires forall u, v :: 0 <= u < g.width && 0 <= v < g.height ==> rows[v][u] == Output(u, v)
      ensures forall u, v, c | 0 <= u < g.width && 0 <= v < g.height ::
                EvenSquare(g, memory, origin, stride, u, v, c) ==> rows[v][u] == EvenByte(c, spread)
    {
      hide *;
      forall u, v, c | 0 <= u < g.width && 0 <= v < g.height && EvenSquare(g, memory, origin, stride, u, v, c)
        ensures rows[v][u] == EvenByte(c, spread)
      {
        EvenThere(u, v, c);
        OutputEven(u, v, c);
      }
    }

    lemma RowsPlain(rows: seq<seq<int>>)
      requires Good() && g.radius == 0
      requires forall u, v :: g.left <= u < g.right && g.top <= v < g.bottom ==>
                 0 <= Address(origin, stride, u, v) < |memory|
      requires |rows| == g.height && forall v :: 0 <= v < g.height ==> |rows[v]| == g.width
      requires forall u, v :: 0 <= u < g.width && 0 <= v < g.height ==> rows[v][u] == Output(u, v)
      ensures forall u, v :: 0 <= u < g.width && 0 <= v < g.height ==>
                rows[v][u] == if g.left <= u < g.right && g.top <= v < g.bottom
                              then memory[Address(origin, stride, u, v)] / 0x100_0000 else 0
    {
      hide Output;
      forall u, v | 0 <= u < g.width && 0 <= v < g.height
        ensures rows[v][u] == if g.left <= u < g.right && g.top <= v < g.bottom
                              then memory[Address(origin, stride, u, v)] / 0x100_0000 else 0
      {
        OutputPlain(u, v);
      }
    }

    /** Pass k has the geometry the definition gives it. */
    static ghost predicate LaidOut(g: Geometry, pass: PassInfo, k: nat)
      requires k < g.passes
    {
      && pass.Shaped()
      && pass.left == g.Left(k) && pass.right == g.Right(k) && pass.top == g.Top(k) && pass.bottom == g.Bottom(k)
      && pass.radius == g.PassRadius(k)
    }

    /** A new table is all zeros. */
    static ghost predicate Untouched(pass: PassInfo)
      reads pass, pass.buffer
    {
      && pass.Shaped() && pass.buffer_nextrow == pass.top
      && forall i, c :: 0 <= i < pass.buffer_height && 0 <= c < pass.stride ==> pass.buffer[i, c] == 0
    }

    /** What one round of the layout loop computes. */
    static lemma PassShare(g: Geometry, i: nat)
      requires g.Active() && i < g.passes
      ensures g.PassRadius(i) == (g.Remaining(i) + (g.passes - i - 1)) / (g.passes - i)
      ensures g.Remaining(i + 1) == g.Remaining(i) - g.PassRadius(i) && 0 <= g.PassRadius(i)
      ensures g.Left(i) == Max(g.left - (g.radius - g.Remaining(i)), -g.Remaining(i))
      ensures g.Right(i) == Min(g.right + (g.radius - g.Remaining(i)), g.width + g.Remaining(i))
      ensures g.Top(i) == Max(g.top - (g.radius - g.Remaining(i)), -g.Remaining(i))
      ensures g.Bottom(i) == Min(g.bottom + (g.radius - g.Remaining(i)), g.height + g.Remaining(i))
      ensures g.Left(i) < g.Right(i) && g.Top(i) < g.Bottom(i)
    {
      g.RemainingBounds(i);
      g.RegionNonEmpty(i);
    }

    static lemma NewPass(g: Geometry, pass: PassInfo, k: nat)
      requires k < g.passes && pass.Shaped()
      requires pass.left == g.Left(k) && pass.right == g.Right(k) && pass.top == g.Top(k) && pass.bottom == g.Bottom(k)
      requires pass.radius == g.PassRadius(k) && pass.buffer_nextrow == pass.top
      requires forall i, c :: 0 <= i < pass.buffer_height && 0 <= c < pass.stride ==> pass.buffer[i, c] == 0
      ensures LaidOut(g, pass, k) && Untouched(pass)
    {
    }

    /** Lay out the passes: share out the radius, and cut each pass's region. */
    static method LayOut(g: Geometry) returns (infos: seq<PassInfo>, maxwidth: int)
      requires g.Active()
      ensures |infos| == g.passes && 0 <= maxwidth
      ensures forall k :: 0 <= k < |infos| ==>
               && LaidOut(g, infos[k], k) && infos[k].width <= maxwidth
               && fresh(infos[k]) && fresh(infos[k].buffer)
      ensures forall j, k :: 0 <= j < k < |infos| ==> infos[j] != infos[k] && infos[j].buffer != infos[k].buffer
      ensures forall k :: 0 <= k < |infos| ==> Untouched(infos[k])
    {
      hide Geometry.Active, Geometry.PassRadius, Geometry.Left, Geometry.Right, Geometry.Top, Geometry.Bottom,
        LaidOut, Untouched, PassInfo.Shaped;
      infos, maxwidth := [], 0;
      var t_radius := g.radius;
      var t_left, t_top, t_right, t_bottom := g.left, g.top, g.right, g.bottom;
      var b_left, b_top, b_right, b_bottom := -t_radius, -t_radius, g.width + t_radius, g.height + t_radius;
      var i := 0;
      while i < g.passes
        invariant 0 <= i <= g.passes && |infos| == i && 0 <= maxwidth
        invariant t_radius == g.Remaining(i)
        invariant t_left == g.left - (g.radius - t_radius) && t_right == g.right + (g.radius - t_radius)
        invariant t_top == g.top - (g.radius - t_radius) && t_bottom == g.bottom + (g.radius - t_radius)
        invariant b_left == -t_radius && b_right == g.width + t_radius && b_top == -t_radius
                  && b_bottom == g.height + t_radius
        invariant forall k :: 0 <= k < i ==>
                  && LaidOut(g, infos[k], k) && infos[k].width <= maxwidth
                  && fresh(infos[k]) && fresh(infos[k].buffer)
        invariant forall j, k :: 0 <= j < k < i ==> infos[j] != infos[k] && infos[j].buffer != infos[k].buffer
        invariant forall k :: 0 <= k < i ==> Untouched(infos[k])
      {
        PassShare(g, i);
        var radius := (t_radius + (g.passes - i - 1)) / (g.passes - i);
        t_radius := t_radius - radius;
        var pass := new PassInfo(Max(t_left, b_left), Max(t_top, b_top), Min(t_right, b_right),
                                 Min(t_bottom, b_bottom), radius);
        NewPass(g, pass, i);
        infos := infos + [pass];
        maxwidth := Max(pass.width, maxwidth);
        t_left, t_right, t_top, t_bottom := t_left - radius, t_right + radius, t_top - radius, t_bottom + radius;
        b_left, b_right, b_top, b_bottom := b_left + radius, b_right - radius, b_top + radius, b_bottom - radius;
        i := i + 1;
      }
    }

    /** `Initialize` */
    constructor (g: Geometry, spread: int, memory: seq<int>, origin: int, stride: int)
      requires 0 <= g.radius <= 255 && 0 <= g.width && 0 <= g.height && 0 < g.passes
      requires 0 <= spread < WORD && spread != 1
      requires forall i :: 0 <= i < |memory| ==> 0 <= memory[i] < WORD
      requires forall u, v :: g.left <= u < g.right && g.top <= v < g.bottom ==>
               0 <= Address(origin, stride, u, v) < |memory|
      ensures Valid() && y == 0 && fresh(row_buffer) && fresh(Below(|pass_info|))
      ensures this.g == g && this.spread == spread && this.memory == memory && this.origin == origin
               && this.stride == stride
    {
      var infos: seq<PassInfo>, maxwidth := [], 0;
      if g.Active() {
        infos, maxwidth := LayOut(g);
      }
      this.g, this.spread, this.memory, this.origin, this.stride := g, spread, memory, origin, stride;
      m_passes := |infos|;
      pass_info := infos;
      row_buffer := new int[maxwidth];
      y := 0;
      pixels := if |infos| > 0 then origin + stride * infos[0].top else origin;
      new;
      hide *;
      GoodIf();
      Started();
    }

    lemma GoodIf()
      requires 0 <= g.radius <= 255 && 0 <= g.width && 0 <= g.height && 0 < g.passes
      requires forall i :: 0 <= i < |memory| ==> 0 <= memory[i] < WORD
      requires forall u, v :: g.left <= u < g.right && g.top <= v < g.bottom ==>
               0 <= Address(origin, stride, u, v) < |memory|
      requires m_passes == (if g.Active() then g.passes else 0) && |pass_info| == m_passes
      requires forall k :: 0 <= k < |pass_info| ==>
               && LaidOut(g, pass_info[k], k)
               && pass_info[k].width <= row_buffer.Length
      requires forall j, k :: 0 <= j < k < |pass_info| ==>
               && pass_info[j] != pass_info[k]
               && pass_info[j].buffer != pass_info[k].buffer
      ensures Good()
    {
    }

    lemma Started()
      requires Good() && 0 <= spread < WORD && spread != 1 && y == 0
      requires pixels == if |pass_info| > 0 then origin + stride * pass_info[0].top else origin
      requires forall k :: 0 <= k < |pass_info| ==> Untouched(pass_info[k])
      ensures Valid()
    {
      hide Geometry.Active, LaidOut;
      if m_passes > 0 { StartsReady(m_passes - 1); }
    }

    /** Before the first call every table is at its start. */
    lemma {:induction false} StartsReady(p: nat)
      requires Good() && p < |pass_info| && pixels == origin + stride * pass_info[0].top
      requires forall k :: 0 <= k <= p ==> Untouched(pass_info[k])
      ensures Ready(p)
      decreases p
    {
      pass_info[p].StartsFilled(Level(p));
      if p > 0 { StartsReady(p - 1); }
    }
  }

  /** A whole run, one call for every row: the rows are the blur by its
      definition, pixel for pixel. */
  method Blur(g: Geometry, spread: int, memory: seq<int>, origin: int, stride: int)
    returns (rows: seq<seq<int>>, ghost b: BoxBlur)
    requires 0 <= g.radius <= 255 && 0 <= g.width && 0 <= g.height && 0 < g.passes
    requires 0 <= spread < WORD && spread != 1
    requires forall i :: 0 <= i < |memory| ==> 0 <= memory[i] < WORD
    requires forall u, v :: g.left <= u < g.right && g.top <= v < g.bottom ==>
             0 <= BoxBlur.Address(origin, stride, u, v) < |memory|
    ensures b.g == g && b.spread == spread && b.memory == memory && b.origin == origin && b.stride == stride && b.Good()
    ensures |rows| == g.height && forall v :: 0 <= v < g.height ==> |rows[v]| == g.width
    ensures forall u, v :: 0 <= u < g.width && 0 <= v < g.height ==> rows[v][u] == b.Output(u, v)
    ensures 0 < g.radius && 2 <= spread && (2 <= g.passes || g.radius <= 127) ==> b.AreEnlarged(rows)
    ensures 0 < g.radius && (2 <= g.passes || g.radius <= 127) ==>
              forall u, v, c | 0 <= u < g.width && 0 <= v < g.height ::
                EvenSquare(g, memory, origin, stride, u, v, c) ==> rows[v][u] == EvenByte(c, spread)
    ensures g.radius == 0 ==>
              forall u, v :: 0 <= u < g.width && 0 <= v < g.height ==>
                rows[v][u] == if g.left <= u < g.right && g.top <= v < g.bottom
                              then memory[BoxBlur.Address(origin, stride, u, v)] / 0x100_0000 else 0
  {
    var blur := new BoxBlur(g, spread, memory, origin, stride);
    b := blur;
    var mask := new int[g.width];
    rows := [];
    b.ValidMeans();
    hide *;
    for v := 0 to g.height
      invariant blur.Valid() && blur.y == v && fresh(blur) && fresh(blur.row_buffer)
                && fresh(blur.Below(|blur.pass_info|))
      invariant fresh(mask) && mask != blur.row_buffer
      invariant |rows| == v && (rows == [] || b.AreRows(rows))
    {
      blur.Process(mask);
      b.RowsGrow(rows, mask[..g.width]);
      rows := rows + [mask[..g.width]];
    }
    b.RowsMean(rows);
    if 0 < g.radius && 2 <= spread && (2 <= g.passes || g.radius <= 127) {
      b.RowsEnlarged(rows);
    }
    if 0 < g.radius && (2 <= g.passes || g.radius <= 127) { b.RowsEven(rows); }
    if g.radius == 0 { b.RowsPlain(rows); }
  }
}
