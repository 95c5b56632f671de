/** The last step of the box blur: from a window sum to a mask byte. */
module BoxScale {
  import opened Common
  import opened BoxPass

  /** What is left of 65536 times the area in 32 bits. */
  function Limit(area: int): int {
    Wrap(0x100 * area * 256)
  }

  /** The sum above which the mask is simply full. */
  function MaxValue(area: int, spread: int): int {
    if spread != 0 then Signed(Limit(area) / spread) else 0
  }

  /** The byte that is stored: an unsigned product, a quotient, and its low
      eight bits.  For areas up to 511 * 511 the divisor fits 32 bits. */
  function Scale(sum: int, area: int, spread: int): int
    requires 0 < area
  {
    if sum <= MaxValue(area, spread) then Wrap(sum * spread) / (area * 256) % 256 else 0xFF
  }

  /** What the step is for: the average, enlarged by spread / 256, at most 255. */
  function Spread(sum: int, area: int, spread: int): int
    requires 0 < area
  {
    Min(255, sum * spread / (area * 256))
  }

  lemma QuotientBelow(n: int, d: int, q: int)
    requires 0 < d
    ensures n / d <= q <==> n < (q + 1) * d
    ensures q <= n / d <==> q * d <= n
  {
    var k := n / d;
    assert k * d <= n < k * d + d;
    MulOrder(k, q, d);
    MulOrder(q, k, d);
    assert (q + 1) * d == q * d + d;
    assert (k + 1) * d == k * d + d;
    MulOrder(q + 1, k + 1, d);
    MulOrder(q + 1, k, d);
    MulOrder(k + 1, q, d);
  }

  lemma MulOrder(a: int, b: int, d: int)
    requires 0 < d
    ensures a <= b ==> a * d <= b * d
  {
    if a <= b { assert (b - a) * d >= 0; assert (b - a) * d == b * d - a * d; }
  }

  /** The comparison compares the enlarged sum with what is left of the limit. */
  lemma MaxValueMeans(sum: int, area: int, spread: int)
    requires 2 <= spread < WORD
    ensures sum <= MaxValue(area, spread) <==> sum * spread <= Limit(area)
  {
    var n := Limit(area);
    QuotientBelow(n, spread, sum);
    QuotientBelow(n, spread, 0x7fff_ffff);
    assert 0x8000_0000 * spread >= WORD;
  }

  lemma LimitBelow(area: int)
    requires 0 <= area
    ensures 0 <= Limit(area) <= 65536 * area
    ensures area <= 65535 ==> Limit(area) == 65536 * area
  {
  }

  /** When the stored byte is the enlarged average, cut off at 255: below the
      limit, unless the enlarged average is 256 to the last bit; above it, only
      if the mask is full there. */
  predicate Exact(sum: int, area: int, spread: int) {
    if sum * spread <= Limit(area) then sum * spread != 65536 * area else 65280 * area <= sum * spread
  }

  lemma ScaleIff(sum: int, area: int, spread: int)
    requires 0 <= sum && 0 < area && 2 <= spread < WORD
    ensures Scale(sum, area, spread) == Spread(sum, area, spread) <==> Exact(sum, area, spread)
    ensures !Exact(sum, area, spread) ==>
              Scale(sum, area, spread) == if sum * spread == 65536 * area <= Limit(area) then 0 else 255
  {
    MaxValueMeans(sum, area, spread);
    LimitBelow(area);
    var n, d := sum * spread, area * 256;
    assert 0 <= n by { MulOrder(0, sum, spread); }
    hide MaxValue, Limit;
    QuotientBelow(n, d, 254);
    QuotientBelow(n, d, 255);
    QuotientBelow(n, d, 256);
    QuotientBelow(n, d, 0);
    if n <= Limit(area) { Small(n); }
  }

  /** An area for which only an enlarged average of exactly 256 goes wrong. */
  ghost predicate Accurate(area: int)
    requires 0 < area
  {
    forall sum, spread :: 0 <= sum <= 255 * area && 2 <= spread < WORD ==>
      (Scale(sum, area, spread) == Spread(sum, area, spread) <==> sum * spread != 65536 * area)
  }

  /** These are the areas whose limit fits 32 bits.  Beyond, already the normal
      spread of 256 stores a full mask for some sum of an average below 255. */
  lemma AccurateIff(area: int)
    requires 0 < area
    ensures Accurate(area) <==> area <= 65535
    ensures 65536 <= area ==>
              var sum := 256 * (area % 65536) + 1;
              && sum <= 255 * area
              && Scale(sum, area, 256) == 255 && Spread(sum, area, 256) < 255
  {
    if area <= 65535 {
      LimitBelow(area);
      forall sum, spread | 0 <= sum <= 255 * area && 2 <= spread < WORD
        ensures Scale(sum, area, spread) == Spread(sum, area, spread) <==> sum * spread != 65536 * area
      {
        ScaleIff(sum, area, spread);
      }
    } else {
      LimitLost(area);
      var sum := 256 * (area % 65536) + 1;
      ScaleIff(sum, area, 256);
      assert sum * 256 == Limit(area) + 256 < 65280 * area;
    }
  }

  lemma AccurateAt(sum: int, area: int, spread: int)
    requires 0 < area && Accurate(area) && 0 <= sum <= 255 * area && 2 <= spread < WORD
    ensures Scale(sum, area, spread) == Spread(sum, area, spread) <==> sum * spread != 65536 * area
  {
  }

  lemma LimitLost(area: int)
    requires 65536 <= area
    ensures Limit(area) == 65536 * (area % 65536)
    ensures 65536 * (area % 65536) + 256 < 65280 * area && 256 * (area % 65536) + 1 <= 255 * area
  {
    var q, r := area / 65536, area % 65536;
    assert 0x100 * area * 256 == q * WORD + 65536 * r;
    assert 1 <= q;
  }

  /** An average that enlarges to exactly 256 leaves a hole in the mask. */
  lemma HoleAt(c: int, area: int, spread: int)
    requires 2 <= spread < WORD && c * spread == 65536 && 0 < area <= 65535
    ensures Scale(c * area, area, spread) == 0 && Spread(c * area, area, spread) == 255
  {
    assert 0 < c by { if c <= 0 { MulOrder(c, 0, spread); } }
    MulOrder(0, c, area);
    assert (c * area) * spread == (c * spread) * area;
    LimitBelow(area);
    ScaleIff(c * area, area, spread);
    QuotientBelow(65536 * area, area * 256, 254);
  }

  /** The byte that an even alpha c gives: c times the spread over 256, cut off
      at 255, but for the hole where that is 256 to the last bit. */
  function EvenByte(c: int, spread: int): int {
    if spread == 0 then (if 0 < c then 255 else 0)
    else if c * spread == 65536 then 0
    else Min(255, c * spread / 256)
  }

  lemma ScaleEven(c: int, area: int, spread: int)
    requires 0 <= c <= 255 && 0 < area <= 65535 && 0 <= spread < WORD && spread != 1
    ensures Scale(c * area, area, spread) == EvenByte(c, spread)
  {
    MulOrder(0, c, area);
    if spread == 0 {
      MulOrder(1, c, area);
      ScaleNoSpread(c * area, area);
    } else {
      LimitBelow(area);
      ScaleIff(c * area, area, spread);
      EvenFull(c * spread, c, area, spread);
      EvenQuotient(c * spread, area);
      hide Scale, Limit;
    }
  }

  lemma EvenFull(n: int, c: int, area: int, spread: int)
    requires 0 < area && n == c * spread
    ensures (c * area) * spread == n * area
    ensures 65536 * area <= n * area <==> 65536 <= n
    ensures n * area <= 65536 * area <==> n <= 65536
  {
    assert (c * area) * spread == (c * spread) * area;
    MulOrder(65536, n, area);
    MulOrder(n, 65536, area);
    assert (n - 65536) * area == n * area - 65536 * area;
    MulOrder(1, n - 65536, area);
    MulOrder(1, 65536 - n, area);
  }

  /** A factor common to both sides of a quotient. */
  lemma EvenQuotient(n: int, area: int)
    requires 0 < area
    ensures n * area / (area * 256) == n / 256
  {
    var q := n / 256;
    MulOrder(q * 256, n, area);
    MulOrder(n + 1, (q + 1) * 256, area);
    assert (n + 1) * area == n * area + area;
    assert q * (area * 256) == (q * 256) * area && (q + 1) * (area * 256) == ((q + 1) * 256) * area;
    QuotientBelow(n * area, area * 256, q);
  }

  lemma NothingOver(d: int)
    requires 0 < d
    ensures Wrap(0) / d == 0
  {
    QuotientBelow(0, d, 0);
  }

  /** A spread of zero fills the mask exactly where there is anything to blur. */
  lemma ScaleNoSpread(sum: int, area: int)
    requires 0 <= sum && 0 < area
    ensures Scale(sum, area, 0) == if sum > 0 then 0xFF else 0
  {
    NothingOver(area * 256);
  }

  /** Where there is nothing to blur, nothing is stored. */
  lemma ScaleZero(area: int, spread: int)
    requires 0 < area && 0 <= spread < WORD && spread != 1
    ensures Scale(0, area, spread) == 0
    ensures Spread(0, area, spread) == 0
  {
    if spread == 0 {
      ScaleNoSpread(0, area);
    } else {
      ScaleIff(0, area, spread);
    }
    QuotientBelow(0, area * 256, 0);
    assert 0 * spread == 0;
  }
}
