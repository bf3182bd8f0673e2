/** The window of histogram bins around the peak that count as signal. */
module GatingWindow {
  import opened Drift
  import opened Words

  // ---------- The cutoff ----------

  /** The least element. */
  function MinValue(h: seq<nat>): (m: nat)
    requires h != []
    ensures m in h && forall i :: 0 <= i < |h| ==> m <= h[i]
  {
    if |h| == 1 then h[0]
    else
      var before := MinValue(h[..|h| - 1]);
      if h[|h| - 1] < before then h[|h| - 1] else before
  }

  method MinElement(h: seq<nat>) returns (least: nat)
    requires h != []
    ensures least == MinValue(h)
  {
    least := h[0];
    for i := 1 to |h|
      invariant least == MinValue(h[..i])
    {
      assert h[..i + 1][..i] == h[..i];
      if h[i] < least {
        least := h[i];
      }
    }
    assert h[..|h|] == h;
  }

  /** A share of a range. */
  function Share(range: nat, ratio: real): (share: real)
    requires ratio >= 0.0
    ensures share >= 0.0
  {
    range as real * ratio
  }

  /** The given share of the way from one count to another, truncated. */
  function Between(least: nat, most: nat, ratio: real): (cutoff: nat)
    requires least <= most && ratio >= 0.0
    ensures least <= cutoff
  {
    (least as real + Share(most - least, ratio)).Floor
  }

  // The cutoff is the given share of the way, without its fraction.
  lemma CutoffIsShare(least: nat, most: nat, ratio: real)
    requires least <= most && ratio >= 0.0
    ensures var exact := least as real + (most - least) as real * ratio;
            exact - 1.0 < Between(least, most, ratio) as real <= exact
  {
  }

  lemma ShareBelowRange(range: nat, ratio: real)
    requires ratio >= 0.0
    ensures Share(range, ratio) < range as real <==> range > 0 && ratio < 1.0
  {
    if ratio >= 1.0 {
      assert range as real * ratio == range as real + range as real * (ratio - 1.0);
    } else {
      assert range as real * ratio == range as real - range as real * (1.0 - ratio);
    }
  }

  lemma FloorBelow(least: nat, most: nat, share: real)
    requires least <= most && share >= 0.0
    ensures (least as real + share).Floor < most <==> share < (most - least) as real
  {
    var x := least as real + share;
    assert x.Floor < most <==> x < most as real;
    assert (most - least) as real == most as real - least as real;
  }

  // The cutoff leaves something above it exactly if the counts differ and the ratio is below one.
  lemma SomethingAbove(least: nat, most: nat, ratio: real)
    requires least <= most && ratio >= 0.0
    ensures most > Between(least, most, ratio) <==> most > least && ratio < 1.0
  {
    hide Share;
    ShareBelowRange(most - least, ratio);
    FloorBelow(least, most, Share(most - least, ratio));
  }

  /** The count a bin must exceed to be accepted. */
  function Cutoff(h: seq<nat>, ratio: real): nat
    requires h != [] && ratio >= 0.0
  {
    Between(MinValue(h), h[FirstMaximum(h)], ratio)
  }

  // ---------- Places on the circle of bins ----------

  /** The bin a signed number of places, at most one turn, away from another. */
  function Away(bin: nat, places: int, n: nat): (b: nat)
    requires bin < n && 0 <= n + places && places < n
    ensures b < n
  {
    var x := bin + places;
    if x < 0 then x + n else if x < n then x else x - n
  }

  /** How many places up from bin a bin b is. */
  function Distance(a: nat, b: nat, n: nat): (d: nat)
    requires a < n && b < n
    ensures d < n && Away(a, d, n) == b
  {
    if b >= a then b - a else b - a + n
  }

  lemma ModWithinTwoTurns(x: nat, n: nat)
    requires x < 2 * n
    ensures x % n == if x < n then x else x - n
  {
    if x < n { Rounding.DivUnique(x, n, 0, x); } else { Rounding.DivUnique(x, n, 1, x - n); }
  }

  /** From bin a, this bin and the next len bins all exceed the cutoff. */
  ghost predicate Arc(h: seq<nat>, cutoff: nat, a: nat, len: int)
    requires a < |h| && len < |h|
  {
    forall j :: 0 <= j <= len ==> h[Away(a, j, |h|)] > cutoff
  }

  /** Bin b belongs to the circular run of bins above the cutoff that contains the peak. */
  ghost predicate InRun(h: seq<nat>, cutoff: nat, peak: nat, b: nat)
    requires peak < |h| && b < |h|
  {
    Arc(h, cutoff, peak, Distance(peak, b, |h|)) || Arc(h, cutoff, b, Distance(b, peak, |h|))
  }

  ghost predicate Within(bins: seq<nat>, n: nat) {
    forall i :: 0 <= i < |bins| ==> bins[i] < n
  }

  /** The bins visited walking up from lower until upper is reached; upper itself is left out. */
  function Walk(lower: nat, upper: nat, n: nat): (bins: seq<nat>)
    requires lower < n && upper < n
    ensures |bins| == Distance(lower, upper, n)
    ensures Within(bins, n)
  {
    seq(Distance(lower, upper, n), i requires 0 <= i < n => Away(lower, i, n))
  }

  lemma WalkAt(lower: nat, upper: nat, n: nat, i: nat)
    requires lower < n && upper < n && i < Distance(lower, upper, n)
    ensures Walk(lower, upper, n)[i] == Away(lower, i, n)
  {
  }

  lemma InWalk(lower: nat, upper: nat, n: nat, b: nat)
    requires lower < n && upper < n && b < n
    ensures b in Walk(lower, upper, n) <==> Distance(lower, b, n) < Distance(lower, upper, n)
  {
    var d := Distance(lower, b, n);
    if d < Distance(lower, upper, n) {
      assert Walk(lower, upper, n)[d] == b;
    }
  }

  // ---------- Walking away from the peak ----------

  /** The bin the upward search may not pass: one below the peak, with the subtraction in 64 bits. */
  function StopBin(peak: nat, n: nat): (stop: nat)
    requires n > 0
    ensures stop < n
  {
    (peak - 1) % TWO_TO_THE_64 % n
  }

  /** Where the upward search ends: up places above the peak. */
  ghost predicate EndsUp(h: seq<nat>, cutoff: nat, peak: nat, up: nat)
    requires peak < |h|
  {
    && up < |h|
    && Arc(h, cutoff, peak, up - 1)
    && up <= Distance(peak, StopBin(peak, |h|), |h|)
    && (up == Distance(peak, StopBin(peak, |h|), |h|) || h[Away(peak, up, |h|)] <= cutoff)
  }

  /** Where the downward search ends: down places below the peak. */
  ghost predicate EndsDown(h: seq<nat>, cutoff: nat, peak: nat, down: nat)
    requires peak < |h|
  {
    && down < |h|
    && (h[peak] <= cutoff ==> down == 0)
    && (h[peak] > cutoff ==> forall j :: -(down as int) <= j <= 0 ==> h[Away(peak, j, |h|)] > cutoff)
    && (h[peak] > cutoff && |h| > 1 ==> down + 2 == |h| || h[Away(peak, -(down as int) - 1, |h|)] <= cutoff)
  }

  /** Walk up from the peak to the first bin not above the cutoff, or to the stop bin. */
  method FindUpper(h: seq<nat>, cutoff: nat, peak: nat) returns (upper: nat, ghost up: nat)
    requires peak < |h| && |h| < TWO_TO_THE_64
    ensures EndsUp(h, cutoff, peak, up) && upper == Away(peak, up, |h|)
  {
    var numBins := |h|;
    upper, up := peak, 0;
    while h[upper] > cutoff && upper != (peak - 1) % TWO_TO_THE_64 % numBins
      invariant up <= Distance(peak, StopBin(peak, numBins), numBins)
      invariant upper == Away(peak, up, numBins)
      invariant Arc(h, cutoff, peak, up - 1)
      decreases numBins - up
    {
      ModWithinTwoTurns(upper + 1, numBins);
      upper := (upper + 1) % numBins;
      up := up + 1;
    }
  }

  /** Walk down from the peak to the last bin above the cutoff. */
  method FindLower(h: seq<nat>, cutoff: nat, peak: nat) returns (lower: nat, ghost down: nat)
    requires peak < |h|
    ensures EndsDown(h, cutoff, peak, down) && lower == Away(peak, -(down as int), |h|)
  {
    var numBins := |h|;
    lower := peak;
    var nextLower := lower;
    down := 0;
    ghost var next: int := 0;
    ModWithinTwoTurns(peak + 1, numBins);
    while h[nextLower] > cutoff && nextLower != (peak + 1) % numBins
      invariant 0 <= next < numBins && down == if next == 0 then 0 else next - 1
      invariant nextLower == Away(peak, -next, numBins) && lower == Away(peak, -(down as int), numBins)
      invariant forall j :: -next < j <= 0 ==> h[Away(peak, j, numBins)] > cutoff
      decreases numBins - next
    {
      lower := nextLower;
      down := next;
      ModWithinTwoTurns(numBins + nextLower - 1, numBins);
      nextLower := (numBins + nextLower - 1) % numBins;
      next := next + 1;
    }
  }

  // ---------- The accepted bins ----------

  /** The upward search meets the stop bin while still above the cutoff, short of the bin below the peak. */
  ghost predicate StopsEarly(h: seq<nat>, cutoff: nat, peak: nat)
    requires peak < |h|
  {
    var k := Distance(peak, StopBin(peak, |h|), |h|);
    k + 1 < |h| && Arc(h, cutoff, peak, k)
  }

  lemma StopBelow(peak: nat, n: nat)
    requires 0 < peak < n < TWO_TO_THE_64
    ensures StopBin(peak, n) == peak - 1
  {
    Rounding.DivUnique(peak - 1, TWO_TO_THE_64, 0, peak - 1);
    Rounding.DivUnique(peak - 1, n, 0, peak - 1);
  }

  lemma StopOfZero(n: nat)
    requires n > 0
    ensures StopBin(0, n) == (TWO_TO_THE_64 - 1) % n
  {
    assert -1 % TWO_TO_THE_64 == TWO_TO_THE_64 - 1;
  }

  // Only a peak in bin 0 can stop early, and then only if the bin count does not divide 2 to the 64.
  lemma StopsEarlyOnlyAtZero(h: seq<nat>, cutoff: nat, peak: nat)
    requires peak < |h| < TWO_TO_THE_64
    ensures StopsEarly(h, cutoff, peak) <==>
            peak == 0 && (TWO_TO_THE_64 - 1) % |h| != |h| - 1 && Arc(h, cutoff, 0, (TWO_TO_THE_64 - 1) % |h|)
  {
    hide Arc;
    if peak > 0 {
      StopBelow(peak, |h|);
    } else {
      StopOfZero(|h|);
    }
  }

  // Both searches together never go all the way round: some bin is not above the cutoff.
  lemma ReachIsBounded(h: seq<nat>, cutoff: nat, peak: nat, up: nat, down: nat, low: nat)
    requires peak < |h| && low < |h| && h[low] <= cutoff
    requires EndsUp(h, cutoff, peak, up) && EndsDown(h, cutoff, peak, down)
    ensures up <= Distance(peak, low, |h|)
    ensures h[peak] > cutoff ==> down + Distance(peak, low, |h|) < |h|
  {
    var n := |h|;
    var x := Distance(peak, low, n);
    assert h[Away(peak, x, n)] <= cutoff;
    if h[peak] > cutoff {
      assert Away(peak, x - n, n) == low;
    }
  }

  lemma UpSide(h: seq<nat>, cutoff: nat, peak: nat, up: nat, low: nat, b: nat)
    requires peak < |h| && low < |h| && b < |h| && h[low] <= cutoff
    requires EndsUp(h, cutoff, peak, up) && !StopsEarly(h, cutoff, peak)
    ensures Arc(h, cutoff, peak, Distance(peak, b, |h|)) <==> Distance(peak, b, |h|) < up
  {
    var n := |h|;
    var k := Distance(peak, StopBin(peak, n), n);
    assert h[Away(peak, Distance(peak, low, n), n)] <= cutoff;
    assert up < k ==> h[Away(peak, up, n)] <= cutoff;
    assert !Arc(h, cutoff, peak, up);
  }

  lemma DownSide(h: seq<nat>, cutoff: nat, peak: nat, down: nat, low: nat, b: nat)
    requires peak < |h| && low < |h| && b < |h| && b != peak && h[low] <= cutoff
    requires EndsDown(h, cutoff, peak, down) && h[peak] > cutoff
    ensures Arc(h, cutoff, b, Distance(b, peak, |h|)) <==> Distance(b, peak, |h|) <= down
  {
    var n := |h|;
    var d := Distance(b, peak, n);
    if d <= down {
      forall j | 0 <= j <= d ensures h[Away(b, j, n)] > cutoff {
        assert Away(b, j, n) == Away(peak, j - d, n);
      }
    } else if down + 2 == n {
      assert d == n - 1;
      assert Away(peak, Distance(peak, low, n) - n, n) == low;
      assert low == b && Away(b, 0, n) == b;
    } else {
      assert Away(b, d - down - 1, n) == Away(peak, -(down as int) - 1, n);
    }
  }

  /**
   * The accepted bins are the circular run above the cutoff that contains the peak, unless the
   * upward search stops early.
   */
  lemma WindowIsRun(h: seq<nat>, cutoff: nat, peak: nat, up: nat, down: nat, low: nat)
    requires peak < |h| && low < |h| && h[low] <= cutoff
    requires EndsUp(h, cutoff, peak, up) && EndsDown(h, cutoff, peak, down)
    ensures var lower, upper := Away(peak, -(down as int), |h|), Away(peak, up, |h|);
            (forall b :: 0 <= b < |h| ==> (b in Walk(lower, upper, |h|) <==> InRun(h, cutoff, peak, b)))
            <==> !StopsEarly(h, cutoff, peak)
  {
    hide Arc, Walk;
    var n := |h|;
    var lower, upper := Away(peak, -(down as int), n), Away(peak, up, n);
    if !StopsEarly(h, cutoff, peak) {
      forall b | 0 <= b < n ensures b in Walk(lower, upper, n) <==> InRun(h, cutoff, peak, b) {
        BinIsInRun(h, cutoff, peak, up, down, low, b);
      }
    } else {
      var b := StopBin(peak, n);
      StoppedBinIsLost(h, cutoff, peak, up, down, low);
      assert InRun(h, cutoff, peak, b) && b !in Walk(lower, upper, n);
    }
  }

  lemma BinIsInRun(h: seq<nat>, cutoff: nat, peak: nat, up: nat, down: nat, low: nat, b: nat)
    requires peak < |h| && low < |h| && h[low] <= cutoff && b < |h| && !StopsEarly(h, cutoff, peak)
    requires EndsUp(h, cutoff, peak, up) && EndsDown(h, cutoff, peak, down)
    ensures b in Walk(Away(peak, -(down as int), |h|), Away(peak, up, |h|), |h|) <==> InRun(h, cutoff, peak, b)
  {
    var n := |h|;
    InWalk(Away(peak, -(down as int), n), Away(peak, up, n), n, b);
    ReachIsBounded(h, cutoff, peak, up, down, low);
    UpSide(h, cutoff, peak, up, low, b);
    if h[peak] <= cutoff {
      assert Away(peak, 0, n) == peak && Away(b, Distance(b, peak, n), n) == peak;
    } else if b != peak {
      DownSide(h, cutoff, peak, down, low, b);
    }
  }

  lemma StoppedBinIsLost(h: seq<nat>, cutoff: nat, peak: nat, up: nat, down: nat, low: nat)
    requires peak < |h| && low < |h| && h[low] <= cutoff && StopsEarly(h, cutoff, peak)
    requires EndsUp(h, cutoff, peak, up) && EndsDown(h, cutoff, peak, down)
    ensures InRun(h, cutoff, peak, StopBin(peak, |h|))
    ensures StopBin(peak, |h|) !in Walk(Away(peak, -(down as int), |h|), Away(peak, up, |h|), |h|)
  {
    var n := |h|;
    var b := StopBin(peak, n);
    var k := Distance(peak, b, n);
    ReachIsBounded(h, cutoff, peak, up, down, low);
    assert h[Away(peak, 0, n)] > cutoff;
    assert h[Away(peak, Distance(peak, low, n), n)] <= cutoff;
    assert up == k;
    InWalk(Away(peak, -(down as int), n), Away(peak, up, n), n, b);
  }
}
