/** The peak of a circular histogram of detection times, and how it follows a delay of the detections. */
module Drift {
  import opened Rounding

  // ---------- Histogram ----------

  /** The bin of a time: its place within the window, to the nearest bin, wrapping at the end. */
  function BinOf(time: nat, numBins: nat, windowWidth: nat): (bin: nat)
    requires numBins > 0 && windowWidth >= numBins
    ensures bin < numBins
  {
    DivNearest(time % windowWidth, windowWidth / numBins) % numBins
  }

  function Count(times: seq<nat>, numBins: nat, windowWidth: nat, bin: nat): nat
    requires numBins > 0 && windowWidth >= numBins
  {
    if times == [] then 0
    else Count(times[..|times| - 1], numBins, windowWidth, bin)
         + if BinOf(times[|times| - 1], numBins, windowWidth) == bin then 1 else 0
  }

  function Counts(times: seq<nat>, numBins: nat, windowWidth: nat): (h: seq<nat>)
    requires numBins > 0 && windowWidth >= numBins
    ensures |h| == numBins
  {
    seq(numBins, bin requires 0 <= bin < numBins => Count(times, numBins, windowWidth, bin))
  }

  method Histogram(times: seq<nat>, numBins: nat, windowWidth: nat) returns (counts: array<nat>)
    requires numBins > 0 && windowWidth >= numBins
    ensures fresh(counts) && counts[..] == Counts(times, numBins, windowWidth)
  {
    counts := new nat[numBins](_ => 0);
    var binWidth := windowWidth / numBins;
    for i := 0 to |times|
      invariant counts[..] == Counts(times[..i], numBins, windowWidth)
    {
      var bin := DivNearest(times[i] % windowWidth, binWidth) % numBins;
      counts[bin] := counts[bin] + 1;
      assert times[..i + 1][..i] == times[..i];
    }
    assert times[..|times|] == times;
  }

  // A time is counted in the bin nearest to its place in the window; half a bin before the end is bin 0 again.
  lemma BinIsNearest(time: nat, numBins: nat, windowWidth: nat) returns (nearest: nat)
    requires numBins > 0 && windowWidth >= numBins
    ensures var binWidth := windowWidth / numBins;
            binWidth * nearest <= time % windowWidth + binWidth / 2 < binWidth * nearest + binWidth
    ensures BinOf(time, numBins, windowWidth) == nearest % numBins
  {
    nearest := DivNearest(time % windowWidth, windowWidth / numBins);
    DivNearestIsNearest(time % windowWidth, windowWidth / numBins);
  }

  // ---------- Peak ----------

  ghost predicate IsFirstMaximum(h: seq<nat>, peak: nat) {
    peak < |h| && (forall i :: 0 <= i < |h| ==> h[i] <= h[peak]) && forall i :: 0 <= i < peak ==> h[i] < h[peak]
  }

  /** The index of the first greatest element. */
  function FirstMaximum(h: seq<nat>): (peak: nat)
    requires h != []
    ensures IsFirstMaximum(h, peak)
  {
    if |h| == 1 then 0
    else
      var before := FirstMaximum(h[..|h| - 1]);
      if h[|h| - 1] > h[before] then |h| - 1 else before
  }

  method MaxElement(h: array<nat>) returns (peak: nat)
    requires h.Length > 0
    ensures peak == FirstMaximum(h[..])
  {
    peak := 0;
    for i := 1 to h.Length
      invariant IsFirstMaximum(h[..i], peak)
    {
      if h[i] > h[peak] {
        peak := i;
      }
    }
    assert h[..h.Length] == h[..];
  }

  /** The bin's number, counted from one, once the histogram has been rolled by shift. */
  function ShiftedBin(index: nat, numBins: nat, shift: int): (bin: nat)
    requires index < numBins && 0 < numBins + shift
    ensures 1 <= bin <= numBins
  {
    (numBins + index + shift) % numBins + 1
  }

  function Sum(s: seq<nat>): nat {
    if s == [] then 0 else Sum(s[..|s| - 1]) + s[|s| - 1]
  }

  /** Each bin's rolled number times its count. */
  function Moments(h: seq<nat>, shift: int): (m: seq<nat>)
    requires 0 < |h| + shift
    ensures |m| == |h|
  {
    seq(|h|, i requires 0 <= i < |h| => ShiftedBin(i, |h|, shift) * h[i])
  }

  /** The roll that puts the peak in the middle. */
  function Shift(numBins: nat, peak: nat): int {
    numBins / 2 - peak
  }

  lemma Distribute(n: nat, a: nat, b: nat)
    ensures n * (a + b) == n * a + n * b
  {
  }

  lemma {:induction false} SumBounds(h: seq<nat>, m: seq<nat>, n: nat)
    requires |h| == |m| && forall i :: 0 <= i < |h| ==> h[i] <= m[i] <= n * h[i]
    ensures Sum(h) <= Sum(m) <= n * Sum(h)
  {
    if h != [] {
      var last := |h| - 1;
      SumBounds(h[..last], m[..last], n);
      Distribute(n, Sum(h[..last]), h[last]);
    }
  }

  lemma ProductBetween(b: nat, n: nat, x: nat)
    requires 1 <= b <= n
    ensures x <= b * x <= n * x
  {
    assert b * x == x + (b - 1) * x;
    assert n * x == b * x + (n - b) * x;
  }

  lemma MomentBounds(h: seq<nat>, shift: int)
    requires 0 < |h| + shift
    ensures Sum(h) <= Sum(Moments(h, shift)) <= |h| * Sum(h)
  {
    var m := Moments(h, shift);
    forall i | 0 <= i < |h| ensures h[i] <= m[i] <= |h| * h[i] {
      ProductBetween(ShiftedBin(i, |h|, shift), |h|, h[i]);
    }
    SumBounds(h, m, |h|);
  }

  /** The mean of the rolled histogram, between 1 and the number of bins. */
  function Mean(h: seq<nat>, peak: nat): (mean: real)
    requires peak < |h| && Sum(h) > 0
    ensures 1.0 <= mean
  {
    MomentBounds(h, Shift(|h|, peak));
    MeanAtLeastOne(Sum(Moments(h, Shift(|h|, peak))), Sum(h));
    Sum(Moments(h, Shift(|h|, peak))) as real / Sum(h) as real
  }

  lemma MeanAtLeastOne(moments: nat, weights: nat)
    requires 0 < weights <= moments
    ensures moments as real / weights as real >= 1.0
  {
    var q := moments as real / weights as real;
    assert q * weights as real == moments as real;
  }

  /** The position in bins that results when bin peak is rolled to the middle: the mean, rolled back. */
  function PeakFrom(h: seq<nat>, peak: nat): real
    requires peak < |h| && Sum(h) > 0
  {
    Fmod(Mean(h, peak) + (|h| - Shift(|h|, peak) - 1) as real, |h|)
  }

  /** The position of the peak, found from the first highest bin. */
  function Peak(h: seq<nat>): real
    requires h != []
  {
    if Sum(h) == 0 then 0.0 else PeakFrom(h, FirstMaximum(h))
  }

  lemma SumNone(s: seq<nat>)
    ensures Sum(s[..0]) == 0
  {
  }

  lemma SumOneMore(s: seq<nat>, i: nat)
    requires i < |s|
    ensures Sum(s[..i + 1]) == Sum(s[..i]) + s[i]
  {
    assert s[..i + 1][..i] == s[..i];
  }

  /** Add up the counts, and the counts weighted with the rolled bin numbers. */
  method WeighBins(histogram: array<nat>, indexShift: int) returns (totalWeights: nat, average: real)
    requires 0 < histogram.Length + indexShift
    ensures totalWeights == Sum(histogram[..])
    ensures average == Sum(Moments(histogram[..], indexShift)) as real
  {
    hide Sum;
    var driftBins := histogram.Length;
    ghost var h, m := histogram[..], Moments(histogram[..], indexShift);
    average, totalWeights := 0.0, 0;
    SumNone(h);
    SumNone(m);
    for index := 0 to driftBins
      invariant totalWeights == Sum(h[..index])
      invariant average == Sum(m[..index]) as real
    {
      var shiftedBin := (driftBins + index + indexShift) % driftBins + 1;
      totalWeights := totalWeights + histogram[index];
      average := average + (shiftedBin * histogram[index]) as real;
      assert m[index] == shiftedBin * histogram[index];
      SumOneMore(h, index);
      SumOneMore(m, index);
    }
    assert h[..driftBins] == h && m[..driftBins] == m;
  }

  method FindPeak(times: seq<nat>, driftBins: nat, slotWidth: nat) returns (average: real)
    requires driftBins > 0 && slotWidth >= driftBins
    ensures average == Peak(Counts(times, driftBins, slotWidth))
    ensures 0.0 <= average < driftBins as real
  {
    hide Sum, Moments, FirstMaximum, Fmod, Counts;
    var binsCentre := driftBins / 2;
    var histogram := Histogram(times, driftBins, slotWidth);
    var peakOffset := MaxElement(histogram);
    var indexShift := binsCentre - peakOffset;
    var totalWeights;
    totalWeights, average := WeighBins(histogram, indexShift);
    if totalWeights != 0 {
      average := average / totalWeights as real;
      assert average == Mean(histogram[..], peakOffset);
      assert average >= 1.0;
      var rolledBack := average + (driftBins - indexShift - 1) as real;
      FmodRange(rolledBack, driftBins);
      average := Fmod(rolledBack, driftBins);
    } else {
      MomentBounds(histogram[..], indexShift);
    }
  }

  // ---------- Delaying every detection ----------

  function Delayed(times: seq<nat>, delay: nat): (r: seq<nat>)
    ensures |r| == |times|
  {
    seq(|times|, i requires 0 <= i < |times| => times[i] + delay)
  }

  lemma QuotientOfProduct(n: nat, d: nat)
    requires n > 0
    ensures n * d / n == d
  {
    DivUnique(n * d, n, d, 0);
  }

  // Leaving out whole windows before rounding changes the bin number by whole turns only.
  lemma WholeWindows(u: nat, q: nat, numBins: nat, binWidth: nat)
    requires numBins > 0 && binWidth > 0
    ensures (q * (numBins * binWidth) + u + binWidth / 2) / binWidth % numBins == (u + binWidth / 2) / binWidth % numBins
  {
    var half := binWidth / 2;
    assert q * (numBins * binWidth) == (q * numBins) * binWidth;
    DivAdd(u + half, q * numBins, binWidth);
    DivAdd((u + half) / binWidth, q, numBins);
  }

  // Rounding to bins and reducing to the window can be done in either order.
  lemma BinOfWhole(time: nat, numBins: nat, binWidth: nat, w: nat)
    requires numBins > 0 && binWidth > 0 && w == numBins * binWidth && w >= numBins
    ensures BinOf(time, numBins, w) == DivNearest(time, binWidth) % numBins
  {
    QuotientOfProduct(numBins, binWidth);
    assert time == time / w * w + time % w;
    WholeWindows(time % w, time / w, numBins, binWidth);
  }

  lemma WholeBins(time: nat, k: nat, d: nat)
    requires d > 0
    ensures DivNearest(time + k * d, d) == DivNearest(time, d) + k
  {
    DivAdd(time + d / 2, k, d);
  }

  lemma DelayedBin(time: nat, k: nat, numBins: nat, binWidth: nat, w: nat)
    requires numBins > 0 && binWidth > 0 && w == numBins * binWidth && w >= numBins
    ensures BinOf(time + k * binWidth, numBins, w) == (BinOf(time, numBins, w) + k) % numBins
  {
    hide BinOf, DivNearest;
    var delayed := time + k * binWidth;
    BinOfWhole(time, numBins, binWidth, w);
    BinOfWhole(delayed, numBins, binWidth, w);
    WholeBins(time, k, binWidth);
    ResidueMoves(DivNearest(time, binWidth), DivNearest(delayed, binWidth), k, numBins);
  }

  lemma ResidueMoves(a: nat, b: nat, k: nat, n: nat)
    requires n > 0 && b == a + k
    ensures b % n == (a % n + k) % n
  {
    ModSum(a, k, n);
  }

  /** Where bin b goes when the histogram is rolled forward by k. */
  function Rolled(b: nat, k: nat, numBins: nat): (r: nat)
    requires numBins > 0
    ensures r < numBins
  {
    (b + k) % numBins
  }

  lemma RolledSmall(b: nat, k: nat, numBins: nat)
    requires b < numBins
    ensures Rolled(b, k, numBins) == if b + k % numBins < numBins then b + k % numBins else b + k % numBins - numBins
  {
    ModSum(k, b, numBins);
    assert k % numBins + b == b + k % numBins;
    var x := b + k % numBins;
    if x < numBins { DivUnique(x, numBins, 0, x); } else { DivUnique(x, numBins, 1, x - numBins); }
  }

  /** A sequence rolled forward by k places. */
  function Roll(s: seq<nat>, k: nat): (r: seq<nat>)
    requires s != []
    ensures |r| == |s|
  {
    var cut := |s| - k % |s|;
    s[cut..] + s[..cut]
  }

  lemma RollMovesElements(s: seq<nat>, k: nat, i: nat)
    requires i < |s|
    ensures Roll(s, k)[Rolled(i, k, |s|)] == s[i]
  {
    RolledSmall(i, k, |s|);
  }

  lemma {:induction false} SumAppend(a: seq<nat>, b: seq<nat>)
    ensures Sum(a + b) == Sum(a) + Sum(b)
  {
    if b == [] {
      assert a + b == a;
    } else {
      SumAppend(a, b[..|b| - 1]);
      assert (a + b)[..|a + b| - 1] == a + b[..|b| - 1];
    }
  }

  lemma SumRoll(s: seq<nat>, k: nat)
    requires s != []
    ensures Sum(Roll(s, k)) == Sum(s)
  {
    var cut := |s| - k % |s|;
    SumAppend(s[cut..], s[..cut]);
    SumAppend(s[..cut], s[cut..]);
    assert s[..cut] + s[cut..] == s;
  }

  // Two sequences that agree at all rolled places are rolls of each other.
  lemma RollUnique(s: seq<nat>, k: nat, r: seq<nat>)
    requires s != [] && |r| == |s|
    requires forall i :: 0 <= i < |s| ==> r[Rolled(i, k, |s|)] == s[i]
    ensures r == Roll(s, k)
  {
    var n, m := |s|, k % |s|;
    forall j | 0 <= j < n ensures r[j] == Roll(s, k)[j] {
      var i := if j >= m then j - m else j - m + n;
      RolledSmall(i, k, n);
      RollMovesElements(s, k, i);
    }
  }

  lemma {:induction false} DelayedCount(times: seq<nat>, k: nat, numBins: nat, binWidth: nat, bin: nat)
    requires bin < numBins && binWidth > 0 && numBins * binWidth >= numBins
    ensures Count(Delayed(times, k * binWidth), numBins, numBins * binWidth, Rolled(bin, k, numBins))
         == Count(times, numBins, numBins * binWidth, bin)
  {
    if times != [] {
      var last := |times| - 1;
      DelayedCount(times[..last], k, numBins, binWidth, bin);
      assert Delayed(times, k * binWidth)[..last] == Delayed(times[..last], k * binWidth);
      DelayedBin(times[last], k, numBins, binWidth, numBins * binWidth);
      var b := BinOf(times[last], numBins, numBins * binWidth);
      RolledSmall(b, k, numBins);
      RolledSmall(bin, k, numBins);
    }
  }

  // Delaying every detection by k bin widths rolls the histogram forward by k.
  lemma DelayedCounts(times: seq<nat>, k: nat, numBins: nat, binWidth: nat)
    requires numBins > 0 && binWidth > 0 && numBins * binWidth >= numBins
    ensures Counts(Delayed(times, k * binWidth), numBins, numBins * binWidth)
         == Roll(Counts(times, numBins, numBins * binWidth), k)
  {
    forall i | 0 <= i < numBins
      ensures Counts(Delayed(times, k * binWidth), numBins, numBins * binWidth)[Rolled(i, k, numBins)]
           == Counts(times, numBins, numBins * binWidth)[i]
    {
      DelayedCount(times, k, numBins, binWidth, i);
    }
    RollUnique(Counts(times, numBins, numBins * binWidth), k,
               Counts(Delayed(times, k * binWidth), numBins, numBins * binWidth));
  }

  /** No bin holds more than this one. */
  ghost predicate Highest(h: seq<nat>, p: nat) {
    p < |h| && forall i :: 0 <= i < |h| ==> h[i] <= h[p]
  }

  /** The bin that is rolled to p'. */
  function RolledFrom(p': nat, k: nat, n: nat): (p: nat)
    requires p' < n
    ensures p < n && Rolled(p, k, n) == p'
  {
    var p := if p' >= k % n then p' - k % n else p' - k % n + n;
    RolledSmall(p, k, n);
    p
  }

  lemma HighestRolls(h: seq<nat>, p: nat, k: nat)
    requires p < |h|
    ensures Highest(h, p) <==> Highest(Roll(h, k), Rolled(p, k, |h|))
  {
    hide Roll, Rolled;
    var n, r := |h|, Roll(h, k);
    RollMovesElements(h, k, p);
    if Highest(h, p) {
      forall i | 0 <= i < n ensures r[i] <= r[Rolled(p, k, n)] {
        RollMovesElements(h, k, RolledFrom(i, k, n));
      }
    }
    if Highest(r, Rolled(p, k, n)) {
      forall i | 0 <= i < n ensures h[i] <= h[p] {
        RollMovesElements(h, k, i);
      }
    }
  }

  lemma ShiftedBinRolls(i: nat, peak: nat, k: nat, n: nat)
    requires i < n && peak < n
    ensures ShiftedBin(Rolled(i, k, n), n, Shift(n, Rolled(peak, k, n))) == ShiftedBin(i, n, Shift(n, peak))
  {
    hide Rolled, ShiftedBin;
    RolledSmall(i, k, n);
    RolledSmall(peak, k, n);
    TurnOfShifted(i, peak, n);
    TurnOfShifted(Rolled(i, k, n), Rolled(peak, k, n), n);
  }

  // The rolled moments are the moments, rolled.
  lemma MomentsRoll(h: seq<nat>, peak: nat, k: nat)
    requires peak < |h|
    ensures Moments(Roll(h, k), Shift(|h|, Rolled(peak, k, |h|))) == Roll(Moments(h, Shift(|h|, peak)), k)
  {
    var n := |h|;
    var m := Moments(Roll(h, k), Shift(n, Rolled(peak, k, n)));
    forall i | 0 <= i < n ensures m[Rolled(i, k, n)] == Moments(h, Shift(n, peak))[i] {
      RollMovesElements(h, k, i);
      ShiftedBinRolls(i, peak, k, n);
    }
    RollUnique(Moments(h, Shift(n, peak)), k, m);
  }

  // Moving x by k bins, with or without a full turn, moves its remainder by k.
  lemma RemainderMoves(x: real, k: nat, turns: nat, n: nat)
    requires n > 0 && x >= 0.0 && x + (k % n) as real - (turns * n) as real >= 0.0
    ensures Fmod(x, n) >= 0.0
    ensures Fmod(x + (k % n) as real - (turns * n) as real, n) == Fmod(Fmod(x, n) + k as real, n)
  {
    FmodRange(x, n);
    var d, wraps := n as real, (x / n as real).Floor;
    assert k == k / n * n + k % n;
    WholeTurns(d, k / n, turns, wraps);
    assert (k / n * n) as real == d * (k / n) as real;
    assert (turns * n) as real == d * turns as real;
    FmodCongruent(Fmod(x, n) + k as real, x + (k % n) as real - (turns * n) as real, n, k / n + turns - wraps);
  }

  lemma WholeTurns(d: real, a: int, b: int, c: int)
    ensures d * (a + b - c) as real == d * a as real + d * b as real - d * c as real
  {
  }

  lemma PeakFromRange(h: seq<nat>, p: nat)
    requires p < |h| && Sum(h) > 0
    ensures 0.0 <= PeakFrom(h, p) < |h| as real
  {
    hide Sum, Moments, Fmod, Mean;
    FmodRange(Mean(h, p) + (|h| - Shift(|h|, p) - 1) as real, |h|);
  }

  lemma MeanRolls(h: seq<nat>, p: nat, k: nat)
    requires p < |h| && Sum(h) > 0
    ensures Sum(Roll(h, k)) == Sum(h) && Mean(Roll(h, k), Rolled(p, k, |h|)) == Mean(h, p)
  {
    hide Sum, Moments, Roll, Rolled;
    SumRoll(h, k);
    MomentsRoll(h, p, k);
    SumRoll(Moments(h, Shift(|h|, p)), k);
  }

  // Rolling the histogram moves the position found from any bin with that bin, modulo the number of bins.
  lemma PeakFromRolls(h: seq<nat>, p: nat, k: nat)
    requires p < |h| && Sum(h) > 0
    ensures Sum(Roll(h, k)) > 0 && PeakFrom(h, p) >= 0.0
    ensures PeakFrom(Roll(h, k), Rolled(p, k, |h|)) == Fmod(PeakFrom(h, p) + k as real, |h|)
  {
    hide Sum, Moments, Roll, Fmod, Mean;
    var n := |h|;
    MeanRolls(h, p, k);
    RolledSmall(p, k, n);
    var turns := if p + k % n < n then 0 else 1;
    RemainderMoves(Mean(h, p) + (n - Shift(n, p) - 1) as real, k, turns, n);
  }

  /** Every highest bin gives the same position. */
  ghost predicate HighestAgree(h: seq<nat>)
    requires h != []
  {
    Sum(h) > 0 && forall p :: Highest(h, p) ==> PeakFrom(h, p) == Peak(h)
  }

  /** The peak follows every roll of the histogram. */
  ghost predicate PeakFollowsRolls(h: seq<nat>)
    requires h != []
  {
    Peak(h) >= 0.0 && forall k: nat :: Peak(Roll(h, k)) == Fmod(Peak(h) + k as real, |h|)
  }

  lemma AgreeingPeakRolls(h: seq<nat>, k: nat)
    requires h != [] && HighestAgree(h)
    ensures Peak(h) >= 0.0 && Peak(Roll(h, k)) == Fmod(Peak(h) + k as real, |h|)
  {
    hide Sum, Roll, Rolled, Fmod, PeakFrom, FirstMaximum;
    var p' := FirstMaximum(Roll(h, k));
    var p := RolledFrom(p', k, |h|);
    HighestRolls(h, p, k);
    PeakFromRolls(h, p, k);
    assert Highest(Roll(h, k), p');
  }

  // A bin rolled to place 0 is found first, so its position is the one that counts.
  lemma DisagreeingPeakStays(h: seq<nat>, p: nat) returns (k: nat)
    requires h != [] && Sum(h) > 0 && Highest(h, p) && PeakFrom(h, p) != Peak(h)
    ensures Peak(h) >= 0.0 && Peak(Roll(h, k)) != Fmod(Peak(h) + k as real, |h|)
  {
    hide Sum, Roll, Rolled, Fmod, PeakFrom, FirstMaximum;
    k := |h| - p;
    RolledSmall(p, k, |h|);
    ToFront(p, |h|);
    HighestRolls(h, p, k);
    PeakFromRolls(h, p, k);
    FirstPlaceIsFirst(Roll(h, k));
    PeakFromRange(h, p);
    PeakFromRange(h, FirstMaximum(h));
    FmodCancel(PeakFrom(h, p), Peak(h), k, |h|);
  }

  lemma FirstPlaceIsFirst(h: seq<nat>)
    requires Highest(h, 0)
    ensures FirstMaximum(h) == 0
  {
    hide FirstMaximum;
    var f := FirstMaximum(h);
    assert h[f] <= h[0];
  }

  lemma ToFront(p: nat, n: nat)
    requires p < n
    ensures Rolled(p, n - p, n) == 0
  {
    DivUnique(n, n, 1, 0);
  }

  /** The peak follows every roll exactly if all highest bins give the same position. */
  lemma PeakFollowsIff(h: seq<nat>)
    requires h != [] && Sum(h) > 0
    ensures PeakFollowsRolls(h) <==> HighestAgree(h)
  {
    hide Sum, Roll, Fmod, PeakFrom, FirstMaximum, Peak;
    if HighestAgree(h) {
      AgreeingPeakRolls(h, 0);
      forall k: nat ensures Peak(Roll(h, k)) == Fmod(Peak(h) + k as real, |h|) {
        AgreeingPeakRolls(h, k);
      }
    } else {
      var p :| Highest(h, p) && PeakFrom(h, p) != Peak(h);
      var k := DisagreeingPeakStays(h, p);
      assert !PeakFollowsRolls(h);
    }
  }

  // ---------- When the highest bins agree, in terms of the counts ----------

  /** The bin half way round from bin p, where the rolled histogram is cut open. */
  function Opposite(p: nat, n: nat): (o: nat)
    requires p < n
    ensures o < n
  {
    if p >= n / 2 then p - n / 2 else p - n / 2 + n
  }

  lemma ShiftedFromOpposite(i: nat, p: nat, n: nat)
    requires i < n && p < n
    ensures ShiftedBin(i, n, Shift(n, p)) == i + 1 - Opposite(p, n) + if i < Opposite(p, n) then n else 0
  {
    var o, x := Opposite(p, n), n + i + Shift(n, p);
    var r := if i < o then n + i - o else i - o;
    DivUnique(x, n, if x == r then 0 else if x == r + n then 1 else 2, r);
  }

  lemma ShiftedByNothing(i: nat, n: nat)
    requires i < n
    ensures ShiftedBin(i, n, 0) == i + 1
  {
    DivUnique(n + i, n, 1, i);
  }

  lemma ShiftedProduct(i: nat, o: nat, n: nat, c: nat, shifted: nat)
    requires shifted == i + 1 - o + if i < o then n else 0
    ensures shifted * c == (i + 1) * c - o * c + n * (if i < o then c else 0)
  {
  }

  // Cutting the circle at o instead of 0 takes o off each weight, and adds a turn to the bins before o.
  lemma {:induction false} MomentsFromOpposite(h: seq<nat>, p: nat, k: nat)
    requires p < |h| && k <= |h|
    ensures var o := Opposite(p, |h|);
            (Sum(Moments(h, Shift(|h|, p))[..k])
             == Sum(Moments(h, 0)[..k]) - o * Sum(h[..k]) + |h| * Sum(h[..if k < o then k else o]))
  {
    var n, o := |h|, Opposite(p, |h|);
    var m, m0 := Moments(h, Shift(n, p)), Moments(h, 0);
    hide Sum, Moments, ShiftedBin;
    if k == 0 {
      SumNone(h);
      SumNone(m);
      SumNone(m0);
    } else {
      var i := k - 1;
      MomentsFromOpposite(h, p, i);
      SumOneMore(h, i);
      SumOneMore(m, i);
      SumOneMore(m0, i);
      MomentAt(h, p, i);
      Distribute(o, Sum(h[..i]), h[i]);
      if i < o { Distribute(n, Sum(h[..i]), h[i]); }
    }
  }

  lemma MomentAt(h: seq<nat>, p: nat, i: nat)
    requires p < |h| && i < |h|
    ensures var o := Opposite(p, |h|);
            (Moments(h, Shift(|h|, p))[i] == Moments(h, 0)[i] - o * h[i] + |h| * (if i < o then h[i] else 0))
  {
    ShiftedFromOpposite(i, p, |h|);
    ShiftedByNothing(i, |h|);
    ShiftedProduct(i, Opposite(p, |h|), |h|, h[i], ShiftedBin(i, |h|, Shift(|h|, p)));
  }

  function Quotient(a: nat, b: nat): (q: real)
    requires b > 0
    ensures q >= 0.0
  {
    a as real / b as real
  }

  /** The mean bin of the whole histogram, cut open at bin 0. */
  function Centre(h: seq<nat>): (c: real)
    requires Sum(h) > 0
    ensures c >= 0.0
  {
    MomentBounds(h, 0);
    MeanAtLeastOne(Sum(Moments(h, 0)), Sum(h));
    Quotient(Sum(Moments(h, 0)), Sum(h)) - 1.0
  }

  /** The share of the counts that lie before the bin opposite to p. */
  function ShareBefore(h: seq<nat>, p: nat): (share: real)
    requires p < |h| && Sum(h) > 0
    ensures share >= 0.0
  {
    Quotient(Sum(h[..Opposite(p, |h|)]), Sum(h))
  }

  /** The moments m0 once every weight is o less, but a turn of n more for the counts before o. */
  function CutAt(m0: nat, o: nat, sum: nat, n: nat, before: nat): int {
    m0 - o * sum + n * before
  }

  lemma QuotientOfMoments(moments: nat, m0: nat, o: nat, n: nat, before: nat, sum: nat)
    requires sum > 0 && moments == CutAt(m0, o, sum, n, before)
    ensures Quotient(moments, sum) == Quotient(m0, sum) - o as real + n as real * Quotient(before, sum)
  {
    var s := sum as real;
    var a, b := m0 as real / s, before as real / s;
    assert a * s == m0 as real && b * s == before as real;
    assert (o * sum) as real == o as real * s;
    assert (n * before) as real == n as real * (b * s);
    assert (a - o as real + n as real * b) * s == moments as real;
  }

  lemma AllMoments(h: seq<nat>, p: nat)
    requires p < |h|
    ensures var o := Opposite(p, |h|);
            Sum(Moments(h, Shift(|h|, p))) == CutAt(Sum(Moments(h, 0)), o, Sum(h), |h|, Sum(h[..o]))
  {
    hide Sum, Moments, Opposite;
    MomentsFromOpposite(h, p, |h|);
    var m, m0 := Moments(h, Shift(|h|, p)), Moments(h, 0);
    assert h[..|h|] == h && m0[..|h|] == m0 && m[..|h|] == m;
  }

  lemma QuotientFromOpposite(h: seq<nat>, p: nat)
    requires p < |h| && Sum(h) > 0
    ensures Quotient(Sum(Moments(h, Shift(|h|, p))), Sum(h))
         == Quotient(Sum(Moments(h, 0)), Sum(h)) - Opposite(p, |h|) as real + |h| as real * ShareBefore(h, p)
  {
    hide Sum, Moments, Opposite, Quotient, CutAt;
    AllMoments(h, p);
    var o := Opposite(p, |h|);
    QuotientOfMoments(Sum(Moments(h, Shift(|h|, p))), Sum(Moments(h, 0)), o, |h|, Sum(h[..o]), Sum(h));
  }

  lemma MeanFromCentre(h: seq<nat>, p: nat)
    requires p < |h| && Sum(h) > 0
    ensures Mean(h, p) == Centre(h) + 1.0 - Opposite(p, |h|) as real + |h| as real * ShareBefore(h, p)
  {
    hide Sum, Moments, Opposite, Mean, Quotient, ShareBefore;
    QuotientFromOpposite(h, p);
    MeanIsQuotient(h, p);
  }

  lemma MeanIsQuotient(h: seq<nat>, p: nat)
    requires p < |h| && Sum(h) > 0
    ensures Mean(h, p) == Quotient(Sum(Moments(h, Shift(|h|, p))), Sum(h))
  {
    hide Sum, Moments;
  }

  /** The centre, moved by the counts before the bin opposite to p. */
  function MovedCentre(h: seq<nat>, p: nat): (x: real)
    requires p < |h| && Sum(h) > 0
    ensures x >= 0.0
  {
    hide Sum, Moments, Opposite, Centre, ShareBefore;
    ProductNotNegative(|h| as real, ShareBefore(h, p));
    Centre(h) + |h| as real * ShareBefore(h, p)
  }

  lemma ProductNotNegative(x: real, y: real)
    requires x >= 0.0 && y >= 0.0
    ensures x * y >= 0.0
  {
  }

  lemma PeakFromCentre(h: seq<nat>, p: nat)
    requires p < |h| && Sum(h) > 0
    ensures PeakFrom(h, p) == Fmod(MovedCentre(h, p), |h|)
  {
    hide Sum, Fmod, Mean, Centre, ShareBefore;
    MeanFromCentre(h, p);
    FmodCongruent(Mean(h, p) + (|h| - Shift(|h|, p) - 1) as real, MovedCentre(h, p), |h|, if p >= |h| / 2 then 1 else 0);
  }

  lemma ShareOfDifference(a: nat, b: nat, sum: nat, d: real)
    requires a <= b && sum > 0
    ensures d * Quotient(b, sum) - d * Quotient(a, sum) == d * Quotient(b - a, sum)
  {
    var x, y, z := Quotient(a, sum), Quotient(b, sum), Quotient(b - a, sum);
    assert x * sum as real == a as real && y * sum as real == b as real && z * sum as real == (b - a) as real;
    SignOfProduct(y - x - z, sum as real);
    assert d * y - d * x - d * z == d * (y - x - z);
  }

  lemma WholeShare(part: nat, sum: nat, d: real, turns: int)
    requires sum > 0 && part <= sum && d > 0.0 && d * Quotient(part, sum) == Multiple(d, turns)
    ensures part in {0, sum}
  {
    var share := Quotient(part, sum);
    assert share * sum as real == part as real;
    SameFactor(d, share, turns as real);
    assert turns as real * sum as real == (turns * sum) as real;
    assert part == turns * sum;
    if turns >= 2 { AtLeastOnce(turns - 1, sum); }
    if turns < 0 { AtLeastOnce(-turns, sum); }
  }

  lemma SameFactor(d: real, x: real, y: real)
    requires d > 0.0 && d * x == d * y
    ensures x == y
  {
    assert (x - y) * d == 0.0;
    SignOfProduct(x - y, d);
  }

  lemma SumPrefix(h: seq<nat>, i: nat, j: nat)
    requires i <= j <= |h|
    ensures Sum(h[..j]) == Sum(h[..i]) + Sum(h[i..j]) && Sum(h[..j]) <= Sum(h)
  {
    assert h[..j] == h[..i] + h[i..j] && h == h[..j] + h[j..];
    SumAppend(h[..i], h[i..j]);
    SumAppend(h[..j], h[j..]);
  }

  // Two bins give the same position exactly if all or none of the counts lie between their opposite bins.
  lemma SamePositionIff(h: seq<nat>, p: nat, q: nat)
    requires p < |h| && q < |h| && Sum(h) > 0 && Opposite(p, |h|) <= Opposite(q, |h|)
    ensures PeakFrom(h, p) == PeakFrom(h, q) <==> Sum(h[Opposite(p, |h|)..Opposite(q, |h|)]) in {0, Sum(h)}
  {
    hide Sum, Fmod, PeakFrom, Centre, Opposite, Multiple, Quotient;
    var i, j := Opposite(p, |h|), Opposite(q, |h|);
    var x, y, d := MovedCentre(h, p), MovedCentre(h, q), |h| as real;
    PeakFromCentre(h, p);
    PeakFromCentre(h, q);
    SumPrefix(h, i, j);
    var part, sum := Sum(h[i..j]), Sum(h);
    ShareOfDifference(Sum(h[..i]), Sum(h[..j]), sum, d);
    assert y - x == d * Quotient(part, sum);
    if Fmod(x, |h|) == Fmod(y, |h|) {
      var turns := EqualRemainders(y, x, |h|);
      WholeShare(part, sum, d, turns);
    }
    if part in {0, sum} {
      WholeOrNone(part, sum, d);
      FmodCongruent(y, x, |h|, if part == 0 then 0 else 1);
    }
  }

  lemma WholeOrNone(part: nat, sum: nat, d: real)
    requires sum > 0 && part in {0, sum}
    ensures d * Quotient(part, sum) == d * (if part == 0 then 0 else 1) as real
  {
  }

  // ---------- The peak as a mean of distances ----------

  /** How far bin i is from bin p, the shorter way round: up to half the bins down, fewer than half up. */
  function Turn(i: nat, p: nat, n: nat): (d: int)
    requires i < n && p < n
    ensures -(n / 2) <= d < n - n / 2
    ensures d == i - p || d == i - p + n || d == i - p - n
  {
    if i - p < -(n / 2) then i - p + n else if i - p >= n - n / 2 then i - p - n else i - p
  }

  /** The distances of the counts in the first k bins from bin p, added up. */
  function Distances(h: seq<nat>, p: nat, k: nat): int
    requires p < |h| && k <= |h|
  {
    if k == 0 then 0 else Distances(h, p, k - 1) + Turn(k - 1, p, |h|) * h[k - 1]
  }

  lemma TurnOfShifted(i: nat, p: nat, n: nat)
    requires i < n && p < n
    ensures ShiftedBin(i, n, Shift(n, p)) == Turn(i, p, n) + n / 2 + 1
  {
    ShiftedFromOpposite(i, p, n);
  }

  lemma ProductSplits(a: int, b: nat, c: nat)
    ensures (a + b) * c == a * c + b * c
  {
  }

  lemma {:induction false} MomentsAreDistances(h: seq<nat>, p: nat, k: nat)
    requires p < |h| && k <= |h|
    ensures Sum(Moments(h, Shift(|h|, p))[..k]) == Distances(h, p, k) + (|h| / 2 + 1) * Sum(h[..k])
  {
    hide Sum, Moments, ShiftedBin, Turn;
    var n, m := |h|, Moments(h, Shift(|h|, p));
    if k == 0 {
      SumNone(h);
      SumNone(m);
    } else {
      var i := k - 1;
      MomentsAreDistances(h, p, i);
      SumOneMore(h, i);
      SumOneMore(m, i);
      MomentIsDistance(h, p, i);
      Distribute(n / 2 + 1, Sum(h[..i]), h[i]);
    }
  }

  lemma MomentIsDistance(h: seq<nat>, p: nat, i: nat)
    requires p < |h| && i < |h|
    ensures Moments(h, Shift(|h|, p))[i] == Turn(i, p, |h|) * h[i] + (|h| / 2 + 1) * h[i]
  {
    TurnOfShifted(i, p, |h|);
    ProductSplits(Turn(i, p, |h|), |h| / 2 + 1, h[i]);
  }

  lemma RealQuotientSplits(m: int, d: int, c: int, s: nat)
    requires s > 0 && m == d + c * s
    ensures m as real / s as real == d as real / s as real + c as real
  {
    var x, y := m as real / s as real, d as real / s as real;
    assert x * s as real == m as real && y * s as real == d as real;
    assert (c * s) as real == c as real * s as real;
    assert (x - y - c as real) * s as real == 0.0;
    SignOfProduct(x - y - c as real, s as real);
  }

  lemma MeanIsDistance(h: seq<nat>, p: nat)
    requires p < |h| && Sum(h) > 0
    ensures Mean(h, p) == Distances(h, p, |h|) as real / Sum(h) as real + (|h| / 2 + 1) as real
  {
    hide Sum, Moments;
    MomentsAreDistances(h, p, |h|);
    var m := Moments(h, Shift(|h|, p));
    assert h[..|h|] == h && m[..|h|] == m;
    RealQuotientSplits(Sum(m), Distances(h, p, |h|), |h| / 2 + 1, Sum(h));
  }

  /** The position found from bin p is p, moved by the mean distance of all counts from it, around the circle. */
  lemma PeakIsMeanDistance(h: seq<nat>, p: nat)
    requires p < |h| && Sum(h) > 0
    ensures var position := (p + |h|) as real + Distances(h, p, |h|) as real / Sum(h) as real;
            position >= 0.0 && PeakFrom(h, p) == Fmod(position, |h|)
  {
    hide Sum, Fmod, Mean, Distances;
    MeanIsDistance(h, p);
  }

  // If all counts are in one bin, the peak is that bin.
  lemma PeakOfOneBin(h: seq<nat>, p: nat)
    requires p < |h| && h[p] > 0 && forall i :: 0 <= i < |h| && i != p ==> h[i] == 0
    ensures Peak(h) == p as real
  {
    hide Fmod, PeakFrom, FirstMaximum, Mean, Turn;
    OnlyBin(h, p, |h|);
    assert h[..|h|] == h;
    assert FirstMaximum(h) == p;
    PeakIsMeanDistance(h, p);
    FmodCongruent((p + |h|) as real, p as real, |h|, 1);
    FmodOfRemainder(p as real, |h|);
  }

  lemma {:induction false} OnlyBin(h: seq<nat>, p: nat, k: nat)
    requires p < |h| && k <= |h| && forall i :: 0 <= i < |h| && i != p ==> h[i] == 0
    ensures Distances(h, p, k) == 0 && Sum(h[..k]) == if p < k then h[p] else 0
  {
    hide Sum;
    if k == 0 {
      SumNone(h);
    } else {
      OnlyBin(h, p, k - 1);
      SumOneMore(h, k - 1);
    }
  }

  /** There are counts, and between the bins opposite to any two highest bins lie all of them or none. */
  ghost predicate HighestUndivided(h: seq<nat>) {
    && Sum(h) > 0
    && forall p, q :: Highest(h, p) && Highest(h, q) && Opposite(p, |h|) <= Opposite(q, |h|) ==>
         Sum(h[Opposite(p, |h|)..Opposite(q, |h|)]) in {0, Sum(h)}
  }

  /** Whether all highest bins give the same position can be read off the counts. */
  lemma HighestAgreeIff(h: seq<nat>)
    requires h != []
    ensures HighestAgree(h) <==> HighestUndivided(h)
  {
    hide Sum, PeakFrom, Opposite, FirstMaximum;
    if Sum(h) > 0 {
      forall p, q | Highest(h, p) && Highest(h, q) && Opposite(p, |h|) <= Opposite(q, |h|)
        ensures PeakFrom(h, p) == PeakFrom(h, q) <==> Sum(h[Opposite(p, |h|)..Opposite(q, |h|)]) in {0, Sum(h)}
      {
        SamePositionIff(h, p, q);
      }
      var f := FirstMaximum(h);
      assert Highest(h, f) && Peak(h) == PeakFrom(h, f);
      forall p | Highest(h, p) && HighestUndivided(h) ensures PeakFrom(h, p) == Peak(h) {
        if Opposite(p, |h|) > Opposite(f, |h|) {
          SamePositionIff(h, f, p);
        } else {
          SamePositionIff(h, p, f);
        }
      }
    }
  }

  // ---------- Delays ----------

  /** Delaying every detection by any number of bin widths moves the peak by that many bins, around the circle. */
  ghost predicate PeakFollowsDelays(times: seq<nat>, driftBins: nat, binWidth: nat)
    requires driftBins > 0 && binWidth > 0 && driftBins * binWidth >= driftBins
  {
    var w := driftBins * binWidth;
    Peak(Counts(times, driftBins, w)) >= 0.0
    && forall k: nat :: Peak(Counts(Delayed(times, k * binWidth), driftBins, w))
                     == Fmod(Peak(Counts(times, driftBins, w)) + k as real, driftBins)
  }

  /**
   * When the slot is a whole number of bins, the peak follows every delay exactly if there is only one bin,
   * or there are detections and all or none of them lie between the bins opposite to any two highest bins.
   */
  lemma DelayMovesPeakIff(times: seq<nat>, driftBins: nat, binWidth: nat)
    requires driftBins > 0 && binWidth > 0 && driftBins * binWidth >= driftBins
    ensures PeakFollowsDelays(times, driftBins, binWidth)
       <==> driftBins == 1 || HighestUndivided(Counts(times, driftBins, driftBins * binWidth))
  {
    hide Peak, Counts, Roll, Fmod, Sum, HighestAgree, HighestUndivided;
    var w := driftBins * binWidth;
    var h := Counts(times, driftBins, w);
    CountsTotal(times, driftBins, w);
    FollowsDelaysAsRolls(times, driftBins, binWidth);
    HighestAgreeIff(h);
    if times == [] {
      NothingDetectedStays(h);
    } else {
      PeakFollowsIff(h);
      if driftBins == 1 { OneBinAgrees(h); }
    }
  }

  lemma FollowsDelaysAsRolls(times: seq<nat>, driftBins: nat, binWidth: nat)
    requires driftBins > 0 && binWidth > 0 && driftBins * binWidth >= driftBins
    ensures PeakFollowsDelays(times, driftBins, binWidth)
       <==> PeakFollowsRolls(Counts(times, driftBins, driftBins * binWidth))
  {
    hide Peak, Counts, Roll, Fmod, Delayed;
    forall k: nat
      ensures Counts(Delayed(times, k * binWidth), driftBins, driftBins * binWidth)
           == Roll(Counts(times, driftBins, driftBins * binWidth), k)
    {
      DelayedCounts(times, k, driftBins, binWidth);
    }
  }

  lemma OneBinAgrees(h: seq<nat>)
    requires |h| == 1 && Sum(h) > 0
    ensures HighestAgree(h)
  {
  }

  // Without detections the peak is 0 whatever the delay.
  lemma NothingDetectedStays(h: seq<nat>)
    requires h != [] && Sum(h) == 0
    ensures !HighestAgree(h) && (PeakFollowsRolls(h) <==> |h| == 1)
  {
    hide Sum, Roll, Fmod;
    if |h| == 1 {
      forall k: nat ensures Peak(Roll(h, k)) == Fmod(Peak(h) + k as real, |h|) {
        SumRoll(h, k);
        WholeRemainder(k);
      }
    } else {
      SumRoll(h, 1);
      FmodOfRemainder(1.0, |h|);
      assert Peak(Roll(h, 1)) != Fmod(Peak(h) + 1 as real, |h|);
    }
  }

  lemma WholeRemainder(k: nat)
    ensures Fmod(0.0 + k as real, 1) == 0.0
  {
  }

  /** A single highest bin is enough. */
  lemma UniqueMaximumAgrees(h: seq<nat>, p: nat)
    requires Sum(h) > 0 && Highest(h, p) && forall i :: 0 <= i < |h| && i != p ==> h[i] < h[p]
    ensures HighestAgree(h)
  {
    hide Sum, PeakFrom, FirstMaximum;
    var f := FirstMaximum(h);
    assert h[p] <= h[f];
    forall q: nat | Highest(h, q) ensures q == f {
      assert h[p] <= h[q];
    }
  }

  lemma {:induction false} SumBump(h: seq<nat>, g: seq<nat>, b: nat)
    requires b < |h| == |g| && g == h[b := h[b] + 1]
    ensures Sum(g) == Sum(h) + 1
  {
    var last := |h| - 1;
    if b < last {
      SumBump(h[..last], g[..last], b);
    } else {
      assert g[..last] == h[..last];
    }
  }

  lemma {:induction false} SumZero(n: nat)
    ensures Sum(seq(n, _ => 0)) == 0
  {
    if n > 0 {
      SumZero(n - 1);
      assert seq(n, _ => 0)[..n - 1] == seq(n - 1, _ => 0);
    }
  }

  // Every detection falls into exactly one bin.
  lemma {:induction false} CountsTotal(times: seq<nat>, numBins: nat, windowWidth: nat)
    requires numBins > 0 && windowWidth >= numBins
    ensures Sum(Counts(times, numBins, windowWidth)) == |times|
  {
    if times == [] {
      SumZero(numBins);
      assert Counts(times, numBins, windowWidth) == seq(numBins, _ => 0);
    } else {
      var last := |times| - 1;
      CountsTotal(times[..last], numBins, windowWidth);
      SumBump(Counts(times[..last], numBins, windowWidth), Counts(times, numBins, windowWidth),
              BinOf(times[last], numBins, windowWidth));
    }
  }

  lemma SumFour(s: seq<nat>)
    requires |s| == 4
    ensures Sum(s) == s[0] + s[1] + s[2] + s[3]
  {
    hide Sum;
    SumNone(s);
    SumOneMore(s, 0);
    SumOneMore(s, 1);
    SumOneMore(s, 2);
    SumOneMore(s, 3);
    assert s[..4] == s;
  }

  lemma MomentsOfTwoPeaks()
    ensures Moments([1, 0, 1, 0], Shift(4, 0)) == [3, 0, 1, 0]
  {
    assert ShiftedBin(0, 4, 2) == 3 && ShiftedBin(2, 4, 2) == 1;
  }

  lemma MeanOfTwoPeaks()
    ensures FirstMaximum([1, 0, 1, 0]) == 0 && Sum([1, 0, 1, 0]) == 2 && Mean([1, 0, 1, 0], 0) == 2.0
  {
    hide Sum, FirstMaximum, Moments, ShiftedBin;
    var h: seq<nat> := [1, 0, 1, 0];
    SumFour(h);
    FirstPlaceIsFirst(h);
    MomentsOfTwoPeaks();
    SumFour([3, 0, 1, 0]);
    assert Sum(Moments(h, Shift(|h|, 0))) == 4;
    assert 4 as real / 2 as real == 2.0;
  }

  lemma TwoPeaksAtThree()
    ensures Peak([1, 0, 1, 0]) == 3.0
  {
    hide Sum, FirstMaximum, Mean, Fmod;
    MeanOfTwoPeaks();
    FmodOfRemainder(3.0, 4);
  }

  lemma CountTwo(a: nat, b: nat, numBins: nat, windowWidth: nat, bin: nat)
    requires numBins > 0 && windowWidth >= numBins
    ensures Count([a, b], numBins, windowWidth, bin)
         == (if BinOf(a, numBins, windowWidth) == bin then 1 else 0) + if BinOf(b, numBins, windowWidth) == bin then 1 else 0
  {
    hide BinOf;
    assert [a, b][..1] == [a] && [a][..0] == [];
    assert Count([a], numBins, windowWidth, bin) == if BinOf(a, numBins, windowWidth) == bin then 1 else 0;
  }

  lemma TwoTimesTwoBins()
    ensures Counts([0, 2], 4, 4) == [1, 0, 1, 0]
  {
    hide Count;
    assert BinOf(0, 4, 4) == 0 && BinOf(2, 4, 4) == 2;
    forall bin: nat | bin < 4 ensures Counts([0, 2], 4, 4)[bin] == [1, 0, 1, 0][bin] {
      CountTwo(0, 2, 4, 4, bin);
    }
  }

  // With two equally high bins the first is always chosen, and the peak need not move.
  lemma TwoHighestBinsDoNotMove()
    ensures Counts([0, 2], 4, 4) == [1, 0, 1, 0] == Counts(Delayed([0, 2], 2), 4, 4)
    ensures Peak(Counts(Delayed([0, 2], 2), 4, 4)) == Peak(Counts([0, 2], 4, 4)) == 3.0
  {
    hide Counts, Peak, Delayed;
    TwoTimesTwoBins();
    DelayedCounts([0, 2], 2, 4, 1);
    assert Roll([1, 0, 1, 0], 2) == [1, 0, 1, 0];
    TwoPeaksAtThree();
  }
}
