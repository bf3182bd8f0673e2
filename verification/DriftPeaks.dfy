/** The peaks of successive samples of the detections, computed on the work queue. */
module DriftPeaks {
  import opened Drift
  import opened Threshold
  import opened WorkQueue

  /** A sample: the detections from start up to, not including, end. */
  datatype Window = Window(start: nat, end: nat)

  /** The windows follow each other from the first detection up to, not including, end. */
  ghost predicate Tile(windows: seq<Window>, end: nat) {
    && (forall i :: 0 <= i < |windows| ==> windows[i].start < windows[i].end)
    && (forall i :: 0 < i < |windows| ==> windows[i - 1].end == windows[i].start)
    && (windows != [] ==> windows[0].start == 0 && windows[|windows| - 1].end == end)
    && (windows == [] ==> end == 0)
  }

  /**
   * Window i ends at the first detection, after its own first, later than i + 1 sample times from the start;
   * only a window that ends at the last detection, or past it, may end without one.
   */
  ghost predicate CutAtSampleTimes(times: seq<nat>, sampleTime: nat, windows: seq<Window>)
    requires times != []
  {
    && (forall i, j :: 0 <= i < |windows| && windows[i].start < j < windows[i].end && j < |times| ==>
          times[j] <= times[0] + sampleTime * (i + 1))
    && (forall i :: 0 <= i < |windows| && windows[i].end + 1 < |times| ==>
          times[windows[i].end] > times[0] + sampleTime * (i + 1))
  }

  /** The samples so far; the last detection may have been set aside for being too close to the one before it. */
  ghost predicate Sampled(times: seq<nat>, sampleTime: nat, windows: seq<Window>, covered: nat, sampleStart: nat, sampleIndex: nat) {
    && covered <= sampleStart <= |times| && Tile(windows, covered)
    && (covered == sampleStart ==> |windows| + 1 == sampleIndex)
    && (times != [] ==> CutAtSampleTimes(times, sampleTime, windows))
    && (covered < sampleStart ==> sampleStart == |times| - 1 && times[|times| - 1] - times[covered] < sampleTime)
  }

  lemma SampleAdded(times: seq<nat>, sampleTime: nat, windows: seq<Window>, sampleStart: nat, sampleIndex: nat, sampleEnd: nat)
    requires Sampled(times, sampleTime, windows, sampleStart, sampleStart, sampleIndex)
    requires sampleStart < sampleEnd <= |times|
    requires forall j :: sampleStart < j < sampleEnd ==> times[j] <= times[0] + sampleTime * sampleIndex
    requires sampleEnd + 1 < |times| ==> times[sampleEnd] > times[0] + sampleTime * sampleIndex
    ensures Sampled(times, sampleTime, windows + [Window(sampleStart, sampleEnd)], sampleEnd, sampleEnd, sampleIndex + 1)
  {
  }

  /**
   * Cut the detections into samples with a binary search for each cut. The last search may look at the
   * element just past the detections; `past` is the time stored there.
   */
  method SplitWindows(times: seq<nat>, driftSampleTime: nat, past: nat) returns (windows: seq<Window>, ghost covered: nat)
    requires Sorted(times)
    ensures covered <= |times| && Tile(windows, covered)
    ensures times != [] ==> CutAtSampleTimes(times, driftSampleTime, windows)
    ensures |times| - covered > 1 ==> times[|times| - 1] - times[covered] < driftSampleTime
  {
    hide Tile, CutAtSampleTimes;
    windows, covered := [], 0;
    var sampleStart, sampleIndex := 0, 1;
    NothingSampled(times, driftSampleTime);
    while |times| - sampleStart > 1
      invariant Sampled(times, driftSampleTime, windows, covered, sampleStart, sampleIndex)
      decreases |times| - sampleStart
    {
      var cutoff := times[0] + driftSampleTime * sampleIndex;
      var edge, readPastEnd := FindSample(times, sampleStart, cutoff, past);
      var sampleEnd := sampleStart + edge;
      if sampleEnd != |times| - 1 || times[sampleEnd] - times[sampleStart] >= driftSampleTime {
        SampleAdded(times, driftSampleTime, windows, sampleStart, sampleIndex, sampleEnd);
        windows := windows + [Window(sampleStart, sampleEnd)];
        covered := sampleEnd;
      }
      sampleStart := sampleEnd;
      sampleIndex := sampleIndex + 1;
    }
  }

  lemma NothingSampled(times: seq<nat>, sampleTime: nat)
    ensures Sampled(times, sampleTime, [], 0, 0, 1)
  {
  }

  /** Search the detections of a sample for the first one past the cut-off. */
  method FindSample(times: seq<nat>, sampleStart: nat, cutoff: nat, past: nat) returns (edge: nat, readPastEnd: bool)
    requires Sorted(times) && |times| - sampleStart > 1
    ensures 1 <= edge && sampleStart + edge <= |times|
    ensures forall j :: sampleStart < j < sampleStart + edge ==> times[j] <= cutoff
    ensures sampleStart + edge + 1 < |times| ==> times[sampleStart + edge] > cutoff
  {
    var data := times[sampleStart..];
    edge, readPastEnd := FindSingleEdge(data, t => t > cutoff, past > cutoff);
    forall j | sampleStart < j < sampleStart + edge ensures times[j] <= cutoff {
      assert data[j - sampleStart] <= cutoff;
    }
  }

  /** What the queued action for one window computes. */
  function WindowPeak(times: seq<nat>, w: Window, driftBins: nat, slotWidth: nat): real
    requires w.start <= w.end <= |times| && driftBins > 0 && slotWidth >= driftBins
  {
    Peak(Counts(times[w.start..w.end], driftBins, slotWidth))
  }

  lemma PeakOfWindow(times: seq<nat>, w: Window, driftBins: nat, slotWidth: nat)
    requires w.start <= w.end <= |times| && driftBins > 0 && slotWidth >= driftBins
    ensures WindowPeak(times, w, driftBins, slotWidth) == Peak(Counts(times[w.start..w.end], driftBins, slotWidth))
  {
  }

  ghost predicate IsFirstGreatest(peaks: seq<real>, maximum: nat) {
    && maximum < |peaks| && (forall i :: 0 <= i < |peaks| ==> peaks[i] <= peaks[maximum])
    && forall i :: 0 <= i < maximum ==> peaks[i] < peaks[maximum]
  }

  /** Wait for the futures in the order they were created, remembering where the greatest is. */
  method CollectPeaks(futures: map<Ticket, real>, count: nat) returns (peaks: seq<real>, maximum: nat)
    requires forall t: nat :: t < count ==> t in futures
    ensures |peaks| == count && forall t :: 0 <= t < count ==> peaks[t] == futures[t]
    ensures if count == 0 then maximum == 0 else IsFirstGreatest(peaks, maximum)
  {
    peaks := [];
    maximum := count;
    for index := 0 to count
      invariant |peaks| == index && forall t :: 0 <= t < index ==> peaks[t] == futures[t]
      invariant if index == 0 then maximum == count else IsFirstGreatest(peaks, maximum)
    {
      peaks := peaks + [futures[index]];
      if maximum == count || peaks[index] > peaks[maximum] {
        maximum := index;
      }
    }
  }

  // Windows that tile the detections lie inside them.
  lemma {:induction false} TileInside(windows: seq<Window>, end: nat, i: nat)
    requires Tile(windows, end) && i < |windows|
    ensures windows[i].start < windows[i].end <= end
    decreases |windows|
  {
    var last := |windows| - 1;
    if i < last {
      assert windows[last - 1].end == windows[last].start;
      assert Tile(windows[..last], windows[last].start);
      TileInside(windows[..last], windows[last].start, i);
    }
  }

  ghost predicate WindowsInside(times: seq<nat>, windows: seq<Window>) {
    forall i :: 0 <= i < |windows| ==> windows[i].start <= windows[i].end <= |times|
  }

  /** The queue has been given one task per window, in window order. */
  ghost predicate OneTaskEach(s: State<real>, times: seq<nat>, windows: seq<Window>, driftBins: nat, slotWidth: nat)
    requires driftBins > 0 && slotWidth >= driftBins && WindowsInside(times, windows)
  {
    |s.actions| == |windows|
    && forall i :: 0 <= i < |windows| ==> s.actions[i]() == WindowPeak(times, windows[i], driftBins, slotWidth)
  }

  /**
   * Whatever the workers' schedule, when one task per window has been enqueued in window order, a future
   * that is ready holds its window's peak, and all are ready once the queue is empty and no worker is busy.
   */
  lemma PeaksIndependentOfSchedule(times: seq<nat>, windows: seq<Window>, driftBins: nat, slotWidth: nat,
                                   steps: seq<Step<real>>)
    requires driftBins > 0 && slotWidth >= driftBins && WindowsInside(times, windows)
    requires OneTaskEach(Run(steps), times, windows, driftBins, slotWidth)
    ensures var s := Run(steps);
            && (forall i :: 0 <= i < |windows| && i in s.futures
                  ==> s.futures[i] == WindowPeak(times, windows[i], driftBins, slotWidth))
            && (s.pending == [] && s.busy == map[] ==> forall i: nat :: i < |windows| ==> i in s.futures)
  {
    hide Run;
    QueueCorrect(steps);
  }

  /** What a worker does next: take a task, or complete the one it holds. */
  datatype Turn = Taking(worker: Worker) | Completing(worker: Worker)

  /** Let the workers have these turns; `steps` is the history of the queue. */
  method RunWorkers(queue: ProcessingQueue<real>, turns: seq<Turn>, ghost steps: seq<Step<real>>)
    returns (ghost steps': seq<Step<real>>)
    requires queue.Current() == Run(steps)
    modifies queue
    ensures queue.Current() == Run(steps') && queue.actions == old(queue.actions)
  {
    steps' := steps;
    for i := 0 to |turns|
      invariant queue.Current() == Run(steps') && queue.actions == old(queue.actions)
    {
      match turns[i]
      case Taking(w) =>
        RunOneMore(steps', Take(w));
        queue.TakeTask(w);
        steps' := steps' + [Take(w)];
      case Completing(w) =>
        RunOneMore(steps', Complete(w));
        queue.Fulfil(w);
        steps' := steps' + [Complete(w)];
    }
  }

  /** The task for one window. */
  function PeakTask(times: seq<nat>, w: Window, driftBins: nat, slotWidth: nat): (task: Action<real>)
    requires w.start <= w.end <= |times| && driftBins > 0 && slotWidth >= driftBins
    ensures task() == WindowPeak(times, w, driftBins, slotWidth)
  {
    () => WindowPeak(times, w, driftBins, slotWidth)
  }

  /**
   * Split the detections into windows, enqueue one task for each, and collect the peaks once all futures are
   * ready. The workers may have any turns: `turns(i)` between enqueuing window i and the next one, and after
   * the last window until the caller has waited.
   */
  method GetPeaks(times: seq<nat>, driftSampleTime: nat, past: nat, driftBins: nat, slotWidth: nat, turns: nat -> seq<Turn>)
    returns (ready: bool, peaks: seq<real>, maximum: nat, ghost windows: seq<Window>, ghost covered: nat, idle: bool)
    requires Sorted(times) && driftBins > 0 && slotWidth >= driftBins
    ensures covered <= |times| && Tile(windows, covered) && WindowsInside(times, windows)
    ensures times != [] ==> CutAtSampleTimes(times, driftSampleTime, windows)
    ensures |times| - covered > 1 ==> times[|times| - 1] - times[covered] < driftSampleTime
    ensures idle ==> ready
    ensures ready ==> |peaks| == |windows|
    ensures ready ==> forall i :: 0 <= i < |windows| ==>
                        peaks[i] == Peak(Counts(times[windows[i].start..windows[i].end], driftBins, slotWidth))
    ensures ready ==> if windows == [] then maximum == 0 else IsFirstGreatest(peaks, maximum)
  {
    hide Run, WindowPeak;
    var samples;
    samples, covered := SplitWindows(times, driftSampleTime, past);
    windows := samples;
    forall i | 0 <= i < |windows| ensures windows[i].start <= windows[i].end <= |times| {
      TileInside(windows, covered, i);
    }
    var queue := new ProcessingQueue<real>();
    ghost var steps: seq<Step<real>> := [];
    NothingRun<real>();
    for i := 0 to |samples|
      invariant fresh(queue) && queue.Current() == Run(steps)
      invariant |queue.actions| == i
      invariant forall j :: 0 <= j < i ==> queue.actions[j]() == WindowPeak(times, samples[j], driftBins, slotWidth)
    {
      var task := PeakTask(times, samples[i], driftBins, slotWidth);
      RunOneMore(steps, Step.Enqueue(task));
      var future := queue.Enqueue(task);
      steps := steps + [Step.Enqueue(task)];
      steps := RunWorkers(queue, turns(i), steps);
    }
    PeaksIndependentOfSchedule(times, windows, driftBins, slotWidth, steps);
    forall i | 0 <= i < |windows|
      ensures WindowPeak(times, windows[i], driftBins, slotWidth)
           == Peak(Counts(times[windows[i].start..windows[i].end], driftBins, slotWidth))
    {
      PeakOfWindow(times, windows[i], driftBins, slotWidth);
    }
    idle := queue.pending == [] && queue.busy == map[];
    ready := forall i | 0 <= i < |samples| :: i in queue.futures;
    peaks, maximum := [], 0;
    if ready {
      peaks, maximum := CollectPeaks(queue.futures, |samples|);
    }
  }
}
