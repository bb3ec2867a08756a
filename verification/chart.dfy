/**
 * The playback controller of static/js/chart.js: it pulls one snapshot
 * from the sorting generator per animation frame, recolours the bars, and
 * reports the snapshot's metrics. The generator is a cursor into the
 * snapshots a sorting run yields; the browser's animation-frame handle
 * (`animationId`) is a single "a tick is pending" flag; the callbacks are
 * modelled by whether they were supplied and by a log of what they received.
 */
module Playback {
  import opened Snapshots

  datatype Option<T> = None | Some(value: T)

  /** The state class `updateBars` gives one bar (`'bar'` alone is `Plain`). */
  datatype Highlight = Plain | Sorted | Swapping | Comparing | Pivot

  /** `state.metrics`, as `onStep` receives it. */
  datatype Metrics = Metrics(comparisons: nat, swaps: nat)

  /** A generator: the snapshots it yields, and how many it has yielded so far. */
  datatype Cursor = Cursor(steps: seq<StepState>, pos: nat)

  /** The controller's module state. */
  datatype Controller = Controller(
    data: seq<int>,
    originalData: seq<int>,
    bars: seq<Highlight>,
    isPaused: bool,
    pending: bool,
    generator: Option<Cursor>,
    onStep: bool,
    onComplete: bool,
    reported: seq<Metrics>,
    completions: nat)

  // ----- bar classes -----

  /**
   * The class of bar `index` for a snapshot: `sorted` wins over `swapped`,
   * which wins over `comparing`, which wins over being the pivot.
   */
  function BarClassOf(s: StepState, index: int): (h: Highlight)
    ensures h == Sorted <==> index in s.sorted
    ensures h == Swapping <==> index !in s.sorted && index in s.swapped
    ensures h == Comparing <==> index !in s.sorted && index !in s.swapped && index in s.comparing
    ensures h == Pivot <==> index !in s.sorted && index !in s.swapped && index !in s.comparing && index == s.pivot
  {
    if index in s.sorted then Sorted
    else if index in s.swapped then Swapping
    else if index in s.comparing then Comparing
    else if index == s.pivot then Pivot
    else Plain
  }

  /** The bars after `updateBars(s)`: each bar with an array value gets its class, the rest keep theirs. */
  function Highlights(s: StepState, bars: seq<Highlight>): (r: seq<Highlight>)
    ensures |r| == |bars|
    ensures forall k :: 0 <= k < |r| ==> r[k] == if k < |s.values| then BarClassOf(s, k) else bars[k]
  {
    if bars == [] then []
    else
      var k := |bars| - 1;
      Highlights(s, bars[..k]) + [if k < |s.values| then BarClassOf(s, k) else bars[k]]
  }

  /** Every bar marked sorted (what the controller shows once the generator is exhausted). */
  function AllSorted(n: nat): (r: seq<Highlight>)
    ensures |r| == n && forall k :: 0 <= k < n ==> r[k] == Sorted
  {
    if n == 0 then [] else AllSorted(n - 1) + [Sorted]
  }

  /** The bars `render` draws: one plain bar per value. */
  function PlainBars(n: nat): (r: seq<Highlight>)
    ensures |r| == n && forall k :: 0 <= k < n ==> r[k] == Plain
  {
    if n == 0 then [] else PlainBars(n - 1) + [Plain]
  }

  /** A snapshot that lists every index as sorted shows every bar as sorted, whatever else it marks. */
  lemma FinalSnapshotAllSorted(s: StepState, bars: seq<Highlight>)
    requires s.sorted == Range(0, |s.values|) && |bars| <= |s.values|
    ensures Highlights(s, bars) == AllSorted(|bars|)
  {
    forall k | 0 <= k < |bars|
      ensures Highlights(s, bars)[k] == Sorted
    {
      RangeMember(0, |s.values|, k);
    }
  }

  /** Without a pivot (`-1`) no bar is ever coloured as the pivot. */
  lemma NoPivotNoPivotBar(s: StepState, index: int)
    requires s.pivot == NoPivot && 0 <= index
    ensures BarClassOf(s, index) != Pivot
  {
  }

  // ----- the state machine -----

  /** The metrics `onStep` receives for each of `steps[from..to]`, in order. */
  function MetricsOf(steps: seq<StepState>, from: nat, to: nat): (r: seq<Metrics>)
    requires from <= to <= |steps|
    ensures |r| == to - from
    ensures forall k :: 0 <= k < |r| ==> r[k] == Metrics(steps[from + k].comparisons, steps[from + k].swaps)
    decreases |steps| - from
  {
    if from == to then [] else [Metrics(steps[from].comparisons, steps[from].swaps)] + MetricsOf(steps, from + 1, to)
  }

  /**
   * A single frame chain: a paused controller has no pending tick, a
   * pending tick has a generator to pull from, and the cursor is within
   * its snapshots.
   */
  ghost predicate Inv(c: Controller) {
    (c.isPaused ==> !c.pending) &&
    (c.pending ==> c.generator.Some?) &&
    (c.generator.Some? ==> c.generator.value.pos <= |c.generator.value.steps|)
  }

  /** The state before anything is rendered. */
  const Blank := Controller([], [], [], false, false, None, false, false, [], 0)

  /** `render(values)`: both data copies replaced, one plain bar per value. */
  function Rendered(c: Controller, values: seq<int>): (r: Controller)
    requires Inv(c)
    ensures Inv(r) && r.data == values && r.originalData == values && r.bars == PlainBars(|values|)
    ensures r.isPaused == c.isPaused && r.pending == c.pending && r.generator == c.generator
  {
    c.(data := values, originalData := values, bars := PlainBars(|values|))
  }

  /** `animate(generator, onStep, onComplete)`: not paused, first tick pending. */
  function Animated(c: Controller, steps: seq<StepState>, onStep: bool, onComplete: bool): (r: Controller)
    requires Inv(c) && !c.pending
    ensures Inv(r) && !r.isPaused && r.pending && r.generator == Some(Cursor(steps, 0))
    ensures r.data == c.data && r.bars == c.bars && r.reported == c.reported && r.completions == c.completions
  {
    c.(generator := Some(Cursor(steps, 0)), onStep := onStep, onComplete := onComplete,
       isPaused := false, pending := true)
  }

  /**
   * The frame callback `step()`: when paused, nothing; when the generator
   * is exhausted, every bar sorted, `onComplete` called if supplied and no
   * tick scheduled; otherwise one snapshot pulled and shown, its metrics
   * reported if `onStep` was supplied, and the next tick scheduled.
   */
  function Ticked(c: Controller): (r: Controller)
    requires Inv(c) && (c.isPaused || c.generator.Some?)
    ensures Inv(r) && (r.isPaused || r.generator.Some?)
    ensures c.isPaused ==> r == c
    ensures !c.isPaused ==> !r.isPaused && r.onStep == c.onStep && r.onComplete == c.onComplete
  {
    if c.isPaused then c
    else
      var g := c.generator.value;
      if g.pos == |g.steps| then
        c.(bars := AllSorted(|c.bars|), pending := false,
           completions := c.completions + if c.onComplete then 1 else 0)
      else
        var s := g.steps[g.pos];
        c.(generator := Some(g.(pos := g.pos + 1)),
           bars := Highlights(s, c.bars), data := s.values,
           reported := c.reported + if c.onStep then [Metrics(s.comparisons, s.swaps)] else [],
           pending := true)
  }

  /** `pause()`: paused, pending tick cancelled, generator kept. */
  function Paused(c: Controller): (r: Controller)
    requires Inv(c)
    ensures Inv(r) && r.isPaused && !r.pending && r.generator == c.generator
    ensures r.data == c.data && r.bars == c.bars && r.reported == c.reported && r.completions == c.completions
  {
    c.(isPaused := true, pending := false)
  }

  /** `resume()`: without a generator nothing; otherwise unpaused with a tick pending. */
  function Resumed(c: Controller): (r: Controller)
    requires Inv(c) && !c.pending
    ensures Inv(r) && r.generator == c.generator
    ensures c.generator.None? ==> r == c
    ensures c.generator.Some? ==> !r.isPaused && r.pending
    ensures r.data == c.data && r.bars == c.bars && r.reported == c.reported && r.completions == c.completions
  {
    if c.generator.None? then c else c.(isPaused := false, pending := true)
  }

  /** `stop()`: unpaused, pending tick cancelled, generator dropped. */
  function Stopped(c: Controller): (r: Controller)
    requires Inv(c)
    ensures Inv(r) && !r.isPaused && !r.pending && r.generator.None?
    ensures r.data == c.data && r.originalData == c.originalData && r.bars == c.bars
  {
    c.(isPaused := false, pending := false, generator := None)
  }

  /** `reset()`: `stop()` then `render(originalData)`. */
  function ResetTo(c: Controller): (r: Controller)
    requires Inv(c)
    ensures Inv(r) && !r.isPaused && !r.pending && r.generator.None?
    ensures r.data == c.originalData && r.originalData == c.originalData
  {
    Rendered(Stopped(c), c.originalData)
  }

  /** `k` frames in a row. */
  function TickedN(c: Controller, k: nat): (r: Controller)
    requires Inv(c) && (c.isPaused || c.generator.Some?)
    ensures Inv(r) && (r.isPaused || r.generator.Some?)
    decreases k
  {
    if k == 0 then c else TickedN(Ticked(c), k - 1)
  }

  // ----- properties of the state machine -----

  /** Any number of frames after `pause()` leave the controller, and so the generator's position, as paused. */
  lemma {:induction false} PausedTicksConsumeNothing(c: Controller, k: nat)
    requires Inv(c)
    ensures TickedN(Paused(c), k) == Paused(c)
    decreases k
  {
    if k > 0 {
      PausedTicksConsumeNothing(c, k - 1);
    }
  }

  /** `pause()` then `resume()` continues from the same snapshot, with a tick pending again. */
  lemma PauseThenResume(c: Controller)
    requires Inv(c) && c.generator.Some?
    ensures Resumed(Paused(c)) == c.(isPaused := false, pending := true)
  {
  }

  /** After `stop()` a `resume()` changes nothing. */
  lemma StopThenResume(c: Controller)
    requires Inv(c)
    ensures Resumed(Stopped(c)) == Stopped(c)
  {
  }

  /** The controller plays `steps` unpaused and has yielded `pos` of them. */
  ghost predicate PlayingAt(c: Controller, steps: seq<StepState>, pos: nat) {
    !c.isPaused && c.generator == Some(Cursor(steps, pos))
  }

  /** `r` plays the same run as `c`, with the same callbacks, and has yielded `pos` snapshots. */
  ghost predicate Continues(c: Controller, r: Controller, steps: seq<StepState>, pos: nat) {
    Inv(r) && PlayingAt(r, steps, pos) &&
    r.onStep == c.onStep && r.onComplete == c.onComplete && r.completions == c.completions
  }

  /** One frame while playing and not exhausted shows the next snapshot. */
  lemma TickShows(c: Controller, steps: seq<StepState>, pos: nat)
    requires Inv(c) && PlayingAt(c, steps, pos) && pos < |steps|
    ensures Continues(c, Ticked(c), steps, pos + 1)
    ensures Ticked(c).pending && Ticked(c).data == steps[pos].values
    ensures Ticked(c).reported == c.reported + (if c.onStep then [Metrics(steps[pos].comparisons, steps[pos].swaps)] else [])
  {
  }

  /** The frame after the last snapshot marks every bar sorted, calls `onComplete` once and schedules nothing. */
  lemma TickDone(c: Controller, steps: seq<StepState>)
    requires Inv(c) && PlayingAt(c, steps, |steps|)
    ensures Ticked(c).bars == AllSorted(|c.bars|) && !Ticked(c).pending
    ensures Ticked(c).reported == c.reported
    ensures Ticked(c).completions == c.completions + if c.onComplete then 1 else 0
  {
  }

  /** While playing, `k` frames advance the cursor by `k` and call no callback but `onStep`. */
  lemma {:induction false} TicksAdvance(c: Controller, steps: seq<StepState>, pos: nat, k: nat)
    requires Inv(c) && PlayingAt(c, steps, pos) && pos + k <= |steps|
    ensures Continues(c, TickedN(c, k), steps, pos + k)
    decreases k
  {
    if k > 0 {
      TickShows(c, steps, pos);
      TicksAdvance(Ticked(c), steps, pos + 1, k - 1);
    }
  }

  /** Concatenation is associative; spelled out because the solver does not find it unaided here. */
  lemma AppendAssoc<T>(a: seq<T>, b: seq<T>, c: seq<T>)
    ensures (a + b) + c == a + (b + c)
  {
  }

  /** While playing with `onStep` supplied, `k` frames hand it the metrics of the next `k` snapshots, in order. */
  lemma {:induction false} TicksReport(c: Controller, steps: seq<StepState>, pos: nat, k: nat)
    requires Inv(c) && PlayingAt(c, steps, pos) && pos + k <= |steps| && c.onStep
    ensures TickedN(c, k).reported == c.reported + MetricsOf(steps, pos, pos + k)
    decreases k
  {
    if k > 0 {
      var next := Ticked(c);
      TickShows(c, steps, pos);
      TicksReport(next, steps, pos + 1, k - 1);
      var m := Metrics(steps[pos].comparisons, steps[pos].swaps);
      var later := MetricsOf(steps, pos + 1, pos + k);
      assert MetricsOf(steps, pos + 1, pos + 1 + (k - 1)) == later;
      assert TickedN(next, k - 1).reported == next.reported + later;
      assert MetricsOf(steps, pos, pos + k) == [m] + later;
      AppendAssoc(c.reported, [m], later);
    }
  }

  /** While playing without `onStep`, frames report nothing. */
  lemma {:induction false} TicksReportNothing(c: Controller, steps: seq<StepState>, pos: nat, k: nat)
    requires Inv(c) && PlayingAt(c, steps, pos) && pos + k <= |steps| && !c.onStep
    ensures TickedN(c, k).reported == c.reported
    decreases k
  {
    if k > 0 {
      TickShows(c, steps, pos);
      TicksReportNothing(Ticked(c), steps, pos + 1, k - 1);
    }
  }

  /**
   * While playing, the frame that shows snapshot `last` leaves its array
   * as the data and schedules the next frame.
   */
  lemma {:induction false} TicksShowLast(c: Controller, steps: seq<StepState>, pos: nat, last: nat)
    requires Inv(c) && PlayingAt(c, steps, pos) && pos <= last < |steps|
    ensures TickedN(c, last - pos + 1).pending && TickedN(c, last - pos + 1).data == steps[last].values
    decreases last - pos
  {
    var next := Ticked(c);
    TickShows(c, steps, pos);
    assert TickedN(c, last - pos + 1) == TickedN(next, last - pos + 1 - 1);
    if pos < last {
      TicksShowLast(next, steps, pos + 1, last);
      assert last - (pos + 1) + 1 == last - pos + 1 - 1;
    }
  }

  /**
   * Playing from snapshot `pos` to the end: one frame per remaining
   * snapshot plus one report every remaining snapshot's metrics to
   * `onStep` (if supplied) in order, call `onComplete` (if supplied)
   * exactly once, mark every bar sorted and schedule nothing more.
   */
  lemma {:induction false} PlayFrom(c: Controller, steps: seq<StepState>, pos: nat)
    requires Inv(c) && PlayingAt(c, steps, pos) && pos <= |steps|
    ensures var r := TickedN(c, |steps| - pos + 1);
      r.reported == c.reported + (if c.onStep then MetricsOf(steps, pos, |steps|) else []) &&
      r.completions == c.completions + (if c.onComplete then 1 else 0) &&
      r.bars == AllSorted(|c.bars|) && !r.pending
    decreases |steps| - pos
  {
    if pos == |steps| {
      TickDone(c, steps);
    } else {
      var next := Ticked(c);
      TickShows(c, steps, pos);
      PlayFrom(next, steps, pos + 1);
      if c.onStep {
        var m := Metrics(steps[pos].comparisons, steps[pos].swaps);
        AppendAssoc(c.reported, [m], MetricsOf(steps, pos + 1, |steps|));
      }
    }
  }

  /**
   * Playing a run to its end: after `animate` and one frame per snapshot
   * plus one, every snapshot's metrics went to `onStep` (if supplied) in
   * order, `onComplete` (if supplied) was called exactly once, every bar is
   * sorted, and no further tick is pending.
   */
  lemma PlayToEnd(c: Controller, steps: seq<StepState>, onStep: bool, onComplete: bool)
    requires Inv(c) && !c.pending
    ensures var r := TickedN(Animated(c, steps, onStep, onComplete), |steps| + 1);
      r.reported == c.reported + (if onStep then MetricsOf(steps, 0, |steps|) else []) &&
      r.completions == c.completions + (if onComplete then 1 else 0) &&
      r.bars == AllSorted(|c.bars|) && !r.pending
  {
    PlayFrom(Animated(c, steps, onStep, onComplete), steps, 0);
  }

  /** Frames never change the number of bars. */
  lemma {:induction false} TicksKeepBarCount(c: Controller, k: nat)
    requires Inv(c) && (c.isPaused || c.generator.Some?)
    ensures |TickedN(c, k).bars| == |c.bars|
    decreases k
  {
    if k > 0 {
      TicksKeepBarCount(Ticked(c), k - 1);
    }
  }

  // ----- the controller object -----

  class Chart {
    var data: seq<int>
    var originalData: seq<int>
    var bars: seq<Highlight>
    var isPaused: bool
    /** `animationId !== null` for a frame not yet run. */
    var pending: bool
    var generator: Option<Cursor>
    var onStep: bool
    var onComplete: bool
    /** Everything `onStep` has received. */
    var reported: seq<Metrics>
    /** How many times `onComplete` has been called. */
    var completions: nat

    ghost function State(): Controller
      reads this
    {
      Controller(data, originalData, bars, isPaused, pending, generator, onStep, onComplete, reported, completions)
    }

    ghost predicate Valid()
      reads this
    {
      Inv(State())
    }

    constructor ()
      ensures Valid() && State() == Blank
    {
      data, originalData, bars := [], [], [];
      isPaused, pending, generator := false, false, None;
      onStep, onComplete, reported, completions := false, false, [], 0;
    }

    /** `render(dataArray)` on a mounted container. */
    method Render(values: seq<int>)
      requires Valid()
      modifies this
      ensures Valid() && State() == Rendered(old(State()), values)
    {
      data := values;
      originalData := values;
      bars := PlainBars(|values|);
    }

    /** `updateBars(state)`: recolour every bar that has a value, then take the snapshot's array as `data`. */
    method UpdateBars(s: StepState)
      modifies this
      ensures State() == old(State()).(bars := Highlights(s, old(bars)), data := s.values)
    {
      var newBars := bars;
      var index := 0;
      while index < |s.values|
        invariant 0 <= index <= |s.values| && |newBars| == |bars|
        invariant forall k :: 0 <= k < |newBars| ==>
          newBars[k] == if k < index && k < |s.values| then BarClassOf(s, k) else bars[k]
      {
        if index < |newBars| {
          newBars := newBars[index := BarClassOf(s, index)];
        }
        index := index + 1;
      }
      bars := newBars;
      data := s.values;
    }

    /** `animate(sortGenerator, stepCallback, completeCallback)`, with no frame chain already running. */
    method Animate(steps: seq<StepState>, stepCallback: bool, completeCallback: bool)
      requires Valid() && !pending
      modifies this
      ensures Valid() && State() == Animated(old(State()), steps, stepCallback, completeCallback)
    {
      generator := Some(Cursor(steps, 0));
      onStep := stepCallback;
      onComplete := completeCallback;
      isPaused := false;
      pending := true;
    }

    /** One run of the frame callback `step()`. */
    method Tick()
      requires Valid() && (isPaused || generator.Some?)
      modifies this
      ensures Valid() && State() == Ticked(old(State()))
    {
      if isPaused {
        return;
      }
      var g := generator.value;
      if g.pos == |g.steps| {
        bars := AllSorted(|bars|);
        pending := false;
        if onComplete {
          completions := completions + 1;
        }
        return;
      }
      var s := g.steps[g.pos];
      generator := Some(g.(pos := g.pos + 1));
      UpdateBars(s);
      if onStep {
        reported := reported + [Metrics(s.comparisons, s.swaps)];
      }
      pending := true;
    }

    method Pause()
      requires Valid()
      modifies this
      ensures Valid() && State() == Paused(old(State()))
    {
      isPaused := true;
      if pending {
        pending := false;
      }
    }

    /** `resume()`, with no frame chain already running. */
    method Resume()
      requires Valid() && !pending
      modifies this
      ensures Valid() && State() == Resumed(old(State()))
    {
      if generator.None? {
        return;
      }
      isPaused := false;
      pending := true;
    }

    method Stop()
      requires Valid()
      modifies this
      ensures Valid() && State() == Stopped(old(State()))
    {
      isPaused := false;
      if pending {
        pending := false;
      }
      generator := None;
    }

    method Reset()
      requires Valid()
      modifies this
      ensures Valid() && State() == ResetTo(old(State()))
    {
      Stop();
      Render(originalData);
    }

    /** `getData()`: a copy of the current data. */
    method GetData() returns (d: seq<int>)
      ensures d == data
    {
      d := data;
    }

    /** `getOriginalData()`: a copy of the data last rendered or set. */
    method GetOriginalData() returns (d: seq<int>)
      ensures d == originalData
    {
      d := originalData;
    }

    method GetIsPaused() returns (p: bool)
      ensures p == isPaused
    {
      p := isPaused;
    }

    /** `setData(newData)`: both copies replaced, then rendered. */
    method SetData(newData: seq<int>)
      requires Valid()
      modifies this
      ensures Valid() && State() == Rendered(old(State()), newData)
    {
      data := newData;
      originalData := newData;
      Render(data);
    }
  }
}
