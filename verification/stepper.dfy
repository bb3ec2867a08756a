/**
 * The private state that every sorting generator keeps between two yields:
 * its working copy of the input, the `sorted` index list, the two counters,
 * and the trace of snapshots yielded so far. The events a generator yields
 * on (a comparison, an exchange, a single write, a plain display) are the
 * methods of `Run`; each appends exactly one snapshot, taken by value.
 */
module Stepper {
  import opened Snapshots

  class Run {
    /** The caller's sequence; the run never changes it. */
    ghost const input: seq<int>
    /** The working copy (`const array = [...inputArray]`). */
    const a: array<int>
    var sorted: seq<int>
    var comparisons: nat
    var swaps: nat
    /** Every snapshot yielded so far, in order. */
    var trace: seq<StepState>

    /**
     * The working array is what the last snapshot shows, every snapshot so
     * far follows from its predecessor, and the counters are exact.
     */
    ghost predicate Valid()
      reads this`trace, this`comparisons, this`swaps, a
    {
      a.Length == |input| &&
      a[..] == Current(input, trace) &&
      Causal(input, trace) &&
      Counted(trace) &&
      comparisons == Comparisons(trace) && swaps == Swaps(trace)
    }

    constructor (input: seq<int>)
      ensures Valid() && fresh(a)
      ensures this.input == input && a[..] == input
      ensures sorted == [] && trace == [] && comparisons == 0 && swaps == 0
    {
      this.input := input;
      a := new int[|input|](i requires 0 <= i < |input| => input[i]);
      sorted := [];
      comparisons := 0;
      swaps := 0;
      trace := [];
    }

    /** The snapshot `{ array: [...array], comparing, swapped, sorted: [...sorted], pivot, metrics }`. */
    function Snapshot(comparing: seq<int>, swapped: seq<int>, pivot: int): (s: StepState)
      reads this, a
      ensures s.values == a[..] && s.sorted == sorted
      ensures s.comparisons == comparisons && s.swaps == swaps
    {
      StepState(a[..], comparing, swapped, sorted, pivot, comparisons, swaps)
    }

    /** `comparisons++` then yield with `comparing: [x, y]`. */
    method Compare(x: int, y: int, pivot: int)
      requires Valid()
      requires 0 <= x < a.Length && 0 <= y < a.Length
      modifies this
      ensures Valid()
      ensures comparisons == old(comparisons) + 1 && swaps == old(swaps) && sorted == old(sorted)
      ensures trace == old(trace) + [Snapshot([x, y], [], pivot)]
    {
      comparisons := comparisons + 1;
      var s := Snapshot([x, y], [], pivot);
      CausalAppend(input, trace, s);
      CountedAppend(trace, s);
      trace := trace + [s];
    }

    /** Exchange `array[x]` and `array[y]`, `swaps++`, then yield with `swapped: [x, y]`. */
    method Exchange(x: int, y: int, pivot: int)
      requires Valid()
      requires 0 <= x < a.Length && 0 <= y < a.Length
      modifies this, a
      ensures Valid()
      ensures a[..] == Exchanged(old(a[..]), x, y)
      ensures comparisons == old(comparisons) && swaps == old(swaps) + 1 && sorted == old(sorted)
      ensures trace == old(trace) + [Snapshot([], [x, y], pivot)]
    {
      ghost var prev := a[..];
      a[x], a[y] := a[y], a[x];
      assert a[..] == Exchanged(prev, x, y);
      swaps := swaps + 1;
      var s := Snapshot([], [x, y], pivot);
      CausalAppend(input, trace, s);
      CountedAppend(trace, s);
      trace := trace + [s];
    }

    /** `array[k] = v`, `swaps++`, then yield with `swapped: [k]` (a merge write). */
    method Write(k: int, v: int)
      requires Valid()
      requires 0 <= k < a.Length
      modifies this, a
      ensures Valid()
      ensures a[..] == old(a[..])[k := v]
      ensures comparisons == old(comparisons) && swaps == old(swaps) + 1 && sorted == old(sorted)
      ensures trace == old(trace) + [Snapshot([], [k], NoPivot)]
    {
      ghost var prev := a[..];
      a[k] := v;
      swaps := swaps + 1;
      var s := Snapshot([], [k], NoPivot);
      CausalAppend(input, trace, s);
      CountedAppend(trace, s);
      trace := trace + [s];
    }

    /** Yield the current state with nothing compared or swapped. */
    method Show(pivot: int)
      requires Valid()
      modifies this
      ensures Valid()
      ensures comparisons == old(comparisons) && swaps == old(swaps) && sorted == old(sorted)
      ensures trace == old(trace) + [Snapshot([], [], pivot)]
    {
      var s := Snapshot([], [], pivot);
      CausalAppend(input, trace, s);
      CountedAppend(trace, s);
      trace := trace + [s];
      assert Current(input, trace) == a[..];
    }

    /** The final yield: `sorted: Array.from({ length: n }, (_, i) => i)`, the field itself untouched. */
    method ShowAll(pivot: int)
      requires Valid()
      modifies this
      ensures Valid()
      ensures comparisons == old(comparisons) && swaps == old(swaps) && sorted == old(sorted)
      ensures trace == old(trace) + [StepState(a[..], [], [], Range(0, a.Length), pivot, comparisons, swaps)]
    {
      var s := StepState(a[..], [], [], Range(0, a.Length), pivot, comparisons, swaps);
      CausalAppend(input, trace, s);
      CountedAppend(trace, s);
      trace := trace + [s];
    }

    /** What the generator returns once exhausted. */
    function Result(): (o: Outcome)
      reads this, a
      requires Valid() && trace != []
      ensures o.values == Last(trace).values
      ensures o.comparisons == Last(trace).comparisons && o.swaps == Last(trace).swaps
    {
      Outcome(a[..], comparisons, swaps)
    }
  }

  /**
   * Compare `array[j]` with `array[j+1]` and exchange them when the left one
   * is strictly greater: the inner step of bubble and insertion sort.
   */
  method CompareNeighbours(r: Run, j: int) returns (exchanged: bool)
    requires r.Valid() && 0 <= j < r.a.Length - 1 && Disciplined(r.trace)
    modifies r, r.a
    ensures r.Valid() && r.sorted == old(r.sorted) && Disciplined(r.trace)
    ensures exchanged == (old(r.a[j]) > old(r.a[j + 1]))
    ensures r.a[..] == if exchanged then Exchanged(old(r.a[..]), j, j + 1) else old(r.a[..])
    ensures r.comparisons == old(r.comparisons) + 1
    ensures r.swaps == old(r.swaps) + if exchanged then 1 else 0
    ensures |r.trace| > |old(r.trace)| && r.trace[..|old(r.trace)|] == old(r.trace)
  {
    ghost var t0 := r.trace;
    r.Compare(j, j + 1, NoPivot);
    NeighbourAppend(t0, Last(r.trace));
    exchanged := false;
    if r.a[j] > r.a[j + 1] {
      ghost var t1 := r.trace;
      r.Exchange(j, j + 1, NoPivot);
      NeighbourAppend(t1, Last(r.trace));
      exchanged := true;
    }
  }

  /**
   * `for (k = 0; k < m; k++) if (!sorted.includes(k)) sorted.push(k)` while
   * `sorted` lists `m .. n-1`: bubble sort's early exit (`m = n-i-1`) and
   * merge sort's marking after the final merge (`m = n`, nothing listed).
   */
  method MarkPrefixSorted(r: Run, m: int)
    requires 0 <= m <= r.a.Length && r.sorted == Range(m, r.a.Length)
    modifies r`sorted
    ensures r.sorted == Range(m, r.a.Length) + Range(0, m)
  {
    var k := 0;
    while k < m
      invariant 0 <= k <= m
      invariant r.sorted == Range(m, r.a.Length) + Range(0, k)
    {
      if k !in r.sorted {
        r.sorted := r.sorted + [k];
      } else {
        assert false;
      }
      k := k + 1;
    }
  }
}
