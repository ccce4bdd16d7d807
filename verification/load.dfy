/**
 * The load sampler: `CPU::currentLoadPercentage` compares two snapshots of
 * the kernel's jiffies counters (total, work) and keeps the later one as the
 * baseline of the next call.
 *
 * The reads of `/proc/stat` (`filesystem::get_jiffies`) are parameters: a
 * call receives the snapshot it would read to establish a baseline (used
 * only when it has none) and the snapshot it reads afterwards. The
 * one-second sleep between the two reads has no logical content and is not
 * modelled.
 */
module Load {
  import opened Wrappers

  /** A `/proc/stat` snapshot: all jiffies, and all but idle and iowait. */
  datatype Jiffies = Jiffies(all: int, work: int)

  /** The "no baseline yet" state: both stored sums are -1. */
  const NoBaseline: Jiffies := Jiffies(-1, -1)

  predicate HasBaseline(state: Jiffies) {
    state.all != -1 && state.work != -1
  }

  /** The sampling window one call measures. */
  datatype Window = Window(rebaselined: bool, start: Jiffies, end: Jiffies) {
    function TotalDelta(): int { end.all - start.all }
    function WorkDelta(): int { end.work - start.work }
  }

  /**
   * The window a call measures from the stored `state`: it starts at the
   * stored baseline, or at the freshly read `first` snapshot when either
   * stored sum is -1, and it ends at `second`.
   */
  function Sample(state: Jiffies, first: Jiffies, second: Jiffies): (w: Window)
    ensures w.rebaselined <==> !HasBaseline(state)
    ensures w.end == second
    ensures !w.rebaselined ==> w.start == state
    ensures w.rebaselined ==> w.start == first
  {
    if HasBaseline(state) then Window(false, state, second) else Window(true, first, second)
  }

  /**
   * `work_over_period / total_over_period * 100.0`, over the reals; `None`
   * when the total did not advance, where the source divides by zero.
   */
  function Percentage(w: Window): (load: Option<real>)
    ensures load.None? <==> w.TotalDelta() == 0
  {
    if w.TotalDelta() == 0 then None
    else Some(w.WorkDelta() as real / w.TotalDelta() as real * 100.0)
  }

  /**
   * A window in which work advanced by no more than the total lies in
   * [0, 100].
   */
  lemma PercentageInRange(w: Window)
    requires 0 <= w.WorkDelta() <= w.TotalDelta() && w.TotalDelta() > 0
    ensures Percentage(w).Some?
    ensures 0.0 <= Percentage(w).value <= 100.0
  {
    var t := w.TotalDelta() as real;
    var k := w.WorkDelta() as real;
    var q := k / t;
    assert q * t == k;
  }

  /** The worked example: baseline (1000, 400), current (1200, 460) gives 30%. */
  lemma ThirtyPercent()
    ensures Percentage(Sample(Jiffies(1000, 400), Jiffies(0, 0), Jiffies(1200, 460))) == Some(30.0)
  {
    var w := Sample(Jiffies(1000, 400), Jiffies(0, 0), Jiffies(1200, 460));
    assert w.TotalDelta() == 200 && w.WorkDelta() == 60;
    assert 60.0 / 200.0 == 0.3;
  }

  /** The two snapshots one call receives. */
  datatype Call = Call(first: Jiffies, second: Jiffies)

  /**
   * The windows measured by a run of calls, each call given its pair of
   * snapshots, starting from the stored `state`.
   */
  function Run(state: Jiffies, calls: seq<Call>): (ws: seq<Window>)
    ensures |ws| == |calls|
    ensures forall i :: 0 <= i < |ws| ==> ws[i].end == calls[i].second
    decreases |calls|
  {
    if calls == [] then []
    else [Sample(state, calls[0].first, calls[0].second)] + Run(calls[0].second, calls[1..])
  }

  /**
   * The windows advance: once a call has stored a snapshot with no -1 in it,
   * the next call measures from exactly that snapshot, so the windows of a
   * run are contiguous and their total deltas add up to the distance from
   * the first window's start to the last snapshot.
   */
  lemma {:induction false} RunTelescopes(state: Jiffies, calls: seq<Call>)
    requires |calls| > 0
    requires forall i :: 0 <= i < |calls| - 1 ==> HasBaseline(calls[i].second)
    ensures forall i :: 0 < i < |calls| ==> Run(state, calls)[i].start == calls[i - 1].second
    ensures SumTotal(Run(state, calls)) == calls[|calls| - 1].second.all - Run(state, calls)[0].start.all
    decreases |calls|
  {
    var ws := Run(state, calls);
    if |calls| > 1 {
      var rest := calls[1..];
      RunTelescopes(calls[0].second, rest);
      assert ws[1..] == Run(calls[0].second, rest);
      assert ws[1].start == calls[0].second;
      assert SumTotal(ws) == ws[0].TotalDelta() + SumTotal(ws[1..]);
    } else {
      assert SumTotal(ws) == ws[0].TotalDelta() + SumTotal(ws[1..]);
    }
  }

  function SumTotal(ws: seq<Window>): int {
    if ws == [] then 0 else ws[0].TotalDelta() + SumTotal(ws[1..])
  }

  /**
   * The mutable sampling state of hwinfo's `CPU` object: the two baseline
   * sums (`_last_sum_all_jiffies`, `_last_sum_work_jiffies`).
   */
  class CPU {
    var lastSumAllJiffies: int
    var lastSumWorkJiffies: int

    function State(): Jiffies
      reads this
    {
      Jiffies(lastSumAllJiffies, lastSumWorkJiffies)
    }

    /** A CPU as the parser prepares it before its first load query. */
    constructor ()
      ensures State() == NoBaseline
    {
      lastSumAllJiffies := -1;
      lastSumWorkJiffies := -1;
    }

    /**
     * `CPU::currentLoadPercentage`. `first` is the snapshot read (before the
     * one-second sleep) when either stored sum is -1; `second` is the
     * snapshot read afterwards. Reports whether the baseline was read, and
     * leaves `second` as the stored baseline.
     */
    method CurrentLoadPercentage(first: Jiffies, second: Jiffies) returns (load: Option<real>, baselineRead: bool)
      modifies this
      ensures baselineRead <==> (old(lastSumAllJiffies) == -1 || old(lastSumWorkJiffies) == -1)
      ensures lastSumAllJiffies == second.all && lastSumWorkJiffies == second.work
      ensures !baselineRead ==> load == Percentage(Window(false, old(State()), second))
      ensures baselineRead ==> load == Percentage(Window(true, first, second))
      ensures load == Percentage(Sample(old(State()), first, second))
    {
      baselineRead := false;
      if lastSumAllJiffies == -1 || lastSumWorkJiffies == -1 {
        lastSumAllJiffies, lastSumWorkJiffies := first.all, first.work;
        baselineRead := true;
      }
      var w := Window(baselineRead, Jiffies(lastSumAllJiffies, lastSumWorkJiffies), second);
      lastSumAllJiffies, lastSumWorkJiffies := second.all, second.work;
      load := Percentage(w);
    }
  }
}
