/** The fixed-grid release schedule: steps are released at multiples of the step size, never in the past, and lateness is accounted for. */
module ReleaseSchedule {
  import opened Arithmetic
  import opened Bytes

  // ---- Grid points ----

  /** The index of the first grid point not before `t`. */
  function Ceil(t: nat, step: nat): nat
    requires step > 0
  {
    t / step + if t % step != 0 then 1 else 0
  }

  lemma FloorIsGreatest(t: nat, step: nat, k: nat)
    requires step > 0
    ensures k * step <= t <==> k <= t / step
  {
    var q, r := t / step, t % step;
    assert t == q * step + r;
    if k <= q {
      assert q * step == k * step + (q - k) * step;
      Multiple(q - k, step);
    } else {
      assert k * step == (q + 1) * step + (k - q - 1) * step;
      assert (q + 1) * step == q * step + step;
      Multiple(k - q - 1, step);
    }
  }

  lemma CeilIsLeast(t: nat, step: nat, k: nat)
    requires step > 0
    ensures k * step >= t <==> k >= Ceil(t, step)
  {
    var q, r := t / step, t % step;
    assert t == q * step + r;
    if k > q {
      FloorIsGreatest(t, step, k);
    } else if k == q {
    } else {
      assert q * step == k * step + (q - k) * step;
      Multiple(q - k, step);
    }
  }

  lemma CeilFits(t: Word64, step: nat)
    requires step > 0
    ensures 0 <= t / step <= Ceil(t, step) <= t
    ensures Ceil(t, step) == if t % step == 0 then t / step else t / step + 1
  {
    CeilIsLeast(t, step, t);
    Multiple(step, t);
  }

  function Max(x: nat, y: nat): nat { if x < y then y else x }

  // ---- The counters, as unbounded numbers ----

  datatype Counters = Counters(step: nat, index: nat, unused: nat, late: nat, maxLateness: nat)

  function Start(step: nat): Counters { Counters(step, 0, 0, 0, 0) }

  /** Waking at `now`: the next release moves up to the first grid point not before `now`, unless it is there already. */
  function Advanced(c: Counters, now: nat): Option<Counters> {
    if c.step == 0 then None
    else
      var release := c.index * c.step;
      if (if now <= release then release >= WORD64_MAX else Ceil(now, c.step) >= WORD64_MAX) then None
      else
        var index := Max(c.index, Ceil(now, c.step));
        Some(c.(index := index, unused := c.unused + (index - c.index)))
  }

  function Lateness(c: Counters, completion: nat): int { completion - (c.index + 1) * c.step }

  /** Completing the released step: its deadline is the next grid point, the next release the first one still to come. */
  function Completed(c: Counters, completion: nat): Option<Counters> {
    if c.step == 0 || c.index >= WORD64_MAX || (c.index + 1) * c.step > WORD64_MAX then None
    else
      var late := Lateness(c, completion);
      var index := Max(c.index + 1, Ceil(completion, c.step));
      Some(c.(index := index, unused := c.unused + (index - c.index - 1),
              late := c.late + (if late > 0 then 1 else 0),
              maxLateness := if late > c.maxLateness then late else c.maxLateness))
  }

  /** A completion is refused exactly when its deadline does not fit in 64 bits, however late it comes. */
  lemma CompletionMeans(c: Counters, completion: nat, k: nat)
    ensures Completed(c, completion).Some? <==> c.step > 0 && (c.index + 1) * c.step <= WORD64_MAX
    ensures Completed(c, completion).Some? ==>
      var next := Completed(c, completion).value; var deadline := (c.index + 1) * c.step;
      && next.step == c.step
      && (k >= next.index <==> k > c.index && k * c.step >= completion)
      && next.unused == c.unused + (next.index - c.index - 1)
      && next.late == c.late + (if completion > deadline then 1 else 0)
      && next.maxLateness == Max(c.maxLateness, if completion > deadline then completion - deadline else 0)
  {
    if c.step > 0 {
      Multiple(c.step, c.index + 1);
      CeilIsLeast(completion, c.step, k);
    }
  }

  /** A wake-up is refused exactly when the release it would move to is not below the largest 64-bit number or index. */
  lemma AdvanceMeans(c: Counters, now: nat, k: nat)
    ensures Advanced(c, now).Some? <==>
      c.step > 0 && if now <= c.index * c.step then c.index * c.step < WORD64_MAX else now <= (WORD64_MAX - 1) * c.step
    ensures Advanced(c, now).Some? ==>
      var next := Advanced(c, now).value;
      && next == c.(index := next.index, unused := c.unused + (next.index - c.index))
      && (k >= next.index <==> k >= c.index && k * c.step >= now)
  {
    if c.step > 0 {
      CeilIsLeast(now, c.step, k);
      CeilIsLeast(now, c.step, WORD64_MAX - 1);
    }
  }

  // ---- Runs ----

  datatype Call = Advance(now: Word64) | Complete(completion: Word64)

  /** A completed step: where it was released and when it completed. */
  datatype Done = Done(index: nat, completion: nat)

  /** `bound` is the latest of the last completion and the wake-ups since. */
  datatype History = History(counters: Counters, steps: seq<Done>, bound: nat)

  function Begin(step: nat): History { History(Start(step), [], 0) }

  function Step(h: History, call: Call): History {
    match call
    case Advance(now) =>
      var next := Advanced(h.counters, now);
      if next.None? then h else History(next.value, h.steps, Max(h.bound, now))
    case Complete(completion) =>
      var next := Completed(h.counters, completion);
      if next.None? then h else History(next.value, h.steps + [Done(h.counters.index, completion)], completion)
  }

  function Run(h: History, calls: seq<Call>): History
    decreases |calls|
  {
    if calls == [] then h else Run(Step(h, calls[0]), calls[1..])
  }

  function LateBy(d: Done, step: nat): int { d.completion - (d.index + 1) * step }

  function LateCount(steps: seq<Done>, step: nat): nat {
    if steps == [] then 0
    else LateCount(steps[..|steps| - 1], step) + if LateBy(steps[|steps| - 1], step) > 0 then 1 else 0
  }

  /** `m` is the largest lateness, or zero when no step was late. */
  ghost predicate IsMaxLateness(steps: seq<Done>, step: nat, m: nat) {
    && (forall i :: 0 <= i < |steps| ==> LateBy(steps[i], step) <= m)
    && (m == 0 || exists i :: 0 <= i < |steps| && LateBy(steps[i], step) == m)
  }

  /** The first index that follows every completed step. */
  function After(steps: seq<Done>): nat { if steps == [] then 0 else steps[|steps| - 1].index + 1 }

  ghost predicate Accounted(h: History) {
    var c := h.counters;
    && c.step > 0
    && c.index == |h.steps| + c.unused
    && c.late == LateCount(h.steps, c.step) <= c.unused
    && IsMaxLateness(h.steps, c.step, c.maxLateness)
  }

  ghost predicate OnGrid(h: History) {
    var c := h.counters;
    && c.step > 0
    && (forall i, j :: 0 <= i < j < |h.steps| ==> h.steps[i].index < h.steps[j].index)
    && (forall i :: 0 <= i < |h.steps| ==> h.steps[i].index < c.index)
    && c.index == Max(After(h.steps), Ceil(h.bound, c.step))
  }

  lemma CeilMax(x: nat, y: nat, step: nat)
    requires step > 0
    ensures Ceil(Max(x, y), step) == Max(Ceil(x, step), Ceil(y, step))
  {
    var low, high := if x < y then x else y, Max(x, y);
    CeilIsLeast(high, step, Ceil(high, step));
    CeilIsLeast(low, step, Ceil(high, step));
  }

  lemma StepKeepsGrid(h: History, call: Call)
    requires OnGrid(h)
    ensures OnGrid(Step(h, call)) && Step(h, call).counters.step == h.counters.step
  {
    hide Ceil;
    if call.Advance? {
      CeilMax(h.bound, call.now, h.counters.step);
    }
  }

  lemma StepKeepsAccounts(h: History, call: Call)
    requires Accounted(h)
    ensures Accounted(Step(h, call))
  {
    hide IsMaxLateness;
    var c := h.counters;
    if call.Complete? && Completed(c, call.completion).Some? {
      var done := Done(c.index, call.completion);
      assert (h.steps + [done])[..|h.steps|] == h.steps;
      CeilIsLeast(call.completion, c.step, c.index + 1);
      MaxLatenessGrows(h.steps, done, c.step, c.maxLateness);
    }
  }

  lemma MaxLatenessGrows(steps: seq<Done>, done: Done, step: nat, m: nat)
    requires IsMaxLateness(steps, step, m)
    ensures IsMaxLateness(steps + [done], step, if LateBy(done, step) > m then LateBy(done, step) else m)
  {
    hide LateBy;
    var all := steps + [done];
    assert all[|steps|] == done;
    if LateBy(done, step) <= m && m != 0 {
      var i :| 0 <= i < |steps| && LateBy(steps[i], step) == m;
      assert all[i] == steps[i];
    }
  }

  lemma {:induction false} RunKeeps(h: History, calls: seq<Call>)
    requires Accounted(h) && OnGrid(h)
    ensures Accounted(Run(h, calls)) && OnGrid(Run(h, calls)) && Run(h, calls).counters.step == h.counters.step
    decreases |calls|
  {
    hide Accounted, OnGrid, Step;
    if calls != [] {
      StepKeepsAccounts(h, calls[0]);
      StepKeepsGrid(h, calls[0]);
      RunKeeps(Step(h, calls[0]), calls[1..]);
    }
  }

  /** Over any run, every release is a step or an unused one, and the lateness figures are the true ones. */
  lemma RunAccounts(step: nat, calls: seq<Call>)
    requires step > 0
    ensures var h := Run(Begin(step), calls); var c := h.counters;
      && c.index == |h.steps| + c.unused
      && c.late == LateCount(h.steps, step) <= c.unused
      && IsMaxLateness(h.steps, step, c.maxLateness)
  {
    RunKeeps(Begin(step), calls);
  }

  /**
   * Over any run, steps are released at increasing grid points, and the next release is the first one that comes after
   * the last step and not before the last completion or any wake-up since.
   */
  lemma ReleasesAreEarliest(step: nat, calls: seq<Call>, k: nat)
    requires step > 0
    ensures var h := Run(Begin(step), calls);
      && (forall i, j :: 0 <= i < j < |h.steps| ==> h.steps[i].index < h.steps[j].index)
      && (k >= h.counters.index <==> k >= After(h.steps) && k * step >= h.bound)
  {
    RunKeeps(Begin(step), calls);
    CeilIsLeast(Run(Begin(step), calls).bound, step, k);
  }

  // ---- Which calls count ----

  /** The next deadline fits in 64 bits. */
  predicate DeadlineFits(c: Counters) { c.step > 0 && (c.index + 1) * c.step <= WORD64_MAX }

  /** The completions of a run whose deadline fits, in order. */
  function FittingCompletions(h: History, calls: seq<Call>): seq<nat>
    decreases |calls|
  {
    if calls == [] then []
    else
      var first := if calls[0].Complete? && DeadlineFits(h.counters) then [calls[0].completion] else [];
      first + FittingCompletions(Step(h, calls[0]), calls[1..])
  }

  function Completions(steps: seq<Done>): seq<nat> {
    seq(|steps|, i requires 0 <= i < |steps| => steps[i].completion)
  }

  /** A run's steps are exactly its completions with a deadline that fits, late ones included. */
  lemma {:induction false} StepsAreCompletions(h: History, calls: seq<Call>)
    ensures Completions(Run(h, calls).steps) == Completions(h.steps) + FittingCompletions(h, calls)
    decreases |calls|
  {
    hide Advanced, Completed;
    if calls != [] {
      var next := Step(h, calls[0]);
      StepsAreCompletions(next, calls[1..]);
      if calls[0].Complete? {
        CompletionMeans(h.counters, calls[0].completion, 0);
        assert DeadlineFits(h.counters) ==> Completions(next.steps) == Completions(h.steps) + [calls[0].completion];
      }
    }
  }

  /** Every deadline of the run fits. */
  predicate AllFit(h: History, calls: seq<Call>)
    decreases |calls|
  {
    calls == [] || ((calls[0].Complete? ==> DeadlineFits(h.counters)) && AllFit(Step(h, calls[0]), calls[1..]))
  }

  function CompletionsOf(calls: seq<Call>): seq<nat> {
    if calls == [] then [] else (if calls[0].Complete? then [calls[0].completion] else []) + CompletionsOf(calls[1..])
  }

  /** A run whose deadlines fit counts every completion as a step, in order. */
  lemma {:induction false} EveryCompletionCounts(step: nat, calls: seq<Call>)
    requires step > 0 && AllFit(Begin(step), calls)
    ensures var h := Run(Begin(step), calls);
      Completions(h.steps) == CompletionsOf(calls) && |h.steps| == |CompletionsOf(calls)|
  {
    StepsAreCompletions(Begin(step), calls);
    FittingIsAll(Begin(step), calls);
  }

  function TimeOf(call: Call): Word64 { if call.Advance? then call.now else call.completion }

  lemma CeilIsClose(t: nat, step: nat)
    requires step > 0
    ensures Ceil(t, step) * step < t + step
  {
    if Ceil(t, step) > 0 {
      CeilIsLeast(t, step, Ceil(t, step) - 1);
      assert Ceil(t, step) * step == (Ceil(t, step) - 1) * step + step;
    }
  }

  /** What a caller can see beforehand: times that leave room for one step per call and one more make every deadline fit. */
  lemma {:induction false} EarlyTimesFit(h: History, calls: seq<Call>, latest: nat, m: nat)
    requires var c := h.counters;
      c.step > 0 && c.index * c.step <= latest + m * c.step && latest + (m + |calls| + 1) * c.step <= WORD64_MAX
    requires forall i :: 0 <= i < |calls| ==> TimeOf(calls[i]) <= latest
    ensures AllFit(h, calls)
    decreases |calls|
  {
    hide Ceil;
    if calls != [] {
      var c, t := h.counters, TimeOf(calls[0]);
      var n := |calls| - 1;
      assert (c.index + 1) * c.step == c.index * c.step + c.step;
      assert (m + 1) * c.step == m * c.step + c.step;
      assert (m + |calls| + 1) * c.step == m * c.step + |calls| * c.step + c.step;
      Multiple(c.step, |calls|);
      CeilIsClose(t, c.step);
      NextIsClose(h, calls[0], latest, m);
      EarlyTimesFit(Step(h, calls[0]), calls[1..], latest, m + 1);
    }
  }

  lemma NextIsClose(h: History, call: Call, latest: nat, m: nat)
    requires var c := h.counters; c.step > 0 && c.index * c.step <= latest + m * c.step && TimeOf(call) <= latest
    ensures var c, next := h.counters, Step(h, call).counters;
      next.step == c.step && next.index * c.step <= latest + (m + 1) * c.step
  {
    hide Ceil;
    var c := h.counters;
    CeilIsClose(TimeOf(call), c.step);
    assert (c.index + 1) * c.step == c.index * c.step + c.step;
    assert (m + 1) * c.step == m * c.step + c.step;
  }

  lemma {:induction false} FittingIsAll(h: History, calls: seq<Call>)
    requires AllFit(h, calls)
    ensures FittingCompletions(h, calls) == CompletionsOf(calls)
    decreases |calls|
  {
    hide Step, DeadlineFits;
    if calls != [] {
      FittingIsAll(Step(h, calls[0]), calls[1..]);
    }
  }

  // ---- The schedule ----

  /** The release time, or all ones when it does not fit. */
  function ReleaseNs(index: Word64, step: Word64): (ns: Word64)
    ensures ns == if step > 0 && index * step <= WORD64_MAX then index * step else WORD64_MAX
  {
    if step == 0 then WORD64_MAX
    else
      FloorIsGreatest(WORD64_MAX, step, index);
      if index > WORD64_MAX / step then WORD64_MAX else index * step
  }

  /** The division that rounds up, in 64 bits. */
  method FirstGridPoint(t: Word64, step: Word64) returns (q: Word64)
    requires step > 0
    ensures q == Ceil(t, step)
  {
    hide Ceil;
    CeilFits(t, step);
    q := t / step;
    if t % step != 0 {
      q := q + 1;
    }
  }

  class Schedule {
    var step: Word64
    var index: Word64
    var unused: Word64
    var late: Word64
    var maxLateness: Word64

    constructor (stepNs: Word64)
      ensures View() == Start(stepNs) && Valid()
    {
      step, index, unused, late, maxLateness := stepNs, 0, 0, 0, 0;
    }

    function View(): Counters
      reads this
    {
      Counters(step, index, unused, late, maxLateness)
    }

    ghost predicate Valid()
      reads this
    {
      late <= unused <= index
    }

    method AdvanceToEarliestRelease(now: Word64) returns (ok: bool)
      requires Valid()
      modifies this
      ensures Valid()
      ensures ok <==>
        && step > 0
        && (if now <= old(index) * step then old(index) * step < WORD64_MAX else now <= (WORD64_MAX - 1) * step)
      ensures ok <==> Advanced(old(View()), now).Some?
      ensures View() == if ok then Advanced(old(View()), now).value else old(View())
    {
      AdvanceMeans(View(), now, 0);
      if step == 0 {
        return false;
      }
      var current := ReleaseNs(index, step);
      CeilIsLeast(now, step, index);
      if now <= current {
        return current != WORD64_MAX;
      }
      var earliest := FirstGridPoint(now, step);
      if earliest < index || earliest == WORD64_MAX {
        return false;
      }
      unused := unused + (earliest - index);
      index := earliest;
      ok := true;
    }

    method CompleteStep(completion: Word64) returns (ok: bool)
      requires Valid()
      modifies this
      ensures Valid()
      ensures ok <==> step > 0 && (old(index) + 1) * step <= WORD64_MAX
      ensures ok <==> Completed(old(View()), completion).Some?
      ensures View() == if ok then Completed(old(View()), completion).value else old(View())
    {
      hide Ceil;
      CompletionMeans(View(), completion, 0);
      if step == 0 || index == WORD64_MAX {
        return false;
      }
      FloorIsGreatest(WORD64_MAX, step, index + 1);
      if index > WORD64_MAX / step - 1 {
        return false;
      }
      var deadline: Word64 := (index + 1) * step;
      CeilIsLeast(completion, step, index + 1);
      if completion > deadline {
        var lateness: Word64 := completion - deadline;
        late := late + 1;
        if lateness > maxLateness {
          maxLateness := lateness;
        }
      }
      var next := FirstGridPoint(completion, step);
      if next <= index {
        next := index + 1;
      }
      if next > index + 1 {
        unused := unused + (next - index - 1);
      }
      index := next;
      ok := true;
    }
  }
}
