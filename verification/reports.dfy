/** The day report: how many patients arrived and finished in a period, and
    for each circuit step how many completed rows it had and the rounded
    mean, minimum and maximum of their service times in whole minutes. */
module Reports {
  import opened Base
  import opened Domain
  import StepsManager

  const MillisPerMinute: nat := 60000

  /** An inclusive reporting period (start and end of the selected day). */
  datatype Period = Period(start: Time, end: Time)

  datatype StepReport = StepReport(step: CircuitStep, total: nat, avgMinutes: int, minMinutes: int, maxMinutes: int)

  datatype DayReport = DayReport(totalPatients: nat, completedPatients: nat, stepReports: seq<StepReport>)

  // ---------------------------------------------------------------------
  // Minutes between two timestamps

  /** Whole minutes from `earlier` to `later`, truncated toward zero as
      `differenceInMinutes` does by default. */
  function MinutesBetween(later: Time, earlier: Time): (m: int)
    ensures m > 0 <==> later - earlier >= MillisPerMinute
    ensures m == 0 <==> -(MillisPerMinute as int) < later - earlier < MillisPerMinute
    ensures m < 0 <==> later - earlier <= -(MillisPerMinute as int)
    ensures later >= earlier ==> m * MillisPerMinute <= later - earlier < (m + 1) * MillisPerMinute
  {
    var d := later - earlier;
    if d >= 0 then d / MillisPerMinute else -((-d) / MillisPerMinute)
  }

  // ---------------------------------------------------------------------
  // Sums, extremes, rounded mean

  function Sum(ts: seq<int>): int {
    if |ts| == 0 then 0 else ts[0] + Sum(ts[1..])
  }

  function MinOf(ts: seq<int>): (m: int)
    requires |ts| > 0
    ensures m in ts
    ensures forall i :: 0 <= i < |ts| ==> m <= ts[i]
  {
    if |ts| == 1 then ts[0]
    else
      var rest := MinOf(ts[1..]);
      assert forall i :: 1 <= i < |ts| ==> ts[i] == ts[1..][i - 1];
      if ts[0] <= rest then ts[0] else rest
  }

  function MaxOf(ts: seq<int>): (m: int)
    requires |ts| > 0
    ensures m in ts
    ensures forall i :: 0 <= i < |ts| ==> ts[i] <= m
  {
    if |ts| == 1 then ts[0]
    else
      var rest := MaxOf(ts[1..]);
      assert forall i :: 1 <= i < |ts| ==> ts[i] == ts[1..][i - 1];
      if ts[0] >= rest then ts[0] else rest
  }

  /** `Math.round(sum / n)`: the nearest integer, halves rounded up. */
  function RoundedMean(sum: int, n: nat): (a: int)
    requires n > 0
    ensures 2 * n * a <= 2 * sum + n < 2 * n * a + 2 * n
  {
    var q := (2 * sum + n) / (2 * n);
    assert 2 * sum + n == q * (2 * n) + (2 * sum + n) % (2 * n);
    q
  }

  lemma {:induction false} SumBounds(ts: seq<int>, lo: int, hi: int)
    requires forall i :: 0 <= i < |ts| ==> lo <= ts[i] <= hi
    ensures |ts| * lo <= Sum(ts) <= |ts| * hi
    decreases |ts|
  {
    if |ts| > 0 {
      assert forall i :: 1 <= i < |ts| ==> ts[i] == ts[1..][i - 1];
      SumBounds(ts[1..], lo, hi);
    }
  }

  /** A rounded mean of values in `[lo, hi]` stays in `[lo, hi]`. */
  lemma RoundedMeanWithin(sum: int, n: nat, lo: int, hi: int)
    requires n > 0
    requires n * lo <= sum <= n * hi
    ensures lo <= RoundedMean(sum, n) <= hi
  {
    var a := RoundedMean(sum, n);
    assert 2 * n * a < 2 * n * (hi + 1) by {
      assert 2 * n * a <= 2 * sum + n;
      assert 2 * sum + n <= 2 * (n * hi) + n;
      assert 2 * (n * hi) + n < 2 * n * (hi + 1);
    }
    assert 2 * n * (a + 1) > 2 * n * lo by {
      assert 2 * sum + n < 2 * n * a + 2 * n;
      assert 2 * (n * lo) <= 2 * sum;
      assert 2 * n * a + 2 * n == 2 * n * (a + 1);
    }
    FactorLess(2 * n, a, hi + 1);
    FactorLess(2 * n, lo, a + 1);
  }

  lemma FactorLess(k: nat, x: int, y: int)
    requires k > 0 && k * x < k * y
    ensures x < y
  {
  }

  // ---------------------------------------------------------------------
  // Per-step report

  /** A completed row created inside the period (the step query). */
  function CompletedIn(p: Period): StepRow -> bool {
    (r: StepRow) => r.status == Completed && p.start <= r.createdAt <= p.end
  }

  /** A row of `step` carrying both a start and a completion time. */
  function Timed(step: CircuitStep): StepRow -> bool {
    (r: StepRow) => r.step == step && r.startedAt.Some? && r.completedAt.Some?
  }

  function Duration(r: StepRow): int
    requires r.startedAt.Some? && r.completedAt.Some?
  {
    MinutesBetween(r.completedAt.value, r.startedAt.value)
  }

  /** The service times of timed rows, in minutes. */
  function Durations(rows: seq<StepRow>): (ts: seq<int>)
    requires forall i :: 0 <= i < |rows| ==> rows[i].startedAt.Some? && rows[i].completedAt.Some?
    ensures |ts| == |rows|
    ensures forall i :: 0 <= i < |rows| ==> ts[i] == Duration(rows[i])
  {
    seq(|rows|, i requires 0 <= i < |rows| && rows[i].startedAt.Some? && rows[i].completedAt.Some? =>
                  Duration(rows[i]))
  }

  function IsPositive(t: int): bool {
    t > 0
  }

  /** A timed row of `step` that took at least one whole minute. */
  function LongTimed(step: CircuitStep): StepRow -> bool {
    (r: StepRow) => r.step == step && r.startedAt.Some? && r.completedAt.Some? && Duration(r) > 0
  }

  /** The service times, in whole minutes, of the timed rows of `step`
      among `done` that took at least one minute: one entry per such row,
      in row order, so repeated durations are all kept. */
  function ServiceTimes(done: seq<StepRow>, step: CircuitStep): (ts: seq<int>)
    ensures ts == Durations(Filter(done, LongTimed(step)))
    ensures forall i :: 0 <= i < |ts| ==> ts[i] > 0
    ensures |ts| <= Count(done, Timed(step))
    ensures forall i :: 0 <= i < |ts| ==> exists r :: r in done && Timed(step)(r) && Duration(r) == ts[i]
    ensures forall r :: r in done && Timed(step)(r) && Duration(r) > 0 ==> Duration(r) in ts
  {
    var stepData := Filter(done, Timed(step));
    FilterLength(done, Timed(step));
    var all := Durations(stepData);
    var ts := Filter(all, IsPositive);
    ServiceTimesMembers(done, step, stepData, all, ts);
    KeptTimesAreLongRows(done, step);
    ts
  }

  /** Keeping the positive durations of the timed rows is taking the
      durations of the rows that took at least a minute. */
  lemma {:induction false} KeptTimesAreLongRows(done: seq<StepRow>, step: CircuitStep)
    ensures Filter(Durations(Filter(done, Timed(step))), IsPositive) == Durations(Filter(done, LongTimed(step)))
    decreases |done|
  {
    if |done| > 0 {
      var d := done[0];
      var tail := done[1..];
      KeptTimesAreLongRows(tail, step);
      var timedTail := Filter(tail, Timed(step));
      var longTail := Filter(tail, LongTimed(step));
      if Timed(step)(d) {
        assert Filter(done, Timed(step)) == [d] + timedTail;
        assert LongTimed(step)(d) == (Duration(d) > 0);
        assert Filter(done, LongTimed(step)) == (if Duration(d) > 0 then [d] else []) + longTail;
        KeptTimesOfHead(d, timedTail, longTail);
      } else {
        assert !LongTimed(step)(d);
        assert Filter(done, Timed(step)) == timedTail;
        assert Filter(done, LongTimed(step)) == longTail;
      }
    }
  }

  /** One inductive step: a timed head row contributes its duration exactly
      when that duration is positive. */
  lemma KeptTimesOfHead(d: StepRow, timedTail: seq<StepRow>, longTail: seq<StepRow>)
    requires d.startedAt.Some? && d.completedAt.Some?
    requires forall i :: 0 <= i < |timedTail| ==> timedTail[i].startedAt.Some? && timedTail[i].completedAt.Some?
    requires forall i :: 0 <= i < |longTail| ==> longTail[i].startedAt.Some? && longTail[i].completedAt.Some?
    requires Filter(Durations(timedTail), IsPositive) == Durations(longTail)
    ensures Filter(Durations([d] + timedTail), IsPositive)
         == Durations((if Duration(d) > 0 then [d] else []) + longTail)
  {
    DurationsCons(d, timedTail);
    var all := Durations([d] + timedTail);
    assert all[1..] == Durations(timedTail);
    assert Filter(all, IsPositive)
        == (if IsPositive(all[0]) then [all[0]] else []) + Filter(all[1..], IsPositive);
    if Duration(d) > 0 {
      DurationsCons(d, longTail);
    } else {
      assert [] + longTail == longTail;
    }
  }

  lemma DurationsCons(d: StepRow, rows: seq<StepRow>)
    requires d.startedAt.Some? && d.completedAt.Some?
    requires forall i :: 0 <= i < |rows| ==> rows[i].startedAt.Some? && rows[i].completedAt.Some?
    ensures Durations([d] + rows) == [Duration(d)] + Durations(rows)
  {
    var a := Durations([d] + rows);
    var b := [Duration(d)] + Durations(rows);
    assert |a| == |b|;
    forall i | 0 <= i < |a| ensures a[i] == b[i] {
      if i > 0 {
        assert ([d] + rows)[i] == rows[i - 1];
      }
    }
  }

  lemma ServiceTimesMembers(done: seq<StepRow>, step: CircuitStep, stepData: seq<StepRow>, all: seq<int>, ts: seq<int>)
    requires stepData == Filter(done, Timed(step))
    requires all == Durations(stepData)
    requires ts == Filter(all, IsPositive)
    ensures forall i :: 0 <= i < |ts| ==> exists r :: r in done && Timed(step)(r) && Duration(r) == ts[i]
    ensures forall r :: r in done && Timed(step)(r) && Duration(r) > 0 ==> Duration(r) in ts
  {
    forall i | 0 <= i < |ts|
      ensures exists r :: r in done && Timed(step)(r) && Duration(r) == ts[i]
    {
      var j :| 0 <= j < |all| && all[j] == ts[i];
      assert stepData[j] in done;
    }
    forall r | r in done && Timed(step)(r) && Duration(r) > 0
      ensures Duration(r) in ts
    {
      var k :| 0 <= k < |done| && done[k] == r;
      assert r in stepData;
      var j :| 0 <= j < |stepData| && stepData[j] == r;
      assert all[j] == Duration(r);
      assert IsPositive(all[j]);
    }
  }

  datatype Figures = Figures(avg: int, min: int, max: int)

  /** Rounded mean, minimum and maximum of `ts`; all 0 for no values. */
  function FiguresOf(ts: seq<int>): (f: Figures)
    ensures |ts| == 0 ==> f == Figures(0, 0, 0)
    ensures |ts| > 0 ==>
              && f.min in ts && f.max in ts
              && (forall i :: 0 <= i < |ts| ==> f.min <= ts[i] <= f.max)
              && 2 * |ts| * f.avg <= 2 * Sum(ts) + |ts| < 2 * |ts| * f.avg + 2 * |ts|
              && f.min <= f.avg <= f.max
  {
    if |ts| == 0 then Figures(0, 0, 0)
    else
      var lo := MinOf(ts);
      var hi := MaxOf(ts);
      SumBounds(ts, lo, hi);
      RoundedMeanWithin(Sum(ts), |ts|, lo, hi);
      Figures(RoundedMean(Sum(ts), |ts|), lo, hi)
  }

  /** The report of one step over the completed rows `done` of the period:
      `total` counts every timed row, while the time figures use only the
      rows that took at least one whole minute. */
  function ReportFor(done: seq<StepRow>, step: CircuitStep): (r: StepReport)
    ensures r.step == step
    ensures r.total == Count(done, Timed(step))
    ensures r.total >= |ServiceTimes(done, step)|
    ensures Figures(r.avgMinutes, r.minMinutes, r.maxMinutes) == FiguresOf(ServiceTimes(done, step))
  {
    FilterLength(done, Timed(step));
    var f := FiguresOf(ServiceTimes(done, step));
    StepReport(step, |Filter(done, Timed(step))|, f.avg, f.min, f.max)
  }

  /** Each reported time figure is a whole number of minutes of at least
      one; a step without such rows reports zeros. */
  lemma ReportTimesArePositiveOrZero(done: seq<StepRow>, step: CircuitStep)
    ensures var r := ReportFor(done, step);
            var n := |ServiceTimes(done, step)|;
            && (n == 0 <==> r.maxMinutes == 0)
            && (n == 0 ==> r.avgMinutes == 0 && r.minMinutes == 0)
            && (n > 0 ==> 0 < r.minMinutes <= r.avgMinutes <= r.maxMinutes)
  {
    var ts := ServiceTimes(done, step);
    if |ts| > 0 {
      assert ts[0] > 0;
    }
  }

  // ---------------------------------------------------------------------
  // Day report

  function CreatedIn(p: Period): Patient -> bool {
    (x: Patient) => p.start <= x.createdAt <= p.end
  }

  function IsCompletedPatient(x: Patient): bool {
    x.isCompleted
  }

  /** A patient registered in the period and already completed. */
  function FinishedIn(p: Period): Patient -> bool {
    (x: Patient) => CreatedIn(p)(x) && IsCompletedPatient(x)
  }

  /** How many patients were registered in the period, and how many of
      those are completed. */
  function PatientTotals(ps: seq<Patient>, p: Period): (r: (nat, nat))
    ensures r.0 == Count(ps, CreatedIn(p))
    ensures r.1 == Count(ps, FinishedIn(p))
    ensures r.1 <= r.0
  {
    var inPeriod := Filter(ps, CreatedIn(p));
    FilterLength(ps, CreatedIn(p));
    FinishedAmongRegistered(ps, p);
    (|inPeriod|, Count(inPeriod, IsCompletedPatient))
  }

  lemma FinishedAmongRegistered(ps: seq<Patient>, p: Period)
    ensures Count(Filter(ps, CreatedIn(p)), IsCompletedPatient) == Count(ps, FinishedIn(p))
    ensures Count(Filter(ps, CreatedIn(p)), IsCompletedPatient) <= Count(ps, CreatedIn(p))
  {
    CountOfFilter(ps, CreatedIn(p), IsCompletedPatient, FinishedIn(p));
  }

  /** The step reports, one per circuit step in circuit order. */
  function StepReports(done: seq<StepRow>): (r: seq<StepReport>)
    ensures |r| == |CircuitSteps|
    ensures forall i :: 0 <= i < |r| ==> r[i].step == CircuitSteps[i]
    ensures forall i :: 0 <= i < |r| ==> r[i] == ReportFor(done, CircuitSteps[i])
  {
    seq(|CircuitSteps|, i requires 0 <= i < |CircuitSteps| => ReportFor(done, CircuitSteps[i]))
  }

  /** The report of the period: patients registered in it, how many of
      them are completed, and one step report per circuit step over the
      completed rows created in the period. */
  function Report(st: State, p: Period): (r: DayReport)
    ensures r.totalPatients == Count(st.patients, CreatedIn(p))
    ensures r.completedPatients <= r.totalPatients
    ensures r.completedPatients == Count(st.patients, FinishedIn(p))
    ensures r.stepReports == StepReports(Filter(st.steps, CompletedIn(p)))
  {
    var totals := PatientTotals(st.patients, p);
    DayReport(totals.0, totals.1, StepReports(Filter(st.steps, CompletedIn(p))))
  }

  /** A row completed from the steps manager gets the same start and
      completion time: it is counted in the step's total but never in its
      times. */
  lemma ManagerCompletionHasNoDuration(st: State, stepId: Id, now: Time, i: nat)
    requires i < |st.steps| && st.steps[i].id == stepId
    ensures var r := StepsManager.CompleteStep(st, stepId, now).steps[i];
            && r.status == Completed
            && Timed(r.step)(r)
            && Duration(r) == 0
            && !IsPositive(Duration(r))
  {
  }
}
