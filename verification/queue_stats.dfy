/** The queue overview: for each circuit step, how many rows wait, how many
    are called or in service, and how many are done. */
module QueueStats {
  import opened Base
  import opened Domain
  import StationActions

  datatype QueueStat = QueueStat(step: CircuitStep, pending: nat, inProgress: nat, completed: nat)

  function PendingOf(step: CircuitStep): StepRow -> bool {
    (r: StepRow) => r.step == step && r.status == Pending
  }

  /** Called and in-progress rows are shown together. */
  function ActiveOf(step: CircuitStep): StepRow -> bool {
    (r: StepRow) => r.step == step && (r.status == Called || r.status == InProgress)
  }

  function CompletedOf(step: CircuitStep): StepRow -> bool {
    (r: StepRow) => r.step == step && r.status == Completed
  }

  function OfStep(step: CircuitStep): StepRow -> bool {
    (r: StepRow) => r.step == step
  }

  /** The three counts of one step. They split the step's rows: every row
      of the step is counted exactly once. */
  function StatFor(rows: seq<StepRow>, step: CircuitStep): (s: QueueStat)
    ensures s.step == step
    ensures s.pending == Count(rows, PendingOf(step))
    ensures s.inProgress == Count(rows, ActiveOf(step))
    ensures s.completed == Count(rows, CompletedOf(step))
    ensures s.pending + s.inProgress + s.completed == Count(rows, OfStep(step))
    ensures s.pending == 0 <==> forall i :: 0 <= i < |rows| ==> !(rows[i].step == step && rows[i].status == Pending)
    ensures s.inProgress == 0 <==>
              forall i :: 0 <= i < |rows| ==> !(rows[i].step == step && rows[i].status in {Called, InProgress})
    ensures s.completed == 0 <==> forall i :: 0 <= i < |rows| ==> !(rows[i].step == step && rows[i].status == Completed)
  {
    CountPartition(rows, OfStep(step), PendingOf(step), ActiveOf(step), CompletedOf(step));
    QueueStat(step, Count(rows, PendingOf(step)), Count(rows, ActiveOf(step)), Count(rows, CompletedOf(step)))
  }

  /** One entry per circuit step, in circuit order; the specialist step is
      not shown. */
  function Stats(rows: seq<StepRow>): (r: seq<QueueStat>)
    ensures |r| == |CircuitSteps|
    ensures forall i :: 0 <= i < |r| ==> r[i] == StatFor(rows, CircuitSteps[i])
    ensures forall i :: 0 <= i < |r| ==> r[i].step != Especialista
  {
    seq(|CircuitSteps|, i requires 0 <= i < |CircuitSteps| => StatFor(rows, CircuitSteps[i]))
  }

  /** A successful call moves exactly one row of the station's step from the
      waiting column to the in-service column; the completed column does not
      move. */
  lemma CallNextMovesOneRow(st: State, station: Station, now: Time)
    requires UniqueStepIds(st.steps)
    ensures var r := StationActions.CallNext(st, station, now);
            r.Ok? ==>
              var before := StatFor(st.steps, station.step);
              var after := StatFor(r.value.state.steps, station.step);
              && after.pending + 1 == before.pending
              && after.inProgress == before.inProgress + 1
              && after.completed == before.completed
  {
    var r := StationActions.CallNext(st, station, now);
    if r.Ok? {
      CalledRowMoves(st, r.value.state, station, r.value.chosen, now);
    }
  }

  lemma CalledRowMoves(st: State, st': State, station: Station, c: Candidate, now: Time)
    requires UniqueStepIds(st.steps)
    requires c.row in st.steps && c.row.status == Pending && c.row.step == station.step
    requires StationActions.CallEffects(st, st', station, c, now)
    ensures var before := StatFor(st.steps, station.step);
            var after := StatFor(st'.steps, station.step);
            && after.pending + 1 == before.pending
            && after.inProgress == before.inProgress + 1
            && after.completed == before.completed
  {
    var k :| 0 <= k < |st.steps| && st.steps[k] == c.row;
    forall i | 0 <= i < |st.steps| && i != k
      ensures st'.steps[i] == st.steps[i]
    {
      if i < k {
        assert st.steps[i].id != st.steps[k].id;
      } else {
        assert st.steps[k].id != st.steps[i].id;
      }
    }
    CountOneMore(st'.steps, st.steps, k, PendingOf(station.step));
    CountOneMore(st.steps, st'.steps, k, ActiveOf(station.step));
    CountSameWhereAgree(st.steps, st'.steps, CompletedOf(station.step));
  }
}
