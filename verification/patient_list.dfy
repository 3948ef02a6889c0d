/** The coordinator's patient list: per-patient progress and current step,
    the step filter, and the priority-then-arrival ordering. */
module PatientList {
  import opened Base
  import opened Sorting
  import opened Domain
  import StepsManager

  /** A percentage kept exact as `num / den` percent, `den > 0`. */
  datatype Percent = Percent(num: nat, den: nat)

  datatype Progress = Progress(completed: nat, total: nat, percentage: Percent)

  function IsCompletedRow(r: StepRow): bool {
    r.status == Completed
  }

  /** Completed over total of one patient's rows; no rows reads as 0 %. */
  function ProgressOf(rows: seq<StepRow>): (p: Progress)
    ensures p.total == |rows|
    ensures p.completed == |Filter(rows, IsCompletedRow)|
    ensures p.completed <= p.total
    ensures p.percentage.den > 0
    ensures |rows| > 0 ==> p.percentage.num * |rows| == 100 * p.completed * p.percentage.den
    ensures |rows| == 0 ==> p.percentage.num == 0
    ensures p.percentage.num <= 100 * p.percentage.den
    ensures p.percentage.num == 100 * p.percentage.den <==>
              |rows| > 0 && forall i :: 0 <= i < |rows| ==> rows[i].status == Completed
    ensures p.percentage.num == 0 <==> forall i :: 0 <= i < |rows| ==> rows[i].status != Completed
  {
    var completed := Count(rows, IsCompletedRow);
    FilterLength(rows, IsCompletedRow);
    var total := |rows|;
    Progress(completed, total, if total > 0 then Percent(100 * completed, total) else Percent(0, 1))
  }

  /** The completed rows of patient `pid`. */
  function DoneBy(pid: Id): StepRow -> bool {
    (r: StepRow) => r.patientId == pid && r.status == Completed
  }

  /** Completing one of a patient's open rows from the steps manager moves
      that patient's progress up by exactly one completed row, out of an
      unchanged total. */
  lemma CompletingRowAdvancesProgress(st: State, k: nat, now: Time)
    requires UniqueStepIds(st.steps)
    requires k < |st.steps| && StepsManager.OffersComplete(st.steps[k])
    ensures var pid := st.steps[k].patientId;
            var before := ProgressOf(StepsOf(st.steps, pid));
            var after := ProgressOf(StepsOf(StepsManager.CompleteStep(st, st.steps[k].id, now).steps, pid));
            && after.total == before.total
            && after.completed == before.completed + 1
  {
    var rows := st.steps;
    var rows' := StepsManager.CompleteStep(st, st.steps[k].id, now).steps;
    forall i | 0 <= i < |rows| && i != k
      ensures rows'[i] == rows[i]
    {
      if i < k {
        assert rows[i].id != rows[k].id;
      } else {
        assert rows[k].id != rows[i].id;
      }
    }
    OneRowCompleted(rows, rows', k);
  }

  /** Two step tables that differ only at `k`, where an open row became
      completed with the same owner: the owner has as many rows as before
      and one more completed. */
  lemma OneRowCompleted(rows: seq<StepRow>, rows': seq<StepRow>, k: nat)
    requires |rows'| == |rows| && k < |rows|
    requires forall i :: 0 <= i < |rows| && i != k ==> rows'[i] == rows[i]
    requires rows'[k].patientId == rows[k].patientId
    requires rows[k].status != Completed && rows'[k].status == Completed
    ensures var pid := rows[k].patientId;
            && |StepsOf(rows', pid)| == |StepsOf(rows, pid)|
            && |Filter(StepsOf(rows', pid), IsCompletedRow)| == |Filter(StepsOf(rows, pid), IsCompletedRow)| + 1
  {
    var pid := rows[k].patientId;
    FilterLength(rows, OwnedBy(pid));
    FilterLength(rows', OwnedBy(pid));
    CountSameWhereAgree(rows, rows', OwnedBy(pid));
    CountOfFilter(rows, OwnedBy(pid), IsCompletedRow, DoneBy(pid));
    CountOfFilter(rows', OwnedBy(pid), IsCompletedRow, DoneBy(pid));
    FilterLength(StepsOf(rows, pid), IsCompletedRow);
    FilterLength(StepsOf(rows', pid), IsCompletedRow);
    CountOneMore(rows, rows', k, DoneBy(pid));
  }

  /** A step counts as current while it is called or in progress. */
  function IsActiveRow(r: StepRow): bool {
    r.status == InProgress || r.status == Called
  }

  /** The first called or in-progress row of a patient's rows. */
  function CurrentStep(rows: seq<StepRow>): (r: Option<StepRow>)
    ensures r.None? <==> forall i :: 0 <= i < |rows| ==> rows[i].status !in {InProgress, Called}
    ensures r.Some? ==> r.value in rows && r.value.status in {InProgress, Called}
    ensures r.Some? ==>
              exists i :: && 0 <= i < |rows| && rows[i] == r.value
                          && (forall j :: 0 <= j < i ==> rows[j].status !in {InProgress, Called})
  {
    Find(rows, IsActiveRow)
  }

  /** The queue filter: everyone, or only those still owing one step. */
  datatype QueueFilter = All | Only(step: CircuitStep)

  /** Whether `rows` holds an open (pending, called or in-progress) row of
      `step` for the patient. */
  function OwesStep(rows: seq<StepRow>, step: CircuitStep): Patient -> bool {
    (p: Patient) => exists i :: 0 <= i < |rows| && rows[i].patientId == p.id && rows[i].step == step && IsOpen(rows[i])
  }

  function FilterPatients(ps: seq<Patient>, rows: seq<StepRow>, f: QueueFilter): (r: seq<Patient>)
    ensures f.All? ==> r == ps
    ensures f.Only? ==> forall i :: 0 <= i < |r| ==> r[i] in ps && OwesStep(rows, f.step)(r[i])
    ensures f.Only? ==> forall i :: 0 <= i < |ps| && OwesStep(rows, f.step)(ps[i]) ==> ps[i] in r
    ensures multiset(r) <= multiset(ps)
  {
    match f
    case All => ps
    case Only(step) => Filter(ps, OwesStep(rows, step))
  }

  /** Priority patients first; within equal priority, earlier arrival first. */
  function PriorityThenCreated(a: Patient, b: Patient): bool {
    if a.isPriority != b.isPriority then a.isPriority else a.createdAt <= b.createdAt
  }

  lemma PriorityThenCreatedIsTotalPreorder()
    ensures TotalPreorder(PriorityThenCreated)
  {
  }

  function SortPatients(ps: seq<Patient>): (r: seq<Patient>)
    ensures multiset(r) == multiset(ps)
    ensures forall i, j :: 0 <= i < j < |r| && r[j].isPriority ==> r[i].isPriority
    ensures forall i, j :: 0 <= i < j < |r| && r[i].isPriority == r[j].isPriority ==>
              r[i].createdAt <= r[j].createdAt
  {
    PriorityThenCreatedIsTotalPreorder();
    var r := SortBy(ps, PriorityThenCreated);
    assert forall i, j :: 0 <= i < j < |r| ==> PriorityThenCreated(r[i], r[j]);
    r
  }

  /** The list as displayed: filtered, then sorted. */
  function Displayed(ps: seq<Patient>, rows: seq<StepRow>, f: QueueFilter): (r: seq<Patient>)
    ensures multiset(r) <= multiset(ps)
    ensures forall p :: p in r <==> p in ps && (f.All? || OwesStep(rows, f.step)(p))
    ensures forall i, j :: 0 <= i < j < |r| ==> PriorityThenCreated(r[i], r[j])
  {
    var kept := FilterPatients(ps, rows, f);
    var r := SortPatients(kept);
    DisplayedMembers(ps, rows, f, kept, r);
    r
  }

  lemma DisplayedMembers(ps: seq<Patient>, rows: seq<StepRow>, f: QueueFilter, kept: seq<Patient>, r: seq<Patient>)
    requires kept == FilterPatients(ps, rows, f)
    requires multiset(r) == multiset(kept)
    ensures forall p :: p in r <==> p in ps && (f.All? || OwesStep(rows, f.step)(p))
  {
    PermutationKeepsMembers(kept, r);
    forall p | p in ps && f.Only? && OwesStep(rows, f.step)(p)
      ensures p in kept
    {
      var i :| 0 <= i < |ps| && ps[i] == p;
    }
    forall p | p in kept && f.Only?
      ensures OwesStep(rows, f.step)(p)
    {
      var i :| 0 <= i < |kept| && kept[i] == p;
    }
  }
}
