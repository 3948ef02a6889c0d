/** The administrative steps manager: which steps may still be added to a
    patient, completing or removing one step row, adding a step, and
    deleting a patient together with everything that refers to it. */
module StepsManager {
  import opened Base
  import opened Domain

  /** The step types present among `rows` (`steps.map(s => s.step)`). */
  function StepTypes(rows: seq<StepRow>): (r: seq<CircuitStep>)
    ensures |r| == |rows|
    ensures forall i :: 0 <= i < |rows| ==> r[i] == rows[i].step
  {
    seq(|rows|, i requires 0 <= i < |rows| => rows[i].step)
  }

  /** The elements of `s` that do not occur in `drop`, in the order of `s`
      (`s.filter(x => !drop.includes(x))`). */
  function Without(s: seq<CircuitStep>, drop: seq<CircuitStep>): (r: seq<CircuitStep>)
    ensures forall x :: x in r <==> x in s && x !in drop
    ensures (forall i, j :: 0 <= i < j < |s| ==> s[i] != s[j]) ==>
              forall i, j :: 0 <= i < j < |r| ==> r[i] != r[j]
  {
    if |s| == 0 then []
    else if s[0] in drop then Without(s[1..], drop)
    else
      assert s == [s[0]] + s[1..];
      [s[0]] + Without(s[1..], drop)
  }

  /** The circuit steps the patient whose rows are `rows` does not have yet,
      in circuit order (`availableSteps`). */
  function AvailableSteps(rows: seq<StepRow>): (r: seq<CircuitStep>)
    ensures forall k :: k in r <==> k in CircuitSteps && k !in StepTypes(rows)
    ensures forall i, j :: 0 <= i < j < |r| ==> r[i] != r[j]
    ensures Especialista !in r
  {
    Without(CircuitSteps, StepTypes(rows))
  }

  /** The add control is shown only while some circuit step is missing. */
  function OffersAddControl(rows: seq<StepRow>): (b: bool)
    ensures b <==> exists k :: k in CircuitSteps && k !in StepTypes(rows)
  {
    var r := AvailableSteps(rows);
    assert |r| > 0 ==> r[0] in r;
    |r| > 0
  }

  /** The complete action is offered for a row not yet completed. */
  function OffersComplete(row: StepRow): bool {
    row.status != Completed
  }

  /** Marks one step row completed, stamping both its start and completion
      with `now`. Patient flags, stations and TV calls are not touched. */
  function CompleteStep(st: State, stepId: Id, now: Time): (st': State)
    ensures |st'.steps| == |st.steps|
    ensures forall i :: 0 <= i < |st.steps| && st.steps[i].id != stepId ==> st'.steps[i] == st.steps[i]
    ensures forall i :: 0 <= i < |st.steps| && st.steps[i].id == stepId ==>
              && st'.steps[i].status == Completed
              && st'.steps[i].startedAt == Some(now)
              && st'.steps[i].completedAt == Some(now)
              && st'.steps[i].(status := st.steps[i].status, startedAt := st.steps[i].startedAt,
                               completedAt := st.steps[i].completedAt) == st.steps[i]
    ensures st'.patients == st.patients && st'.stations == st.stations
    ensures st'.tvCalls == st.tvCalls && st'.nextId == st.nextId
  {
    st.(steps := Updated(st.steps, (r: StepRow) => r.id == stepId,
                         (r: StepRow) => r.(status := Completed, completedAt := Some(now), startedAt := Some(now))))
  }

  /** Completing a row on which the action is offered adds exactly one
      completed row for its patient; with unique row ids nothing else moves. */
  lemma CompleteOfferedRowAddsOne(st: State, k: nat, now: Time)
    requires UniqueStepIds(st.steps)
    requires k < |st.steps| && OffersComplete(st.steps[k])
    ensures var pid := st.steps[k].patientId;
            var done := (r: StepRow) => r.patientId == pid && r.status == Completed;
            Count(CompleteStep(st, st.steps[k].id, now).steps, done) == Count(st.steps, done) + 1
  {
    var st' := CompleteStep(st, st.steps[k].id, now);
    forall i | 0 <= i < |st.steps| && i != k
      ensures st'.steps[i] == st.steps[i]
    {
      if i < k {
        assert st.steps[i].id != st.steps[k].id;
      } else {
        assert st.steps[k].id != st.steps[i].id;
      }
    }
    var pid := st.steps[k].patientId;
    CountOneMore(st.steps, st'.steps, k, (r: StepRow) => r.patientId == pid && r.status == Completed);
  }

  /** Deletes the step row(s) with identifier `stepId`. */
  function RemoveStep(st: State, stepId: Id): (st': State)
    ensures forall r :: r in st'.steps <==> r in st.steps && r.id != stepId
    ensures UniqueStepIds(st.steps) && (exists i :: 0 <= i < |st.steps| && st.steps[i].id == stepId) ==>
              |st'.steps| == |st.steps| - 1
    ensures st'.patients == st.patients && st'.stations == st.stations
    ensures st'.tvCalls == st.tvCalls && st'.nextId == st.nextId
  {
    var kept := (r: StepRow) => r.id != stepId;
    var rest := Filter(st.steps, kept);
    KeptMembers(st.steps, kept, rest);
    RemovedOne(st.steps, stepId);
    st.(steps := rest)
  }

  lemma KeptMembers<T>(s: seq<T>, p: T -> bool, r: seq<T>)
    requires r == Filter(s, p)
    ensures forall x :: x in r <==> x in s && p(x)
  {
    forall x
      ensures x in r <==> x in s && p(x)
    {
      if x in r {
        var i :| 0 <= i < |r| && r[i] == x;
      }
      if x in s && p(x) {
        var i :| 0 <= i < |s| && s[i] == x;
      }
    }
  }

  lemma RemovedOne(rows: seq<StepRow>, stepId: Id)
    ensures UniqueStepIds(rows) && (exists i :: 0 <= i < |rows| && rows[i].id == stepId) ==>
              |Filter(rows, (r: StepRow) => r.id != stepId)| == |rows| - 1
  {
    if UniqueStepIds(rows) && (exists i :: 0 <= i < |rows| && rows[i].id == stepId) {
      var kept := (r: StepRow) => r.id != stepId;
      var gone := (r: StepRow) => r.id == stepId;
      FilterLength(rows, kept);
      CountAtMostOne(rows, gone);
      CountSplitsByNegation(rows, gone, kept);
    }
  }

  /** The manager's add: the step picker only lists `AvailableSteps`, and
      the insert itself carries no duplicate probe. The store refuses a row
      for an unknown patient. */
  function AdminAddStep(st: State, pid: Id, step: CircuitStep, now: Time): (r: Result<State, Error>)
    ensures r.Ok? <==> HasPatient(st.patients, pid)
    ensures r.Err? ==> r.error == UnknownPatient
    ensures r.Ok? ==>
              && r.value.steps == st.steps + [NewStepRow(st.nextId, pid, step, now)]
              && r.value.patients == st.patients
              && r.value.stations == st.stations
              && r.value.tvCalls == st.tvCalls
              && r.value.nextId == st.nextId + 1
  {
    if !HasPatient(st.patients, pid) then Err(UnknownPatient)
    else Ok(st.(steps := st.steps + [NewStepRow(st.nextId, pid, step, now)], nextId := st.nextId + 1))
  }

  /** A step picked from the offered list never duplicates one the patient
      already has. */
  lemma AdminAddOfferedKeepsNoDuplicates(st: State, pid: Id, step: CircuitStep, now: Time)
    requires NoDuplicateSteps(st.steps)
    requires step in AvailableSteps(StepsOf(st.steps, pid))
    requires HasPatient(st.patients, pid)
    ensures NoDuplicateSteps(AdminAddStep(st, pid, step, now).value.steps)
  {
    OfferedIsAbsent(st.steps, pid, step);
    AppendKeepsNoDuplicates(st.steps, NewStepRow(st.nextId, pid, step, now));
  }

  /** An offered step is one the patient has no row for. */
  lemma OfferedIsAbsent(rows: seq<StepRow>, pid: Id, step: CircuitStep)
    requires step in AvailableSteps(StepsOf(rows, pid))
    ensures !HasStep(rows, pid, step)
  {
    var own := StepsOf(rows, pid);
    var kinds := StepTypes(own);
    forall i | 0 <= i < |rows| && rows[i].patientId == pid
      ensures rows[i].step in kinds
    {
      assert OwnedBy(pid)(rows[i]);
      assert rows[i] in own;
      var j :| 0 <= j < |own| && own[j] == rows[i];
      assert kinds[j] == rows[i].step;
    }
  }

  /** Removes a patient: its step rows, its TV calls and the patient row go,
      and every station pointing at it is cleared. */
  function DeletePatient(st: State, pid: Id): (st': State)
    ensures forall r :: r in st'.steps <==> r in st.steps && r.patientId != pid
    ensures forall t :: t in st'.tvCalls <==> t in st.tvCalls && t.patientId != pid
    ensures forall p :: p in st'.patients <==> p in st.patients && p.id != pid
    ensures |st'.stations| == |st.stations|
    ensures forall i :: 0 <= i < |st.stations| ==>
              st'.stations[i] == if st.stations[i].currentPatientId == Some(pid)
                                 then st.stations[i].(currentPatientId := None)
                                 else st.stations[i]
    ensures st'.nextId == st.nextId
  {
    var steps' := Filter(st.steps, (r: StepRow) => r.patientId != pid);
    var calls' := Filter(st.tvCalls, (t: TVCall) => t.patientId != pid);
    var patients' := Filter(st.patients, (p: Patient) => p.id != pid);
    KeptMembers(st.steps, (r: StepRow) => r.patientId != pid, steps');
    KeptMembers(st.tvCalls, (t: TVCall) => t.patientId != pid, calls');
    KeptMembers(st.patients, (p: Patient) => p.id != pid, patients');
    State(patients',
          steps',
          Updated(st.stations, (s: Station) => s.currentPatientId == Some(pid),
                  (s: Station) => s.(currentPatientId := None)),
          calls',
          st.nextId)
  }

  /** After deleting a patient nothing refers to it any more. */
  lemma DeletePatientLeavesNoReference(st: State, pid: Id)
    ensures var st' := DeletePatient(st, pid);
            && !HasPatient(st'.patients, pid)
            && (forall i :: 0 <= i < |st'.steps| ==> st'.steps[i].patientId != pid)
            && (forall i :: 0 <= i < |st'.tvCalls| ==> st'.tvCalls[i].patientId != pid)
            && (forall i :: 0 <= i < |st'.stations| ==> st'.stations[i].currentPatientId != Some(pid))
  {
    var st' := DeletePatient(st, pid);
    forall i | 0 <= i < |st'.steps|
      ensures st'.steps[i].patientId != pid
    {
      assert st'.steps[i] in st'.steps;
    }
    forall i | 0 <= i < |st'.tvCalls|
      ensures st'.tvCalls[i].patientId != pid
    {
      assert st'.tvCalls[i] in st'.tvCalls;
    }
    forall j | 0 <= j < |st'.patients|
      ensures st'.patients[j].id != pid
    {
      assert st'.patients[j] in st'.patients;
    }
  }
}
