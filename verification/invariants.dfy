/** Which commands keep the store well formed (`Domain.Wf`: unique
    identifiers below the id counter, every reference resolving) and which
    keep at most one row per (patient, step). */
module Invariants {
  import opened Base
  import opened Domain
  import Patients
  import StationActions
  import StepsManager

  predicate DistinctStepIds(a: StepRow, b: StepRow) {
    a.id != b.id
  }

  predicate DistinctStepKeys(a: StepRow, b: StepRow) {
    !(a.patientId == b.patientId && a.step == b.step)
  }

  predicate DistinctPatientIds(a: Patient, b: Patient) {
    a.id != b.id
  }

  predicate DistinctCallIds(a: TVCall, b: TVCall) {
    a.id != b.id
  }

  /** `t` keeps the identifier, owner and step type of every row of `s`. */
  ghost predicate SameStepKeys(s: seq<StepRow>, t: seq<StepRow>) {
    && |t| == |s|
    && forall i :: 0 <= i < |s| ==>
         t[i].id == s[i].id && t[i].patientId == s[i].patientId && t[i].step == s[i].step
  }

  /** `qs` keeps the identifier of every patient of `ps`. */
  ghost predicate SamePatientIds(ps: seq<Patient>, qs: seq<Patient>) {
    |qs| == |ps| && forall i :: 0 <= i < |ps| ==> qs[i].id == ps[i].id
  }

  // ---------------------------------------------------------------------
  // Deleting rows keeps them distinct

  lemma FilteredStepsStayDistinct(rows: seq<StepRow>, p: StepRow -> bool)
    ensures UniqueStepIds(rows) ==> UniqueStepIds(Filter(rows, p))
    ensures NoDuplicateSteps(rows) ==> NoDuplicateSteps(Filter(rows, p))
  {
    var r := Filter(rows, p);
    if UniqueStepIds(rows) {
      assert Pairwise(rows, DistinctStepIds);
      FilterKeepsPairwise(rows, p, DistinctStepIds);
      forall i, j | 0 <= i < j < |r| ensures r[i].id != r[j].id {
        assert DistinctStepIds(r[i], r[j]);
      }
    }
    if NoDuplicateSteps(rows) {
      assert Pairwise(rows, DistinctStepKeys);
      FilterKeepsPairwise(rows, p, DistinctStepKeys);
      forall i, j | 0 <= i < j < |r| ensures !(r[i].patientId == r[j].patientId && r[i].step == r[j].step) {
        assert DistinctStepKeys(r[i], r[j]);
      }
    }
  }

  lemma FilteredPatientsStayDistinct(ps: seq<Patient>, p: Patient -> bool)
    ensures UniquePatientIds(ps) ==> UniquePatientIds(Filter(ps, p))
  {
    var r := Filter(ps, p);
    if UniquePatientIds(ps) {
      assert Pairwise(ps, DistinctPatientIds);
      FilterKeepsPairwise(ps, p, DistinctPatientIds);
      forall i, j | 0 <= i < j < |r| ensures r[i].id != r[j].id {
        assert DistinctPatientIds(r[i], r[j]);
      }
    }
  }

  lemma FilteredCallsStayDistinct(calls: seq<TVCall>, p: TVCall -> bool)
    ensures UniqueTVCallIds(calls) ==> UniqueTVCallIds(Filter(calls, p))
  {
    var r := Filter(calls, p);
    if UniqueTVCallIds(calls) {
      assert Pairwise(calls, DistinctCallIds);
      FilterKeepsPairwise(calls, p, DistinctCallIds);
      forall i, j | 0 <= i < j < |r| ensures r[i].id != r[j].id {
        assert DistinctCallIds(r[i], r[j]);
      }
    }
  }

  // ---------------------------------------------------------------------
  // Two frames that the commands reduce to

  /** Rewriting rows in place, keeping their keys, while the TV calls and
      station bindings still resolve, keeps the store well formed. */
  lemma WfFromKeptKeys(st: State, st': State)
    requires Wf(st)
    requires SamePatientIds(st.patients, st'.patients)
    requires SameStepKeys(st.steps, st'.steps)
    requires st.nextId <= st'.nextId
    requires UniqueTVCallIds(st'.tvCalls)
    requires forall i :: 0 <= i < |st'.tvCalls| ==>
               st'.tvCalls[i].id < st'.nextId && HasPatient(st.patients, st'.tvCalls[i].patientId)
    requires forall i :: 0 <= i < |st'.stations| && st'.stations[i].currentPatientId.Some? ==>
               HasPatient(st.patients, st'.stations[i].currentPatientId.value)
    ensures Wf(st')
    ensures NoDuplicateSteps(st.steps) ==> NoDuplicateSteps(st'.steps)
  {
    forall id | HasPatient(st.patients, id) ensures HasPatient(st'.patients, id) {
      var j :| 0 <= j < |st.patients| && st.patients[j].id == id;
      assert st'.patients[j].id == id;
    }
  }

  /** Appending one row with a fresh id for a known patient, everything
      else keeping its identifiers, keeps the store well formed. */
  lemma WfAfterAppendedRow(st: State, st': State, row: StepRow)
    requires Wf(st)
    requires st'.steps == st.steps + [row]
    requires row.id == st.nextId && HasPatient(st.patients, row.patientId)
    requires SamePatientIds(st.patients, st'.patients)
    requires st'.tvCalls == st.tvCalls && st'.stations == st.stations
    requires st'.nextId == st.nextId + 1
    ensures Wf(st')
  {
    forall id | HasPatient(st.patients, id) ensures HasPatient(st'.patients, id) {
      var j :| 0 <= j < |st.patients| && st.patients[j].id == id;
      assert st'.patients[j].id == id;
    }
    forall i | 0 <= i < |st'.steps| ensures HasPatient(st'.patients, st'.steps[i].patientId) {
      if i < |st.steps| {
        assert st'.steps[i] == st.steps[i];
      }
    }
  }

  // ---------------------------------------------------------------------
  // Registration and the station commands

  /** Registration keeps the store well formed: the new patient and its
      seeded rows draw fresh identifiers and the rows point at the new
      patient. */
  lemma RegisterKeepsWf(st: State, reg: Patients.Registration, defaults: Patients.ColumnDefaults, now: Time)
    requires Wf(st)
    ensures Wf(Patients.Register(st, reg, defaults, now))
    ensures NoDuplicateSteps(st.steps) ==> NoDuplicateSteps(Patients.Register(st, reg, defaults, now).steps)
  {
    RegisteredRowsAreFresh(st, reg, defaults, now);
    RegisteredRowsResolve(st, reg, defaults, now);
    Patients.RegisterSeedsOnlyNewPatient(st, reg, defaults, now);
  }

  lemma RegisteredRowsAreFresh(st: State, reg: Patients.Registration, defaults: Patients.ColumnDefaults, now: Time)
    requires forall i :: 0 <= i < |st.steps| ==> st.steps[i].id < st.nextId
    requires UniqueStepIds(st.steps)
    ensures var st' := Patients.Register(st, reg, defaults, now);
            && UniqueStepIds(st'.steps)
            && forall i :: 0 <= i < |st'.steps| ==> st'.steps[i].id < st'.nextId
  {
    var st' := Patients.Register(st, reg, defaults, now);
    var kinds := Patients.SeedSteps(reg.needsCardio, reg.needsImageExam);
    var n := |st.steps|;
    assert st'.steps == st.steps + Patients.SeedRows(st.nextId, kinds, st.nextId + 1, now);
    assert st'.nextId == st.nextId + 1 + |kinds|;
    forall i | 0 <= i < |st'.steps| ensures st'.steps[i].id < st'.nextId {
      if i >= n {
        assert st'.steps[i].id == st.nextId + 1 + (i - n);
      } else {
        assert st'.steps[i] == st.steps[i];
      }
    }
    forall i, j | 0 <= i < j < |st'.steps| ensures st'.steps[i].id != st'.steps[j].id {
      if j >= n {
        assert st'.steps[j].id == st.nextId + 1 + (j - n);
        if i >= n {
          assert st'.steps[i].id == st.nextId + 1 + (i - n);
        } else {
          assert st'.steps[i] == st.steps[i];
        }
      } else {
        assert st'.steps[i] == st.steps[i] && st'.steps[j] == st.steps[j];
      }
    }
  }

  lemma RegisteredRowsResolve(st: State, reg: Patients.Registration, defaults: Patients.ColumnDefaults, now: Time)
    requires RefIntegrity(st)
    ensures RefIntegrity(Patients.Register(st, reg, defaults, now))
  {
    var st' := Patients.Register(st, reg, defaults, now);
    var n := |st.steps|;
    assert st'.patients[|st.patients|].id == st.nextId;
    forall id | HasPatient(st.patients, id) ensures HasPatient(st'.patients, id) {
      var j :| 0 <= j < |st.patients| && st.patients[j].id == id;
      assert st'.patients[j] == st.patients[j];
    }
    forall i | 0 <= i < |st'.steps| ensures HasPatient(st'.patients, st'.steps[i].patientId) {
      if i < n {
        assert st'.steps[i] == st.steps[i];
      }
    }
  }

  /** A call keeps the store well formed: the new TV call takes a fresh
      identifier and it and the station both point at the called patient. */
  lemma CallNextKeepsWf(st: State, station: Station, now: Time)
    requires Wf(st)
    ensures var r := StationActions.CallNext(st, station, now);
            r.Ok? ==>
              && Wf(r.value.state)
              && (NoDuplicateSteps(st.steps) ==> NoDuplicateSteps(r.value.state.steps))
  {
    var r := StationActions.CallNext(st, station, now);
    if r.Ok? {
      var c := r.value.chosen;
      PatientOfFinds(st.patients, c.row.patientId);
      CallEffectsKeepWf(st, r.value.state, station, c, now);
    }
  }

  lemma CallEffectsKeepWf(st: State, st': State, station: Station, c: Candidate, now: Time)
    requires Wf(st)
    requires HasPatient(st.patients, c.patient.id)
    requires StationActions.CallEffects(st, st', station, c, now)
    ensures Wf(st')
    ensures NoDuplicateSteps(st.steps) ==> NoDuplicateSteps(st'.steps)
  {
    var calls := st'.tvCalls;
    forall i, j | 0 <= i < j < |calls| ensures calls[i].id != calls[j].id {
      assert calls[i] == st.tvCalls[i];
    }
    forall i | 0 <= i < |calls|
      ensures calls[i].id < st'.nextId && HasPatient(st.patients, calls[i].patientId)
    {
      if i < |st.tvCalls| {
        assert calls[i] == st.tvCalls[i];
      }
    }
    forall i | 0 <= i < |st'.stations| && st'.stations[i].currentPatientId.Some?
      ensures HasPatient(st.patients, st'.stations[i].currentPatientId.value)
    {
    }
    WfFromKeptKeys(st, st');
  }

  /** Starting service keeps the store well formed. */
  lemma StartKeepsWf(st: State, station: Station, now: Time)
    requires Wf(st)
    ensures var r := StationActions.Start(st, station, now);
            r.Ok? ==>
              && Wf(r.value)
              && (NoDuplicateSteps(st.steps) ==> NoDuplicateSteps(r.value.steps))
  {
    var r := StationActions.Start(st, station, now);
    if r.Ok? {
      var st' := r.value;
      forall i, j | 0 <= i < j < |st'.tvCalls| ensures st'.tvCalls[i].id != st'.tvCalls[j].id {
        assert st'.tvCalls[i].id == st.tvCalls[i].id && st'.tvCalls[j].id == st.tvCalls[j].id;
      }
      forall i | 0 <= i < |st'.tvCalls|
        ensures st'.tvCalls[i].id < st'.nextId && HasPatient(st.patients, st'.tvCalls[i].patientId)
      {
        assert st'.tvCalls[i].id == st.tvCalls[i].id && st'.tvCalls[i].patientId == st.tvCalls[i].patientId;
      }
      WfFromKeptKeys(st, st');
    }
  }

  /** Finishing service keeps the store well formed. */
  lemma FinishKeepsWf(st: State, station: Station, now: Time)
    requires Wf(st)
    ensures var r := StationActions.Finish(st, station, now);
            r.Ok? ==>
              && Wf(r.value)
              && (NoDuplicateSteps(st.steps) ==> NoDuplicateSteps(r.value.steps))
  {
    var r := StationActions.Finish(st, station, now);
    if r.Ok? {
      var st' := r.value;
      forall i | 0 <= i < |st.patients| ensures st'.patients[i].id == st.patients[i].id {
      }
      forall i | 0 <= i < |st'.stations| && st'.stations[i].currentPatientId.Some?
        ensures HasPatient(st.patients, st'.stations[i].currentPatientId.value)
      {
        assert st'.stations[i] == st.stations[i];
      }
      WfFromKeptKeys(st, st');
    }
  }

  /** Adding an extra step from a station keeps the store well formed and,
      being guarded, keeps one row per (patient, step). */
  lemma AddFlaggedStepKeepsWf(st: State, pid: Id, step: CircuitStep, now: Time)
    requires Wf(st)
    ensures var r := StationActions.AddFlaggedStep(st, pid, step, now);
            r.Ok? ==>
              && Wf(r.value)
              && (NoDuplicateSteps(st.steps) ==> NoDuplicateSteps(r.value.steps))
  {
    var r := StationActions.AddFlaggedStep(st, pid, step, now);
    if r.Ok? {
      var row := NewStepRow(st.nextId, pid, step, now);
      forall i | 0 <= i < |st.patients| ensures r.value.patients[i].id == st.patients[i].id {
      }
      WfAfterAppendedRow(st, r.value, row);
      if NoDuplicateSteps(st.steps) {
        AppendKeepsNoDuplicates(st.steps, row);
      }
    }
  }

  /** The guarded `addStep` keeps the store well formed and keeps one row per
      (patient, step). */
  lemma AddStepKeepsWf(st: State, pid: Id, step: CircuitStep, now: Time)
    requires Wf(st)
    ensures var r := Patients.AddStep(st, pid, step, now);
            r.Ok? ==>
              && Wf(r.value)
              && (NoDuplicateSteps(st.steps) ==> NoDuplicateSteps(r.value.steps))
  {
    var r := Patients.AddStep(st, pid, step, now);
    if r.Ok? {
      var row := NewStepRow(st.nextId, pid, step, now);
      WfAfterAppendedRow(st, r.value, row);
      if NoDuplicateSteps(st.steps) {
        AppendKeepsNoDuplicates(st.steps, row);
      }
    }
  }

  // ---------------------------------------------------------------------
  // The steps manager

  /** Completing a row in the manager keeps the store well formed. */
  lemma CompleteStepKeepsWf(st: State, stepId: Id, now: Time)
    requires Wf(st)
    ensures Wf(StepsManager.CompleteStep(st, stepId, now))
    ensures NoDuplicateSteps(st.steps) ==> NoDuplicateSteps(StepsManager.CompleteStep(st, stepId, now).steps)
  {
    WfFromKeptKeys(st, StepsManager.CompleteStep(st, stepId, now));
  }

  /** The manager's unguarded insert keeps the store well formed; only the
      offered step list keeps it free of duplicates (see
      `StepsManager.AdminAddOfferedKeepsNoDuplicates`). */
  lemma AdminAddStepKeepsWf(st: State, pid: Id, step: CircuitStep, now: Time)
    requires Wf(st)
    ensures var r := StepsManager.AdminAddStep(st, pid, step, now);
            r.Ok? ==> Wf(r.value)
  {
    var r := StepsManager.AdminAddStep(st, pid, step, now);
    if r.Ok? {
      WfAfterAppendedRow(st, r.value, NewStepRow(st.nextId, pid, step, now));
    }
  }

  /** Removing a row keeps the store well formed and free of duplicates. */
  lemma RemoveStepKeepsWf(st: State, stepId: Id)
    requires Wf(st)
    ensures Wf(StepsManager.RemoveStep(st, stepId))
    ensures NoDuplicateSteps(st.steps) ==> NoDuplicateSteps(StepsManager.RemoveStep(st, stepId).steps)
  {
    var st' := StepsManager.RemoveStep(st, stepId);
    FilteredStepsStayDistinct(st.steps, (r: StepRow) => r.id != stepId);
    forall i | 0 <= i < |st'.steps|
      ensures st'.steps[i].id < st'.nextId && HasPatient(st'.patients, st'.steps[i].patientId)
    {
      assert st'.steps[i] in st'.steps;
      var k :| 0 <= k < |st.steps| && st.steps[k] == st'.steps[i];
    }
  }

  /** Deleting a patient keeps the store well formed: what referred to the
      patient goes with it, and every other reference still resolves. */
  lemma DeletePatientKeepsWf(st: State, pid: Id)
    requires Wf(st)
    ensures Wf(StepsManager.DeletePatient(st, pid))
    ensures NoDuplicateSteps(st.steps) ==> NoDuplicateSteps(StepsManager.DeletePatient(st, pid).steps)
  {
    DeletedStoreKeepsIds(st, pid);
    DeletedStoreResolves(st, pid);
  }

  lemma DeletedStoreKeepsIds(st: State, pid: Id)
    requires Wf(st)
    ensures var st' := StepsManager.DeletePatient(st, pid);
            && UniquePatientIds(st'.patients)
            && UniqueStepIds(st'.steps)
            && UniqueTVCallIds(st'.tvCalls)
            && (forall i :: 0 <= i < |st'.patients| ==> st'.patients[i].id < st'.nextId)
            && (forall i :: 0 <= i < |st'.steps| ==> st'.steps[i].id < st'.nextId)
            && (forall i :: 0 <= i < |st'.tvCalls| ==> st'.tvCalls[i].id < st'.nextId)
            && (NoDuplicateSteps(st.steps) ==> NoDuplicateSteps(st'.steps))
  {
    var st' := StepsManager.DeletePatient(st, pid);
    FilteredStepsStayDistinct(st.steps, (r: StepRow) => r.patientId != pid);
    FilteredCallsStayDistinct(st.tvCalls, (t: TVCall) => t.patientId != pid);
    FilteredPatientsStayDistinct(st.patients, (p: Patient) => p.id != pid);
    forall i | 0 <= i < |st'.patients| ensures st'.patients[i].id < st'.nextId {
      assert st'.patients[i] in st'.patients;
      var k :| 0 <= k < |st.patients| && st.patients[k] == st'.patients[i];
    }
    forall i | 0 <= i < |st'.steps| ensures st'.steps[i].id < st'.nextId {
      assert st'.steps[i] in st'.steps;
      var k :| 0 <= k < |st.steps| && st.steps[k] == st'.steps[i];
    }
    forall i | 0 <= i < |st'.tvCalls| ensures st'.tvCalls[i].id < st'.nextId {
      assert st'.tvCalls[i] in st'.tvCalls;
      var k :| 0 <= k < |st.tvCalls| && st.tvCalls[k] == st'.tvCalls[i];
    }
  }

  lemma DeletedStoreResolves(st: State, pid: Id)
    requires RefIntegrity(st)
    ensures RefIntegrity(StepsManager.DeletePatient(st, pid))
  {
    var st' := StepsManager.DeletePatient(st, pid);
    forall id | id != pid && HasPatient(st.patients, id) ensures HasPatient(st'.patients, id) {
      var j :| 0 <= j < |st.patients| && st.patients[j].id == id;
      assert st.patients[j] in st'.patients;
      var k :| 0 <= k < |st'.patients| && st'.patients[k] == st.patients[j];
    }
    forall i | 0 <= i < |st'.steps| ensures HasPatient(st'.patients, st'.steps[i].patientId) {
      assert st'.steps[i] in st'.steps;
      var k :| 0 <= k < |st.steps| && st.steps[k] == st'.steps[i];
    }
    forall i | 0 <= i < |st'.tvCalls| ensures HasPatient(st'.patients, st'.tvCalls[i].patientId) {
      assert st'.tvCalls[i] in st'.tvCalls;
      var k :| 0 <= k < |st.tvCalls| && st.tvCalls[k] == st'.tvCalls[i];
    }
    forall i | 0 <= i < |st'.stations| && st'.stations[i].currentPatientId.Some?
      ensures HasPatient(st'.patients, st'.stations[i].currentPatientId.value)
    {
      assert st'.stations[i] == st.stations[i];
    }
  }
}
