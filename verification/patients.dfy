/** Registration with its step seeding, the guarded `addStep`, and the list
    of patients still in the circuit (the `usePatients` hooks). */
module Patients {
  import opened Base
  import opened Sorting
  import opened Domain

  /** What the registration form submits. */
  datatype Registration = Registration(
    name: string,
    registrationNumber: Option<string>,
    needsCardio: bool,
    needsImageExam: bool,
    isPriority: bool)

  /** Columns the registration insert leaves to the store's defaults. */
  datatype ColumnDefaults = ColumnDefaults(
    specialty: Specialty,
    flowType: FlowType,
    hasSurgeryIndication: Option<bool>,
    pendingSurgeryScheduling: Option<bool>)

  /** `registration_number || null`: an absent or empty number is stored as null. */
  function StoredRegistrationNumber(n: Option<string>): (r: Option<string>)
    ensures r.None? <==> n.None? || n.value == ""
    ensures r.Some? ==> r == n
  {
    match n
    case None => None
    case Some(s) => if s == "" then None else Some(s)
  }

  /** The step types a new patient is given: the three fixed pre-operative
      steps, then cardiology and imaging when declared. The flow type plays
      no part. */
  function SeedSteps(needsCardio: bool, needsImageExam: bool): (r: seq<CircuitStep>)
    ensures |r| >= 3 && r[..3] == [TriagemMedica, ExamesLabEcg, Agendamento]
    ensures Cardiologista in r <==> needsCardio
    ensures ExameImagem in r <==> needsImageExam
    ensures Especialista !in r
    ensures |r| == 3 + (if needsCardio then 1 else 0) + (if needsImageExam then 1 else 0)
    ensures forall i, j :: 0 <= i < j < |r| ==> r[i] != r[j]
    ensures needsCardio && needsImageExam ==> r[3] == Cardiologista && r[4] == ExameImagem
  {
    [TriagemMedica, ExamesLabEcg, Agendamento]
    + (if needsCardio then [Cardiologista] else [])
    + (if needsImageExam then [ExameImagem] else [])
  }

  /** The pending rows seeded for patient `pid`, with ids from `firstId` on. */
  function SeedRows(pid: Id, kinds: seq<CircuitStep>, firstId: Id, now: Time): (r: seq<StepRow>)
    ensures |r| == |kinds|
    ensures forall i :: 0 <= i < |r| ==> r[i] == NewStepRow(firstId + i, pid, kinds[i], now)
  {
    seq(|kinds|, i requires 0 <= i < |kinds| => NewStepRow(firstId + i, pid, kinds[i], now))
  }

  function NewPatient(id: Id, reg: Registration, defaults: ColumnDefaults, now: Time): Patient {
    Patient(id, reg.name, StoredRegistrationNumber(reg.registrationNumber),
            defaults.specialty, defaults.flowType,
            reg.needsCardio, reg.needsImageExam, reg.isPriority,
            false, false,
            defaults.hasSurgeryIndication, defaults.pendingSurgeryScheduling, None,
            now, None)
  }

  /** Registers a patient: one new patient row, then its seeded step rows,
      all pending and all owned by the new patient. */
  function Register(st: State, reg: Registration, defaults: ColumnDefaults, now: Time): (st': State)
    ensures st'.patients == st.patients + [NewPatient(st.nextId, reg, defaults, now)]
    ensures |st'.steps| == |st.steps| + |SeedSteps(reg.needsCardio, reg.needsImageExam)|
    ensures st'.steps[..|st.steps|] == st.steps
    ensures forall i :: |st.steps| <= i < |st'.steps| ==>
              && st'.steps[i].patientId == st.nextId
              && st'.steps[i].status == Pending
              && st'.steps[i].step == SeedSteps(reg.needsCardio, reg.needsImageExam)[i - |st.steps|]
    ensures st'.stations == st.stations && st'.tvCalls == st.tvCalls
    ensures st'.nextId > st.nextId
  {
    var pid := st.nextId;
    var kinds := SeedSteps(reg.needsCardio, reg.needsImageExam);
    st.(
      patients := st.patients + [NewPatient(pid, reg, defaults, now)],
      steps := st.steps + SeedRows(pid, kinds, pid + 1, now),
      nextId := pid + 1 + |kinds|)
  }

  /** In a well-formed store the seeded rows are the new patient's only rows,
      one per seeded step type, so the new patient has no duplicate step. */
  lemma RegisterSeedsOnlyNewPatient(st: State, reg: Registration, defaults: ColumnDefaults, now: Time)
    requires Wf(st)
    ensures var st' := Register(st, reg, defaults, now);
            && (forall i :: 0 <= i < |st'.steps| && st'.steps[i].patientId == st.nextId ==> |st.steps| <= i)
            && (forall k :: k in SeedSteps(reg.needsCardio, reg.needsImageExam) <==>
                  HasStep(st'.steps, st.nextId, k))
            && (NoDuplicateSteps(st.steps) ==> NoDuplicateSteps(st'.steps))
  {
    var st' := Register(st, reg, defaults, now);
    var kinds := SeedSteps(reg.needsCardio, reg.needsImageExam);
    var n := |st.steps|;
    forall i | 0 <= i < n
      ensures st'.steps[i].patientId != st.nextId
    {
      assert st'.steps[i] == st.steps[i];
      var j :| 0 <= j < |st.patients| && st.patients[j].id == st.steps[i].patientId;
    }
    forall k | HasStep(st'.steps, st.nextId, k)
      ensures k in kinds
    {
      var i :| 0 <= i < |st'.steps| && st'.steps[i].patientId == st.nextId && st'.steps[i].step == k;
      assert kinds[i - n] == k;
    }
    forall k | k in kinds
      ensures HasStep(st'.steps, st.nextId, k)
    {
      var j :| 0 <= j < |kinds| && kinds[j] == k;
      assert st'.steps[n + j].step == k;
    }
  }

  // ---------------------------------------------------------------------
  // addStep

  /** `addStep`: refuses when any row for (patient, step) exists, whatever its
      status; otherwise inserts exactly one pending row. The store refuses a
      row for an unknown patient. */
  function AddStep(st: State, pid: Id, step: CircuitStep, now: Time): (r: Result<State, Error>)
    ensures HasStep(st.steps, pid, step) ==> r == Err(StepAlreadyExists)
    ensures !HasStep(st.steps, pid, step) && !HasPatient(st.patients, pid) ==> r == Err(UnknownPatient)
    ensures r.Ok? <==> !HasStep(st.steps, pid, step) && HasPatient(st.patients, pid)
    ensures r.Ok? ==>
              && r.value.steps == st.steps + [NewStepRow(st.nextId, pid, step, now)]
              && r.value.patients == st.patients
              && r.value.stations == st.stations
              && r.value.tvCalls == st.tvCalls
              && r.value.nextId == st.nextId + 1
  {
    if Count(st.steps, RowFor(pid, step)) > 0 then Err(StepAlreadyExists)
    else if !HasPatient(st.patients, pid) then Err(UnknownPatient)
    else Ok(st.(steps := st.steps + [NewStepRow(st.nextId, pid, step, now)], nextId := st.nextId + 1))
  }

  /** `addStep` with the duplicate probe exactly as written (`.maybeSingle()`,
      whose multiple-rows error is ignored). */
  function AddStepAsWritten(st: State, pid: Id, step: CircuitStep, now: Time): (r: Result<State, Error>)
    ensures ProbeFindsRowAsWritten(st.steps, pid, step) ==> r == Err(StepAlreadyExists)
    ensures r.Ok? ==> r.value.steps == st.steps + [NewStepRow(st.nextId, pid, step, now)]
    ensures NoDuplicateSteps(st.steps) ==> r == AddStep(st, pid, step, now)
  {
    ProbeAgreesWithoutDuplicates(st.steps, pid, step);
    if ProbeFindsRowAsWritten(st.steps, pid, step) then Err(StepAlreadyExists)
    else if !HasPatient(st.patients, pid) then Err(UnknownPatient)
    else Ok(st.(steps := st.steps + [NewStepRow(st.nextId, pid, step, now)], nextId := st.nextId + 1))
  }

  /** Once two rows of `step` exist for a patient, the as-written probe lets
      a third one in, while the corrected `AddStep` refuses. */
  lemma AddStepProbeAdmitsThirdRow(st: State, pid: Id, step: CircuitStep, now: Time)
    requires HasPatient(st.patients, pid)
    requires Count(st.steps, RowFor(pid, step)) == 2
    ensures AddStepAsWritten(st, pid, step, now).Ok?
    ensures Count(AddStepAsWritten(st, pid, step, now).value.steps, RowFor(pid, step)) == 3
    ensures AddStep(st, pid, step, now) == Err(StepAlreadyExists)
  {
    var row := NewStepRow(st.nextId, pid, step, now);
    CountConcat(st.steps, [row], RowFor(pid, step));
    assert Count([row], RowFor(pid, step)) == 1;
  }

  /** Adding a step twice in a row: the second attempt is refused and exactly
      one row for the pair exists. */
  lemma AddStepTwiceConflicts(st: State, pid: Id, step: CircuitStep, now: Time, later: Time)
    requires !HasStep(st.steps, pid, step) && HasPatient(st.patients, pid)
    ensures var st1 := AddStep(st, pid, step, now).value;
            && AddStep(st1, pid, step, later) == Err(StepAlreadyExists)
            && Count(st1.steps, RowFor(pid, step)) == 1
  {
    var row := NewStepRow(st.nextId, pid, step, now);
    var st1 := AddStep(st, pid, step, now).value;
    assert st1.steps[|st.steps|] == row;
    CountConcat(st.steps, [row], RowFor(pid, step));
    assert Count([row], RowFor(pid, step)) == 1;
  }

  // ---------------------------------------------------------------------
  // The patient list

  predicate StillInCircuit(p: Patient) {
    !p.isCompleted
  }

  function ByCreatedAt(a: Patient, b: Patient): bool {
    a.createdAt <= b.createdAt
  }

  lemma ByCreatedAtIsTotalPreorder()
    ensures TotalPreorder(ByCreatedAt)
  {
  }

  /** The patient list: patients not yet completed, oldest registration first. */
  function ListPatients(st: State): (r: seq<Patient>)
    ensures forall i :: 0 <= i < |r| ==> r[i] in st.patients && !r[i].isCompleted
    ensures forall p :: p in st.patients && !p.isCompleted ==> p in r
    ensures |r| == Count(st.patients, StillInCircuit)
    ensures forall i, j :: 0 <= i < j < |r| ==> r[i].createdAt <= r[j].createdAt
  {
    ByCreatedAtIsTotalPreorder();
    var waiting := Filter(st.patients, StillInCircuit);
    var r := SortBy(waiting, ByCreatedAt);
    ListedCount(st.patients, waiting, r);
    ListedAreWaiting(st.patients, waiting, r);
    WaitingAreListed(st.patients, waiting, r);
    r
  }

  lemma ListedCount(ps: seq<Patient>, waiting: seq<Patient>, r: seq<Patient>)
    requires waiting == Filter(ps, StillInCircuit)
    requires multiset(r) == multiset(waiting)
    ensures |r| == Count(ps, StillInCircuit)
  {
    FilterLength(ps, StillInCircuit);
    assert |r| == |multiset(r)|;
  }

  lemma ListedAreWaiting(ps: seq<Patient>, waiting: seq<Patient>, r: seq<Patient>)
    requires waiting == Filter(ps, StillInCircuit)
    requires multiset(r) == multiset(waiting)
    ensures forall i :: 0 <= i < |r| ==> r[i] in ps && !r[i].isCompleted
  {
    PermutationKeepsMembers(waiting, r);
    forall i | 0 <= i < |r|
      ensures r[i] in ps && !r[i].isCompleted
    {
      assert r[i] in waiting;
      var j :| 0 <= j < |waiting| && waiting[j] == r[i];
    }
  }

  lemma WaitingAreListed(ps: seq<Patient>, waiting: seq<Patient>, r: seq<Patient>)
    requires waiting == Filter(ps, StillInCircuit)
    requires multiset(r) == multiset(waiting)
    ensures forall p :: p in ps && !p.isCompleted ==> p in r
  {
    PermutationKeepsMembers(waiting, r);
    forall p | p in ps && !p.isCompleted
      ensures p in r
    {
      var j :| 0 <= j < |ps| && ps[j] == p;
      assert StillInCircuit(ps[j]);
    }
  }
}
