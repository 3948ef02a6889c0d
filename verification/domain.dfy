/** The rows of the patient-flow store (patients, patient steps, stations,
    TV calls) and the immutable store state the commands act on. */
module Domain {
  import opened Base

  /** Row identifiers. The store generates uuids; the model draws fresh
      numbers from `State.nextId`. */
  type Id = nat

  /** Timestamps, in milliseconds since the epoch (JavaScript's
      `Date.getTime()`). */
  type Time = nat

  datatype CircuitStep =
    | TriagemMedica
    | ExamesLabEcg
    | Agendamento
    | Cardiologista
    | ExameImagem
    | Especialista

  datatype StepStatus = Pending | Called | InProgress | Completed

  datatype Specialty =
    | Ortopedia | Otorrino | Oftalmo | Trauma | Geral | Urologia | Ginecologia | Outros

  datatype FlowType = ConsultaEspecialista | CircuitoPreop

  datatype Patient = Patient(
    id: Id,
    name: string,
    registrationNumber: Option<string>,
    specialty: Specialty,
    flowType: FlowType,
    needsCardio: bool,
    needsImageExam: bool,
    isPriority: bool,
    isBeingServed: bool,
    isCompleted: bool,
    hasSurgeryIndication: Option<bool>,
    pendingSurgeryScheduling: Option<bool>,
    schedulingPendingAt: Option<Time>,
    createdAt: Time,
    completedAt: Option<Time>)

  /** One row of `patient_steps`: one circuit step owed by one patient. */
  datatype StepRow = StepRow(
    id: Id,
    patientId: Id,
    step: CircuitStep,
    status: StepStatus,
    calledAt: Option<Time>,
    startedAt: Option<Time>,
    completedAt: Option<Time>,
    stationNumber: Option<int>,
    createdAt: Time)

  datatype Station = Station(
    id: Id,
    step: CircuitStep,
    stationNumber: int,
    name: string,
    isActive: bool,
    currentPatientId: Option<Id>,
    currentSpecialty: Option<Specialty>,
    createdAt: Time)

  /** One announcement on the waiting-room display. */
  datatype TVCall = TVCall(
    id: Id,
    patientId: Id,
    patientName: string,
    step: CircuitStep,
    stationNumber: int,
    stationName: string,
    calledAt: Time,
    isActive: bool)

  datatype State = State(
    patients: seq<Patient>,
    steps: seq<StepRow>,
    stations: seq<Station>,
    tvCalls: seq<TVCall>,
    nextId: Id)

  /** A pending step joined with its owning patient (the inner join the
      call query performs). */
  datatype Candidate = Candidate(row: StepRow, patient: Patient)

  /** The typed failure reasons of the commands. */
  datatype Error =
    | StationFull(count: nat)
    | NoPatientsWaiting
    | NoPatientCalled
    | NoPatientInService
    | StepAlreadyAdded(step: CircuitStep)
    | StepAlreadyExists
    | UnknownPatient

  /** The five pre-operative circuit steps in display order; the specialist
      consultation is not among them. */
  const CircuitSteps: seq<CircuitStep> :=
    [TriagemMedica, ExamesLabEcg, Agendamento, Cardiologista, ExameImagem]

  /** How many patients a station may hold in `called`/`in_progress` at once. */
  function Capacity(step: CircuitStep): nat {
    if step == ExamesLabEcg || step == Agendamento then 2 else 1
  }

  /** The patient row with identifier `id`, if one is loaded. */
  function PatientOf(ps: seq<Patient>, id: Id): Option<Patient> {
    Find(ps, (p: Patient) => p.id == id)
  }

  /** Whether a patient row with identifier `id` exists. */
  predicate HasPatient(ps: seq<Patient>, id: Id) {
    exists j :: 0 <= j < |ps| && ps[j].id == id
  }

  lemma PatientOfFinds(ps: seq<Patient>, id: Id)
    ensures PatientOf(ps, id).Some? <==> HasPatient(ps, id)
    ensures PatientOf(ps, id).Some? ==> PatientOf(ps, id).value in ps && PatientOf(ps, id).value.id == id
  {
  }

  /** Selects the rows of patient `pid` for `step`. */
  function RowFor(pid: Id, step: CircuitStep): StepRow -> bool {
    (r: StepRow) => r.patientId == pid && r.step == step
  }

  /** Selects the rows owned by patient `pid`. */
  function OwnedBy(pid: Id): StepRow -> bool {
    (r: StepRow) => r.patientId == pid
  }

  /** The rows of patient `pid`, in store order (`getPatientSteps`). */
  function StepsOf(rows: seq<StepRow>, pid: Id): seq<StepRow> {
    Filter(rows, OwnedBy(pid))
  }

  /** Whether `rows` holds any row, in any status, for (`pid`, `step`). */
  predicate HasStep(rows: seq<StepRow>, pid: Id, step: CircuitStep) {
    exists i :: 0 <= i < |rows| && rows[i].patientId == pid && rows[i].step == step
  }

  /** The duplicate probe as the hooks write it: `.maybeSingle()` returns a
      row only when exactly one matches. With two or more matches it returns
      no row and an error, which the hooks do not inspect, so the probe then
      reads as "no row found". */
  predicate ProbeFindsRowAsWritten(rows: seq<StepRow>, pid: Id, step: CircuitStep) {
    Count(rows, RowFor(pid, step)) == 1
  }

  /** Without duplicate rows the as-written probe and `HasStep` agree. */
  lemma ProbeAgreesWithoutDuplicates(rows: seq<StepRow>, pid: Id, step: CircuitStep)
    ensures NoDuplicateSteps(rows) ==> ProbeFindsRowAsWritten(rows, pid, step) == HasStep(rows, pid, step)
  {
    if NoDuplicateSteps(rows) {
      CountAtMostOne(rows, RowFor(pid, step));
    }
  }

  /** A new pending row with no timestamps and no station, as the store's
      column defaults give it. */
  function NewStepRow(id: Id, pid: Id, step: CircuitStep, now: Time): StepRow {
    StepRow(id, pid, step, Pending, None, None, None, None, now)
  }

  predicate IsOpen(r: StepRow) {
    r.status != Completed
  }

  /** Every step row of patient `pid` is completed. */
  predicate AllStepsCompleted(rows: seq<StepRow>, pid: Id) {
    forall i :: 0 <= i < |rows| && rows[i].patientId == pid ==> rows[i].status == Completed
  }

  ghost predicate UniquePatientIds(ps: seq<Patient>) {
    forall i, j :: 0 <= i < j < |ps| ==> ps[i].id != ps[j].id
  }

  ghost predicate UniqueStepIds(rows: seq<StepRow>) {
    forall i, j :: 0 <= i < j < |rows| ==> rows[i].id != rows[j].id
  }

  ghost predicate UniqueTVCallIds(calls: seq<TVCall>) {
    forall i, j :: 0 <= i < j < |calls| ==> calls[i].id != calls[j].id
  }

  /** Identifiers are unique per table and all drawn below `nextId`, and
      every reference to a patient resolves. */
  ghost predicate Wf(st: State) {
    && UniquePatientIds(st.patients)
    && UniqueStepIds(st.steps)
    && UniqueTVCallIds(st.tvCalls)
    && (forall i :: 0 <= i < |st.patients| ==> st.patients[i].id < st.nextId)
    && (forall i :: 0 <= i < |st.steps| ==> st.steps[i].id < st.nextId)
    && (forall i :: 0 <= i < |st.tvCalls| ==> st.tvCalls[i].id < st.nextId)
    && RefIntegrity(st)
  }

  /** The store's foreign keys: step rows, TV calls and station bindings all
      name an existing patient. */
  ghost predicate RefIntegrity(st: State) {
    && (forall i :: 0 <= i < |st.steps| ==> HasPatient(st.patients, st.steps[i].patientId))
    && (forall i :: 0 <= i < |st.tvCalls| ==> HasPatient(st.patients, st.tvCalls[i].patientId))
    && (forall i :: 0 <= i < |st.stations| && st.stations[i].currentPatientId.Some? ==>
          HasPatient(st.patients, st.stations[i].currentPatientId.value))
  }

  /** At most one row per (patient, step): the guarded inserts keep this. */
  ghost predicate NoDuplicateSteps(rows: seq<StepRow>) {
    forall i, j :: 0 <= i < j < |rows| ==>
      !(rows[i].patientId == rows[j].patientId && rows[i].step == rows[j].step)
  }

  /** Appending a row for a (patient, step) pair not yet present keeps the
      rows free of duplicates. */
  lemma AppendKeepsNoDuplicates(rows: seq<StepRow>, row: StepRow)
    requires NoDuplicateSteps(rows)
    requires !HasStep(rows, row.patientId, row.step)
    ensures NoDuplicateSteps(rows + [row])
  {
    var rows' := rows + [row];
    forall i, j | 0 <= i < j < |rows'|
      ensures !(rows'[i].patientId == rows'[j].patientId && rows'[i].step == rows'[j].step)
    {
      if j == |rows| {
        assert rows'[i] == rows[i];
      }
    }
  }
}
