/** The station control card: what it derives from the station, the loaded
    patients and the loaded step rows, and which actions it offers. */
module StationCard {
  import opened Base
  import opened Domain
  import QueueStats
  import StationActions
  import Patients

  datatype Action = CallNextAction | StartAction | FinishAction | AddImageAction

  /** What the card shows: the station's current patient among the loaded
      ones, that patient's row for the station's step, and the number of
      pending rows of the step. */
  datatype CardView = CardView(currentPatient: Option<Patient>, currentStep: Option<StepRow>, pendingCount: nat)

  function ViewOf(station: Station, ps: seq<Patient>, rows: seq<StepRow>): (v: CardView)
    ensures v.currentPatient.Some? <==>
              station.currentPatientId.Some? && HasPatient(ps, station.currentPatientId.value)
    ensures v.currentPatient.Some? ==>
              v.currentPatient.value in ps && Some(v.currentPatient.value.id) == station.currentPatientId
    ensures v.currentStep.Some? ==>
              && v.currentPatient.Some?
              && v.currentStep.value in rows
              && v.currentStep.value.patientId == v.currentPatient.value.id
              && v.currentStep.value.step == station.step
    ensures v.currentPatient.Some? ==>
              exists k :: && 0 <= k < |ps| && ps[k] == v.currentPatient.value
                          && forall j :: 0 <= j < k ==> ps[j].id != v.currentPatient.value.id
    ensures v.currentPatient.Some? && v.currentStep.Some? ==>
              exists k :: && 0 <= k < |rows| && rows[k] == v.currentStep.value
                          && forall j :: 0 <= j < k ==>
                               !(rows[j].patientId == v.currentPatient.value.id && rows[j].step == station.step)
    ensures v.currentPatient.Some? && v.currentStep.None? ==>
              !HasStep(rows, v.currentPatient.value.id, station.step)
    ensures v.pendingCount == QueueStats.StatFor(rows, station.step).pending
  {
    var current :=
      match station.currentPatientId
      case None => None
      case Some(pid) => PatientOf(ps, pid);
    PatientOfFinds(ps, if station.currentPatientId.Some? then station.currentPatientId.value else 0);
    var step :=
      match current
      case None => None
      case Some(p) => Find(rows, RowFor(p.id, station.step));
    CardView(current, step, Count(rows, QueueStats.PendingOf(station.step)))
  }

  predicate IsIdle(v: CardView) {
    v.currentPatient.None?
  }

  predicate IsCalled(v: CardView) {
    v.currentStep.Some? && v.currentStep.value.status == Called
  }

  predicate IsInProgress(v: CardView) {
    v.currentStep.Some? && v.currentStep.value.status == InProgress
  }

  /** The actions whose buttons the card renders. */
  function Offered(v: CardView): (acts: set<Action>)
    ensures CallNextAction in acts <==> v.currentPatient.None?
    ensures StartAction in acts <==> v.currentStep.Some? && v.currentStep.value.status == Called
    ensures FinishAction in acts <==> v.currentStep.Some? && v.currentStep.value.status == InProgress
    ensures AddImageAction in acts <==>
              FinishAction in acts && v.currentPatient.Some? && !v.currentPatient.value.needsImageExam
  {
    (if IsIdle(v) then {CallNextAction} else {})
    + (if IsCalled(v) then {StartAction} else {})
    + (if IsInProgress(v) then {FinishAction} else {})
    + (if IsInProgress(v) && v.currentPatient.Some? && !v.currentPatient.value.needsImageExam
       then {AddImageAction} else {})
  }

  /** The call button is disabled while no row of the step is pending. */
  predicate CallEnabled(v: CardView) {
    v.pendingCount > 0
  }

  /** The card never offers two of call, start and finish at once, and it
      only offers adding an image exam next to finish. */
  lemma AtMostOneMainAction(station: Station, ps: seq<Patient>, rows: seq<StepRow>)
    ensures var acts := Offered(ViewOf(station, ps, rows));
            && (CallNextAction in acts ==> StartAction !in acts && FinishAction !in acts)
            && (StartAction in acts ==> FinishAction !in acts)
            && (AddImageAction in acts ==> FinishAction in acts)
  {
    var v := ViewOf(station, ps, rows);
    assert v.currentStep.Some? ==> v.currentPatient.Some?;
  }

  /** A station whose current patient is loaded but whose row for the step
      is neither called nor in progress offers no action at all. */
  lemma NoActionWhenRowIsNotActive(station: Station, ps: seq<Patient>, rows: seq<StepRow>)
    requires station.currentPatientId.Some? && HasPatient(ps, station.currentPatientId.value)
    requires forall i ::
               (0 <= i < |rows| && rows[i].patientId == station.currentPatientId.value && rows[i].step == station.step)
               ==> rows[i].status in {Pending, Completed}
    ensures Offered(ViewOf(station, ps, rows)) == {}
  {
    var v := ViewOf(station, ps, rows);
    if v.currentStep.Some? {
      var j :| 0 <= j < |rows| && rows[j] == v.currentStep.value;
    }
  }

  /** Whenever a call could succeed, the call button is enabled: an eligible
      row is a pending row of the step. */
  lemma EligibleEnablesCall(st: State, station: Station, ps: seq<Patient>)
    requires exists i :: 0 <= i < |st.steps| && StationActions.IsEligible(st.patients, st.steps[i], station.step)
    ensures CallEnabled(ViewOf(station, ps, st.steps))
  {
    var i :| 0 <= i < |st.steps| && StationActions.IsEligible(st.patients, st.steps[i], station.step);
    assert QueueStats.PendingOf(station.step)(st.steps[i]);
  }

  /** The converse fails: the pending count also counts rows of patients
      who are being served at another station, whom the call skips. With
      one such row the button is enabled and the call finds nobody. */
  lemma EnabledCallMayFindNobody(p: Patient, station: Station, now: Time)
    requires p.isBeingServed && !p.isCompleted
    requires station.currentPatientId.None? && station.step == TriagemMedica
    ensures var st := State([p], [NewStepRow(p.id + 1, p.id, TriagemMedica, now)], [station], [], p.id + 2);
            && CallEnabled(ViewOf(station, [p], st.steps))
            && StationActions.CallNext(st, station, now) == Err(NoPatientsWaiting)
  {
    var st := State([p], [NewStepRow(p.id + 1, p.id, TriagemMedica, now)], [station], [], p.id + 2);
    assert QueueStats.PendingOf(station.step)(st.steps[0]);
    assert StationActions.ServingCount(st, station) == 0 by {
      assert !StationActions.ServingAt(station)(st.steps[0]);
    }
    PatientOfFinds(st.patients, p.id);
  }

  /** Right after a successful call, the card of the calling station shows
      the called patient with the called row and offers only "start". */
  lemma CallLeadsToStart(st: State, station: Station, now: Time)
    requires UniqueStepIds(st.steps) && NoDuplicateSteps(st.steps)
    ensures var r := StationActions.CallNext(st, station, now);
            r.Ok? ==>
              var station' := station.(currentPatientId := Some(r.value.chosen.patient.id));
              var v := ViewOf(station', Patients.ListPatients(r.value.state), r.value.state.steps);
              && v.currentPatient.Some?
              && v.currentPatient.value.id == r.value.chosen.patient.id
              && IsCalled(v)
              && Offered(v) == {StartAction}
  {
    var r := StationActions.CallNext(st, station, now);
    if r.Ok? {
      var c := r.value.chosen;
      CalledPatientStillListed(st, r.value.state, station, c, now);
      CalledRowIsFound(st, r.value.state, station, c, now);
      CardShowsCalled(station.(currentPatientId := Some(c.patient.id)), Patients.ListPatients(r.value.state),
                      r.value.state.steps, c.patient.id);
    }
  }

  lemma CardShowsCalled(station: Station, ps: seq<Patient>, rows: seq<StepRow>, pid: Id)
    requires station.currentPatientId == Some(pid) && HasPatient(ps, pid)
    requires var f := Find(rows, RowFor(pid, station.step));
             f.Some? && f.value.status == Called
    ensures var v := ViewOf(station, ps, rows);
            && v.currentPatient.Some?
            && v.currentPatient.value.id == pid
            && IsCalled(v)
            && Offered(v) == {StartAction}
  {
    var v := ViewOf(station, ps, rows);
    assert v.currentStep == Find(rows, RowFor(pid, station.step));
    var acts := Offered(v);
    assert acts == {StartAction} by {
      forall a ensures a in acts <==> a == StartAction {
        match a
        case CallNextAction =>
        case StartAction =>
        case FinishAction =>
        case AddImageAction =>
      }
    }
  }

  lemma CalledPatientStillListed(st: State, st': State, station: Station, c: Candidate, now: Time)
    requires c.row in st.steps && StationActions.IsEligible(st.patients, c.row, station.step)
    requires PatientOf(st.patients, c.row.patientId) == Some(c.patient)
    requires StationActions.CallEffects(st, st', station, c, now)
    ensures HasPatient(Patients.ListPatients(st'), c.patient.id)
  {
    PatientOfFinds(st.patients, c.row.patientId);
    var j :| 0 <= j < |st.patients| && st.patients[j] == c.patient;
    assert st'.patients[j] == c.patient.(isBeingServed := true);
    assert st'.patients[j] in st'.patients && !st'.patients[j].isCompleted;
    var r := Patients.ListPatients(st');
    assert st'.patients[j] in r;
    var k :| 0 <= k < |r| && r[k] == st'.patients[j];
  }

  lemma CalledRowIsFound(st: State, st': State, station: Station, c: Candidate, now: Time)
    requires UniqueStepIds(st.steps) && NoDuplicateSteps(st.steps)
    requires c.row in st.steps && StationActions.IsEligible(st.patients, c.row, station.step)
    requires PatientOf(st.patients, c.row.patientId) == Some(c.patient)
    requires StationActions.CallEffects(st, st', station, c, now)
    ensures var f := Find(st'.steps, RowFor(c.patient.id, station.step));
            f.Some? && f.value.status == Called
  {
    PatientOfFinds(st.patients, c.row.patientId);
    var pid := c.patient.id;
    var k :| 0 <= k < |st.steps| && st.steps[k] == c.row;
    assert RowFor(pid, station.step)(st'.steps[k]);
    forall j | 0 <= j < |st.steps| && j != k
      ensures !RowFor(pid, station.step)(st'.steps[j])
    {
      if j < k {
        assert st.steps[j].id != st.steps[k].id;
        assert !(st.steps[j].patientId == st.steps[k].patientId && st.steps[j].step == st.steps[k].step);
      } else {
        assert st.steps[k].id != st.steps[j].id;
        assert !(st.steps[k].patientId == st.steps[j].patientId && st.steps[k].step == st.steps[j].step);
      }
    }
  }
}
