/** The station actions of `useStationActions`: call the next patient,
    start and finish service, and add an imaging or cardiology step to the
    patient being served. Each action is one atomic state transition. */
module StationActions {
  import opened Base
  import opened Sorting
  import opened Domain

  /** The call query fetches at most this many of the oldest waiting steps. */
  const WindowSize: nat := 10

  // ---------------------------------------------------------------------
  // Capacity

  /** A row this station is currently serving: the station's step, called or
      in progress, under this station's number. */
  function ServingAt(station: Station): StepRow -> bool {
    (r: StepRow) =>
      && r.step == station.step
      && (r.status == Called || r.status == InProgress)
      && r.stationNumber == Some(station.stationNumber)
  }

  function ServingCount(st: State, station: Station): nat {
    Count(st.steps, ServingAt(station))
  }

  // ---------------------------------------------------------------------
  // Candidates, window and selection

  /** A pending row of `step` whose owning patient exists and is neither
      completed nor being served elsewhere. */
  predicate IsEligible(ps: seq<Patient>, r: StepRow, step: CircuitStep) {
    && r.step == step
    && r.status == Pending
    && PatientOf(ps, r.patientId).Some?
    && !PatientOf(ps, r.patientId).value.isCompleted
    && !PatientOf(ps, r.patientId).value.isBeingServed
  }

  /** Selects the rows eligible for a call at `step`. */
  function EligibleFor(ps: seq<Patient>, step: CircuitStep): StepRow -> bool {
    (r: StepRow) => IsEligible(ps, r, step)
  }

  /** The eligible rows of `rows`, in store order, joined with their patient. */
  function CandidatesFrom(rows: seq<StepRow>, ps: seq<Patient>, step: CircuitStep): (r: seq<Candidate>)
    ensures |r| == Count(rows, EligibleFor(ps, step))
    ensures var eligible := Filter(rows, EligibleFor(ps, step));
            |eligible| == |r| && forall i :: 0 <= i < |r| ==> r[i].row == eligible[i]
    ensures forall i :: 0 <= i < |r| ==>
              && r[i].row in rows
              && IsEligible(ps, r[i].row, step)
              && PatientOf(ps, r[i].row.patientId) == Some(r[i].patient)
    ensures forall i :: 0 <= i < |rows| && IsEligible(ps, rows[i], step) ==>
              exists c :: c in r && c.row == rows[i]
  {
    var eligible := Filter(rows, EligibleFor(ps, step));
    FilterLength(rows, EligibleFor(ps, step));
    var r := seq(|eligible|, i requires 0 <= i < |eligible| && IsEligible(ps, eligible[i], step) =>
                               Candidate(eligible[i], PatientOf(ps, eligible[i].patientId).value));
    CandidatesCoverEligible(rows, ps, step, eligible, r);
    r
  }

  lemma CandidatesCoverEligible(rows: seq<StepRow>, ps: seq<Patient>, step: CircuitStep,
                                eligible: seq<StepRow>, r: seq<Candidate>)
    requires eligible == Filter(rows, EligibleFor(ps, step))
    requires |r| == |eligible| && forall i :: 0 <= i < |r| ==> r[i].row == eligible[i]
    ensures forall i :: 0 <= i < |rows| && IsEligible(ps, rows[i], step) ==>
              exists c :: c in r && c.row == rows[i]
  {
    forall i | 0 <= i < |rows| && IsEligible(ps, rows[i], step)
      ensures exists c :: c in r && c.row == rows[i]
    {
      EligibleRowIsKept(rows, ps, step, eligible, i);
      var j :| 0 <= j < |eligible| && eligible[j] == rows[i];
      assert r[j] in r;
    }
  }

  lemma EligibleRowIsKept(rows: seq<StepRow>, ps: seq<Patient>, step: CircuitStep, eligible: seq<StepRow>, i: nat)
    requires eligible == Filter(rows, EligibleFor(ps, step))
    requires i < |rows| && IsEligible(ps, rows[i], step)
    ensures exists j :: 0 <= j < |eligible| && eligible[j] == rows[i]
  {
    assert EligibleFor(ps, step)(rows[i]);
    assert rows[i] in eligible;
  }

  function Candidates(st: State, step: CircuitStep): seq<Candidate> {
    CandidatesFrom(st.steps, st.patients, step)
  }

  /** The store's `order('created_at', ascending)` on the step row. */
  function OlderOrSame(a: Candidate, b: Candidate): bool {
    a.row.createdAt <= b.row.createdAt
  }

  /** The in-memory comparator: priority patients first, then the older step. */
  function PriorityThenAge(a: Candidate, b: Candidate): bool {
    || (a.patient.isPriority && !b.patient.isPriority)
    || (a.patient.isPriority == b.patient.isPriority && a.row.createdAt <= b.row.createdAt)
  }

  lemma CandidateOrders()
    ensures TotalPreorder(OlderOrSame)
    ensures TotalPreorder(PriorityThenAge)
  {
  }

  /** The oldest `WindowSize` candidates by step creation time. */
  function Window(cands: seq<Candidate>): (w: seq<Candidate>)
    ensures |w| == if |cands| < WindowSize then |cands| else WindowSize
    ensures multiset(w) <= multiset(cands)
    ensures |cands| <= WindowSize ==> multiset(w) == multiset(cands)
    ensures forall c, x :: c in cands && c !in w && x in w ==> x.row.createdAt <= c.row.createdAt
  {
    CandidateOrders();
    var sorted := SortBy(cands, OlderOrSame);
    var k := if |cands| < WindowSize then |cands| else WindowSize;
    PrefixOfSorted(cands, sorted, k);
    sorted[..k]
  }

  lemma PrefixOfSorted(cands: seq<Candidate>, sorted: seq<Candidate>, k: nat)
    requires SortedBy(sorted, OlderOrSame) && multiset(sorted) == multiset(cands) && k <= |sorted|
    ensures multiset(sorted[..k]) <= multiset(cands)
    ensures k == |cands| ==> multiset(sorted[..k]) == multiset(cands)
    ensures forall c, x :: c in cands && c !in sorted[..k] && x in sorted[..k] ==>
              x.row.createdAt <= c.row.createdAt
  {
    SortedPrefixIsLeast(cands, sorted, k, OlderOrSame);
    PrefixMultiset(cands, sorted, k);
  }

  lemma PrefixMultiset(cands: seq<Candidate>, sorted: seq<Candidate>, k: nat)
    requires multiset(sorted) == multiset(cands) && k <= |sorted|
    ensures multiset(sorted[..k]) <= multiset(cands)
    ensures k == |cands| ==> multiset(sorted[..k]) == multiset(cands)
  {
    assert sorted == sorted[..k] + sorted[k..];
    assert multiset(sorted) == multiset(sorted[..k]) + multiset(sorted[k..]);
    assert |multiset(sorted)| == |multiset(cands)|;
    if k == |cands| {
      assert sorted[..k] == sorted;
    }
  }

  /** The head of the window once sorted priority-first, then by age. */
  function Select(window: seq<Candidate>): (c: Candidate)
    requires |window| > 0
    ensures c in window
    ensures (exists x :: x in window && x.patient.isPriority) ==> c.patient.isPriority
    ensures forall x :: x in window && x.patient.isPriority == c.patient.isPriority ==>
              c.row.createdAt <= x.row.createdAt
  {
    CandidateOrders();
    var sorted := SortBy(window, PriorityThenAge);
    SortedHeadIsLeast(window, sorted, PriorityThenAge);
    assert sorted[0] in multiset(window);
    sorted[0]
  }

  // ---------------------------------------------------------------------
  // Call next

  /** A successful call: the new state and the candidate that was called. */
  datatype CallOutcome = CallOutcome(state: State, chosen: Candidate)

  /** The four writes of a call: the patient is being served, the row is
      called at this station, the station points at the patient, and one
      active TV call is appended. */
  function Commit(st: State, station: Station, c: Candidate, now: Time): State {
    st.(
      patients := Updated(st.patients, (p: Patient) => p.id == c.patient.id,
                          (p: Patient) => p.(isBeingServed := true)),
      steps := Updated(st.steps, (r: StepRow) => r.id == c.row.id,
                       (r: StepRow) => r.(status := Called, calledAt := Some(now),
                                          stationNumber := Some(station.stationNumber))),
      stations := Updated(st.stations, (s: Station) => s.id == station.id,
                          (s: Station) => s.(currentPatientId := Some(c.patient.id))),
      tvCalls := st.tvCalls + [TVCall(st.nextId, c.patient.id, c.patient.name, station.step,
                                      station.stationNumber, station.name, now, true)],
      nextId := st.nextId + 1)
  }

  /** `st'` is `st` after calling candidate `c` to `station` at `now`, with
      nothing else changed. */
  predicate CallEffects(st: State, st': State, station: Station, c: Candidate, now: Time) {
    && |st'.patients| == |st.patients|
    && (forall i :: 0 <= i < |st.patients| ==>
          st'.patients[i] == if st.patients[i].id == c.patient.id
                             then st.patients[i].(isBeingServed := true) else st.patients[i])
    && |st'.steps| == |st.steps|
    && (forall i :: 0 <= i < |st.steps| ==>
          st'.steps[i] == if st.steps[i].id == c.row.id
                          then st.steps[i].(status := Called, calledAt := Some(now),
                                            stationNumber := Some(station.stationNumber))
                          else st.steps[i])
    && |st'.stations| == |st.stations|
    && (forall i :: 0 <= i < |st.stations| ==>
          st'.stations[i] == if st.stations[i].id == station.id
                             then st.stations[i].(currentPatientId := Some(c.patient.id))
                             else st.stations[i])
    && st'.tvCalls == st.tvCalls + [TVCall(st.nextId, c.patient.id, c.patient.name, station.step,
                                           station.stationNumber, station.name, now, true)]
    && st'.nextId == st.nextId + 1
  }

  /** Calls the next patient to `station`: refuses when the station is full,
      fails when nobody is waiting, otherwise picks from the ten oldest
      waiting steps the priority patient first, then the oldest step. */
  function CallNext(st: State, station: Station, now: Time): (r: Result<CallOutcome, Error>)
    ensures ServingCount(st, station) >= Capacity(station.step) ==>
              r == Err(StationFull(ServingCount(st, station)))
    ensures ServingCount(st, station) < Capacity(station.step) ==>
              (r == Err(NoPatientsWaiting) <==>
               forall i :: 0 <= i < |st.steps| ==> !IsEligible(st.patients, st.steps[i], station.step))
    ensures r.Err? ==> r.error.StationFull? || r.error == NoPatientsWaiting
    ensures r.Ok? ==>
              var c := r.value.chosen;
              var w := Window(Candidates(st, station.step));
              && c.row in st.steps
              && IsEligible(st.patients, c.row, station.step)
              && PatientOf(st.patients, c.row.patientId) == Some(c.patient)
              && c in w
              && ((exists x :: x in w && x.patient.isPriority) ==> c.patient.isPriority)
              && (forall x :: x in w && x.patient.isPriority == c.patient.isPriority ==>
                    c.row.createdAt <= x.row.createdAt)
              && CallEffects(st, r.value.state, station, c, now)
  {
    var count := ServingCount(st, station);
    if count >= Capacity(station.step) then Err(StationFull(count))
    else
      var cands := Candidates(st, station.step);
      NoCandidatesIff(st, station.step);
      if |cands| == 0 then Err(NoPatientsWaiting)
      else
        var c := Select(Window(cands));
        ChosenIsCandidate(cands, c);
        CommitEffects(st, station, c, now);
        Ok(CallOutcome(Commit(st, station, c, now), c))
  }

  lemma NoCandidatesIff(st: State, step: CircuitStep)
    ensures |Candidates(st, step)| == 0 <==>
              forall i :: 0 <= i < |st.steps| ==> !IsEligible(st.patients, st.steps[i], step)
  {
    var cands := Candidates(st, step);
    if |cands| > 0 {
      assert cands[0].row in st.steps;
    }
  }

  lemma ChosenIsCandidate(cands: seq<Candidate>, c: Candidate)
    requires c in Window(cands)
    ensures c in cands
  {
    assert c in multiset(Window(cands));
  }

  lemma CommitEffects(st: State, station: Station, c: Candidate, now: Time)
    ensures CallEffects(st, Commit(st, station, c, now), station, c, now)
  {
  }

  /** A successful call fills one more place at the station and never
      exceeds its capacity. */
  lemma CallNextRespectsCapacity(st: State, station: Station, now: Time)
    requires Wf(st)
    ensures var r := CallNext(st, station, now);
            r.Ok? ==>
              && ServingCount(r.value.state, station) == ServingCount(st, station) + 1
              && ServingCount(r.value.state, station) <= Capacity(station.step)
  {
    var r := CallNext(st, station, now);
    if r.Ok? {
      CalledRowStartsServing(st, r.value.state, station, r.value.chosen, now);
    }
  }

  lemma CalledRowStartsServing(st: State, st': State, station: Station, c: Candidate, now: Time)
    requires UniqueStepIds(st.steps)
    requires c.row in st.steps && c.row.status == Pending && c.row.step == station.step
    requires CallEffects(st, st', station, c, now)
    ensures ServingCount(st', station) == ServingCount(st, station) + 1
  {
    var k :| 0 <= k < |st.steps| && st.steps[k] == c.row;
    forall i | 0 <= i < |st.steps| && i != k
      ensures st'.steps[i] == st.steps[i]
    {
      if i < k {
        assert st.steps[i].id != st.steps[k].id;
      } else {
        assert st.steps[k].id != st.steps[i].id;
      }
    }
    CountOneMore(st.steps, st'.steps, k, ServingAt(station));
  }

  /** When ten or fewer steps are waiting, the window is the whole queue, so
      the called step is the priority-first, oldest step among all waiting. */
  lemma CallNextSmallQueueIsPriorityThenAge(st: State, station: Station, now: Time)
    requires |Candidates(st, station.step)| <= WindowSize
    ensures var r := CallNext(st, station, now);
            var all := Candidates(st, station.step);
            r.Ok? ==>
              && ((exists x :: x in all && x.patient.isPriority) ==> r.value.chosen.patient.isPriority)
              && (forall x :: x in all && x.patient.isPriority == r.value.chosen.patient.isPriority ==>
                    r.value.chosen.row.createdAt <= x.row.createdAt)
  {
    var all := Candidates(st, station.step);
    var w := Window(all);
    assert forall x :: x in all ==> x in w by {
      forall x | x in all ensures x in w {
        assert x in multiset(all);
      }
    }
  }

  // ---------------------------------------------------------------------
  // Start and finish

  /** Starts service for the station's current patient: every row of that
      patient for the station's step goes in progress, and that patient's TV
      calls for the step are switched off. */
  function Start(st: State, station: Station, now: Time): (r: Result<State, Error>)
    ensures r.Err? <==> station.currentPatientId.None?
    ensures r.Err? ==> r.error == NoPatientCalled
    ensures r.Ok? ==>
              var pid := station.currentPatientId.value;
              var st' := r.value;
              && st'.patients == st.patients
              && st'.stations == st.stations
              && st'.nextId == st.nextId
              && |st'.steps| == |st.steps|
              && (forall i :: 0 <= i < |st.steps| ==>
                    st'.steps[i] == if st.steps[i].patientId == pid && st.steps[i].step == station.step
                                    then st.steps[i].(status := InProgress, startedAt := Some(now))
                                    else st.steps[i])
              && |st'.tvCalls| == |st.tvCalls|
              && (forall i :: 0 <= i < |st.tvCalls| ==>
                    st'.tvCalls[i] == if st.tvCalls[i].patientId == pid && st.tvCalls[i].step == station.step
                                      then st.tvCalls[i].(isActive := false)
                                      else st.tvCalls[i])
  {
    match station.currentPatientId
    case None => Err(NoPatientCalled)
    case Some(pid) =>
      Ok(st.(
        steps := Updated(st.steps, RowFor(pid, station.step),
                         (r: StepRow) => r.(status := InProgress, startedAt := Some(now))),
        tvCalls := Updated(st.tvCalls,
                           (t: TVCall) => t.patientId == pid && t.step == station.step,
                           (t: TVCall) => t.(isActive := false))))
  }

  /** After a start, the current patient has no active TV call for the
      station's step and every row of that step is in progress. */
  lemma StartSilencesCall(st: State, station: Station, now: Time)
    requires Start(st, station, now).Ok?
    ensures var st' := Start(st, station, now).value;
            var pid := station.currentPatientId.value;
            && (forall t :: t in st'.tvCalls && t.patientId == pid && t.step == station.step ==> !t.isActive)
            && (forall r :: r in st'.steps && r.patientId == pid && r.step == station.step ==>
                  r.status == InProgress && r.startedAt == Some(now))
  {
    var st' := Start(st, station, now).value;
    forall t | t in st'.tvCalls && t.patientId == station.currentPatientId.value && t.step == station.step
      ensures !t.isActive
    {
      var i :| 0 <= i < |st'.tvCalls| && st'.tvCalls[i] == t;
    }
    forall r | r in st'.steps && r.patientId == station.currentPatientId.value && r.step == station.step
      ensures r.status == InProgress && r.startedAt == Some(now)
    {
      var i :| 0 <= i < |st'.steps| && st'.steps[i] == r;
    }
  }

  /** Finishes service for the station's current patient: the patient's rows
      of the station's step are completed, the patient is no longer being
      served, the patient is marked completed once no row of theirs remains
      open, and the station is cleared. */
  function Finish(st: State, station: Station, now: Time): (r: Result<State, Error>)
    ensures r.Err? <==> station.currentPatientId.None?
    ensures r.Err? ==> r.error == NoPatientInService
    ensures r.Ok? ==>
              var pid := station.currentPatientId.value;
              var st' := r.value;
              && st'.tvCalls == st.tvCalls
              && st'.nextId == st.nextId
              && |st'.steps| == |st.steps|
              && (forall i :: 0 <= i < |st.steps| ==>
                    st'.steps[i] == if st.steps[i].patientId == pid && st.steps[i].step == station.step
                                    then st.steps[i].(status := Completed, completedAt := Some(now))
                                    else st.steps[i])
              && |st'.stations| == |st.stations|
              && (forall i :: 0 <= i < |st.stations| ==>
                    st'.stations[i] == if st.stations[i].id == station.id
                                       then st.stations[i].(currentPatientId := None)
                                       else st.stations[i])
              && |st'.patients| == |st.patients|
              && (forall i :: 0 <= i < |st.patients| && st.patients[i].id != pid ==>
                    st'.patients[i] == st.patients[i])
  {
    match station.currentPatientId
    case None => Err(NoPatientInService)
    case Some(pid) =>
      var steps' := Updated(st.steps, RowFor(pid, station.step),
                            (r: StepRow) => r.(status := Completed, completedAt := Some(now)));
      var released := Updated(st.patients, (p: Patient) => p.id == pid,
                              (p: Patient) => p.(isBeingServed := false));
      var patients' :=
        if Count(steps', (r: StepRow) => r.patientId == pid && IsOpen(r)) == 0 then
          Updated(released, (p: Patient) => p.id == pid,
                  (p: Patient) => p.(isCompleted := true, completedAt := Some(now)))
        else released;
      Ok(st.(
        steps := steps',
        patients := patients',
        stations := Updated(st.stations, (s: Station) => s.id == station.id,
                            (s: Station) => s.(currentPatientId := None))))
  }

  /** The completion cascade of a finish: the patient is released and becomes
      completed, stamped `now`, exactly when every one of their rows for the
      other steps was already completed; otherwise their completion is
      untouched. */
  lemma FinishCompletionCascade(st: State, station: Station, now: Time)
    requires Finish(st, station, now).Ok?
    ensures var st' := Finish(st, station, now).value;
            var pid := station.currentPatientId.value;
            var othersDone := forall j :: 0 <= j < |st.steps| && st.steps[j].patientId == pid
                                          && st.steps[j].step != station.step ==>
                                            st.steps[j].status == Completed;
            && AllStepsCompleted(st'.steps, pid) == othersDone
            && forall i :: 0 <= i < |st.patients| && st.patients[i].id == pid ==>
                 && st'.patients[i] == st.patients[i].(isBeingServed := false,
                                                       isCompleted := st'.patients[i].isCompleted,
                                                       completedAt := st'.patients[i].completedAt)
                 && !st'.patients[i].isBeingServed
                 && (othersDone ==> st'.patients[i].isCompleted && st'.patients[i].completedAt == Some(now))
                 && (!othersDone ==>
                       && st'.patients[i].isCompleted == st.patients[i].isCompleted
                       && st'.patients[i].completedAt == st.patients[i].completedAt)
  {
    var pid := station.currentPatientId.value;
    var st' := Finish(st, station, now).value;
    var openOf := (r: StepRow) => r.patientId == pid && IsOpen(r);
    var othersDone := forall j :: 0 <= j < |st.steps| && st.steps[j].patientId == pid
                                  && st.steps[j].step != station.step ==>
                                    st.steps[j].status == Completed;
    assert AllStepsCompleted(st'.steps, pid) == othersDone by {
      if othersDone {
        forall j | 0 <= j < |st'.steps| && st'.steps[j].patientId == pid
          ensures st'.steps[j].status == Completed
        {
        }
      }
      if AllStepsCompleted(st'.steps, pid) {
        forall j | 0 <= j < |st.steps| && st.steps[j].patientId == pid && st.steps[j].step != station.step
          ensures st.steps[j].status == Completed
        {
          assert st'.steps[j] == st.steps[j];
        }
      }
    }
    assert (Count(st'.steps, openOf) == 0) == AllStepsCompleted(st'.steps, pid);
  }

  // ---------------------------------------------------------------------
  // Extra steps added from a station

  /** Sets the patient flag that records the need for `step`. */
  function FlagNeed(p: Patient, step: CircuitStep): Patient {
    if step == ExameImagem then p.(needsImageExam := true) else p.(needsCardio := true)
  }

  /** Adds a pending `step` row for `pid` and raises the matching need flag,
      unless the patient already has a row for `step` in any status; the
      store refuses the insert for an unknown patient. */
  function AddFlaggedStep(st: State, pid: Id, step: CircuitStep, now: Time): (r: Result<State, Error>)
    ensures HasStep(st.steps, pid, step) ==> r == Err(StepAlreadyAdded(step))
    ensures !HasStep(st.steps, pid, step) && !HasPatient(st.patients, pid) ==> r == Err(UnknownPatient)
    ensures r.Ok? <==> !HasStep(st.steps, pid, step) && HasPatient(st.patients, pid)
    ensures r.Ok? ==>
              && r.value.steps == st.steps + [NewStepRow(st.nextId, pid, step, now)]
              && r.value.nextId == st.nextId + 1
              && r.value.stations == st.stations
              && r.value.tvCalls == st.tvCalls
              && |r.value.patients| == |st.patients|
              && (forall i :: 0 <= i < |st.patients| ==>
                    r.value.patients[i] == if st.patients[i].id == pid
                                           then FlagNeed(st.patients[i], step) else st.patients[i])
  {
    if Count(st.steps, RowFor(pid, step)) > 0 then Err(StepAlreadyAdded(step))
    else if !HasPatient(st.patients, pid) then Err(UnknownPatient)
    else
      Ok(st.(
        steps := st.steps + [NewStepRow(st.nextId, pid, step, now)],
        patients := Updated(st.patients, (p: Patient) => p.id == pid, (p: Patient) => FlagNeed(p, step)),
        nextId := st.nextId + 1))
  }

  /** `addImageExam`: an `exame_imagem` row plus `needs_image_exam`. */
  function AddImageExam(st: State, pid: Id, now: Time): (r: Result<State, Error>)
    ensures HasStep(st.steps, pid, ExameImagem) ==> r == Err(StepAlreadyAdded(ExameImagem))
    ensures r.Ok? <==> !HasStep(st.steps, pid, ExameImagem) && HasPatient(st.patients, pid)
    ensures r.Ok? ==>
              && r.value.steps == st.steps + [NewStepRow(st.nextId, pid, ExameImagem, now)]
              && |r.value.patients| == |st.patients|
              && forall i :: 0 <= i < |st.patients| && st.patients[i].id == pid ==>
                   r.value.patients[i].needsImageExam
  {
    AddFlaggedStep(st, pid, ExameImagem, now)
  }

  /** `addCardioStep`: a `cardiologista` row plus `needs_cardio`. */
  function AddCardioStep(st: State, pid: Id, now: Time): (r: Result<State, Error>)
    ensures HasStep(st.steps, pid, Cardiologista) ==> r == Err(StepAlreadyAdded(Cardiologista))
    ensures r.Ok? <==> !HasStep(st.steps, pid, Cardiologista) && HasPatient(st.patients, pid)
    ensures r.Ok? ==>
              && r.value.steps == st.steps + [NewStepRow(st.nextId, pid, Cardiologista, now)]
              && |r.value.patients| == |st.patients|
              && forall i :: 0 <= i < |st.patients| && st.patients[i].id == pid ==>
                   r.value.patients[i].needsCardio
  {
    AddFlaggedStep(st, pid, Cardiologista, now)
  }

  /** `addImageExam` / `addCardioStep` with the duplicate probe exactly as
      written (`.maybeSingle()`, whose multiple-rows error is ignored). */
  function AddFlaggedStepAsWritten(st: State, pid: Id, step: CircuitStep, now: Time): (r: Result<State, Error>)
    ensures ProbeFindsRowAsWritten(st.steps, pid, step) ==> r == Err(StepAlreadyAdded(step))
    ensures r.Ok? ==> r.value.steps == st.steps + [NewStepRow(st.nextId, pid, step, now)]
    ensures NoDuplicateSteps(st.steps) ==> r == AddFlaggedStep(st, pid, step, now)
  {
    ProbeAgreesWithoutDuplicates(st.steps, pid, step);
    if ProbeFindsRowAsWritten(st.steps, pid, step) then Err(StepAlreadyAdded(step))
    else if !HasPatient(st.patients, pid) then Err(UnknownPatient)
    else
      Ok(st.(
        steps := st.steps + [NewStepRow(st.nextId, pid, step, now)],
        patients := Updated(st.patients, (p: Patient) => p.id == pid, (p: Patient) => FlagNeed(p, step)),
        nextId := st.nextId + 1))
  }

  /** Once two rows of `step` exist for a patient, the as-written probe no
      longer refuses: a third row is inserted. The corrected `AddFlaggedStep`
      refuses the same input. */
  lemma FlaggedStepProbeAdmitsThirdRow(st: State, pid: Id, step: CircuitStep, now: Time)
    requires HasPatient(st.patients, pid)
    requires Count(st.steps, RowFor(pid, step)) == 2
    ensures AddFlaggedStepAsWritten(st, pid, step, now).Ok?
    ensures Count(AddFlaggedStepAsWritten(st, pid, step, now).value.steps, RowFor(pid, step)) == 3
    ensures AddFlaggedStep(st, pid, step, now) == Err(StepAlreadyAdded(step))
  {
    var row := NewStepRow(st.nextId, pid, step, now);
    CountConcat(st.steps, [row], RowFor(pid, step));
    assert Count([row], RowFor(pid, step)) == 1;
  }
}
