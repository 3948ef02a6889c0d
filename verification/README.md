# CisFluxo patient-flow core in Dafny

CisFluxo runs the pre-operative circuit of a hospital unit. A coordinator
registers a patient. The patient is then given *steps*: medical triage,
lab exams/ECG and scheduling, plus cardiology and imaging when needed.
Each step is served at a *station*. A station calls the next waiting
patient, starts and finishes the service, and can add an imaging or
cardiology step on the spot. Every call is announced on a waiting-room TV.

This project models that core as pure functions over an immutable store.
The store is `Domain.State`, which holds the four tables: patients,
patient steps, stations and TV calls. The project proves what the store
and the screens promise.

Modules follow the source:

| module | models |
|---|---|
| `Base` | `Option`/`Result`, and the filter, count and find helpers the hooks use on arrays |
| `Sorting` | a stable insertion sort, standing in for `Array.sort` with a comparator and for `order(...)` |
| `Domain` | the rows of `patients`, `patient_steps`, `stations` and `tv_calls`; the store; the station capacity |
| `StationActions` | `useStationActions`: call next, start, finish, add imaging/cardiology step |
| `Patients` | `usePatients`: registration and step seeding, `addStep`, the list of patients in the circuit |
| `StepsManager` | the steps-manager dialog: available steps, complete/remove/add a step, delete a patient |
| `PatientList` | the patient list: progress, current step, step filter, priority ordering |
| `QueueStats` | the per-step pending / in-service / completed counts |
| `Reports` | the day report: patient totals and per-step times |
| `StationCard` | the station control card: idle/called/in-progress and the actions offered |
| `Invariants` | the store's integrity (unique ids, foreign keys to `patients`) and which commands keep it |

Each store mutation becomes one function from the old state to a new
state, or to a typed error. The source's thrown errors become `Error`
values. The store's uuids become numbers drawn from `State.nextId`.
Timestamps are milliseconds (`Date.getTime()`). The current time `now` is
a parameter of each command. Registration inserts only the name, the
registration number, the two need flags and the priority flag. The store
fills in the other columns. Four of them are parameters of `Patients.Register`
(`Patients.ColumnDefaults`): `specialty`, `flow_type`,
`has_surgery_indication` and `pending_surgery_scheduling`. The model fixes
the rest: `is_being_served` and `is_completed` start false,
`completed_at` and `scheduling_pending_at` start null, and `created_at`
is `now`.

Rows are kept in store order. The model takes store order to be
`created_at` order, so the candidate query's `order('created_at')` is the
order of `State.steps`.

## Model

| member | source | states |
|---|---|---|
| `StationActions.CandidatesFrom` | src/hooks/useStations.ts:71-79 | the candidates are exactly the eligible rows, in store order and each once: a pending row of the station's step whose patient exists and is neither completed nor being served, joined with that patient; their number is the count of eligible rows |
| `StationActions.Window` | src/hooks/useStations.ts:78-79 | the call looks at the `min(10, n)` oldest candidates; every candidate left out is no older than every one kept; with 10 or fewer the window is all of them |
| `StationActions.Select` | src/hooks/useStations.ts:84-92 | the chosen step is in the window; it is a priority patient's whenever the window has one; it is the oldest among the window's steps of the same priority |
| `StationActions.CallNext` | src/hooks/useStations.ts:52-134 | a full station is refused with its count; otherwise "nobody waiting" exactly when no row is eligible; on success the chosen row is eligible and priority-then-oldest in the window, and exactly four writes happen: patient being served, row called at this station, station bound to the patient, one active TV call appended |
| `StationActions.CallNextRespectsCapacity` | src/hooks/useStations.ts:49-67 | in a well-formed store a successful call raises the station's called/in-service count by exactly one and never past its capacity of 2 (lab/ECG, scheduling) or 1 |
| `StationActions.CallNextSmallQueueIsPriorityThenAge` | src/hooks/useStations.ts:69-92 | with at most ten candidates the call picks priority first, then the oldest step, among all waiting steps |
| `StationActions.Start` | src/hooks/useStations.ts:145-166 | fails with "no patient called" exactly when the station has no current patient; otherwise every row of that patient for the station's step goes in progress stamped `now`, that patient's TV calls for the step are switched off, and nothing else changes |
| `StationActions.StartSilencesCall` | src/hooks/useStations.ts:161-166 | after a start no active TV call of the patient for that step remains, and all its rows for the step are in progress |
| `StationActions.Finish` | src/hooks/useStations.ts:175-223 | fails exactly when the station has no current patient; otherwise the patient's rows of the step are completed stamped `now`, the station is cleared, TV calls are untouched, and no other patient changes |
| `StationActions.FinishCompletionCascade` | src/hooks/useStations.ts:192-215 | after a finish all of the patient's rows are completed iff all rows of its other steps already were; the patient is then released, and it is marked completed stamped `now` in that case only; every other field of the patient is unchanged |
| `StationActions.AddFlaggedStep` | src/hooks/useStations.ts:233-291 | refused when the patient already has a row for the step in any status; an unknown patient is refused; otherwise one pending row is appended and only that patient's need flag is raised |
| `StationActions.AddImageExam` | src/hooks/useStations.ts:233-258 | adds an imaging row unless one exists, and the patient then needs an image exam |
| `StationActions.AddCardioStep` | src/hooks/useStations.ts:266-291 | adds a cardiology row unless one exists, and the patient then needs cardiology |
| `StationActions.AddFlaggedStepAsWritten` | src/hooks/useStations.ts:236-245 | the guard as written refuses when the `maybeSingle` probe finds exactly one row; without duplicate rows it behaves exactly like `AddFlaggedStep` |
| `StationActions.FlaggedStepProbeAdmitsThirdRow` | src/hooks/useStations.ts:236-252 | with two rows already present the guard as written inserts a third, which the corrected guard refuses |
| `Domain.ProbeAgreesWithoutDuplicates` | src/hooks/usePatients.ts:139-148 | without duplicate rows, the `maybeSingle` probe finds a row exactly when the patient has the step |
| `Domain.AppendKeepsNoDuplicates` | src/hooks/usePatients.ts:139-151 | appending a row for a (patient, step) pair not yet present keeps one row per pair |
| `Patients.StoredRegistrationNumber` | src/hooks/usePatients.ts:54 | an absent or empty registration number is stored as null; any other is stored unchanged |
| `Patients.SeedSteps` | src/hooks/usePatients.ts:64-77 | a new patient always gets triage, lab/ECG and scheduling first; cardiology iff declared, imaging iff declared, never the specialist step; no step twice |
| `Patients.SeedRows` | src/hooks/usePatients.ts:79-81 | one fresh pending row per seeded step, in seeding order, owned by the new patient |
| `Patients.Register` | src/hooks/usePatients.ts:41-85 | one new patient row is appended, the old rows are kept as a prefix, and the new rows are pending rows of the new patient, one per seeded step in order |
| `Patients.RegisterSeedsOnlyNewPatient` | src/hooks/usePatients.ts:64-81 | in a well-formed store the seeded rows are the new patient's only rows, it has a row for a step iff that step was seeded, and one row per (patient, step) is kept |
| `Patients.AddStep` | src/hooks/usePatients.ts:137-151 | refused when any row for (patient, step) exists, whatever its status; an unknown patient is refused; otherwise exactly one pending row is appended and nothing else changes |
| `Patients.AddStepAsWritten` | src/hooks/usePatients.ts:139-148 | the guard as written refuses when the probe finds exactly one row; without duplicate rows it is `AddStep` |
| `Patients.AddStepProbeAdmitsThirdRow` | src/hooks/usePatients.ts:139-150 | with two rows present the guard as written inserts a third, which `AddStep` refuses |
| `Patients.AddStepTwiceConflicts` | src/hooks/usePatients.ts:146-148 | adding the same step twice: the second attempt is refused and exactly one row exists |
| `Patients.ListPatients` | src/hooks/usePatients.ts:9-21 | the list holds exactly the patients not completed, each once, ordered by registration time |
| `StepsManager.StepTypes` | src/components/flow-controller/PatientStepsManager.tsx:79 | the step type of each of the patient's rows, position by position |
| `StepsManager.Without` | src/components/flow-controller/PatientStepsManager.tsx:80 | keeps exactly the elements not in the excluded list, and keeps a duplicate-free list duplicate-free |
| `StepsManager.AvailableSteps` | src/components/flow-controller/PatientStepsManager.tsx:14-20 | the steps offered are exactly the five circuit steps the patient has no row for, each once, never the specialist step |
| `StepsManager.OffersAddControl` | src/components/flow-controller/PatientStepsManager.tsx:213 | the add control is shown iff some circuit step is missing |
| `StepsManager.OfferedIsAbsent` | src/components/flow-controller/PatientStepsManager.tsx:79-80 | an offered step is one the patient has no row for |
| `StepsManager.CompleteStep` | src/components/flow-controller/PatientStepsManager.tsx:82-93 | the row with that id is completed with start and completion both stamped `now`; all its other fields, every other row and the other tables are unchanged |
| `StepsManager.CompleteOfferedRowAddsOne` | src/components/flow-controller/PatientStepsManager.tsx:42-46 | with unique row ids, completing a row still open adds exactly one completed row for its patient |
| `StepsManager.RemoveStep` | src/components/flow-controller/PatientStepsManager.tsx:104-111 | exactly the rows with other ids remain; with unique ids a present row's removal shortens the table by one; the other tables are unchanged |
| `StepsManager.AdminAddStep` | src/components/flow-controller/PatientStepsManager.tsx:122-128 | the insert has no duplicate probe: it succeeds iff the patient exists, appending one pending row |
| `StepsManager.AdminAddOfferedKeepsNoDuplicates` | src/components/flow-controller/PatientStepsManager.tsx:213-229 | adding a step picked from the offered list keeps one row per (patient, step) |
| `StepsManager.DeletePatient` | src/components/flow-controller/PatientStepsManager.tsx:246-275 | the patient's rows, TV calls and patient row go and nothing else does; stations pointing at the patient are cleared and the rest are unchanged |
| `StepsManager.DeletePatientLeavesNoReference` | src/components/flow-controller/PatientStepsManager.tsx:248-274 | after deleting, no patient row, step row, TV call or station refers to the patient |
| `PatientList.ProgressOf` | src/components/flow-controller/PatientList.tsx:7-11 | completed is the number of completed rows and total the number of rows; the percentage is exactly completed/total·100, and 0 with no rows; so it is 100 iff there are rows and all are completed, and 0 iff none is |
| `PatientList.CompletingRowAdvancesProgress` | src/components/flow-controller/PatientStepsManager.tsx:82-93 | completing one of a patient's open rows from the steps manager raises that patient's completed count by exactly one and leaves the total unchanged |
| `PatientList.CurrentStep` | src/components/flow-controller/PatientList.tsx:20 | the first called or in-progress row, and none exactly when no row is called or in progress |
| `PatientList.FilterPatients` | src/components/flow-controller/PatientList.tsx:137-144 | "all" keeps the list; a step filter keeps exactly the patients with a pending, called or in-progress row of that step |
| `PatientList.SortPatients` | src/components/flow-controller/PatientList.tsx:146-152 | a permutation in which every priority patient precedes every non-priority one, and equal-priority patients are in registration order |
| `PatientList.Displayed` | src/components/flow-controller/PatientList.tsx:137-152 | the displayed list holds exactly the filtered patients, ordered priority first then by registration |
| `QueueStats.StatFor` | src/hooks/useQueueStats.ts:27-51 | pending, called/in service and completed are the numbers of the step's rows in each status; the three add up to the number of rows of the step, and each is 0 iff no row of the step has that status |
| `QueueStats.Stats` | src/hooks/useQueueStats.ts:19-27 | one entry per circuit step in circuit order, none for the specialist step |
| `QueueStats.CallNextMovesOneRow` | src/hooks/useQueueStats.ts:27-44 | with unique row ids, a successful call moves exactly one row of the station's step from "pending" to "in service"; "completed" does not move |
| `Reports.MinutesBetween` | src/hooks/useReports.ts:54-56 | whole minutes truncated toward zero: positive iff at least a full minute elapsed, zero for less than a minute either way |
| `Reports.MinOf` | src/hooks/useReports.ts:62 | the minimum is one of the values and no value is smaller |
| `Reports.MaxOf` | src/hooks/useReports.ts:63 | the maximum is one of the values and no value is larger |
| `Reports.RoundedMean` | src/hooks/useReports.ts:61 | `Math.round(sum / n)`: the result is within half a unit of the mean, halves rounding up |
| `Reports.RoundedMeanWithin` | src/hooks/useReports.ts:61-63 | the rounded mean of values between a lower and an upper bound lies between them |
| `Reports.ServiceTimes` | src/hooks/useReports.ts:52-56 | one entry per timed completed row of the step that took at least a whole minute, in row order, holding that row's duration (repeated durations are all kept); never more entries than timed rows |
| `Reports.KeptTimesAreLongRows` | src/hooks/useReports.ts:52-56 | filtering the durations of all timed rows down to the positive ones gives the durations of exactly the rows that took at least a minute, row for row |
| `Reports.FiguresOf` | src/hooks/useReports.ts:61-63 | with no durations all figures are 0; otherwise min and max are attained, bound every duration, and min ≤ rounded mean ≤ max |
| `Reports.ReportFor` | src/hooks/useReports.ts:51-65 | the step's total counts every timed row, at least as many as the durations used for the time figures |
| `Reports.ReportTimesArePositiveOrZero` | src/hooks/useReports.ts:56-63 | the time figures are either all 0 (no duration of a minute or more) or 0 < min ≤ avg ≤ max |
| `Reports.PatientTotals` | src/hooks/useReports.ts:67-70 | the patient total counts the patients registered in the period; the completed count counts those completed, never more than the total |
| `Reports.FinishedAmongRegistered` | src/hooks/useReports.ts:68-69 | counting completed patients in the filtered list equals counting patients both in the period and completed |
| `Reports.StepReports` | src/hooks/useReports.ts:43-65 | one report per circuit step, in circuit order |
| `Reports.Report` | src/hooks/useReports.ts:20-72 | patient totals as above, completed ≤ total, and the step reports over the completed rows created in the period |
| `Reports.ManagerCompletionHasNoDuration` | src/components/flow-controller/PatientStepsManager.tsx:86-89 | a row completed from the steps manager gets a zero duration: it counts in the step total but never in its times |
| `StationCard.ViewOf` | src/components/station/StationControlCard.tsx:21-28 | the card's patient is the first loaded patient with the station's current patient id; its row is the first of that patient's rows for the station's step, absent only if none exists; the queue badge equals the overview's pending count |
| `StationCard.Offered` | src/components/station/StationControlCard.tsx:79-81 | call iff idle, start iff the row is called, finish iff it is in progress, add-imaging iff finish is offered and the patient does not need imaging yet |
| `StationCard.AtMostOneMainAction` | src/components/station/StationControlCard.tsx:128-158 | call, start and finish are never offered together, and add-imaging only appears next to finish |
| `StationCard.NoActionWhenRowIsNotActive` | src/components/station/StationControlCard.tsx:79-81 | a station bound to a loaded patient whose row is pending or completed offers no action at all |
| `StationCard.EligibleEnablesCall` | src/components/station/StationControlCard.tsx:26-28 | whenever a call could find someone, the call button is enabled |
| `StationCard.EnabledCallMayFindNobody` | src/components/station/StationControlCard.tsx:132 | the converse fails: a pending row of a patient served elsewhere enables the button, yet the call reports nobody waiting |
| `StationCard.CallLeadsToStart` | src/components/station/StationControlCard.tsx:143 | right after a successful call the station's card shows the called patient with the called row and offers only "start" |
| `Invariants.RegisterKeepsWf` | src/hooks/usePatients.ts:41-85 | registration keeps every id unique and fresh and every reference resolving, and keeps one row per (patient, step) |
| `Invariants.CallNextKeepsWf` | src/hooks/useStations.ts:94-134 | a successful call keeps the store well formed: the TV call gets a fresh id, and it and the station point at an existing patient; one row per (patient, step) is kept |
| `Invariants.StartKeepsWf` | src/hooks/useStations.ts:145-166 | starting service keeps the store well formed and one row per (patient, step) |
| `Invariants.FinishKeepsWf` | src/hooks/useStations.ts:175-223 | finishing service keeps the store well formed and one row per (patient, step) |
| `Invariants.AddFlaggedStepKeepsWf` | src/hooks/useStations.ts:233-291 | adding imaging or cardiology from a station keeps the store well formed; its guard keeps one row per (patient, step) |
| `Invariants.AddStepKeepsWf` | src/hooks/usePatients.ts:137-151 | the guarded `addStep` keeps the store well formed and one row per (patient, step) |
| `Invariants.CompleteStepKeepsWf` | src/components/flow-controller/PatientStepsManager.tsx:82-93 | completing a row from the manager keeps the store well formed and one row per (patient, step) |
| `Invariants.AdminAddStepKeepsWf` | src/components/flow-controller/PatientStepsManager.tsx:122-128 | the manager's unguarded insert keeps ids fresh and references resolving, but nothing more: see `StepsManager.AdminAddOfferedKeepsNoDuplicates` for duplicates |
| `Invariants.RemoveStepKeepsWf` | src/components/flow-controller/PatientStepsManager.tsx:104-111 | removing a row keeps the store well formed and one row per (patient, step) |
| `Invariants.DeletePatientKeepsWf` | src/components/flow-controller/PatientStepsManager.tsx:246-275 | deleting a patient keeps the store well formed and one row per (patient, step) |
| `Invariants.DeletedStoreResolves` | src/integrations/supabase/types.ts:51-58 | after the delete cascade, every step row, TV call and station binding still names an existing patient, as the `patient_id` foreign keys demand |

The comparator lemmas `StationActions.CandidateOrders`,
`Patients.ByCreatedAtIsTotalPreorder` and
`PatientList.PriorityThenCreatedIsTotalPreorder` are helpers: they show
that each sort comparator is a total preorder, so that the sorts above are
well defined.

## Left out

- Network and store I/O: the realtime subscriptions, query-cache invalidation, toasts and loading flags. Each hook call is one atomic transition of the store. The source's sequence of separate writes, and what a failure half-way leaves behind, is not modelled.
- Store query errors that the hooks do not check. The finish's query for open steps discards its error, and on an error the patient would be marked completed. The model reads that query as always succeeding.
- The server's row limit on queries. The queue counts, the reports, the patient list and the station card all read whole tables. The list and the card read every step row through `usePatientSteps`. A store that caps result size would make them undercount or miss rows.
- Concurrency: two stations calling at the same moment can both pass the capacity check or pick the same row. The model runs one command at a time.
- `StationActions.Finish`: its contract leaves the current patient's own fields to `StationActions.FinishCompletionCascade`, which states them.
- `StationCard.ViewOf`: the card's loading state (buttons disabled while a request runs) is not modelled.
- Rendering: labels, colours and the short-step badge text. The specialist consultation's label depends on the patient's specialty and is display only.
- The TV display, speech, the specialist and surgery dialogs, the date picker and the registration form's validation are outside this core.
- Ties in `created_at`: the model sorts stably and keeps store order among equal timestamps; the store does not promise any order there.

## Findings

| source | as written | input that shows it | evidently intended | confidence | as-written member | corrected member |
|---|---|---|---|---|---|---|
| src/hooks/usePatients.ts:139-148 | the duplicate probe uses `.maybeSingle()` and ignores its error; with two matching rows that call returns no row plus an error, so the guard passes | a patient who already has two rows of the same step (for example from an earlier race between two adds): `addStep` inserts a third | refuse whenever any row for (patient, step) exists | medium, not executed | `Patients.AddStepAsWritten` | `Patients.AddStep` |
| src/hooks/useStations.ts:236-245 | the imaging and cardiology guards use the same `.maybeSingle()` probe with the error ignored | a patient with two `exame_imagem` rows: `addImageExam` inserts a third and sets the flag again | refuse whenever any row for (patient, step) exists | medium, not executed | `StationActions.AddFlaggedStepAsWritten` | `StationActions.AddFlaggedStep` |

The discrepancies are exhibited by `Patients.AddStepProbeAdmitsThirdRow`
and `StationActions.FlaggedStepProbeAdmitsThirdRow`. The rest of the model
uses the corrected guards.
