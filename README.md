# Gunshot detection backend — a verified model of its core

This project models, in Dafny, three parts of a gunshot detection backend:

- **The event correlator `detect_gunshots`.** It selects the microphone
  reports (logs) of a time window and groups them greedily into bursts.
  A burst must lie within one second and may not hear any microphone twice.
  It keeps the bursts heard by at least three microphones, keeps one log per
  microphone, asks a location estimator for a position, and stores and
  broadcasts the located gunshot events.
- **The debounce coordinator.** `handle_debounce` records the latest report
  timestamp and starts one background sweep task. Each iteration of that
  task reads and clears the pending timestamp, then runs the correlator over
  the two seconds before it.
- **The ingest route `log_event`.** It validates a report, ignores a
  duplicate, stores the log, updates the microphone registry
  (`update_microphone_location`), and signals the coordinator.

Modules:

- `Wrappers`: Option and small integer helpers.
- `Logs`: the stored records.
- `Selection`: the window query and the sort.
- `Grouping`: the grouping loop.
- `Correlator`: deduplication, the three-microphone filter, the estimator loop and `detect_gunshots`.
- `Debounce`: the coordinator, as a class over its two globals, with value-level step functions and traces.
- `Ingest`: validation, the registry, and the server state as a class.
- `Scenarios`: worked inputs.

Methods whose loops mirror the source's loops are proved equal to
specification functions over the inputs:

- `GroupLogs` is proved equal to `GroupAll`.
- `MergeCandidates` is proved equal to `Candidates`.
- `DedupByMic` is proved equal to `Dedup`.
- `BuildEvents` is proved equal to `EventsFor`.

The lemmas state what the source promises about those functions.

Three facts proved here are worth knowing when reading the source:

- A log whose microphone is already in a group can never join that group.
  Every group therefore already has distinct microphones. As a result, the
  first-occurrence deduplication of detect_gunshots.py:86-93 returns its input
  unchanged (`DedupDistinct`, `QualifyingGroupsShape`).
- A group with at least three microphone ids has at least three logs. The
  `len(group) < 3` test at line 83 therefore never skips a group.
- When the estimator raises, the exception leaves `detect_gunshots`
  (line 95 has no handler around it). The whole call is abandoned, and
  nothing is stored or broadcast, including the events already found for
  earlier groups. The sweep loop catches the exception
  (debounce.py:29-32) and keeps running. A per-group treatment of estimator
  failures would differ; the model follows the code.

Further choices follow the code as written:

- The sweep task's `while True` loop never ends, so a running task is never
  replaced.
- A pending timestamp of 0 is falsy and triggers no sweep (debounce.py:22).

Parameters:

- The location estimator is a parameter
  `estimate: seq<LogEvent> -> Estimate`. It can locate, find nothing (a falsy
  result), or raise.
- The geodesic distance is a parameter.
- The clock is a parameter `now`, in seconds.
- Whether the bulk insert commits is a parameter `commitOk`.
- The log and microphone tables are a sequence and a map.

## Model

| member | source | states |
|---|---|---|
| Selection.InWindowLogs | gunshot-backend/app/utils/detect_gunshots.py:23-29 | the window query; `InWindowLogsCorrect` states which logs it returns and `InWindowLogsAll` when it returns the whole store |
| Selection.InWindowLogsCorrect | gunshot-backend/app/utils/detect_gunshots.py:23-29 | the window filter keeps exactly the stored logs with `start <= timestamp <= end`, each as often as it is stored |
| Selection.SortByTimestamp | gunshot-backend/app/utils/detect_gunshots.py:34 | the sort; `SortCorrect` states it yields an ascending permutation and `SortStable` that ties keep store order |
| Selection.InsertCorrect | gunshot-backend/app/utils/detect_gunshots.py:34 | inserting a log into sorted logs keeps them sorted and adds exactly that log |
| Selection.SortCorrect | gunshot-backend/app/utils/detect_gunshots.py:34 | sorting by timestamp yields an ascending permutation of its input |
| Selection.SelectLogsCorrect | gunshot-backend/app/utils/detect_gunshots.py:23-34 | the logs examined are ascending by timestamp, and a log is among them iff it is stored and inside the closed window |
| Selection.SortSortedIdentity | gunshot-backend/app/utils/detect_gunshots.py:34 | logs already in timestamp order are left unchanged |
| Selection.InsertStable | gunshot-backend/app/utils/detect_gunshots.py:34 | inserting a log into sorted logs puts it after every log with the same timestamp and keeps their order |
| Selection.SortStable | gunshot-backend/app/utils/detect_gunshots.py:34 | the sort is stable: for every timestamp, the logs with that timestamp come out in store order |
| Selection.InWindowLogsAll | gunshot-backend/app/utils/detect_gunshots.py:24-29 | when every stored log lies in the window, the query returns the store unchanged |
| Grouping.Place | gunshot-backend/app/utils/detect_gunshots.py:45-70 | one iteration of the grouping loop; `PlaceFirstFit`, `PlaceAddsOne` and `PlaceWellFormed` state where the log goes, that nothing else changes, and that groups stay well formed |
| Grouping.GroupAll | gunshot-backend/app/utils/detect_gunshots.py:41-70 | the groups after the loop; `GroupLogs` is proved to compute it, and `GroupAllPartition` and `GroupAllWellFormed` state that it partitions the logs into well-formed groups |
| Grouping.Candidates | gunshot-backend/app/utils/detect_gunshots.py:43-53 | the candidates are, in increasing order, exactly the groups that the log is within one second of at both ends and whose microphones exclude it |
| Grouping.MergeCandidates | gunshot-backend/app/utils/detect_gunshots.py:43-53 | the inner loop computes exactly the candidate list |
| Grouping.GroupLogs | gunshot-backend/app/utils/detect_gunshots.py:41-70 | the grouping loop computes `GroupAll` of the logs |
| Grouping.PlaceFirstFit | gunshot-backend/app/utils/detect_gunshots.py:55-70 | a log joins the earliest eligible group, and a new singleton group is opened iff no group is eligible |
| Grouping.PlaceAddsOne | gunshot-backend/app/utils/detect_gunshots.py:55-70 | one iteration adds exactly the current log to the groups' contents |
| Grouping.GroupAllPartition | gunshot-backend/app/utils/detect_gunshots.py:41-70 | the groups partition the logs: their combined multiset is the input's |
| Grouping.MergeWellFormed | gunshot-backend/app/utils/detect_gunshots.py:56-61 | merging an eligible later log keeps a group non-empty, sorted, mic-distinct, with the right bounds and a spread within one second |
| Grouping.SingletonWellFormed | gunshot-backend/app/utils/detect_gunshots.py:65-70 | a new group is well formed |
| Grouping.PlaceWellFormed | gunshot-backend/app/utils/detect_gunshots.py:45-70 | with logs in order, one iteration keeps every group well formed and ending no later than the current log |
| Grouping.GroupAllWellFormed | gunshot-backend/app/utils/detect_gunshots.py:41-70 | over sorted logs every group is well formed: distinct microphones, `mic_ids` equals its logs' microphones, min/max are first/last timestamps, spread at most TIME_THRESHOLD |
| Grouping.WellFormedBounds | gunshot-backend/app/utils/detect_gunshots.py:58-59 | every log of a group lies between its `min_time` and `max_time`, and the group has as many logs as microphone ids |
| Grouping.PlaceIntoOnlyGroup | gunshot-backend/app/utils/detect_gunshots.py:47-61 | a log eligible for the only group is merged into it |
| Grouping.BurstStep | gunshot-backend/app/utils/detect_gunshots.py:41-70 | a later log from a new microphone within one second of a one-group burst extends that group and opens no other |
| Grouping.RepeatOpensGroup | gunshot-backend/app/utils/detect_gunshots.py:50-70 | a log whose microphone the only group already has opens a second group, however close in time |
| Grouping.OneBurstOneGroup | gunshot-backend/app/utils/detect_gunshots.py:41-70 | sorted logs from distinct microphones spanning at most one second form exactly one group holding all of them |
| Logs.DistinctMicsCount | gunshot-backend/app/utils/detect_gunshots.py:75 | with no microphone repeated, there are as many microphone ids as logs |
| Logs.MicIdsBound | gunshot-backend/app/utils/detect_gunshots.py:75 | a group never has more microphone ids than logs |
| Correlator.Qualifying | gunshot-backend/app/utils/detect_gunshots.py:75 | never keeps more groups than it is given; `QualifyingCorrect` and `QualifyingInOrder` state which groups it keeps and in what order |
| Correlator.QualifyingCorrect | gunshot-backend/app/utils/detect_gunshots.py:74-75 | the kept logs are those of exactly the groups with at least three microphone ids, nothing else is kept, and nothing is kept iff every group has fewer |
| Correlator.QualifyingInOrder | gunshot-backend/app/utils/detect_gunshots.py:75 | the kept logs are those of the groups with at least three microphone ids, each once, in the order the groups were created |
| Correlator.Dedup | gunshot-backend/app/utils/detect_gunshots.py:86-93 | the filtered group has no microphone twice and the same microphones as the group |
| Correlator.DedupKeepsFirst | gunshot-backend/app/utils/detect_gunshots.py:86-93 | the filtered group is a sub-multiset of the group and holds, for each microphone, its first log |
| Correlator.DedupDistinct | gunshot-backend/app/utils/detect_gunshots.py:86-93 | a group without repeated microphones passes through deduplication unchanged |
| Correlator.DedupInOrder | gunshot-backend/app/utils/detect_gunshots.py:86-93 | the filtered group is, in group order, exactly the first log of each microphone |
| Correlator.DedupByMic | gunshot-backend/app/utils/detect_gunshots.py:88-93 | the dictionary loop and `list(values())` compute `Dedup` |
| Correlator.EventsFor | gunshot-backend/app/utils/detect_gunshots.py:82-114 | a completed loop finds at most one event per group; `EventsInOrder`, `EventsAbortedIff` and `EventsProvenance` state which events, when it aborts, and what each event carries |
| Correlator.BuildEvents | gunshot-backend/app/utils/detect_gunshots.py:82-114 | the estimator loop computes `EventsFor`, stopping at the first estimator error |
| Correlator.AbortedStaysAborted | gunshot-backend/app/utils/detect_gunshots.py:95 | once an estimator call raises, the whole loop is abandoned |
| Correlator.EventsAbortedIff | gunshot-backend/app/utils/detect_gunshots.py:82-95 | the loop is abandoned iff some group of at least three logs makes the estimator raise |
| Correlator.EventsProvenance | gunshot-backend/app/utils/detect_gunshots.py:95-108 | every event carries the deduplicated logs of one examined group and the time and position the estimator returned for them |
| Correlator.EventsInGroupOrder | gunshot-backend/app/utils/detect_gunshots.py:82-114 | when every group is located there is one event per group, in group order |
| Correlator.EventsInOrder | gunshot-backend/app/utils/detect_gunshots.py:82-114 | a completed loop reports exactly one event per group of at least three logs whose deduplicated logs the estimator locates, in group order, each carrying those logs and the estimate |
| Correlator.QualifiedEventsInOrder | gunshot-backend/app/utils/detect_gunshots.py:75-114 | when the kept groups need no deduplication, a completed run reports exactly one event per group with at least three microphone ids that the estimator locates, in creation order |
| Correlator.QualifyingNeedsNoDedup | gunshot-backend/app/utils/detect_gunshots.py:41-93 | over sorted logs every group with at least three microphone ids has at least three logs and passes deduplication unchanged |
| Correlator.Detect | gunshot-backend/app/utils/detect_gunshots.py:15-114 | a completed run finds at most one event per group of the window; `DetectInOrder`, `DetectAbortedIff` and `DetectedEventsShape` state which events, when it aborts, and what each event holds |
| Correlator.DetectInOrder | gunshot-backend/app/utils/detect_gunshots.py:15-114 | a completed run's events are, in the creation order of the window's groups, exactly one per group with at least three microphone ids that the estimator locates, each carrying that group's logs and the estimate |
| Correlator.DetectGunshots | gunshot-backend/app/utils/detect_gunshots.py:15-130 | the outcome is `Detect` of the store and window; events are persisted iff the run completed and the commit succeeded; a broadcast happens iff some event was found |
| Correlator.QualifyingGroupShape | gunshot-backend/app/utils/detect_gunshots.py:74-75 | over sorted logs each kept group has at least three logs from distinct microphones, is sorted, spans at most one second and comes from the input |
| Correlator.QualifyingGroupsShape | gunshot-backend/app/utils/detect_gunshots.py:74-93 | every kept group has that shape and deduplication leaves it unchanged |
| Correlator.DetectedEventShape | gunshot-backend/app/utils/detect_gunshots.py:15-114 | a detected event's logs are a stored, in-window, sorted, mic-distinct burst of at least three within one second, and the event is the estimate for exactly those logs |
| Correlator.DetectedEventsShape | gunshot-backend/app/utils/detect_gunshots.py:15-114 | the same for every detected event |
| Correlator.QualifyingAbortedIff | gunshot-backend/app/utils/detect_gunshots.py:75-95 | over groups whose kept logs are already deduplicated, the call aborts iff the estimator raises on some group with at least three microphones |
| Correlator.DetectAbortedIff | gunshot-backend/app/utils/detect_gunshots.py:15-114 | detect_gunshots raises iff the estimator raises on some group of the window with at least three microphones |
| Correlator.FewLogsSmallGroups | gunshot-backend/app/utils/detect_gunshots.py:41-75 | grouping fewer than three sorted logs gives no group with three microphone ids |
| Correlator.FewLogsNoEvents | gunshot-backend/app/utils/detect_gunshots.py:74-84 | with fewer than three logs in the window no group qualifies: no event, no estimator call, no broadcast |
| Correlator.QualifyingOne | gunshot-backend/app/utils/detect_gunshots.py:75 | a single group with at least three microphones is kept |
| Correlator.EventsForOne | gunshot-backend/app/utils/detect_gunshots.py:82-114 | a single group of at least three logs yields its located event, nothing, or an abort, as the estimator answers |
| Correlator.BurstWindowGroups | gunshot-backend/app/utils/detect_gunshots.py:22-70 | a window holding one burst yields one group holding the whole burst |
| Correlator.OneBurstOneEvent | gunshot-backend/app/utils/detect_gunshots.py:15-114 | a window holding one burst of at least three distinct microphones within one second yields exactly the estimator's event for it (or none, or an abort) |
| Scenarios.FourMicrophonesOneEvent | gunshot-backend/app/utils/detect_gunshots.py:15-130 | four microphones heard 100 ms apart give one event carrying all four logs in order |
| Scenarios.RepeatedGroups | gunshot-backend/app/utils/detect_gunshots.py:45-70 | for two logs within a second followed by a repeat of the first microphone, the loop builds the pair and then a singleton for the repeat |
| Scenarios.RepeatedMicrophoneNoEvent | gunshot-backend/app/utils/detect_gunshots.py:41-84 | three logs in the window from two microphones, the first heard again last, give no event whatever the estimator does |
| Debounce.Raise | gunshot-backend/app/utils/debounce.py:39-40 | the pending timestamp becomes one of the old value and the new one, and is at least both |
| Debounce.SweepWindow | gunshot-backend/app/utils/debounce.py:22-24 | a sweep runs iff the read timestamp is present and non-zero; its window ends there and is two seconds long |
| Debounce.TickStep | gunshot-backend/app/utils/debounce.py:17-24 | an iteration leaves nothing pending and the task running, and sweeps the two seconds up to the read timestamp iff it is present and non-zero |
| Debounce.SignalStep | gunshot-backend/app/utils/debounce.py:37-44 | a signal raises the pending timestamp and leaves a task running; a task is created iff none was running |
| Debounce.SingleSweepTask | gunshot-backend/app/utils/debounce.py:6-44 | from the initial globals, under any interleaving of signals and sweep iterations, a task runs iff some signal came, nothing is pending without a task, and exactly one task is ever created |
| Debounce.SeqMax | gunshot-backend/app/utils/debounce.py:39-40 | the largest of a non-empty sequence of timestamps is one of them and bounds them all |
| Debounce.SignalsKeepMax | gunshot-backend/app/utils/debounce.py:37-44 | consecutive signals leave the largest timestamp (or the pending one, if larger) pending and the task running |
| Debounce.BurstGivesOneSweep | gunshot-backend/app/utils/debounce.py:10-44 | a burst of signals creates one sweep task, and its next iteration sweeps the two seconds up to the largest timestamp |
| Debounce.Coordinator.constructor | gunshot-backend/app/utils/debounce.py:6-7 | the globals start with nothing pending and no task |
| Debounce.Coordinator.HandleDebounce | gunshot-backend/app/utils/debounce.py:34-44 | the object changes as `SignalStep` says, and the reachable-state invariant is preserved |
| Debounce.Coordinator.Tick | gunshot-backend/app/utils/debounce.py:17-24 | the pending timestamp is read and cleared, the task keeps running, and the window is `SweepWindow` of the value read |
| Debounce.Coordinator.SweepOnce | gunshot-backend/app/utils/debounce.py:14-32 | one loop iteration: detection runs iff there is a window and is `Detect` over it; what is persisted follows the outcome and the commit; the task stays running even when detection raises |
| Ingest.ValidTimestampIff | gunshot-backend/app/routes/log_event.py:31-34 | the seconds check accepts exactly `0 < timestamp <= (now + one year) * 10^6` microseconds |
| Ingest.Validate | gunshot-backend/app/routes/log_event.py:24-35 | a report is accepted iff latitude is in [-90, 90], longitude in [-180, 180] and the timestamp positive and at most a year ahead; the reported error is the first failing check in that order |
| Ingest.UpdatedRegistry | gunshot-backend/app/routes/log_event.py:68-93 | an unknown microphone is inserted and broadcast; a known one is moved and broadcast iff it moved more than 10 m; other microphones are untouched |
| Ingest.RegistryUpdateIdempotent | gunshot-backend/app/routes/log_event.py:76-93 | reporting the same position twice changes nothing and broadcasts nothing the second time |
| Ingest.AcceptedReportIsSwept | gunshot-backend/app/routes/log_event.py:34-58 | an accepted report's timestamp makes the coordinator's next sweep run over a window reaching at least to it |
| Ingest.Server.UpdateMicrophoneLocation | gunshot-backend/app/routes/log_event.py:68-98 | the microphones table and the broadcast flag change exactly as `UpdatedRegistry` says |
| Ingest.Server.LogEvent | gunshot-backend/app/routes/log_event.py:18-66 | the response is the first validation error, else duplicate, else recorded with the next id, which is then advanced; only a recorded report appends one log, updates the registry and signals the coordinator; uniqueness of (microphone, timestamp) and registration of every logged microphone are preserved |

## Left out

- The location estimator (app/utils/estimate_gunshot_location.py) is not part of this model. It is a parameter, and the model proves nothing about its numerics.
- The geodesic distance of log_event.py:80 is a parameter. The model does not compute geodesics.
- Floating-point arithmetic is modelled with reals. Rounding, NaN and infinities are not modelled, so `event.timestamp / 1e6` is exact.
- The database is modelled as two in-memory tables. Sessions, commits within log_event and `db.close()` are not modelled. The bulk insert of detect_gunshots.py:117-125 is a `commitOk` flag.
- Correlator.DetectGunshots: when `start_time` or `end_time` is None, the source falls back to a window around the current time (detect_gunshots.py:27, 31). This is not modelled: both bounds are required. Those lines use `datetime` and `timezone`, which that file never imports, so the fallback as written raises at run time. The sweep loop always passes both bounds.
- The database's order among logs with equal timestamps is unspecified. The model returns them in store order, and its sort keeps that order (`SortStable`).
- Concurrency, the lock, `asyncio.sleep(DEBOUNCE_TIME)` and task scheduling are not modelled. Each locked region of debounce.py is one atomic step, and one sweep iteration is one `Tick`. Interleavings between the read at debounce.py:19-20 and the detection run are not modelled.
- Ingest.Server.LogEvent: each request runs as one atomic step. The source holds no lock there. Its duplicate check (log_event.py:38-41) and its insert (log_event.py:45-47) are separated by awaits, and the table has no unique constraint (gunshot-backend/app/models/log_event.py:4-10). Two concurrent identical reports can therefore both be stored. The uniqueness that `Server.Valid` keeps holds only for requests handled one after another.
- WebSocket broadcasts (`manager.broadcast`, `broadcast_sensor_update`) are not modelled. Only whether one is started is tracked, as a flag.
- log_event's HTTP status 500 path (lines 62-64) is not modelled. So are exceptions raised by `update_microphone_location` (lines 94-96). The model has no failing database step.
- The API-key dependency and the remaining routes (admin, test points, listing) are not part of this model.
- The `done()` state of a sweep task is kept in the state type, but no reachable state has it, because the loop never exits (`SingleSweepTask`).
