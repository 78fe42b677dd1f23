/** The ingest route of app/routes/log_event.py: validate a report, drop a
    duplicate, store it, update the microphone registry and signal the
    debounce coordinator. The log table is a sequence, the microphones table
    a map from mic id to (lat, lon); the clock (`now`, in seconds) and the
    geodesic distance in metres are parameters. */
module Ingest {
  import opened Wrappers
  import opened Logs
  import opened Debounce

  type Position = (real, real)

  /** `365 * 24 * 60 * 60`: how far in the future a timestamp may lie, in seconds. */
  const YEAR_SECONDS: real := 31536000.0

  /** A microphone is relocated only when it moved more than this many metres. */
  const MOVE_THRESHOLD: real := 10.0

  /** The request body, LogEventCreate (app/models/schemas/log_event.py). */
  datatype Report = Report(timestamp: int, lat: real, lon: real, micId: int)

  /** The three 400 responses, in the order they are checked. */
  datatype Rejection = InvalidLatitude(lat: real) | InvalidLongitude(lon: real) | InvalidTimestamp(timestamp: int)

  /** What log_event answers. */
  datatype Response = BadRequest(error: Rejection) | DuplicateLog | Recorded(id: int)

  predicate ValidLatitude(lat: real) { -90.0 <= lat <= 90.0 }

  predicate ValidLongitude(lon: real) { -180.0 <= lon <= 180.0 }

  /** Lines 31-34: the timestamp in seconds must be positive and at most one
      year after `now`. */
  predicate ValidTimestamp(timestamp: int, now: real)
  {
    var timestampSec := timestamp as real / 1000000.0;
    !(timestampSec <= 0.0 || timestampSec > now + YEAR_SECONDS)
  }

  /** The timestamp check says, in microseconds: `0 < timestamp <= (now + one year) * 10^6`. */
  lemma ValidTimestampIff(timestamp: int, now: real)
    ensures ValidTimestamp(timestamp, now) <==>
            0 < timestamp && timestamp as real <= (now + YEAR_SECONDS) * 1000000.0
  {
  }

  /** Lines 25-35: the first failing check, latitude before longitude before
      timestamp, or None when the report is valid. */
  function Validate(r: Report, now: real): (rejection: Option<Rejection>)
    ensures rejection.None? <==>
              && -90.0 <= r.lat <= 90.0 && -180.0 <= r.lon <= 180.0
              && 0 < r.timestamp && r.timestamp as real <= (now + YEAR_SECONDS) * 1000000.0
    ensures !(-90.0 <= r.lat <= 90.0) ==> rejection == Some(InvalidLatitude(r.lat))
    ensures -90.0 <= r.lat <= 90.0 && !(-180.0 <= r.lon <= 180.0) ==> rejection == Some(InvalidLongitude(r.lon))
    ensures -90.0 <= r.lat <= 90.0 && -180.0 <= r.lon <= 180.0
            && !(0 < r.timestamp && r.timestamp as real <= (now + YEAR_SECONDS) * 1000000.0) ==>
              rejection == Some(InvalidTimestamp(r.timestamp))
    ensures rejection.Some? && rejection.value.InvalidTimestamp? ==>
              -90.0 <= r.lat <= 90.0 && -180.0 <= r.lon <= 180.0 && rejection.value.timestamp == r.timestamp
  {
    ValidTimestampIff(r.timestamp, now);
    if !ValidLatitude(r.lat) then Some(InvalidLatitude(r.lat))
    else if !ValidLongitude(r.lon) then Some(InvalidLongitude(r.lon))
    else if !ValidTimestamp(r.timestamp, now) then Some(InvalidTimestamp(r.timestamp))
    else None
  }

  /** Lines 38-41: a stored log already has this microphone and timestamp. */
  predicate HasLog(logs: seq<LogEvent>, micId: int, timestamp: int)
  {
    exists i :: 0 <= i < |logs| && logs[i].micId == micId && logs[i].timestamp == timestamp
  }

  /** update_microphone_location (lines 68-98) on the registry: insert an
      unknown microphone, overwrite a known one that moved more than
      MOVE_THRESHOLD metres, otherwise leave it. The flag says whether the
      registry changed, that is, whether a sensor update is broadcast. */
  function UpdatedRegistry(registry: map<int, Position>, r: Report,
                           distance: (Position, Position) -> real): (res: (map<int, Position>, bool))
    ensures res.0.Keys == registry.Keys + {r.micId}
    ensures forall m :: m in registry && m != r.micId ==> res.0[m] == registry[m]
    ensures r.micId !in registry ==> res.1 && res.0[r.micId] == (r.lat, r.lon)
    ensures r.micId in registry ==>
              && (res.1 <==> distance(registry[r.micId], (r.lat, r.lon)) > MOVE_THRESHOLD)
              && res.0[r.micId] == if res.1 then (r.lat, r.lon) else registry[r.micId]
  {
    if r.micId in registry then
      if distance(registry[r.micId], (r.lat, r.lon)) > MOVE_THRESHOLD then
        (registry[r.micId := (r.lat, r.lon)], true)
      else (registry, false)
    else (registry[r.micId := (r.lat, r.lon)], true)
  }

  /** Reporting the same position again changes nothing and broadcasts
      nothing, as long as a point is within MOVE_THRESHOLD of itself. */
  lemma RegistryUpdateIdempotent(registry: map<int, Position>, r: Report,
                                 distance: (Position, Position) -> real)
    requires distance((r.lat, r.lon), (r.lat, r.lon)) <= MOVE_THRESHOLD
    ensures var once := UpdatedRegistry(registry, r, distance).0;
            UpdatedRegistry(once, r, distance) == (once, false)
  {
    var (once, changed) := UpdatedRegistry(registry, r, distance);
    assert r.micId in once;
    if !changed {
      assert once == registry;
    }
  }

  /** An accepted report signals a positive timestamp, so the coordinator's
      next tick runs detection (the value it reads is truthy) over a window
      that reaches at least to this report. */
  lemma AcceptedReportIsSwept(r: Report, now: real, latest: Option<int>)
    requires Validate(r, now).None?
    ensures SweepWindow(Raise(latest, r.timestamp)).Some?
    ensures SweepWindow(Raise(latest, r.timestamp)).value.end >= r.timestamp
  {
  }

  /** The server's persistent state: the log table, the microphones table
      and the next id the database assigns, with the coordinator it signals. */
  class Server {
    var logs: seq<LogEvent>
    var microphones: map<int, Position>
    var nextId: int
    const coordinator: Coordinator

    /** At most one log per (mic id, timestamp); every logged microphone is
        registered; ids are assigned in increasing order. */
    ghost predicate Valid()
      reads this
    {
      && (forall i, j :: 0 <= i < j < |logs| ==>
            logs[i].micId != logs[j].micId || logs[i].timestamp != logs[j].timestamp)
      && (forall i :: 0 <= i < |logs| ==> logs[i].micId in microphones)
      && (forall i, j :: 0 <= i < j < |logs| ==> logs[i].id < logs[j].id)
      && (forall i :: 0 <= i < |logs| ==> logs[i].id < nextId)
    }

    constructor (coordinator: Coordinator)
      ensures Valid()
      ensures logs == [] && microphones == map[] && this.coordinator == coordinator
    {
      logs := [];
      microphones := map[];
      nextId := 1;
      this.coordinator := coordinator;
    }

    /** update_microphone_location (lines 68-98). */
    method UpdateMicrophoneLocation(event: Report, distance: (Position, Position) -> real)
      returns (changed: bool)
      modifies this`microphones
      ensures (microphones, changed) == UpdatedRegistry(old(microphones), event, distance)
    {
      if event.micId in microphones {
        var oldLocation := microphones[event.micId];
        var newLocation := (event.lat, event.lon);
        if distance(oldLocation, newLocation) > MOVE_THRESHOLD {
          microphones := microphones[event.micId := newLocation];
          return true;
        }
      } else {
        microphones := microphones[event.micId := (event.lat, event.lon)];
        return true;
      }
      return false;
    }

    /** log_event (lines 18-66). A rejected or duplicate report changes
        nothing. An accepted one appends exactly one log, updates the
        registry, and then signals the coordinator with its own timestamp;
        `sensorBroadcast` says whether a sensor snapshot is broadcast. */
    method LogEvent(event: Report, now: real, distance: (Position, Position) -> real)
      returns (response: Response, sensorBroadcast: bool)
      requires Valid()
      modifies this, coordinator
      ensures Valid()
      ensures response == if Validate(event, now).Some? then BadRequest(Validate(event, now).value)
                          else if old(HasLog(logs, event.micId, event.timestamp)) then DuplicateLog
                          else Recorded(old(nextId))
      ensures !response.Recorded? ==>
                && logs == old(logs) && microphones == old(microphones) && nextId == old(nextId)
                && coordinator.Current() == old(coordinator.Current()) && !sensorBroadcast
      ensures response.Recorded? ==>
                && logs == old(logs) + [Logs.LogEvent(old(nextId), event.timestamp, event.lat, event.lon, event.micId)]
                && nextId == old(nextId) + 1
                && (microphones, sensorBroadcast) == UpdatedRegistry(old(microphones), event, distance)
                && coordinator.Current() == SignalStep(old(coordinator.Current()), event.timestamp).0
      ensures response.Recorded? || response == DuplicateLog ==> HasLog(logs, event.micId, event.timestamp)
    {
      sensorBroadcast := false;
      var rejection := Validate(event, now);
      if rejection.Some? {
        return BadRequest(rejection.value), false;
      }
      if HasLog(logs, event.micId, event.timestamp) {
        return DuplicateLog, false;
      }
      var logEntry := Logs.LogEvent(nextId, event.timestamp, event.lat, event.lon, event.micId);
      logs := logs + [logEntry];
      nextId := nextId + 1;
      assert HasLog(logs, event.micId, event.timestamp) by {
        assert logs[|logs| - 1] == logEntry;
      }
      sensorBroadcast := UpdateMicrophoneLocation(event, distance);
      var _ := coordinator.HandleDebounce(event.timestamp);
      response := Recorded(logEntry.id);
    }
  }
}
