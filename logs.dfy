/** The stored records: a microphone's arrival report (LogEvent) and a localised
    gunshot (GunshotEvent), as in app/models/log_event.py and app/models/gunshot_event.py. */
module Logs {

  /** One row of the log_events table. Timestamps are integer microseconds;
      latitude and longitude are modelled as reals. */
  datatype LogEvent = LogEvent(id: int, timestamp: int, lat: real, lon: real, micId: int)

  /** What the location estimator returns: latitude, longitude and the
      estimated emission time in microseconds. */
  datatype Location = Location(lat: real, lon: real, time: int)

  /** One row of the gunshot_events table: the estimate and the contributing
      logs, in the order they were grouped. */
  datatype GunshotEvent = GunshotEvent(timestamp: int, lat: real, lon: real, logs: seq<LogEvent>)

  /** The set of microphone ids that occur in `logs`. */
  function MicIds(logs: seq<LogEvent>): set<int>
  {
    set i | 0 <= i < |logs| :: logs[i].micId
  }

  /** No two logs come from the same microphone. */
  predicate DistinctMics(logs: seq<LogEvent>)
  {
    forall i, j :: 0 <= i < j < |logs| ==> logs[i].micId != logs[j].micId
  }

  /** Ascending by timestamp. */
  predicate Sorted(logs: seq<LogEvent>)
  {
    forall i, j :: 0 <= i < j < |logs| ==> logs[i].timestamp <= logs[j].timestamp
  }

  lemma MicIdsAppend(logs: seq<LogEvent>, l: LogEvent)
    ensures MicIds(logs + [l]) == MicIds(logs) + {l.micId}
  {
    var s := logs + [l];
    assert forall i :: 0 <= i < |logs| ==> s[i] == logs[i];
    assert s[|logs|] == l;
  }

  /** With distinct microphones there are exactly as many ids as logs. */
  lemma {:induction false} DistinctMicsCount(logs: seq<LogEvent>)
    requires DistinctMics(logs)
    ensures |MicIds(logs)| == |logs|
  {
    if |logs| > 0 {
      var p := logs[..|logs| - 1];
      var l := logs[|logs| - 1];
      assert logs == p + [l];
      DistinctMicsCount(p);
      MicIdsAppend(p, l);
      assert l.micId !in MicIds(p);
    }
  }

  /** There are never more microphone ids than logs. */
  lemma {:induction false} MicIdsBound(logs: seq<LogEvent>)
    ensures |MicIds(logs)| <= |logs|
  {
    if |logs| > 0 {
      var p := logs[..|logs| - 1];
      assert logs == p + [logs[|logs| - 1]];
      MicIdsBound(p);
      MicIdsAppend(p, logs[|logs| - 1]);
    }
  }
}
