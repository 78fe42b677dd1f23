/** Worked inputs for detect_gunshots: four microphones heard within a
    second, and a burst in which one microphone is heard twice. */
module Scenarios {
  import opened Logs
  import opened Selection
  import opened Grouping
  import opened Correlator

  function At(id: int, timestamp: int, micId: int): LogEvent
  {
    LogEvent(id, timestamp, 42.0, -83.0, micId)
  }

  function FourReports(): seq<LogEvent>
  {
    [At(1, 0, 10), At(2, 100000, 11), At(3, 200000, 12), At(4, 300000, 13)]
  }

  /** Four reports 100 ms apart from four microphones give one event
      carrying all four logs, in order. */
  lemma FourMicrophonesOneEvent(estimate: seq<LogEvent> -> Estimate, loc: Location)
    requires estimate(FourReports()) == Located(loc)
    ensures Detect(FourReports(), 0, 300000, estimate) == Completed([EventOf(FourReports(), loc)])
  {
    var logs := FourReports();
    assert DistinctMics(logs) && Sorted(logs);
    OneBurstOneEvent(logs, 0, 300000, estimate);
  }

  /** Three logs within a second, the first and the last from the same
      microphone: the repeat cannot join the first group and opens a second
      one; neither group has MIN_MICS microphones, so no event results and
      the estimator is never asked. */
  lemma RepeatedMicrophoneNoEvent(a: LogEvent, b: LogEvent, c: LogEvent, startTime: int, endTime: int,
                                  estimate: seq<LogEvent> -> Estimate)
    requires startTime <= a.timestamp <= b.timestamp <= c.timestamp <= endTime
    requires b.timestamp - a.timestamp <= TIME_THRESHOLD
    requires a.micId == c.micId && a.micId != b.micId
    ensures Detect([a, b, c], startTime, endTime, estimate) == Completed([])
  {
    var logs := [a, b, c];
    assert Sorted(logs);
    InWindowLogsAll(logs, startTime, endTime);
    SortSortedIdentity(logs);
    var g := RepeatedGroups(a, b, c);
    NoQualifyingGroup([g, Singleton(c)]);
  }

  /** The groups of the loop for such three logs: the first two together,
      the repeat alone. */
  lemma RepeatedGroups(a: LogEvent, b: LogEvent, c: LogEvent) returns (g: Group)
    requires a.timestamp <= b.timestamp && b.timestamp - a.timestamp <= TIME_THRESHOLD
    requires a.micId == c.micId && a.micId != b.micId
    ensures GroupAll([a, b, c]) == [g, Singleton(c)]
    ensures g.logs == [a, b] && |g.micIds| == 2
  {
    var ab := [a, b];
    assert DistinctMics(ab) && Sorted(ab);
    OneBurstOneGroup(ab);
    g := Group(ab, MicIds(ab), a.timestamp, b.timestamp);
    assert MicIds(ab) == {a.micId, b.micId} by {
      assert ab[0] == a && ab[1] == b;
    }
    RepeatOpensGroup(ab, g, c);
    assert ab + [c] == [a, b, c];
  }

  lemma NoQualifyingGroup(groups: seq<Group>)
    requires |groups| == 2 && |groups[0].micIds| <= 2 && |groups[1].micIds| <= 2
    ensures Qualifying(groups) == []
  {
    QualifyingCorrect(groups);
  }
}
