/** The rest of detect_gunshots (app/utils/detect_gunshots.py:15-130): keep
    the groups with at least three microphones, keep the first log per
    microphone, ask the location estimator about each group and build one
    GunshotEvent per located group. The estimator is an oracle passed in;
    an error it raises is not caught inside the loop, so it ends the whole call. */
module Correlator {
  import opened Wrappers
  import opened Logs
  import opened Selection
  import opened Grouping

  const MIN_MICS := 3

  /** What `estimate_gunshot_location` does with one group: return a
      location, return something falsy, or raise. */
  datatype Estimate = Located(loc: Location) | NoLocation | EstimateError

  /** The result of the event loop: an estimator error escaped, or the list
      `gunshot_events` was built. */
  datatype Outcome = Aborted | Completed(events: seq<GunshotEvent>)

  /** Line 75: the logs of every group that heard at least MIN_MICS distinct
      microphones, in creation order. */
  function Qualifying(groups: seq<Group>): (r: seq<seq<LogEvent>>)
    ensures |r| <= |groups|
  {
    if |groups| == 0 then []
    else
      var n := |groups| - 1;
      Qualifying(groups[..n]) + if |groups[n].micIds| >= MIN_MICS then [groups[n].logs] else []
  }

  /** The filter keeps the logs of exactly the groups with at least MIN_MICS
      microphone ids, and nothing else; it keeps none iff every group has
      fewer. */
  lemma {:induction false} QualifyingCorrect(groups: seq<Group>)
    ensures forall k :: 0 <= k < |Qualifying(groups)| ==>
              exists i :: 0 <= i < |groups| && |groups[i].micIds| >= MIN_MICS && groups[i].logs == Qualifying(groups)[k]
    ensures forall i :: 0 <= i < |groups| && |groups[i].micIds| >= MIN_MICS ==> groups[i].logs in Qualifying(groups)
    ensures Qualifying(groups) == [] <==> forall i :: 0 <= i < |groups| ==> |groups[i].micIds| < MIN_MICS
  {
    if |groups| > 0 {
      var n := |groups| - 1;
      var p := groups[..n];
      QualifyingCorrect(p);
      var r := Qualifying(groups);
      var q := Qualifying(p);
      assert r == q + if |groups[n].micIds| >= MIN_MICS then [groups[n].logs] else [];
      forall k | 0 <= k < |r|
        ensures exists i :: 0 <= i < |groups| && |groups[i].micIds| >= MIN_MICS && groups[i].logs == r[k]
      {
        if k < |q| {
          var i :| 0 <= i < n && |p[i].micIds| >= MIN_MICS && p[i].logs == q[k];
          assert groups[i] == p[i];
        } else {
          assert r[k] == groups[n].logs;
        }
      }
      forall i | 0 <= i < |groups| && |groups[i].micIds| >= MIN_MICS
        ensures groups[i].logs in r
      {
        if i < n {
          assert p[i] == groups[i];
          assert groups[i].logs in q;
        } else {
          assert r[|r| - 1] == groups[n].logs;
        }
      }
      if r == [] {
        forall i | 0 <= i < |groups| ensures |groups[i].micIds| < MIN_MICS {
          if i < n {
            assert p[i] == groups[i];
          }
        }
      }
      if forall i :: 0 <= i < |groups| ==> |groups[i].micIds| < MIN_MICS {
        assert forall i :: 0 <= i < n ==> p[i] == groups[i];
      }
    } else {
      assert Qualifying(groups) == [];
    }
  }

  /** The first log of `group` that came from microphone `m`. */
  function FirstWithMic(group: seq<LogEvent>, m: int): LogEvent
    requires m in MicIds(group)
  {
    var n := |group| - 1;
    if m in MicIds(group[..n]) then FirstWithMic(group[..n], m) else group[n]
  }

  /** Lines 86-93: one log per microphone, the first one, in order of first
      appearance. */
  function Dedup(group: seq<LogEvent>): (r: seq<LogEvent>)
    ensures DistinctMics(r)
    ensures MicIds(r) == MicIds(group)
  {
    if |group| == 0 then []
    else
      var n := |group| - 1;
      var p := group[..n];
      var l := group[n];
      assert group == p + [l];
      MicIdsAppend(p, l);
      var d := Dedup(p);
      if l.micId in MicIds(d) then d
      else
        MicIdsAppend(d, l);
        assert forall k :: 0 <= k < |d| ==> d[k].micId in MicIds(d);
        d + [l]
  }

  /** Deduplication keeps, for each microphone, its first log and nothing
      else, and takes nothing that was not in the group. */
  lemma {:induction false} DedupKeepsFirst(group: seq<LogEvent>)
    ensures multiset(Dedup(group)) <= multiset(group)
    ensures forall k :: 0 <= k < |Dedup(group)| ==>
              Dedup(group)[k].micId in MicIds(group) && Dedup(group)[k] == FirstWithMic(group, Dedup(group)[k].micId)
  {
    if |group| > 0 {
      var n := |group| - 1;
      var p := group[..n];
      var l := group[n];
      assert group == p + [l];
      MicIdsAppend(p, l);
      DedupKeepsFirst(p);
      var d := Dedup(p);
      forall k | 0 <= k < |d|
        ensures d[k].micId in MicIds(group) && d[k] == FirstWithMic(group, d[k].micId)
      {
        assert d[k].micId in MicIds(p);
      }
      if l.micId !in MicIds(d) {
        var r := d + [l];
        assert r[|d|] == l;
        assert FirstWithMic(group, l.micId) == l;
        assert forall k :: 0 <= k < |d| ==> r[k] == d[k];
      }
    }
  }

  /** A group in which no microphone repeats is returned unchanged. */
  lemma {:induction false} DedupDistinct(group: seq<LogEvent>)
    requires DistinctMics(group)
    ensures Dedup(group) == group
  {
    if |group| > 0 {
      var n := |group| - 1;
      var p := group[..n];
      DedupDistinct(p);
      assert group == p + [group[n]];
    }
  }

  /** The dictionary loop of lines 88-93. `uniqueLogs` is the dict;
      `inserted` lists its values in insertion order, which is what
      `list(unique_logs.values())` returns. */
  method DedupByMic(group: seq<LogEvent>) returns (filteredGroup: seq<LogEvent>)
    ensures filteredGroup == Dedup(group)
  {
    var uniqueLogs: map<int, LogEvent> := map[];
    var inserted: seq<LogEvent> := [];
    for i := 0 to |group|
      invariant inserted == Dedup(group[..i])
      invariant uniqueLogs.Keys == MicIds(inserted)
    {
      var log := group[i];
      assert group[..i + 1] == group[..i] + [log];
      assert group[..i + 1][..i] == group[..i];
      if log.micId !in uniqueLogs {
        MicIdsAppend(inserted, log);
        uniqueLogs := uniqueLogs[log.micId := log];
        inserted := inserted + [log];
      }
    }
    assert group[..|group|] == group;
    filteredGroup := inserted;
  }

  /** Lines 97-108: the event for a located group; its logs are the group's
      logs with every field copied. */
  function EventOf(filteredGroup: seq<LogEvent>, loc: Location): GunshotEvent
  {
    GunshotEvent(loc.time, loc.lat, loc.lon, filteredGroup)
  }

  /** The loop of lines 82-114 over `grouped`, as a function of its input. */
  function EventsFor(grouped: seq<seq<LogEvent>>, estimate: seq<LogEvent> -> Estimate): (r: Outcome)
    ensures r.Completed? ==> |r.events| <= |grouped|
  {
    if |grouped| == 0 then Completed([])
    else
      var n := |grouped| - 1;
      match EventsFor(grouped[..n], estimate)
      case Aborted => Aborted
      case Completed(events) =>
        if |grouped[n]| < MIN_MICS then Completed(events)
        else
          var filtered := Dedup(grouped[n]);
          match estimate(filtered)
          case EstimateError => Aborted
          case NoLocation => Completed(events)
          case Located(loc) => Completed(events + [EventOf(filtered, loc)])
  }

  /** The loop of lines 82-114. */
  method BuildEvents(grouped: seq<seq<LogEvent>>, estimate: seq<LogEvent> -> Estimate)
    returns (outcome: Outcome)
    ensures outcome == EventsFor(grouped, estimate)
  {
    var gunshotEvents: seq<GunshotEvent> := [];
    for i := 0 to |grouped|
      invariant EventsFor(grouped[..i], estimate) == Completed(gunshotEvents)
    {
      assert grouped[..i + 1][..i] == grouped[..i];
      var group := grouped[i];
      if |group| < MIN_MICS {
        continue;
      }
      var filteredGroup := DedupByMic(group);
      var eventLocation := estimate(filteredGroup);
      if eventLocation.EstimateError? {
        assert EventsFor(grouped[..i + 1], estimate) == Aborted;
        assert grouped[..|grouped|] == grouped;
        AbortedStaysAborted(grouped, i + 1, estimate);
        return Aborted;
      }
      if eventLocation.Located? {
        gunshotEvents := gunshotEvents + [EventOf(filteredGroup, eventLocation.loc)];
      }
    }
    assert grouped[..|grouped|] == grouped;
    outcome := Completed(gunshotEvents);
  }

  /** Once a prefix of the groups has aborted, the whole call aborts. */
  lemma {:induction false} AbortedStaysAborted(grouped: seq<seq<LogEvent>>, i: nat,
                                               estimate: seq<LogEvent> -> Estimate)
    requires i <= |grouped|
    requires EventsFor(grouped[..i], estimate) == Aborted
    ensures EventsFor(grouped, estimate) == Aborted
  {
    if i < |grouped| {
      var n := |grouped| - 1;
      assert grouped[..n][..i] == grouped[..i];
      AbortedStaysAborted(grouped[..n], i, estimate);
    } else {
      assert grouped[..i] == grouped;
    }
  }

  /** An estimator error on any group the loop examines aborts the whole
      call, and nothing else does. */
  lemma {:induction false} EventsAbortedIff(grouped: seq<seq<LogEvent>>, estimate: seq<LogEvent> -> Estimate)
    ensures EventsFor(grouped, estimate).Aborted? <==>
            exists k :: 0 <= k < |grouped| && |grouped[k]| >= MIN_MICS && estimate(Dedup(grouped[k])).EstimateError?
  {
    if |grouped| > 0 {
      var n := |grouped| - 1;
      EventsAbortedIff(grouped[..n], estimate);
      if exists k :: 0 <= k < n && |grouped[..n][k]| >= MIN_MICS && estimate(Dedup(grouped[..n][k])).EstimateError? {
        var k :| 0 <= k < n && |grouped[..n][k]| >= MIN_MICS && estimate(Dedup(grouped[..n][k])).EstimateError?;
        assert grouped[k] == grouped[..n][k];
      }
      if exists k :: 0 <= k < |grouped| && |grouped[k]| >= MIN_MICS && estimate(Dedup(grouped[k])).EstimateError? {
        var k :| 0 <= k < |grouped| && |grouped[k]| >= MIN_MICS && estimate(Dedup(grouped[k])).EstimateError?;
        if k < n {
          assert grouped[..n][k] == grouped[k];
        }
      }
    }
  }

  /** Every event comes from one examined group: its logs are that group
      deduplicated, and its time and position are what the estimator returned. */
  lemma {:induction false} EventsProvenance(grouped: seq<seq<LogEvent>>, estimate: seq<LogEvent> -> Estimate)
    requires EventsFor(grouped, estimate).Completed?
    ensures forall e :: e in EventsFor(grouped, estimate).events ==>
              exists k :: 0 <= k < |grouped| && |grouped[k]| >= MIN_MICS
                          && estimate(Dedup(grouped[k])) == Located(Location(e.lat, e.lon, e.timestamp))
                          && e.logs == Dedup(grouped[k])
  {
    if |grouped| > 0 {
      var n := |grouped| - 1;
      EventsProvenance(grouped[..n], estimate);
      forall e | e in EventsFor(grouped, estimate).events
        ensures exists k :: 0 <= k < |grouped| && |grouped[k]| >= MIN_MICS
                            && estimate(Dedup(grouped[k])) == Located(Location(e.lat, e.lon, e.timestamp))
                            && e.logs == Dedup(grouped[k])
      {
        if e in EventsFor(grouped[..n], estimate).events {
          var k :| 0 <= k < n && |grouped[..n][k]| >= MIN_MICS
                   && estimate(Dedup(grouped[..n][k])) == Located(Location(e.lat, e.lon, e.timestamp))
                   && e.logs == Dedup(grouped[..n][k]);
          assert grouped[k] == grouped[..n][k];
        } else {
          assert |grouped[n]| >= MIN_MICS;
        }
      }
    }
  }

  /** When the estimator locates every group and every group has at least
      MIN_MICS logs, there is one event per group, in the same order. */
  lemma {:induction false} EventsInGroupOrder(grouped: seq<seq<LogEvent>>, estimate: seq<LogEvent> -> Estimate)
    requires forall k :: 0 <= k < |grouped| ==> |grouped[k]| >= MIN_MICS && estimate(Dedup(grouped[k])).Located?
    ensures EventsFor(grouped, estimate).Completed?
    ensures |EventsFor(grouped, estimate).events| == |grouped|
    ensures forall k :: 0 <= k < |grouped| ==>
              EventsFor(grouped, estimate).events[k] == EventOf(Dedup(grouped[k]), estimate(Dedup(grouped[k])).loc)
  {
    if |grouped| > 0 {
      var n := |grouped| - 1;
      assert forall k :: 0 <= k < n ==> grouped[..n][k] == grouped[k];
      EventsInGroupOrder(grouped[..n], estimate);
    }
  }

  /** detect_gunshots as a function of the stored logs, the window and the
      estimator. */
  function Detect(store: seq<LogEvent>, startTime: int, endTime: int,
                  estimate: seq<LogEvent> -> Estimate): (r: Outcome)
    ensures r.Completed? ==> |r.events| <= |WindowGroups(store, startTime, endTime)|
  {
    EventsFor(Qualifying(WindowGroups(store, startTime, endTime)), estimate)
  }

  /** `active_groups` at the end of the grouping loop. */
  function WindowGroups(store: seq<LogEvent>, startTime: int, endTime: int): seq<Group>
  {
    GroupAll(SelectLogs(store, startTime, endTime))
  }

  /** detect_gunshots (lines 15-130). `store` is the log table; `commitOk`
      says whether the bulk insert of lines 117-120 succeeds (a failure there
      is rolled back and swallowed, so it only decides what is persisted).
      `broadcast` says whether the broadcast task of line 128 is created; its
      payload is `outcome.events`. When the estimator raises, the exception
      leaves the call: nothing is persisted or broadcast. */
  method DetectGunshots(store: seq<LogEvent>, startTime: int, endTime: int,
                        estimate: seq<LogEvent> -> Estimate, commitOk: bool)
    returns (outcome: Outcome, persisted: seq<GunshotEvent>, broadcast: bool)
    ensures outcome == Detect(store, startTime, endTime, estimate)
    ensures persisted == if outcome.Completed? && commitOk then outcome.events else []
    ensures broadcast <==> outcome.Completed? && outcome.events != []
  {
    var logs := SelectLogs(store, startTime, endTime);
    var activeGroups := GroupLogs(logs);
    var groupedEvents := Qualifying(activeGroups);
    outcome := BuildEvents(groupedEvents, estimate);
    if outcome.Aborted? {
      return outcome, [], false;
    }
    persisted := [];
    if |outcome.events| > 0 && commitOk {
      persisted := outcome.events;
    }
    broadcast := |outcome.events| > 0;
  }

  /** What the estimator is given: at least MIN_MICS logs from distinct
      microphones, ascending, spread over at most TIME_THRESHOLD. */
  predicate LocatableGroup(q: seq<LogEvent>)
  {
    && |q| >= MIN_MICS
    && DistinctMics(q)
    && Sorted(q)
    && q[|q| - 1].timestamp - q[0].timestamp <= TIME_THRESHOLD
  }

  lemma QualifyingGroupShape(logs: seq<LogEvent>, k: nat)
    requires Sorted(logs)
    requires k < |Qualifying(GroupAll(logs))|
    ensures LocatableGroup(Qualifying(GroupAll(logs))[k])
    ensures multiset(Qualifying(GroupAll(logs))[k]) <= multiset(logs)
  {
    var groups := GroupAll(logs);
    QualifyingCorrect(groups);
    var q := Qualifying(groups)[k];
    var i :| 0 <= i < |groups| && |groups[i].micIds| >= MIN_MICS && groups[i].logs == q;
    GroupAllWellFormed(logs);
    assert WellFormed(groups[i]);
    WellFormedBounds(groups[i]);
    GroupAllPartition(logs);
    MembersContains(groups, i);
  }

  /** Over sorted logs, every qualifying group is one the estimator can be
      given: at least MIN_MICS logs (so the `continue` of line 84 never
      fires), no microphone twice (so the deduplication of lines 88-93
      returns it unchanged), ascending timestamps within TIME_THRESHOLD of
      each other, and only logs of the input. */
  lemma QualifyingGroupsShape(logs: seq<LogEvent>)
    requires Sorted(logs)
    ensures forall k :: 0 <= k < |Qualifying(GroupAll(logs))| ==>
              && LocatableGroup(Qualifying(GroupAll(logs))[k])
              && Dedup(Qualifying(GroupAll(logs))[k]) == Qualifying(GroupAll(logs))[k]
              && multiset(Qualifying(GroupAll(logs))[k]) <= multiset(logs)
  {
    var qs := Qualifying(GroupAll(logs));
    forall k | 0 <= k < |qs|
      ensures LocatableGroup(qs[k]) && Dedup(qs[k]) == qs[k] && multiset(qs[k]) <= multiset(logs)
    {
      QualifyingGroupShape(logs, k);
      DedupDistinct(qs[k]);
    }
  }

  lemma DetectedEventShape(store: seq<LogEvent>, startTime: int, endTime: int,
                           estimate: seq<LogEvent> -> Estimate, e: GunshotEvent)
    requires Detect(store, startTime, endTime, estimate).Completed?
    requires e in Detect(store, startTime, endTime, estimate).events
    ensures LocatableGroup(e.logs)
    ensures forall l :: l in e.logs ==> l in store && InWindow(l, startTime, endTime)
    ensures estimate(e.logs) == Located(Location(e.lat, e.lon, e.timestamp))
  {
    var logs := SelectLogs(store, startTime, endTime);
    var qs := Qualifying(GroupAll(logs));
    assert Detect(store, startTime, endTime, estimate) == EventsFor(qs, estimate);
    SelectLogsCorrect(store, startTime, endTime);
    EventsProvenance(qs, estimate);
    var k :| 0 <= k < |qs| && |qs[k]| >= MIN_MICS
             && estimate(Dedup(qs[k])) == Located(Location(e.lat, e.lon, e.timestamp))
             && e.logs == Dedup(qs[k]);
    QualifyingGroupShape(logs, k);
    DedupDistinct(qs[k]);
    forall l | l in e.logs ensures l in store && InWindow(l, startTime, endTime) {
      assert l in multiset(qs[k]);
      assert l in multiset(logs);
    }
  }

  /** Every event detect_gunshots reports comes from at least MIN_MICS
      stored logs in the window, from distinct microphones, in ascending
      order and spread over at most TIME_THRESHOLD; its time and position are
      the estimator's answer for exactly those logs. */
  lemma DetectedEventsShape(store: seq<LogEvent>, startTime: int, endTime: int,
                            estimate: seq<LogEvent> -> Estimate)
    requires Detect(store, startTime, endTime, estimate).Completed?
    ensures forall e :: e in Detect(store, startTime, endTime, estimate).events ==>
              && LocatableGroup(e.logs)
              && (forall l :: l in e.logs ==> l in store && InWindow(l, startTime, endTime))
              && estimate(e.logs) == Located(Location(e.lat, e.lon, e.timestamp))
  {
    forall e | e in Detect(store, startTime, endTime, estimate).events
      ensures && LocatableGroup(e.logs)
              && (forall l :: l in e.logs ==> l in store && InWindow(l, startTime, endTime))
              && estimate(e.logs) == Located(Location(e.lat, e.lon, e.timestamp))
    {
      DetectedEventShape(store, startTime, endTime, estimate, e);
    }
  }

  lemma QualifyingAbortedIff(groups: seq<Group>, estimate: seq<LogEvent> -> Estimate)
    requires forall k :: 0 <= k < |Qualifying(groups)| ==>
               |Qualifying(groups)[k]| >= MIN_MICS && Dedup(Qualifying(groups)[k]) == Qualifying(groups)[k]
    ensures EventsFor(Qualifying(groups), estimate).Aborted? <==>
            exists i :: 0 <= i < |groups| && |groups[i].micIds| >= MIN_MICS && estimate(groups[i].logs).EstimateError?
  {
    var qs := Qualifying(groups);
    QualifyingCorrect(groups);
    EventsAbortedIff(qs, estimate);
    if exists k :: 0 <= k < |qs| && |qs[k]| >= MIN_MICS && estimate(Dedup(qs[k])).EstimateError? {
      var k :| 0 <= k < |qs| && |qs[k]| >= MIN_MICS && estimate(Dedup(qs[k])).EstimateError?;
      var i :| 0 <= i < |groups| && |groups[i].micIds| >= MIN_MICS && groups[i].logs == qs[k];
      assert estimate(groups[i].logs).EstimateError?;
    }
    if exists i :: 0 <= i < |groups| && |groups[i].micIds| >= MIN_MICS && estimate(groups[i].logs).EstimateError? {
      var i :| 0 <= i < |groups| && |groups[i].micIds| >= MIN_MICS && estimate(groups[i].logs).EstimateError?;
      assert groups[i].logs in qs;
      var k :| 0 <= k < |qs| && qs[k] == groups[i].logs;
      assert estimate(Dedup(qs[k])).EstimateError?;
    }
  }

  /** detect_gunshots raises exactly when the estimator raises on some group
      with at least MIN_MICS microphones: one failing group loses the events
      of all the others. */
  lemma DetectAbortedIff(store: seq<LogEvent>, startTime: int, endTime: int,
                         estimate: seq<LogEvent> -> Estimate)
    ensures var groups := WindowGroups(store, startTime, endTime);
            Detect(store, startTime, endTime, estimate).Aborted? <==>
            exists i :: 0 <= i < |groups| && |groups[i].micIds| >= MIN_MICS && estimate(groups[i].logs).EstimateError?
  {
    var logs := SelectLogs(store, startTime, endTime);
    SortCorrect(InWindowLogs(store, startTime, endTime));
    QualifyingGroupsShape(logs);
    QualifyingAbortedIff(GroupAll(logs), estimate);
  }

  /** Fewer than MIN_MICS logs in the window (in particular none) give no
      group, no event and hence no broadcast. */
  lemma FewLogsNoEvents(store: seq<LogEvent>, startTime: int, endTime: int,
                        estimate: seq<LogEvent> -> Estimate)
    requires |InWindowLogs(store, startTime, endTime)| < MIN_MICS
    ensures Detect(store, startTime, endTime, estimate) == Completed([])
  {
    var logs := SelectLogs(store, startTime, endTime);
    SelectLogsCorrect(store, startTime, endTime);
    assert |logs| == |InWindowLogs(store, startTime, endTime)| by {
      assert |multiset(logs)| == |multiset(InWindowLogs(store, startTime, endTime))|;
    }
    FewLogsSmallGroups(logs);
    QualifyingCorrect(GroupAll(logs));
  }

  /** Grouping fewer than MIN_MICS logs gives no group with MIN_MICS microphones. */
  lemma FewLogsSmallGroups(logs: seq<LogEvent>)
    requires Sorted(logs) && |logs| < MIN_MICS
    ensures forall i :: 0 <= i < |GroupAll(logs)| ==> |GroupAll(logs)[i].micIds| < MIN_MICS
  {
    var groups := GroupAll(logs);
    GroupAllPartition(logs);
    GroupAllWellFormed(logs);
    forall i | 0 <= i < |groups| ensures |groups[i].micIds| < MIN_MICS {
      MembersContains(groups, i);
      MicIdsBound(groups[i].logs);
      MultisetCardinality(multiset(groups[i].logs), Members(groups));
    }
  }

  /** A window holding a single burst (ascending, distinct microphones, at
      least MIN_MICS of them, spread over at most TIME_THRESHOLD) yields
      exactly the one event the estimator places for it, or none when the
      estimator finds no location; an estimator error aborts. */
  lemma OneBurstOneEvent(store: seq<LogEvent>, startTime: int, endTime: int,
                         estimate: seq<LogEvent> -> Estimate)
    requires forall i :: 0 <= i < |store| ==> InWindow(store[i], startTime, endTime)
    requires LocatableGroup(store)
    ensures Detect(store, startTime, endTime, estimate) ==
            match estimate(store)
            case Located(loc) => Completed([EventOf(store, loc)])
            case NoLocation => Completed([])
            case EstimateError => Aborted
  {
    BurstWindowGroups(store, startTime, endTime);
    var g := WindowGroups(store, startTime, endTime)[0];
    DistinctMicsCount(store);
    QualifyingOne(g);
    DedupDistinct(store);
    EventsForOne(store, estimate);
  }

  lemma QualifyingOne(g: Group)
    requires |g.micIds| >= MIN_MICS
    ensures Qualifying([g]) == [g.logs]
  {
    assert [g][..0] == [];
  }

  lemma EventsForOne(q: seq<LogEvent>, estimate: seq<LogEvent> -> Estimate)
    requires |q| >= MIN_MICS
    ensures EventsFor([q], estimate) ==
            match estimate(Dedup(q))
            case Located(loc) => Completed([EventOf(Dedup(q), loc)])
            case NoLocation => Completed([])
            case EstimateError => Aborted
  {
    assert [q][..0] == [];
  }

  lemma BurstWindowGroups(store: seq<LogEvent>, startTime: int, endTime: int)
    requires forall i :: 0 <= i < |store| ==> InWindow(store[i], startTime, endTime)
    requires LocatableGroup(store)
    ensures WindowGroups(store, startTime, endTime) ==
            [Group(store, MicIds(store), store[0].timestamp, store[|store| - 1].timestamp)]
  {
    InWindowLogsAll(store, startTime, endTime);
    SortSortedIdentity(store);
    OneBurstOneGroup(store);
  }

  /** `group[i]` is the first log of its microphone in `group`. */
  predicate FirstOfMic(group: seq<LogEvent>, i: nat)
    requires i < |group|
  {
    group[i].micId !in MicIds(group[..i])
  }

  /** The positions of the first log of each microphone, ascending. */
  function FirstPositions(group: seq<LogEvent>): (r: seq<nat>)
    ensures forall k :: 0 <= k < |r| ==> r[k] < |group|
  {
    if |group| == 0 then []
    else
      var n := |group| - 1;
      FirstPositions(group[..n]) + if FirstOfMic(group, n) then [n] else []
  }

  /** FirstPositions lists, ascending, exactly the positions of first logs. */
  lemma {:induction false} FirstPositionsCorrect(group: seq<LogEvent>)
    ensures forall k :: 0 <= k < |FirstPositions(group)| ==> FirstOfMic(group, FirstPositions(group)[k])
    ensures forall i :: 0 <= i < |group| && FirstOfMic(group, i) ==> i in FirstPositions(group)
    ensures forall a, b :: 0 <= a < b < |FirstPositions(group)| ==> FirstPositions(group)[a] < FirstPositions(group)[b]
  {
    if |group| > 0 {
      var n := |group| - 1;
      var p := group[..n];
      FirstPositionsCorrect(p);
      assert forall i :: 0 <= i < n ==> p[i] == group[i] && p[..i] == group[..i];
      var fp := FirstPositions(p);
      assert FirstPositions(group) == if FirstOfMic(group, n) then fp + [n] else fp;
    }
  }

  /** Deduplication returns exactly the first log of each microphone, in
      the order those logs have in the group. */
  lemma {:induction false} DedupInOrder(group: seq<LogEvent>)
    ensures |Dedup(group)| == |FirstPositions(group)|
    ensures forall k :: 0 <= k < |Dedup(group)| ==> Dedup(group)[k] == group[FirstPositions(group)[k]]
  {
    if |group| > 0 {
      var n := |group| - 1;
      var p := group[..n];
      var l := group[n];
      DedupInOrder(p);
      var d := Dedup(p);
      var fp := FirstPositions(p);
      assert group[..n] == p;
      var first := FirstOfMic(group, n);
      assert first <==> l.micId !in MicIds(d);
      assert Dedup(group) == if first then d + [l] else d;
      assert FirstPositions(group) == if first then fp + [n] else fp;
      forall k | 0 <= k < |Dedup(group)| ensures Dedup(group)[k] == group[FirstPositions(group)[k]] {
        if k < |d| {
          assert group[fp[k]] == p[fp[k]];
        }
      }
    }
  }

  /** The positions of the groups with at least MIN_MICS microphone ids, ascending. */
  function QualifyingPositions(groups: seq<Group>): (r: seq<nat>)
    ensures forall k :: 0 <= k < |r| ==> r[k] < |groups|
  {
    if |groups| == 0 then []
    else
      var n := |groups| - 1;
      QualifyingPositions(groups[..n]) + if |groups[n].micIds| >= MIN_MICS then [n] else []
  }

  /** QualifyingPositions lists, ascending, exactly the qualifying groups. */
  lemma {:induction false} QualifyingPositionsCorrect(groups: seq<Group>)
    ensures forall k :: 0 <= k < |QualifyingPositions(groups)| ==> |groups[QualifyingPositions(groups)[k]].micIds| >= MIN_MICS
    ensures forall i :: 0 <= i < |groups| && |groups[i].micIds| >= MIN_MICS ==> i in QualifyingPositions(groups)
    ensures forall a, b :: 0 <= a < b < |QualifyingPositions(groups)| ==>
              QualifyingPositions(groups)[a] < QualifyingPositions(groups)[b]
  {
    if |groups| > 0 {
      var n := |groups| - 1;
      var p := groups[..n];
      QualifyingPositionsCorrect(p);
      assert forall i :: 0 <= i < n ==> p[i] == groups[i];
      var qp := QualifyingPositions(p);
      assert QualifyingPositions(groups) == if |groups[n].micIds| >= MIN_MICS then qp + [n] else qp;
    }
  }

  /** The filter of line 75 keeps the qualifying groups' logs in creation
      order, each once. */
  lemma {:induction false} QualifyingInOrder(groups: seq<Group>)
    ensures |Qualifying(groups)| == |QualifyingPositions(groups)|
    ensures forall k :: 0 <= k < |Qualifying(groups)| ==>
              Qualifying(groups)[k] == groups[QualifyingPositions(groups)[k]].logs
  {
    if |groups| > 0 {
      var n := |groups| - 1;
      var p := groups[..n];
      QualifyingInOrder(p);
      var q := Qualifying(p);
      var qp := QualifyingPositions(p);
      var keep := |groups[n].micIds| >= MIN_MICS;
      assert Qualifying(groups) == if keep then q + [groups[n].logs] else q;
      assert QualifyingPositions(groups) == if keep then qp + [n] else qp;
      forall k | 0 <= k < |Qualifying(groups)|
        ensures Qualifying(groups)[k] == groups[QualifyingPositions(groups)[k]].logs
      {
        if k < |q| {
          assert groups[qp[k]] == p[qp[k]];
        }
      }
    }
  }

  /** The event loop reports an event for `grouped[k]`. */
  predicate LocatedAt(grouped: seq<seq<LogEvent>>, estimate: seq<LogEvent> -> Estimate, k: nat)
    requires k < |grouped|
  {
    |grouped[k]| >= MIN_MICS && estimate(Dedup(grouped[k])).Located?
  }

  /** The positions of the groups the event loop locates, ascending. */
  function LocatedPositions(grouped: seq<seq<LogEvent>>, estimate: seq<LogEvent> -> Estimate): (r: seq<nat>)
    ensures forall k :: 0 <= k < |r| ==> r[k] < |grouped|
  {
    if |grouped| == 0 then []
    else
      var n := |grouped| - 1;
      LocatedPositions(grouped[..n], estimate) + if LocatedAt(grouped, estimate, n) then [n] else []
  }

  /** LocatedPositions lists, ascending, exactly the located groups. */
  lemma {:induction false} LocatedPositionsCorrect(grouped: seq<seq<LogEvent>>, estimate: seq<LogEvent> -> Estimate)
    ensures forall k :: 0 <= k < |LocatedPositions(grouped, estimate)| ==>
              LocatedAt(grouped, estimate, LocatedPositions(grouped, estimate)[k])
    ensures forall i :: 0 <= i < |grouped| && LocatedAt(grouped, estimate, i) ==> i in LocatedPositions(grouped, estimate)
    ensures forall a, b :: 0 <= a < b < |LocatedPositions(grouped, estimate)| ==>
              LocatedPositions(grouped, estimate)[a] < LocatedPositions(grouped, estimate)[b]
  {
    if |grouped| > 0 {
      var n := |grouped| - 1;
      var p := grouped[..n];
      LocatedPositionsCorrect(p, estimate);
      assert forall i :: 0 <= i < n ==> p[i] == grouped[i];
      var at := LocatedPositions(p, estimate);
      var all := LocatedPositions(grouped, estimate);
      assert all == if LocatedAt(grouped, estimate, n) then at + [n] else at;
      forall k | 0 <= k < |at| ensures all[k] == at[k] && LocatedAt(grouped, estimate, at[k]) {
        assert LocatedAt(p, estimate, at[k]);
      }
      forall i | 0 <= i < n && LocatedAt(grouped, estimate, i) ensures i in all {
        assert LocatedAt(p, estimate, i);
      }
    }
  }

  /** A completed loop reports one event per located group, in group order,
      and nothing else. */
  lemma {:induction false} EventsInOrder(grouped: seq<seq<LogEvent>>, estimate: seq<LogEvent> -> Estimate)
    requires EventsFor(grouped, estimate).Completed?
    ensures |EventsFor(grouped, estimate).events| == |LocatedPositions(grouped, estimate)|
    ensures forall j :: 0 <= j < |LocatedPositions(grouped, estimate)| ==>
              var g := Dedup(grouped[LocatedPositions(grouped, estimate)[j]]);
              estimate(g).Located? && EventsFor(grouped, estimate).events[j] == EventOf(g, estimate(g).loc)
  {
    if |grouped| > 0 {
      var n := |grouped| - 1;
      var p := grouped[..n];
      assert EventsFor(p, estimate).Completed?;
      EventsInOrder(p, estimate);
      var ev := EventsFor(p, estimate).events;
      var at := LocatedPositions(p, estimate);
      assert forall j :: 0 <= j < |at| ==> grouped[at[j]] == p[at[j]];
      if LocatedAt(grouped, estimate, n) {
        var g := Dedup(grouped[n]);
        EventsLocatedStep(grouped, estimate);
        assert LocatedPositions(grouped, estimate) == at + [n];
        forall j | 0 <= j < |at| + 1
          ensures var h := Dedup(grouped[(at + [n])[j]]);
                  estimate(h).Located? && (ev + [EventOf(g, estimate(g).loc)])[j] == EventOf(h, estimate(h).loc)
        {
          if j < |at| {
            assert (at + [n])[j] == at[j];
          }
        }
      } else {
        EventsSkippedStep(grouped, estimate);
        assert LocatedPositions(grouped, estimate) == at;
      }
    }
  }

  /** The last group is located: the loop appends its event. */
  lemma EventsLocatedStep(grouped: seq<seq<LogEvent>>, estimate: seq<LogEvent> -> Estimate)
    requires |grouped| > 0 && LocatedAt(grouped, estimate, |grouped| - 1)
    requires EventsFor(grouped[..|grouped| - 1], estimate).Completed?
    ensures var g := Dedup(grouped[|grouped| - 1]);
            EventsFor(grouped, estimate) ==
              Completed(EventsFor(grouped[..|grouped| - 1], estimate).events + [EventOf(g, estimate(g).loc)])
  {
  }

  /** The last group is not located: a completed loop skips it. */
  lemma EventsSkippedStep(grouped: seq<seq<LogEvent>>, estimate: seq<LogEvent> -> Estimate)
    requires |grouped| > 0 && !LocatedAt(grouped, estimate, |grouped| - 1)
    requires EventsFor(grouped, estimate).Completed?
    ensures EventsFor(grouped[..|grouped| - 1], estimate) == EventsFor(grouped, estimate)
  {
  }

  /** detect_gunshots reports an event for `g`: it has at least MIN_MICS
      microphone ids and the estimator locates its logs. */
  predicate Detectable(g: Group, estimate: seq<LogEvent> -> Estimate)
  {
    |g.micIds| >= MIN_MICS && estimate(g.logs).Located?
  }

  /** The positions of the detectable groups, ascending. */
  function DetectedPositions(groups: seq<Group>, estimate: seq<LogEvent> -> Estimate): (r: seq<nat>)
    ensures forall k :: 0 <= k < |r| ==> r[k] < |groups|
  {
    if |groups| == 0 then []
    else
      var n := |groups| - 1;
      DetectedPositions(groups[..n], estimate) + if Detectable(groups[n], estimate) then [n] else []
  }

  /** DetectedPositions lists, ascending, exactly the detectable groups. */
  lemma {:induction false} DetectedPositionsCorrect(groups: seq<Group>, estimate: seq<LogEvent> -> Estimate)
    ensures forall k :: 0 <= k < |DetectedPositions(groups, estimate)| ==>
              Detectable(groups[DetectedPositions(groups, estimate)[k]], estimate)
    ensures forall i :: 0 <= i < |groups| && Detectable(groups[i], estimate) ==> i in DetectedPositions(groups, estimate)
    ensures forall a, b :: 0 <= a < b < |DetectedPositions(groups, estimate)| ==>
              DetectedPositions(groups, estimate)[a] < DetectedPositions(groups, estimate)[b]
  {
    if |groups| > 0 {
      var n := |groups| - 1;
      var p := groups[..n];
      DetectedPositionsCorrect(p, estimate);
      assert forall i :: 0 <= i < n ==> p[i] == groups[i];
      var at := DetectedPositions(p, estimate);
      assert DetectedPositions(groups, estimate) == if Detectable(groups[n], estimate) then at + [n] else at;
    }
  }

  /** `events` are, one by one, the events of the groups at positions
      `at`: each such group's logs are located and the event carries them
      and the estimate. */
  predicate Matches(groups: seq<Group>, estimate: seq<LogEvent> -> Estimate,
                    events: seq<GunshotEvent>, at: seq<nat>)
  {
    && |events| == |at|
    && forall j :: 0 <= j < |at| ==>
         at[j] < |groups| && estimate(groups[at[j]].logs).Located? &&
         events[j] == EventOf(groups[at[j]].logs, estimate(groups[at[j]].logs).loc)
  }

  /** A correspondence over a prefix of the groups holds over all of them. */
  lemma MatchesExtend(groups: seq<Group>, n: nat, estimate: seq<LogEvent> -> Estimate,
                      events: seq<GunshotEvent>, at: seq<nat>)
    requires n <= |groups|
    requires Matches(groups[..n], estimate, events, at)
    ensures Matches(groups, estimate, events, at)
  {
    forall j | 0 <= j < |at| ensures groups[at[j]] == groups[..n][at[j]] {
    }
  }

  /** A located group's event extends the correspondence. */
  lemma MatchesAppend(groups: seq<Group>, estimate: seq<LogEvent> -> Estimate,
                      events: seq<GunshotEvent>, at: seq<nat>, n: nat)
    requires Matches(groups, estimate, events, at)
    requires n < |groups| && estimate(groups[n].logs).Located?
    ensures Matches(groups, estimate,
                    events + [EventOf(groups[n].logs, estimate(groups[n].logs).loc)], at + [n])
  {
    var e := EventOf(groups[n].logs, estimate(groups[n].logs).loc);
    forall j | 0 <= j < |at| + 1
      ensures (at + [n])[j] < |groups| && estimate(groups[(at + [n])[j]].logs).Located?
      ensures (events + [e])[j] == EventOf(groups[(at + [n])[j]].logs, estimate(groups[(at + [n])[j]].logs).loc)
    {
      if j < |at| {
        assert (at + [n])[j] == at[j] && (events + [e])[j] == events[j];
      }
    }
  }

  /** Over groups whose qualifying members need no deduplication, a
      completed call reports one event per located qualifying group, in
      creation order. */
  lemma {:induction false} QualifiedEventsInOrder(groups: seq<Group>, estimate: seq<LogEvent> -> Estimate)
    requires forall i :: 0 <= i < |groups| && |groups[i].micIds| >= MIN_MICS ==>
               |groups[i].logs| >= MIN_MICS && Dedup(groups[i].logs) == groups[i].logs
    requires EventsFor(Qualifying(groups), estimate).Completed?
    ensures Matches(groups, estimate, EventsFor(Qualifying(groups), estimate).events, DetectedPositions(groups, estimate))
  {
    if |groups| > 0 {
      var n := |groups| - 1;
      var p := groups[..n];
      var g := groups[n];
      assert forall i :: 0 <= i < n ==> p[i] == groups[i];
      QualifiedStep(groups, estimate);
      QualifiedEventsInOrder(p, estimate);
      var ev := EventsFor(Qualifying(p), estimate).events;
      var at := DetectedPositions(p, estimate);
      MatchesExtend(groups, n, estimate, ev, at);
      if Detectable(g, estimate) {
        assert DetectedPositions(groups, estimate) == at + [n];
        MatchesAppend(groups, estimate, ev, at, n);
      } else {
        assert DetectedPositions(groups, estimate) == at;
      }
    }
  }

  /** One step of the filter-then-loop pipeline: the last group adds its
      event exactly when it qualifies and is located. */
  lemma QualifiedStep(groups: seq<Group>, estimate: seq<LogEvent> -> Estimate)
    requires |groups| > 0
    requires var g := groups[|groups| - 1];
             |g.micIds| >= MIN_MICS ==> |g.logs| >= MIN_MICS && Dedup(g.logs) == g.logs
    requires EventsFor(Qualifying(groups), estimate).Completed?
    ensures var g := groups[|groups| - 1];
            var before := EventsFor(Qualifying(groups[..|groups| - 1]), estimate);
            && before.Completed?
            && EventsFor(Qualifying(groups), estimate).events ==
                 if |g.micIds| >= MIN_MICS && estimate(g.logs).Located?
                 then before.events + [EventOf(g.logs, estimate(g.logs).loc)]
                 else before.events
  {
    var n := |groups| - 1;
    var g := groups[n];
    var q := Qualifying(groups);
    var qp := Qualifying(groups[..n]);
    if |g.micIds| >= MIN_MICS {
      assert q == qp + [g.logs];
      assert q[..|q| - 1] == qp;
      if estimate(g.logs).Located? {
        EventsLocatedStep(q, estimate);
      } else {
        assert !LocatedAt(q, estimate, |q| - 1);
        EventsSkippedStep(q, estimate);
      }
    } else {
      assert q == qp;
    }
  }

  /** The events of a completed detect_gunshots call are, in creation order
      of the window's groups, one per group with at least MIN_MICS
      microphones that the estimator locates, carrying that group's logs and
      the estimate. */
  lemma DetectInOrder(store: seq<LogEvent>, startTime: int, endTime: int,
                      estimate: seq<LogEvent> -> Estimate)
    requires Detect(store, startTime, endTime, estimate).Completed?
    ensures Matches(WindowGroups(store, startTime, endTime), estimate,
                    Detect(store, startTime, endTime, estimate).events,
                    DetectedPositions(WindowGroups(store, startTime, endTime), estimate))
  {
    var logs := SelectLogs(store, startTime, endTime);
    var groups := GroupAll(logs);
    SortCorrect(InWindowLogs(store, startTime, endTime));
    QualifyingNeedsNoDedup(logs);
    QualifiedEventsInOrder(groups, estimate);
  }

  /** Over sorted logs, every group with at least MIN_MICS microphone ids
      has at least MIN_MICS logs and no repeated microphone. */
  lemma QualifyingNeedsNoDedup(logs: seq<LogEvent>)
    requires Sorted(logs)
    ensures forall i :: 0 <= i < |GroupAll(logs)| && |GroupAll(logs)[i].micIds| >= MIN_MICS ==>
              |GroupAll(logs)[i].logs| >= MIN_MICS && Dedup(GroupAll(logs)[i].logs) == GroupAll(logs)[i].logs
  {
    var groups := GroupAll(logs);
    GroupAllWellFormed(logs);
    forall i | 0 <= i < |groups| && |groups[i].micIds| >= MIN_MICS
      ensures |groups[i].logs| >= MIN_MICS && Dedup(groups[i].logs) == groups[i].logs
    {
      WellFormedBounds(groups[i]);
      DedupDistinct(groups[i].logs);
    }
  }

  lemma MultisetCardinality(a: multiset<LogEvent>, b: multiset<LogEvent>)
    requires a <= b
    ensures |a| <= |b|
  {
    assert b == a + (b - a);
  }
}
