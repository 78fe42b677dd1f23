/** The greedy one-pass grouping of detect_gunshots
    (app/utils/detect_gunshots.py:38-70): each log, in timestamp order, joins
    the first open group whose min_time and max_time are both within
    TIME_THRESHOLD of it and which has not yet heard its microphone; otherwise
    it opens a new group. */
module Grouping {
  import opened Wrappers
  import opened Logs

  /** One second in microseconds. */
  const TIME_THRESHOLD := 1_000_000

  /** One entry of `active_groups`: its logs, the set of microphone ids seen,
      and the smallest and largest timestamp seen. */
  datatype Group = Group(logs: seq<LogEvent>, micIds: set<int>, minTime: int, maxTime: int)

  /** The test on lines 47-51: `g` may take `l`. */
  predicate Eligible(g: Group, l: LogEvent)
  {
    && Abs(l.timestamp - g.minTime) <= TIME_THRESHOLD
    && Abs(l.timestamp - g.maxTime) <= TIME_THRESHOLD
    && l.micId !in g.micIds
  }

  /** `merge_candidates`: the indices of the groups that may take `l`, in
      creation order. */
  function Candidates(groups: seq<Group>, l: LogEvent): (r: seq<nat>)
    ensures forall k :: 0 <= k < |r| ==> r[k] < |groups| && Eligible(groups[r[k]], l)
    ensures forall i :: 0 <= i < |groups| && Eligible(groups[i], l) ==> i in r
    ensures forall a, b :: 0 <= a < b < |r| ==> r[a] < r[b]
  {
    if |groups| == 0 then []
    else
      var n := |groups| - 1;
      Candidates(groups[..n], l) + if Eligible(groups[n], l) then [n] else []
  }

  /** Lines 57-60: append `l` and widen the bounds. */
  function Merge(g: Group, l: LogEvent): Group
  {
    Group(g.logs + [l], g.micIds + {l.micId}, Min(g.minTime, l.timestamp), Max(g.maxTime, l.timestamp))
  }

  /** Lines 65-70: a singleton group. */
  function Singleton(l: LogEvent): Group
  {
    Group([l], {l.micId}, l.timestamp, l.timestamp)
  }

  /** One iteration of the outer loop: `l` goes to the first candidate, or
      into a new group at the end. */
  function Place(groups: seq<Group>, l: LogEvent): seq<Group>
  {
    var c := Candidates(groups, l);
    if |c| > 0 then groups[c[0] := Merge(groups[c[0]], l)] else groups + [Singleton(l)]
  }

  /** `active_groups` after the loop has seen every log of `logs`. */
  function GroupAll(logs: seq<LogEvent>): seq<Group>
  {
    if |logs| == 0 then [] else Place(GroupAll(logs[..|logs| - 1]), logs[|logs| - 1])
  }

  /** The inner loop of lines 43-53: collect `merge_candidates`. */
  method MergeCandidates(activeGroups: seq<Group>, log: LogEvent) returns (mergeCandidates: seq<nat>)
    ensures mergeCandidates == Candidates(activeGroups, log)
  {
    mergeCandidates := [];
    for j := 0 to |activeGroups|
      invariant mergeCandidates == Candidates(activeGroups[..j], log)
    {
      var group := activeGroups[j];
      if && Abs(log.timestamp - group.minTime) <= TIME_THRESHOLD
         && Abs(log.timestamp - group.maxTime) <= TIME_THRESHOLD
         && log.micId !in group.micIds
      {
        mergeCandidates := mergeCandidates + [j];
      }
      assert activeGroups[..j + 1][..j] == activeGroups[..j];
    }
    assert activeGroups[..|activeGroups|] == activeGroups;
  }

  /** The loop of lines 41-70, updating `active_groups` in place. */
  method GroupLogs(logs: seq<LogEvent>) returns (activeGroups: seq<Group>)
    ensures activeGroups == GroupAll(logs)
  {
    activeGroups := [];
    for n := 0 to |logs|
      invariant activeGroups == GroupAll(logs[..n])
    {
      var log := logs[n];
      ghost var before := activeGroups;
      assert logs[..n + 1][..n] == logs[..n];
      assert GroupAll(logs[..n + 1]) == Place(before, log);
      var mergeCandidates := MergeCandidates(activeGroups, log);
      var addedToGroup := false;
      if |mergeCandidates| > 0 {
        var k := mergeCandidates[0];
        var target := activeGroups[k];
        activeGroups := activeGroups[k := Group(target.logs + [log], target.micIds + {log.micId},
                                                 Min(target.minTime, log.timestamp),
                                                 Max(target.maxTime, log.timestamp))];
        addedToGroup := true;
      }
      if !addedToGroup {
        activeGroups := activeGroups + [Group([log], {log.micId}, log.timestamp, log.timestamp)];
      }
    }
    assert logs[..|logs|] == logs;
  }

  /** First fit: `l` joins the earliest-created eligible group; a new group is
      opened exactly when no group is eligible. */
  lemma PlaceFirstFit(groups: seq<Group>, l: LogEvent)
    ensures forall k :: 0 <= k < |groups| && Eligible(groups[k], l)
                        && (forall i :: 0 <= i < k ==> !Eligible(groups[i], l))
                        ==> Place(groups, l) == groups[k := Merge(groups[k], l)]
    ensures (forall i :: 0 <= i < |groups| ==> !Eligible(groups[i], l))
            <==> Place(groups, l) == groups + [Singleton(l)]
  {
    var c := Candidates(groups, l);
    forall k | 0 <= k < |groups| && Eligible(groups[k], l)
               && (forall i :: 0 <= i < k ==> !Eligible(groups[i], l))
      ensures Place(groups, l) == groups[k := Merge(groups[k], l)]
    {
      var m :| 0 <= m < |c| && c[m] == k;
      assert c[0] <= c[m];
      assert Eligible(groups[c[0]], l);
    }
    if |c| > 0 {
      assert Eligible(groups[c[0]], l);
      assert |Place(groups, l)| == |groups|;
    }
  }

  /** All logs held by `groups`, with multiplicity. */
  function Members(groups: seq<Group>): multiset<LogEvent>
  {
    if |groups| == 0 then multiset{}
    else Members(groups[..|groups| - 1]) + multiset(groups[|groups| - 1].logs)
  }

  lemma MembersAppend(groups: seq<Group>, g: Group)
    ensures Members(groups + [g]) == Members(groups) + multiset(g.logs)
  {
    assert (groups + [g])[..|groups|] == groups;
  }

  lemma {:induction false} MembersMerge(groups: seq<Group>, k: nat, l: LogEvent)
    requires k < |groups|
    ensures Members(groups[k := Merge(groups[k], l)]) == Members(groups) + multiset{l}
  {
    var n := |groups| - 1;
    var u := groups[k := Merge(groups[k], l)];
    assert multiset(groups[k].logs + [l]) == multiset(groups[k].logs) + multiset{l};
    if k == n {
      assert u[..n] == groups[..n];
      calc {
        Members(u);
        Members(groups[..n]) + multiset(groups[n].logs + [l]);
        Members(groups[..n]) + multiset(groups[n].logs) + multiset{l};
      }
    } else {
      assert u[..n] == groups[..n][k := Merge(groups[..n][k], l)];
      MembersMerge(groups[..n], k, l);
      assert u[n] == groups[n];
    }
  }

  lemma {:induction false} MembersContains(groups: seq<Group>, k: nat)
    requires k < |groups|
    ensures multiset(groups[k].logs) <= Members(groups)
  {
    var n := |groups| - 1;
    if k < n {
      MembersContains(groups[..n], k);
    }
  }

  /** Placing a log adds exactly that log to the groups' contents. */
  lemma PlaceAddsOne(groups: seq<Group>, l: LogEvent)
    ensures Members(Place(groups, l)) == Members(groups) + multiset{l}
  {
    var c := Candidates(groups, l);
    if |c| > 0 {
      MembersMerge(groups, c[0], l);
    } else {
      MembersAppend(groups, Singleton(l));
    }
  }

  /** The groups partition the input: every log ends up in exactly one group,
      as often as it occurs in the input. */
  lemma {:induction false} GroupAllPartition(logs: seq<LogEvent>)
    ensures Members(GroupAll(logs)) == multiset(logs)
  {
    if |logs| > 0 {
      var p := logs[..|logs| - 1];
      assert logs == p + [logs[|logs| - 1]];
      GroupAllPartition(p);
      PlaceAddsOne(GroupAll(p), logs[|logs| - 1]);
    }
  }

  /** The invariants every group keeps when logs arrive in timestamp order:
      non-empty, no microphone twice, `micIds` is exactly the microphones of its
      logs, logs in order, `minTime` and `maxTime` are the first and last
      timestamps, and the spread is at most TIME_THRESHOLD. */
  predicate WellFormed(g: Group)
  {
    && |g.logs| > 0
    && g.micIds == MicIds(g.logs)
    && DistinctMics(g.logs)
    && Sorted(g.logs)
    && g.minTime == g.logs[0].timestamp
    && g.maxTime == g.logs[|g.logs| - 1].timestamp
    && g.maxTime - g.minTime <= TIME_THRESHOLD
  }

  lemma MergeWellFormed(g: Group, l: LogEvent)
    requires WellFormed(g) && Eligible(g, l) && g.maxTime <= l.timestamp
    ensures WellFormed(Merge(g, l))
  {
    MicIdsAppend(g.logs, l);
    var s := g.logs + [l];
    assert s[0] == g.logs[0];
    forall i, j | 0 <= i < j < |s| ensures s[i].micId != s[j].micId {
      if j == |s| - 1 {
        assert s[i].micId in MicIds(g.logs);
      }
    }
  }

  lemma SingletonWellFormed(l: LogEvent)
    ensures WellFormed(Singleton(l))
  {
    var s := [l];
    assert MicIds(s) == {l.micId} by {
      assert s[0] == l;
    }
  }

  lemma PlaceWellFormed(groups: seq<Group>, l: LogEvent)
    requires forall i :: 0 <= i < |groups| ==> WellFormed(groups[i]) && groups[i].maxTime <= l.timestamp
    ensures forall i :: 0 <= i < |Place(groups, l)| ==>
              WellFormed(Place(groups, l)[i]) && Place(groups, l)[i].maxTime <= l.timestamp
  {
    var c := Candidates(groups, l);
    if |c| > 0 {
      assert Eligible(groups[c[0]], l);
      MergeWellFormed(groups[c[0]], l);
    } else {
      assert Place(groups, l) == groups + [Singleton(l)];
      SingletonWellFormed(l);
    }
  }

  /** Over input sorted by timestamp, every group is well formed and no group
      ends after the last log. */
  lemma {:induction false} GroupAllWellFormed(logs: seq<LogEvent>)
    requires Sorted(logs)
    ensures forall i :: 0 <= i < |GroupAll(logs)| ==> WellFormed(GroupAll(logs)[i])
    ensures |logs| > 0 ==>
              forall i :: 0 <= i < |GroupAll(logs)| ==> GroupAll(logs)[i].maxTime <= logs[|logs| - 1].timestamp
  {
    if |logs| > 0 {
      var p := logs[..|logs| - 1];
      var l := logs[|logs| - 1];
      GroupAllWellFormed(p);
      if |p| > 0 {
        assert p[|p| - 1].timestamp <= l.timestamp;
      }
      PlaceWellFormed(GroupAll(p), l);
    }
  }

  /** Every member of a well-formed group lies in [minTime, maxTime]. */
  lemma WellFormedBounds(g: Group)
    requires WellFormed(g)
    ensures forall i :: 0 <= i < |g.logs| ==> g.minTime <= g.logs[i].timestamp <= g.maxTime
    ensures |g.logs| == |g.micIds|
  {
    DistinctMicsCount(g.logs);
  }

  lemma PlaceIntoOnlyGroup(g: Group, l: LogEvent)
    requires Eligible(g, l)
    ensures Place([g], l) == [Merge(g, l)]
  {
    assert [g][..0] == [];
    assert Candidates([g], l) == [0];
  }

  lemma {:induction false} BurstStep(p: seq<LogEvent>, l: LogEvent)
    requires |p| > 0
    requires GroupAll(p) == [Group(p, MicIds(p), p[0].timestamp, p[|p| - 1].timestamp)]
    requires p[0].timestamp <= p[|p| - 1].timestamp <= l.timestamp
    requires l.timestamp - p[0].timestamp <= TIME_THRESHOLD
    requires l.micId !in MicIds(p)
    ensures GroupAll(p + [l]) == [Group(p + [l], MicIds(p + [l]), p[0].timestamp, l.timestamp)]
  {
    var logs := p + [l];
    assert logs[..|p|] == p;
    assert GroupAll(logs) == Place(GroupAll(p), l);
    var g := Group(p, MicIds(p), p[0].timestamp, p[|p| - 1].timestamp);
    assert Eligible(g, l);
    PlaceIntoOnlyGroup(g, l);
    MicIdsAppend(p, l);
  }

  /** Sorted logs from distinct microphones that span at most
      TIME_THRESHOLD all end up in one group. */
  lemma {:induction false} OneBurstOneGroup(logs: seq<LogEvent>)
    requires |logs| > 0 && Sorted(logs) && DistinctMics(logs)
    requires logs[|logs| - 1].timestamp - logs[0].timestamp <= TIME_THRESHOLD
    ensures GroupAll(logs) == [Group(logs, MicIds(logs), logs[0].timestamp, logs[|logs| - 1].timestamp)]
  {
    var n := |logs| - 1;
    if n == 0 {
      SingleLogGroup(logs);
    } else {
      var p := logs[..n];
      var l := logs[n];
      BurstPrefix(logs);
      OneBurstOneGroup(p);
      BurstStep(p, l);
      assert p + [l] == logs;
    }
  }

  lemma SingleLogGroup(logs: seq<LogEvent>)
    requires |logs| == 1
    ensures GroupAll(logs) == [Group(logs, MicIds(logs), logs[0].timestamp, logs[0].timestamp)]
  {
    assert logs[..0] == [];
    assert MicIds(logs) == {logs[0].micId};
    assert [logs[0]] == logs;
  }

  /** The facts about a burst's proper prefix and last log that BurstStep needs. */
  lemma BurstPrefix(logs: seq<LogEvent>)
    requires |logs| > 1 && Sorted(logs) && DistinctMics(logs)
    requires logs[|logs| - 1].timestamp - logs[0].timestamp <= TIME_THRESHOLD
    ensures var n := |logs| - 1;
            var p := logs[..n];
            && Sorted(p) && DistinctMics(p)
            && p[0] == logs[0] && p[n - 1] == logs[n - 1]
            && p[n - 1].timestamp - p[0].timestamp <= TIME_THRESHOLD
            && p[0].timestamp <= p[n - 1].timestamp <= logs[n].timestamp
            && logs[n].micId !in MicIds(p)
  {
    var n := |logs| - 1;
    var p := logs[..n];
    assert forall i :: 0 <= i < n ==> p[i] == logs[i];
  }

  /** A log whose microphone the only group already has opens a second
      group, however close in time it is. */
  lemma RepeatOpensGroup(p: seq<LogEvent>, g: Group, l: LogEvent)
    requires GroupAll(p) == [g] && l.micId in g.micIds
    ensures GroupAll(p + [l]) == [g, Singleton(l)]
  {
    var logs := p + [l];
    assert logs[..|p|] == p;
    assert !Eligible(g, l);
    PlaceFirstFit([g], l);
  }
}
