/** The query at the top of detect_gunshots (app/utils/detect_gunshots.py:22-34):
    the logs whose timestamp lies in the closed window [start, end], ascending
    by timestamp. The database's `order_by` followed by Python's stable `sorted`
    is modelled as a stable insertion sort; for equal timestamps the model keeps
    store order, which the database leaves unspecified. */
module Selection {
  import opened Logs

  predicate InWindow(l: LogEvent, start: int, end: int)
  {
    start <= l.timestamp <= end
  }

  /** The `where` clauses: the logs of `store` inside the window, in store order. */
  function InWindowLogs(store: seq<LogEvent>, start: int, end: int): seq<LogEvent>
  {
    if |store| == 0 then []
    else InWindowLogs(store[..|store| - 1], start, end) + if InWindow(store[|store| - 1], start, end) then [store[|store| - 1]] else []
  }

  /** The filter keeps exactly the stored logs that lie in the window, each
      as often as it is stored. */
  lemma {:induction false} InWindowLogsCorrect(store: seq<LogEvent>, start: int, end: int)
    ensures forall l :: l in multiset(InWindowLogs(store, start, end)) ==> InWindow(l, start, end)
    ensures forall l :: InWindow(l, start, end) ==>
              multiset(InWindowLogs(store, start, end))[l] == multiset(store)[l]
  {
    if |store| > 0 {
      var p := store[..|store| - 1];
      var l := store[|store| - 1];
      assert store == p + [l];
      InWindowLogsCorrect(p, start, end);
    }
  }

  /** Inserts `l` after every element of `s` whose timestamp is not larger. */
  function Insert(s: seq<LogEvent>, l: LogEvent): seq<LogEvent>
  {
    if |s| == 0 then [l]
    else if s[|s| - 1].timestamp <= l.timestamp then s + [l]
    else Insert(s[..|s| - 1], l) + [s[|s| - 1]]
  }

  /** `sorted(..., key=lambda log: log.timestamp)`. */
  function SortByTimestamp(s: seq<LogEvent>): seq<LogEvent>
  {
    if |s| == 0 then [] else Insert(SortByTimestamp(s[..|s| - 1]), s[|s| - 1])
  }

  lemma {:induction false} InsertCorrect(s: seq<LogEvent>, l: LogEvent)
    requires Sorted(s)
    ensures Sorted(Insert(s, l))
    ensures multiset(Insert(s, l)) == multiset(s) + multiset{l}
  {
    if |s| == 0 {
    } else if s[|s| - 1].timestamp <= l.timestamp {
      AppendSorted(s, l);
    } else {
      var p := s[..|s| - 1];
      var last := s[|s| - 1];
      assert s == p + [last];
      assert Sorted(p);
      InsertCorrect(p, l);
      var q := Insert(p, l);
      assert Insert(s, l) == q + [last];
      forall i | 0 <= i < |q| ensures q[i].timestamp <= last.timestamp {
        assert q[i] in multiset(q);
        assert q[i] in multiset(p) + multiset{l};
      }
      if |q| > 0 {
        assert q[|q| - 1].timestamp <= last.timestamp;
      }
      AppendSorted(q, last);
    }
  }

  /** Appending a log no earlier than the last keeps the order. */
  lemma AppendSorted(s: seq<LogEvent>, l: LogEvent)
    requires Sorted(s) && (|s| > 0 ==> s[|s| - 1].timestamp <= l.timestamp)
    ensures Sorted(s + [l])
  {
    var r := s + [l];
    forall i, j | 0 <= i < j < |r| ensures r[i].timestamp <= r[j].timestamp {
      if j == |s| && i < |s| - 1 {
        assert s[i].timestamp <= s[|s| - 1].timestamp;
      }
    }
  }

  /** The sort returns the same logs, ascending by timestamp. */
  lemma {:induction false} SortCorrect(s: seq<LogEvent>)
    ensures Sorted(SortByTimestamp(s))
    ensures multiset(SortByTimestamp(s)) == multiset(s)
  {
    if |s| > 0 {
      var p := s[..|s| - 1];
      assert s == p + [s[|s| - 1]];
      SortCorrect(p);
      InsertCorrect(SortByTimestamp(p), s[|s| - 1]);
    }
  }

  /** The logs of `s` with timestamp `t`, in the order of `s`. */
  function AtTime(s: seq<LogEvent>, t: int): (r: seq<LogEvent>)
    ensures |r| <= |s|
  {
    if |s| == 0 then []
    else AtTime(s[..|s| - 1], t) + if s[|s| - 1].timestamp == t then [s[|s| - 1]] else []
  }

  lemma {:induction false} AtTimeAppend(a: seq<LogEvent>, b: seq<LogEvent>, t: int)
    ensures AtTime(a + b, t) == AtTime(a, t) + AtTime(b, t)
  {
    if |b| > 0 {
      var n := |b| - 1;
      AtTimeAppend(a, b[..n], t);
      assert (a + b)[..|a + b| - 1] == a + b[..n];
    } else {
      assert a + b == a;
    }
  }

  lemma AtTimeSingle(l: LogEvent, t: int)
    ensures AtTime([l], t) == if l.timestamp == t then [l] else []
  {
    assert [l][..0] == [];
  }

  /** Insertion puts `l` after every log with its timestamp. */
  lemma {:induction false} InsertStable(s: seq<LogEvent>, l: LogEvent, t: int)
    requires Sorted(s)
    ensures AtTime(Insert(s, l), t) == AtTime(s, t) + AtTime([l], t)
  {
    if |s| == 0 {
      assert Insert(s, l) == [l];
    } else if s[|s| - 1].timestamp <= l.timestamp {
      AtTimeAppend(s, [l], t);
    } else {
      var p := s[..|s| - 1];
      var last := s[|s| - 1];
      assert Sorted(p);
      assert s == p + [last];
      InsertStable(p, l, t);
      assert Insert(s, l) == Insert(p, l) + [last];
      InsertPastLast(p, l, last, t);
    }
  }

  /** When `l` moves before a larger `last`, the logs at any one timestamp
      still come out in the same order. */
  lemma InsertPastLast(p: seq<LogEvent>, l: LogEvent, last: LogEvent, t: int)
    requires l.timestamp < last.timestamp
    requires AtTime(Insert(p, l), t) == AtTime(p, t) + AtTime([l], t)
    ensures AtTime(Insert(p, l) + [last], t) == AtTime(p + [last], t) + AtTime([l], t)
  {
    AtTimeSingle(l, t);
    AtTimeSingle(last, t);
    AtTimeAppend(Insert(p, l), [last], t);
    AtTimeAppend(p, [last], t);
  }

  /** The sort is stable: logs with equal timestamps keep their relative
      order. */
  lemma {:induction false} SortStable(s: seq<LogEvent>, t: int)
    ensures AtTime(SortByTimestamp(s), t) == AtTime(s, t)
  {
    if |s| > 0 {
      var p := s[..|s| - 1];
      var l := s[|s| - 1];
      assert s == p + [l];
      SortCorrect(p);
      calc {
        AtTime(SortByTimestamp(s), t);
        AtTime(Insert(SortByTimestamp(p), l), t);
        { InsertStable(SortByTimestamp(p), l, t); }
        AtTime(SortByTimestamp(p), t) + AtTime([l], t);
        { SortStable(p, t); }
        AtTime(p, t) + AtTime([l], t);
        { AtTimeAppend(p, [l], t); }
        AtTime(s, t);
      }
    }
  }

  function SelectLogs(store: seq<LogEvent>, start: int, end: int): seq<LogEvent>
  {
    SortByTimestamp(InWindowLogs(store, start, end))
  }

  /** Exactly the logs of the store that lie in the window are considered
      (each as often as it is stored), and they come in ascending timestamp order. */
  lemma SelectLogsCorrect(store: seq<LogEvent>, start: int, end: int)
    ensures Sorted(SelectLogs(store, start, end))
    ensures multiset(SelectLogs(store, start, end)) == multiset(InWindowLogs(store, start, end))
    ensures forall l :: l in multiset(SelectLogs(store, start, end)) <==> l in multiset(store) && InWindow(l, start, end)
  {
    var w := InWindowLogs(store, start, end);
    SortCorrect(w);
    InWindowLogsCorrect(store, start, end);
  }

  /** Logs that are already in order are left as they are. */
  lemma {:induction false} SortSortedIdentity(s: seq<LogEvent>)
    requires Sorted(s)
    ensures SortByTimestamp(s) == s
  {
    if |s| > 0 {
      var p := s[..|s| - 1];
      SortSortedIdentity(p);
      assert s == p + [s[|s| - 1]];
    }
  }

  /** A store whose logs all lie in the window is selected whole. */
  lemma {:induction false} InWindowLogsAll(store: seq<LogEvent>, start: int, end: int)
    requires forall i :: 0 <= i < |store| ==> InWindow(store[i], start, end)
    ensures InWindowLogs(store, start, end) == store
  {
    if |store| > 0 {
      var p := store[..|store| - 1];
      var l := store[|store| - 1];
      assert forall i :: 0 <= i < |p| ==> InWindow(p[i], start, end) by {
        assert forall i :: 0 <= i < |p| ==> p[i] == store[i];
      }
      InWindowLogsAll(p, start, end);
      assert InWindow(l, start, end);
      calc {
        InWindowLogs(store, start, end);
        InWindowLogs(p, start, end) + [l];
        p + [l];
        { assert p + [l] == store; }
        store;
      }
    }
  }
}
