/** The debounce coordinator of app/utils/debounce.py: two module globals,
    `latest_log_timestamp` and `debounce_task`, guarded by one lock. Each
    locked region is one atomic step: `handle_debounce` (lines 34-44) and the
    read-and-clear at the top of each iteration of the sweep loop
    (lines 17-20). Sleeping and task scheduling are not modelled; the sweep
    task is a state (absent, running, done) and one iteration of its
    `while True` loop is one tick. */
module Debounce {
  import opened Wrappers
  import opened Logs
  import opened Correlator

  /** `int(nsec * 1e6)` with nsec = 2: the look-back of a sweep, in microseconds. */
  const LOOKBACK := 2_000_000

  /** `debounce_task`: None, a task still running, or a task that is done(). */
  datatype TaskState = NoTask | Running | Finished

  /** The closed window `[start_time, end_time]` a sweep runs detection on. */
  datatype Window = Window(start: int, end: int)

  /** Both globals. */
  datatype State = State(latest: Option<int>, task: TaskState)

  /** The module's initial values (lines 6-7). */
  const Initial := State(None, NoTask)

  /** Lines 39-40: the pending timestamp becomes the larger of itself and `t`. */
  function Raise(latest: Option<int>, t: int): (r: Option<int>)
    ensures r.Some?
    ensures r.value >= t && (latest.Some? ==> r.value >= latest.value)
    ensures r == Some(t) || r == latest
  {
    if latest.None? || t > latest.value then Some(t) else latest
  }

  /** Lines 22-24: a read value that is truthy (present and not 0) gives the
      window `[v - LOOKBACK, v]`; None or 0 gives no work. */
  function SweepWindow(read: Option<int>): (w: Option<Window>)
    ensures w.Some? <==> read.Some? && read.value != 0
    ensures w.Some? ==> w.value.end == read.value && w.value.end - w.value.start == LOOKBACK
  {
    if read.Some? && read.value != 0 then Some(Window(read.value - LOOKBACK, read.value)) else None
  }

  /** handle_debounce(t): raise the pending timestamp, and create the sweep
      task unless one is running. The flag says whether a task was created. */
  function SignalStep(s: State, t: int): (r: (State, bool))
    ensures r.0.latest == Raise(s.latest, t)
    ensures r.0.task == Running
    ensures r.1 <==> s.task != Running
  {
    var latest := Raise(s.latest, t);
    match s.task
    case NoTask => (State(latest, Running), true)
    case Finished => (State(latest, Running), true)
    case Running => (State(latest, s.task), false)
  }

  /** One iteration of the sweep loop: read and clear the pending timestamp
      and decide the window. Detection errors are caught (lines 29-32), so
      the task keeps running. */
  function TickStep(s: State): (r: (State, Option<Window>))
    requires s.task == Running
    ensures Invariant(r.0) && r.0.task == s.task && r.0.latest == None
    ensures r.1.Some? <==> s.latest.Some? && s.latest.value != 0
    ensures r.1.Some? ==> r.1.value == Window(s.latest.value - LOOKBACK, s.latest.value)
  {
    (State(None, s.task), SweepWindow(s.latest))
  }

  /** The states reachable from Initial: a task, once created, never ends,
      and without a task nothing is pending. */
  predicate Invariant(s: State)
  {
    s.task != Finished && (s.task == NoTask ==> s.latest == None)
  }

  /** Something that can happen to the coordinator: a call of
      handle_debounce, or one iteration of the sweep loop (which happens only
      while the task runs). */
  datatype Action = Signal(t: int) | Tick

  function Step(s: State, a: Action): State
  {
    match a
    case Signal(t) => SignalStep(s, t).0
    case Tick => if s.task == Running then TickStep(s).0 else s
  }

  function Run(s: State, trace: seq<Action>): State
  {
    if |trace| == 0 then s else Step(Run(s, trace[..|trace| - 1]), trace[|trace| - 1])
  }

  /** How many sweep tasks `trace` creates, starting from `s`. */
  function Spawns(s: State, trace: seq<Action>): nat
  {
    if |trace| == 0 then 0
    else
      var n := |trace| - 1;
      var before := Run(s, trace[..n]);
      Spawns(s, trace[..n]) + match trace[n]
                              case Signal(t) => if SignalStep(before, t).1 then 1 else 0
                              case Tick => 0
  }

  predicate HasSignal(trace: seq<Action>)
  {
    exists k :: 0 <= k < |trace| && trace[k].Signal?
  }

  /** From the initial state, whatever happens, the invariant holds, the task
      exists exactly when some signal came, and at most one sweep task is
      ever created: signals while it runs never create a second one. */
  lemma {:induction false} SingleSweepTask(trace: seq<Action>)
    ensures Invariant(Run(Initial, trace))
    ensures Run(Initial, trace).task == (if HasSignal(trace) then Running else NoTask)
    ensures Spawns(Initial, trace) == (if HasSignal(trace) then 1 else 0)
  {
    if |trace| > 0 {
      var n := |trace| - 1;
      var p := trace[..n];
      SingleSweepTask(p);
      assert HasSignal(trace) <==> HasSignal(p) || trace[n].Signal? by {
        if HasSignal(p) {
          var k :| 0 <= k < |p| && p[k].Signal?;
          assert trace[k] == p[k];
        }
        if HasSignal(trace) && !trace[n].Signal? {
          var k :| 0 <= k < |trace| && trace[k].Signal?;
          assert p[k] == trace[k];
        }
      }
    }
  }

  /** A call of handle_debounce for each timestamp of `ts`, in order. */
  function Signals(ts: seq<int>): (trace: seq<Action>)
    ensures |trace| == |ts|
    ensures forall k :: 0 <= k < |ts| ==> trace[k] == Signal(ts[k])
  {
    seq(|ts|, k requires 0 <= k < |ts| => Signal(ts[k]))
  }

  function SeqMax(ts: seq<int>): (m: int)
    requires |ts| > 0
    ensures forall k :: 0 <= k < |ts| ==> ts[k] <= m
    ensures exists k :: 0 <= k < |ts| && ts[k] == m
  {
    if |ts| == 1 then ts[0]
    else
      var p := ts[..|ts| - 1];
      assert forall k :: 0 <= k < |p| ==> p[k] == ts[k];
      Max(SeqMax(p), ts[|ts| - 1])
  }

  /** Signals with no tick in between leave the largest timestamp pending
      (or the pending one, if larger), and the task running. */
  lemma {:induction false} SignalsKeepMax(s: State, ts: seq<int>)
    requires |ts| > 0
    ensures Run(s, Signals(ts)).latest == Some(if s.latest.Some? then Max(s.latest.value, SeqMax(ts)) else SeqMax(ts))
    ensures Run(s, Signals(ts)).task == Running
  {
    var n := |ts| - 1;
    var tr := Signals(ts);
    assert tr[..n] == Signals(ts[..n]);
    if n > 0 {
      SignalsKeepMax(s, ts[..n]);
    }
  }

  /** Debounce coalescing: a burst of signals from the initial state creates
      one sweep task, and its next tick sweeps the window that ends at the
      largest signalled timestamp. */
  lemma BurstGivesOneSweep(ts: seq<int>)
    requires |ts| > 0 && SeqMax(ts) != 0
    ensures Spawns(Initial, Signals(ts)) == 1
    ensures TickStep(Run(Initial, Signals(ts))).1 == Some(Window(SeqMax(ts) - LOOKBACK, SeqMax(ts)))
  {
    SignalsKeepMax(Initial, ts);
    SingleSweepTask(Signals(ts));
    assert Signals(ts)[0].Signal?;
  }

  /** The coordinator object: the two globals as fields. */
  class Coordinator {
    var latestLogTimestamp: Option<int>
    var debounceTask: TaskState

    function Current(): State
      reads this
    {
      State(latestLogTimestamp, debounceTask)
    }

    constructor ()
      ensures Current() == Initial
    {
      latestLogTimestamp := None;
      debounceTask := NoTask;
    }

    /** handle_debounce (lines 34-44) as one atomic step; `spawned` says
        whether a sweep task was created. */
    method HandleDebounce(newTimestamp: int) returns (spawned: bool)
      modifies this
      ensures (Current(), spawned) == SignalStep(old(Current()), newTimestamp)
      ensures Invariant(old(Current())) ==> Invariant(Current())
    {
      if latestLogTimestamp.None? || newTimestamp > latestLogTimestamp.value {
        latestLogTimestamp := Some(newTimestamp);
      }
      spawned := false;
      if debounceTask == NoTask || debounceTask == Finished {
        debounceTask := Running;
        spawned := true;
      }
    }

    /** Lines 17-24: read and clear the pending timestamp under the lock and
        return the window to sweep, if any. */
    method Tick() returns (window: Option<Window>)
      requires debounceTask == Running
      modifies this
      ensures (Current(), window) == TickStep(old(Current()))
    {
      var timestampToProcess := latestLogTimestamp;
      latestLogTimestamp := None;
      window := None;
      if timestampToProcess.Some? && timestampToProcess.value != 0 {
        window := Some(Window(timestampToProcess.value - LOOKBACK, timestampToProcess.value));
      }
    }

    /** One whole iteration of the `while True` loop (lines 15-32): tick, and
        if there is a window run detect_gunshots on it over `store`. An
        estimator error is caught at lines 31-32: the iteration ends and the
        task keeps running. `detection` is None when no detection ran. */
    method SweepOnce(store: seq<LogEvent>, estimate: seq<LogEvent> -> Estimate, commitOk: bool)
      returns (window: Option<Window>, detection: Option<Outcome>, persisted: seq<GunshotEvent>)
      requires debounceTask == Running
      modifies this
      ensures (Current(), window) == TickStep(old(Current()))
      ensures debounceTask == Running
      ensures window.None? ==> detection.None? && persisted == []
      ensures window.Some? ==>
                && detection == Some(Detect(store, window.value.start, window.value.end, estimate))
                && persisted == (if detection.value.Completed? && commitOk then detection.value.events else [])
    {
      window := Tick();
      detection := None;
      persisted := [];
      if window.Some? {
        var outcome, committed, broadcast := DetectGunshots(store, window.value.start, window.value.end, estimate, commitOk);
        detection := Some(outcome);
        persisted := committed;
      }
    }
  }
}
