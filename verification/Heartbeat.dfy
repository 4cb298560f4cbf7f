/**
 * The idle timer of the web client: the heartbeat loop, the session timer it starts and stops, and the
 * browser's timer queue behind them, in milliseconds.
 *
 * A run is a sequence of events; callbacks fire exactly when they are due.  Everything the user or the
 * session can notice is written to a log, and the theorems are about every log a run can leave.  What a run
 * must bring about is in HeartbeatHistory.dfy.
 */
module Heartbeat {
  import opened Wrappers

  const PERIOD: nat := 5000
  const WARNING_PERIOD: nat := 30000

  datatype Callback = Loop | Warn | WarnLoop(seconds: nat)

  /** A pending setTimeout. */
  datatype Pending = Pending(due: int, callback: Callback)

  /** What happened, with its time. */
  datatype Entry =
    | Clicked(at: nat) | Idle(at: nat) | Active(at: nat) | Started(at: nat) | Stopped(at: nat)
    | Warned(at: nat) | Cancelled(at: nat) | LoggedOut(at: nat)

  /** The heartbeat's and the timer's fields, the browser's clock and queue, and the log. */
  datatype State = State(
    alive: bool, started: bool, warnTimer: Option<nat>, warnLoopTimer: Option<nat>, warningShowing: bool,
    now: nat, nextId: nat, queue: map<nat, Pending>, loggedOut: bool, log: seq<Entry>)

  // ---------------------------------------------------------------- the code

  function Defer(s: State, delay: nat, callback: Callback): State {
    s.(queue := s.queue[s.nextId := Pending(s.now + delay, callback)], nextId := s.nextId + 1)
  }

  function ClearTimeout(s: State, id: Option<nat>): State {
    if id.Some? then s.(queue := s.queue - {id.value}) else s
  }

  function Log(s: State, e: Entry): State { s.(log := s.log + [e]) }

  /** Timer.start; defer calls at once with no delay at all, and the browser takes a negative delay for none. */
  function Start(timeout: nat, s: State): State {
    var begun := Log(s.(started := true), Started(s.now));
    var delay := timeout * 1000 - (WARNING_PERIOD + PERIOD);
    if delay == 0 then OnWarn(begun).(warnTimer := None)
    else Defer(begun, if delay < 0 then 0 else delay, Warn).(warnTimer := Some(s.nextId))
  }

  function Stop(s: State): State {
    if s.warningShowing then s
    else
      var noWarn := ClearTimeout(s.(started := false), s.warnTimer).(warnTimer := None);
      Log(ClearTimeout(noWarn, noWarn.warnLoopTimer).(warnLoopTimer := None), Stopped(s.now))
  }

  /** EFD.heartbeat.loop. */
  function OnLoop(timeout: nat, s: State): State {
    var seen := Log(s, if s.alive then Active(s.now) else Idle(s.now));
    var timed := if s.alive then (if s.started then Stop(seen) else seen)
                 else if !s.started then Start(timeout, seen) else seen;
    Defer(timed.(alive := false), PERIOD, Loop)
  }

  function OnWarn(s: State): State {
    var shown := Log(s.(warningShowing := true), Warned(s.now));
    Defer(shown, 1000, WarnLoop(WARNING_PERIOD / 1000 - 1)).(warnLoopTimer := Some(s.nextId))
  }

  function OnWarnLoop(s: State, seconds: nat): State {
    if seconds == 0 then Log(s.(loggedOut := true), LoggedOut(s.now))
    else Defer(s, 1000, WarnLoop(seconds - 1)).(warnLoopTimer := Some(s.nextId))
  }

  function OnCancel(s: State): State {
    Stop(Log(s.(warningShowing := false), Cancelled(s.now)))
  }

  /** setAlive(true), on a click or a key. */
  function OnActivity(s: State): State { Log(s.(alive := true), Clicked(s.now)) }

  /** start: the first loop runs at once, with the user alive. */
  function Initial(timeout: nat): State {
    OnLoop(timeout, State(true, false, None, None, false, 0, 0, map[], false, []))
  }

  // ---------------------------------------------------------------- runs

  datatype Event = Elapse(to: nat) | Fire(id: nat) | Activity | Cancel

  /**
   * Time does not pass a due callback; a callback fires when due; Cancel needs the warning; logging out ends the
   * page.
   */
  ghost predicate Enabled(s: State, e: Event) {
    && !s.loggedOut
    && match e
       case Elapse(to) => s.now <= to && forall id: nat :: id in s.queue ==> to <= s.queue[id].due
       case Fire(id) => id in s.queue && s.queue[id].due == s.now
       case Activity => true
       case Cancel => s.warningShowing
  }

  function Step(timeout: nat, s: State, e: Event): State
    requires Enabled(s, e)
  {
    match e
    case Elapse(to) => s.(now := to)
    case Fire(id) =>
      var fired := s.(queue := s.queue - {id});
      (match s.queue[id].callback
       case Loop => OnLoop(timeout, fired)
       case Warn => OnWarn(fired)
       case WarnLoop(seconds) => OnWarnLoop(fired, seconds))
    case Activity => OnActivity(s)
    case Cancel => OnCancel(s)
  }

  ghost predicate Run(timeout: nat, s: State, es: seq<Event>)
    decreases |es|
  {
    es == [] || (Enabled(s, es[0]) && Run(timeout, Step(timeout, s, es[0]), es[1..]))
  }

  ghost function RunTo(timeout: nat, s: State, es: seq<Event>): State
    requires Run(timeout, s, es)
    decreases |es|
  {
    if es == [] then s else RunTo(timeout, Step(timeout, s, es[0]), es[1..])
  }

  // ---------------------------------------------------------------- what a log may say

  /** From the start of the countdown to the warning. */
  function Delay(timeout: nat): nat {
    var delay := timeout * 1000 - (WARNING_PERIOD + PERIOD);
    if delay < 0 then 0 else delay
  }

  /** The last start in the log is its entry m, and since then every tick was idle. */
  ghost predicate IdleSince(log: seq<Entry>, m: nat) {
    m < |log| && log[m].Started? && forall k :: m < k < |log| ==> log[k].Idle? || log[k].Clicked?
  }

  /** The warning at entry m is still up: since then there were only ticks, no cancel and no stop. */
  ghost predicate WarnedSince(log: seq<Entry>, m: nat) {
    && m < |log| && log[m].Warned?
    && forall k :: m < k < |log| ==> log[k].Idle? || log[k].Active? || log[k].Clicked?
  }

  /**
   * Every warning comes Delay after a start with every tick in between idle, and every logout exactly the
   * warning period after a warning that nobody cancelled.
   */
  ghost predicate OnTime(timeout: nat, log: seq<Entry>)
    decreases |log|
  {
    log == [] ||
    var before, e := log[..|log| - 1], log[|log| - 1];
    && OnTime(timeout, before)
    && (e.Warned? ==> exists m: nat :: IdleSince(before, m) && before[m].at + Delay(timeout) == e.at)
    && (e.LoggedOut? ==> exists m: nat :: WarnedSince(before, m) && before[m].at + WARNING_PERIOD == e.at)
  }

  lemma OnTimeAppends(timeout: nat, log: seq<Entry>, e: Entry)
    requires OnTime(timeout, log)
    requires e.Warned? ==> exists m: nat :: IdleSince(log, m) && log[m].at + Delay(timeout) == e.at
    requires e.LoggedOut? ==> exists m: nat :: WarnedSince(log, m) && log[m].at + WARNING_PERIOD == e.at
    ensures OnTime(timeout, log + [e])
  {
    assert (log + [e])[..|log|] == log;
  }

  // ---------------------------------------------------------------- the invariant

  /** A pending callback of the session timer, as opposed to the next tick. */
  predicate IsCountdown(queue: map<nat, Pending>, id: nat) { id in queue && !queue[id].callback.Loop? }

  /** No callback is overdue, ids are fresh, and the timer's fields name no pending id but the countdown's. */
  ghost predicate Orderly(s: State) {
    && (forall id: nat :: id in s.queue ==> id < s.nextId && s.now <= s.queue[id].due)
    && (s.warnTimer.Some? ==> s.warnTimer.value < s.nextId)
    && (s.warnLoopTimer.Some? ==> s.warnLoopTimer.value < s.nextId)
    && (forall id: nat :: id in s.queue && s.queue[id].callback.Loop? ==>
       s.warnTimer != Some(id) && s.warnLoopTimer != Some(id))
  }

  /** The countdown to the warning began at log[m]. */
  ghost predicate Counting(timeout: nat, s: State, m: nat) {
    && IdleSince(s.log, m)
    && s.warnLoopTimer.None? && s.warnTimer.Some? && s.warnTimer.value in s.queue
    && s.queue[s.warnTimer.value] == Pending(s.log[m].at + Delay(timeout), Warn)
    && forall id: nat :: IsCountdown(s.queue, id) ==> id == s.warnTimer.value
  }

  /** The warning of log[m] is up, and its seconds are being counted. */
  ghost predicate Warning(s: State, m: nat) {
    && WarnedSince(s.log, m)
    && s.warnLoopTimer.Some? && s.warnLoopTimer.value in s.queue
    && s.queue[s.warnLoopTimer.value].callback.WarnLoop?
    && s.queue[s.warnLoopTimer.value].due + 1000 * s.queue[s.warnLoopTimer.value].callback.seconds ==
       s.log[m].at + WARNING_PERIOD
    && forall id: nat :: IsCountdown(s.queue, id) ==> id == s.warnLoopTimer.value
  }

  /** The timer is off and nothing of it is pending. */
  ghost predicate Resting(s: State) {
    s.warnLoopTimer.None? && forall id: nat :: !IsCountdown(s.queue, id)
  }

  ghost predicate Inv(timeout: nat, s: State, m: nat) {
    && OnTime(timeout, s.log)
    && (s.loggedOut ==> s.warningShowing && s.started)
    && (!s.loggedOut ==>
         && Orderly(s)
         && (if s.warningShowing then s.started && Warning(s, m)
             else if s.started then Counting(timeout, s, m)
             else Resting(s)))
  }

  // ---------------------------------------------------------------- its preservation

  /** Another tick in the log changes nothing about the countdown. */
  lemma TickKeeps(timeout: nat, s: State, m: nat)
    requires Inv(timeout, s, m) && !s.loggedOut
    ensures Inv(timeout, Log(s, Idle(s.now)), m) && Inv(timeout, Log(s, Clicked(s.now)), m)
    ensures s.warningShowing || !s.started ==> Inv(timeout, Log(s, Active(s.now)), m)
    ensures OnTime(timeout, Log(s, Active(s.now)).log)
  {
    OnTimeAppends(timeout, s.log, Idle(s.now));
    OnTimeAppends(timeout, s.log, Clicked(s.now));
    OnTimeAppends(timeout, s.log, Active(s.now));
  }

  lemma StartCounts(timeout: nat, s: State, m: nat) returns (m': nat)
    requires Inv(timeout, s, m) && !s.loggedOut && !s.started
    ensures Inv(timeout, Start(timeout, s), m')
  {
    OnTimeAppends(timeout, s.log, Started(s.now));
    if timeout * 1000 == WARNING_PERIOD + PERIOD {
      m' := |s.log| + 1;
      StartWarns(timeout, s);
    } else {
      m' := |s.log|;
      StartOrders(timeout, s);
      StartIsOnlyCountdown(timeout, s);
    }
  }

  /** With no delay at all the warning is up at once. */
  lemma {:induction false} StartWarns(timeout: nat, s: State)
    requires OnTime(timeout, s.log + [Started(s.now)]) && Orderly(s) && Resting(s) && !s.loggedOut
    requires timeout * 1000 == WARNING_PERIOD + PERIOD
    ensures Inv(timeout, Start(timeout, s), |s.log| + 1)
  {
    WarnedAtOnce(timeout, s.log, s.now);
    CountsAtOnce(timeout, s);
    assert Start(timeout, s).log == s.log + [Started(s.now)] + [Warned(s.now)];
  }

  lemma {:induction false} WarnedAtOnce(timeout: nat, log: seq<Entry>, now: nat)
    requires OnTime(timeout, log + [Started(now)]) && timeout * 1000 == WARNING_PERIOD + PERIOD
    ensures OnTime(timeout, log + [Started(now)] + [Warned(now)])
    ensures WarnedSince(log + [Started(now)] + [Warned(now)], |log| + 1)
  {
    var started := log + [Started(now)];
    assert IdleSince(started, |log|) && started[|log|].at + Delay(timeout) == now;
    OnTimeAppends(timeout, started, Warned(now));
  }

  lemma {:induction false} CountsAtOnce(timeout: nat, s: State)
    requires Orderly(s) && Resting(s) && timeout * 1000 == WARNING_PERIOD + PERIOD
    ensures var t := Start(timeout, s);
            && Orderly(t) && t.started && t.warningShowing && t.loggedOut == s.loggedOut
            && t.warnLoopTimer == Some(s.nextId) && s.nextId in t.queue
            && t.queue[s.nextId] == Pending(s.now + 1000, WarnLoop(WARNING_PERIOD / 1000 - 1))
            && forall id: nat :: IsCountdown(t.queue, id) ==> id == s.nextId
  {
    var t := Start(timeout, s);
    forall id: nat ensures IsCountdown(t.queue, id) <==> id == s.nextId {
      assert !IsCountdown(s.queue, id);
    }
  }

  lemma {:induction false} StartOrders(timeout: nat, s: State)
    requires Orderly(s) && timeout * 1000 != WARNING_PERIOD + PERIOD
    ensures Orderly(Start(timeout, s))
  {
  }

  lemma {:induction false} StartIsOnlyCountdown(timeout: nat, s: State)
    requires Orderly(s) && Resting(s) && timeout * 1000 != WARNING_PERIOD + PERIOD
    ensures Counting(timeout, Start(timeout, s), |s.log|)
  {
    var t := Start(timeout, s);
    forall id: nat ensures IsCountdown(t.queue, id) <==> id == s.nextId {
      assert !IsCountdown(s.queue, id);
    }
  }

  /** Stopping a timer whose warning is down leaves nothing of it pending. */
  lemma StopRests(timeout: nat, s: State)
    requires OnTime(timeout, s.log) && Orderly(s) && !s.loggedOut && !s.warningShowing
    requires forall id: nat :: IsCountdown(s.queue, id) ==> s.warnTimer == Some(id) || s.warnLoopTimer == Some(id)
    ensures Inv(timeout, Stop(s), 0) && !Stop(s).started
  {
    OnTimeAppends(timeout, s.log, Stopped(s.now));
    var t := Stop(s);
    forall id: nat ensures !IsCountdown(t.queue, id) {
      if IsCountdown(t.queue, id) {
        assert IsCountdown(s.queue, id);
      }
    }
  }

  /** Scheduling the next tick adds no countdown. */
  lemma LoopScheduled(timeout: nat, s: State, m: nat)
    requires Inv(timeout, s, m) && !s.loggedOut
    ensures Inv(timeout, Defer(s.(alive := false), PERIOD, Loop), m)
  {
    var t := Defer(s.(alive := false), PERIOD, Loop);
    forall id: nat ensures IsCountdown(t.queue, id) <==> IsCountdown(s.queue, id) {
    }
  }

  lemma LoopKeepsInv(timeout: nat, s: State, m: nat) returns (m': nat)
    requires Inv(timeout, s, m) && !s.loggedOut
    ensures Inv(timeout, OnLoop(timeout, s), m')
  {
    TickKeeps(timeout, s, m);
    var seen := Log(s, if s.alive then Active(s.now) else Idle(s.now));
    m' := m;
    if s.alive {
      if s.started && !s.warningShowing {
        StopRests(timeout, seen);
        m' := 0;
        LoopScheduled(timeout, Stop(seen), 0);
      } else {
        LoopScheduled(timeout, seen, m);
      }
    } else if !s.started {
      m' := StartCounts(timeout, seen, m);
      LoopScheduled(timeout, Start(timeout, seen), m');
    } else {
      LoopScheduled(timeout, seen, m);
    }
  }

  lemma {:induction false} WarnKeepsInv(timeout: nat, s: State, id: nat, m: nat)
    requires Inv(timeout, s, m) && Enabled(s, Fire(id)) && s.queue[id].callback.Warn?
    ensures Inv(timeout, Step(timeout, s, Fire(id)), |s.log|)
  {
    assert IsCountdown(s.queue, id);
    OnTimeAppends(timeout, s.log, Warned(s.now));
    var fired := s.(queue := s.queue - {id});
    var t := OnWarn(fired);
    forall i: nat ensures IsCountdown(t.queue, i) <==> i == s.nextId {
      assert i in fired.queue ==> i in s.queue;
      if i in fired.queue && !fired.queue[i].callback.Loop? { assert IsCountdown(s.queue, i); }
    }
  }

  lemma {:induction false} WarnLoopKeepsInv(timeout: nat, s: State, id: nat, m: nat)
    requires Inv(timeout, s, m) && Enabled(s, Fire(id)) && s.queue[id].callback.WarnLoop?
    ensures Inv(timeout, Step(timeout, s, Fire(id)), m)
  {
    assert IsCountdown(s.queue, id);
    var seconds, fired := s.queue[id].callback.seconds, s.(queue := s.queue - {id});
    if seconds == 0 {
      OnTimeAppends(timeout, s.log, LoggedOut(s.now));
    } else {
      var t := OnWarnLoop(fired, seconds);
      forall i: nat ensures IsCountdown(t.queue, i) <==> i == s.nextId {
        if i in fired.queue && !fired.queue[i].callback.Loop? { assert IsCountdown(s.queue, i); }
      }
    }
  }

  lemma {:induction false} FireKeepsInv(timeout: nat, s: State, id: nat, m: nat) returns (m': nat)
    requires Inv(timeout, s, m) && Enabled(s, Fire(id))
    ensures Inv(timeout, Step(timeout, s, Fire(id)), m')
  {
    match s.queue[id].callback
    case Loop =>
      var fired := s.(queue := s.queue - {id});
      assert forall i: nat :: IsCountdown(fired.queue, i) <==> IsCountdown(s.queue, i);
      m' := LoopKeepsInv(timeout, fired, m);
    case Warn =>
      m' := |s.log|;
      WarnKeepsInv(timeout, s, id, m);
    case WarnLoop(seconds) =>
      m' := m;
      WarnLoopKeepsInv(timeout, s, id, m);
  }

  lemma {:induction false} StepKeepsInv(timeout: nat, s: State, e: Event, m: nat) returns (m': nat)
    requires Inv(timeout, s, m) && Enabled(s, e)
    ensures Inv(timeout, Step(timeout, s, e), m')
  {
    m' := m;
    match e
    case Elapse(to) =>
    case Fire(id) => m' := FireKeepsInv(timeout, s, id, m);
    case Activity => TickKeeps(timeout, s, m);
    case Cancel =>
      OnTimeAppends(timeout, s.log, Cancelled(s.now));
      var down := Log(s.(warningShowing := false), Cancelled(s.now));
      StopRests(timeout, down);
      m' := 0;
  }

  lemma InitialInv(timeout: nat) returns (m: nat)
    ensures Inv(timeout, Initial(timeout), m)
  {
    m := LoopKeepsInv(timeout, State(true, false, None, None, false, 0, 0, map[], false, []), 0);
  }

  lemma {:induction false} RunKeepsInv(timeout: nat, s: State, es: seq<Event>, m: nat) returns (m': nat)
    requires Inv(timeout, s, m) && Run(timeout, s, es)
    ensures Inv(timeout, RunTo(timeout, s, es), m')
    decreases |es|
  {
    m' := m;
    if es != [] {
      m' := StepKeepsInv(timeout, s, es[0], m);
      m' := RunKeepsInv(timeout, Step(timeout, s, es[0]), es[1..], m');
    }
  }

  // ---------------------------------------------------------------- theorems

  /** In every run: one countdown at most, none while the timer is stopped, and a log that is on time. */
  lemma RunsAreOrderly(timeout: nat, es: seq<Event>)
    requires Run(timeout, Initial(timeout), es)
    ensures var s := RunTo(timeout, Initial(timeout), es);
            && OnTime(timeout, s.log)
            && (!s.loggedOut ==>
                 && (forall i: nat, j: nat :: IsCountdown(s.queue, i) && IsCountdown(s.queue, j) ==> i == j)
                 && (!s.started ==> forall i: nat :: !IsCountdown(s.queue, i)))
  {
    var m := InitialInv(timeout);
    var m' := RunKeepsInv(timeout, Initial(timeout), es, m);
  }

  ghost predicate NoCancel(es: seq<Event>) { forall i :: 0 <= i < |es| ==> !es[i].Cancel? }

  /**
   * Without a cancel a warning cannot go away, whatever the activity: it stays up, its second counter never
   * lets time pass the warning period, and the logout comes exactly then.
   */
  lemma {:induction false} OnlyCancelStopsWarning(timeout: nat, s: State, es: seq<Event>, m: nat)
    requires Inv(timeout, s, m) && !s.loggedOut && s.warningShowing
    requires Run(timeout, s, es) && NoCancel(es)
    ensures var end := RunTo(timeout, s, es);
            && end.warningShowing
            && end.now <= s.log[m].at + WARNING_PERIOD
            && (end.loggedOut ==>
               end.log != [] && end.log[|end.log| - 1] == LoggedOut(end.now) && end.now == s.log[m].at + WARNING_PERIOD)
    decreases |es|
  {
    if es != [] {
      var next := Step(timeout, s, es[0]);
      if next.loggedOut {
        assert es[0].Fire? && IsCountdown(s.queue, es[0].id);
        assert RunTo(timeout, s, es) == RunTo(timeout, next, es[1..]);
        EndOfRun(timeout, next, es[1..]);
      } else {
        WarningStays(timeout, s, es[0], m);
        OnlyCancelStopsWarning(timeout, next, es[1..], m);
      }
    }
  }

  lemma EndOfRun(timeout: nat, s: State, es: seq<Event>)
    requires s.loggedOut && Run(timeout, s, es)
    ensures es == []
  {
  }

  lemma WarningStays(timeout: nat, s: State, e: Event, m: nat)
    requires Inv(timeout, s, m) && s.warningShowing && Enabled(s, e) && !e.Cancel?
    requires !Step(timeout, s, e).loggedOut
    ensures Step(timeout, s, e).warningShowing && Inv(timeout, Step(timeout, s, e), m)
    ensures Step(timeout, s, e).log[m] == s.log[m]
  {
    match e
    case Fire(id) =>
      var fired := s.(queue := s.queue - {id});
      if s.queue[id].callback.Loop? {
        assert forall i: nat :: IsCountdown(fired.queue, i) <==> IsCountdown(s.queue, i);
        TickKeeps(timeout, fired, m);
        LoopScheduled(timeout, Log(fired, if s.alive then Active(s.now) else Idle(s.now)), m);
      } else {
        assert IsCountdown(s.queue, id);
        var t := Step(timeout, s, e);
        forall i: nat ensures IsCountdown(t.queue, i) <==> i == s.nextId {
          if i in fired.queue && !fired.queue[i].callback.Loop? { assert IsCountdown(s.queue, i); }
        }
      }
    case Elapse(to) =>
    case Activity => TickKeeps(timeout, s, m);
  }

  // ---------------------------------------------------------------- the objects

  /** EFD.heartbeat and its Timer, with the browser's clock and timers. */
  class Session {
    const sessionTimeout: nat
    var alive: bool
    var started: bool
    var warnTimer: Option<nat>
    var warnLoopTimer: Option<nat>
    var warningShowing: bool
    var now: nat
    var nextId: nat
    var queue: map<nat, Pending>
    var loggedOut: bool
    var log: seq<Entry>

    function View(): State
      reads this
    {
      State(alive, started, warnTimer, warnLoopTimer, warningShowing, now, nextId, queue, loggedOut, log)
    }

    constructor (sessionTimeout: nat)
      ensures this.sessionTimeout == sessionTimeout && View() == Initial(sessionTimeout)
    {
      this.sessionTimeout := sessionTimeout;
      alive, started, warningShowing, loggedOut := true, false, false, false;
      warnTimer, warnLoopTimer := None, None;
      now, nextId, queue, log := 0, 0, map[], [];
      new;
      HeartbeatLoop();
    }

    method SetTimeout(callback: Callback, delay: nat) returns (id: nat)
      modifies this`queue, this`nextId
      ensures id == old(nextId) && View() == Defer(old(View()), delay, callback)
    {
      id := nextId;
      queue, nextId := queue[nextId := Pending(now + delay, callback)], nextId + 1;
    }

    method StartTimer(offset: nat)
      requires offset == PERIOD
      modifies this
      ensures View() == Start(sessionTimeout, old(View()))
    {
      started := true;
      log := log + [Started(now)];
      var warnTime := sessionTimeout * 1000 - (WARNING_PERIOD + offset);
      if warnTime == 0 {
        ShowWarning();
        warnTimer := None;
      } else {
        var id := SetTimeout(Warn, if warnTime < 0 then 0 else warnTime);
        warnTimer := Some(id);
      }
    }

    method StopTimer()
      modifies this
      ensures View() == Stop(old(View()))
    {
      if warningShowing {
        return;
      }
      started := false;
      if warnTimer.Some? {
        queue := queue - {warnTimer.value};
        warnTimer := None;
      }
      if warnLoopTimer.Some? {
        queue := queue - {warnLoopTimer.value};
        warnLoopTimer := None;
      }
      log := log + [Stopped(now)];
    }

    method HeartbeatLoop()
      modifies this
      ensures View() == OnLoop(sessionTimeout, old(View()))
    {
      log := log + [if alive then Active(now) else Idle(now)];
      if alive {
        if started {
          StopTimer();
        }
      } else {
        if !started {
          StartTimer(PERIOD);
        }
      }
      alive := false;
      var id := SetTimeout(Loop, PERIOD);
    }

    /** setAlive(true). */
    method NoticeActivity()
      modifies this
      ensures View() == OnActivity(old(View()))
    {
      alive := true;
      log := log + [Clicked(now)];
    }

    method ShowWarning()
      modifies this
      ensures View() == OnWarn(old(View()))
    {
      var seconds := WARNING_PERIOD / 1000;
      warningShowing := true;
      log := log + [Warned(now)];
      var id := SetTimeout(WarnLoop(seconds - 1), 1000);
      warnLoopTimer := Some(id);
    }

    method CountDown(seconds: nat)
      modifies this
      ensures View() == OnWarnLoop(old(View()), seconds)
    {
      if seconds == 0 {
        loggedOut := true;
        log := log + [LoggedOut(now)];
        return;
      }
      var id := SetTimeout(WarnLoop(seconds - 1), 1000);
      warnLoopTimer := Some(id);
    }

    method CancelWarning()
      modifies this
      ensures View() == OnCancel(old(View()))
    {
      warningShowing := false;
      log := log + [Cancelled(now)];
      StopTimer();
    }
  }
}
