/**
 * What the runs of the heartbeat must bring about: ticks every five seconds that tell whether the user was there,
 * and a warning and a logout for a user who is not.
 */
module HeartbeatHistory {
  import opened Wrappers
  import opened Heartbeat
  import opened Sets

  // ---------------------------------------------------------------- ticks

  predicate IsTick(e: Entry) { e.Idle? || e.Active? }

  function TickCount(log: seq<Entry>): nat
    decreases |log|
  {
    if log == [] then 0
    else TickCount(log[..|log| - 1]) + if IsTick(log[|log| - 1]) then 1 else 0
  }

  /** No tick yet, or a click since the last one. */
  predicate Touched(log: seq<Entry>)
    decreases |log|
  {
    if log == [] then true
    else
      var before, e := log[..|log| - 1], log[|log| - 1];
      if e.Clicked? then true else if IsTick(e) then false else Touched(before)
  }

  /** There is a click in the log and no tick behind it. */
  ghost predicate ClickedLast(log: seq<Entry>) {
    exists j :: 0 <= j < |log| && log[j].Clicked? && forall k :: j < k < |log| ==> !IsTick(log[k])
  }

  lemma {:induction false} ClickedLastNext(log: seq<Entry>)
    requires log != []
    ensures var e := log[|log| - 1];
            ClickedLast(log) <==> e.Clicked? || (!IsTick(e) && ClickedLast(log[..|log| - 1]))
  {
    var n := |log| - 1;
    if ClickedLast(log) {
      var j :| 0 <= j < |log| && log[j].Clicked? && forall k :: j < k < |log| ==> !IsTick(log[k]);
      if j < n {
        assert log[..n][j].Clicked? && forall k :: j < k < n ==> !IsTick(log[..n][k]);
      }
    }
    if !IsTick(log[n]) && ClickedLast(log[..n]) {
      var j :| 0 <= j < n && log[..n][j].Clicked? && forall k :: j < k < n ==> !IsTick(log[..n][k]);
      assert forall k :: j < k < n ==> log[..n][k] == log[k];
      assert log[j].Clicked? && forall k :: j < k < |log| ==> !IsTick(log[k]);
    }
  }

  lemma {:induction false} TouchedIff(log: seq<Entry>)
    ensures Touched(log) <==> TickCount(log) == 0 || ClickedLast(log)
    decreases |log|
  {
    if log != [] {
      TouchedIff(log[..|log| - 1]);
      ClickedLastNext(log);
    }
  }

  /** Every tick comes five seconds after the one before, and is active exactly if the user was. */
  ghost predicate TicksTell(log: seq<Entry>)
    decreases |log|
  {
    log == [] ||
    var before, e := log[..|log| - 1], log[|log| - 1];
    && TicksTell(before)
    && (IsTick(e) ==> (e.Active? <==> Touched(before)) && e.at == PERIOD * TickCount(before))
  }

  /** What the log says of its entry k. */
  lemma {:induction false} TickTells(log: seq<Entry>, k: nat)
    requires TicksTell(log) && k < |log| && IsTick(log[k])
    ensures log[k].Active? <==> TickCount(log[..k]) == 0 || ClickedLast(log[..k])
    ensures log[k].at == 5000 * TickCount(log[..k])
    decreases |log|
  {
    var n := |log| - 1;
    if k < n {
      TickTells(log[..n], k);
      assert log[..n][..k] == log[..k];
    } else {
      TouchedIff(log[..k]);
    }
  }

  lemma {:induction false} Appended(log: seq<Entry>, e: Entry)
    ensures TickCount(log + [e]) == TickCount(log) + if IsTick(e) then 1 else 0
    ensures Touched(log + [e]) <==> e.Clicked? || (!IsTick(e) && Touched(log))
    ensures TicksTell(log + [e]) <==>
            TicksTell(log) && (IsTick(e) ==> (e.Active? <==> Touched(log)) && e.at == PERIOD * TickCount(log))
  {
    assert (log + [e])[..|log|] == log;
  }

  /** The field alive says what the log does, and the next tick is the one thing of its kind that is pending. */
  ghost predicate Ticking(s: State, id: nat) {
    && (s.alive <==> Touched(s.log)) && TicksTell(s.log)
    && (!s.loggedOut ==>
         && id in s.queue && s.queue[id] == Pending(PERIOD * TickCount(s.log), Loop)
         && forall other: nat :: other in s.queue && s.queue[other].callback.Loop? ==> other == id)
  }

  /** A tick that is due. */
  ghost predicate AtTick(s: State) {
    && (s.alive <==> Touched(s.log)) && TicksTell(s.log) && s.now == PERIOD * TickCount(s.log) && !s.loggedOut
    && forall id: nat :: id in s.queue ==> id < s.nextId && !s.queue[id].callback.Loop?
  }

  /** What a tick has logged, and has not yet done about the next one. */
  ghost predicate Seen(s: State, n: nat) {
    && TickCount(s.log) == n + 1 && !Touched(s.log) && TicksTell(s.log) && s.now == PERIOD * n && !s.loggedOut
    && forall id: nat :: id in s.queue ==> id < s.nextId && !s.queue[id].callback.Loop?
  }

  lemma {:induction false} TickIsSeen(s: State)
    requires AtTick(s)
    ensures Seen(Log(s, if s.alive then Active(s.now) else Idle(s.now)), TickCount(s.log))
  {
    Appended(s.log, if s.alive then Active(s.now) else Idle(s.now));
  }

  lemma {:induction false} StopKeepsSeen(s: State, n: nat)
    requires Seen(s, n)
    ensures Seen(Stop(s), n)
  {
    Appended(s.log, Stopped(s.now));
  }

  lemma {:induction false} StartKeepsSeen(timeout: nat, s: State, n: nat)
    requires Seen(s, n)
    ensures Seen(Start(timeout, s), n)
  {
    Appended(s.log, Started(s.now));
    Appended(s.log + [Started(s.now)], Warned(s.now));
  }

  lemma {:induction false} SeenIsTicking(s: State, n: nat)
    requires Seen(s, n)
    ensures Ticking(Defer(s.(alive := false), PERIOD, Loop), s.nextId)
  {
  }

  lemma {:induction false} LoopTicks(timeout: nat, s: State)
    requires AtTick(s)
    ensures Ticking(OnLoop(timeout, s), OnLoop(timeout, s).nextId - 1)
  {
    var n := TickCount(s.log);
    var seen := Log(s, if s.alive then Active(s.now) else Idle(s.now));
    TickIsSeen(s);
    StopKeepsSeen(seen, n);
    StartKeepsSeen(timeout, seen, n);
    var timed := if s.alive then (if s.started then Stop(seen) else seen)
                 else if !s.started then Start(timeout, seen) else seen;
    SeenIsTicking(timed, n);
  }

  lemma {:induction false} TickKeepsTicking(timeout: nat, s: State, id: nat, fired: nat)
    requires Ticking(s, id) && Enabled(s, Fire(fired)) && s.queue[fired].callback.Loop?
    requires forall other: nat :: other in s.queue ==> other < s.nextId
    ensures Ticking(Step(timeout, s, Fire(fired)), Step(timeout, s, Fire(fired)).nextId - 1)
  {
    LoopTicks(timeout, s.(queue := s.queue - {fired}));
  }

  lemma {:induction false} LogKeepsTicking(s: State, id: nat, e: Entry)
    requires Ticking(s, id) && !IsTick(e) && !e.Clicked?
    ensures Ticking(Log(s, e), id)
  {
    Appended(s.log, e);
  }

  lemma {:induction false} DeferKeepsTicking(s: State, id: nat, delay: nat, callback: Callback)
    requires Ticking(s, id) && !callback.Loop? && s.nextId !in s.queue && !s.loggedOut
    ensures Ticking(Defer(s, delay, callback), id)
  {
  }

  lemma {:induction false} WarnKeepsTicking(s: State, id: nat)
    requires Ticking(s, id) && s.nextId !in s.queue && !s.loggedOut
    ensures Ticking(OnWarn(s), id)
  {
    var shown := s.(warningShowing := true);
    LogKeepsTicking(shown, id, Warned(s.now));
    DeferKeepsTicking(Log(shown, Warned(s.now)), id, 1000, WarnLoop(WARNING_PERIOD / 1000 - 1));
  }

  lemma {:induction false} WarnLoopKeepsTicking(s: State, id: nat, seconds: nat)
    requires Ticking(s, id) && s.nextId !in s.queue && !s.loggedOut
    ensures Ticking(OnWarnLoop(s, seconds), id)
  {
    if seconds == 0 {
      LogKeepsTicking(s.(loggedOut := true), id, LoggedOut(s.now));
    } else {
      DeferKeepsTicking(s, id, 1000, WarnLoop(seconds - 1));
    }
  }

  lemma {:induction false} FiredKeepsTicking(s: State, id: nat, fired: nat)
    requires Ticking(s, id) && fired in s.queue && !s.queue[fired].callback.Loop? && !s.loggedOut
    ensures Ticking(s.(queue := s.queue - {fired}), id)
  {
  }

  lemma {:induction false} CountdownKeepsTicking(timeout: nat, s: State, id: nat, fired: nat)
    requires Ticking(s, id) && Enabled(s, Fire(fired)) && !s.queue[fired].callback.Loop?
    requires s.nextId !in s.queue
    ensures Ticking(Step(timeout, s, Fire(fired)), id)
  {
    var left := s.(queue := s.queue - {fired});
    FiredKeepsTicking(s, id, fired);
    if s.queue[fired].callback.Warn? {
      WarnKeepsTicking(left, id);
      assert Step(timeout, s, Fire(fired)) == OnWarn(left);
    } else {
      WarnLoopKeepsTicking(left, id, s.queue[fired].callback.seconds);
      assert Step(timeout, s, Fire(fired)) == OnWarnLoop(left, s.queue[fired].callback.seconds);
    }
  }

  /** Stopping the timer leaves the next tick alone. */
  lemma {:induction false} StopKeepsTicking(s: State, id: nat)
    requires Ticking(s, id) && !s.loggedOut && s.warnTimer != Some(id) && s.warnLoopTimer != Some(id)
    ensures Ticking(Stop(s), id)
  {
    Appended(s.log, Stopped(s.now));
  }

  lemma {:induction false} CancelKeepsTicking(timeout: nat, s: State, id: nat)
    requires Ticking(s, id) && Enabled(s, Cancel) && s.warnTimer != Some(id) && s.warnLoopTimer != Some(id)
    ensures Ticking(Step(timeout, s, Cancel), id)
  {
    Appended(s.log, Cancelled(s.now));
    StopKeepsTicking(Log(s.(warningShowing := false), Cancelled(s.now)), id);
  }

  lemma {:induction false} StepKeepsTicking(timeout: nat, s: State, e: Event, id: nat) returns (id': nat)
    requires (s.loggedOut || Orderly(s)) && Ticking(s, id) && Enabled(s, e)
    ensures Ticking(Step(timeout, s, e), id')
  {
    id' := id;
    match e
    case Elapse(to) =>
    case Activity => Appended(s.log, Clicked(s.now));
    case Cancel => CancelKeepsTicking(timeout, s, id);
    case Fire(fired) =>
      if s.queue[fired].callback.Loop? {
        TickKeepsTicking(timeout, s, id, fired);
        id' := Step(timeout, s, e).nextId - 1;
      } else {
        CountdownKeepsTicking(timeout, s, id, fired);
      }
  }

  lemma {:induction false} RunKeepsTicking(timeout: nat, s: State, es: seq<Event>, m: nat, id: nat)
      returns (m': nat, id': nat)
    requires Inv(timeout, s, m) && Ticking(s, id) && Run(timeout, s, es)
    ensures Inv(timeout, RunTo(timeout, s, es), m') && Ticking(RunTo(timeout, s, es), id')
    decreases |es|
  {
    m', id' := m, id;
    if es != [] {
      m' := StepKeepsInv(timeout, s, es[0], m);
      id' := StepKeepsTicking(timeout, s, es[0], id);
      m', id' := RunKeepsTicking(timeout, Step(timeout, s, es[0]), es[1..], m', id');
    }
  }

  lemma {:induction false} InitialTicks(timeout: nat) returns (id: nat)
    ensures Ticking(Initial(timeout), id)
  {
    var start := State(true, false, None, None, false, 0, 0, map[], false, []);
    LoopTicks(timeout, start);
    id := OnLoop(timeout, start).nextId - 1;
  }

  /**
   * In every run a tick comes every five seconds from the start on, and it is an active one exactly if it is the
   * first or the user has clicked since the one before.
   */
  lemma TicksFollowUser(timeout: nat, es: seq<Event>, k: nat)
    requires Run(timeout, Initial(timeout), es)
    requires k < |RunTo(timeout, Initial(timeout), es).log| && IsTick(RunTo(timeout, Initial(timeout), es).log[k])
    ensures var log := RunTo(timeout, Initial(timeout), es).log;
            && (log[k].Active? <==> TickCount(log[..k]) == 0 || ClickedLast(log[..k]))
            && log[k].at == 5000 * TickCount(log[..k])
  {
    var m := InitialInv(timeout);
    var id := InitialTicks(timeout);
    m, id := RunKeepsTicking(timeout, Initial(timeout), es, m, id);
    TickTells(RunTo(timeout, Initial(timeout), es).log, k);
  }

  /** The entries added are no clicks. */
  ghost predicate AddsNoClick(before: seq<Entry>, after: seq<Entry>) {
    before <= after && forall k :: |before| <= k < |after| ==> !after[k].Clicked?
  }

  lemma {:induction false} LoopAddsNoClick(timeout: nat, s: State)
    ensures AddsNoClick(s.log, OnLoop(timeout, s).log)
  {
    var tick := if s.alive then Active(s.now) else Idle(s.now);
    assert OnLoop(timeout, s).log == s.log + [tick] || OnLoop(timeout, s).log == s.log + [tick] + [Stopped(s.now)]
           || OnLoop(timeout, s).log == s.log + [tick] + [Started(s.now)]
           || OnLoop(timeout, s).log == s.log + [tick] + [Started(s.now)] + [Warned(s.now)];
  }

  /** Every click is in the log: activity logs one, and nothing else does. */
  lemma {:induction false} ClicksAreLogged(timeout: nat, s: State, e: Event)
    requires Enabled(s, e)
    ensures if e.Activity? then Step(timeout, s, e).log == s.log + [Clicked(s.now)]
            else AddsNoClick(s.log, Step(timeout, s, e).log)
  {
    match e
    case Fire(id) =>
      if s.queue[id].callback.Loop? {
        LoopAddsNoClick(timeout, s.(queue := s.queue - {id}));
      }
    case _ =>
  }

  /** As long as nobody is logged out something can happen: a callback is due, or time can go on. */
  lemma NeverStuck(timeout: nat, es: seq<Event>) returns (e: Event)
    requires Run(timeout, Initial(timeout), es) && !RunTo(timeout, Initial(timeout), es).loggedOut
    ensures var s := RunTo(timeout, Initial(timeout), es);
            Enabled(s, e) && (e.Fire? || (e.Elapse? && e.to > s.now))
  {
    var m := InitialInv(timeout);
    var id := InitialTicks(timeout);
    m, id := RunKeepsTicking(timeout, Initial(timeout), es, m, id);
    var s := RunTo(timeout, Initial(timeout), es);
    var dues := set i | i in s.queue :: s.queue[i].due;
    assert s.queue[id].due in dues;
    HasLeast(dues);
    var least :| least in dues && forall x :: x in dues ==> least <= x;
    var i :| i in s.queue && s.queue[i].due == least;
    assert s.now <= least;
    forall other: nat | other in s.queue ensures least <= s.queue[other].due {
      assert s.queue[other].due in dues;
    }
    e := if least == s.now then Fire(i) else Elapse(least);
  }

  // ---------------------------------------------------------------- warnings and logouts

  /** What a log that is on time says of its entry k. */
  lemma {:induction false} OnTimeAt(timeout: nat, log: seq<Entry>, k: nat)
    requires OnTime(timeout, log) && k < |log|
    ensures OnTime(timeout, log[..k + 1])
    decreases |log|
  {
    if k + 1 < |log| {
      OnTimeAt(timeout, log[..|log| - 1], k);
      assert log[..|log| - 1][..k + 1] == log[..k + 1];
    } else {
      assert log[..k + 1] == log;
    }
  }

  /**
   * In every run a warning comes exactly 35 seconds before the timeout after a start, or at once with it, and every
   * tick in between is idle.
   */
  lemma {:induction false} EveryWarningIsDue(timeout: nat, es: seq<Event>, k: nat) returns (m: nat)
    requires Run(timeout, Initial(timeout), es)
    requires k < |RunTo(timeout, Initial(timeout), es).log| && RunTo(timeout, Initial(timeout), es).log[k].Warned?
    ensures var log := RunTo(timeout, Initial(timeout), es).log;
            && m < k && log[m].Started? && (forall j :: m < j < k ==> log[j].Idle? || log[j].Clicked?)
            && log[k].at == log[m].at + if timeout < 35 then 0 else timeout * 1000 - 35000
  {
    RunsAreOrderly(timeout, es);
    var log := RunTo(timeout, Initial(timeout), es).log;
    OnTimeAt(timeout, log, k);
    assert log[..k + 1][..k] == log[..k];
    m :| IdleSince(log[..k], m) && log[..k][m].at + Delay(timeout) == log[k].at;
    assert forall j :: m < j < k ==> log[..k][j] == log[j];
  }

  /** In every run a logout comes exactly 30 seconds after a warning, with nothing but ticks and clicks in between. */
  lemma {:induction false} EveryLogoutIsDue(timeout: nat, es: seq<Event>, k: nat) returns (m: nat)
    requires Run(timeout, Initial(timeout), es)
    requires k < |RunTo(timeout, Initial(timeout), es).log| && RunTo(timeout, Initial(timeout), es).log[k].LoggedOut?
    ensures var log := RunTo(timeout, Initial(timeout), es).log;
            && m < k && log[m].Warned? && (forall j :: m < j < k ==> IsTick(log[j]) || log[j].Clicked?)
            && log[k].at == log[m].at + 30000
  {
    RunsAreOrderly(timeout, es);
    var log := RunTo(timeout, Initial(timeout), es).log;
    OnTimeAt(timeout, log, k);
    assert log[..k + 1][..k] == log[..k];
    m :| WarnedSince(log[..k], m) && log[..k][m].at + WARNING_PERIOD == log[k].at;
    assert forall j :: m < j < k ==> log[..k][j] == log[j];
  }

  // ---------------------------------------------------------------- a user who is not there

  function WarnAt(timeout: nat): nat { PERIOD + Delay(timeout) }

  function LogoutAt(timeout: nat): nat { WarnAt(timeout) + WARNING_PERIOD }

  /** Where an idle run stands: before its second tick, counting from there, warning, or logged out. */
  ghost predicate Unattended(timeout: nat, s: State) {
    && !s.alive
    && (if s.loggedOut then s.now == LogoutAt(timeout) && Warned(WarnAt(timeout)) in s.log && LoggedOut(s.now) in s.log
        else if s.warningShowing then Warned(WarnAt(timeout)) in s.log && Dooms(s, LogoutAt(timeout))
        else if s.started then
          s.warnTimer.Some? && s.warnTimer.value in s.queue
              && s.queue[s.warnTimer.value] == Pending(WarnAt(timeout), Warn)
        else s.queue != map[] && forall id: nat :: id in s.queue ==> s.queue[id] == Pending(PERIOD, Loop))
  }

  /** The seconds are being counted down to that time. */
  ghost predicate Dooms(s: State, at: int) {
    && s.warnLoopTimer.Some? && s.warnLoopTimer.value in s.queue
    && s.queue[s.warnLoopTimer.value].callback.WarnLoop?
    && s.queue[s.warnLoopTimer.value].due + 1000 * s.queue[s.warnLoopTimer.value].callback.seconds == at
  }

  lemma {:induction false} FirstIdleTick(timeout: nat, s: State, id: nat)
    requires Unattended(timeout, s) && !s.loggedOut && !s.warningShowing && !s.started && Enabled(s, Fire(id))
    requires forall other: nat :: other in s.queue ==> other < s.nextId
    ensures Unattended(timeout, Step(timeout, s, Fire(id)))
  {
    var t := Step(timeout, s, Fire(id));
    assert s.now == PERIOD && s.queue[id].callback.Loop?;
    if timeout * 1000 == WARNING_PERIOD + PERIOD {
      assert t.log == s.log + [Idle(s.now)] + [Started(s.now)] + [Warned(s.now)];
      assert Warned(s.now) in t.log;
    }
  }

  lemma {:induction false} LaterIdleTick(timeout: nat, s: State, id: nat)
    requires Unattended(timeout, s) && !s.loggedOut && s.started && Enabled(s, Fire(id)) && Orderly(s)
    requires s.queue[id].callback.Loop?
    ensures Unattended(timeout, Step(timeout, s, Fire(id)))
  {
    var t := Step(timeout, s, Fire(id));
    assert t.log == s.log + [Idle(s.now)];
  }

  lemma {:induction false} UnattendedWarns(timeout: nat, s: State, id: nat, m: nat)
    requires Inv(timeout, s, m) && Unattended(timeout, s) && Enabled(s, Fire(id)) && s.queue[id].callback.Warn?
    ensures Unattended(timeout, Step(timeout, s, Fire(id)))
  {
    assert IsCountdown(s.queue, id);
    assert s.started && !s.warningShowing && s.now == WarnAt(timeout);
    var t := Step(timeout, s, Fire(id));
    assert t.log == s.log + [Warned(s.now)] && Warned(s.now) in t.log;
  }

  lemma {:induction false} UnattendedCountsDown(timeout: nat, s: State, id: nat, m: nat)
    requires Inv(timeout, s, m) && Unattended(timeout, s) && Enabled(s, Fire(id)) && s.queue[id].callback.WarnLoop?
    ensures Unattended(timeout, Step(timeout, s, Fire(id)))
  {
    assert IsCountdown(s.queue, id);
    assert s.warningShowing && s.warnLoopTimer == Some(id);
    var t := Step(timeout, s, Fire(id));
    if s.queue[id].callback.seconds == 0 {
      assert t.log == s.log + [LoggedOut(s.now)] && LoggedOut(s.now) in t.log;
    }
  }

  lemma {:induction false} StepStaysUnattended(timeout: nat, s: State, e: Event, m: nat)
    requires Inv(timeout, s, m) && Unattended(timeout, s) && Enabled(s, e) && !e.Activity? && !e.Cancel?
    ensures Unattended(timeout, Step(timeout, s, e))
  {
    match e
    case Elapse(to) =>
    case Fire(id) =>
      if s.queue[id].callback.Warn? {
        UnattendedWarns(timeout, s, id, m);
      } else if s.queue[id].callback.WarnLoop? {
        UnattendedCountsDown(timeout, s, id, m);
      } else if s.started {
        LaterIdleTick(timeout, s, id);
      } else {
        FirstIdleTick(timeout, s, id);
      }
  }

  ghost predicate NobodyThere(es: seq<Event>) { forall e :: e in es ==> !e.Activity? && !e.Cancel? }

  lemma {:induction false} RunStaysUnattended(timeout: nat, s: State, es: seq<Event>, m: nat) returns (m': nat)
    requires Inv(timeout, s, m) && Unattended(timeout, s) && Run(timeout, s, es) && NobodyThere(es)
    ensures Inv(timeout, RunTo(timeout, s, es), m') && Unattended(timeout, RunTo(timeout, s, es))
    decreases |es|
  {
    m' := m;
    if es != [] {
      assert es[0] in es && forall e :: e in es[1..] ==> e in es;
      StepStaysUnattended(timeout, s, es[0], m);
      m' := StepKeepsInv(timeout, s, es[0], m);
      m' := RunStaysUnattended(timeout, Step(timeout, s, es[0]), es[1..], m');
    }
  }

  /**
   * A user who never clicks is warned 30 seconds before the session's time is over, and logged out at that time
   * exactly: no run without activity and cancel gets past either.  No warning comes before the second tick.
   */
  lemma IdleUserIsLoggedOut(timeout: nat, es: seq<Event>)
    requires Run(timeout, Initial(timeout), es) && NobodyThere(es)
    ensures var s := RunTo(timeout, Initial(timeout), es);
            var warned: nat := if timeout < 35 then 5000 else timeout * 1000 - 30000;
            && (s.now > warned ==> Warned(warned) in s.log)
            && s.now <= warned + 30000
            && (s.loggedOut ==> s.now == warned + 30000 && Warned(warned) in s.log && LoggedOut(s.now) in s.log)
  {
    var m := InitialInv(timeout);
    assert Unattended(timeout, Initial(timeout)) by {
      assert Initial(timeout).queue == map[0 := Pending(PERIOD, Loop)];
      assert 0 in Initial(timeout).queue;
    }
    m := RunStaysUnattended(timeout, Initial(timeout), es, m);
  }
}
