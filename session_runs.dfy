/**
 Runs of the session monitor: what a sequence of input events, timer firings
 and button presses does to it, started the way the application starts it.

 An event stands for one callback the framework delivers: an input event
 caught by an activity listener, a firing of the monitoring poll, a firing of
 the one-second countdown, or a press of one of the dialog's two buttons.
 */
module SessionRuns {
  import opened Session

  datatype Event =
    | Activity(now: int)   // mousemove or keydown on the page body
    | Poll(now: int)       // the monitoring task fires
    | Tick                 // the countdown task fires
    | Continue(now: int)   // the dialog's Continue button
    | Logout               // the dialog's Logout button

  /** The state after the singleton handles one event. */
  function Step(s: State, e: Event, maxInactive: int): (r: State)
    ensures Inv(s) ==> Inv(r)
  {
    match e
    case Activity(now) => CaptureActivity(s, now)
    case Poll(now) => MonitorUI(s, now, maxInactive)
    case Tick => CountDown(s)
    case Continue(now) => ContinueClicked(s, now)
    case Logout => LogoutClicked(s)
  }

  /** The state after the singleton handles every event of `evs` in order. */
  function Run(s: State, evs: seq<Event>, maxInactive: int): (r: State)
    decreases |evs|
  {
    if evs == [] then s else Run(Step(s, evs[0], maxInactive), evs[1..], maxInactive)
  }

  /** The invariant survives any sequence of events whatsoever. */
  lemma {:induction false} RunPreservesInv(s: State, evs: seq<Event>, maxInactive: int)
    requires Inv(s)
    ensures Inv(Run(s, evs, maxInactive))
    decreases |evs|
  {
    if evs != [] {
      RunPreservesInv(Step(s, evs[0], maxInactive), evs[1..], maxInactive);
    }
  }

  /**
   After `start` and any mix of activity, polls, ticks and button presses, the
   poll and the countdown are never both scheduled, the activity listeners are
   subscribed exactly while the poll is, and the dialog is up exactly while the
   countdown is.
   */
  lemma ReachableStatesKeepTasksApart(now0: int, evs: seq<Event>, maxInactive: int)
    ensures var r := Run(Start(Initial(), now0), evs, maxInactive);
      && !(r.sessionTask && r.countDownTask)
      && r.mouseMove == r.sessionTask && r.keyDown == r.sessionTask
      && r.windowShown == r.countDownTask
  {
    RunPreservesInv(Start(Initial(), now0), evs, maxInactive);
  }

  // ---------------------------------------------------------------------------
  // Which callbacks can actually happen.

  /**
   A callback can only be delivered while its source exists: input events
   while a listener is subscribed, poll firings while the poll is scheduled,
   ticks while the countdown is scheduled, button presses while the modal
   dialog is visible.
   */
  predicate Enabled(s: State, e: Event) {
    match e
    case Activity(_) => s.mouseMove || s.keyDown
    case Poll(_) => s.sessionTask
    case Tick => s.countDownTask
    case Continue(_) => s.windowShown
    case Logout => s.windowShown
  }

  /** Every event of `evs` can happen in the state it is delivered in. */
  predicate EnabledRun(s: State, evs: seq<Event>, maxInactive: int)
    decreases |evs|
  {
    evs == [] ||
    (Enabled(s, evs[0]) && EnabledRun(Step(s, evs[0], maxInactive), evs[1..], maxInactive))
  }

  /** How many times the warning dialog goes up during the run. */
  function Warnings(s: State, evs: seq<Event>, maxInactive: int): (n: nat)
    decreases |evs|
  {
    if evs == [] then 0
    else
      var t := Step(s, evs[0], maxInactive);
      (if !s.windowShown && t.windowShown then 1 else 0) + Warnings(t, evs[1..], maxInactive)
  }

  function Count(b: bool): (n: nat) { if b then 1 else 0 }

  /**
   One deliverable event: the dialog goes up only from a poll, and it comes down
   only through exactly one of a keepalive (Continue) or a logout (the Logout
   button, or the countdown running out).
   */
  lemma StepExits(s: State, e: Event, maxInactive: int)
    requires Inv(s) && Enabled(s, e)
    ensures var r := Step(s, e, maxInactive);
      && r.logouts >= s.logouts && r.keepalives >= s.keepalives
      && (r.logouts - s.logouts) + (r.keepalives - s.keepalives) + Count(r.windowShown)
         == Count(!s.windowShown && r.windowShown) + Count(s.windowShown)
      && (r.windowShown && !s.windowShown ==> e.Poll?)
      && (r.logouts > s.logouts ==> e.Logout? || e.Tick?)
      && (r.keepalives > s.keepalives ==> e.Continue?)
  {
  }

  /**
   Over any run of deliverable events, every warning shown ends in exactly one
   exit, a keepalive or a logout, unless it is still on screen at the end.
   */
  lemma {:induction false} ExitsMatchWarnings(s: State, evs: seq<Event>, maxInactive: int)
    requires Inv(s) && EnabledRun(s, evs, maxInactive)
    ensures var r := Run(s, evs, maxInactive);
      && r.logouts >= s.logouts && r.keepalives >= s.keepalives
      && (r.logouts - s.logouts) + (r.keepalives - s.keepalives) + Count(r.windowShown)
         == Warnings(s, evs, maxInactive) + Count(s.windowShown)
    decreases |evs|
  {
    if evs != [] {
      var t := Step(s, evs[0], maxInactive);
      StepExits(s, evs[0], maxInactive);
      ExitsMatchWarnings(t, evs[1..], maxInactive);
    }
  }

  /**
   From `start`, over any run of deliverable events, the application's logout
   button is clicked at most once per warning shown, and exactly once per
   warning that is not answered with Continue.
   */
  lemma AtMostOneLogoutPerWarning(now0: int, evs: seq<Event>, maxInactive: int)
    requires EnabledRun(Start(Initial(), now0), evs, maxInactive)
    ensures var r := Run(Start(Initial(), now0), evs, maxInactive);
      && r.logouts <= Warnings(Start(Initial(), now0), evs, maxInactive)
      && r.logouts + r.keepalives + Count(r.windowShown)
         == Warnings(Start(Initial(), now0), evs, maxInactive)
  {
    ExitsMatchWarnings(Start(Initial(), now0), evs, maxInactive);
  }

  /**
   Logging out from the dialog leaves nothing scheduled, subscribed or shown,
   so no callback of the monitor can be delivered any more.
   */
  lemma LogoutIsFinal(s: State)
    requires Inv(s) && Warning(s)
    ensures Quiescent(LogoutClicked(s))
    ensures forall e :: !Enabled(LogoutClicked(s), e)
  {
  }

  /** In a quiescent state the only deliverable run is the empty one. */
  lemma QuiescentRunIsEmpty(s: State, evs: seq<Event>, maxInactive: int)
    requires Quiescent(s) && EnabledRun(s, evs, maxInactive)
    ensures evs == [] && Run(s, evs, maxInactive) == s
  {
  }

  // ---------------------------------------------------------------------------
  // The countdown left to itself.

  /** The state after `k` countdown ticks with no user action. */
  function Ticks(s: State, k: nat): (t: State) {
    if k == 0 then s else CountDown(Ticks(s, k - 1))
  }

  /** The labels displayed by those `k` ticks, first to last. */
  function Displayed(s: State, k: nat): (labels: seq<Label>) {
    if k == 0 then [] else Displayed(s, k - 1) + [Ticks(s, k).display]
  }

  /**
   While the count has not run out, each tick shows the current count and
   takes one off it; nothing else changes and no logout happens.
   */
  lemma {:induction false} TicksBeforeExpiry(s: State, k: nat)
    requires k <= s.remaining
    ensures var t := Ticks(s, k);
      && t.remaining == s.remaining - k
      && t.logouts == s.logouts
      && t.countDownTask == s.countDownTask && t.windowShown == s.windowShown
      && t.sessionTask == s.sessionTask && t.mouseMove == s.mouseMove && t.keyDown == s.keyDown
      && t.lastActive == s.lastActive && t.keepalives == s.keepalives
    ensures |Displayed(s, k)| == k
    ensures forall i :: 0 <= i < k ==> Displayed(s, k)[i] == Shows(s.remaining - i)
  {
    if k > 0 {
      TicksBeforeExpiry(s, k - 1);
    }
  }

  /**
   A running countdown with `n` seconds left shows n, n-1, ..., 0 over its
   first n+1 ticks, stays up with no logout until then, and the (n+1)-th tick
   clicks logout once and leaves the monitor quiescent.
   */
  lemma CountdownRunsOut(s: State)
    requires Inv(s) && Warning(s)
    ensures forall k :: 0 <= k <= s.remaining ==>
      Warning(Ticks(s, k)) && Ticks(s, k).logouts == s.logouts
    ensures var t := Ticks(s, s.remaining + 1);
      && t.logouts == s.logouts + 1 && t.remaining == -1 && Quiescent(t)
    ensures var d := Displayed(s, s.remaining + 1);
      |d| == s.remaining + 1 && forall i :: 0 <= i < |d| ==> d[i] == Shows(s.remaining - i)
  {
    forall k | 0 <= k <= s.remaining
      ensures Warning(Ticks(s, k)) && Ticks(s, k).logouts == s.logouts
    {
      TicksBeforeExpiry(s, k);
    }
    TicksBeforeExpiry(s, s.remaining);
  }

  /**
   With the widget's own threshold of 9000 ms, a page left idle since `start`
   is not warned by a poll 8999 ms later, and is warned by a poll 9000 ms later.
   */
  lemma DefaultThresholdIsNineSeconds(t0: int)
    ensures var s := Start(Initial(), t0);
      && MonitorUI(s, t0 + DefaultMaxInactive - 1, DefaultMaxInactive) == s
      && Warning(MonitorUI(s, t0 + DefaultMaxInactive, DefaultMaxInactive))
      && MonitorUI(s, t0 + DefaultMaxInactive, DefaultMaxInactive).remaining == CountdownStart
  {
  }

  /**
   Once the poll finds the page idle for `maxInactive` milliseconds, the
   dialog shows 60, 59, ..., 0 on the first 61 ticks, with the countdown
   scheduled and no logout before each of them, and the 61st tick clicks
   logout exactly once and leaves nothing running.
   */
  lemma WarningCountsDownFromSixty(s: State, now: int, maxInactive: int)
    requires now - s.lastActive >= maxInactive
    ensures var w := MonitorUI(s, now, maxInactive);
      && (forall k :: 0 <= k <= 60 ==> Enabled(Ticks(w, k), Tick) && Ticks(w, k).logouts == s.logouts)
      && |Displayed(w, 61)| == 61
      && (forall i :: 0 <= i < 61 ==> Displayed(w, 61)[i] == Shows(60 - i))
      && Ticks(w, 61).logouts == s.logouts + 1
      && Ticks(w, 61).remaining == -1
      && Quiescent(Ticks(w, 61))
  {
    CountdownRunsOut(MonitorUI(s, now, maxInactive));
  }
}
