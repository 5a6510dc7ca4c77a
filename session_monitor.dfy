/**
 The singleton `MyApp.widgets.SessionMonitor` as an object whose methods update
 its fields in place, as the widget does. Each method is proved to leave the
 object in the state the corresponding function of module Session gives, and
 the object invariant Valid() is the Session invariant of that state.
 */
module Widgets {
  import Session

  class SessionMonitor {
    /** Milliseconds of inactivity after which the warning is shown. */
    const maxInactive: int

    var lastActive: int
    var remaining: int
    var sessionTask: bool
    var countDownTask: bool
    var mouseMove: bool
    var keyDown: bool
    var windowShown: bool
    var display: Session.Label
    var keepalives: nat
    var logouts: nat

    /** The monitor's fields as a value. */
    function Snapshot(): (s: Session.State)
      reads this
    {
      Session.State(lastActive, remaining, sessionTask, countDownTask, mouseMove, keyDown,
                    windowShown, display, keepalives, logouts)
    }

    ghost predicate Valid()
      reads this
    {
      Session.Inv(Snapshot())
    }

    /** The singleton as defined, before anything starts it. */
    constructor (maxInactive: int)
      ensures this.maxInactive == maxInactive
      ensures Snapshot() == Session.Initial() && Valid()
    {
      this.maxInactive := maxInactive;
      lastActive, remaining := 0, 0;
      sessionTask, countDownTask := false, false;
      mouseMove, keyDown := false, false;
      windowShown, display := false, Session.Blank;
      keepalives, logouts := 0, 0;
    }

    /** An input event reached one of the activity listeners at time `now`. */
    method CaptureActivity(now: int)
      requires Valid()
      modifies this
      ensures Valid()
      ensures Snapshot() == Session.CaptureActivity(old(Snapshot()), now)
    {
      lastActive := now;
    }

    /** The monitoring task fired at time `now`. */
    method MonitorUI(now: int)
      requires Valid()
      modifies this
      ensures Valid()
      ensures Snapshot() == Session.MonitorUI(old(Snapshot()), now, maxInactive)
    {
      var inactive := now - lastActive;
      if inactive >= maxInactive {
        Stop();
        windowShown := true;
        remaining := Session.CountdownStart;
        countDownTask := true;
      }
    }

    /**
     Start monitoring from time `now`. Called with the countdown stopped, as
     the Continue button does, it keeps the invariant.
     */
    method Start(now: int)
      modifies this
      ensures old(Valid()) && !old(countDownTask) ==> Valid()
      ensures Snapshot() == Session.Start(old(Snapshot()), now)
    {
      lastActive := now;
      mouseMove := true;
      keyDown := true;
      sessionTask := true;
    }

    /** Stop monitoring. */
    method Stop()
      modifies this
      ensures old(Valid()) ==> Valid()
      ensures Snapshot() == Session.Stop(old(Snapshot()))
    {
      sessionTask := false;
      mouseMove := false;
      keyDown := false;
    }

    /** The countdown task fired. */
    method CountDown()
      requires Valid()
      modifies this
      ensures Valid()
      ensures Snapshot() == Session.CountDown(old(Snapshot()))
    {
      display := Session.Shows(remaining);
      remaining := remaining - 1;
      if remaining < 0 {
        OnLogout();
      }
    }

    /** The dialog's Continue button was pressed at time `now`. */
    method OnContinue(now: int)
      requires Valid()
      modifies this
      ensures Valid()
      ensures Snapshot() == Session.ContinueClicked(old(Snapshot()), now)
    {
      countDownTask := false;
      windowShown := false;
      Start(now);
      keepalives := keepalives + 1;
    }

    /**
     The dialog's Logout button was pressed, or the countdown ran out. It is
     also run from inside CountDown, after the count has gone below zero and
     before the invariant holds again, so it does not ask for Valid().
     */
    method OnLogout()
      modifies this
      ensures old(Valid()) ==> Valid()
      ensures Snapshot() == Session.LogoutClicked(old(Snapshot()))
    {
      countDownTask := false;
      windowShown := false;
      logouts := logouts + 1;
    }
  }

  /**
   An idle session: the singleton is started at `t0`, the page stays idle until
   the poll fires `maxInactive` milliseconds later, and nobody touches the
   dialog, so the task manager keeps firing the countdown for as long as it is
   scheduled. The labels shown are 60 down to 0, and the application's logout
   button is clicked once, on the 61st tick, after which nothing is scheduled.
   */
  method IdleSessionIsLoggedOut(maxInactive: int, t0: int) returns (labels: seq<int>, m: SessionMonitor)
    ensures fresh(m)
    ensures labels == seq(61, i => 60 - i)
    ensures m.logouts == 1 && m.keepalives == 0
    ensures !m.sessionTask && !m.countDownTask && !m.windowShown
  {
    m := new SessionMonitor(maxInactive);
    m.Start(t0);
    m.MonitorUI(t0 + maxInactive);
    labels := [];
    while m.countDownTask
      invariant m.Valid()
      invariant m.logouts == 0 ==> m.countDownTask && |labels| == 60 - m.remaining
      invariant m.logouts == 0 ==> forall i :: 0 <= i < |labels| ==> labels[i] == 60 - i
      invariant m.logouts == 1 ==> !m.countDownTask && labels == seq(61, i => 60 - i)
      invariant m.logouts <= 1 && m.keepalives == 0 && !m.sessionTask
      decreases m.remaining + (if m.countDownTask then 1 else 0)
    {
      m.CountDown();
      labels := labels + [m.display.seconds];
    }
  }
}
