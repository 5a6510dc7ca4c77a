/**
 The session-inactivity monitor as a value: one record holding everything the
 singleton `MyApp.widgets.SessionMonitor` keeps or changes, and one function per
 operation of the singleton giving the state after that operation.

 Time is an integer number of milliseconds passed in as `now`. The two
 repeating framework tasks (the monitoring poll and the one-second countdown)
 are running/stopped flags, the two activity listeners are subscribed flags,
 the modal dialog is a shown flag, its label is the last count it displayed,
 and the two effects the monitor has on the outside world (the keepalive
 request and the click on the application's logout button) are counters.
 */
module Session {

  /** Seconds the warning dialog starts counting down from. */
  const CountdownStart: int := 60

  /** The inactivity threshold the singleton is configured with, in milliseconds. */
  const DefaultMaxInactive: int := 9000

  /** What the dialog's label shows: nothing yet, or the last count displayed. */
  datatype Label = Blank | Shows(seconds: int)

  datatype State = State(
    lastActive: int,        // time of the last observed activity
    remaining: int,         // seconds left on the countdown
    sessionTask: bool,      // the monitoring poll is scheduled
    countDownTask: bool,    // the one-second countdown is scheduled
    mouseMove: bool,        // the mousemove listener is subscribed
    keyDown: bool,          // the keydown listener is subscribed
    windowShown: bool,      // the modal warning dialog is visible
    display: Label,         // what the dialog's label displays
    keepalives: nat,        // keepalive requests sent to the server
    logouts: nat            // clicks fired on the application's logout button
  )

  /**
   The object invariant of the monitor: the two tasks never run together, the
   activity listeners are subscribed exactly while the poll runs, the dialog is
   visible exactly while the countdown runs, and a running countdown has between
   0 and 60 seconds left.
   */
  predicate Inv(s: State) {
    && !(s.sessionTask && s.countDownTask)
    && s.mouseMove == s.sessionTask
    && s.keyDown == s.sessionTask
    && s.windowShown == s.countDownTask
    && (s.countDownTask ==> 0 <= s.remaining <= CountdownStart)
  }

  /** Monitoring: the poll runs and activity is being listened for. */
  predicate Monitoring(s: State) {
    s.sessionTask && s.mouseMove && s.keyDown
  }

  /** Warning: the dialog is up and counting down. */
  predicate Warning(s: State) {
    s.countDownTask && s.windowShown
  }

  /** Nothing is scheduled and nothing is listened for or shown. */
  predicate Quiescent(s: State) {
    !s.sessionTask && !s.countDownTask && !s.mouseMove && !s.keyDown && !s.windowShown
  }

  /**
   The singleton as it is defined: no activity recorded (`null`, which behaves
   as 0 in the subtraction of monitorUI), no task scheduled, no listener, the
   dialog hidden with an empty label.
   */
  function Initial(): (s: State)
    ensures Inv(s) && Quiescent(s)
    ensures s.lastActive == 0 && s.remaining == 0
    ensures s.display == Blank && s.keepalives == 0 && s.logouts == 0
  {
    State(0, 0, false, false, false, false, false, Blank, 0, 0)
  }

  /** captureActivity: records the time of the observed input event. */
  function CaptureActivity(s: State, now: int): (r: State)
    ensures r.lastActive == now
    ensures r.(lastActive := s.lastActive) == s
    ensures Inv(s) ==> Inv(r)
  {
    s.(lastActive := now)
  }

  /** stop: unschedules the poll and unsubscribes both activity listeners. */
  function Stop(s: State): (r: State)
    ensures !r.sessionTask && !r.mouseMove && !r.keyDown
    ensures r.(sessionTask := s.sessionTask, mouseMove := s.mouseMove, keyDown := s.keyDown) == s
    ensures Inv(s) ==> Inv(r)
  {
    s.(sessionTask := false, mouseMove := false, keyDown := false)
  }

  /**
   start: takes `now` as the last activity, subscribes both listeners and
   schedules the poll. It keeps the invariant when the countdown is not
   running, which is how it is always called.
   */
  function Start(s: State, now: int): (r: State)
    ensures r.lastActive == now && Monitoring(r)
    ensures r.(lastActive := s.lastActive, sessionTask := s.sessionTask,
               mouseMove := s.mouseMove, keyDown := s.keyDown) == s
    ensures Inv(s) && !s.countDownTask ==> Inv(r)
  {
    s.(lastActive := now, mouseMove := true, keyDown := true, sessionTask := true)
  }

  /**
   monitorUI: when at least `maxInactive` milliseconds have passed since the
   last activity, stop monitoring, show the dialog, set the countdown to 60 and
   schedule it; otherwise change nothing.
   */
  function MonitorUI(s: State, now: int, maxInactive: int): (r: State)
    ensures now - s.lastActive < maxInactive ==> r == s
    ensures now - s.lastActive >= maxInactive ==>
      && !r.sessionTask && !r.mouseMove && !r.keyDown
      && r.windowShown && r.remaining == CountdownStart && r.countDownTask
      && r.lastActive == s.lastActive && r.display == s.display
      && r.keepalives == s.keepalives && r.logouts == s.logouts
    ensures Inv(s) ==> Inv(r)
  {
    if now - s.lastActive >= maxInactive then
      Stop(s).(windowShown := true, remaining := CountdownStart, countDownTask := true)
    else
      s
  }

  /**
   The dialog's Logout button: unschedules the countdown, hides the dialog and
   clicks the application's logout button once. Monitoring is not restarted.
   */
  function LogoutClicked(s: State): (r: State)
    ensures !r.countDownTask && !r.windowShown
    ensures r.logouts == s.logouts + 1
    ensures r.(countDownTask := s.countDownTask, windowShown := s.windowShown, logouts := s.logouts) == s
    ensures Inv(s) ==> Inv(r)
  {
    s.(countDownTask := false, windowShown := false, logouts := s.logouts + 1)
  }

  /**
   The dialog's Continue button: unschedules the countdown, hides the dialog,
   starts monitoring afresh from `now` and sends one keepalive request. Whatever
   the state it is pressed in, the result satisfies the invariant.
   */
  function ContinueClicked(s: State, now: int): (r: State)
    ensures !r.countDownTask && !r.windowShown
    ensures Monitoring(r) && r.lastActive == now
    ensures r.keepalives == s.keepalives + 1
    ensures r.logouts == s.logouts && r.remaining == s.remaining && r.display == s.display
    ensures Inv(r)
  {
    var hidden := s.(countDownTask := false, windowShown := false);
    Start(hidden, now).(keepalives := s.keepalives + 1)
  }

  /**
   countDown: displays the current count, then takes one second off it; when
   the count has gone below zero the Logout button's handler runs.
   */
  function CountDown(s: State): (r: State)
    ensures r.display == Shows(s.remaining)
    ensures r.remaining == s.remaining - 1
    ensures r.logouts == if s.remaining <= 0 then s.logouts + 1 else s.logouts
    ensures s.remaining <= 0 ==> !r.countDownTask && !r.windowShown
    ensures s.remaining > 0 ==> r.countDownTask == s.countDownTask && r.windowShown == s.windowShown
    ensures r.lastActive == s.lastActive && r.sessionTask == s.sessionTask
    ensures r.mouseMove == s.mouseMove && r.keyDown == s.keyDown && r.keepalives == s.keepalives
    ensures Inv(s) ==> Inv(r)
  {
    var shown := s.(display := Shows(s.remaining));
    var ticked := shown.(remaining := shown.remaining - 1);
    if ticked.remaining < 0 then LogoutClicked(ticked) else ticked
  }
}
