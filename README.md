# Session-inactivity monitor

A model of the singleton `MyApp.widgets.SessionMonitor`. It is an Ext JS 4 widget
that watches the page for mouse and keyboard activity. After a period of inactivity
it shows a modal dialog that counts down from 60 seconds. The user can press
"Continue", which resumes monitoring and pokes the server to keep the session alive.
The user can press "Logout", or let the count run out; either way the application's
own logout button is clicked.

Stripped of the UI, the widget is a small state machine:

- two fields, `lastActive` and `remaining`;
- two repeating tasks, the monitoring poll (`sessionTask`) and the one-second
  countdown (`countDownTask`);
- two activity listeners, for `mousemove` and `keydown`;
- a modal window, shown or hidden, with a label;
- two effects on the outside world: a keepalive request and a logout click.

The project has three modules:

- `Session` (session.dfy) is the monitor's state as a value. It defines the record
  `State`, one function per operation of the widget (`CaptureActivity`, `MonitorUI`,
  `Start`, `Stop`, `CountDown`, and the two button handlers `ContinueClicked` and
  `LogoutClicked`), and the object invariant `Inv`. `Inv` says:
  - the two tasks never run together;
  - the listeners are subscribed exactly while the poll runs;
  - the dialog is visible exactly while the countdown runs;
  - a running countdown has between 0 and 60 seconds left.
- `SessionRuns` (session_runs.dfy) covers sequences of callbacks (`Event`, `Step`,
  `Run`). It holds the lemmas about whole runs: the invariant holds in every
  reachable state, the countdown is exact, and each warning has exactly one exit.
- `Widgets` (session_monitor.dfy) is the singleton as a class, `SessionMonitor`. Its
  methods update its fields in place, the way the widget does. Each method is proved
  to produce the state that the matching `Session` function gives, through
  `Snapshot()`. `Valid()` is `Inv` of that snapshot.

Representation choices:

- Time is an integer number of milliseconds, passed in as `now`.
- The tasks and listeners are booleans.
- The label is the last count displayed (`Label`).
- Keepalive requests and logout clicks are counters.
- `lastActive` starts as `null` in the widget. JavaScript subtraction treats `null`
  as 0, so the model starts it at 0.
- The threshold is a constructor parameter, `maxInactive`. The widget's own value is
  `1000 * 60 * 0.15`, which is 9000 ms (`Session.DefaultMaxInactive`).

A countdown tick displays the count first and then decrements it. So the labels run
from 60 down to 0, and the logout comes on the 61st tick, when the count reaches -1.
How many seconds that takes depends on when the task manager first fires the
countdown after starting it, which is not modelled (see "## Left out").

One point where the widget's comment and its code differ; the model follows the code:
the comment beside the threshold (app/widgets/SessionMonitorCN.js:11) says 15 minutes,
but the expression `1000 * 60 * 0.15` is 9000 ms.

## Model

| member | source | states |
|---|---|---|
| Session.Initial | app/widgets/SessionMonitorCN.js:10-13 | the singleton starts with `lastActive` and `remaining` at 0 (the `null` start behaves as 0), no task scheduled, no listener, the dialog hidden with an empty label, and no keepalive or logout; it satisfies the invariant |
| Session.CaptureActivity | app/widgets/SessionMonitorCN.js:86-88 | the last-activity time becomes `now` and nothing else changes: no task, listener, window, label or `remaining` change; the invariant is kept |
| Session.Stop | app/widgets/SessionMonitorCN.js:129-137 | the poll is unscheduled and both listeners are unsubscribed, nothing else changes, and the invariant is kept |
| Session.Start | app/widgets/SessionMonitorCN.js:111-124 | the last activity becomes `now`, both listeners are subscribed and the poll is scheduled, nothing else changes; called with the countdown stopped it keeps the invariant |
| Session.MonitorUI | app/widgets/SessionMonitorCN.js:94-105 | with less than `maxInactive` ms of inactivity the whole state is unchanged; otherwise the poll stops, both listeners go, the window shows, `remaining` is 60 and the countdown is scheduled, and nothing else changes; the invariant is kept |
| Session.LogoutClicked | app/widgets/SessionMonitorCN.js:49-55 | the countdown stops, the window hides and the logout button is clicked exactly once; monitoring is not restarted and nothing else changes |
| Session.ContinueClicked | app/widgets/SessionMonitorCN.js:36-44 | the countdown stops, the window hides, monitoring restarts from `now` with both listeners, exactly one keepalive is sent and no logout; the result always satisfies the invariant |
| Session.CountDown | app/widgets/SessionMonitorCN.js:144-152 | the label shows the count before the tick, `remaining` drops by exactly 1, a logout is clicked exactly when the count was 0 or less (and then the countdown stops and the window hides), and the monitoring side is untouched; the invariant is kept |
| SessionRuns.Step | app/widgets/SessionMonitorCN.js:36-124 | every callback the widget handles keeps the invariant |
| SessionRuns.RunPreservesInv | app/widgets/SessionMonitorCN.js:94-152 | the invariant holds after any sequence of activity, polls, ticks and button presses |
| SessionRuns.ReachableStatesKeepTasksApart | app/widgets/SessionMonitorCN.js:99-136 | after `start` from the initial state and any mix of events, the poll and the countdown never run together, the listeners are subscribed exactly while the poll runs, and the dialog is up exactly while the countdown runs |
| SessionRuns.StepExits | app/widgets/SessionMonitorCN.js:36-55 | for one deliverable event: the dialog goes up only from a poll, it comes down through exactly one keepalive or one logout, and only Continue sends keepalives and only Logout or a tick click logout |
| SessionRuns.ExitsMatchWarnings | app/widgets/SessionMonitorCN.js:98-151 | over any run of deliverable events, the logouts plus keepalives plus a still-open dialog equal the warnings shown (plus one already open at the start) |
| SessionRuns.AtMostOneLogoutPerWarning | app/widgets/SessionMonitorCN.js:144-151 | from `start`, every warning ends in exactly one keepalive or one logout unless it is still on screen, so there is never more than one logout per warning |
| SessionRuns.LogoutIsFinal | app/widgets/SessionMonitorCN.js:49-55 | after a logout from the dialog nothing is scheduled, subscribed or shown, so no further callback (and no second logout) can be delivered |
| SessionRuns.QuiescentRunIsEmpty | app/widgets/SessionMonitorCN.js:49-55 | in a state with nothing scheduled, subscribed or shown, the only deliverable run is the empty one |
| SessionRuns.TicksBeforeExpiry | app/widgets/SessionMonitorCN.js:144-148 | while the count has not run out, `k` ticks show `remaining`, `remaining`-1, ... and leave `remaining`-`k`, with no logout and nothing else changed |
| SessionRuns.CountdownRunsOut | app/widgets/SessionMonitorCN.js:144-151 | a running countdown with `n` seconds left shows n down to 0, stays up with no logout through its first n ticks, and on tick n+1 clicks logout once and leaves the monitor quiescent |
| SessionRuns.DefaultThresholdIsNineSeconds | app/widgets/SessionMonitorCN.js:11 | with the widget's own threshold, a poll 8999 ms after `start` changes nothing and a poll 9000 ms after it shows the warning with the count at 60 |
| SessionRuns.WarningCountsDownFromSixty | app/widgets/SessionMonitorCN.js:98-151 | once the poll finds the page idle, the labels shown are 60, 59, ..., 0, each of the first 61 ticks can fire with no earlier logout, and the 61st tick clicks logout exactly once with `remaining` at -1 and nothing left running |
| Widgets.SessionMonitor.constructor | app/widgets/SessionMonitorCN.js:63-80 | the object starts in the initial state with the given threshold, and is valid |
| Widgets.SessionMonitor.CaptureActivity | app/widgets/SessionMonitorCN.js:86-88 | updates the fields in place to `Session.CaptureActivity` of the old state and keeps `Valid()` |
| Widgets.SessionMonitor.MonitorUI | app/widgets/SessionMonitorCN.js:94-105 | updates the fields in place to `Session.MonitorUI` of the old state, calling `Stop`, and keeps `Valid()` |
| Widgets.SessionMonitor.Start | app/widgets/SessionMonitorCN.js:111-124 | updates the fields in place to `Session.Start` of the old state; keeps `Valid()` when the countdown was stopped |
| Widgets.SessionMonitor.Stop | app/widgets/SessionMonitorCN.js:129-137 | updates the fields in place to `Session.Stop` of the old state and keeps `Valid()` |
| Widgets.SessionMonitor.CountDown | app/widgets/SessionMonitorCN.js:144-152 | updates the fields in place to `Session.CountDown` of the old state, calling `OnLogout` when the count goes below zero, and keeps `Valid()` |
| Widgets.SessionMonitor.OnContinue | app/widgets/SessionMonitorCN.js:36-44 | updates the fields in place to `Session.ContinueClicked` of the old state, calling `Start`, and keeps `Valid()` |
| Widgets.SessionMonitor.OnLogout | app/widgets/SessionMonitorCN.js:49-55 | updates the fields in place to `Session.LogoutClicked` of the old state and keeps `Valid()` |
| Widgets.IdleSessionIsLoggedOut | app/widgets/SessionMonitorCN.js:98-151 | with the object itself: start, an idle poll, then the countdown firing while it is scheduled shows exactly 60 down to 0 and ends with one logout, no keepalive and nothing scheduled or shown |

## Left out

- Building the window: its layout, styling and the Chinese message texts (app/widgets/SessionMonitorCN.js:18-33, 145). The label is modelled as the last count it displayed.
- `Ext.TaskManager` scheduling: the 10 s and 1 s intervals, and when a task first fires after it is started (app/widgets/SessionMonitorCN.js:9, 67-79). Tasks are scheduled/unscheduled flags, and each firing is an explicit call or `Event`. `Enabled` says when a firing can be delivered.
- `new Date()` (app/widgets/SessionMonitorCN.js:87, 95, 112) is the `now` parameter. Nothing assumes that successive `now` values increase.
- The floating-point threshold expression (app/widgets/SessionMonitorCN.js:11) is the integer constructor parameter `maxInactive`.
- The keepalive `Ext.Ajax.request` to `user/poke.action` (app/widgets/SessionMonitorCN.js:42-44) is a counter. Its response and failures are ignored, as in the widget.
- The `Ext.ComponentQuery` lookup and the `fireEvent('click')` on the application's logout button (app/widgets/SessionMonitorCN.js:54) are a counter. The model assumes that button exists; the widget would throw if it did not.
- `ui.on`/`ui.un` listener binding and the reassignment `this.ui = Ext.getBody()` (app/widgets/SessionMonitorCN.js:115-120, 135-136) are one boolean per listener. How the framework treats a listener registered twice is not modelled.
- app/controller/AppController.js is not part of this model. It only binds the logout button to an `alert`.
