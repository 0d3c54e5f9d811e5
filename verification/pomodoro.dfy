/** The interval state machine of `TomatoBarController`, as values: the controller's
    observable state, one function per private operation, the two events that drive
    it (a click on Start/Stop or the Touch Bar button, and a firing of the one-second
    timer), and what holds across any sequence of them. */
module Pomodoro {
  import opened Format

  /** Width the status item takes while an interval runs. */
  const RunningStatusLength := 70

  /** `NSStatusItem.length`: either `variableLength` or a fixed width. */
  datatype StatusLength = VariableLength | Fixed(points: int)

  datatype Notification = Notification(title: string, informativeText: string)

  /** The one notification the controller delivers. */
  const TimeUp := Notification("Time's up", "Keep up the good work!")

  /** The two user preferences: interval length in minutes and the sound switch. */
  datatype Prefs = Prefs(intervalLength: int, isSoundEnabled: bool)

  /** The defaults registered at launch. */
  const DefaultPrefs := Prefs(25, true)

  function IntervalLengthSeconds(p: Prefs): int
  {
    p.intervalLength * 60
  }

  /** `running` stands for `timer != nil`; `beeps` counts `NSSound.beep()` calls and
      `notifications` lists what was handed to the notification centre. */
  datatype State = State(
    running: bool,
    timeLeft: int,
    startHidden: bool,
    stopHidden: bool,
    statusLength: StatusLength,
    touchBarTitle: string,
    statusBarTitle: string,
    beeps: nat,
    notifications: seq<Notification>)

  /** After launch: no timer, `timeLeft` 0, Start shown, Stop hidden, variable width. */
  const Initial := State(false, 0, false, true, VariableLength, "", "", 0, [])

  function PlaySound(p: Prefs, s: State): State
  {
    if p.isSoundEnabled then s.(beeps := s.beeps + 1) else s
  }

  function SendNotification(s: State): State
  {
    s.(notifications := s.notifications + [TimeUp])
  }

  function Reset(s: State): State
  {
    s.(running := false, startHidden := s.stopHidden, stopHidden := s.startHidden,
       statusLength := VariableLength)
  }

  function Start(p: Prefs, s: State): State
  {
    var shown := s.(startHidden := s.stopHidden, stopHidden := s.startHidden,
                    statusLength := Fixed(RunningStatusLength));
    PlaySound(p, shown.(timeLeft := IntervalLengthSeconds(p), running := true))
  }

  function Finish(p: Prefs, s: State): State
  {
    PlaySound(p, Reset(SendNotification(s)))
  }

  function Cancel(p: Prefs, s: State): State
  {
    PlaySound(p, Reset(s))
  }

  /** The click handler: start when idle, cancel when running. Either way the menu
      items swap, one beep sounds when sound is on, and nothing is notified; a cancel
      leaves `timeLeft` where it was. */
  function Toggle(p: Prefs, s: State): (r: State)
    ensures r.running == !s.running
    ensures !s.running ==> r.timeLeft == IntervalLengthSeconds(p)
    ensures s.running ==> r.timeLeft == s.timeLeft
    ensures r.notifications == s.notifications
    ensures r.beeps == s.beeps + (if p.isSoundEnabled then 1 else 0)
    ensures r.startHidden == s.stopHidden && r.stopHidden == s.startHidden
    ensures r.statusLength == if r.running then Fixed(RunningStatusLength) else VariableLength
    ensures r.touchBarTitle == s.touchBarTitle && r.statusBarTitle == s.statusBarTitle
  {
    if !s.running then Start(p, s) else Cancel(p, s)
  }

  /** One timer firing: one second less; while that leaves a non-negative time both
      titles show it and nothing else changes, otherwise the interval completes with
      one notification, the menu swap and the beep. */
  function Tick(p: Prefs, s: State): (r: State)
    requires s.running
    ensures r.timeLeft == s.timeLeft - 1
    ensures r.running <==> r.timeLeft >= 0
    ensures r.running ==>
      r.touchBarTitle == TimeLeftString(r.timeLeft) && r.statusBarTitle == TimeLeftString(r.timeLeft) &&
      r.beeps == s.beeps && r.notifications == s.notifications &&
      r.startHidden == s.startHidden && r.stopHidden == s.stopHidden && r.statusLength == s.statusLength
    ensures !r.running ==>
      r.notifications == s.notifications + [TimeUp] &&
      r.beeps == s.beeps + (if p.isSoundEnabled then 1 else 0) &&
      r.startHidden == s.stopHidden && r.stopHidden == s.startHidden && r.statusLength == VariableLength &&
      r.touchBarTitle == s.touchBarTitle && r.statusBarTitle == s.statusBarTitle
  {
    var s' := s.(timeLeft := s.timeLeft - 1);
    if s'.timeLeft >= 0 then
      s'.(touchBarTitle := TimeLeftString(s'.timeLeft), statusBarTitle := TimeLeftString(s'.timeLeft))
    else
      Finish(p, s')
  }

  datatype Event = Click | TimerFire

  /** One event. A timer firing while idle changes nothing: no timer exists then. */
  function Step(p: Prefs, s: State, e: Event): (r: State)
    ensures r.beeps == s.beeps + (if p.isSoundEnabled && r.running != s.running then 1 else 0)
    ensures r.notifications ==
      s.notifications + (if e == TimerFire && s.running && !r.running then [TimeUp] else [])
  {
    match e
    case Click => Toggle(p, s)
    case TimerFire => if s.running then Tick(p, s) else s
  }

  function Run(p: Prefs, s: State, es: seq<Event>): State
    decreases |es|
  {
    if es == [] then s else Run(p, Step(p, s, es[0]), es[1..])
  }

  /** `k` consecutive timer firings. */
  function Ticks(p: Prefs, s: State, k: nat): State
  {
    if k == 0 then s else Step(p, Ticks(p, s, k - 1), TimerFire)
  }

  /** The menu items and the status item follow the state: Start is hidden and Stop
      shown exactly while running, and the width is fixed exactly while running. */
  predicate UiConsistent(s: State)
  {
    s.startHidden == s.running && s.stopHidden == !s.running &&
    s.statusLength == (if s.running then Fixed(RunningStatusLength) else VariableLength)
  }

  /** The controller's invariant: the UI follows the state, a running countdown lies
      within the interval (non-negative unless the interval itself is negative), and
      once a tick has run both titles show the time left. */
  predicate Inv(p: Prefs, s: State)
  {
    UiConsistent(s) &&
    (s.running ==>
      s.timeLeft <= IntervalLengthSeconds(p) &&
      (0 <= s.timeLeft || s.timeLeft == IntervalLengthSeconds(p)) &&
      (s.timeLeft < IntervalLengthSeconds(p) ==>
        s.touchBarTitle == TimeLeftString(s.timeLeft) && s.statusBarTitle == TimeLeftString(s.timeLeft)))
  }

  lemma InitialInv(p: Prefs)
    ensures Inv(p, Initial) && Initial.startHidden != Initial.stopHidden
  {
  }

  lemma StepInv(p: Prefs, s: State, e: Event)
    requires Inv(p, s)
    ensures Inv(p, Step(p, s, e))
  {
  }

  /** The invariant holds after any sequence of clicks and timer firings. */
  lemma {:induction false} RunInv(p: Prefs, s: State, es: seq<Event>)
    requires Inv(p, s)
    ensures Inv(p, Run(p, s, es))
    decreases |es|
  {
    if es != [] {
      StepInv(p, s, es[0]);
      RunInv(p, Step(p, s, es[0]), es[1..]);
    }
  }

  /** Every transition either swaps the two `isHidden` flags or leaves both alone, so
      from one hidden and one shown exactly one stays hidden, whatever happens. */
  lemma {:induction false} ExactlyOneHidden(p: Prefs, s: State, es: seq<Event>)
    requires s.startHidden != s.stopHidden
    ensures Run(p, s, es).startHidden != Run(p, s, es).stopHidden
    decreases |es|
  {
    if es != [] {
      var next := Step(p, s, es[0]);
      assert next.startHidden != next.stopHidden;
      ExactlyOneHidden(p, next, es[1..]);
    }
  }

  /** With sound off, no sequence of events beeps. */
  lemma {:induction false} SilentWithoutSound(p: Prefs, s: State, es: seq<Event>)
    requires !p.isSoundEnabled
    ensures Run(p, s, es).beeps == s.beeps
    decreases |es|
  {
    if es != [] {
      SilentWithoutSound(p, Step(p, s, es[0]), es[1..]);
    }
  }

  /** While time is left, each firing counts down by one and shows the new time;
      nothing else changes. */
  lemma {:induction false} Countdown(p: Prefs, s: State, k: nat)
    requires s.running && k <= s.timeLeft
    ensures var r := Ticks(p, s, k);
      r.running && r.timeLeft == s.timeLeft - k &&
      r.beeps == s.beeps && r.notifications == s.notifications &&
      r.startHidden == s.startHidden && r.stopHidden == s.stopHidden && r.statusLength == s.statusLength &&
      (k > 0 ==> r.touchBarTitle == TimeLeftString(r.timeLeft) && r.statusBarTitle == TimeLeftString(r.timeLeft))
  {
    if k > 0 {
      Countdown(p, s, k - 1);
    }
  }

  /** From `timeLeft` seconds, the interval completes on firing `timeLeft + 1`: the one
      after `00:00` was shown. */
  lemma Completion(p: Prefs, s: State)
    requires s.running && s.timeLeft >= 0
    ensures var r := Ticks(p, s, s.timeLeft + 1);
      !r.running && r.timeLeft == -1 &&
      r.notifications == s.notifications + [TimeUp] &&
      r.beeps == s.beeps + (if p.isSoundEnabled then 1 else 0) &&
      r.startHidden == s.stopHidden && r.stopHidden == s.startHidden && r.statusLength == VariableLength
  {
    Countdown(p, s, s.timeLeft);
  }

  /** A whole interval of L = intervalLength * 60 seconds, from the click that starts
      it: after k <= L firings it still runs with L - k seconds left and nothing
      notified; firing L shows `00:00`; firing L + 1 completes it with exactly one
      notification and two beeps in all when sound is on (start and finish). */
  lemma IntervalFromStart(p: Prefs, s: State, k: nat)
    requires !s.running && IntervalLengthSeconds(p) >= 0
    ensures var started, L := Toggle(p, s), IntervalLengthSeconds(p);
      (k <= L ==> Ticks(p, started, k).running && Ticks(p, started, k).timeLeft == L - k &&
                  Ticks(p, started, k).notifications == s.notifications) &&
      (1 <= L ==> Ticks(p, started, L).touchBarTitle == "00:00" &&
                  Ticks(p, started, L).statusBarTitle == "00:00") &&
      !Ticks(p, started, L + 1).running &&
      Ticks(p, started, L + 1).notifications == s.notifications + [TimeUp] &&
      Ticks(p, started, L + 1).beeps == s.beeps + (if p.isSoundEnabled then 2 else 0)
  {
    var started, L := Toggle(p, s), IntervalLengthSeconds(p);
    if k <= L {
      Countdown(p, started, k);
    }
    Countdown(p, started, L);
    TimeLeftStringDigits(0);
    Completion(p, started);
  }

  /** One-minute interval with sound: 60 firings leave `00:00` on screen and the
      timer running; firing 61 notifies once and stops it, after two beeps in all. */
  lemma OneMinuteScenario()
    ensures var p := Prefs(1, true);
      var started := Toggle(p, Initial);
      started.running && started.timeLeft == 60 &&
      Ticks(p, started, 60).running && Ticks(p, started, 60).timeLeft == 0 &&
      Ticks(p, started, 60).statusBarTitle == "00:00" &&
      !Ticks(p, started, 61).running &&
      Ticks(p, started, 61).notifications == [TimeUp] &&
      Ticks(p, started, 61).beeps == 2
  {
    var p := Prefs(1, true);
    IntervalFromStart(p, Initial, 60);
    Countdown(p, Toggle(p, Initial), 60);
    TimeLeftStringDigits(0);
  }

  /** Cancelling with 45 seconds left: the timer stops, nothing is notified, and the
      cancel plays one beep. */
  lemma CancelScenario()
    ensures var p := Prefs(1, true);
      var running := Ticks(p, Toggle(p, Initial), 15);
      var cancelled := Toggle(p, running);
      running.running && running.timeLeft == 45 &&
      !cancelled.running && cancelled.notifications == [] &&
      cancelled.beeps == running.beeps + 1
  {
    var p := Prefs(1, true);
    Countdown(p, Toggle(p, Initial), 15);
  }
}
