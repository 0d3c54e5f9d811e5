/** `TomatoBarController` as an object whose methods update its fields in place. Each
    method's new state is the corresponding transition of the `Pomodoro` state machine
    applied to the old state, so every property proved there holds of the object. */
module TomatoBar {
  import opened Format
  import Pomodoro

  class TomatoBarController {
    /** Preference `intervalLength`, in minutes. */
    const intervalLength: int
    /** Preference `isSoundEnabled`. */
    const isSoundEnabled: bool

    /** Whether a timer exists (`timer != nil`). */
    var running: bool
    /** Seconds left in the running interval. */
    var timeLeft: int
    var startMenuItemHidden: bool
    var stopMenuItemHidden: bool
    var statusItemLength: Pomodoro.StatusLength
    var touchBarButtonTitle: string
    var statusBarButtonTitle: string
    /** Number of `NSSound.beep()` calls so far. */
    var beeps: nat
    /** Notifications delivered so far, oldest first. */
    var delivered: seq<Pomodoro.Notification>

    function Preferences(): Pomodoro.Prefs
    {
      Pomodoro.Prefs(intervalLength, isSoundEnabled)
    }

    function Snapshot(): Pomodoro.State
      reads this
    {
      Pomodoro.State(running, timeLeft, startMenuItemHidden, stopMenuItemHidden, statusItemLength,
                     touchBarButtonTitle, statusBarButtonTitle, beeps, delivered)
    }

    ghost predicate Valid()
      reads this
    {
      Pomodoro.Inv(Preferences(), Snapshot())
    }

    /** The controller once its view has loaded: no timer, `timeLeft` 0, the Start item
        shown and the Stop item hidden, a variable-width status item. */
    constructor (intervalLength: int, isSoundEnabled: bool)
      ensures this.intervalLength == intervalLength && this.isSoundEnabled == isSoundEnabled
      ensures Valid() && Snapshot() == Pomodoro.Initial
    {
      this.intervalLength := intervalLength;
      this.isSoundEnabled := isSoundEnabled;
      running := false;
      timeLeft := 0;
      startMenuItemHidden, stopMenuItemHidden := false, true;
      statusItemLength := Pomodoro.VariableLength;
      touchBarButtonTitle, statusBarButtonTitle := "", "";
      beeps := 0;
      delivered := [];
    }

    /** The same with the registered defaults: 25 minutes, sound on. */
    constructor WithDefaults()
      ensures Preferences() == Pomodoro.DefaultPrefs
      ensures Valid() && Snapshot() == Pomodoro.Initial
    {
      intervalLength := 25;
      isSoundEnabled := true;
      running := false;
      timeLeft := 0;
      startMenuItemHidden, stopMenuItemHidden := false, true;
      statusItemLength := Pomodoro.VariableLength;
      touchBarButtonTitle, statusBarButtonTitle := "", "";
      beeps := 0;
      delivered := [];
    }

    /** Click on the Touch Bar button or on the Start or Stop menu item. */
    method StartStopAction()
      requires Valid()
      modifies this
      ensures Valid() && running == !old(running)
      ensures Snapshot() == Pomodoro.Toggle(Preferences(), old(Snapshot()))
    {
      if !running {
        Start();
      } else {
        Cancel();
      }
    }

    method Start()
      requires Valid() && !running
      modifies this
      ensures Valid() && running && timeLeft == intervalLength * 60
      ensures Snapshot() == Pomodoro.Start(Preferences(), old(Snapshot()))
    {
      startMenuItemHidden, stopMenuItemHidden := stopMenuItemHidden, startMenuItemHidden;
      statusItemLength := Pomodoro.Fixed(Pomodoro.RunningStatusLength);
      timeLeft := Pomodoro.IntervalLengthSeconds(Preferences());
      running := true;
      PlaySound();
    }

    /** Completion: notify, tear down, beep. Called from `Tick` once the time has gone
        negative, so only the UI half of the invariant holds on entry. */
    method Finish()
      requires running && Pomodoro.UiConsistent(Snapshot())
      modifies this
      ensures Valid() && !running && delivered == old(delivered) + [Pomodoro.TimeUp]
      ensures Snapshot() == Pomodoro.Finish(Preferences(), old(Snapshot()))
    {
      SendNotification();
      Reset();
      PlaySound();
    }

    method Cancel()
      requires Valid() && running
      modifies this
      ensures Valid() && !running && delivered == old(delivered) && timeLeft == old(timeLeft)
      ensures Snapshot() == Pomodoro.Cancel(Preferences(), old(Snapshot()))
    {
      Reset();
      PlaySound();
    }

    /** Drops the timer, swaps the menu items back and lets the status item size itself;
        `timeLeft` is left as it was. */
    method Reset()
      modifies this
      ensures Snapshot() == Pomodoro.Reset(old(Snapshot()))
    {
      running := false;
      startMenuItemHidden, stopMenuItemHidden := stopMenuItemHidden, startMenuItemHidden;
      statusItemLength := Pomodoro.VariableLength;
    }

    /** The timer's handler, run once a second while a timer exists. */
    method Tick()
      requires Valid() && running
      modifies this
      ensures Valid() && timeLeft == old(timeLeft) - 1 && (running <==> timeLeft >= 0)
      ensures Snapshot() == Pomodoro.Tick(Preferences(), old(Snapshot()))
    {
      timeLeft := timeLeft - 1;
      if timeLeft >= 0 {
        touchBarButtonTitle := TimeLeftString(timeLeft);
        statusBarButtonTitle := TimeLeftString(timeLeft);
      } else {
        Finish();
      }
    }

    method PlaySound()
      modifies this
      ensures beeps == old(beeps) + (if isSoundEnabled then 1 else 0)
      ensures Snapshot() == Pomodoro.PlaySound(Preferences(), old(Snapshot()))
    {
      if !isSoundEnabled {
        return;
      }
      beeps := beeps + 1;
    }

    method SendNotification()
      modifies this
      ensures Snapshot() == Pomodoro.SendNotification(old(Snapshot()))
    {
      delivered := delivered + [Pomodoro.TimeUp];
    }
  }
}
