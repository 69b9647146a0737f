/**
 * The `App` component: its state and its interval handle are fields that
 * its handlers and lifecycle methods change in place. Each method is
 * specified by the step of the countdown state machine it performs.
 */
module Screen {
  import opened Wrappers
  import opened PickerValues
  import Countdown

  class App {
    var remainingSeconds: int
    var isRunning: bool
    var selectedHours: string
    var selectedMinutes: string
    var selectedSeconds: string
    var interval: Option<nat>
    // Platform effects: the intervals still firing, the vibration, the
    // dialogs awaiting a button press and the number of `stop` calls.
    ghost var liveTimers: set<nat>
    ghost var vibrating: bool
    ghost var openAlerts: nat
    ghost var stopCount: nat

    ghost function Model(): Countdown.Engine
      reads this
    {
      Countdown.Engine(remainingSeconds, isRunning, selectedHours, selectedMinutes, selectedSeconds,
                       interval, liveTimers, vibrating, openAlerts, stopCount)
    }

    ghost predicate Valid()
      reads this
    {
      Countdown.Settled(Model())
    }

    /** The initial state: 5 seconds, idle, a selection of 0:0:10, no interval. */
    constructor ()
      ensures Model() == Countdown.Initial() && Valid()
    {
      remainingSeconds := Countdown.DEFAULT_SECONDS;
      isRunning := false;
      selectedHours, selectedMinutes, selectedSeconds := "0", "0", "10";
      interval := None;
      liveTimers := {};
      vibrating := false;
      openAlerts, stopCount := 0, 0;
      new;
    }

    /** Runs after every state update, given the count before it. */
    method ComponentDidUpdate(prevRemaining: int)
      modifies this
      ensures Model() == Countdown.DidUpdate(prevRemaining, old(Model()))
      decreases if remainingSeconds == 0 then 2 else 0
    {
      if remainingSeconds == 0 && prevRemaining != 0 {
        Stop();
      }
    }

    /** The Stop button and the automatic stop at zero. */
    method Stop()
      modifies this
      ensures Model() == Countdown.Stop(old(Model()))
      ensures old(Valid()) ==> Valid() && liveTimers == {}
      decreases 1
    {
      ghost var before := Model();
      var prevRemaining := remainingSeconds;
      liveTimers := Countdown.ClearInterval(liveTimers, interval);
      interval := None;
      remainingSeconds, isRunning := Countdown.DEFAULT_SECONDS, false;
      vibrating := true;
      openAlerts, stopCount := openAlerts + 1, stopCount + 1;
      assert Model() == before.(interval := None, liveTimers := Countdown.ClearInterval(before.liveTimers, before.interval),
                                remainingSeconds := Countdown.DEFAULT_SECONDS, isRunning := false, vibrating := true,
                                openAlerts := before.openAlerts + 1, stopCount := before.stopCount + 1);
      ComponentDidUpdate(prevRemaining);
      assert Model() == Countdown.Stop(before);
      if Countdown.Settled(before) {
        Countdown.StopKeepsSettled(before);
      }
    }

    /** The Start button, offered only while idle; `handle` is what `setInterval` returned. */
    method Start(handle: nat)
      requires Valid() && !isRunning && handle > 0
      modifies this
      ensures Valid()
      ensures Model() == Countdown.Start(old(Model()), handle)
    {
      ghost var before := Model();
      Countdown.StartKeepsSettled(before, handle);
      var prevRemaining := remainingSeconds;
      var seed := Countdown.SeedSeconds(selectedHours, selectedMinutes, selectedSeconds);
      remainingSeconds, isRunning := seed.value, true;
      interval := Some(handle);
      liveTimers := liveTimers + {handle};
      assert Model() == before.(remainingSeconds := seed.value, isRunning := true,
                                interval := Some(handle), liveTimers := before.liveTimers + {handle});
      ComponentDidUpdate(prevRemaining);
    }

    /** One firing of the interval installed by `Start`. */
    method IntervalFired()
      requires Valid() && liveTimers != {}
      modifies this
      ensures Valid()
      ensures Model() == Countdown.Tick(old(Model()))
    {
      ghost var before := Model();
      var prevRemaining := remainingSeconds;
      remainingSeconds := remainingSeconds - 1;
      ComponentDidUpdate(prevRemaining);
      Countdown.TickKeepsSettled(before);
    }

    /** A picker's `onValueChange` with one of the values that picker offers. */
    method OnValueChange(dial: Countdown.Dial, value: string)
      requires Valid() && IsPickerValue(value, Countdown.DialRange(dial))
      modifies this
      ensures Valid()
      ensures Model() == Countdown.Select(old(Model()), dial, value)
    {
      ghost var before := Model();
      var prevRemaining := remainingSeconds;
      match dial {
        case Hours =>
          selectedHours := value;
          assert Model() == before.(selectedHours := value);
        case Minutes =>
          selectedMinutes := value;
          assert Model() == before.(selectedMinutes := value);
        case Seconds =>
          selectedSeconds := value;
          assert Model() == before.(selectedSeconds := value);
      }
      ghost var chosen := Model();
      assert chosen == Countdown.Select(before, dial, value);
      ComponentDidUpdate(prevRemaining);
      assert Model() == chosen;
      Countdown.SelectKeepsSettled(before, dial, value);
    }

    /** A button of the "Your time is up!" dialog. */
    method PressAlertButton(button: Countdown.AlertButton)
      requires openAlerts > 0
      modifies this
      ensures Model() == Countdown.Acknowledge(old(Model()), button)
      ensures old(Valid()) ==> Valid()
    {
      match button {
        case Cancel => Silence();
        case Ok => Silence();
      }
    }

    /** `Vibration.cancel()` and stopping the alert sound. */
    method Silence()
      requires openAlerts > 0
      modifies this
      ensures Model() == Countdown.Silence(old(Model()))
    {
      vibrating := false;
      openAlerts := openAlerts - 1;
    }

    method ComponentWillUnmount()
      modifies this
      ensures Model() == Countdown.Unmount(old(Model()))
      ensures old(Valid()) ==> liveTimers == {}
    {
      if interval.Some? && interval.value != 0 {
        liveTimers := Countdown.ClearInterval(liveTimers, interval);
      }
    }
  }

  /**
   * Letting a running countdown's interval fire until the screen is idle:
   * it stops exactly once and ends with the default count and no interval.
   */
  method RunUntilStopped(app: App)
    requires app.Valid() && app.isRunning
    modifies app
    ensures app.Valid() && !app.isRunning && app.remainingSeconds == Countdown.DEFAULT_SECONDS
    ensures app.stopCount == old(app.stopCount) + 1 && app.liveTimers == {}
  {
    while app.isRunning
      invariant app.Valid()
      invariant app.stopCount == old(app.stopCount) + (if app.isRunning then 0 else 1)
      decreases app.isRunning, app.remainingSeconds
    {
      app.IntervalFired();
    }
  }
}
