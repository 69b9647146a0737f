/**
 * The countdown state machine of the `App` screen, on values: each user
 * action, interval firing and lifecycle call is a function from one snapshot
 * of the screen to the next. React's `setState` followed by
 * `componentDidUpdate` is one step: the update is applied, then
 * `componentDidUpdate` compares the new `remainingSeconds` with the previous one.
 */
module Countdown {
  import opened Wrappers
  import opened Decimal
  import opened TimeFormat
  import opened PickerValues

  /** The value `remainingSeconds` starts with and that `stop` restores. */
  const DEFAULT_SECONDS: int := 5

  /** The three dial pickers. */
  datatype Dial = Hours | Minutes | Seconds

  /** The two buttons of the "Your time is up!" dialog. */
  datatype AlertButton = Cancel | Ok

  /**
   * A snapshot of the screen: React state, the interval handle, and the
   * platform effects (`liveTimers` are the intervals the platform still
   * fires; `vibrating`, `openAlerts` and `stopCount` record the vibration,
   * the dialogs awaiting acknowledgement and the number of `stop` calls).
   */
  datatype Engine = Engine(
    remainingSeconds: int,
    isRunning: bool,
    selectedHours: string,
    selectedMinutes: string,
    selectedSeconds: string,
    interval: Option<nat>,
    liveTimers: set<nat>,
    vibrating: bool,
    openAlerts: nat,
    stopCount: nat)

  /**
   * The state a new screen starts in: 5 seconds, idle, a selection of
   * 0:0:10 and no interval. It is settled, and its selection seeds 10 seconds.
   */
  function Initial(): (r: Engine)
    ensures Settled(r) && !r.isRunning && r.liveTimers == {}
    ensures Seed(r) == Some(10)
  {
    DefaultSelectionIsDecimal();
    PickerOffers(0, 24);
    PickerOffers(0, 60);
    PickerOffers(10, 60);
    SeedOfDecimals(0, 0, 10);
    Engine(DEFAULT_SECONDS, false, "0", "0", "10", None, {}, false, 0, 0)
  }

  /** How many values each picker offers: `AVAILABLE_HOURS`, `AVAILABLE_MINUTES`, `AVAILABLE_SECONDS`. */
  function DialRange(dial: Dial): nat {
    match dial
    case Hours => 24
    case Minutes => 60
    case Seconds => 60
  }

  function Selected(e: Engine, dial: Dial): string {
    match dial
    case Hours => e.selectedHours
    case Minutes => e.selectedMinutes
    case Seconds => e.selectedSeconds
  }

  /**
   * The invariant of every state the screen rests in between events: a
   * running countdown has a positive count and exactly one live interval,
   * the one it holds; an idle screen shows the default and has no live
   * interval; every selection is a value its picker offers.
   */
  predicate Settled(e: Engine) {
    && e.remainingSeconds >= 0
    && (e.isRunning <==> e.interval.Some?)
    && (e.isRunning ==> e.remainingSeconds > 0 && e.interval.value > 0)
    && (!e.isRunning ==> e.remainingSeconds == DEFAULT_SECONDS)
    && e.liveTimers == (if e.isRunning then {e.interval.value} else {})
    && IsPickerValue(e.selectedHours, 24)
    && IsPickerValue(e.selectedMinutes, 60)
    && IsPickerValue(e.selectedSeconds, 60)
  }

  /** `clearInterval(handle)`: a null handle clears nothing. */
  function ClearInterval(timers: set<nat>, handle: Option<nat>): (r: set<nat>)
    ensures forall t :: t in r <==> t in timers && handle != Some(t)
  {
    match handle
    case None => timers
    case Some(id) => timers - {id}
  }

  /** The count `start` seeds from the three selections; None where `parseInt` gives NaN. */
  function SeedSeconds(hours: string, minutes: string, seconds: string): (r: Option<int>)
    ensures r.Some? <==> ParseInt(hours).Some? && ParseInt(minutes).Some? && ParseInt(seconds).Some?
    ensures r.Some? ==> r.value == ParseInt(hours).value * 3600 + ParseInt(minutes).value * 60 + ParseInt(seconds).value
    ensures IsPickerValue(hours, 24) && IsPickerValue(minutes, 60) && IsPickerValue(seconds, 60) ==>
      r.Some? && 0 <= r.value <= 86399
  {
    match (ParseInt(hours), ParseInt(minutes), ParseInt(seconds))
    case (Some(h), Some(m), Some(s)) => Some(h * 3600 + m * 60 + s)
    case _ => None
  }

  function Seed(e: Engine): Option<int> {
    SeedSeconds(e.selectedHours, e.selectedMinutes, e.selectedSeconds)
  }

  /** `componentDidUpdate`: stop when the count has just become zero, and only then. */
  function DidUpdate(prevRemaining: int, e: Engine): (r: Engine)
    ensures e.remainingSeconds == 0 && prevRemaining != 0 ==>
      && r.remainingSeconds == DEFAULT_SECONDS && !r.isRunning && r.interval == None
      && r.liveTimers == ClearInterval(e.liveTimers, e.interval) && r.stopCount == e.stopCount + 1
      && r.vibrating && r.openAlerts == e.openAlerts + 1
      && r.selectedHours == e.selectedHours && r.selectedMinutes == e.selectedMinutes
      && r.selectedSeconds == e.selectedSeconds
    ensures !(e.remainingSeconds == 0 && prevRemaining != 0) ==> r == e
    decreases if e.remainingSeconds == 0 then 2 else 0
  {
    if e.remainingSeconds == 0 && prevRemaining != 0 then Stop(e) else e
  }

  /**
   * `stop`, from any state: clear the interval, reset the count and the
   * running flag, start the vibration and show the dialog. Its own update
   * restores the default of 5, which is not 0, so the `componentDidUpdate`
   * that follows does not stop again.
   */
  function Stop(e: Engine): (r: Engine)
    ensures r.interval == None && r.liveTimers == ClearInterval(e.liveTimers, e.interval)
    ensures r.remainingSeconds == DEFAULT_SECONDS && !r.isRunning
    ensures r.vibrating && r.openAlerts == e.openAlerts + 1 && r.stopCount == e.stopCount + 1
    ensures r.selectedHours == e.selectedHours && r.selectedMinutes == e.selectedMinutes
    ensures r.selectedSeconds == e.selectedSeconds
    decreases 1
  {
    var stopped := e.(interval := None,
                      liveTimers := ClearInterval(e.liveTimers, e.interval),
                      remainingSeconds := DEFAULT_SECONDS,
                      isRunning := false,
                      vibrating := true,
                      openAlerts := e.openAlerts + 1,
                      stopCount := e.stopCount + 1);
    DidUpdate(e.remainingSeconds, stopped)
  }

  /**
   * `start`: seed the count from the selections, mark the screen running and
   * install the interval `handle` the platform returned; `componentDidUpdate`
   * runs after the handler, so the interval is already installed when a zero
   * selection stops the countdown at once.
   */
  function Start(e: Engine, handle: nat): (r: Engine)
    requires Seed(e).Some?
    ensures r.selectedHours == e.selectedHours && r.selectedMinutes == e.selectedMinutes
    ensures r.selectedSeconds == e.selectedSeconds
    ensures Seed(e).value != 0 || e.remainingSeconds == 0 ==>
      && r.remainingSeconds == Seed(e).value && r.isRunning && r.interval == Some(handle)
      && r.liveTimers == e.liveTimers + {handle} && r.stopCount == e.stopCount
      && r.vibrating == e.vibrating && r.openAlerts == e.openAlerts
    ensures Seed(e).value == 0 && e.remainingSeconds != 0 ==>
      && r.remainingSeconds == DEFAULT_SECONDS && !r.isRunning && r.interval == None
      && r.liveTimers == e.liveTimers - {handle} && r.stopCount == e.stopCount + 1
      && r.vibrating && r.openAlerts == e.openAlerts + 1
  {
    var installed := e.(remainingSeconds := Seed(e).value,
                        isRunning := true,
                        interval := Some(handle),
                        liveTimers := e.liveTimers + {handle});
    DidUpdate(e.remainingSeconds, installed)
  }

  /** One firing of the interval: decrement the count, then `componentDidUpdate`. */
  function Tick(e: Engine): (r: Engine)
    ensures e.remainingSeconds != 1 ==> r == e.(remainingSeconds := e.remainingSeconds - 1)
    ensures e.remainingSeconds == 1 ==> r == Stop(e.(remainingSeconds := 0))
  {
    DidUpdate(e.remainingSeconds, e.(remainingSeconds := e.remainingSeconds - 1))
  }

  /** A picker's `onValueChange`: store the chosen value, then `componentDidUpdate`. */
  function Select(e: Engine, dial: Dial, value: string): (r: Engine)
    ensures Selected(r, dial) == value
    ensures forall other: Dial | other != dial :: Selected(r, other) == Selected(e, other)
    ensures r.(selectedHours := e.selectedHours,
               selectedMinutes := e.selectedMinutes,
               selectedSeconds := e.selectedSeconds) == e
  {
    var chosen := match dial
      case Hours => e.(selectedHours := value)
      case Minutes => e.(selectedMinutes := value)
      case Seconds => e.(selectedSeconds := value);
    DidUpdate(e.remainingSeconds, chosen)
  }

  /** What both dialog buttons do: cancel the vibration and close the dialog. */
  function Silence(e: Engine): (r: Engine)
    requires e.openAlerts > 0
    ensures !r.vibrating && r.openAlerts == e.openAlerts - 1
    ensures r.(vibrating := e.vibrating, openAlerts := e.openAlerts) == e
  {
    e.(vibrating := false, openAlerts := e.openAlerts - 1)
  }

  /** Pressing a dialog button; "Cancel" and "OK" have the same handler. */
  function Acknowledge(e: Engine, button: AlertButton): (r: Engine)
    requires e.openAlerts > 0
    ensures !r.vibrating && r.openAlerts == e.openAlerts - 1
    ensures r.(vibrating := e.vibrating, openAlerts := e.openAlerts) == e
  {
    match button
    case Cancel => Silence(e)
    case Ok => Silence(e)
  }

  /** `componentWillUnmount`: clear the interval when the handle is truthy (non-null, non-zero). */
  function Unmount(e: Engine): (r: Engine)
    ensures forall t :: t in r.liveTimers <==> t in e.liveTimers && !(e.interval == Some(t) && t != 0)
    ensures r.(liveTimers := e.liveTimers) == e
  {
    match e.interval
    case Some(id) => if id != 0 then e.(liveTimers := ClearInterval(e.liveTimers, e.interval)) else e
    case None => e
  }

  /** `k` firings of the interval; once no interval is live, nothing fires. */
  function Ticks(e: Engine, k: nat): Engine
    decreases k
  {
    if k == 0 || e.liveTimers == {} then e else Ticks(Tick(e), k - 1)
  }

  // ---------------------------------------------------------------------
  // Properties

  /** Auto-stop is edge-triggered: it fires only on the update that takes the count to zero. */
  lemma AutoStopIsEdgeTriggered(prevRemaining: int, e: Engine)
    ensures var r := DidUpdate(prevRemaining, e);
      r.stopCount == e.stopCount + (if e.remainingSeconds == 0 && prevRemaining != 0 then 1 else 0)
    ensures e.remainingSeconds == 0 && prevRemaining != 0 ==> DidUpdate(prevRemaining, e).remainingSeconds != 0
    ensures !(e.remainingSeconds == 0 && prevRemaining != 0) ==> DidUpdate(prevRemaining, e) == e
  {
  }

  /** The default selections "0", "0" and "10" are decimal forms. */
  lemma DefaultSelectionIsDecimal()
    ensures ToDecimal(0) == "0" && ToDecimal(10) == "10"
  {
    assert DigitChar(0) == '0' && DigitChar(1) == '1';
    assert ToDecimal(10) == ToDecimal(1) + [DigitChar(0)];
  }

  /**
   * Selecting h hours, m minutes and s seconds seeds h*3600 + m*60 + s
   * seconds, at most 23:59:59, and the readout then shows the selection.
   */
  lemma SeedOfSelection(h: nat, m: nat, s: nat)
    requires h < 24 && m < 60 && s < 60
    ensures SeedSeconds(ToDecimal(h), ToDecimal(m), ToDecimal(s)) == Some(h * 3600 + m * 60 + s)
    ensures 0 <= h * 3600 + m * 60 + s <= 86399
    ensures GetRemaining(h * 3600 + m * 60 + s) == Remaining(FormatNumber(h), FormatNumber(m), FormatNumber(s))
  {
    assert h * 3600 + m * 60 + s <= 23 * 3600 + 59 * 60 + 59;
    SeedOfDecimals(h, m, s);
    GetRemainingOfClock(h, m, s);
  }

  lemma SeedOfDecimals(h: nat, m: nat, s: nat)
    ensures SeedSeconds(ToDecimal(h), ToDecimal(m), ToDecimal(s)) == Some(h * 3600 + m * 60 + s)
  {
    ParseIntRoundTrip(h);
    ParseIntRoundTrip(m);
    ParseIntRoundTrip(s);
    var r := SeedSeconds(ToDecimal(h), ToDecimal(m), ToDecimal(s));
    assert r.Some?;
    assert r.value == h * 3600 + m * 60 + s;
  }

  /** In a settled state the selections always seed a count between 0 and 23:59:59. */
  lemma SettledSeed(e: Engine)
    requires Settled(e)
    ensures Seed(e).Some? && 0 <= Seed(e).value <= 86399
  {
    var h, m, s := ParseInt(e.selectedHours).value, ParseInt(e.selectedMinutes).value, ParseInt(e.selectedSeconds).value;
    SeedOfSelection(h, m, s);
  }

  /**
   * `start` from an idle screen with a fresh handle: a positive seed runs
   * the countdown on that one interval; a zero seed stops at once and clears
   * the interval it has just installed. The selections are left as they were.
   */
  lemma StartFromIdle(e: Engine, handle: nat)
    requires Settled(e) && !e.isRunning && handle > 0
    ensures Seed(e).Some?
    ensures var r := Start(e, handle); var seed := Seed(e).value;
      && r.selectedHours == e.selectedHours
      && r.selectedMinutes == e.selectedMinutes
      && r.selectedSeconds == e.selectedSeconds
      && (seed > 0 ==> r == e.(remainingSeconds := seed, isRunning := true,
                               interval := Some(handle), liveTimers := {handle}))
      && (seed == 0 ==> !r.isRunning && r.remainingSeconds == DEFAULT_SECONDS && r.liveTimers == {}
                        && r.stopCount == e.stopCount + 1)
  {
    SettledSeed(e);
  }

  lemma StartKeepsSettled(e: Engine, handle: nat)
    requires Settled(e) && !e.isRunning && handle > 0
    ensures Seed(e).Some? && Settled(Start(e, handle))
  {
    StartFromIdle(e, handle);
  }

  /**
   * `start` does not clear a handle it overwrites: started while running, the
   * old interval stays live, no field refers to it any more, and no later
   * `stop` can clear it. The screen only offers Start while idle.
   */
  lemma StartWhileRunningLeaksTimer(e: Engine, handle: nat)
    requires Settled(e) && e.isRunning && handle != e.interval.value
    ensures Seed(e).Some?
    ensures var r := Start(e, handle);
      && e.interval.value in r.liveTimers
      && r.interval != e.interval
      && e.interval.value in Stop(r).liveTimers
  {
    SettledSeed(e);
  }

  lemma TickKeepsSettled(e: Engine)
    requires Settled(e) && e.liveTimers != {}
    ensures Settled(Tick(e))
  {
  }

  /** `stop` from any settled state leaves it settled, idle and with no live interval. */
  lemma StopKeepsSettled(e: Engine)
    requires Settled(e)
    ensures Settled(Stop(e)) && Stop(e).liveTimers == {}
  {
  }

  lemma SelectKeepsSettled(e: Engine, dial: Dial, value: string)
    requires Settled(e) && IsPickerValue(value, DialRange(dial))
    ensures Settled(Select(e, dial, value))
  {
  }

  /** Either dialog button silences the vibration, however many dialogs are open, and the two agree. */
  lemma AcknowledgeSilences(e: Engine, button: AlertButton)
    requires Settled(e) && e.openAlerts > 0
    ensures Settled(Acknowledge(e, button)) && !Acknowledge(e, button).vibrating
    ensures Acknowledge(e, button) == Acknowledge(e, Cancel) == Acknowledge(e, Ok)
  {
  }

  /** After `stop`, acknowledging the dialog by either button turns the vibration off again. */
  lemma StopThenAcknowledge(e: Engine, button: AlertButton)
    ensures Stop(e).openAlerts > 0
    ensures var r := Acknowledge(Stop(e), button);
      !r.vibrating && r.openAlerts == e.openAlerts && r.stopCount == e.stopCount + 1
  {
  }

  /**
   * Unmounting a running screen clears its interval but leaves the running
   * flag and the handle as they were: the unmounted screen is not settled.
   */
  lemma UnmountWhileRunningEndsInvariant(e: Engine)
    requires Settled(e) && e.isRunning
    ensures Unmount(e).isRunning && Unmount(e).interval == e.interval && Unmount(e).liveTimers == {}
    ensures !Settled(Unmount(e))
  {
  }

  /** Unmounting a settled screen leaves no interval firing. */
  lemma UnmountClearsTimers(e: Engine)
    requires Settled(e)
    ensures Unmount(e).liveTimers == {}
    ensures Unmount(e).(liveTimers := e.liveTimers) == e
  {
  }

  /** Before the count reaches zero, each firing takes exactly one second off and nothing else. */
  lemma {:induction false} TicksCountDown(e: Engine, k: nat)
    requires e.liveTimers != {} && k < e.remainingSeconds
    ensures Ticks(e, k) == e.(remainingSeconds := e.remainingSeconds - k)
    decreases k
  {
    if k > 0 {
      var next := Tick(e);
      assert next == e.(remainingSeconds := e.remainingSeconds - 1);
      TicksCountDown(next, k - 1);
      assert next.(remainingSeconds := next.remainingSeconds - (k - 1))
          == e.(remainingSeconds := e.remainingSeconds - k);
    }
  }

  /** The firing that reaches zero stops the countdown, and no firing follows it. */
  lemma {:induction false} TicksStopOnce(e: Engine, k: nat)
    requires e.interval.Some? && e.liveTimers == {e.interval.value} && 0 < e.remainingSeconds <= k
    ensures Ticks(e, k) == Stop(e.(remainingSeconds := 0))
    decreases k
  {
    var next := Tick(e);
    if e.remainingSeconds == 1 {
      assert next == Stop(e.(remainingSeconds := 0));
      assert next.liveTimers == {};
    } else {
      assert next == e.(remainingSeconds := e.remainingSeconds - 1);
      TicksStopOnce(next, k - 1);
      assert next.(remainingSeconds := 0) == e.(remainingSeconds := 0);
    }
  }

  /**
   * A countdown started from an idle screen with total T stops exactly once:
   * after T firings when T > 0, at once when T is 0 (the previous count was
   * the default 5). Until then it counts T, T-1, ..., 1 without any stop;
   * it never goes negative, and every state on the way is settled.
   */
  lemma CountdownStopsExactlyOnce(e: Engine, handle: nat)
    requires Settled(e) && !e.isRunning && handle > 0
    ensures Seed(e).Some?
    ensures var s := Start(e, handle); var total := Seed(e).value;
      && (forall k: nat | k < total ::
            Ticks(s, k).isRunning && Ticks(s, k).remainingSeconds == total - k
            && Ticks(s, k).stopCount == e.stopCount)
      && (forall k: nat | k >= total ::
            !Ticks(s, k).isRunning && Ticks(s, k).remainingSeconds == DEFAULT_SECONDS
            && Ticks(s, k).liveTimers == {} && Ticks(s, k).stopCount == e.stopCount + 1)
      && (forall k: nat :: Settled(Ticks(s, k)))
  {
    StartFromIdle(e, handle);
    var s := Start(e, handle);
    var total := Seed(e).value;
    forall k: nat | k < total
      ensures Ticks(s, k).isRunning && Ticks(s, k).remainingSeconds == total - k
      ensures Ticks(s, k).stopCount == e.stopCount
    {
      TicksCountDown(s, k);
    }
    forall k: nat | k >= total
      ensures !Ticks(s, k).isRunning && Ticks(s, k).remainingSeconds == DEFAULT_SECONDS
      ensures Ticks(s, k).liveTimers == {} && Ticks(s, k).stopCount == e.stopCount + 1
    {
      if total > 0 {
        TicksStopOnce(s, k);
      }
    }
    forall k: nat
      ensures Settled(Ticks(s, k))
    {
      if k < total {
        TicksCountDown(s, k);
      } else if total > 0 {
        TicksStopOnce(s, k);
      }
    }
  }

  /** The screen's first countdown, 0:0:10, runs ten seconds and stops once. */
  lemma DefaultSelectionRunsTenSeconds(handle: nat)
    requires handle > 0
    ensures Start(Initial(), handle).remainingSeconds == 10
    ensures Ticks(Start(Initial(), handle), 10).stopCount == 1
  {
    CountdownStopsExactlyOnce(Initial(), handle);
  }
}
