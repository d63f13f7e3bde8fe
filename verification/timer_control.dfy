/**
 * The lockbox timer: the shared record (`timer_minutes`,
 * `is_timer_running`, `start_time`), the button cycle that edits and
 * starts it, and the servo cycle that expires it.
 *
 * Every access to the record lies inside one of the two critical sections
 * of a single mutex. The button cycle reads its levels before locking and
 * keeps its previous levels to itself, so with the clock reading and the
 * debounced levels as parameters each cycle is one atomic step. A run of the
 * device is any interleaving of the two steps.
 */
module TimerControl {

  import opened GpioInput

  const SecondsPerMinute: int := 60

  /** Servo angles: released (compartment open) and locked. */
  const ServoReleased: int := 0
  const ServoLocked: int := 90

  const DoneMessage: string := "Timer done!"
  const IdleTitle: string := "!REHAB!"
  const IdleMarquee: string := "~~~ Give me your phone ^^!"

  /**
   * What a step asks of the hardware once it has decided: commanding the
   * servo, or one of the display updates. `ShowSet` and `ShowStart` stand
   * for the "Set: D:00" and "Start: D:00" messages, `ShowProgress` for the
   * progress-bar frame and `ScrollMarquee` for the blocking marquee.
   */
  datatype Effect =
    | RotateServo(angle: int)
    | ShowSet(minutes: int)
    | ShowStart(minutes: int)
    | ShowMessage(text: string)
    | ShowProgress(percent: int)
    | ScrollMarquee(text: string)

  /** The shared timer record; `startTime` is in seconds. */
  datatype TimerState = TimerState(minutes: int, running: bool, startTime: int)

  const Initial: TimerState := TimerState(0, false, 0)

  /**
   * The invariant of the record: the duration is never negative, and a
   * running timer has a positive duration (so the servo cycle never
   * divides by zero).
   */
  predicate Inv(t: TimerState)
  {
    t.minutes >= 0 && (t.running ==> t.minutes > 0)
  }

  /** The new record after one step, and what the step asked of the hardware. */
  datatype Step = Step(timer: TimerState, effects: seq<Effect>)

  /** Seconds of the set duration. */
  function Duration(t: TimerState): int
  {
    t.minutes * SecondsPerMinute
  }

  // ---------------------------------------------------------------------
  // Button cycle
  // ---------------------------------------------------------------------

  /** The increase rule: one more minute, only while idle. */
  function IncreaseRule(t: TimerState, pressed: bool): (r: Step)
    // only the duration can change, and only upward by one
    ensures r.timer.running == t.running && r.timer.startTime == t.startTime
    ensures r.timer.minutes == (if pressed && !t.running then t.minutes + 1 else t.minutes)
    // a change is announced with the new duration; no change shows nothing
    ensures r.effects == (if r.timer.minutes != t.minutes then [ShowSet(r.timer.minutes)] else [])
  {
    if pressed && !t.running then
      Step(t.(minutes := t.minutes + 1), [ShowSet(t.minutes + 1)])
    else
      Step(t, [])
  }

  /** The decrease rule: one minute less, only while idle and above zero. */
  function DecreaseRule(t: TimerState, pressed: bool): (r: Step)
    // only the duration can change, and it never goes below zero
    ensures r.timer.running == t.running && r.timer.startTime == t.startTime
    ensures t.minutes >= 0 ==> r.timer.minutes >= 0
    ensures r.timer.minutes == (if pressed && !t.running && t.minutes > 0 then t.minutes - 1 else t.minutes)
    ensures r.effects == (if r.timer.minutes != t.minutes then [ShowSet(r.timer.minutes)] else [])
  {
    if pressed && !t.running && t.minutes > 0 then
      Step(t.(minutes := t.minutes - 1), [ShowSet(t.minutes - 1)])
    else
      Step(t, [])
  }

  /** The start rule: lock the box and start counting, only while idle with a duration set. */
  function StartRule(t: TimerState, pressed: bool, now: int): (r: Step)
    // the duration is never touched; a start needs an idle timer with a positive duration
    ensures r.timer.minutes == t.minutes
    ensures r.timer.running <==> t.running || (pressed && t.minutes > 0)
    ensures r.timer.startTime == (if r.timer.running && !t.running then now else t.startTime)
    ensures r.effects == (if r.timer.running && !t.running then [RotateServo(ServoLocked), ShowStart(t.minutes)] else [])
  {
    if pressed && !t.running && t.minutes > 0 then
      Step(t.(running := true, startTime := now), [RotateServo(ServoLocked), ShowStart(t.minutes)])
    else
      Step(t, [])
  }

  /** Some button saw a press this cycle. */
  predicate AnyPressed(last: Buttons, current: Buttons)
  {
    Pressed(current.start, last.start) || Pressed(current.increase, last.increase)
    || Pressed(current.decrease, last.decrease)
  }

  /**
   * One button cycle: the press of each button is its edge from the
   * previous cycle's level, and the increase, decrease and start rules
   * apply in that order, each to the record the previous one left.
   */
  function ButtonTransition(t: TimerState, last: Buttons, current: Buttons, now: int): (r: Step)
    // the duration never becomes negative, and the record invariant is kept
    ensures t.minutes >= 0 ==> r.timer.minutes >= 0
    ensures Inv(t) ==> Inv(r.timer)
    // nothing is edited while the timer runs
    ensures t.running ==> r == Step(t, [])
    // without a press nothing happens
    ensures !AnyPressed(last, current) ==> r == Step(t, [])
    // the duration moves by at most one minute, up only on an increase press and down only on a decrease press
    ensures -1 <= r.timer.minutes - t.minutes <= 1
    ensures r.timer.minutes > t.minutes ==> Pressed(current.increase, last.increase)
    ensures r.timer.minutes < t.minutes ==> Pressed(current.decrease, last.decrease)
    // an idle timer's duration follows the presses: increase adds a minute, decrease removes one
    // (never below zero), and both in one cycle cancel out
    ensures !t.running && Pressed(current.increase, last.increase) && !Pressed(current.decrease, last.decrease)
            ==> r.timer.minutes == t.minutes + 1
    ensures !t.running && Pressed(current.decrease, last.decrease) && !Pressed(current.increase, last.increase)
            ==> r.timer.minutes == (if t.minutes > 0 then t.minutes - 1 else t.minutes)
    ensures !t.running && t.minutes >= 0 && Pressed(current.increase, last.increase) && Pressed(current.decrease, last.decrease)
            ==> r.timer.minutes == t.minutes
    // every change of the duration is shown with the new value
    ensures r.timer.minutes != t.minutes ==> ShowSet(r.timer.minutes) in r.effects
    // a start press on an idle timer starts it exactly when the (edited) duration is positive
    ensures !t.running && Pressed(current.start, last.start) ==> (r.timer.running <==> r.timer.minutes > 0)
    // starting records the time, locks the servo, and happens only on a start press
    ensures r.timer.running && !t.running ==>
              Pressed(current.start, last.start) && r.timer.startTime == now && RotateServo(ServoLocked) in r.effects
    ensures !r.timer.running || t.running ==> r.timer.startTime == t.startTime
  {
    var inc := IncreaseRule(t, Pressed(current.increase, last.increase));
    var dec := DecreaseRule(inc.timer, Pressed(current.decrease, last.decrease));
    var start := StartRule(dec.timer, Pressed(current.start, last.start), now);
    Step(start.timer, inc.effects + dec.effects + start.effects)
  }

  // ---------------------------------------------------------------------
  // Servo cycle
  // ---------------------------------------------------------------------

  /**
   * `percent_remaining`: the remaining time as a whole percentage of the
   * duration, rounded down.
   */
  function PercentRemaining(minutes: int, remaining: int): (p: int)
    requires minutes > 0 && remaining > 0
    ensures p >= 0
    ensures p * (minutes * SecondsPerMinute) <= remaining * 100 < (p + 1) * (minutes * SecondsPerMinute)
    // at most the whole duration left: at most 100 percent, and 100 exactly at the start
    ensures remaining <= minutes * SecondsPerMinute ==> p <= 100
    ensures p == 100 <== remaining == minutes * SecondsPerMinute
    ensures remaining < minutes * SecondsPerMinute ==> p < 100
  {
    (remaining * 100) / (minutes * SecondsPerMinute)
  }

  /** The effects of an expiry: release the servo, announce it, return to the idle marquee. */
  const ExpiryEffects: seq<Effect> :=
    [RotateServo(ServoReleased), ShowMessage(DoneMessage), ShowMessage(IdleTitle), ScrollMarquee(IdleMarquee)]

  /**
   * One servo cycle: an idle timer is left alone; a running one expires
   * once its duration has elapsed, and otherwise shows its progress.
   */
  function ServoTransition(t: TimerState, now: int): (r: Step)
    requires Inv(t)
    ensures Inv(r.timer)
    ensures !t.running ==> r == Step(t, [])
    // expiry: the timer stops and its duration is cleared
    ensures t.running && now - t.startTime >= Duration(t) ==>
              r.timer == TimerState(0, false, t.startTime) && r.effects == ExpiryEffects
    // before expiry: the record is unchanged and the progress shown lies in [0, 100] once the clock has passed the start
    ensures t.running && now - t.startTime < Duration(t) ==>
              r.timer == t && |r.effects| == 1 && r.effects[0].ShowProgress? && r.effects[0].percent >= 0
              && r.effects == [ShowProgress(PercentRemaining(t.minutes, Duration(t) - (now - t.startTime)))]
              && (now >= t.startTime ==> r.effects[0].percent <= 100)
              && (now == t.startTime ==> r.effects[0].percent == 100)
  {
    if !t.running then
      Step(t, [])
    else
      var elapsed := now - t.startTime;
      var remaining := Duration(t) - elapsed;
      if remaining <= 0 then
        Step(t.(running := false, minutes := 0), ExpiryEffects)
      else
        Step(t, [ShowProgress(PercentRemaining(t.minutes, remaining))])
  }

  // ---------------------------------------------------------------------
  // The device object
  // ---------------------------------------------------------------------

  /**
   * The process state: the three shared globals and the button cycle's
   * three previous levels.
   */
  class Lockbox {
    var timerMinutes: int
    var isTimerRunning: bool
    var startTime: int
    var lastStartLevel: Level
    var lastIncreaseLevel: Level
    var lastDecreaseLevel: Level

    function Timer(): TimerState
      reads this
    {
      TimerState(timerMinutes, isTimerRunning, startTime)
    }

    function Last(): Buttons
      reads this
    {
      Buttons(lastStartLevel, lastIncreaseLevel, lastDecreaseLevel)
    }

    predicate Valid()
      reads this
    {
      Inv(Timer())
    }

    /** Process start: idle, no duration, all buttons taken as released. */
    constructor ()
      ensures Valid()
      ensures Timer() == Initial && Last() == Released
    {
      timerMinutes, isTimerRunning, startTime := 0, false, 0;
      lastStartLevel, lastIncreaseLevel, lastDecreaseLevel := High, High, High;
    }

    /**
     * One cycle of the button loop, given the clock and the three
     * debounced levels read at its start.
     */
    method ButtonStep(now: int, startLevel: Level, increaseLevel: Level, decreaseLevel: Level)
      returns (effects: seq<Effect>)
      modifies this
      ensures Step(Timer(), effects) ==
              ButtonTransition(old(Timer()), old(Last()), Buttons(startLevel, increaseLevel, decreaseLevel), now)
      // the previous levels become this cycle's reads, whatever happened
      ensures Last() == Buttons(startLevel, increaseLevel, decreaseLevel)
      ensures old(Valid()) ==> Valid()
    {
      ghost var pressed := Buttons(startLevel, increaseLevel, decreaseLevel);
      ghost var inc := IncreaseRule(Timer(), Pressed(increaseLevel, lastIncreaseLevel));
      effects := [];
      if increaseLevel == Low && lastIncreaseLevel == High && !isTimerRunning {
        timerMinutes := timerMinutes + 1;
        effects := effects + [ShowSet(timerMinutes)];
      }
      assert Timer() == inc.timer && effects == inc.effects;
      ghost var dec := DecreaseRule(inc.timer, Pressed(decreaseLevel, lastDecreaseLevel));
      if decreaseLevel == Low && lastDecreaseLevel == High && !isTimerRunning && timerMinutes > 0 {
        timerMinutes := timerMinutes - 1;
        effects := effects + [ShowSet(timerMinutes)];
      }
      assert Timer() == dec.timer && effects == inc.effects + dec.effects;
      ghost var start := StartRule(dec.timer, Pressed(startLevel, lastStartLevel), now);
      if startLevel == Low && lastStartLevel == High && !isTimerRunning && timerMinutes > 0 {
        effects := effects + [RotateServo(ServoLocked), ShowStart(timerMinutes)];
        startTime := now;
        isTimerRunning := true;
      }
      assert Step(Timer(), effects) == ButtonTransition(old(Timer()), old(Last()), pressed, now);
      lastStartLevel := startLevel;
      lastIncreaseLevel := increaseLevel;
      lastDecreaseLevel := decreaseLevel;
    }

    /** One cycle of the servo loop, given the clock. */
    method ServoStep(now: int) returns (effects: seq<Effect>)
      requires Valid()
      modifies this
      ensures Valid()
      ensures Step(Timer(), effects) == ServoTransition(old(Timer()), now)
      ensures Last() == old(Last())
    {
      effects := [];
      if isTimerRunning {
        var elapsedTime := now - startTime;
        var remainingTime := timerMinutes * SecondsPerMinute - elapsedTime;
        if remainingTime <= 0 {
          effects := [RotateServo(ServoReleased), ShowMessage(DoneMessage)];
          isTimerRunning := false;
          timerMinutes := 0;
          effects := effects + [ShowMessage(IdleTitle), ScrollMarquee(IdleMarquee)];
        } else {
          var percentRemaining := (remainingTime * 100) / (timerMinutes * SecondsPerMinute);
          effects := [ShowProgress(percentRemaining)];
        }
      }
    }
  }

  // ---------------------------------------------------------------------
  // Runs: interleavings of the two cycles
  // ---------------------------------------------------------------------

  /** The record and the button loop's previous levels. */
  datatype Snapshot = Snapshot(timer: TimerState, last: Buttons)

  /** One atomic cycle of either loop. */
  datatype Event = Poll(now: int, levels: Buttons) | Tick(now: int)

  function Apply(s: Snapshot, e: Event): (r: Snapshot)
    requires Inv(s.timer)
    ensures Inv(r.timer)
  {
    match e
    case Poll(now, levels) => Snapshot(ButtonTransition(s.timer, s.last, levels, now).timer, levels)
    case Tick(now) => Snapshot(ServoTransition(s.timer, now).timer, s.last)
  }

  /** The state after a run of cycles; every reachable record keeps the invariant. */
  function Run(s: Snapshot, events: seq<Event>): (r: Snapshot)
    requires Inv(s.timer)
    ensures Inv(r.timer)
    decreases |events|
  {
    if events == [] then s else Run(Apply(s, events[0]), events[1..])
  }

  lemma {:induction false} RunConcat(s: Snapshot, a: seq<Event>, b: seq<Event>)
    requires Inv(s.timer)
    ensures Run(s, a + b) == Run(Run(s, a), b)
    decreases |a|
  {
    if a == [] {
      assert a + b == b;
    } else {
      assert (a + b)[0] == a[0] && (a + b)[1..] == a[1..] + b;
      RunConcat(Apply(s, a[0]), a[1..], b);
    }
  }

  /**
   * Buttons held at the levels of the previous cycle produce no press, so
   * any number of such cycles leaves the state exactly as it was.
   */
  lemma {:induction false} HeldLevelsChangeNothing(s: Snapshot, events: seq<Event>)
    requires Inv(s.timer)
    requires forall k :: 0 <= k < |events| ==> events[k].Poll? && events[k].levels == s.last
    ensures Run(s, events) == s

    decreases |events|
  {
    if events != [] {
      HeldLevelsChangeNothing(Apply(s, events[0]), events[1..]);
    }
  }

  /** Holding the increase button down for many cycles adds exactly one minute. */
  lemma HeldIncreaseFiresOnce(s: Snapshot, now: int, held: seq<Event>)
    requires Inv(s.timer) && !s.timer.running && s.last == Released
    requires forall k :: 0 <= k < |held| ==> held[k].Poll? && held[k].levels == Buttons(High, Low, High)
    ensures Run(s, [Poll(now, Buttons(High, Low, High))] + held).timer
            == s.timer.(minutes := s.timer.minutes + 1)
  {
    var first := [Poll(now, Buttons(High, Low, High))];
    RunConcat(s, first, held);
    HeldLevelsChangeNothing(Run(s, first), held);
  }

  /** Events that cannot stop a timer due at `deadline`: any poll, or a servo cycle before it. */
  predicate BeforeDeadline(e: Event, deadline: int)
  {
    e.Poll? || e.now < deadline
  }

  /**
   * No false expiry: until its deadline a running timer's record is
   * changed by neither loop.
   */
  lemma {:induction false} RunningUntilDeadline(s: Snapshot, events: seq<Event>)
    requires Inv(s.timer) && s.timer.running
    requires forall k :: 0 <= k < |events| ==> BeforeDeadline(events[k], s.timer.startTime + Duration(s.timer))
    ensures Run(s, events).timer == s.timer

    decreases |events|
  {
    if events != [] {
      RunningUntilDeadline(Apply(s, events[0]), events[1..]);
    }
  }

  /** Servo cycles never change an idle timer. */
  lemma {:induction false} IdleTicksChangeNothing(s: Snapshot, events: seq<Event>)
    requires Inv(s.timer) && !s.timer.running
    requires forall k :: 0 <= k < |events| ==> events[k].Tick?
    ensures Run(s, events) == s

    decreases |events|
  {
    if events != [] {
      IdleTicksChangeNothing(Apply(s, events[0]), events[1..]);
    }
  }

  /**
   * A started timer stops exactly once: it runs unchanged through every
   * cycle before its deadline, the first servo cycle at or after the
   * deadline stops it and clears the duration, and later servo cycles
   * leave it stopped.
   */
  lemma ExpiresExactlyOnce(s: Snapshot, before: seq<Event>, expiry: int, after: seq<Event>)
    requires Inv(s.timer) && s.timer.running
    requires forall k :: 0 <= k < |before| ==> BeforeDeadline(before[k], s.timer.startTime + Duration(s.timer))
    requires expiry >= s.timer.startTime + Duration(s.timer)
    requires forall k :: 0 <= k < |after| ==> after[k].Tick?
    ensures Run(s, before).timer == s.timer
    ensures Run(s, before + [Tick(expiry)]).timer == TimerState(0, false, s.timer.startTime)
    ensures Run(s, before + [Tick(expiry)] + after).timer == TimerState(0, false, s.timer.startTime)
  {
    RunningUntilDeadline(s, before);
    var mid := Run(s, before);
    RunConcat(s, before, [Tick(expiry)]);
    assert Run(mid, [Tick(expiry)]) == Apply(mid, Tick(expiry));
    RunConcat(s, before + [Tick(expiry)], after);
    IdleTicksChangeNothing(Run(s, before + [Tick(expiry)]), after);
  }

  // ---------------------------------------------------------------------
  // Scenarios
  // ---------------------------------------------------------------------

  /** Start pressed with no duration set: no state change and nothing shown. */
  lemma StartWithoutDurationIgnored(startTime: int, now: int)
    ensures ButtonTransition(TimerState(0, false, startTime), Released, Buttons(Low, High, High), now)
            == Step(TimerState(0, false, startTime), [])
  {
  }

  /**
   * Increase and start pressed in the same cycle from zero: the start rule
   * sees the minute just added, so the timer starts with one minute.
   */
  lemma IncreaseAndStartTogether(startTime: int, now: int)
    ensures ButtonTransition(TimerState(0, false, startTime), Released, Buttons(Low, Low, High), now)
            == Step(TimerState(1, true, now), [ShowSet(1), RotateServo(ServoLocked), ShowStart(1)])
  {
  }

  /** Two separate increase presses from process start set two minutes and show "Set: 2:00". */
  lemma IncreaseTwice(t0: int, t1: int, t2: int)
    ensures var s := Run(Snapshot(Initial, Released),
                         [Poll(t0, Buttons(High, Low, High)), Poll(t1, Released)]);
            s.timer.minutes == 1
            && ButtonTransition(s.timer, s.last, Buttons(High, Low, High), t2) == Step(TimerState(2, false, 0), [ShowSet(2)])
  {
    var s0 := Snapshot(Initial, Released);
    var e0, e1 := Poll(t0, Buttons(High, Low, High)), Poll(t1, Released);
    var s1 := Apply(s0, e0);
    assert s1 == Snapshot(TimerState(1, false, 0), Buttons(High, Low, High));
    var s2 := Apply(s1, e1);
    assert s2 == Snapshot(TimerState(1, false, 0), Released);
    assert [e0, e1][1..] == [e1];
    assert Run(s1, [e1]) == Run(s2, []) == s2;
  }

  /**
   * A one-minute timer: the start press locks the servo and shows
   * "Start: 1:00"; sixty seconds later the servo cycle releases the servo,
   * stops the timer and clears the duration.
   */
  lemma OneMinuteRun(startTime: int, now: int)
    ensures ButtonTransition(TimerState(1, false, startTime), Released, Buttons(Low, High, High), now)
            == Step(TimerState(1, true, now), [RotateServo(ServoLocked), ShowStart(1)])
    ensures ServoTransition(TimerState(1, true, now), now + 59).timer == TimerState(1, true, now)
    ensures ServoTransition(TimerState(1, true, now), now + 60) == Step(TimerState(0, false, now), ExpiryEffects)
  {
  }
}
