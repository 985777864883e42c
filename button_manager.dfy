/**
 * The button of main/button_manager.c: an edge interrupt with a debounce
 * window that queues the pin, a task that classifies each queued edge by the
 * level it reads, and an auto-reload timer that reports a long press while
 * the button is still held. Ticks are FreeRTOS TickType_t values, 32 bits
 * wide, at the default rate of 100 Hz.
 */
module ButtonManager {
  import opened Esp

  /** configTICK_RATE_HZ. */
  const TickRateHz := 100

  /** pdMS_TO_TICKS. */
  function MsToTicks(ms: nat): nat
  {
    ms * TickRateHz / 1000
  }

  /** BUTTON_DEBOUNCE_TICK, BUTTON_LONG_PRESS_TICK and the timer period. */
  const DebounceTicks := MsToTicks(90)
  const LongPressTicks := MsToTicks(3000)
  const TimerPeriodTicks := MsToTicks(100)

  /**
   * At 100 Hz the debounce window is 9 ticks, a long press 300 ticks and the
   * timer period 10 ticks, so a long press is noticed at most one period late.
   */
  lemma TickThresholds()
    ensures DebounceTicks == 9 && LongPressTicks == 300 && TimerPeriodTicks == 10
    ensures LongPressTicks % TimerPeriodTicks == 0 && DebounceTicks < TimerPeriodTicks
  {
  }

  /** The depth of gpio_evt_queue. */
  const QueueLength := 10

  /** The level of GPIO 0 while the button is held (BUTTON_GPIO, compared as a level). */
  const PressedLevel := 0

  const TickModulus := 0x1_0000_0000

  predicate IsTick(t: int)
  {
    0 <= t < TickModulus
  }

  /** now - since in TickType_t arithmetic: correct across a wrap of the counter. */
  function Elapsed(now: int, since: int): (d: int)
    requires IsTick(now) && IsTick(since)
    ensures IsTick(d)
    ensures now >= since ==> d == now - since
    ensures now < since ==> d == now - since + TickModulus
  {
    Uint32Of(now - since)
  }

  /** press_start_tick, long_press_detected and whether long_press_timer runs. */
  datatype ButtonState = ButtonState(pressStartTick: int, longPressDetected: bool, timerRunning: bool)
  {
    predicate Valid()
    {
      IsTick(pressStartTick)
    }
  }

  /**
   * What happens after the interrupt: the task reads the level of a queued
   * edge, or the timer fires; each carries the tick count and the pin level
   * at that moment.
   */
  datatype Step = Reading(level: int, now: int) | TimerTick(now: int, level: int)
  {
    predicate Valid()
    {
      IsTick(now)
    }
  }

  /**
   * button_task for one queued edge. Pressed: a new press starts and the
   * timer runs. Released: the timer stops and, unless the timer already
   * reported it, the press since press_start_tick is LONG, SHORT or nothing
   * by its duration. With `intended`, a release also marks the press as
   * reported, so that a second release reading does not classify it again.
   */
  function OnReading(s: ButtonState, level: int, now: int, intended: bool): (r: (ButtonState, seq<Event>))
    requires s.Valid() && IsTick(now)
    ensures r.0.Valid() && |r.1| <= 1
    ensures level == PressedLevel ==> r.0 == ButtonState(now, false, true) && r.1 == []
    ensures level != PressedLevel ==> !r.0.timerRunning && r.0.pressStartTick == s.pressStartTick
    ensures level != PressedLevel && s.longPressDetected ==> r.1 == []
    ensures level != PressedLevel && !s.longPressDetected ==>
              r.1 == (if Elapsed(now, s.pressStartTick) >= LongPressTicks then [ButtonLongPress]
                      else if Elapsed(now, s.pressStartTick) >= DebounceTicks then [ButtonShortPress]
                      else [])
  {
    if level == PressedLevel then
      (ButtonState(now, false, true), [])
    else
      var duration := Elapsed(now, s.pressStartTick);
      var stopped := s.(timerRunning := false, longPressDetected := s.longPressDetected || intended);
      if s.longPressDetected then (stopped, [])
      else if duration >= LongPressTicks then (stopped, [ButtonLongPress])
      else if duration >= DebounceTicks then (stopped, [ButtonShortPress])
      else (stopped, [])
  }

  /**
   * long_press_timer_callback: once per press, a LONG when the press has
   * lasted long enough and the pin still reads pressed.
   */
  function OnTimer(s: ButtonState, now: int, level: int): (r: (ButtonState, seq<Event>))
    requires s.Valid() && IsTick(now)
    ensures r.0.Valid()
    ensures r.1 == [] || (r.1 == [ButtonLongPress] && !s.longPressDetected && r.0.longPressDetected)
    ensures r.0 == s || r.0 == s.(longPressDetected := true)
    ensures r.1 == [ButtonLongPress] <==>
              !s.longPressDetected && Elapsed(now, s.pressStartTick) >= LongPressTicks && level == PressedLevel
  {
    if s.longPressDetected then (s, [])
    else if Elapsed(now, s.pressStartTick) >= LongPressTicks && level == PressedLevel then
      (s.(longPressDetected := true), [ButtonLongPress])
    else (s, [])
  }

  /** One step; a timer that does not run does not fire. */
  function StepOf(s: ButtonState, step: Step, intended: bool): (r: (ButtonState, seq<Event>))
    requires s.Valid() && step.Valid()
    ensures r.0.Valid()
  {
    match step
    case Reading(level, now) => OnReading(s, level, now, intended)
    case TimerTick(now, level) => if s.timerRunning then OnTimer(s, now, level) else (s, [])
  }

  predicate ValidSteps(steps: seq<Step>)
  {
    forall i :: 0 <= i < |steps| ==> steps[i].Valid()
  }

  /** The state after a sequence of steps and the events they post, in order. */
  function Run(s: ButtonState, steps: seq<Step>, intended: bool): (r: (ButtonState, seq<Event>))
    requires s.Valid() && ValidSteps(steps)
    ensures r.0.Valid()
    decreases |steps|
  {
    if steps == [] then (s, [])
    else
      var first := StepOf(s, steps[0], intended);
      var rest := Run(first.0, steps[1..], intended);
      (rest.0, first.1 + rest.1)
  }

  predicate OnlyTimer(steps: seq<Step>)
  {
    forall i :: 0 <= i < |steps| ==> steps[i].TimerTick?
  }

  /** No reading is a press. */
  predicate NoPressReading(steps: seq<Step>)
  {
    forall i :: 0 <= i < |steps| ==> !(steps[i].Reading? && steps[i].level == PressedLevel)
  }

  /**
   * Timer ticks alone post at most one LONG, and none once a long press has
   * been reported; they never stop the timer.
   */
  lemma {:induction false} TimerTicksPostOnce(s: ButtonState, steps: seq<Step>, intended: bool)
    requires s.Valid() && ValidSteps(steps) && OnlyTimer(steps)
    ensures var r := Run(s, steps, intended);
            r.0.pressStartTick == s.pressStartTick && r.0.timerRunning == s.timerRunning
            && (s.longPressDetected ==> r.1 == [] && r.0.longPressDetected)
            && (r.1 == [] || (r.1 == [ButtonLongPress] && r.0.longPressDetected))
            && (r.1 == [] ==> r.0.longPressDetected == s.longPressDetected)
    decreases |steps|
  {
    if steps != [] {
      var first := StepOf(s, steps[0], intended);
      TailKeepsProperties(steps);
      TimerTicksPostOnce(first.0, steps[1..], intended);
    }
  }

  /** Timer ticks with the timer stopped change nothing. */
  lemma {:induction false} StoppedTimerIsSilent(s: ButtonState, steps: seq<Step>, intended: bool)
    requires s.Valid() && ValidSteps(steps) && OnlyTimer(steps) && !s.timerRunning
    ensures Run(s, steps, intended) == (s, [])
    decreases |steps|
  {
    if steps != [] {
      TailKeepsProperties(steps);
      assert steps[0].TimerTick?;
      assert StepOf(s, steps[0], intended) == (s, []);
      StoppedTimerIsSilent(s, steps[1..], intended);
      var rest := Run(s, steps[1..], intended);
      assert Run(s, steps, intended) == (rest.0, StepOf(s, steps[0], intended).1 + rest.1);
      assert rest.1 == [];
      assert Run(s, steps, intended).1 == [];
      assert Run(s, steps, intended).0 == s;
    }
  }

  lemma TailKeepsProperties(steps: seq<Step>)
    requires steps != []
    ensures ValidSteps(steps) ==> ValidSteps(steps[1..])
    ensures OnlyTimer(steps) ==> OnlyTimer(steps[1..])
    ensures NoPressReading(steps) ==> NoPressReading(steps[1..])
  {
    assert forall i :: 0 <= i < |steps[1..]| ==> steps[1..][i] == steps[i + 1];
  }

  lemma ConcatValid(a: seq<Step>, b: seq<Step>)
    requires ValidSteps(a) && ValidSteps(b)
    ensures ValidSteps(a + b)
  {
    assert forall i :: 0 <= i < |a + b| ==> (a + b)[i] == if i < |a| then a[i] else b[i - |a|];
  }

  /** Run on a non-empty sequence: the first step, then the rest. */
  lemma RunCons(s: ButtonState, steps: seq<Step>, intended: bool)
    requires s.Valid() && ValidSteps(steps) && steps != []
    ensures ValidSteps(steps[1..])
    ensures var first := StepOf(s, steps[0], intended);
            var rest := Run(first.0, steps[1..], intended);
            Run(s, steps, intended) == (rest.0, first.1 + rest.1)
  {
    TailKeepsProperties(steps);
  }

  /** Running a + b is running a, then b from where a left off. */
  lemma {:induction false} RunAppend(s: ButtonState, a: seq<Step>, b: seq<Step>, intended: bool)
    requires s.Valid() && ValidSteps(a) && ValidSteps(b)
    ensures ValidSteps(a + b)
    ensures var ra := Run(s, a, intended);
            var rb := Run(ra.0, b, intended);
            Run(s, a + b, intended) == (rb.0, ra.1 + rb.1)
    decreases |a|
  {
    ConcatValid(a, b);
    if a == [] {
      assert a + b == b;
      var rb := Run(s, b, intended);
      assert Run(s, a, intended) == (s, []);
      assert [] + rb.1 == rb.1;
    } else {
      assert (a + b)[0] == a[0];
      assert (a + b)[1..] == a[1..] + b;
      RunCons(s, a, intended);
      RunCons(s, a + b, intended);
      var first := StepOf(s, a[0], intended);
      RunAppend(first.0, a[1..], b, intended);
      var ra := Run(first.0, a[1..], intended);
      var rb := Run(ra.0, b, intended);
      assert first.1 + (ra.1 + rb.1) == (first.1 + ra.1) + rb.1;
    }
  }

  /**
   * One press, read once as pressed and once as released, with the timer
   * firing any number of times around it, posts at most one event: never
   * both a SHORT and a LONG, never two LONGs.
   */
  lemma OnePressOneEvent(s: ButtonState, pressedAt: int, held: seq<Step>, releasedAt: int, after: seq<Step>)
    requires s.Valid() && IsTick(pressedAt) && IsTick(releasedAt)
    requires ValidSteps(held) && OnlyTimer(held) && ValidSteps(after) && OnlyTimer(after)
    ensures var steps := [Reading(PressedLevel, pressedAt)] + held + [Reading(1, releasedAt)] + after;
            ValidSteps(steps) && |Run(s, steps, false).1| <= 1
  {
    var press := [Reading(PressedLevel, pressedAt)];
    var release := [Reading(1, releasedAt)];
    assert ValidSteps(press) && ValidSteps(release);
    var s1 := OnReading(s, PressedLevel, pressedAt, false).0;
    assert Run(s, press, false) == (s1, [] + Run(s1, [], false).1) by {
      assert press[1..] == [];
    }
    TimerTicksPostOnce(s1, held, false);
    var r2 := Run(s1, held, false);
    var r3 := OnReading(r2.0, 1, releasedAt, false);
    assert Run(r2.0, release, false) == (r3.0, r3.1 + Run(r3.0, [], false).1) by {
      assert release[1..] == [];
    }
    assert |r2.1 + r3.1| <= 1;
    StoppedTimerIsSilent(r3.0, after, false);
    RunAppend(s, press, held, false);
    RunAppend(s, press + held, release, false);
    RunAppend(s, press + held + release, after, false);
  }

  /** The state of the statics before any edge. */
  const Initial := ButtonState(0, false, false)

  /**
   * One physical press: the press edge at tick 0 and the release edge at
   * tick 20 are forwarded, and a bounce of the released contact at tick 30,
   * ten ticks after the last forwarded edge, clears the debounce window too.
   * The task reads released twice and posts SHORT twice for the one press;
   * with the intended release handling it posts one SHORT.
   */
  lemma ReleaseBouncePostsTwice()
    ensures Elapsed(20, 0) > DebounceTicks && Elapsed(30, 20) > DebounceTicks
    ensures var steps := [Reading(PressedLevel, 0), Reading(1, 20), Reading(1, 30)];
            ValidSteps(steps)
            && Run(Initial, steps, false).1 == [ButtonShortPress, ButtonShortPress]
            && Run(Initial, steps, true).1 == [ButtonShortPress]
  {
    var steps := [Reading(PressedLevel, 0), Reading(1, 20), Reading(1, 30)];
    assert steps[1..][1..] == steps[2..] && steps[2..][1..] == [];
    var s1 := ButtonState(0, false, true);
    assert Run(Initial, steps, false).1 == [] + Run(s1, steps[1..], false).1;
    assert Run(s1, steps[1..], false).1 == [ButtonShortPress] + Run(ButtonState(0, false, false), steps[2..], false).1;
    assert Run(ButtonState(0, false, false), steps[2..], false).1 == [ButtonShortPress];
    assert Run(Initial, steps, true).1 == [] + Run(s1, steps[1..], true).1;
    assert Run(s1, steps[1..], true).1 == [ButtonShortPress] + Run(ButtonState(0, true, false), steps[2..], true).1;
    assert Run(ButtonState(0, true, false), steps[2..], true).1 == [];
  }

  /**
   * A released reading with no pressed reading since the last release is
   * timed from the stale press_start_tick: after a press read at tick 0 and
   * a release at tick 20 (a SHORT), a released reading at tick 400 is a
   * LONG. That is the reading a second press gives when its press edge fell
   * inside the debounce window; the intended release handling posts nothing
   * for it, even when that second press was genuinely long.
   */
  lemma StaleReleasePostsTwice()
    ensures var steps := [Reading(PressedLevel, 0), Reading(1, 20), Reading(1, 400)];
            ValidSteps(steps)
            && Run(Initial, steps, false).1 == [ButtonShortPress, ButtonLongPress]
            && Run(Initial, steps, true).1 == [ButtonShortPress]
  {
    var steps := [Reading(PressedLevel, 0), Reading(1, 20), Reading(1, 400)];
    var s1 := ButtonState(0, false, true);
    var s2 := ButtonState(0, false, false);
    assert Run(Initial, steps, false).1 == [] + Run(s1, steps[1..], false).1;
    assert Run(s1, steps[1..], false).1 == [ButtonShortPress] + Run(s2, steps[2..], false).1 by {
      assert steps[1..][1..] == steps[2..];
    }
    assert Run(s2, steps[2..], false).1 == [ButtonLongPress] by {
      assert steps[2..][1..] == [];
    }
    assert Run(Initial, steps, true).1 == [] + Run(s1, steps[1..], true).1;
    assert Run(s1, steps[1..], true).1 == [ButtonShortPress] + Run(ButtonState(0, true, false), steps[2..], true).1 by {
      assert steps[1..][1..] == steps[2..];
    }
    assert Run(ButtonState(0, true, false), steps[2..], true).1 == [] by {
      assert steps[2..][1..] == [];
    }
  }

  /**
   * With the intended release handling, steps without a press reading post
   * at most one event, and none once the press has been reported: every
   * press yields at most one event, however its edges are read.
   */
  lemma {:induction false} IntendedAtMostOneEventPerPress(s: ButtonState, steps: seq<Step>)
    requires s.Valid() && ValidSteps(steps) && NoPressReading(steps)
    ensures var r := Run(s, steps, true);
            |r.1| <= 1 && (s.longPressDetected ==> r.1 == [] && r.0.longPressDetected)
            && (r.1 != [] ==> r.0.longPressDetected)
    decreases |steps|
  {
    if steps != [] {
      TailKeepsProperties(steps);
      var first := StepOf(s, steps[0], true);
      assert first.1 != [] ==> first.0.longPressDetected;
      IntendedAtMostOneEventPerPress(first.0, steps[1..]);
    }
  }

  /** The statics of button_manager.c and the queue between the interrupt and the task. */
  class Button {
    var pressStartTick: int
    var lastIsrTick: int
    var longPressDetected: bool
    var timerRunning: bool
    /** The number of edges waiting in gpio_evt_queue. */
    var queued: nat

    predicate Valid()
      reads this
    {
      IsTick(pressStartTick) && IsTick(lastIsrTick) && queued <= QueueLength
    }

    function State(): ButtonState
      reads this
    {
      ButtonState(pressStartTick, longPressDetected, timerRunning)
    }

    /** The statics' initial values and an empty queue. */
    constructor()
      ensures Valid() && State() == Initial && lastIsrTick == 0 && queued == 0
    {
      pressStartTick, lastIsrTick, longPressDetected, timerRunning, queued := 0, 0, false, false, 0;
    }

    /**
     * gpio_isr_handler: an edge more than BUTTON_DEBOUNCE_TICK ticks after
     * the last forwarded one is forwarded and its tick recorded; a full
     * queue drops it.
     */
    method Isr(now: int) returns (forwarded: bool)
      requires Valid() && IsTick(now)
      modifies this
      ensures Valid() && State() == old(State())
      ensures forwarded <==> Elapsed(now, old(lastIsrTick)) > DebounceTicks
      ensures lastIsrTick == if forwarded then now else old(lastIsrTick)
      ensures queued == if forwarded && old(queued) < QueueLength then old(queued) + 1 else old(queued)
    {
      forwarded := Elapsed(now, lastIsrTick) > DebounceTicks;
      if forwarded {
        lastIsrTick := now;
        if queued < QueueLength {
          queued := queued + 1;
        }
      }
    }

    /** One iteration of button_task: take a queued edge and classify it by the level read now. */
    method TaskStep(level: int, now: int, events: EventLog)
      requires Valid() && IsTick(now) && queued > 0
      modifies this, events
      ensures Valid() && queued == old(queued) - 1 && lastIsrTick == old(lastIsrTick)
      ensures State() == OnReading(old(State()), level, now, false).0
      ensures events.loopCreated == old(events.loopCreated)
      ensures events.posted == old(events.posted)
                + if events.loopCreated then OnReading(old(State()), level, now, false).1 else []
    {
      queued := queued - 1;
      if level == PressedLevel {
        pressStartTick := now;
        longPressDetected := false;
        timerRunning := true;
      } else {
        var pressDuration := Elapsed(now, pressStartTick);
        timerRunning := false;
        if !longPressDetected {
          if pressDuration >= LongPressTicks {
            events.Post(ButtonLongPress);
          } else if pressDuration >= DebounceTicks {
            events.Post(ButtonShortPress);
          }
        }
      }
    }

    /** long_press_timer_callback, run while the timer is started. */
    method TimerCallback(now: int, level: int, events: EventLog)
      requires Valid() && IsTick(now) && timerRunning
      modifies this, events
      ensures Valid() && queued == old(queued) && lastIsrTick == old(lastIsrTick)
      ensures State() == OnTimer(old(State()), now, level).0
      ensures events.loopCreated == old(events.loopCreated)
      ensures events.posted == old(events.posted)
                + if events.loopCreated then OnTimer(old(State()), now, level).1 else []
    {
      var pressDuration := Elapsed(now, pressStartTick);
      if longPressDetected {
        return;
      }
      if pressDuration >= LongPressTicks && level == PressedLevel {
        longPressDetected := true;
        events.Post(ButtonLongPress);
      }
    }
  }
}
