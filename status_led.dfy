/**
 * The status LED of main/status_led.c: a current state, a 16-bit blink
 * pattern per state and a 4-bit iterator that walks the pattern one bit per
 * task period.
 */
module StatusLed {
  import opened Esp
  import opened Bits
  import StateManager

  /** led_state_t. */
  const LedOk := 0
  const LedFastBlink := 1
  const LedSlowBlink := 2
  const LedOff := 3
  const LedError := 4
  const LedThreeBlink := 5
  const LedMaxStates := 6

  /** The number of bits in a pattern: led_iterator counts modulo this. */
  const PatternBits := 16

  /** The entries of state_bit_masks as the 16-bit patterns the initialiser spells. */
  function Pattern(state: int): (p: nat)
    requires 0 <= state < LedMaxStates
    ensures p < 0x1_0000
  {
    [0xFFFF, 0xAAAA, 0xCCCC, 0x0000, 0xCC00, 0xA800][state]
  }

  /** The int16_t the table actually stores: patterns with bit 15 set are negative. */
  function Int16Of(p: nat): (r: int)
    requires p < 0x1_0000
    ensures -0x8000 <= r < 0x8000 && (p - r) % 0x1_0000 == 0
  {
    if p < 0x8000 then p else p - 0x1_0000
  }

  /** An arithmetic shift right by n: n halvings, each rounding down. */
  function ShiftRight(v: int, n: nat): int
    decreases n
  {
    if n == 0 then v else ShiftRight(v / 2, n - 1)
  }

  /**
   * The GPIO level status_led_task drives: the stored int16_t, promoted to
   * int, shifted right arithmetically by the iterator, then & 1.
   */
  function Level(state: int, index: int): (level: int)
    requires 0 <= state < LedMaxStates && 0 <= index < PatternBits
    ensures level == 0 || level == 1
  {
    ShiftRight(Int16Of(Pattern(state)), index) % 2
  }

  /** Shifting by n removes a multiple of 2^n exactly. */
  lemma {:induction false} ShiftOfMultiple(x: int, m: int, n: nat)
    ensures ShiftRight(x - m * Pow2(n), n) == ShiftRight(x, n) - m
    decreases n
  {
    if n > 0 {
      var t := m * Pow2(n - 1);
      assert m * Pow2(n) == 2 * t;
      assert (x - m * Pow2(n)) / 2 == x / 2 - t;
      ShiftOfMultiple(x / 2, m, n - 1);
    }
  }

  /** 2^16, the modulus of a 16-bit pattern. */
  lemma Pow2Sixteen()
    ensures Pow2(PatternBits) == 0x1_0000
  {
    assert Pow2(4) == 16;
    Pow2Add(4, 4);
    Pow2Add(8, 8);
  }

  /** Taking 2^16 away from a value changes none of its bits below 16. */
  lemma SignExtensionKeepsBit(p: int, index: nat)
    requires index < PatternBits
    ensures ShiftRight(p - 0x1_0000, index) % 2 == ShiftRight(p, index) % 2
  {
    var a, b := Pow2(PatternBits - index), Pow2(index);
    var k := Pow2(PatternBits - index - 1);
    Pow2Add(PatternBits - index, index);
    Pow2Sixteen();
    assert a * b == 0x1_0000;
    assert a == 2 * k;
    ShiftOfMultiple(p, a, index);
    var v, w := ShiftRight(p, index), ShiftRight(p - 0x1_0000, index);
    assert w == v - 2 * k;
    DivModUnique(w, 2, v / 2 - k, v % 2);
  }

  /**
   * The sign extension of the int16_t entries does not disturb the result:
   * the level is bit `index` of the 16-bit pattern as written.
   */
  lemma LevelIsPatternBit(state: int, index: int)
    requires 0 <= state < LedMaxStates && 0 <= index < PatternBits
    ensures Level(state, index) == ShiftRight(Pattern(state), index) % 2
  {
    var p := Pattern(state);
    if p >= 0x8000 {
      SignExtensionKeepsBit(p, index);
    }
  }

  lemma {:induction false} ShiftOfMinusOne(n: nat)
    ensures ShiftRight(-1, n) == -1
  {
    if n > 0 {
      ShiftOfMinusOne(n - 1);
    }
  }

  lemma {:induction false} ShiftOfZero(n: nat)
    ensures ShiftRight(0, n) == 0
  {
    if n > 0 {
      ShiftOfZero(n - 1);
    }
  }

  /** LED_OK keeps the LED on and LED_OFF keeps it off, at every iterator value. */
  lemma SteadyStates(index: int)
    requires 0 <= index < PatternBits
    ensures Level(LedOk, index) == 1
    ensures Level(LedOff, index) == 0
  {
    ShiftOfMinusOne(index);
    ShiftOfZero(index);
  }

  /**
   * status_led_event_handler's choice of the next state; the connection
   * state is system_state.wifi_sta_connection_state.
   */
  function NextState(current: int, event: Event, staConnState: Byte): (next: int)
    requires 0 <= current < LedMaxStates
    ensures 0 <= next < LedMaxStates
    ensures event == WifiStateChanged ==> (next == LedOk <==> staConnState == 0)
    ensures event == WifiStateChanged && staConnState != 0 ==> next == LedError
    ensures event == ButtonShortPress ==> next == LedSlowBlink || next == LedFastBlink
    ensures event == ButtonShortPress ==> (next == LedFastBlink <==> current == LedSlowBlink)
    ensures event == ButtonLongPress ==> next == LedThreeBlink
    ensures event == RestartRequested ==> next == current
  {
    match event
    case WifiStateChanged => if staConnState == 0 then LedOk else LedError
    case ButtonShortPress => if current == LedSlowBlink then LedFastBlink else LedSlowBlink
    case ButtonLongPress => LedThreeBlink
    case RestartRequested => current
  }

  /**
   * Short presses toggle between the two blink states: two of them in a row
   * lead back to the blink state they started from, and from any other state
   * they lead to SLOW_BLINK.
   */
  lemma ShortPressesToggle(current: int, c1: Byte, c2: Byte)
    requires 0 <= current < LedMaxStates
    ensures var once := NextState(current, ButtonShortPress, c1);
            var twice := NextState(once, ButtonShortPress, c2);
            (current == LedSlowBlink || current == LedFastBlink ==> twice == current)
            && (current != LedSlowBlink && current != LedFastBlink ==> twice == LedFastBlink && once == LedSlowBlink)
  {
  }

  /** current_led_state and led_iterator, with the level last driven on GPIO 2. */
  class StatusLedTask {
    var current: int
    var index: int
    var level: int

    predicate Valid()
      reads this
    {
      0 <= current < LedMaxStates && 0 <= index < PatternBits
    }

    /**
     * status_led_init: OFF, index 0 and the pin driven low; the task and
     * the subscriptions are created; then the state becomes OK.
     */
    constructor()
      ensures Valid()
      ensures current == LedOk && index == 0 && level == 0
    {
      current := LedOff;
      index := 0;
      level := 0;
      current := LedOk;
    }

    /** status_led_set: any state below LED_MAX_STATES is kept, all others become OFF. */
    method Set(state: int)
      requires Valid()
      modifies this
      ensures Valid()
      ensures 0 <= state < LedMaxStates ==> current == state
      ensures !(0 <= state < LedMaxStates) ==> current == LedOff
      ensures index == old(index) && level == old(level)
    {
      var s := state;
      // led_state_t has no negative enumerator, so it compares as unsigned
      if s < 0 || s >= LedMaxStates {
        s := LedOff;
      }
      current := s;
    }

    /** status_led_event_handler for the event posted to the custom loop. */
    method HandleEvent(event: Event, st: StateManager.SystemState)
      requires Valid()
      modifies this
      ensures Valid()
      ensures current == NextState(old(current), event, st.staConnState)
      ensures index == old(index) && level == old(level)
    {
      match event {
        case WifiStateChanged =>
          if st.staConnState == 0 {
            Set(LedOk);
          } else {
            Set(LedError);
          }
        case ButtonShortPress =>
          if current == LedSlowBlink {
            Set(LedFastBlink);
          } else {
            Set(LedSlowBlink);
          }
        case ButtonLongPress =>
          Set(LedThreeBlink);
        case RestartRequested =>
      }
    }

    /** One period of status_led_task: drive the current bit, then step the index. */
    method TaskStep()
      requires Valid()
      modifies this
      ensures Valid()
      ensures level == Level(old(current), old(index))
      ensures level == ShiftRight(Pattern(old(current)), old(index)) % 2
      ensures index == (old(index) + 1) % PatternBits
      ensures current == old(current)
    {
      LevelIsPatternBit(current, index);
      level := ShiftRight(Int16Of(Pattern(current)), index) % 2;
      index := (index + 1) % PatternBits;
    }
  }
}
