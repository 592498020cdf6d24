/** The LED side of both programs: the two rotation patterns, the panel of
    four LEDs as a set of lit indices, the fading driver as a running flag,
    and the `static int led_num` counters that `do_state_0` and `do_state_2`
    keep between calls. GPIO writes and the fading waveform are not modelled. */
module Leds {

  /** `clock_wise`: the order in which `do_state_0` lights the LEDs. */
  const ClockWise: seq<nat> := [0, 1, 3, 2]

  /** `c_clock_wise`: the order in which `do_state_2` lights the LEDs. */
  const CounterClockWise: seq<nat> := [0, 2, 3, 1]

  /** The board's four LEDs, by index. */
  const AllLeds: set<nat> := {0, 1, 2, 3}

  /** The value of a `led_num` counter after `n` calls of its Do phase,
      starting from its static initial value 0, each call stepping it by
      `led_num++; led_num = led_num % 4`. */
  function CounterAfter(n: nat): nat
  {
    if n == 0 then 0 else (CounterAfter(n - 1) + 1) % 4
  }

  /** The counter runs through 0, 1, 2, 3 and repeats: it is the number of
      calls so far, modulo 4. */
  lemma {:induction false} CounterIsCallsModFour(n: nat)
    ensures CounterAfter(n) == n % 4
  {
    if n > 0 {
      CounterIsCallsModFour(n - 1);
    }
  }

  /** The LED that the (n+1)-th call of a rotating Do phase lights. */
  function LitByCall(pattern: seq<nat>, n: nat): nat
    requires |pattern| == 4
  {
    CounterIsCallsModFour(n);
    pattern[CounterAfter(n)]
  }

  /** The rotation has period four: the (n+1)-th call lights
      `pattern[n % 4]`, so `do_state_0` lights 0, 1, 3, 2, 0, ... and
      `do_state_2` lights 0, 2, 3, 1, 0, ... */
  lemma RotationCycle(pattern: seq<nat>, n: nat)
    requires |pattern| == 4
    ensures LitByCall(pattern, n) == pattern[n % 4]
    ensures LitByCall(pattern, n + 4) == LitByCall(pattern, n)
  {
    CounterIsCallsModFour(n);
    CounterIsCallsModFour(n + 4);
  }

  /** Each pattern lists every LED exactly once. */
  lemma PatternsAreOrderings(pattern: seq<nat>)
    requires pattern == ClockWise || pattern == CounterClockWise
    ensures {pattern[0], pattern[1], pattern[2], pattern[3]} == AllLeds
    ensures forall i, j :: 0 <= i < j < 4 ==> pattern[i] != pattern[j]
  {
  }

  /** Any four consecutive calls of either Do phase light every LED once. */
  lemma FourCallsLightEveryLed(pattern: seq<nat>, n: nat)
    requires pattern == ClockWise || pattern == CounterClockWise
    ensures {LitByCall(pattern, n), LitByCall(pattern, n + 1),
             LitByCall(pattern, n + 2), LitByCall(pattern, n + 3)} == AllLeds
  {
    CounterIsCallsModFour(n);
    PatternsAreOrderings(pattern);
    var p0, p1, p2, p3 := pattern[0], pattern[1], pattern[2], pattern[3];
    var c := CounterAfter(n);
    assert CounterAfter(n + 1) == (c + 1) % 4;
    assert CounterAfter(n + 2) == (CounterAfter(n + 1) + 1) % 4;
    assert CounterAfter(n + 3) == (CounterAfter(n + 2) + 1) % 4;
    if c == 0 {
      assert {p0, p1, p2, p3} == AllLeds;
    } else if c == 1 {
      assert {p1, p2, p3, p0} == {p0, p1, p2, p3};
    } else if c == 2 {
      assert {p2, p3, p0, p1} == {p0, p1, p2, p3};
    } else {
      assert {p3, p0, p1, p2} == {p0, p1, p2, p3};
    }
  }

  /** `do_state_2` runs the cycle of `do_state_0` backwards: the LED it
      lights on its (n+1)-th call is the one `do_state_0` lights on the call
      n steps before a multiple of four. */
  lemma CounterClockWiseReverses(n: nat)
    ensures LitByCall(CounterClockWise, n) == ClockWise[(4 - n % 4) % 4]
  {
    RotationCycle(CounterClockWise, n);
    var r := n % 4;
    assert r == 0 || r == 1 || r == 2 || r == 3;
  }

  /** The LEDs and the state that the Do phases keep for them. */
  class Panel {
    /** `static int led_num` of `do_state_0`. */
    var clockWiseNum: int
    /** `static int led_num` of `do_state_2`. */
    var counterClockWiseNum: int
    /** The LEDs switched on through `bsp_board_led_on` / `bsp_board_leds_on`. */
    ghost var lit: set<nat>
    /** Whether `led_softblink` is running. */
    var fading: bool

    ghost predicate Valid()
      reads this
    {
      0 <= clockWiseNum < 4 && 0 <= counterClockWiseNum < 4
    }

    /** Static initial values and `bsp_board_init(BSP_INIT_LEDS)`: counters
        at 0, every LED off, nothing fading. */
    constructor ()
      ensures Valid()
      ensures clockWiseNum == 0 && counterClockWiseNum == 0
      ensures lit == {} && !fading
    {
      clockWiseNum, counterClockWiseNum := 0, 0;
      lit := {};
      fading := false;
    }

    /** The body of `do_state_0`: all LEDs off, then exactly the LED
        `clock_wise[led_num]` on, then the counter steps on modulo 4. */
    method RotateClockWise()
      requires Valid()
      modifies this
      ensures Valid()
      ensures lit == {ClockWise[old(clockWiseNum)]}
      ensures clockWiseNum == (old(clockWiseNum) + 1) % 4
      ensures counterClockWiseNum == old(counterClockWiseNum) && fading == old(fading)
    {
      lit := {};
      lit := lit + {ClockWise[clockWiseNum]};
      clockWiseNum := clockWiseNum + 1;
      clockWiseNum := clockWiseNum % 4;
    }

    /** The body of `do_state_2`: the same with `c_clock_wise` and its own
        counter. */
    method RotateCounterClockWise()
      requires Valid()
      modifies this
      ensures Valid()
      ensures lit == {CounterClockWise[old(counterClockWiseNum)]}
      ensures counterClockWiseNum == (old(counterClockWiseNum) + 1) % 4
      ensures clockWiseNum == old(clockWiseNum) && fading == old(fading)
    {
      lit := {};
      lit := lit + {CounterClockWise[counterClockWiseNum]};
      counterClockWiseNum := counterClockWiseNum + 1;
      counterClockWiseNum := counterClockWiseNum % 4;
    }

    /** The body of `do_state_1`: all LEDs off, a wait, all LEDs on. */
    method Blink()
      requires Valid()
      modifies this
      ensures Valid()
      ensures lit == AllLeds
      ensures clockWiseNum == old(clockWiseNum) && counterClockWiseNum == old(counterClockWiseNum)
      ensures fading == old(fading)
    {
      lit := {};
      lit := AllLeds;
    }

    /** `led_softblink_start(LEDS_MASK)`. */
    method StartFading()
      requires Valid()
      modifies this
      ensures Valid()
      ensures fading
      ensures clockWiseNum == old(clockWiseNum) && counterClockWiseNum == old(counterClockWiseNum)
      ensures lit == old(lit)
    {
      fading := true;
    }

    /** `led_softblink_stop()`. */
    method StopFading()
      requires Valid()
      modifies this
      ensures Valid()
      ensures !fading
      ensures clockWiseNum == old(clockWiseNum) && counterClockWiseNum == old(counterClockWiseNum)
      ensures lit == old(lit)
    {
      fading := false;
    }
  }
}
