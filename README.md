# Event-driven LED state machine of Intro-to-nRF, in Dafny

The repository holds two versions of one table-driven finite-state machine for
an nRF52 board:

- `src/task2.c` has three states and two buttons.
- `src/task3.c` has four states, three buttons and a locked "fading" state 3
  that only a timeout leaves.

Button and timer interrupts put events into a bounded atomic FIFO of
capacity 10. The main loop does the following forever:

- it looks up the next state in `state_table[current.id][evt]` and calls that
  state's `Enter`;
- it repeats `Do`, pops one event and waits, until the popped event is not
  `no_evt`;
- it calls `Exit`.

The Do phases of states 0 and 2 rotate one lit LED through a four-step
pattern, each keeping its own `static led_num` counter. State 1 blinks all
LEDs. In task3, state 3 starts the fading driver and its Exit phase stops it.

The model has four modules:

- `Fifo` (`fifo.dfy`): a sequential model of the atomic FIFO.
  - `Fifo.Queue` is a class over a sequence with a fixed capacity.
  - Its put drops the item when the queue is full.
  - Its get reports an empty queue instead of blocking.
  - Pure functions `Put`, `PutAll`, `Take` and `Drain` specify it.
- `Leds` (`leds.dfy`): the rotation patterns and the `Leds.Panel` class.
  - The panel holds the two `led_num` counters, the set of lit LEDs (ghost)
    and whether the fading driver runs.
  - Each Do/Exit body becomes a method on the panel.
- `Task3` (`task3.dfy`) and `Task2` (`task2.dfy`): one module per program,
  because the two sources duplicate the engine with different tables. Each
  module holds:
  - the event enum, the state records and `state_table` as data, including the
    zero-filled rows;
  - the handlers and `get_event` as methods on the queue;
  - a pure reference semantics (`Ticks`, `Resume`, `Trace`) that produces the
    trace of `Enter(id)`, `Do(id)` and `Exit(id, cause)` actions;
  - the lifecycle protocol (`Lifecycle`) that every trace follows;
  - `main` as the method `Run`, proved to produce exactly `Trace(script)`.
    `Run` splits into `Activate` (one iteration of the outer loop),
    `SamplingLoop` (the inner loop) and `Tick` (one pass of its body).

Interrupts are a parameter:

- A script is a sequence with one entry per tick.
- Each entry lists the button and timer signals (`Stimulus`) that arrive
  before that tick pops the queue.
- The producers handle them in order, as `Deliver` does.
- The length of the script bounds the otherwise infinite loop.

Every run starts from a fresh queue and panel, as after `init_board`.

In task2 the enum skips the value 2, so the column index that `main` uses
differs from the column headers of the table. The model states both lookups
(see Findings). The engine uses the one the headers intend, and
`Task2.EnteredAsWritten` proves that at every lookup the engine makes, the
lookup as written selects the same whole state record (id, delay and phase
functions), never a zero-filled entry.

Two points of the engine are settled by the code, and the model follows it:

- a table edge back to the same state is a full re-entry (Exit, then Enter);
- task3 waits the state's `delay_ms` after each tick, while task2 waits a
  fixed 200 ms and never reads `delay_ms`.

## Model

| member | source | states |
|---|---|---|
| Fifo.PutAllKeepsEarliest | src/task3.c:57 | puts onto a queue within capacity keep the old items followed by exactly the earliest items of the burst that fit, and the queue never exceeds its capacity (overflow drops the newest) |
| Fifo.DrainYieldsContents | src/task3.c:169-176 | getting until the queue reports empty yields its items oldest first |
| Fifo.FirstInFirstOut | src/task3.c:57 | items put into an empty queue come out in the order they were put, up to the capacity |
| Fifo.Queue.constructor | src/task3.c:145 | the FIFO starts empty with the given capacity |
| Fifo.Queue.AllocPut | src/task3.c:72 | a put succeeds exactly when there is room; it appends the item on success and leaves the queue unchanged on failure |
| Fifo.Queue.GetFree | src/task3.c:174 | a get on an empty queue reports none and changes nothing; otherwise it returns the oldest item and removes only it |
| Leds.CounterIsCallsModFour | src/task3.c:252-256 | after n calls, a `led_num` counter that starts at 0 and steps `++` then `% 4` equals n mod 4 |
| Leds.RotationCycle | src/task3.c:249-257 | the (n+1)-th call lights `pattern[n % 4]`, and the rotation has period 4 |
| Leds.PatternsAreOrderings | src/task3.c:178-179 | `clock_wise` and `c_clock_wise` each list every one of the four LEDs exactly once |
| Leds.FourCallsLightEveryLed | src/task3.c:249-276 | any four consecutive calls of either rotating Do phase light all four LEDs |
| Leds.CounterClockWiseReverses | src/task3.c:178-179 | `do_state_2` runs the cycle of `do_state_0` backwards |
| Leds.Panel.constructor | src/task3.c:154 | both counters start at their static value 0, no LED is lit and nothing fades |
| Leds.Panel.RotateClockWise | src/task3.c:249-257 | exactly LED `clock_wise[old led_num]` is lit afterwards; the counter steps modulo 4 and stays in 0..3; the other counter and the fading driver are unchanged |
| Leds.Panel.RotateCounterClockWise | src/task3.c:268-276 | the same for `c_clock_wise` with its own, independent counter |
| Leds.Panel.Blink | src/task3.c:259-265 | all LEDs are lit afterwards; the counters are unchanged |
| Leds.Panel.StartFading | src/task3.c:282 | the fading driver runs; the LEDs and counters are unchanged |
| Leds.Panel.StopFading | src/task3.c:242 | the fading driver stops; the LEDs and counters are unchanged |
| Task3.Lookup | src/task3.c:326-332 | every lookup from a declared state 0..3, under any of the five events, yields a declared state with its 200 ms delay; the zero-filled rows 4 and 5 yield the zeroed entry |
| Task3.LockedState | src/task3.c:331 | in state 3 every button and `no_evt` keep state 3, and only `timeout_evt` leads to state 0 |
| Task3.UnlockedStates | src/task3.c:328-330 | from states 0..2, `b3_evt` reaches state 3 and `timeout_evt`/`no_evt` are self-loops; `b1` and `b2` stay within 0..2, have no fixed point and undo each other |
| Task3.ButtonEvent | src/task3.c:65-88 | an event comes out exactly for a push of `BUTTON_1`, `BUTTON_2` or `BUTTON_3`, and it is never `timeout_evt` or `no_evt` |
| Task3.ButtonsAreDistinguished | src/task3.c:70-86 | buttons 1, 2 and 3 put `b1_evt`, `b2_evt` and `b3_evt` respectively |
| Task3.ReleasePutsNothing | src/task3.c:65 | a release of any pin puts no event and leaves the queue unchanged |
| Task3.Produced | src/task3.c:98-101 | no producer ever puts `no_evt`, and `timeout_evt` comes exactly from the timer |
| Task3.DeliveredPutsProducedEvents | src/task3.c:61-101 | the handlers put the produced events in order; the queue keeps the earliest that fit within capacity 10, and it never holds `no_evt` |
| Task3.SampleOfEmpty | src/task3.c:169-176 | since the queue never holds `no_evt`, `get_event` returns `no_evt` exactly when the queue is empty |
| Task3.ButtonHandler | src/task3.c:61-89 | the queue afterwards is the old queue after delivering that one button signal, with the put result ignored |
| Task3.TimeoutHandler | src/task3.c:98-101 | the queue afterwards is the old queue with `timeout_evt` put (dropped when full) |
| Task3.Deliver | src/task3.c:91-95 | handling a batch of interrupt signals in order leaves `Delivered(old queue, signals)` |
| Task3.GetEvent | src/task3.c:169-176 | on an empty queue it returns `no_evt` and changes nothing; otherwise it returns the oldest event and removes it |
| Task3.TraceFollowsLifecycle | src/task3.c:345-363 | every run's trace is non-empty and follows the protocol: Enter(s), then Do(s) one or more times, then Exit(s, e) with e not `no_evt`, then Enter of the table's successor of s under e |
| Task3.InitialState | src/task3.c:341-346 | the first lookup, `state_table[0][no_evt]`, enters state 0 |
| Task3.LifecycleStaysDeclared | src/task3.c:346 | every state a lifecycle trace enters, acts in or exits is one of the four declared states, so rows 4 and 5 are never reached |
| Task3.DoFollowsEnter | src/task3.c:347-352 | every Do(s) is preceded by Enter(s) with only Do(s) in between |
| Task3.ExitAndReentry | src/task3.c:346-359 | every Exit follows a Do of the same state and carries an event that is not `no_evt`; every Enter but the first is the successor under the event of the Exit just before it, so only the first lookup uses `no_evt` |
| Task3.OneDoPerTick | src/task3.c:350-358 | a trace has exactly one Do per tick of the script |
| Task3.IdleStaysInitial | src/task3.c:350-358 | without input, state 0 is entered once and acts on every tick |
| Task3.LockedTicks | src/task3.c:331 | from state 0, button 3 locks, button 1 re-enters state 3, and the timeout returns to state 0 |
| Task3.LockedReentry | src/task3.c:345-363 | a same-id edge (state 3 on `b1_evt`) is a full Exit(3)/Enter(3) re-entry; the whole trace of that scenario is given |
| Task3.DoPhase | src/task3.c:249-287 | states 0 and 2 rotate their own counter and light one LED; state 1 lights all; state 3 starts the fading driver; nothing else changes |
| Task3.ExitPhase | src/task3.c:239-245 | only leaving state 3 stops the fading driver; LEDs and counters are unchanged |
| Task3.LitAfterLast | src/task3.c:249-284 | after a trace ending in Do(0) the lit LED is the `clock_wise` entry of state 0's latest call, after Do(1) every LED is lit, after Do(2) the `c_clock_wise` entry of state 2's latest call; Enter, Exit and Do(3) leave the LEDs as they were |
| Task3.Tick | src/task3.c:352-354 | one pass runs the state's Do phase, takes the tick's signals and samples the queue as `Sample(Delivered(...))`; afterwards state 0 lights exactly `clock_wise[old led_num]`, state 1 every LED, state 2 exactly `c_clock_wise[old led_num]`, state 3 leaves the LEDs and starts fading; counters and LEDs then match the trace extended by Do |
| Task3.SamplingLoop | src/task3.c:350-358 | the inner loop produces exactly the reference ticks: it stops on the first event that is not `no_evt` (which the lookup then uses) or when the script ends; it waits 200 ms per tick; fading runs exactly while state 3 acts |
| Task3.Activate | src/task3.c:346-361 | one outer iteration: lookup, Enter, sampling loop and Exit extend the trace as `Resume` prescribes; fading is stopped after the Exit |
| Task3.Run | src/task3.c:335-365 | `main` produces exactly `Trace(script)` and waits 200 ms per tick; the two `led_num` counters equal the number of Do calls of states 0 and 2, modulo 4; the fading driver runs exactly when the last action is Do(3); the lit LEDs are `LitAfter(trace)`: after a final Do(0) exactly `clock_wise[(Do(0) count - 1) % 4]`, after Do(1) every LED, after Do(2) exactly `c_clock_wise[(Do(2) count - 1) % 4]` |
| Task2.Column | src/task2.c:246 | the column header of each event; it coincides with the enumerator value only for `b1_evt` and `b2_evt` |
| Task2.Lookup | src/task2.c:245-250 | with the header columns, every lookup from a declared state 0..2 yields a declared state with its 200 ms delay; the zero-filled rows 3 and 4 yield the zeroed entry |
| Task2.Flat | src/task2.c:245 | the table in memory is row after row, four entries per row |
| Task2.EmptySampleLeavesRow | src/task2.c:263 | as written, `state_table[2][no_evt]` reads the zeroed entry of row 3, while the headers say state 2 |
| Task2.ReachedLookupsAgree | src/task2.c:48-54 | for `no_evt` from state 0, and for any declared state under any other event, the lookup as written equals the intended one |
| Task2.EnteredAsWritten | src/task2.c:262-276 | for every state the engine enters, the lookup as written selects that same whole declared state record, so the column overflow never lands on a zero-filled entry |
| Task2.TimeoutKeepsState | src/task2.c:247-249 | `timeout_evt` and `no_evt` are self-loops in every declared state |
| Task2.ButtonsRotate | src/task2.c:247-249 | `b1` and `b2` undo each other, have no fixed point, and three presses of either return to the start |
| Task2.ButtonEvent | src/task2.c:68-85 | an event comes out exactly for a push of `BUTTON_1` or `BUTTON_2`, and it is never `timeout_evt` or `no_evt` |
| Task2.ButtonsAreDistinguished | src/task2.c:71-83 | buttons 1 and 2 put `b1_evt` and `b2_evt` respectively |
| Task2.ReleasePutsNothing | src/task2.c:68 | a release of any pin puts no event and leaves the queue unchanged |
| Task2.Produced | src/task2.c:94-98 | no producer ever puts `no_evt`, and `timeout_evt` comes exactly from the timer |
| Task2.DeliveredPutsProducedEvents | src/task2.c:64-98 | the handlers put the produced events in order; the queue keeps the earliest that fit within capacity 10, and it never holds `no_evt` |
| Task2.SampleOfEmpty | src/task2.c:137-143 | `get_event` returns `no_evt` exactly when the queue is empty |
| Task2.ButtonHandler | src/task2.c:64-86 | the queue afterwards is the old queue after delivering that one button signal |
| Task2.TimeoutHandler | src/task2.c:94-98 | the queue afterwards is the old queue with `timeout_evt` put (dropped when full) |
| Task2.Deliver | src/task2.c:88-91 | handling a batch of interrupt signals in order leaves `Delivered(old queue, signals)` |
| Task2.GetEvent | src/task2.c:137-143 | on an empty queue it returns `no_evt` and changes nothing; otherwise it returns the oldest event and removes it |
| Task2.TraceFollowsLifecycle | src/task2.c:262-280 | every run's trace follows the Enter, Do+, Exit protocol; Exit happens only after an event that is not `no_evt` |
| Task2.InitialState | src/task2.c:258-263 | the first lookup enters state 0 |
| Task2.LifecycleStaysDeclared | src/task2.c:263 | every state id in a lifecycle trace is one of the three declared ids, so the intended lookup never indexes rows 3 and 4 |
| Task2.DoFollowsEnter | src/task2.c:263-269 | every Do(s) is preceded by Enter(s) with only Do(s) in between |
| Task2.ExitAndReentry | src/task2.c:263-277 | every Exit follows a Do of its state and carries an event other than `no_evt`; every later Enter is the successor under that event |
| Task2.OneDoPerTick | src/task2.c:267-276 | exactly one Do per tick of the script |
| Task2.IdleStaysInitial | src/task2.c:267-276 | without input, state 0 is entered once and acts on every tick |
| Task2.RotateAndReturn | src/task2.c:247-249 | `b1` then `b2` goes 0 → 2 → 0, and a timeout in state 0 is a full re-entry; the whole trace is given |
| Task2.DoPhase | src/task2.c:187-214 | states 0 and 2 rotate their own counter and light one LED, and state 1 lights all; nothing else changes |
| Task2.LitAfterLast | src/task2.c:187-215 | after a trace ending in Do(0) the lit LED is the `clock_wise` entry of state 0's latest call, after Do(1) every LED is lit, after Do(2) the `c_clock_wise` entry of state 2's latest call; Enter and Exit leave the LEDs as they were |
| Task2.Tick | src/task2.c:269-270 | one pass runs the state's Do phase, takes the tick's signals and samples the queue; afterwards state 0 lights exactly `clock_wise[old led_num]`, state 1 every LED, state 2 exactly `c_clock_wise[old led_num]`; counters and LEDs then match the extended trace |
| Task2.SamplingLoop | src/task2.c:267-276 | the inner loop produces exactly the reference ticks and waits a fixed 200 ms per tick, whatever the state's `delay_ms` |
| Task2.Activate | src/task2.c:263-278 | one outer iteration extends the trace as `Resume` prescribes |
| Task2.Run | src/task2.c:253-282 | `main` produces exactly `Trace(script)` and waits 200 ms per tick; the counters equal the number of Do calls of states 0 and 2, modulo 4; the lit LEDs are `LitAfter(trace)`: after a final Do(0) exactly `clock_wise[(Do(0) count - 1) % 4]`, after Do(1) every LED, after Do(2) exactly `c_clock_wise[(Do(2) count - 1) % 4]` |

## Left out

- `init_board` (clock, logging, LED, button and softblink set-up) is not modelled. `Run` starts from the state it leaves behind: an empty FIFO, counters at 0, no LED lit.
- Logging (`NRF_LOG_*`) is not modelled. Every `enter_state_*` and every `exit_state_*` except `exit_state_3` only logs, so their only trace is the `Enter` or `Exit` action.
- Interrupt concurrency is not modelled. The atomic FIFO is a sequential queue; puts and gets are atomic steps, and interrupts arrive only between two ticks, as the script gives them.
- `app_timer` semantics are not modelled. The timer is a free `TimerFired` signal in the script, so the model allows more timeouts than the board delivers:
  - task3 re-arms the single-shot timer on every `do_state_3`;
  - task2 never starts the timer at all.
- `led_softblink` is modelled only as a running flag, and LEDs only as the ghost set of lit indices. The waveform and GPIO writes are out.
- Task3.Run: `elapsedMs` counts only the delay of the sampling loop. It leaves out the busy wait inside `do_state_1` (500 ms) and `__WFE()` after each Exit.
- Task2.Run: `elapsedMs` leaves out the 200 ms busy wait inside `do_state_1`.
- The infinite `for(;;)` is bounded by the script length (fuel). A trace therefore ends in an `Enter` or a `Do`, never in a pending `Exit`.
- The board header is not part of this model. The pin numbers `BUTTON_1`..`BUTTON_3` are taken as 13, 14 and 15, and only their being distinct matters. Likewise `APP_BUTTON_PUSH` is taken as 1 and release as 0.
- The zero-filled table entries have null phase functions. Calling them would crash, and the model does not represent that. In task3, `Task3.Lookup` and `Task3.LifecycleStaysDeclared` show the engine only looks up rows 0 to 3, whose entries are all declared states. In task2, `Task2.EnteredAsWritten` shows that even the lookup as written, with its column overflow, only ever selects a declared state record.
- Integer widths (`uint8_t id`, `uint32_t delay_ms`, the `int` counters) never come near their limits, so the model uses unbounded integers.

## Findings

| source | as written | input that shows it | evidently intended | confidence | as-written member | corrected member |
|---|---|---|---|---|---|---|
| src/task2.c:48-54, 245-250, 263 | `event_t` numbers `timeout_evt` 3 and `no_evt` 4, but each row of `state_table` has four columns. So `state_table[id][evt]` reads the flat entry `4 * id + evt`: `timeout_evt` reads the column headed `no_evt`, and `no_evt` reads column 0 of the next row. | state 2 with `no_evt`: `state_table[2][4]` is row 3, column 0, the zeroed entry (id 0), while the header says state 2 | each event selects its own column (b1 → 0, b2 → 1, timeout → 2, none → 3) | not executed; latent, since the engine only looks up `no_evt` from state 0, where both give state 0 | Task2.EmptySampleLeavesRow | Task2.Lookup |
