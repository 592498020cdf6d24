/** The three-state controller of src/task2.c: two buttons rotate the LED
    pattern states, and a timeout event exists but keeps every state.

    `event_t` skips the value 2 (`timeout_evt = 3`, `no_evt = 4`) while each
    row of `state_table[5][4]` has only four columns; `main` indexes the
    table with the enumerator value, so the C lookup reads the flat
    row-major entry `4 * id + evt`. `RowMajorLookup` models that lookup as
    written and `Lookup` the one the table's column headers intend; the
    engine uses `Lookup`, and `ReachedLookupsAgree` shows that the two agree
    on every lookup the engine makes.

    Interrupts are modelled by a script: one entry per tick of the engine,
    holding the button and timer signals that arrive before that tick pops the
    queue. The infinite `for(;;)` loop of `main` is bounded by the length of
    the script. */
module Task2 {
  import opened Fifo
  import opened Leds

  /** `event_t`. */
  datatype Event = B1 | B2 | Timeout | NoEvt

  /** The enumerator value of each event, which `main` uses to index
      `state_table`. */
  function Code(e: Event): nat
  {
    match e
    case B1 => 0
    case B2 => 1
    case Timeout => 3
    case NoEvt => 4
  }

  /** The column of `state_table` whose header names the event. */
  function Column(e: Event): (c: nat)
    ensures c < 4
    ensures c == Code(e) <==> e == B1 || e == B2
  {
    match e
    case B1 => 0
    case B2 => 1
    case Timeout => 2
    case NoEvt => 3
  }

  /** `state_t` without its `Enter`/`Do`/`Exit` functions: the model dispatches
      the three phases on the id. */
  datatype State = State(id: nat, delayMs: nat)

  const State0: State := State(0, 200)
  const State1: State := State(1, 200)
  const State2: State := State(2, 200)

  /** A zero-filled `state_t`: id 0, no delay (and null phase functions). */
  const Zeroed: State := State(0, 0)

  /** The three declared states, indexed by id. */
  const Catalog: seq<State> := [State0, State1, State2]

  /** `state_table[5][4]`: rows by state id, columns headed b1, b2, timeout
      and no event; the two rows without an initialiser are zero-filled. */
  const StateTable: seq<seq<State>> := [
    [State2, State1, State0, State0],
    [State0, State2, State1, State1],
    [State1, State0, State2, State2],
    [Zeroed, Zeroed, Zeroed, Zeroed],
    [Zeroed, Zeroed, Zeroed, Zeroed]
  ]

  /** Capacity of `event_fifo`. */
  const Capacity: nat := 10

  /** The fixed delay of each tick of the sampling loop: `nrf_delay_ms(200)`,
      not the state's `delay_ms`. */
  const TickMs: nat := 200

  /** The lookup the column headers intend: row `id`, the event's own
      column. Every lookup from a declared state yields a declared state; the
      zero-filled rows yield the zeroed entry. */
  function Lookup(id: nat, e: Event): (r: State)
    requires id < |StateTable|
    ensures r.id < |Catalog|
    ensures id < |Catalog| ==> r == Catalog[r.id] && r.delayMs == 200
    ensures |Catalog| <= id ==> r == Zeroed
  {
    assert id == 0 || id == 1 || id == 2 || id == 3 || id == 4;
    StateTable[id][Column(e)]
  }

  /** The table as the C array lays it out in memory, row after row. */
  function Flat(): (f: seq<State>)
    ensures |f| == 4 * |StateTable|
    ensures forall id, c :: 0 <= id < |StateTable| && 0 <= c < 4 ==> f[4 * id + c] == StateTable[id][c]
  {
    StateTable[0] + StateTable[1] + StateTable[2] + StateTable[3] + StateTable[4]
  }

  /** `state_table[id][evt]` as written: the entry at the flat position
      `4 * id + evt`, which leaves the row when `evt` is 4. */
  function RowMajorLookup(id: nat, e: Event): State
    requires 4 * id + Code(e) < 4 * |StateTable|
  {
    Flat()[4 * id + Code(e)]
  }

  /** The discrepancy: in state 2, an empty sample reads past the end of row
      2 into the zero-filled row 3 and selects the zeroed entry, while the
      column headers say it keeps state 2. */
  lemma EmptySampleLeavesRow()
    ensures Code(NoEvt) >= 4
    ensures RowMajorLookup(2, NoEvt) == Zeroed
    ensures Lookup(2, NoEvt) == State2
  {
  }

  /** The engine only looks up `no_evt` from state 0, at start-up, and
      otherwise only declared states under the events the queue holds; for
      all of those the lookup as written and the intended one agree. */
  lemma ReachedLookupsAgree(id: nat, e: Event)
    requires id < |Catalog|
    requires e == NoEvt ==> id == State0.id
    ensures RowMajorLookup(id, e) == Lookup(id, e)
  {
    assert id == 0 || id == 1 || id == 2;
  }

  /** The timeout and the empty sample keep every declared state. */
  lemma TimeoutKeepsState(s: nat)
    requires s < |Catalog|
    ensures Lookup(s, Timeout) == Catalog[s] && Lookup(s, NoEvt) == Catalog[s]
  {
    assert s == 0 || s == 1 || s == 2;
  }

  /** Buttons 1 and 2 rotate the three states in opposite directions: each
      undoes the other, neither has a fixed point, and three presses of one
      button return to the start. */
  lemma ButtonsRotate(s: nat)
    requires s < |Catalog|
    ensures Lookup(Lookup(s, B1).id, B2).id == s && Lookup(Lookup(s, B2).id, B1).id == s
    ensures Lookup(s, B1).id != s && Lookup(s, B2).id != s
    ensures Lookup(Lookup(Lookup(s, B1).id, B1).id, B1).id == s
    ensures Lookup(Lookup(Lookup(s, B2).id, B2).id, B2).id == s
  {
    assert s == 0 || s == 1 || s == 2;
  }

  /** `btn_action` values of the button library. */
  const ButtonRelease: int := 0
  const ButtonPush: int := 1

  /** `BUTTON_1` and `BUTTON_2`, the two buttons configured: pin numbers
      from the board header, which is not part of this model; only their
      being distinct matters. */
  const Button1: int := 13
  const Button2: int := 14

  /** A signal from a producer context: a button interrupt with its pin and
      action, or the timeout timer expiring. */
  datatype Stimulus = ButtonSignal(pin: int, action: int) | TimerFired

  /** The event `button_handler` puts for a pin and action, if any. */
  function ButtonEvent(pin: int, action: int): (r: Option<Event>)
    ensures r.Some? <==> action == ButtonPush && (pin == Button1 || pin == Button2)
    ensures r.Some? ==> r.value != Timeout && r.value != NoEvt
  {
    if action != ButtonPush then None
    else if pin == Button1 then Some(B1)
    else if pin == Button2 then Some(B2)
    else None
  }

  /** Each button is mapped to its own event. */
  lemma ButtonsAreDistinguished()
    ensures ButtonEvent(Button1, ButtonPush) == Some(B1)
    ensures ButtonEvent(Button2, ButtonPush) == Some(B2)
  {
  }

  /** A release of any button, configured or not, puts nothing: only
      `APP_BUTTON_PUSH` reaches the switch. */
  lemma ReleasePutsNothing(q: seq<Event>, pin: int)
    ensures ButtonEvent(pin, ButtonRelease) == None
    ensures Delivered(q, [ButtonSignal(pin, ButtonRelease)]) == q
  {
    assert [ButtonSignal(pin, ButtonRelease)][..0] == [];
  }

  /** The event a producer puts for a stimulus, if any: `button_handler`
      for buttons, `timeout_handler` for the timer. */
  function Produced(s: Stimulus): (r: Option<Event>)
    ensures r != Some(NoEvt)
    ensures r == Some(Timeout) <==> s.TimerFired?
  {
    match s
    case ButtonSignal(pin, action) => ButtonEvent(pin, action)
    case TimerFired => Some(Timeout)
  }

  /** The queue after the producers handle `stimuli` in order, each put
      dropped when the queue is full. */
  function Delivered(q: seq<Event>, stimuli: seq<Stimulus>): seq<Event>
    decreases |stimuli|
  {
    if stimuli == [] then q
    else
      var before := Delivered(q, stimuli[..|stimuli| - 1]);
      match Produced(stimuli[|stimuli| - 1])
      case None => before
      case Some(e) => Put(before, Capacity, e)
  }

  /** The events that `stimuli` make the producers put, in order. */
  function Produces(stimuli: seq<Stimulus>): seq<Event>
    decreases |stimuli|
  {
    if stimuli == [] then []
    else
      var before := Produces(stimuli[..|stimuli| - 1]);
      match Produced(stimuli[|stimuli| - 1])
      case None => before
      case Some(e) => before + [e]
  }

  /** Delivering signals is putting the events they produce; so the queue
      never holds `no_evt`, never exceeds its capacity, and keeps the
      earliest events of a burst that overflows it. */
  lemma {:induction false} DeliveredPutsProducedEvents(q: seq<Event>, stimuli: seq<Stimulus>)
    requires |q| <= Capacity
    ensures Delivered(q, stimuli) == PutAll(q, Capacity, Produces(stimuli))
    ensures Delivered(q, stimuli) == q + Produces(stimuli)[..Min(|Produces(stimuli)|, Capacity - |q|)]
    ensures NoEvt !in Produces(stimuli)
    ensures NoEvt !in q ==> NoEvt !in Delivered(q, stimuli)
    decreases |stimuli|
  {
    if stimuli != [] {
      var init := stimuli[..|stimuli| - 1];
      DeliveredPutsProducedEvents(q, init);
      var ps := Produces(init);
      match Produced(stimuli[|stimuli| - 1])
      case None =>
      case Some(e) =>
        assert Produces(stimuli) == ps + [e];
        assert (ps + [e])[..|ps|] == ps;
    }
    PutAllKeepsEarliest(q, Capacity, Produces(stimuli));
  }

  /** `get_event` on a queue: one `Take`, with `no_evt` standing for the
      empty queue's "nothing", so the oldest event and the rest, or `no_evt`
      and the queue unchanged. */
  function Sample(q: seq<Event>): (Event, seq<Event>)
  {
    var taken := Take(q);
    (if taken.0.Some? then taken.0.value else NoEvt, taken.1)
  }

  /** Since producers never put `no_evt`, a sample of `no_evt` means exactly
      that the queue was empty. */
  lemma SampleOfEmpty(q: seq<Event>)
    requires NoEvt !in q
    ensures Sample(q).0 == NoEvt <==> q == []
    ensures q != [] ==> Sample(q) == (q[0], q[1..])
  {
  }

  /** `button_handler`: on a push of a known button, puts its event; the
      result of the put is ignored. */
  method ButtonHandler(fifo: Queue<Event>, pin: int, action: int)
    requires fifo.Valid() && fifo.capacity == Capacity
    modifies fifo
    ensures fifo.Valid()
    ensures fifo.items == Delivered(old(fifo.items), [ButtonSignal(pin, action)])
  {
    if action == ButtonPush {
      if pin == Button1 {
        var _ := fifo.AllocPut(B1);
      } else if pin == Button2 {
        var _ := fifo.AllocPut(B2);
      }
    }
  }

  /** `timeout_handler`: puts the timeout event; the result is ignored. */
  method TimeoutHandler(fifo: Queue<Event>)
    requires fifo.Valid() && fifo.capacity == Capacity
    modifies fifo
    ensures fifo.Valid()
    ensures fifo.items == Delivered(old(fifo.items), [TimerFired])
  {
    var _ := fifo.AllocPut(Timeout);
  }

  /** The producers' interrupts between two samples, handled in order. */
  method Deliver(fifo: Queue<Event>, stimuli: seq<Stimulus>)
    requires fifo.Valid() && fifo.capacity == Capacity
    modifies fifo
    ensures fifo.Valid()
    ensures fifo.items == Delivered(old(fifo.items), stimuli)
  {
    var j := 0;
    while j < |stimuli|
      invariant j <= |stimuli|
      invariant fifo.Valid()
      invariant fifo.items == Delivered(old(fifo.items), stimuli[..j])
    {
      assert stimuli[..j + 1][..j] == stimuli[..j];
      match stimuli[j] {
        case ButtonSignal(pin, action) =>
          ButtonHandler(fifo, pin, action);
        case TimerFired =>
          TimeoutHandler(fifo);
      }
      j := j + 1;
    }
    assert stimuli[..j] == stimuli;
  }

  /** `get_event`. */
  method GetEvent(fifo: Queue<Event>) returns (e: Event)
    requires fifo.Valid()
    modifies fifo
    ensures fifo.Valid()
    ensures old(fifo.items) == [] ==> e == NoEvt && fifo.items == old(fifo.items)
    ensures old(fifo.items) != [] ==> e == old(fifo.items)[0] && fifo.items == old(fifo.items)[1..]
    ensures (e, fifo.items) == Sample(old(fifo.items))
  {
    e := NoEvt;
    var r := fifo.GetFree();
    if r.Some? {
      e := r.value;
    }
  }

  /** What the engine's trace records: a state's `Enter`, one `Do` per tick,
      and its `Exit`, annotated with the event that ended its sampling
      loop. */
  datatype Action = Enter(id: nat) | Do(id: nat) | Exit(id: nat, cause: Event)

  /** The trace of an activation of state `id` from its sampling loop on,
      with `q` queued and `script` left to run: each tick acts, takes the
      tick's signals, samples one event, and either continues or exits and
      resumes the outer loop with that event. */
  function Ticks(id: nat, q: seq<Event>, script: seq<seq<Stimulus>>): seq<Action>
    requires id < |StateTable|
    decreases |script|, 0
  {
    if script == [] then []
    else
      var sampled := Sample(Delivered(q, script[0]));
      if sampled.0 == NoEvt then [Do(id)] + Ticks(id, sampled.1, script[1..])
      else [Do(id), Exit(id, sampled.0)] + Resume(id, sampled.0, sampled.1, script[1..])
  }

  /** The trace of one iteration of the outer loop and what follows: look up
      the successor of `id` under `e`, enter it, run its ticks. */
  function Resume(id: nat, e: Event, q: seq<Event>, script: seq<seq<Stimulus>>): seq<Action>
    requires id < |StateTable|
    decreases |script|, 1
  {
    var next := Lookup(id, e);
    [Enter(next.id)] + Ticks(next.id, q, script)
  }

  /** The trace of `main` over a script: it starts in `state0` with `no_evt`
      and an empty queue. */
  function Trace(script: seq<seq<Stimulus>>): seq<Action>
  {
    Resume(State0.id, NoEvt, [], script)
  }

  /** Which action may follow which: `Enter(s)` is followed by `Do(s)`;
      `Do(s)` by another `Do(s)` or by `Exit(s, e)` for an event `e` that is
      not `no_evt`; `Exit(s, e)` by entering the table's successor of `s`
      under `e`. */
  predicate Adjacent(a: Action, b: Action)
  {
    match a
    case Enter(s) => b == Do(s)
    case Do(s) => b == Do(s) || (b.Exit? && b.id == s && b.cause != NoEvt)
    case Exit(s, e) => s < |StateTable| && b == Enter(Lookup(s, e).id)
  }

  /** The lifecycle protocol: the trace starts by entering the table's
      successor of state 0 under `no_evt`, and every step is `Adjacent`. */
  predicate Lifecycle(t: seq<Action>)
  {
    (t != [] ==> t[0] == Enter(Lookup(State0.id, NoEvt).id)) && Steps(t)
  }

  /** Every step of `t` is `Adjacent`. */
  predicate Steps(t: seq<Action>)
  {
    forall i :: 0 <= i < |t| - 1 ==> Adjacent(t[i], t[i + 1])
  }

  lemma StepsCons(a: Action, t: seq<Action>)
    requires Steps(t)
    requires t != [] ==> Adjacent(a, t[0])
    ensures Steps([a] + t)
  {
    var u := [a] + t;
    forall i | 0 <= i < |u| - 1
      ensures Adjacent(u[i], u[i + 1])
    {
      if i > 0 {
        assert u[i] == t[i - 1] && u[i + 1] == t[i];
      }
    }
  }

  lemma {:induction false} TicksSteps(id: nat, q: seq<Event>, script: seq<seq<Stimulus>>)
    requires id < |StateTable|
    ensures script != [] ==> Ticks(id, q, script)[0] == Do(id)
    ensures Steps(Ticks(id, q, script))
    decreases |script|, 0
  {
    if script != [] {
      var (e, rest) := Sample(Delivered(q, script[0]));
      if e == NoEvt {
        TicksSteps(id, rest, script[1..]);
        StepsCons(Do(id), Ticks(id, rest, script[1..]));
      } else {
        var r := Resume(id, e, rest, script[1..]);
        ResumeSteps(id, e, rest, script[1..]);
        StepsCons(Exit(id, e), r);
        StepsCons(Do(id), [Exit(id, e)] + r);
        assert [Do(id), Exit(id, e)] + r == [Do(id)] + ([Exit(id, e)] + r);
      }
    }
  }

  lemma {:induction false} ResumeSteps(id: nat, e: Event, q: seq<Event>, script: seq<seq<Stimulus>>)
    requires id < |StateTable|
    ensures Resume(id, e, q, script)[0] == Enter(Lookup(id, e).id)
    ensures Steps(Resume(id, e, q, script))
    decreases |script|, 1
  {
    var next := Lookup(id, e).id;
    TicksSteps(next, q, script);
    StepsCons(Enter(next), Ticks(next, q, script));
  }

  /** The engine follows the lifecycle protocol on every script. */
  lemma TraceFollowsLifecycle(script: seq<seq<Stimulus>>)
    ensures Trace(script) != []
    ensures Lifecycle(Trace(script))
  {
    ResumeSteps(State0.id, NoEvt, [], script);
  }

  /** The first lookup, `state_table[0][no_evt]`, enters state 0. */
  lemma InitialState()
    ensures Lookup(State0.id, NoEvt) == State0
  {
  }

  /** Only declared state ids are ever entered, acted in or exited, so the
      intended lookup never indexes the zero-filled rows 3 and 4. */
  lemma {:induction false} LifecycleStaysDeclared(t: seq<Action>, j: nat)
    requires Lifecycle(t) && j < |t|
    ensures t[j].id < |Catalog|
  {
    if j > 0 {
      LifecycleStaysDeclared(t, j - 1);
      assert Adjacent(t[j - 1], t[j]);
    }
  }

  /** `Do` never happens outside an activation: every `Do(s)` is preceded by
      an `Enter(s)` with only `Do(s)` in between. */
  lemma {:induction false} DoFollowsEnter(t: seq<Action>, j: nat)
    requires Lifecycle(t) && j < |t| && t[j].Do?
    ensures exists i :: 0 <= i < j && t[i] == Enter(t[j].id)
                        && forall k :: i < k < j ==> t[k] == Do(t[j].id)
  {
    assert j > 0;
    assert Adjacent(t[j - 1], t[j]);
    if t[j - 1].Enter? {
      assert t[j - 1] == Enter(t[j].id);
    } else {
      DoFollowsEnter(t, j - 1);
      var i :| 0 <= i < j - 1 && t[i] == Enter(t[j - 1].id)
               && forall k :: i < k < j - 1 ==> t[k] == Do(t[j - 1].id);
      assert forall k :: i < k < j ==> t[k] == Do(t[j].id);
    }
  }

  /** Every `Exit` closes the activation it follows, after a sampled event
      that is not `no_evt`, and every `Enter` but the first is the table's
      successor under that same event: only the first lookup uses
      `no_evt`. */
  lemma ExitAndReentry(t: seq<Action>, j: nat)
    requires Lifecycle(t) && j < |t|
    ensures t[j].Exit? ==> 0 < j && t[j - 1] == Do(t[j].id) && t[j].cause != NoEvt
    ensures t[j].Enter? && 0 < j ==>
              t[j - 1].Exit? && t[j - 1].cause != NoEvt
              && t[j].id == Lookup(t[j - 1].id, t[j - 1].cause).id
  {
    if 0 < j {
      assert Adjacent(t[j - 1], t[j]);
      if 1 < j {
        assert Adjacent(t[j - 2], t[j - 1]);
      }
    }
  }

  /** Every state the engine enters is, as a whole record and not only by
      id, the one the table lookup as written selects: the start-up lookup of
      `no_evt` from state 0 and every later lookup, of a declared state under
      the event that ended its sampling loop, land on an initialised entry,
      never on a zero-filled one. */
  lemma EnteredAsWritten(t: seq<Action>, j: nat)
    requires Lifecycle(t) && j < |t| && t[j].Enter?
    ensures j == 0 ==> t[j].id < |Catalog| && RowMajorLookup(State0.id, NoEvt) == Catalog[t[j].id]
    ensures 0 < j ==> t[j - 1].Exit? && t[j - 1].id < |Catalog| && t[j].id < |Catalog|
                      && RowMajorLookup(t[j - 1].id, t[j - 1].cause) == Catalog[t[j].id]
  {
    if j == 0 {
      ReachedLookupsAgree(State0.id, NoEvt);
    } else {
      ExitAndReentry(t, j);
      LifecycleStaysDeclared(t, j - 1);
      var prev := t[j - 1];
      ReachedLookupsAgree(prev.id, prev.cause);
    }
  }

  /** Number of `Do(s)` actions in a trace. */
  function DoCount(t: seq<Action>, s: nat): nat
  {
    if t == [] then 0 else (if t[0] == Do(s) then 1 else 0) + DoCount(t[1..], s)
  }

  /** Number of `Do` actions of any state in a trace: the ticks it records. */
  function TickCount(t: seq<Action>): nat
  {
    if t == [] then 0 else (if t[0].Do? then 1 else 0) + TickCount(t[1..])
  }

  lemma {:induction false} CountsAppend(t: seq<Action>, u: seq<Action>, s: nat)
    ensures DoCount(t + u, s) == DoCount(t, s) + DoCount(u, s)
    ensures TickCount(t + u) == TickCount(t) + TickCount(u)
  {
    if t == [] {
      assert t + u == u;
    } else {
      assert (t + u)[0] == t[0] && (t + u)[1..] == t[1..] + u;
      CountsAppend(t[1..], u, s);
    }
  }

  lemma {:induction false} TicksTickCount(id: nat, q: seq<Event>, script: seq<seq<Stimulus>>)
    requires id < |StateTable|
    ensures TickCount(Ticks(id, q, script)) == |script|
    decreases |script|, 0
  {
    if script != [] {
      var (e, rest) := Sample(Delivered(q, script[0]));
      if e == NoEvt {
        TicksTickCount(id, rest, script[1..]);
        CountsAppend([Do(id)], Ticks(id, rest, script[1..]), 0);
      } else {
        ResumeTickCount(id, e, rest, script[1..]);
        CountsAppend([Do(id), Exit(id, e)], Resume(id, e, rest, script[1..]), 0);
      }
    }
  }

  lemma {:induction false} ResumeTickCount(id: nat, e: Event, q: seq<Event>, script: seq<seq<Stimulus>>)
    requires id < |StateTable|
    ensures TickCount(Resume(id, e, q, script)) == |script|
    decreases |script|, 1
  {
    var next := Lookup(id, e).id;
    TicksTickCount(next, q, script);
    CountsAppend([Enter(next)], Ticks(next, q, script), 0);
  }

  /** Each tick acts exactly once and samples exactly one event. */
  lemma OneDoPerTick(script: seq<seq<Stimulus>>)
    ensures TickCount(Trace(script)) == |script|
  {
    ResumeTickCount(State0.id, NoEvt, [], script);
  }

  /** `n` ticks without any input: state 0 is entered once and acts on
      every tick, and it is never exited. */
  function Idle(n: nat): seq<seq<Stimulus>>
  {
    seq(n, _ => [])
  }

  lemma {:induction false} IdleTicks(id: nat, n: nat)
    requires id < |StateTable|
    ensures Ticks(id, [], Idle(n)) == seq(n, _ => Do(id))
  {
    if n > 0 {
      assert Idle(n)[0] == [] && Idle(n)[1..] == Idle(n - 1);
      IdleTicks(id, n - 1);
      assert seq(n, _ => Do(id)) == [Do(id)] + seq(n - 1, _ => Do(id));
    }
  }

  lemma IdleStaysInitial(n: nat)
    ensures Trace(Idle(n)) == [Enter(0)] + seq(n, _ => Do(0))
  {
    IdleTicks(0, n);
  }

  /** A tick without signals on an empty queue only acts. */
  lemma QuietTick(id: nat, script: seq<seq<Stimulus>>)
    requires id < |StateTable|
    ensures Ticks(id, [], [[]] + script) == [Do(id)] + Ticks(id, [], script)
  {
    assert ([[]] + script)[0] == [] && ([[]] + script)[1..] == script;
  }

  /** A tick with a single signal that produces an event, on an empty
      queue, ends the activation and enters the successor under that
      event. */
  lemma SignalTick(id: nat, stimulus: Stimulus, script: seq<seq<Stimulus>>)
    requires id < |StateTable| && Produced(stimulus).Some?
    ensures var e := Produced(stimulus).value;
            Ticks(id, [], [[stimulus]] + script)
            == [Do(id), Exit(id, e), Enter(Lookup(id, e).id)] + Ticks(Lookup(id, e).id, [], script)
  {
    var e := Produced(stimulus).value;
    assert [stimulus][..0] == [];
    assert Delivered([], [stimulus]) == [e];
    assert ([[stimulus]] + script)[0] == [stimulus] && ([[stimulus]] + script)[1..] == script;
    assert [e][1..] == [];
    assert Sample([e]) == (e, []);
  }

  /** Button 1 then button 2 returns to state 0 through state 2, and the
      timeout in state 0 is a full exit and re-entry of state 0. */
  lemma RotateAndReturn()
    ensures Trace([[ButtonSignal(Button1, ButtonPush)], [ButtonSignal(Button2, ButtonPush)],
                   [TimerFired], []])
            == [Enter(0), Do(0), Exit(0, B1),
                Enter(2), Do(2), Exit(2, B2),
                Enter(0), Do(0), Exit(0, Timeout),
                Enter(0), Do(0)]
  {
    var press1 := ButtonSignal(Button1, ButtonPush);
    var press2 := ButtonSignal(Button2, ButtonPush);
    var s2: seq<seq<Stimulus>> := [[TimerFired], []];
    var s1 := [[press2]] + s2;
    QuietTick(0, []);
    SignalTick(0, TimerFired, [[]]);
    SignalTick(2, press2, s2);
    SignalTick(0, press1, s1);
    assert [[press1], [press2], [TimerFired], []] == [[press1]] + s1;
  }

  // The `Enter` and `Exit` phases of every state only log.

  /** The `Do` phase of state `id`: `do_state_0` to `do_state_2`. */
  method DoPhase(panel: Panel, id: nat)
    requires panel.Valid() && id < |Catalog|
    modifies panel
    ensures panel.Valid()
    ensures panel.clockWiseNum
            == if id == 0 then (old(panel.clockWiseNum) + 1) % 4 else old(panel.clockWiseNum)
    ensures panel.counterClockWiseNum
            == if id == 2 then (old(panel.counterClockWiseNum) + 1) % 4 else old(panel.counterClockWiseNum)
    ensures panel.fading == old(panel.fading)
    ensures id == 0 ==> panel.lit == {ClockWise[old(panel.clockWiseNum)]}
    ensures id == 1 ==> panel.lit == AllLeds
    ensures id == 2 ==> panel.lit == {CounterClockWise[old(panel.counterClockWiseNum)]}
  {
    if id == 0 {
      panel.RotateClockWise();
    } else if id == 1 {
      panel.Blink();
    } else {
      panel.RotateCounterClockWise();
    }
  }

  /** One tick of an activation after the trace `trace`, unfolded: act,
      then sample one event from the queue as the tick's signals leave it. */
  lemma TickUnfold(trace: seq<Action>, id: nat, q: seq<Event>, script: seq<seq<Stimulus>>, t: nat,
                   e: Event, rest: seq<Event>)
    requires id < |StateTable| && t < |script|
    requires (e, rest) == Sample(Delivered(q, script[t]))
    ensures e == NoEvt ==> trace + Ticks(id, q, script[t..]) == (trace + [Do(id)]) + Ticks(id, rest, script[t + 1..])
    ensures e != NoEvt ==> trace + Ticks(id, q, script[t..])
                           == (trace + [Do(id)]) + [Exit(id, e)] + Resume(id, e, rest, script[t + 1..])
  {
    assert script[t..][0] == script[t] && script[t..][1..] == script[t + 1..];
    if e == NoEvt {
      assert trace + ([Do(id)] + Ticks(id, rest, script[t + 1..])) == (trace + [Do(id)]) + Ticks(id, rest, script[t + 1..]);
    } else {
      var r := Resume(id, e, rest, script[t + 1..]);
      assert trace + ([Do(id), Exit(id, e)] + r) == (trace + [Do(id)]) + [Exit(id, e)] + r;
    }
  }

  /** One iteration of the outer loop after the trace `trace`, unfolded:
      look up the successor and enter it. */
  lemma ResumeUnfold(trace: seq<Action>, id: nat, e: Event, q: seq<Event>, script: seq<seq<Stimulus>>)
    requires id < |StateTable|
    ensures trace + Resume(id, e, q, script)
            == (trace + [Enter(Lookup(id, e).id)]) + Ticks(Lookup(id, e).id, q, script)
  {
    var next := Lookup(id, e).id;
    assert trace + ([Enter(next)] + Ticks(next, q, script)) == (trace + [Enter(next)]) + Ticks(next, q, script);
  }

  /** The LEDs lit after the actions of `t`: what the latest `Do` of a
      rotating or blinking state left on, or none before the first. `Enter`,
      `Exit` leave the LEDs alone. */
  ghost function LitAfter(t: seq<Action>): set<nat>
  {
    if t == [] then {}
    else
      var prefix, a := t[..|t| - 1], t[|t| - 1];
      if a == Do(0) then {LitByCall(ClockWise, DoCount(prefix, 0))}
      else if a == Do(1) then AllLeds
      else if a == Do(2) then {LitByCall(CounterClockWise, DoCount(prefix, 2))}
      else LitAfter(prefix)
  }

  lemma EffectsSnoc(t: seq<Action>, a: Action)
    ensures DoCount(t + [a], 0) == DoCount(t, 0) + (if a == Do(0) then 1 else 0)
    ensures DoCount(t + [a], 2) == DoCount(t, 2) + (if a == Do(2) then 1 else 0)
    ensures LitAfter(t + [a])
            == if a == Do(0) then {LitByCall(ClockWise, DoCount(t, 0))}
               else if a == Do(1) then AllLeds
               else if a == Do(2) then {LitByCall(CounterClockWise, DoCount(t, 2))}
               else LitAfter(t)
  {
    CountsAppend(t, [a], 0);
    CountsAppend(t, [a], 2);
    assert [a][1..] == [];
    assert (t + [a])[..|t|] == t;
  }

  /** What the LEDs show after a trace, by its last action: a rotating `Do`
      lights the pattern entry of that state's latest call, `do_state_1`
      lights every LED, and any other action leaves them as they were. */
  /** `lit` is what the last action of `t` leaves on when that action is
      the `Do` of a rotating or blinking state: the pattern entry of that
      state's latest call for states 0 and 2, every LED for state 1. */
  ghost predicate ShowsLastDo(t: seq<Action>, lit: set<nat>)
    requires t != []
  {
    && (t[|t| - 1] == Do(0) ==> lit == {ClockWise[(DoCount(t, 0) - 1) % 4]})
    && (t[|t| - 1] == Do(1) ==> lit == AllLeds)
    && (t[|t| - 1] == Do(2) ==> lit == {CounterClockWise[(DoCount(t, 2) - 1) % 4]})
  }

  lemma LitAfterLast(t: seq<Action>)
    requires t != []
    ensures ShowsLastDo(t, LitAfter(t))
    ensures t[|t| - 1] != Do(0) && t[|t| - 1] != Do(1) && t[|t| - 1] != Do(2)
            ==> LitAfter(t) == LitAfter(t[..|t| - 1])
  {
    var prefix, a := t[..|t| - 1], t[|t| - 1];
    assert prefix + [a] == t;
    EffectsSnoc(prefix, a);
    if a == Do(0) {
      RotationCycle(ClockWise, DoCount(prefix, 0));
      assert LitAfter(t) == {ClockWise[(DoCount(t, 0) - 1) % 4]};
    } else if a == Do(2) {
      RotationCycle(CounterClockWise, DoCount(prefix, 2));
      assert LitAfter(t) == {CounterClockWise[(DoCount(t, 2) - 1) % 4]};
    }
  }

  /** The panel's `led_num` counters have stepped once per `Do` of their
      state in the trace, and its LEDs show what the trace's latest `Do`
      left on. */
  ghost predicate PanelMatches(panel: Panel, trace: seq<Action>)
    reads panel
  {
    panel.Valid()
    && panel.clockWiseNum == CounterAfter(DoCount(trace, 0))
    && panel.counterClockWiseNum == CounterAfter(DoCount(trace, 2))
    && panel.lit == LitAfter(trace)
  }

  /** One pass of the sampling loop's body before its delay: the state's
      `Do` phase, then the signals that arrive, then `get_event`. The panel,
      which matched `trace`, matches it with this tick's `Do`: the LEDs are
      what that state's `Do` phase leaves on. */
  method Tick(fifo: Queue<Event>, panel: Panel, id: nat, stimuli: seq<Stimulus>, ghost trace: seq<Action>)
    returns (evt: Event)
    requires fifo.Valid() && fifo.capacity == Capacity
    requires PanelMatches(panel, trace) && id < |Catalog|
    modifies fifo, panel
    ensures fifo.Valid()
    ensures (evt, fifo.items) == Sample(Delivered(old(fifo.items), stimuli))
    ensures PanelMatches(panel, trace + [Do(id)])
    ensures id == 0 ==> panel.lit == {ClockWise[old(panel.clockWiseNum)]}
    ensures id == 1 ==> panel.lit == AllLeds
    ensures id == 2 ==> panel.lit == {CounterClockWise[old(panel.counterClockWiseNum)]}
  {
    DoPhase(panel, id);
    EffectsSnoc(trace, Do(id));
    Deliver(fifo, stimuli);
    evt := GetEvent(fifo);
  }

  /** The sampling loop of one activation of `current`, the inner `while(1)`
      of `main`: act, take the tick's signals, sample one event, wait the
      fixed tick delay; stop at the first event that is not `no_evt`, or
      when the script runs out. `goal` is the trace of the whole run. */
  method SamplingLoop(fifo: Queue<Event>, panel: Panel, current: State, script: seq<seq<Stimulus>>,
                      t0: nat, trace0: seq<Action>, elapsed0: nat, ghost goal: seq<Action>)
    returns (evt: Event, t: nat, trace: seq<Action>, elapsedMs: nat)
    requires t0 <= |script|
    requires fifo.Valid() && fifo.capacity == Capacity
    requires PanelMatches(panel, trace0)
    requires current.id < |Catalog|
    requires trace0 + Ticks(current.id, fifo.items, script[t0..]) == goal
    modifies fifo, panel
    ensures t0 <= t <= |script| && elapsedMs == elapsed0 + TickMs * (t - t0)
    ensures fifo.Valid() && PanelMatches(panel, trace)
    ensures evt == NoEvt ==> t == |script| && trace == goal
    ensures evt != NoEvt ==> t0 < t
                             && trace + [Exit(current.id, evt)] + Resume(current.id, evt, fifo.items, script[t..])
                                == goal
  {
    t, trace, elapsedMs := t0, trace0, elapsed0;
    evt := NoEvt;
    while t < |script| && evt == NoEvt
      invariant t0 <= t <= |script|
      invariant fifo.Valid() && fifo.capacity == Capacity
      invariant PanelMatches(panel, trace)
      invariant evt == NoEvt ==> trace + Ticks(current.id, fifo.items, script[t..]) == goal
      invariant evt != NoEvt ==> t0 < t
                                 && trace + [Exit(current.id, evt)] + Resume(current.id, evt, fifo.items, script[t..])
                                    == goal
      invariant elapsedMs == elapsed0 + TickMs * (t - t0)
      decreases |script| - t
    {
      ghost var q := fifo.items;
      evt := Tick(fifo, panel, current.id, script[t], trace);
      TickUnfold(trace, current.id, q, script, t, evt, fifo.items);
      trace := trace + [Do(current.id)];
      elapsedMs := elapsedMs + TickMs;
      t := t + 1;
    }
  }

  /** One iteration of the outer `for(;;)` of `main`: look up the
      successor of `id` under `evt`, enter it, and run its sampling loop;
      the `Exit` phase only logs, so the trace records it and nothing else
      changes. The queue and the trace so far, followed by `Resume` of the
      rest of the script, make up `goal` before and after. */
  method Activate(fifo: Queue<Event>, panel: Panel, id: nat, evt0: Event, script: seq<seq<Stimulus>>,
                  t0: nat, trace0: seq<Action>, elapsed0: nat, ghost goal: seq<Action>)
    returns (current: State, evt: Event, t: nat, trace: seq<Action>, elapsedMs: nat)
    requires t0 <= |script| && id < |Catalog|
    requires fifo.Valid() && fifo.capacity == Capacity
    requires PanelMatches(panel, trace0)
    requires trace0 + Resume(id, evt0, fifo.items, script[t0..]) == goal
    modifies fifo, panel
    ensures t0 <= t <= |script| && elapsedMs == elapsed0 + TickMs * (t - t0)
    ensures fifo.Valid() && PanelMatches(panel, trace) && current.id < |Catalog|
    ensures evt == NoEvt ==> t == |script| && trace == goal
    ensures evt != NoEvt ==> t0 < t && trace + Resume(current.id, evt, fifo.items, script[t..]) == goal
  {
    ResumeUnfold(trace0, id, evt0, fifo.items, script[t0..]);
    current := Lookup(id, evt0);
    EffectsSnoc(trace0, Enter(current.id));
    evt, t, trace, elapsedMs := SamplingLoop(fifo, panel, current, script, t0, trace0 + [Enter(current.id)], elapsed0, goal);
    if evt != NoEvt {
      EffectsSnoc(trace, Exit(current.id, evt));
      trace := trace + [Exit(current.id, evt)];
    }
  }

  /** `main` over a script of `|script|` ticks. It returns its trace, the
      time its tick delays take, and the final `led_num` counters of
      `do_state_0` and `do_state_2`, and (as a ghost) the lit LEDs. The
      trace is `Trace(script)`; the counters count that state's `Do` calls
      across all its activations, modulo 4; the LEDs are those the last `Do`
      left on. */
  method Run(script: seq<seq<Stimulus>>)
    returns (trace: seq<Action>, elapsedMs: nat, clockWiseNum: int, counterClockWiseNum: int, ghost lit: set<nat>)
    ensures trace == Trace(script)
    ensures elapsedMs == TickMs * |script|
    ensures clockWiseNum == DoCount(trace, 0) % 4
    ensures counterClockWiseNum == DoCount(trace, 2) % 4
    ensures trace != []
    ensures lit == LitAfter(trace)
    ensures ShowsLastDo(trace, lit)
  {
    var fifo := new Queue<Event>(Capacity);
    var panel := new Panel();
    var current := State0;
    var evt := NoEvt;
    var t := 0;
    trace, elapsedMs := [], 0;
    while true
      invariant t <= |script|
      invariant fifo.Valid() && fifo.capacity == Capacity
      invariant PanelMatches(panel, trace)
      invariant current.id < |Catalog|
      invariant trace + Resume(current.id, evt, fifo.items, script[t..]) == Trace(script)
      invariant elapsedMs == TickMs * t
      decreases |script| - t
    {
      current, evt, t, trace, elapsedMs := Activate(fifo, panel, current.id, evt, script, t, trace, elapsedMs, Trace(script));
      if evt == NoEvt {
        clockWiseNum, counterClockWiseNum := panel.clockWiseNum, panel.counterClockWiseNum;
        lit := panel.lit;
        TraceFollowsLifecycle(script);
        assert clockWiseNum == DoCount(trace, 0) % 4 by { CounterIsCallsModFour(DoCount(trace, 0)); }
        assert counterClockWiseNum == DoCount(trace, 2) % 4 by { CounterIsCallsModFour(DoCount(trace, 2)); }
        assert ShowsLastDo(trace, lit) by { LitAfterLast(trace); }
        return;
      }
    }
  }
}
