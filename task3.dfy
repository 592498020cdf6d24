/** The four-state controller of src/task3.c: three buttons, a single-shot
    timer, and a locked "fading" state 3 that only the timeout leaves.

    Interrupts are modelled by a script: one entry per tick of the engine,
    holding the button and timer signals that arrive before that tick pops the
    queue. The infinite `for(;;)` loop of `main` is bounded by the length of
    the script. */
module Task3 {
  import opened Fifo
  import opened Leds

  /** `event_t`. */
  datatype Event = B1 | B2 | B3 | Timeout | NoEvt

  /** The enumerator value of each event, which `main` uses as the column of
      `state_table`. */
  function Code(e: Event): nat
  {
    match e
    case B1 => 0
    case B2 => 1
    case B3 => 2
    case Timeout => 3
    case NoEvt => 4
  }

  /** `state_t` without its `Enter`/`Do`/`Exit` functions: the model dispatches
      the three phases on the id. */
  datatype State = State(id: nat, delayMs: nat)

  const State0: State := State(0, 200)
  const State1: State := State(1, 200)
  const State2: State := State(2, 200)
  const State3: State := State(3, 200)

  /** A zero-filled `state_t`: id 0, no delay (and null phase functions). */
  const Zeroed: State := State(0, 0)

  /** The four declared states, indexed by id. */
  const Catalog: seq<State> := [State0, State1, State2, State3]

  /** `state_table[6][5]`: rows by state id, columns by event value; the two
      rows without an initialiser are zero-filled. */
  const StateTable: seq<seq<State>> := [
    [State2, State1, State3, State0, State0],
    [State0, State2, State3, State1, State1],
    [State1, State0, State3, State2, State2],
    [State3, State3, State3, State0, State3],
    [Zeroed, Zeroed, Zeroed, Zeroed, Zeroed],
    [Zeroed, Zeroed, Zeroed, Zeroed, Zeroed]
  ]

  /** Capacity of `event_fifo`. */
  const Capacity: nat := 10

  /** `state_table[id][evt]`. Every lookup from a declared state yields a
      declared state; the zero-filled rows yield the zeroed entry. */
  function Lookup(id: nat, e: Event): (r: State)
    requires id < |StateTable|
    ensures r.id < |Catalog|
    ensures id < |Catalog| ==> r == Catalog[r.id] && r.delayMs == 200
    ensures |Catalog| <= id ==> r == Zeroed
  {
    assert id == 0 || id == 1 || id == 2 || id == 3 || id == 4 || id == 5;
    StateTable[id][Code(e)]
  }

  /** The locked state: every button and the empty sample keep state 3; only
      the timeout leaves it, for state 0. */
  lemma LockedState(e: Event)
    ensures Lookup(3, e) == (if e == Timeout then State0 else State3)
  {
  }

  /** From states 0 to 2, button 3 locks (state 3); the timeout and the
      empty sample keep the state; buttons 1 and 2 rotate the three states
      in opposite directions, so each undoes the other and neither has a
      fixed point. */
  lemma UnlockedStates(s: nat)
    requires s < 3
    ensures Lookup(s, B3) == State3
    ensures Lookup(s, Timeout).id == s && Lookup(s, NoEvt).id == s
    ensures Lookup(Lookup(s, B1).id, B2).id == s && Lookup(Lookup(s, B2).id, B1).id == s
    ensures Lookup(s, B1).id < 3 && Lookup(s, B1).id != s
    ensures Lookup(s, B2).id < 3 && Lookup(s, B2).id != s
  {
    assert s == 0 || s == 1 || s == 2;
  }

  /** `btn_action` values of the button library. */
  const ButtonRelease: int := 0
  const ButtonPush: int := 1

  /** `BUTTON_1` to `BUTTON_3`: pin numbers from the board header, which is
      not part of this model; only their being distinct matters. */
  const Button1: int := 13
  const Button2: int := 14
  const Button3: int := 15

  /** A signal from a producer context: a button interrupt with its pin and
      action, or the timeout timer expiring. */
  datatype Stimulus = ButtonSignal(pin: int, action: int) | TimerFired

  /** The event `button_handler` puts for a pin and action, if any. */
  function ButtonEvent(pin: int, action: int): (r: Option<Event>)
    ensures r.Some? <==> action == ButtonPush && (pin == Button1 || pin == Button2 || pin == Button3)
    ensures r.Some? ==> r.value != Timeout && r.value != NoEvt
  {
    if action != ButtonPush then None
    else if pin == Button1 then Some(B1)
    else if pin == Button2 then Some(B2)
    else if pin == Button3 then Some(B3)
    else None
  }

  /** Each button is mapped to its own event. */
  lemma ButtonsAreDistinguished()
    ensures ButtonEvent(Button1, ButtonPush) == Some(B1)
    ensures ButtonEvent(Button2, ButtonPush) == Some(B2)
    ensures ButtonEvent(Button3, ButtonPush) == Some(B3)
  {
  }

  /** A release of any button, configured or not, puts nothing: only
      `APP_BUTTON_PUSH` reaches the switch. */
  lemma ReleasePutsNothing(q: seq<Event>, pin: int)
    ensures ButtonEvent(pin, ButtonRelease) == None
    ensures Delivered(q, [ButtonSignal(pin, ButtonRelease)]) == q
  {
    assert [ButtonSignal(pin, ButtonRelease)][..0] == [];
  }

  /** The event a producer puts for a stimulus, if any: `button_handler`
      for buttons, `timeout_handler` for the timer. */
  function Produced(s: Stimulus): (r: Option<Event>)
    ensures r != Some(NoEvt)
    ensures r == Some(Timeout) <==> s.TimerFired?
  {
    match s
    case ButtonSignal(pin, action) => ButtonEvent(pin, action)
    case TimerFired => Some(Timeout)
  }

  /** The queue after the producers handle `stimuli` in order, each put
      dropped when the queue is full. */
  function Delivered(q: seq<Event>, stimuli: seq<Stimulus>): seq<Event>
    decreases |stimuli|
  {
    if stimuli == [] then q
    else
      var before := Delivered(q, stimuli[..|stimuli| - 1]);
      match Produced(stimuli[|stimuli| - 1])
      case None => before
      case Some(e) => Put(before, Capacity, e)
  }

  /** The events that `stimuli` make the producers put, in order. */
  function Produces(stimuli: seq<Stimulus>): seq<Event>
    decreases |stimuli|
  {
    if stimuli == [] then []
    else
      var before := Produces(stimuli[..|stimuli| - 1]);
      match Produced(stimuli[|stimuli| - 1])
      case None => before
      case Some(e) => before + [e]
  }

  /** Delivering signals is putting the events they produce; so the queue
      never holds `no_evt`, never exceeds its capacity, and keeps the
      earliest events of a burst that overflows it. */
  lemma {:induction false} DeliveredPutsProducedEvents(q: seq<Event>, stimuli: seq<Stimulus>)
    requires |q| <= Capacity
    ensures Delivered(q, stimuli) == PutAll(q, Capacity, Produces(stimuli))
    ensures Delivered(q, stimuli) == q + Produces(stimuli)[..Min(|Produces(stimuli)|, Capacity - |q|)]
    ensures NoEvt !in Produces(stimuli)
    ensures NoEvt !in q ==> NoEvt !in Delivered(q, stimuli)
    decreases |stimuli|
  {
    if stimuli != [] {
      var init := stimuli[..|stimuli| - 1];
      DeliveredPutsProducedEvents(q, init);
      var ps := Produces(init);
      match Produced(stimuli[|stimuli| - 1])
      case None =>
      case Some(e) =>
        assert Produces(stimuli) == ps + [e];
        assert (ps + [e])[..|ps|] == ps;
    }
    PutAllKeepsEarliest(q, Capacity, Produces(stimuli));
  }

  /** `get_event` on a queue: one `Take`, with `no_evt` standing for the
      empty queue's "nothing", so the oldest event and the rest, or `no_evt`
      and the queue unchanged. */
  function Sample(q: seq<Event>): (Event, seq<Event>)
  {
    var taken := Take(q);
    (if taken.0.Some? then taken.0.value else NoEvt, taken.1)
  }

  /** Since producers never put `no_evt`, a sample of `no_evt` means exactly
      that the queue was empty. */
  lemma SampleOfEmpty(q: seq<Event>)
    requires NoEvt !in q
    ensures Sample(q).0 == NoEvt <==> q == []
    ensures q != [] ==> Sample(q) == (q[0], q[1..])
  {
  }

  /** `button_handler`: on a push of a known button, puts its event; the
      result of the put is ignored. */
  method ButtonHandler(fifo: Queue<Event>, pin: int, action: int)
    requires fifo.Valid() && fifo.capacity == Capacity
    modifies fifo
    ensures fifo.Valid()
    ensures fifo.items == Delivered(old(fifo.items), [ButtonSignal(pin, action)])
  {
    if action == ButtonPush {
      if pin == Button1 {
        var _ := fifo.AllocPut(B1);
      } else if pin == Button2 {
        var _ := fifo.AllocPut(B2);
      } else if pin == Button3 {
        var _ := fifo.AllocPut(B3);
      }
    }
  }

  /** `timeout_handler`: puts the timeout event; the result is ignored. */
  method TimeoutHandler(fifo: Queue<Event>)
    requires fifo.Valid() && fifo.capacity == Capacity
    modifies fifo
    ensures fifo.Valid()
    ensures fifo.items == Delivered(old(fifo.items), [TimerFired])
  {
    var _ := fifo.AllocPut(Timeout);
  }

  /** The producers' interrupts between two samples, handled in order. */
  method Deliver(fifo: Queue<Event>, stimuli: seq<Stimulus>)
    requires fifo.Valid() && fifo.capacity == Capacity
    modifies fifo
    ensures fifo.Valid()
    ensures fifo.items == Delivered(old(fifo.items), stimuli)
  {
    var j := 0;
    while j < |stimuli|
      invariant j <= |stimuli|
      invariant fifo.Valid()
      invariant fifo.items == Delivered(old(fifo.items), stimuli[..j])
    {
      assert stimuli[..j + 1][..j] == stimuli[..j];
      match stimuli[j] {
        case ButtonSignal(pin, action) =>
          ButtonHandler(fifo, pin, action);
        case TimerFired =>
          TimeoutHandler(fifo);
      }
      j := j + 1;
    }
    assert stimuli[..j] == stimuli;
  }

  /** `get_event`. */
  method GetEvent(fifo: Queue<Event>) returns (e: Event)
    requires fifo.Valid()
    modifies fifo
    ensures fifo.Valid()
    ensures old(fifo.items) == [] ==> e == NoEvt && fifo.items == old(fifo.items)
    ensures old(fifo.items) != [] ==> e == old(fifo.items)[0] && fifo.items == old(fifo.items)[1..]
    ensures (e, fifo.items) == Sample(old(fifo.items))
  {
    e := NoEvt;
    var r := fifo.GetFree();
    if r.Some? {
      e := r.value;
    }
  }

  /** What the engine's trace records: a state's `Enter`, one `Do` per tick,
      and its `Exit`, annotated with the event that ended its sampling
      loop. */
  datatype Action = Enter(id: nat) | Do(id: nat) | Exit(id: nat, cause: Event)

  /** The trace of an activation of state `id` from its sampling loop on,
      with `q` queued and `script` left to run: each tick acts, takes the
      tick's signals, samples one event, and either continues or exits and
      resumes the outer loop with that event. */
  function Ticks(id: nat, q: seq<Event>, script: seq<seq<Stimulus>>): seq<Action>
    requires id < |StateTable|
    decreases |script|, 0
  {
    if script == [] then []
    else
      var sampled := Sample(Delivered(q, script[0]));
      if sampled.0 == NoEvt then [Do(id)] + Ticks(id, sampled.1, script[1..])
      else [Do(id), Exit(id, sampled.0)] + Resume(id, sampled.0, sampled.1, script[1..])
  }

  /** The trace of one iteration of the outer loop and what follows: look up
      the successor of `id` under `e`, enter it, run its ticks. */
  function Resume(id: nat, e: Event, q: seq<Event>, script: seq<seq<Stimulus>>): seq<Action>
    requires id < |StateTable|
    decreases |script|, 1
  {
    var next := Lookup(id, e);
    [Enter(next.id)] + Ticks(next.id, q, script)
  }

  /** The trace of `main` over a script: it starts in `state0` with `no_evt`
      and an empty queue. */
  function Trace(script: seq<seq<Stimulus>>): seq<Action>
  {
    Resume(State0.id, NoEvt, [], script)
  }

  /** Which action may follow which: `Enter(s)` is followed by `Do(s)`;
      `Do(s)` by another `Do(s)` or by `Exit(s, e)` for an event `e` that is
      not `no_evt`; `Exit(s, e)` by entering the table's successor of `s`
      under `e`. */
  predicate Adjacent(a: Action, b: Action)
  {
    match a
    case Enter(s) => b == Do(s)
    case Do(s) => b == Do(s) || (b.Exit? && b.id == s && b.cause != NoEvt)
    case Exit(s, e) => s < |StateTable| && b == Enter(Lookup(s, e).id)
  }

  /** The lifecycle protocol: the trace starts by entering the table's
      successor of state 0 under `no_evt`, and every step is `Adjacent`. */
  predicate Lifecycle(t: seq<Action>)
  {
    (t != [] ==> t[0] == Enter(Lookup(State0.id, NoEvt).id)) && Steps(t)
  }

  /** Every step of `t` is `Adjacent`. */
  predicate Steps(t: seq<Action>)
  {
    forall i :: 0 <= i < |t| - 1 ==> Adjacent(t[i], t[i + 1])
  }

  lemma StepsCons(a: Action, t: seq<Action>)
    requires Steps(t)
    requires t != [] ==> Adjacent(a, t[0])
    ensures Steps([a] + t)
  {
    var u := [a] + t;
    forall i | 0 <= i < |u| - 1
      ensures Adjacent(u[i], u[i + 1])
    {
      if i > 0 {
        assert u[i] == t[i - 1] && u[i + 1] == t[i];
      }
    }
  }

  lemma {:induction false} TicksSteps(id: nat, q: seq<Event>, script: seq<seq<Stimulus>>)
    requires id < |StateTable|
    ensures script != [] ==> Ticks(id, q, script)[0] == Do(id)
    ensures Steps(Ticks(id, q, script))
    decreases |script|, 0
  {
    if script != [] {
      var (e, rest) := Sample(Delivered(q, script[0]));
      if e == NoEvt {
        TicksSteps(id, rest, script[1..]);
        StepsCons(Do(id), Ticks(id, rest, script[1..]));
      } else {
        var r := Resume(id, e, rest, script[1..]);
        ResumeSteps(id, e, rest, script[1..]);
        StepsCons(Exit(id, e), r);
        StepsCons(Do(id), [Exit(id, e)] + r);
        assert [Do(id), Exit(id, e)] + r == [Do(id)] + ([Exit(id, e)] + r);
      }
    }
  }

  lemma {:induction false} ResumeSteps(id: nat, e: Event, q: seq<Event>, script: seq<seq<Stimulus>>)
    requires id < |StateTable|
    ensures Resume(id, e, q, script)[0] == Enter(Lookup(id, e).id)
    ensures Steps(Resume(id, e, q, script))
    decreases |script|, 1
  {
    var next := Lookup(id, e).id;
    TicksSteps(next, q, script);
    StepsCons(Enter(next), Ticks(next, q, script));
  }

  /** The engine follows the lifecycle protocol on every script. */
  lemma TraceFollowsLifecycle(script: seq<seq<Stimulus>>)
    ensures Trace(script) != []
    ensures Lifecycle(Trace(script))
  {
    ResumeSteps(State0.id, NoEvt, [], script);
  }

  /** The first lookup, `state_table[0][no_evt]`, enters state 0. */
  lemma InitialState()
    ensures Lookup(State0.id, NoEvt) == State0
  {
  }

  /** Only declared states are ever entered, acted in or exited: the
      zero-filled rows 4 and 5 are never reached. */
  lemma {:induction false} LifecycleStaysDeclared(t: seq<Action>, j: nat)
    requires Lifecycle(t) && j < |t|
    ensures t[j].id < |Catalog|
  {
    if j > 0 {
      LifecycleStaysDeclared(t, j - 1);
      assert Adjacent(t[j - 1], t[j]);
    }
  }

  /** `Do` never happens outside an activation: every `Do(s)` is preceded by
      an `Enter(s)` with only `Do(s)` in between. */
  lemma {:induction false} DoFollowsEnter(t: seq<Action>, j: nat)
    requires Lifecycle(t) && j < |t| && t[j].Do?
    ensures exists i :: 0 <= i < j && t[i] == Enter(t[j].id)
                        && forall k :: i < k < j ==> t[k] == Do(t[j].id)
  {
    assert j > 0;
    assert Adjacent(t[j - 1], t[j]);
    if t[j - 1].Enter? {
      assert t[j - 1] == Enter(t[j].id);
    } else {
      DoFollowsEnter(t, j - 1);
      var i :| 0 <= i < j - 1 && t[i] == Enter(t[j - 1].id)
               && forall k :: i < k < j - 1 ==> t[k] == Do(t[j - 1].id);
      assert forall k :: i < k < j ==> t[k] == Do(t[j].id);
    }
  }

  /** Every `Exit` closes the activation it follows, after a sampled event
      that is not `no_evt`, and every `Enter` but the first is the table's
      successor under that same event: only the first lookup uses
      `no_evt`. */
  lemma ExitAndReentry(t: seq<Action>, j: nat)
    requires Lifecycle(t) && j < |t|
    ensures t[j].Exit? ==> 0 < j && t[j - 1] == Do(t[j].id) && t[j].cause != NoEvt
    ensures t[j].Enter? && 0 < j ==>
              t[j - 1].Exit? && t[j - 1].cause != NoEvt
              && t[j].id == Lookup(t[j - 1].id, t[j - 1].cause).id
  {
    if 0 < j {
      assert Adjacent(t[j - 1], t[j]);
      if 1 < j {
        assert Adjacent(t[j - 2], t[j - 1]);
      }
    }
  }

  /** Number of `Do(s)` actions in a trace. */
  function DoCount(t: seq<Action>, s: nat): nat
  {
    if t == [] then 0 else (if t[0] == Do(s) then 1 else 0) + DoCount(t[1..], s)
  }

  /** Number of `Do` actions of any state in a trace: the ticks it records. */
  function TickCount(t: seq<Action>): nat
  {
    if t == [] then 0 else (if t[0].Do? then 1 else 0) + TickCount(t[1..])
  }

  lemma {:induction false} CountsAppend(t: seq<Action>, u: seq<Action>, s: nat)
    ensures DoCount(t + u, s) == DoCount(t, s) + DoCount(u, s)
    ensures TickCount(t + u) == TickCount(t) + TickCount(u)
  {
    if t == [] {
      assert t + u == u;
    } else {
      assert (t + u)[0] == t[0] && (t + u)[1..] == t[1..] + u;
      CountsAppend(t[1..], u, s);
    }
  }

  lemma {:induction false} TicksTickCount(id: nat, q: seq<Event>, script: seq<seq<Stimulus>>)
    requires id < |StateTable|
    ensures TickCount(Ticks(id, q, script)) == |script|
    decreases |script|, 0
  {
    if script != [] {
      var (e, rest) := Sample(Delivered(q, script[0]));
      if e == NoEvt {
        TicksTickCount(id, rest, script[1..]);
        CountsAppend([Do(id)], Ticks(id, rest, script[1..]), 0);
      } else {
        ResumeTickCount(id, e, rest, script[1..]);
        CountsAppend([Do(id), Exit(id, e)], Resume(id, e, rest, script[1..]), 0);
      }
    }
  }

  lemma {:induction false} ResumeTickCount(id: nat, e: Event, q: seq<Event>, script: seq<seq<Stimulus>>)
    requires id < |StateTable|
    ensures TickCount(Resume(id, e, q, script)) == |script|
    decreases |script|, 1
  {
    var next := Lookup(id, e).id;
    TicksTickCount(next, q, script);
    CountsAppend([Enter(next)], Ticks(next, q, script), 0);
  }

  /** Each tick acts exactly once and samples exactly one event. */
  lemma OneDoPerTick(script: seq<seq<Stimulus>>)
    ensures TickCount(Trace(script)) == |script|
  {
    ResumeTickCount(State0.id, NoEvt, [], script);
  }

  /** `n` ticks without any input: state 0 is entered once and acts on
      every tick, and it is never exited. */
  function Idle(n: nat): seq<seq<Stimulus>>
  {
    seq(n, _ => [])
  }

  lemma {:induction false} IdleTicks(id: nat, n: nat)
    requires id < |StateTable|
    ensures Ticks(id, [], Idle(n)) == seq(n, _ => Do(id))
  {
    if n > 0 {
      assert Idle(n)[0] == [] && Idle(n)[1..] == Idle(n - 1);
      IdleTicks(id, n - 1);
      assert seq(n, _ => Do(id)) == [Do(id)] + seq(n - 1, _ => Do(id));
    }
  }

  lemma IdleStaysInitial(n: nat)
    ensures Trace(Idle(n)) == [Enter(0)] + seq(n, _ => Do(0))
  {
    IdleTicks(0, n);
  }

  /** A tick without signals on an empty queue only acts. */
  lemma QuietTick(id: nat, script: seq<seq<Stimulus>>)
    requires id < |StateTable|
    ensures Ticks(id, [], [[]] + script) == [Do(id)] + Ticks(id, [], script)
  {
    assert ([[]] + script)[0] == [] && ([[]] + script)[1..] == script;
  }

  /** A tick with a single signal that produces an event, on an empty
      queue, ends the activation and enters the successor under that
      event. */
  lemma SignalTick(id: nat, stimulus: Stimulus, script: seq<seq<Stimulus>>)
    requires id < |StateTable| && Produced(stimulus).Some?
    ensures var e := Produced(stimulus).value;
            Ticks(id, [], [[stimulus]] + script)
            == [Do(id), Exit(id, e), Enter(Lookup(id, e).id)] + Ticks(Lookup(id, e).id, [], script)
  {
    var e := Produced(stimulus).value;
    assert [stimulus][..0] == [];
    assert Delivered([], [stimulus]) == [e];
    assert ([[stimulus]] + script)[0] == [stimulus] && ([[stimulus]] + script)[1..] == script;
    assert [e][1..] == [];
    assert Sample([e]) == (e, []);
  }

  /** The locked part of the scenario below: from state 0, button 3
      locks, button 1 re-enters state 3, the timeout returns to state 0. */
  lemma LockedTicks()
    ensures Ticks(0, [], [[ButtonSignal(Button3, ButtonPush)], [ButtonSignal(Button1, ButtonPush)],
                          [TimerFired], []])
            == [Do(0), Exit(0, B3),
                Enter(3), Do(3), Exit(3, B1),
                Enter(3), Do(3), Exit(3, Timeout),
                Enter(0), Do(0)]
  {
    var s3: seq<seq<Stimulus>> := [[TimerFired], []];
    var s2 := [[ButtonSignal(Button1, ButtonPush)]] + s3;
    ButtonsAreDistinguished();
    LockedState(B1);
    LockedState(Timeout);
    UnlockedStates(0);
    QuietTick(0, []);
    SignalTick(3, TimerFired, [[]]);
    var t3 := [Do(3), Exit(3, Timeout), Enter(0), Do(0)];
    assert Ticks(3, [], s3) == t3;
    SignalTick(3, ButtonSignal(Button1, ButtonPush), s3);
    var t2 := [Do(3), Exit(3, B1), Enter(3)] + t3;
    assert Ticks(3, [], s2) == t2;
    SignalTick(0, ButtonSignal(Button3, ButtonPush), s2);
    assert [[ButtonSignal(Button3, ButtonPush)]] + s2
           == [[ButtonSignal(Button3, ButtonPush)], [ButtonSignal(Button1, ButtonPush)], [TimerFired], []];
  }

  /** A same-id edge is a full re-entry: in the locked state, button 1 exits
      state 3 and enters it again; only the timeout returns to state 0. */
  lemma LockedReentry()
    ensures Trace([[], [ButtonSignal(Button3, ButtonPush)], [ButtonSignal(Button1, ButtonPush)],
                   [TimerFired], []])
            == [Enter(0), Do(0), Do(0), Exit(0, B3),
                Enter(3), Do(3), Exit(3, B1),
                Enter(3), Do(3), Exit(3, Timeout),
                Enter(0), Do(0)]
  {
    var s1: seq<seq<Stimulus>> := [[ButtonSignal(Button3, ButtonPush)], [ButtonSignal(Button1, ButtonPush)],
                                   [TimerFired], []];
    LockedTicks();
    QuietTick(0, s1);
    assert [[]] + s1 == [[], [ButtonSignal(Button3, ButtonPush)], [ButtonSignal(Button1, ButtonPush)],
                         [TimerFired], []];
  }

  // The `Enter` phase of a state: every `enter_state_*` only logs.

  /** The `Do` phase of state `id`: `do_state_0` to `do_state_3`.
      `do_state_3` also starts the timeout timer, which is not modelled. */
  method DoPhase(panel: Panel, id: nat)
    requires panel.Valid() && id < |Catalog|
    modifies panel
    ensures panel.Valid()
    ensures panel.clockWiseNum
            == if id == 0 then (old(panel.clockWiseNum) + 1) % 4 else old(panel.clockWiseNum)
    ensures panel.counterClockWiseNum
            == if id == 2 then (old(panel.counterClockWiseNum) + 1) % 4 else old(panel.counterClockWiseNum)
    ensures panel.fading == (id == 3 || old(panel.fading))
    ensures id == 0 ==> panel.lit == {ClockWise[old(panel.clockWiseNum)]}
    ensures id == 1 ==> panel.lit == AllLeds
    ensures id == 2 ==> panel.lit == {CounterClockWise[old(panel.counterClockWiseNum)]}
    ensures id == 3 ==> panel.lit == old(panel.lit)
  {
    if id == 0 {
      panel.RotateClockWise();
    } else if id == 1 {
      panel.Blink();
    } else if id == 2 {
      panel.RotateCounterClockWise();
    } else {
      panel.StartFading();
    }
  }

  /** The `Exit` phase of state `id`: only `exit_state_3` acts, stopping the
      fading driver; the others only log. */
  method ExitPhase(panel: Panel, id: nat)
    requires panel.Valid() && id < |Catalog|
    modifies panel
    ensures panel.Valid()
    ensures panel.clockWiseNum == old(panel.clockWiseNum)
    ensures panel.counterClockWiseNum == old(panel.counterClockWiseNum)
    ensures panel.lit == old(panel.lit)
    ensures panel.fading == (id != 3 && old(panel.fading))
  {
    if id == 3 {
      panel.StopFading();
    }
  }

  /** One tick of an activation after the trace `trace`, unfolded: act,
      then sample one event from the queue as the tick's signals leave it. */
  lemma TickUnfold(trace: seq<Action>, id: nat, q: seq<Event>, script: seq<seq<Stimulus>>, t: nat,
                   e: Event, rest: seq<Event>)
    requires id < |StateTable| && t < |script|
    requires (e, rest) == Sample(Delivered(q, script[t]))
    ensures e == NoEvt ==> trace + Ticks(id, q, script[t..]) == (trace + [Do(id)]) + Ticks(id, rest, script[t + 1..])
    ensures e != NoEvt ==> trace + Ticks(id, q, script[t..])
                           == (trace + [Do(id)]) + [Exit(id, e)] + Resume(id, e, rest, script[t + 1..])
  {
    assert script[t..][0] == script[t] && script[t..][1..] == script[t + 1..];
    if e == NoEvt {
      assert trace + ([Do(id)] + Ticks(id, rest, script[t + 1..])) == (trace + [Do(id)]) + Ticks(id, rest, script[t + 1..]);
    } else {
      var r := Resume(id, e, rest, script[t + 1..]);
      assert trace + ([Do(id), Exit(id, e)] + r) == (trace + [Do(id)]) + [Exit(id, e)] + r;
    }
  }

  /** One iteration of the outer loop after the trace `trace`, unfolded:
      look up the successor and enter it. */
  lemma ResumeUnfold(trace: seq<Action>, id: nat, e: Event, q: seq<Event>, script: seq<seq<Stimulus>>)
    requires id < |StateTable|
    ensures trace + Resume(id, e, q, script)
            == (trace + [Enter(Lookup(id, e).id)]) + Ticks(Lookup(id, e).id, q, script)
  {
    var next := Lookup(id, e).id;
    assert trace + ([Enter(next)] + Ticks(next, q, script)) == (trace + [Enter(next)]) + Ticks(next, q, script);
  }

  /** The LEDs lit after the actions of `t`: what the latest `Do` of a
      rotating or blinking state left on, or none before the first. `Enter`,
      `Exit`, `do_state_3` leave the LEDs alone. */
  ghost function LitAfter(t: seq<Action>): set<nat>
  {
    if t == [] then {}
    else
      var prefix, a := t[..|t| - 1], t[|t| - 1];
      if a == Do(0) then {LitByCall(ClockWise, DoCount(prefix, 0))}
      else if a == Do(1) then AllLeds
      else if a == Do(2) then {LitByCall(CounterClockWise, DoCount(prefix, 2))}
      else LitAfter(prefix)
  }

  lemma EffectsSnoc(t: seq<Action>, a: Action)
    ensures DoCount(t + [a], 0) == DoCount(t, 0) + (if a == Do(0) then 1 else 0)
    ensures DoCount(t + [a], 2) == DoCount(t, 2) + (if a == Do(2) then 1 else 0)
    ensures LitAfter(t + [a])
            == if a == Do(0) then {LitByCall(ClockWise, DoCount(t, 0))}
               else if a == Do(1) then AllLeds
               else if a == Do(2) then {LitByCall(CounterClockWise, DoCount(t, 2))}
               else LitAfter(t)
  {
    CountsAppend(t, [a], 0);
    CountsAppend(t, [a], 2);
    assert [a][1..] == [];
    assert (t + [a])[..|t|] == t;
  }

  /** What the LEDs show after a trace, by its last action: a rotating `Do`
      lights the pattern entry of that state's latest call, `do_state_1`
      lights every LED, and any other action leaves them as they were. */
  /** `lit` is what the last action of `t` leaves on when that action is
      the `Do` of a rotating or blinking state: the pattern entry of that
      state's latest call for states 0 and 2, every LED for state 1. */
  ghost predicate ShowsLastDo(t: seq<Action>, lit: set<nat>)
    requires t != []
  {
    && (t[|t| - 1] == Do(0) ==> lit == {ClockWise[(DoCount(t, 0) - 1) % 4]})
    && (t[|t| - 1] == Do(1) ==> lit == AllLeds)
    && (t[|t| - 1] == Do(2) ==> lit == {CounterClockWise[(DoCount(t, 2) - 1) % 4]})
  }

  lemma LitAfterLast(t: seq<Action>)
    requires t != []
    ensures ShowsLastDo(t, LitAfter(t))
    ensures t[|t| - 1] != Do(0) && t[|t| - 1] != Do(1) && t[|t| - 1] != Do(2)
            ==> LitAfter(t) == LitAfter(t[..|t| - 1])
  {
    var prefix, a := t[..|t| - 1], t[|t| - 1];
    assert prefix + [a] == t;
    EffectsSnoc(prefix, a);
    if a == Do(0) {
      RotationCycle(ClockWise, DoCount(prefix, 0));
      assert LitAfter(t) == {ClockWise[(DoCount(t, 0) - 1) % 4]};
    } else if a == Do(2) {
      RotationCycle(CounterClockWise, DoCount(prefix, 2));
      assert LitAfter(t) == {CounterClockWise[(DoCount(t, 2) - 1) % 4]};
    }
  }

  /** The panel's `led_num` counters have stepped once per `Do` of their
      state in the trace, and its LEDs show what the trace's latest `Do`
      left on. */
  ghost predicate PanelMatches(panel: Panel, trace: seq<Action>)
    reads panel
  {
    panel.Valid()
    && panel.clockWiseNum == CounterAfter(DoCount(trace, 0))
    && panel.counterClockWiseNum == CounterAfter(DoCount(trace, 2))
    && panel.lit == LitAfter(trace)
  }

  /** One pass of the sampling loop's body before its delay: the state's
      `Do` phase, then the signals that arrive, then `get_event`. The panel,
      which matched `trace`, matches it with this tick's `Do`: the LEDs are
      what that state's `Do` phase leaves on. */
  method Tick(fifo: Queue<Event>, panel: Panel, id: nat, stimuli: seq<Stimulus>, ghost trace: seq<Action>)
    returns (evt: Event)
    requires fifo.Valid() && fifo.capacity == Capacity
    requires PanelMatches(panel, trace) && id < |Catalog|
    modifies fifo, panel
    ensures fifo.Valid()
    ensures (evt, fifo.items) == Sample(Delivered(old(fifo.items), stimuli))
    ensures PanelMatches(panel, trace + [Do(id)])
    ensures panel.fading == (id == 3 || old(panel.fading))
    ensures id == 0 ==> panel.lit == {ClockWise[old(panel.clockWiseNum)]}
    ensures id == 1 ==> panel.lit == AllLeds
    ensures id == 2 ==> panel.lit == {CounterClockWise[old(panel.counterClockWiseNum)]}
    ensures id == 3 ==> panel.lit == old(panel.lit)
  {
    DoPhase(panel, id);
    EffectsSnoc(trace, Do(id));
    Deliver(fifo, stimuli);
    evt := GetEvent(fifo);
  }

  /** The sampling loop of one activation of `current`, the inner `while(1)`
      of `main`: act, take the tick's signals, sample one event, wait the
      state's delay; stop at the first event that is not `no_evt`, or when
      the script runs out. `goal` is the trace of the whole run. */
  method SamplingLoop(fifo: Queue<Event>, panel: Panel, current: State, script: seq<seq<Stimulus>>,
                      t0: nat, trace0: seq<Action>, elapsed0: nat, ghost goal: seq<Action>)
    returns (evt: Event, t: nat, trace: seq<Action>, elapsedMs: nat)
    requires t0 <= |script|
    requires fifo.Valid() && fifo.capacity == Capacity
    requires PanelMatches(panel, trace0) && !panel.fading
    requires current.id < |Catalog| && current.delayMs == 200
    requires trace0 + Ticks(current.id, fifo.items, script[t0..]) == goal
    requires trace0 != [] && trace0[|trace0| - 1] == Enter(current.id)
    modifies fifo, panel
    ensures t0 <= t <= |script| && elapsedMs == elapsed0 + 200 * (t - t0)
    ensures fifo.Valid() && PanelMatches(panel, trace)
    ensures panel.fading == (t0 < t && current.id == 3)
    ensures trace != [] && trace[|trace| - 1] == if t0 < t then Do(current.id) else Enter(current.id)
    ensures evt == NoEvt ==> t == |script| && trace == goal
    ensures evt != NoEvt ==> t0 < t
                             && trace + [Exit(current.id, evt)] + Resume(current.id, evt, fifo.items, script[t..])
                                == goal
  {
    t, trace, elapsedMs := t0, trace0, elapsed0;
    evt := NoEvt;
    while t < |script| && evt == NoEvt
      invariant t0 <= t <= |script|
      invariant fifo.Valid() && fifo.capacity == Capacity
      invariant PanelMatches(panel, trace)
      invariant evt == NoEvt ==> trace + Ticks(current.id, fifo.items, script[t..]) == goal
      invariant evt != NoEvt ==> t0 < t
                                 && trace + [Exit(current.id, evt)] + Resume(current.id, evt, fifo.items, script[t..])
                                    == goal
      invariant panel.fading == (t0 < t && current.id == 3)
      invariant trace != [] && trace[|trace| - 1] == if t0 < t then Do(current.id) else Enter(current.id)
      invariant elapsedMs == elapsed0 + 200 * (t - t0)
      decreases |script| - t
    {
      ghost var q := fifo.items;
      evt := Tick(fifo, panel, current.id, script[t], trace);
      TickUnfold(trace, current.id, q, script, t, evt, fifo.items);
      trace := trace + [Do(current.id)];
      elapsedMs := elapsedMs + current.delayMs;
      t := t + 1;
    }
  }

  /** One iteration of the outer `for(;;)` of `main`: look up the
      successor of `id` under `evt`, enter it, run its sampling loop and, when
      an event ended the loop, run its `Exit` phase. The queue and the trace
      so far, followed by `Resume` of the rest of the script, make up `goal`
      before and after. */
  method Activate(fifo: Queue<Event>, panel: Panel, id: nat, evt0: Event, script: seq<seq<Stimulus>>,
                  t0: nat, trace0: seq<Action>, elapsed0: nat, ghost goal: seq<Action>)
    returns (current: State, evt: Event, t: nat, trace: seq<Action>, elapsedMs: nat)
    requires t0 <= |script| && id < |Catalog|
    requires fifo.Valid() && fifo.capacity == Capacity
    requires PanelMatches(panel, trace0) && !panel.fading
    requires trace0 + Resume(id, evt0, fifo.items, script[t0..]) == goal
    modifies fifo, panel
    ensures t0 <= t <= |script| && elapsedMs == elapsed0 + 200 * (t - t0)
    ensures fifo.Valid() && PanelMatches(panel, trace) && current.id < |Catalog|
    ensures evt == NoEvt ==> t == |script| && trace == goal
                             && trace != [] && (panel.fading <==> trace[|trace| - 1] == Do(3))
    ensures evt != NoEvt ==> t0 < t && !panel.fading
                             && trace + Resume(current.id, evt, fifo.items, script[t..]) == goal
  {
    ResumeUnfold(trace0, id, evt0, fifo.items, script[t0..]);
    current := Lookup(id, evt0);
    EffectsSnoc(trace0, Enter(current.id));
    evt, t, trace, elapsedMs := SamplingLoop(fifo, panel, current, script, t0, trace0 + [Enter(current.id)], elapsed0, goal);
    if evt != NoEvt {
      ExitPhase(panel, current.id);
      EffectsSnoc(trace, Exit(current.id, evt));
      trace := trace + [Exit(current.id, evt)];
    }
  }

  /** `main` over a script of `|script|` ticks. It returns its trace, the
      time its tick delays take, the final `led_num` counters of
      `do_state_0` and `do_state_2`, whether the fading driver runs and (as
      a ghost) the lit LEDs. The trace is `Trace(script)`; the counters
      count that state's `Do` calls across all its activations, modulo 4;
      the fading driver runs exactly when the last action is a `Do` of the
      locked state; the LEDs are those the last rotating or blinking `Do`
      left on. */
  method Run(script: seq<seq<Stimulus>>)
    returns (trace: seq<Action>, elapsedMs: nat, clockWiseNum: int, counterClockWiseNum: int, fading: bool, ghost lit: set<nat>)
    ensures trace == Trace(script)
    ensures elapsedMs == 200 * |script|
    ensures clockWiseNum == DoCount(trace, 0) % 4
    ensures counterClockWiseNum == DoCount(trace, 2) % 4
    ensures fading <==> trace[|trace| - 1] == Do(3)
    ensures lit == LitAfter(trace)
    ensures ShowsLastDo(trace, lit)
  {
    var fifo := new Queue<Event>(Capacity);
    var panel := new Panel();
    var current := State0;
    var evt := NoEvt;
    var t := 0;
    trace, elapsedMs := [], 0;
    while true
      invariant t <= |script|
      invariant fifo.Valid() && fifo.capacity == Capacity
      invariant PanelMatches(panel, trace) && !panel.fading
      invariant current.id < |Catalog|
      invariant trace + Resume(current.id, evt, fifo.items, script[t..]) == Trace(script)
      invariant elapsedMs == 200 * t
      decreases |script| - t
    {
      current, evt, t, trace, elapsedMs := Activate(fifo, panel, current.id, evt, script, t, trace, elapsedMs, Trace(script));
      if evt == NoEvt {
        clockWiseNum, counterClockWiseNum, fading := panel.clockWiseNum, panel.counterClockWiseNum, panel.fading;
        lit := panel.lit;
        assert clockWiseNum == DoCount(trace, 0) % 4 by { CounterIsCallsModFour(DoCount(trace, 0)); }
        assert counterClockWiseNum == DoCount(trace, 2) % 4 by { CounterIsCallsModFour(DoCount(trace, 2)); }
        assert ShowsLastDo(trace, lit) by { LitAfterLast(trace); }
        return;
      }
    }
  }
}
