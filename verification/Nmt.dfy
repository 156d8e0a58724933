/** The NMT state machine: transition list, table, and self-driving event loop (src/co_nmt.c,
    CiA 301 sections 7.3.2.1 and 7.3.2.2). */
module Nmt {

  datatype State = Off | InitPwron | InitApp | InitComm | Preop | Op | Stop

  datatype Event = NoEvent | Poweron | InitDone | Start | ToPreop | ToStop | Reset | ResetComm

  datatype Action = NoAction | DoPoweron | DoResetApp | DoResetComm | DoBootup | DoStart

  datatype Cell = Cell(next: State, action: Action)

  datatype Transition = Transition(state: State, event: Event, next: State, action: Action)

  const STATES := [Off, InitPwron, InitApp, InitComm, Preop, Op, Stop]

  const EVENTS := [NoEvent, Poweron, InitDone, Start, ToPreop, ToStop, Reset, ResetComm]

  const TRANSITIONS := [
    Transition(Off, Reset, InitPwron, DoPoweron),
    Transition(InitPwron, InitDone, InitApp, DoResetApp),
    Transition(InitApp, InitDone, InitComm, DoResetComm),
    Transition(InitComm, InitDone, Preop, DoBootup),
    Transition(Preop, Start, Op, DoStart),
    Transition(Op, ToPreop, Preop, NoAction),
    Transition(Preop, ToStop, Stop, NoAction),
    Transition(Stop, Start, Op, DoStart),
    Transition(Stop, ToPreop, Preop, NoAction),
    Transition(Op, ToStop, Stop, NoAction),
    Transition(Op, Reset, InitApp, DoResetApp),
    Transition(Stop, Reset, InitApp, DoResetApp),
    Transition(Preop, Reset, InitApp, DoResetApp),
    Transition(Op, ResetComm, InitComm, DoResetComm),
    Transition(Stop, ResetComm, InitComm, DoResetComm),
    Transition(Preop, ResetComm, InitComm, DoResetComm)]

  function StateNo(s: State): (n: nat)
    ensures n < 7 && STATES[n] == s
  {
    match s
    case Off => 0 case InitPwron => 1 case InitApp => 2 case InitComm => 3
    case Preop => 4 case Op => 5 case Stop => 6
  }

  function EventNo(e: Event): (n: nat)
    ensures n < 8 && EVENTS[n] == e
  {
    match e
    case NoEvent => 0 case Poweron => 1 case InitDone => 2 case Start => 3
    case ToPreop => 4 case ToStop => 5 case Reset => 6 case ResetComm => 7
  }

  predicate Running(s: State) {
    s == Preop || s == Op || s == Stop
  }

  /** The state diagram: initialisation runs through in order, commands act on a running node,
      and everything else leaves the state alone. */
  function Diagram(s: State, e: Event): Cell {
    match e
    case Reset =>
      if s == Off then Cell(InitPwron, DoPoweron)
      else if Running(s) then Cell(InitApp, DoResetApp) else Cell(s, NoAction)
    case ResetComm => if Running(s) then Cell(InitComm, DoResetComm) else Cell(s, NoAction)
    case InitDone =>
      if s == InitPwron then Cell(InitApp, DoResetApp)
      else if s == InitApp then Cell(InitComm, DoResetComm)
      else if s == InitComm then Cell(Preop, DoBootup) else Cell(s, NoAction)
    case Start => if s == Preop || s == Stop then Cell(Op, DoStart) else Cell(s, NoAction)
    case ToPreop => if s == Op || s == Stop then Cell(Preop, NoAction) else Cell(s, NoAction)
    case ToStop => if s == Op || s == Preop then Cell(Stop, NoAction) else Cell(s, NoAction)
    case _ => Cell(s, NoAction)
  }

  /** The last listed transition wins; without one the node stays. */
  function Lookup(ts: seq<Transition>, s: State, e: Event): Cell
    decreases |ts|
  {
    if ts == [] then Cell(s, NoAction)
    else
      var last := ts[|ts| - 1];
      if last.state == s && last.event == e then Cell(last.next, last.action) else Lookup(ts[..|ts| - 1], s, e)
  }

  lemma {:induction false} LookupFound(ts: seq<Transition>, s: State, e: Event)
    ensures Lookup(ts, s, e) == Cell(s, NoAction)
            || exists t | t in ts :: t.state == s && t.event == e && Lookup(ts, s, e) == Cell(t.next, t.action)
    decreases |ts|
  {
    if ts != [] {
      assert ts[|ts| - 1] in ts;
      LookupFound(ts[..|ts| - 1], s, e);
    }
  }

  lemma {:induction false} LookupFinds(ts: seq<Transition>, t: Transition)
    requires t in ts
    ensures exists u | u in ts :: u.state == t.state && u.event == t.event
                                  && Lookup(ts, t.state, t.event) == Cell(u.next, u.action)
    decreases |ts|
  {
    var init, last := ts[..|ts| - 1], ts[|ts| - 1];
    assert ts == init + [last];
    if last.state == t.state && last.event == t.event {
      assert last in ts;
    } else {
      LookupFinds(init, t);
      var u :| u in init && u.state == t.state && u.event == t.event
               && Lookup(init, t.state, t.event) == Cell(u.next, u.action);
      assert u in ts;
    }
  }

  lemma ListSound(i: nat)
    requires i < |TRANSITIONS|
    ensures var t := TRANSITIONS[i]; Diagram(t.state, t.event) == Cell(t.next, t.action)
  {
  }

  /** Where the list has the transition for an event that is not ignored. */
  function Position(s: State, e: Event): (i: nat)
    ensures i < |TRANSITIONS|
  {
    match e
    case Reset => if s == Off then 0 else if s == Op then 10 else if s == Stop then 11 else 12
    case ResetComm => if s == Op then 13 else if s == Stop then 14 else 15
    case InitDone => if s == InitPwron then 1 else if s == InitApp then 2 else 3
    case Start => if s == Preop then 4 else 7
    case ToPreop => if s == Op then 5 else 8
    case _ => if s == Preop then 6 else 9
  }

  lemma PositionIsRight(s: State, e: Event)
    requires Diagram(s, e) != Cell(s, NoAction)
    ensures TRANSITIONS[Position(s, e)].state == s && TRANSITIONS[Position(s, e)].event == e
  {
  }

  /** The transition list is the diagram. */
  lemma ListIsDiagram(s: State, e: Event)
    ensures Lookup(TRANSITIONS, s, e) == Diagram(s, e)
  {
    hide Lookup, Diagram, TRANSITIONS;
    var d := Diagram(s, e);
    LookupFound(TRANSITIONS, s, e);
    if Lookup(TRANSITIONS, s, e) != Cell(s, NoAction) {
      var t :| t in TRANSITIONS && t.state == s && t.event == e && Lookup(TRANSITIONS, s, e) == Cell(t.next, t.action);
      var i :| 0 <= i < |TRANSITIONS| && TRANSITIONS[i] == t;
      ListSound(i);
    } else if d != Cell(s, NoAction) {
      var t := TRANSITIONS[Position(s, e)];
      PositionIsRight(s, e);
      LookupFinds(TRANSITIONS, t);
      var u :| u in TRANSITIONS && u.state == s && u.event == e && Lookup(TRANSITIONS, s, e) == Cell(u.next, u.action);
      var i :| 0 <= i < |TRANSITIONS| && TRANSITIONS[i] == u;
      ListSound(i);
    }
  }

  /** Fill the table: stay in state without action, then the listed transitions. */
  method BuildTable() returns (fsm: array2<Cell>)
    ensures fsm.Length0 == 7 && fsm.Length1 == 8 && fresh(fsm)
    ensures forall s, e :: fsm[StateNo(s), EventNo(e)] == Diagram(s, e)
  {
    fsm := new Cell[7, 8]((_, _) => Cell(Off, NoAction));
    hide Diagram, TRANSITIONS;
    for i := 0 to 7
      invariant forall s, e | StateNo(s) < i :: fsm[StateNo(s), EventNo(e)] == Cell(s, NoAction)
    {
      for j := 0 to 8
        invariant forall s, e | StateNo(s) < i || (StateNo(s) == i && EventNo(e) < j)
                    :: fsm[StateNo(s), EventNo(e)] == Cell(s, NoAction)
      {
        fsm[i, j] := Cell(STATES[i], NoAction);
      }
    }
    SetTransitions(fsm, TRANSITIONS);
    forall s, e
      ensures Lookup(TRANSITIONS, s, e) == Diagram(s, e)
    {
      ListIsDiagram(s, e);
    }
  }

  method SetTransitions(fsm: array2<Cell>, ts: seq<Transition>)
    requires fsm.Length0 == 7 && fsm.Length1 == 8
    requires forall s, e :: fsm[StateNo(s), EventNo(e)] == Cell(s, NoAction)
    modifies fsm
    ensures forall s, e :: fsm[StateNo(s), EventNo(e)] == Lookup(ts, s, e)
  {
    for i := 0 to |ts|
      invariant forall s, e :: fsm[StateNo(s), EventNo(e)] == Lookup(ts[..i], s, e)
    {
      var t := ts[i];
      fsm[StateNo(t.state), EventNo(t.event)] := Cell(t.next, t.action);
      assert ts[..i + 1][..i] == ts[..i];
    }
    assert ts[..|ts|] == ts;
  }
}
