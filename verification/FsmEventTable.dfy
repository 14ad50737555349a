/** The event-table back end: one handler an event, and the loop that calls the handler. */
module FsmEventTable {
  import opened Wrappers
  import opened FsmMatrix
  import opened FsmPopulate
  import opened FsmRun
  import opened FsmProgram

  /** An event's entry: the bare action, one body for every state, a switch over states, or nothing.
      `hooks` tells whether the handler ends in the calls made on a change of state. */
  datatype Handler =
    | BareAction(action: Action)
    | OneBody(action: Action, transition: Transition)
    | ByState(items: seq<Item<State>>, hooks: bool)
    | Idle

  /** The states that handle an event, each with the record in its cell. */
  function LinesOfEvent(m: Machine, e: Event): (r: seq<Line<State>>)
    ensures |r| == |StatesOf(ClaimsOf(m.infos), e)|
    ensures Owned(m.infos, r)
  {
    var states := StatesOf(ClaimsOf(m.infos), e);
    assert forall i :: 0 <= i < |states| ==> Cell(m.infos, e, states[i]).Some? by {
      forall i | 0 <= i < |states|
        ensures Cell(m.infos, e, states[i]).Some?
      {
        HandledByState(m.infos, e, states[i]);
      }
    }
    seq(|states|, i requires 0 <= i < |states| && Cell(m.infos, e, states[i]).Some? =>
      Line(states[i], Cell(m.infos, e, states[i]).value, true))
  }

  predicate AnyTransition(m: Machine, e: Event) {
    exists i :: 0 <= i < |LinesOfEvent(m, e)| && m.infos[LinesOfEvent(m, e)[i].owner].transition != Stay
  }

  predicate IsHandler(m: Machine, e: Event, h: Handler) {
    var first := FirstInfo(m.infos, e);
    match h
    case BareAction(action) =>
      Single(m, e) && m.infos[first.value].action == action && m.infos[first.value].transition == Stay
    case OneBody(action, transition) =>
      Single(m, e) && m.infos[first.value].action == action && m.infos[first.value].transition == transition
    case ByState(items, hooks) =>
      items == CasesFrom(m.infos, LinesOfEvent(m, e), 0) && hooks == AnyTransition(m, e)
    case Idle =>
      LinesOfEvent(m, e) == []
  }

  predicate IsEventTable(m: Machine, handlers: seq<Handler>) {
    |handlers| == m.numEvents && forall e :: 0 <= e < m.numEvents ==> IsHandler(m, e, handlers[e])
  }

  // ----- generating -----

  /** An event can be handled by its action when one record without a transition fills every state. */
  method HandlerCannotBeItsAction(a: ActionArray, profiling: bool, e: Event) returns (cannot: bool)
    requires a.Populated() && e < a.m.numEvents
    ensures cannot == (profiling || !(Single(a.m, e) && a.m.infos[FirstInfo(a.m.infos, e).value].transition == Stay))
  {
    SinglesFound(a, e);
    cannot := profiling || !(a.allStates[e] && a.m.infos[a.single[e]].transition == Stay);
  }

  /** Prints the cases of one event: a label a state, a body where the next state has another record. */
  method WriteStateCases(a: ActionArray, e: Event) returns (items: seq<Item<State>>, transitions: bool)
    requires a.Populated() && e < a.m.numEvents
    ensures items == CasesFrom(a.m.infos, LinesOfEvent(a.m, e), 0)
    ensures transitions == AnyTransition(a.m, e)
  {
    hide CasesFrom, StatesOf, ClaimsOf, Cell, EventsOf, OwnerOf, LinesOfEvent;
    ghost var lines := LinesOfEvent(a.m, e);
    var states := a.handlingStates[e];
    items, transitions := [], false;
    for i := 0 to |states|
      invariant items + CasesFrom(a.m.infos, lines, i) == CasesFrom(a.m.infos, lines, 0)
      invariant transitions <==> exists j :: 0 <= j < i && a.m.infos[lines[j].owner].transition != Stay
    {
      LineOfState(a.m, e, i);
      OwnerIsCell(a.m.infos, e, states[i]);
      var k := a.cell[e, states[i]];
      var next := -1;
      if i + 1 < |states| {
        LineOfState(a.m, e, i + 1);
        OwnerIsCell(a.m.infos, e, states[i + 1]);
        next := a.cell[e, states[i + 1]];
      }
      CasesUnfold(a.m.infos, lines, i);
      ghost var before := items;
      items := items + [Case(states[i])];
      if k != next {
        items := items + [BodyOf(a.m.infos[k])];
      }
      assert items == before + Piece(a.m.infos, lines, i);
      if a.m.infos[k].transition != Stay {
        transitions := true;
      }
    }
    NoCases(a.m.infos, lines);
  }

  lemma LineOfState(m: Machine, e: Event, i: nat)
    requires WellFormed(m) && Clear(ClaimsOf(m.infos)) && i < |LinesOfEvent(m, e)|
    ensures |LinesOfEvent(m, e)| == |StatesOf(ClaimsOf(m.infos), e)|
    ensures var s := StatesOf(ClaimsOf(m.infos), e)[i];
            && s < m.numStates
            && Cell(m.infos, e, s).Some?
            && LinesOfEvent(m, e)[i] == Line(s, Cell(m.infos, e, s).value, true)
  {
    var s := StatesOf(ClaimsOf(m.infos), e)[i];
    HandledByState(m.infos, e, s);
    CellInBounds(m, e, s);
  }

  lemma CellInBounds(m: Machine, e: Event, s: State)
    requires WellFormed(m) && Cell(m.infos, e, s).Some?
    ensures e < m.numEvents && s < m.numStates
  {
    var info := m.infos[Cell(m.infos, e, s).value];
    assert WellFormedInfo(m, info);
  }

  method DefineHandler(a: ActionArray, profiling: bool, e: Event) returns (h: Handler)
    requires a.Populated() && e < a.m.numEvents
    ensures IsHandler(a.m, e, h)
  {
    hide CasesFrom, StatesOf, ClaimsOf, Cell, EventsOf, OwnerOf, LinesOfEvent, AnyTransition;
    SinglesFound(a, e);
    var cannot := HandlerCannotBeItsAction(a, profiling, e);
    if !cannot {
      h := BareAction(a.m.infos[a.single[e]].action);
    } else if a.allStates[e] {
      var info := a.m.infos[a.single[e]];
      h := OneBody(info.action, info.transition);
    } else if |a.handlingStates[e]| > 0 {
      var items, transitions := WriteStateCases(a, e);
      h := ByState(items, transitions);
    } else {
      h := Idle;
    }
  }

  method DefineEventTable(a: ActionArray, profiling: bool) returns (handlers: seq<Handler>)
    requires a.Populated()
    ensures IsEventTable(a.m, handlers)
  {
    hide IsHandler;
    handlers := [];
    for e := 0 to a.m.numEvents
      invariant |handlers| == e && forall f :: 0 <= f < e ==> IsHandler(a.m, f, handlers[f])
    {
      var h := DefineHandler(a, profiling, e);
      handlers := handlers + [h];
    }
  }

  // ----- running -----

  lemma StatesAgree(m: Machine, e: Event)
    requires WellFormed(m) && Clear(ClaimsOf(m.infos))
    ensures Agree(LinesOfEvent(m, e)) && Tied(LinesOfEvent(m, e))
  {
    forall i | 0 <= i < |LinesOfEvent(m, e)|
      ensures var s := LinesOfEvent(m, e)[i].key;
              Cell(m.infos, e, s).Some? && LinesOfEvent(m, e)[i] == Line(s, Cell(m.infos, e, s).value, true)
    {
      LineOfState(m, e, i);
    }
  }

  /** The switch over states selects the record of the current state's own cell, or nothing. */
  lemma SwitchSelectsCell(m: Machine, e: Event, s: State)
    requires WellFormed(m) && Clear(ClaimsOf(m.infos))
    ensures var found := Selected(CasesFrom(m.infos, LinesOfEvent(m, e), 0), s);
            var cell := Cell(m.infos, e, s);
            found == if cell.None? then None else Some(BodyOf(m.infos[cell.value]))
    ensures Cell(m.infos, e, s).Some? && m.infos[Cell(m.infos, e, s).value].transition != Stay ==> AnyTransition(m, e)
  {
    hide CasesFrom, Selected, ClaimsOf, LinesOfEvent;
    var lines := LinesOfEvent(m, e);
    var states := StatesOf(ClaimsOf(m.infos), e);
    StatesAgree(m, e);
    HandledByState(m.infos, e, s);
    forall i | 0 <= i < |lines|
      ensures Cell(m.infos, e, states[i]).Some? && lines[i] == Line(states[i], Cell(m.infos, e, states[i]).value, true)
    {
      LineOfState(m, e, i);
    }
    if s in states {
      var k :| 0 <= k < |states| && states[k] == s;
      assert lines[k].key == s && lines[k].shown;
      SelectsOwner(m.infos, lines, 0, k);
    } else {
      SelectsNothing(m.infos, lines, 0, s);
    }
  }

  /** No state is named twice in the switch of an event. */
  lemma EventCasesAreDistinct(m: Machine, e: Event)
    requires WellFormed(m) && Clear(ClaimsOf(m.infos))
    ensures DistinctLabels(CasesFrom(m.infos, LinesOfEvent(m, e), 0))
  {
    StatesOfDistinct(ClaimsOf(m.infos), e);
    forall i | 0 <= i < |LinesOfEvent(m, e)|
      ensures LinesOfEvent(m, e)[i].key == StatesOf(ClaimsOf(m.infos), e)[i]
    {
      LineOfState(m, e, i);
    }
    CasesAreDistinct(m.infos, LinesOfEvent(m, e), 0);
  }

  method EndHandler(fsm: Fsm, s: State, ghost from: State)
    requires fsm.state == if ExecutesOnTransition(fsm.m.hooks) then from else s
    modifies fsm`world, fsm`state
    ensures fsm.state == s && fsm.world == Changed(fsm.env, fsm.m.hooks, fsm.event, from, s, old(fsm.world))
  {
    if ExecutesOnTransition(fsm.m.hooks) {
      if s != fsm.state {
        fsm.RunHooks(s);
      }
      fsm.state := s;
    } else {
      NoHooksNoChange(fsm.env, fsm.m.hooks, fsm.event, from, s, fsm.world);
    }
  }

  /** Calls an event's entry. */
  method CallHandler(fsm: Fsm, h: Handler, e: Event) returns (next: Event)
    requires WellFormed(fsm.m) && Clear(ClaimsOf(fsm.m.infos))
    requires IsHandler(fsm.m, e, h) && e < fsm.m.numEvents && fsm.state < fsm.m.numStates && fsm.event == e
    modifies fsm`world, fsm`state
    ensures fsm.At(next) == React(fsm.m, fsm.env, old(fsm.At(e)))
  {
    hide CasesFrom, Selected, ClaimsOf, LinesOfEvent, Cell, FirstInfo, AnyTransition, Changed;
    ghost var s0 := fsm.state;
    NoChange(fsm.env, fsm.m.hooks, e, s0);
    next := NoEvent(fsm.m);
    match h
    case BareAction(action) =>
      SingleCells(fsm.m, e, s0);
      next := fsm.RunAction(action);
    case OneBody(action, transition) =>
      SingleCells(fsm.m, e, s0);
      next := fsm.RunAction(action);
      var s := TakeTransition(fsm, transition, e, fsm.state);
      if transition != Stay {
        EndHandler(fsm, s, s0);
      }
    case ByState(items, hooks) =>
      SwitchSelectsCell(fsm.m, e, s0);
      var s := fsm.state;
      var found := Selected(items, fsm.state);
      if found.Some? {
        next := fsm.RunAction(found.value.action);
        s := TakeTransition(fsm, found.value.transition, e, fsm.state);
      }
      if hooks {
        EndHandler(fsm, s, s0);
      }
    case Idle =>
      NothingHandled(fsm.m, e, s0);
  }

  lemma NothingHandled(m: Machine, e: Event, s: State)
    requires LinesOfEvent(m, e) == []
    ensures Cell(m.infos, e, s).None?
  {
    HandledByState(m.infos, e, s);
    assert |StatesOf(ClaimsOf(m.infos), e)| == 0;
  }

  method Iterate(fsm: Fsm, handlers: seq<Handler>, e: Event) returns (next: Event)
    requires WellFormed(fsm.m) && Clear(ClaimsOf(fsm.m.infos))
    requires IsEventTable(fsm.m, handlers) && e < fsm.m.numEvents && fsm.state < fsm.m.numStates
    modifies fsm
    ensures fsm.At(next) == React(fsm.m, fsm.env, old(fsm.At(e)))
  {
    hide IsHandler;
    fsm.event := e;
    next := CallHandler(fsm, handlers[e], e);
  }

  /** The generated loop, cut off after some iterations: the same run as with the table. */
  method Loop(fsm: Fsm, handlers: seq<Handler>, first: Event, limit: nat) returns (e: Event)
    requires WellFormed(fsm.m) && Clear(ClaimsOf(fsm.m.infos)) && Sound(fsm.m, fsm.env)
    requires IsEventTable(fsm.m, handlers) && first <= NoEvent(fsm.m) && fsm.state < fsm.m.numStates
    modifies fsm
    ensures fsm.At(e) == Run(fsm.m, fsm.env, old(fsm.At(first)), limit)
  {
    hide React, IsEventTable;
    e := first;
    var n := 0;
    ghost var start := fsm.At(first);
    while n < limit && e != NoEvent(fsm.m)
      invariant n <= limit && fsm.At(e) == Run(fsm.m, fsm.env, start, n)
      invariant e <= NoEvent(fsm.m) && fsm.state < fsm.m.numStates
    {
      ReactStays(fsm.m, fsm.env, fsm.At(e));
      e := Iterate(fsm, handlers, e);
      n := n + 1;
    }
    if n < limit {
      RunMore(fsm.m, fsm.env, start, n, limit - n);
      RunRests(fsm.m, fsm.env, fsm.At(e), limit - n);
    }
  }
}
