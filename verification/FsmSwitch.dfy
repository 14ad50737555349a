/** The switch back end: one function a state, after a handler for events handled identically in all states. */
module FsmSwitch {
  import opened Wrappers
  import opened FsmMatrix
  import opened FsmPopulate
  import opened FsmRun
  import opened FsmProgram

  /** A state's function. `epilogue` tells whether it ends in the calls made on a change of state. */
  datatype StateFn = StateFn(items: seq<Item<Event>>, epilogue: bool)

  /** The generated code; the handler is there when some event is handled identically in all states. */
  datatype SwitchProgram = SwitchProgram(handler: Option<seq<Item<Event>>>, stateFns: seq<StateFn>)

  /** The events a state handles, each with the record in its cell; those of the handler are not shown. */
  function LinesOfState(m: Machine, s: State): (r: seq<Line<Event>>)
    ensures |r| == |EventsOf(ClaimsOf(m.infos), s)|
    ensures Owned(m.infos, r)
  {
    var events := EventsOf(ClaimsOf(m.infos), s);
    assert forall i :: 0 <= i < |events| ==> Cell(m.infos, events[i], s).Some? by {
      forall i | 0 <= i < |events|
        ensures Cell(m.infos, events[i], s).Some?
      {
        HandledByState(m.infos, events[i], s);
      }
    }
    seq(|events|, i requires 0 <= i < |events| && Cell(m.infos, events[i], s).Some? =>
      Line(events[i], Cell(m.infos, events[i], s).value, !Single(m, events[i])))
  }

  /** Some event moves this state on. */
  predicate TransitionsPossible(m: Machine, s: State) {
    exists e :: 0 <= e < m.numEvents && Cell(m.infos, e, s).Some? &&
                m.infos[Cell(m.infos, e, s).value].transition != Stay
  }

  /** A state's function ends with an epilogue when some record of the state has a transition. */
  lemma EpilogueWhen(m: Machine, s: State)
    requires WellFormed(m) && Clear(ClaimsOf(m.infos))
    ensures TransitionsPossible(m, s) <==>
              exists k :: 0 <= k < |m.infos| && s in m.infos[k].states && m.infos[k].transition != Stay
  {
    hide ClaimsOf, Clear, Cell;
    if TransitionsPossible(m, s) {
      var e :| 0 <= e < m.numEvents && Cell(m.infos, e, s).Some? &&
               m.infos[Cell(m.infos, e, s).value].transition != Stay;
      assert Covers(m.infos[Cell(m.infos, e, s).value], e, s);
    }
    if k :| 0 <= k < |m.infos| && s in m.infos[k].states && m.infos[k].transition != Stay {
      assert WellFormedInfo(m, m.infos[k]);
      var e := m.infos[k].events[0];
      InClaims(m.infos, Claim(k, e, s));
      ClaimOwnsCell(m.infos, Claim(k, e, s));
    }
  }

  function HandlerFrom(m: Machine, e: nat): seq<Item<Event>>
    requires e <= m.numEvents
    decreases m.numEvents - e
  {
    if e == m.numEvents then []
    else
      HandlerPiece(m, e) + HandlerFrom(m, e + 1)
  }

  function HandlerPiece(m: Machine, e: Event): seq<Item<Event>> {
    if Single(m, e) then [Case(e), BodyOf(m.infos[FirstInfo(m.infos, e).value])] else []
  }

  predicate IsStateFn(m: Machine, s: State, fn: StateFn) {
    fn.items == CasesFrom(m.infos, LinesOfState(m, s), 0) && fn.epilogue == TransitionsPossible(m, s)
  }

  predicate IsSwitch(m: Machine, p: SwitchProgram) {
    && p.handler == (if AnySingle(m) then Some(HandlerFrom(m, 0)) else None)
    && |p.stateFns| == m.numStates
    && forall s :: 0 <= s < m.numStates ==> IsStateFn(m, s, p.stateFns[s])
  }

  // ----- generating -----

  /** Prints the lines of one event of a state: a label, and a body where the next event has another record. */
  method WriteEventCase(a: ActionArray, s: State, i: nat) returns (items: seq<Item<Event>>)
    requires a.Populated() && s < a.m.numStates && i < |LinesOfState(a.m, s)|
    ensures items == Piece(a.m.infos, LinesOfState(a.m, s), i)
  {
    hide EventsOf, ClaimsOf, Cell, OwnerOf, LinesOfState, StatesOf, Single;
    var events := a.eventsHandled[s];
    LineOfEvent(a.m, s, i);
    OwnerIsCell(a.m.infos, events[i], s);
    SinglesFound(a, events[i]);
    var k := a.cell[events[i], s];
    var next := -1;
    if i + 1 < |events| {
      LineOfEvent(a.m, s, i + 1);
      OwnerIsCell(a.m.infos, events[i + 1], s);
      next := a.cell[events[i + 1], s];
    }
    items := [];
    if !a.allStates[events[i]] {
      items := items + [Case(events[i])];
      if k != next {
        items := items + [BodyOf(a.m.infos[k])];
      }
    }
  }

  /** Prints the cases of one state, event by event. */
  method WriteEventCases(a: ActionArray, s: State) returns (items: seq<Item<Event>>)
    requires a.Populated() && s < a.m.numStates
    ensures items == CasesFrom(a.m.infos, LinesOfState(a.m, s), 0)
  {
    hide CasesFrom, Piece, EventsOf, ClaimsOf, Cell, OwnerOf, LinesOfState, StatesOf, Single;
    ghost var lines := LinesOfState(a.m, s);
    items := [];
    for i := 0 to |a.eventsHandled[s]|
      invariant items + CasesFrom(a.m.infos, lines, i) == CasesFrom(a.m.infos, lines, 0)
    {
      var piece := WriteEventCase(a, s, i);
      CasesUnfold(a.m.infos, lines, i);
      Associative(items, piece, CasesFrom(a.m.infos, lines, i + 1));
      items := items + piece;
    }
    NoCases(a.m.infos, lines);
  }

  lemma LineOfEvent(m: Machine, s: State, i: nat)
    requires WellFormed(m) && Clear(ClaimsOf(m.infos)) && i < |LinesOfState(m, s)|
    ensures |LinesOfState(m, s)| == |EventsOf(ClaimsOf(m.infos), s)|
    ensures var e := EventsOf(ClaimsOf(m.infos), s)[i];
            && e < m.numEvents && s < m.numStates
            && Cell(m.infos, e, s).Some?
            && LinesOfState(m, s)[i] == Line(e, Cell(m.infos, e, s).value, !Single(m, e))
  {
    var e := EventsOf(ClaimsOf(m.infos), s)[i];
    HandledByState(m.infos, e, s);
    assert WellFormedInfo(m, m.infos[Cell(m.infos, e, s).value]);
  }

  method FindTransition(a: ActionArray, s: State) returns (found: bool)
    requires a.Populated() && s < a.m.numStates
    ensures found == TransitionsPossible(a.m, s)
  {
    hide OwnerOf, ClaimsOf, Cell;
    found := false;
    for e := 0 to a.m.numEvents
      invariant !found
      invariant forall f :: 0 <= f < e && Cell(a.m.infos, f, s).Some? ==>
                  a.m.infos[Cell(a.m.infos, f, s).value].transition == Stay
    {
      OwnerIsCell(a.m.infos, e, s);
      if a.cell[e, s] >= 0 && a.m.infos[a.cell[e, s]].transition != Stay {
        return true;
      }
    }
  }

  /** Prints the handler: every event handled identically in all states, with a body of its own. */
  method DefineAllStateHandler(a: ActionArray) returns (items: seq<Item<Event>>)
    requires a.Populated()
    ensures items == HandlerFrom(a.m, 0)
  {
    hide CoversAll, FirstInfo, OwnerOf, ClaimsOf, EventsOf, StatesOf, HandlerFrom;
    items := [];
    for e := 0 to a.m.numEvents
      invariant items + HandlerFrom(a.m, e) == HandlerFrom(a.m, 0)
    {
      SinglesFound(a, e);
      HandlerUnfold(a.m, e);
      ghost var before := items;
      if a.allStates[e] {
        items := items + [Case(e), BodyOf(a.m.infos[a.single[e]])];
      }
      assert items == before + HandlerPiece(a.m, e);
      Associative(before, HandlerPiece(a.m, e), HandlerFrom(a.m, e + 1));
    }
    HandlerUnfold(a.m, a.m.numEvents);
  }

  lemma HandlerUnfold(m: Machine, e: nat)
    requires e <= m.numEvents
    ensures HandlerFrom(m, e) == if e == m.numEvents then [] else HandlerPiece(m, e) + HandlerFrom(m, e + 1)
  {
  }

  method DefineSwitch(a: ActionArray) returns (p: SwitchProgram)
    requires a.Populated()
    ensures IsSwitch(a.m, p)
  {
    hide IsStateFn, HandlerFrom;
    var handler: Option<seq<Item<Event>>> := None;
    HandlerNeeded(a);
    if a.hasSingle {
      var items := DefineAllStateHandler(a);
      handler := Some(items);
    }
    var fns := [];
    for s := 0 to a.m.numStates
      invariant |fns| == s && forall t :: 0 <= t < s ==> IsStateFn(a.m, t, fns[t])
    {
      var fn := DefineStateFn(a, s);
      fns := fns + [fn];
    }
    p := SwitchProgram(handler, fns);
  }

  lemma HandlerNeeded(a: ActionArray)
    requires a.Populated()
    ensures a.hasSingle == AnySingle(a.m)
  {
    if a.m.numEvents > 0 { SinglesFound(a, 0); }
  }

  method DefineStateFn(a: ActionArray, s: State) returns (fn: StateFn)
    requires a.Populated() && s < a.m.numStates
    ensures IsStateFn(a.m, s, fn)
  {
    var epilogue := FindTransition(a, s);
    var items := WriteEventCases(a, s);
    fn := StateFn(items, epilogue);
  }

  // ----- what the switches select -----

  lemma EventsAgree(m: Machine, s: State)
    requires WellFormed(m) && Clear(ClaimsOf(m.infos))
    ensures Agree(LinesOfState(m, s)) && Tied(LinesOfState(m, s))
  {
    hide LinesOfState, EventsOf, ClaimsOf;
    var lines, events := LinesOfState(m, s), EventsOf(ClaimsOf(m.infos), s);
    forall i | 0 <= i < |lines|
      ensures Cell(m.infos, events[i], s).Some?
      ensures lines[i] == Line(events[i], Cell(m.infos, events[i], s).value, !Single(m, events[i]))
      ensures s < m.numStates
    {
      LineOfEvent(m, s, i);
    }
    forall i | 0 <= i < |lines| - 1 && lines[i].shown && lines[i].owner == lines[i + 1].owner
      ensures lines[i + 1].shown
    {
      if !lines[i + 1].shown {
        SingleSpreads(m, events[i], s, events[i + 1]);
      }
    }
  }

  /** The record that a state's function runs: its cell's, unless the event belongs to the handler. */
  function StateCell(m: Machine, e: Event, s: State): (r: Option<nat>)
    ensures r.Some? ==> r.value < |m.infos|
  {
    if Single(m, e) then None else Cell(m.infos, e, s)
  }

  lemma StateFnSelectsCell(m: Machine, e: Event, s: State)
    requires WellFormed(m) && Clear(ClaimsOf(m.infos))
    ensures var found := Selected(CasesFrom(m.infos, LinesOfState(m, s), 0), e);
            var cell := StateCell(m, e, s);
            found == if cell.None? then None else Some(BodyOf(m.infos[cell.value]))
  {
    hide CasesFrom, Selected, ClaimsOf, LinesOfState, Single, EventsOf;
    var lines := LinesOfState(m, s);
    var events := EventsOf(ClaimsOf(m.infos), s);
    EventsAgree(m, s);
    HandledByState(m.infos, e, s);
    forall i | 0 <= i < |lines|
      ensures Cell(m.infos, events[i], s).Some?
      ensures lines[i] == Line(events[i], Cell(m.infos, events[i], s).value, !Single(m, events[i]))
    {
      LineOfEvent(m, s, i);
    }
    if e in events && !Single(m, e) {
      var k :| 0 <= k < |events| && events[k] == e;
      SelectsOwner(m.infos, lines, 0, k);
    } else {
      SelectsNothing(m.infos, lines, 0, e);
    }
  }

  /** No event is named twice in the function of a state. */
  lemma StateCasesAreDistinct(m: Machine, s: State)
    requires WellFormed(m) && Clear(ClaimsOf(m.infos))
    ensures DistinctLabels(CasesFrom(m.infos, LinesOfState(m, s), 0))
  {
    EventsOfDistinct(ClaimsOf(m.infos), s);
    forall i | 0 <= i < |LinesOfState(m, s)|
      ensures LinesOfState(m, s)[i].key == EventsOf(ClaimsOf(m.infos), s)[i]
    {
      LineOfEvent(m, s, i);
    }
    CasesAreDistinct(m.infos, LinesOfState(m, s), 0);
  }

  lemma {:induction false} HandlerSelects(m: Machine, i: nat, e: Event)
    requires i <= m.numEvents
    ensures Selected(HandlerFrom(m, i), e) ==
            if i <= e < m.numEvents && Single(m, e) then Some(BodyOf(m.infos[FirstInfo(m.infos, e).value])) else None
    decreases m.numEvents - i
  {
    hide CoversAll, FirstInfo;
    if i < m.numEvents {
      HandlerSelects(m, i + 1, e);
      var piece, rest := HandlerPiece(m, i), HandlerFrom(m, i + 1);
      if Single(m, i) && i == e {
        var all := piece + rest;
        assert Enter(all, e, 0) == 0 && BodyFrom(all, 0) == BodyFrom(all, 1) == Some(all[1]);
      } else {
        EnterShift(piece, rest, e, 0);
        BodyAfter(piece, rest, Enter(rest, e, 0));
      }
    }
  }

  // ----- running -----

  /** What a state's function does. */
  function StateReact(m: Machine, env: Env, seen: Event, e: Event, s: State, w: World): Config {
    Perform(m, env, StateCell(m, e, s), seen, e, s, w)
  }

  /** What the handler does: an event that is not handled identically in all states is handed on. */
  function HandlerReact(m: Machine, env: Env, c: Config): Config {
    if Single(m, c.event) then Perform(m, env, FirstInfo(m.infos, c.event), c.event, c.event, c.state, c.world) else c
  }

  /** One iteration of the generated loop. */
  function SwitchReact(m: Machine, env: Env, c: Config): Config {
    if c.event >= NoEvent(m) then c
    else
      var d := if AnySingle(m) then HandlerReact(m, env, c) else c;
      if AnySingle(m) && d.event == NoEvent(m) then d
      else StateReact(m, env, c.event, d.event, d.state, d.world)
  }

  /** The end of a state's function: its own exit function is called by name. */
  method Epilogue(fsm: Fsm, own: State, s: State)
    requires fsm.state == if ExecutesOnTransition(fsm.m.hooks) then own else s
    modifies fsm`world, fsm`state
    ensures fsm.state == s && fsm.world == Changed(fsm.env, fsm.m.hooks, fsm.event, own, s, old(fsm.world))
  {
    var h := fsm.m.hooks;
    if ExecutesOnTransition(h) {
      if own != s {
        if h.machine {
          fsm.RunMachineHook(s);
        }
        if own in h.exits {
          fsm.RunExitFunction();
        }
        if s in h.entries {
          fsm.RunEntryFunction(s);
        }
        fsm.state := s;
      }
    } else {
      NoHooksNoChange(fsm.env, h, fsm.event, own, s, fsm.world);
    }
  }

  method CallStateFn(fsm: Fsm, fn: StateFn, own: State, e: Event) returns (next: Event)
    requires WellFormed(fsm.m) && Clear(ClaimsOf(fsm.m.infos))
    requires own == fsm.state < fsm.m.numStates && e < fsm.m.numEvents && IsStateFn(fsm.m, own, fn)
    modifies fsm`world, fsm`state
    ensures fsm.At(next) == StateReact(fsm.m, fsm.env, fsm.event, e, own, old(fsm.world))
  {
    hide CasesFrom, Selected, ClaimsOf, LinesOfState, Changed, Single;
    StateFnSelectsCell(fsm.m, e, own);
    NoChange(fsm.env, fsm.m.hooks, fsm.event, own);
    next := NoEvent(fsm.m);
    var s := own;
    var found := Selected(fn.items, e);
    if found.Some? {
      next := fsm.RunAction(found.value.action);
      s := TakeTransition(fsm, found.value.transition, e, own);
    }
    if fn.epilogue {
      Epilogue(fsm, own, s);
    }
  }

  /** The handler: answers no event when the event was handled, the event itself when not. */
  method CallHandler(fsm: Fsm, items: seq<Item<Event>>, e: Event) returns (next: Event)
    requires items == HandlerFrom(fsm.m, 0) && e < fsm.m.numEvents && fsm.event == e
    modifies fsm`world, fsm`state
    ensures fsm.At(next) == HandlerReact(fsm.m, fsm.env, old(fsm.At(e)))
  {
    hide HandlerFrom, Selected, CoversAll, FirstInfo, Changed;
    HandlerSelects(fsm.m, 0, e);
    ghost var from := fsm.state;
    NoChange(fsm.env, fsm.m.hooks, e, from);
    var found := Selected(items, e);
    next := e;
    if found.Some? {
      next := fsm.RunAction(found.value.action);
      var s := TakeTransition(fsm, found.value.transition, e, fsm.state);
      if ExecutesOnTransition(fsm.m.hooks) {
        if fsm.state != s {
          fsm.RunHooks(s);
          fsm.state := s;
        }
      } else {
        NoHooksNoChange(fsm.env, fsm.m.hooks, e, from, s, fsm.world);
      }
    }
  }

  /** The body of the generated loop. */
  method Iterate(fsm: Fsm, p: SwitchProgram, first: Event) returns (e: Event)
    requires WellFormed(fsm.m) && Clear(ClaimsOf(fsm.m.infos)) && Sound(fsm.m, fsm.env)
    requires IsSwitch(fsm.m, p) && first < fsm.m.numEvents && fsm.state < fsm.m.numStates
    modifies fsm
    ensures fsm.At(e) == SwitchReact(fsm.m, fsm.env, old(fsm.At(first)))
  {
    hide IsStateFn, HandlerFrom, HandlerReact, StateReact;
    fsm.event := first;
    e := first;
    if p.handler.Some? {
      HandlerStays(fsm.m, fsm.env, fsm.At(first));
      e := CallHandler(fsm, p.handler.value, e);
      if e == NoEvent(fsm.m) { return; }
    }
    e := CallStateFn(fsm, p.stateFns[fsm.state], fsm.state, e);
  }

  lemma HandlerStays(m: Machine, env: Env, c: Config)
    requires WellFormed(m) && Sound(m, env) && c.state < m.numStates && c.event <= NoEvent(m)
    ensures var d := HandlerReact(m, env, c); d.state < m.numStates && d.event <= NoEvent(m)
  {
    if Single(m, c.event) {
      assert WellFormedInfo(m, m.infos[FirstInfo(m.infos, c.event).value]);
    }
  }
}
