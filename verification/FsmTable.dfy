/** The table back end: an array of actions and transitions, and the loop that looks them up. */
module FsmTable {
  import opened FsmMatrix
  import opened FsmPopulate
  import opened FsmRun
  import opened FsmProgram

  /** The transition column: a state, or a function when the machine has transition functions. */
  datatype Target = Const(state: State) | FnTo(state: State) | FnStay | FnCall(fn: nat)

  datatype TableCell = TableCell(action: Action, target: Target)

  /** The entry of a state's own cell leads where the transition does. */
  predicate Leads(target: Target, t: Transition, s: State) {
    match t
    case Stay => target == FnStay || target == Const(s)
    case To(to) => target == FnTo(to) || target == Const(to)
    case Call(fn) => target == FnCall(fn)
  }

  predicate HasTransitionFns(m: Machine) {
    exists k :: 0 <= k < |m.infos| && m.infos[k].transition.Call?
  }

  /** A table entry stands for its cell: the same action, and a transition to the same place. */
  predicate StandsFor(m: Machine, t: TableCell, e: Event, s: State) {
    var cell := Cell(m.infos, e, s);
    && t.action == (if cell.None? then NoAction else m.infos[cell.value].action)
    && Leads(t.target, if cell.None? then Stay else m.infos[cell.value].transition, s)
  }

  predicate IsTable(m: Machine, p: seq<seq<TableCell>>) {
    && |p| == m.numEvents
    && (forall e :: 0 <= e < m.numEvents ==> |p[e]| == m.numStates)
    && (forall e, s :: 0 <= e < m.numEvents && 0 <= s < m.numStates ==> StandsFor(m, p[e][s], e, s))
  }

  /** Writes the array of one event. */
  method DefineRow(a: ActionArray, fns: bool, e: Event) returns (row: seq<TableCell>)
    requires a.Populated() && e < a.m.numEvents && fns == HasTransitionFns(a.m)
    ensures |row| == a.m.numStates
    ensures forall s :: 0 <= s < a.m.numStates ==> StandsFor(a.m, row[s], e, s)
  {
    hide HasTransitionFns;
    row := [];
    for s := 0 to a.m.numStates
      invariant |row| == s
      invariant forall j :: 0 <= j < s ==> StandsFor(a.m, row[j], e, j)
    {
      OwnerIsCell(a.m.infos, e, s);
      var k := a.cell[e, s];
      var action, target := NoAction, if fns then FnStay else Const(s);
      if k >= 0 {
        var info := a.m.infos[k];
        action := info.action;
        target := WriteTarget(a.m, k, fns, s);
      }
      row := row + [TableCell(action, target)];
    }
  }

  method WriteTarget(m: Machine, k: nat, fns: bool, s: State) returns (target: Target)
    requires k < |m.infos| && fns == HasTransitionFns(m)
    ensures Leads(target, m.infos[k].transition, s)
  {
    match m.infos[k].transition
    case Stay =>
      target := if fns then FnStay else Const(s);
    case To(to) =>
      target := if fns then FnTo(to) else Const(to);
    case Call(fn) =>
      target := FnCall(fn);
  }

  /** Writes the array: one row an event, one entry a state. */
  method DefineActionArray(a: ActionArray) returns (p: seq<seq<TableCell>>)
    requires a.Populated()
    ensures IsTable(a.m, p)
  {
    hide StandsFor;
    var fns := AnyTransitionFn(a.m);
    p := [];
    for e := 0 to a.m.numEvents
      invariant |p| == e
      invariant forall f :: 0 <= f < e ==> |p[f]| == a.m.numStates
      invariant forall f, s :: 0 <= f < e && 0 <= s < a.m.numStates ==> StandsFor(a.m, p[f][s], f, s)
    {
      var row := DefineRow(a, fns, e);
      p := p + [row];
    }
  }

  method AnyTransitionFn(m: Machine) returns (fns: bool)
    ensures fns == HasTransitionFns(m)
  {
    fns := false;
    for k := 0 to |m.infos|
      invariant fns <==> exists j :: 0 <= j < k && m.infos[j].transition.Call?
    {
      if m.infos[k].transition.Call? {
        fns := true;
      }
    }
  }

  method RunTarget(fsm: Fsm, target: Target, e: Event, ghost t: Transition) returns (to: State)
    requires Leads(target, t, fsm.state)
    modifies fsm`world
    ensures (to, fsm.world) == TransitionResult(fsm.env, t, fsm.event, e, fsm.state, old(fsm.world))
  {
    match target
    case Const(s) =>
      to := s;
    case FnTo(s) =>
      to := s;
    case FnStay =>
      to := fsm.state;
    case FnCall(fn) =>
      to := fsm.RunTransition(Call(fn), e);
  }

  /** The body of the generated loop. */
  method Iterate(fsm: Fsm, p: seq<seq<TableCell>>, e: Event) returns (next: Event)
    requires IsTable(fsm.m, p) && e < fsm.m.numEvents && fsm.state < fsm.m.numStates
    modifies fsm
    ensures fsm.At(next) == React(fsm.m, fsm.env, old(fsm.At(e)))
  {
    fsm.event := e;
    var entry := p[e][fsm.state];
    ghost var cell := Cell(fsm.m.infos, e, fsm.state);
    assert StandsFor(fsm.m, entry, e, fsm.state);
    next := fsm.RunAction(entry.action);
    var newState := RunTarget(fsm, entry.target, e, if cell.None? then Stay else fsm.m.infos[cell.value].transition);
    if ExecutesOnTransition(fsm.m.hooks) {
      if fsm.state != newState {
        fsm.RunHooks(newState);
        fsm.state := newState;
      }
    } else {
      NoHooksNoChange(fsm.env, fsm.m.hooks, e, fsm.state, newState, fsm.world);
      fsm.state := newState;
    }
  }

  /** The generated loop, cut off after some iterations. */
  method Loop(fsm: Fsm, p: seq<seq<TableCell>>, first: Event, limit: nat) returns (e: Event)
    requires WellFormed(fsm.m) && Sound(fsm.m, fsm.env)
    requires IsTable(fsm.m, p) && first <= NoEvent(fsm.m) && fsm.state < fsm.m.numStates
    modifies fsm
    ensures fsm.At(e) == Run(fsm.m, fsm.env, old(fsm.At(first)), limit)
  {
    hide React, IsTable;
    e := first;
    var n := 0;
    ghost var start := fsm.At(first);
    while n < limit && e != NoEvent(fsm.m)
      invariant n <= limit && fsm.At(e) == Run(fsm.m, fsm.env, start, n)
      invariant e <= NoEvent(fsm.m) && fsm.state < fsm.m.numStates
    {
      ReactStays(fsm.m, fsm.env, fsm.At(e));
      e := Iterate(fsm, p, e);
      n := n + 1;
    }
    if n < limit {
      RunMore(fsm.m, fsm.env, start, n, limit - n);
      RunRests(fsm.m, fsm.env, fsm.At(e), limit - n);
    }
  }
}
