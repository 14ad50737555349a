/** The single-switch back end against the table back end. */
module FsmSingleSwitchRuns {
  import opened Wrappers
  import opened FsmMatrix
  import opened FsmRun
  import opened FsmProgram
  import opened FsmSingleSwitch

  /** What the selected body does: the transition function is passed the event that the action answered. */
  function SinglePerform(m: Machine, env: Env, cell: Option<nat>, e: Event, s: State, w: World): Config
    requires cell.Some? ==> cell.value < |m.infos|
  {
    if cell.None? then Config(s, NoEvent(m), w)
    else
      var info := m.infos[cell.value];
      var (next, w1) := ActionResult(m, env, info.action, e, s, w);
      var (to, w2) := TransitionResult(env, info.transition, e, next, s, w1);
      Config(to, next, Changed(env, m.hooks, e, s, to, w2))
  }

  /** One iteration of the generated loop. */
  function SingleReact(m: Machine, env: Env, c: Config): Config {
    if c.event >= NoEvent(m) then c
    else SinglePerform(m, env, Cell(m.infos, c.event, c.state), c.event, c.state, c.world)
  }

  /** The body of the generated loop; the local `s` stays in step with the machine's state. */
  method Iterate(fsm: Fsm, items: seq<Item<nat>>, bits: nat, first: Event, start: State) returns (e: Event, s: State)
    requires WellFormed(fsm.m) && Clear(ClaimsOf(fsm.m.infos))
    requires FilledKeysDiffer(fsm.m, bits) && EmptyKeysApart(fsm.m, bits)
    requires IsSingleSwitch(fsm.m, bits, items) && first < fsm.m.numEvents && start == fsm.state < fsm.m.numStates
    modifies fsm
    ensures fsm.At(e) == SingleReact(fsm.m, fsm.env, old(fsm.At(first))) && s == fsm.state
  {
    hide Selected, ClaimsOf, Cell, IsSingleSwitch, FilledKeysDiffer, EmptyKeysApart, Combine, Changed;
    ApartSelects(fsm.m, bits, items, first, fsm.state);
    NoChange(fsm.env, fsm.m.hooks, first, fsm.state);
    s := start;
    fsm.event := first;
    var found := Selected(items, Combine(bits, first, fsm.state));
    if found.Some? {
      e := fsm.RunAction(found.value.action);
      if found.value.transition != Stay {
        s := fsm.RunTransition(found.value.transition, e);
      }
    } else {
      e := NoEvent(fsm.m);
    }
    if ExecutesOnTransition(fsm.m.hooks) {
      if s != fsm.state {
        fsm.RunHooks(s);
      }
    } else {
      NoHooksNoChange(fsm.env, fsm.m.hooks, first, fsm.state, s, fsm.world);
    }
    fsm.state := s;
  }

  /** The cell calls a transition function, and its action answers another event than the one handled. */
  predicate PassesOn(m: Machine, env: Env, c: Config) {
    && c.event < NoEvent(m)
    && var cell := Cell(m.infos, c.event, c.state);
       && cell.Some? && m.infos[cell.value].transition.Call?
       && ActionResult(m, env, m.infos[cell.value].action, c.event, c.state, c.world).0 != c.event
  }

  /** Exactly when an iteration matches the table. */
  lemma SingleMatchesTable(m: Machine, env: Env, c: Config)
    ensures SingleReact(m, env, c) == React(m, env, c) <==> !PassesOn(m, env, c)
  {
    hide Fire, Changed;
    var cell := Cell(m.infos, c.event, c.state);
    if PassesOn(m, env, c) {
      var info := m.infos[cell.value];
      var (next, w1) := ActionResult(m, env, info.action, c.event, c.state, c.world);
      var (to1, x) := TransitionResult(env, info.transition, c.event, next, c.state, w1);
      var (to2, y) := TransitionResult(env, info.transition, c.event, c.event, c.state, w1);
      ChangedFires(env, m.hooks, c.event, c.state, to1, x);
      ChangedFires(env, m.hooks, c.event, c.state, to2, y);
      assert SingleReact(m, env, c).world.log[|w1.log|] == Called(info.transition.fn, next);
      assert React(m, env, c).world.log[|w1.log|] == Called(info.transition.fn, c.event);
    }
  }

  /** Calling a transition function tells the back ends apart: event 0 is handled by an action that answers event 1,
      and the function is passed event 1 here and event 0 by the table. */
  lemma SinglePassesOn(env: Env, memory: Memory)
    requires env.act(memory, 0, 0, 7).0 == 1
    ensures var m := Machine(2, 1, [ActionInfo(Act(7), Call(3), [0], [0])], Hooks(false, {}, {}));
            var c := Config(0, 0, World(memory, []));
            && PassesOn(m, env, c)
            && SingleReact(m, env, c).world.log == [Acted(7), Called(3, 1)]
            && React(m, env, c).world.log == [Acted(7), Called(3, 0)]
  {
    var info := ActionInfo(Act(7), Call(3), [0], [0]);
    assert 0 in info.events && 0 in info.states;
    assert Cell([info], 0, 0) == Some(0);
  }

  // ----- whole runs -----

  function SingleRun(m: Machine, env: Env, c: Config, n: nat): Config {
    if n == 0 then c else SingleReact(m, env, SingleRun(m, env, c, n - 1))
  }

  /** None of the first `n` iterations passes another event on. */
  predicate PassesNone(m: Machine, env: Env, c: Config, n: nat) {
    forall j :: 0 <= j < n ==> !PassesOn(m, env, SingleRun(m, env, c, j))
  }

  predicate SingleAlike(m: Machine, env: Env, c: Config, n: nat) {
    forall j :: 0 <= j <= n ==> SingleRun(m, env, c, j) == Run(m, env, c, j)
  }

  lemma OneMoreAlike(m: Machine, env: Env, c: Config, n: nat)
    ensures PassesNone(m, env, c, n + 1) <==> PassesNone(m, env, c, n) && !PassesOn(m, env, SingleRun(m, env, c, n))
    ensures SingleAlike(m, env, c, n + 1) <==>
              SingleAlike(m, env, c, n) && SingleRun(m, env, c, n + 1) == Run(m, env, c, n + 1)
  {
    hide SingleRun, Run, PassesOn;
  }

  /** Exactly when a run of the single switch is a run of the table all along: no iteration passes another event
      on to a transition function. */
  lemma {:induction false} SingleRunIsTableRun(m: Machine, env: Env, c: Config, n: nat)
    ensures SingleAlike(m, env, c, n) <==> PassesNone(m, env, c, n)
  {
    hide SingleReact, React, PassesOn;
    if n > 0 {
      SingleRunIsTableRun(m, env, c, n - 1);
      OneMoreAlike(m, env, c, n - 1);
      SingleMatchesTable(m, env, SingleRun(m, env, c, n - 1));
    }
  }

  predicate PlainTransitions(m: Machine) {
    forall k :: 0 <= k < |m.infos| ==> !m.infos[k].transition.Call?
  }

  /** Without transition functions every run is the table's. */
  lemma PlainRunIsTableRun(m: Machine, env: Env, c: Config, n: nat)
    requires PlainTransitions(m)
    ensures SingleRun(m, env, c, n) == Run(m, env, c, n)
  {
    SingleRunIsTableRun(m, env, c, n);
  }

  lemma SingleStays(m: Machine, env: Env, c: Config)
    requires WellFormed(m) && Sound(m, env) && c.state < m.numStates && c.event <= NoEvent(m)
    ensures SingleReact(m, env, c).state < m.numStates && SingleReact(m, env, c).event <= NoEvent(m)
  {
    hide Changed;
    var cell := Cell(m.infos, c.event, c.state);
    if c.event < NoEvent(m) && cell.Some? {
      assert WellFormedInfo(m, m.infos[cell.value]);
    }
  }

  lemma {:induction false} SingleRests(m: Machine, env: Env, c: Config, n: nat, limit: nat)
    requires n <= limit && (n == limit || SingleRun(m, env, c, n).event == NoEvent(m))
    ensures SingleRun(m, env, c, limit) == SingleRun(m, env, c, n)
    decreases limit
  {
    if n < limit { SingleRests(m, env, c, n, limit - 1); }
  }

  /** The generated loop, cut off after some iterations, with transition functions of any kind; without them, the
      same run as with the table. */
  method Loop(fsm: Fsm, items: seq<Item<nat>>, bits: nat, first: Event, limit: nat) returns (e: Event)
    requires WellFormed(fsm.m) && Clear(ClaimsOf(fsm.m.infos)) && Sound(fsm.m, fsm.env)
    requires FilledKeysDiffer(fsm.m, bits) && EmptyKeysApart(fsm.m, bits)
    requires IsSingleSwitch(fsm.m, bits, items) && first <= NoEvent(fsm.m) && fsm.state < fsm.m.numStates
    modifies fsm
    ensures fsm.At(e) == SingleRun(fsm.m, fsm.env, old(fsm.At(first)), limit)
    ensures PlainTransitions(fsm.m) ==> fsm.At(e) == Run(fsm.m, fsm.env, old(fsm.At(first)), limit)
  {
    hide SingleReact, IsSingleSwitch, FilledKeysDiffer, EmptyKeysApart, Run, PlainTransitions, ClaimsOf;
    var s := fsm.state;
    e := first;
    var n := 0;
    ghost var start := fsm.At(first);
    while n < limit && e != NoEvent(fsm.m)
      invariant n <= limit && fsm.At(e) == SingleRun(fsm.m, fsm.env, start, n)
      invariant e <= NoEvent(fsm.m) && s == fsm.state < fsm.m.numStates
    {
      SingleStays(fsm.m, fsm.env, fsm.At(e));
      e, s := Iterate(fsm, items, bits, e, s);
      n := n + 1;
    }
    SingleRests(fsm.m, fsm.env, start, n, limit);
    if PlainTransitions(fsm.m) { PlainRunIsTableRun(fsm.m, fsm.env, start, limit); }
  }
}
