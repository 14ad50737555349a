/** The hooks called by the switch and the single-switch back ends, for every machine and all called functions. */
module FsmHooks {
  import opened FsmMatrix
  import opened FsmRun
  import opened FsmSwitch
  import opened FsmSwitchRuns
  import opened FsmSingleSwitchRuns

  /** A trail that goes on to a state, unless it is there. */
  function GoOn(trail: seq<State>, s: State): (r: seq<State>)
    requires trail != [] && Moves(trail)
    ensures Moves(r) && r != [] && r[0] == trail[0] && r[|r| - 1] == s
  {
    if s == trail[|trail| - 1] then trail else trail + [s]
  }

  /** The configuration between the handler and the function of a state. */
  function Halfway(m: Machine, env: Env, c: Config): Config {
    if c.event < NoEvent(m) && AnySingle(m) then HandlerReact(m, env, c) else c
  }

  /** The states a run of the switch goes through, those in the middle of an iteration included. */
  function SwitchTrail(m: Machine, env: Env, c: Config, n: nat): (r: seq<State>)
    ensures r != [] && r[0] == c.state && r[|r| - 1] == SwitchRun(m, env, c, n).state
    ensures Moves(r)
  {
    if n == 0 then [c.state]
    else
      var before := SwitchRun(m, env, c, n - 1);
      GoOn(GoOn(SwitchTrail(m, env, c, n - 1), Halfway(m, env, before).state), SwitchRun(m, env, c, n).state)
  }

  lemma HalfwayFires(m: Machine, env: Env, c: Config)
    ensures var d := Halfway(m, env, c);
            HooksIn(d.world.log) == HooksIn(c.world.log) + Fire(m.hooks, c.state, d.state)
  {
    hide HooksIn, Fire, Perform;
    NoFire(m.hooks, c.state, c.world.log);
    if Single(m, c.event) {
      PerformFires(m, env, FirstInfo(m.infos, c.event), c.event, c.event, c.state, c.world);
    }
  }

  lemma SwitchFires(m: Machine, env: Env, c: Config)
    ensures var d, r := Halfway(m, env, c), SwitchReact(m, env, c);
            HooksIn(r.world.log) == HooksIn(d.world.log) + Fire(m.hooks, d.state, r.state)
  {
    hide HooksIn, Fire, Perform, HandlerReact;
    var d := Halfway(m, env, c);
    NoFire(m.hooks, d.state, d.world.log);
    PerformFires(m, env, StateCell(m, d.event, d.state), c.event, d.event, d.state, d.world);
  }

  lemma TrailStep(m: Machine, env: Env, c: Config, n: nat)
    ensures var before := SwitchRun(m, env, c, n);
            && SwitchRun(m, env, c, n + 1) == SwitchReact(m, env, before)
            && SwitchTrail(m, env, c, n + 1) ==
               GoOn(GoOn(SwitchTrail(m, env, c, n), Halfway(m, env, before).state), SwitchReact(m, env, before).state)
  {
    hide SwitchReact, Halfway, GoOn;
  }

  lemma TrailStarts(m: Machine, env: Env, c: Config)
    ensures SwitchRun(m, env, c, 0) == c && SwitchTrail(m, env, c, 0) == [c.state]
    ensures HooksAlong(m.hooks, [c.state]) == []
  {
  }

  lemma HooksGoOn(h: Hooks, start: seq<Entry>, trail: seq<State>, s: State)
    requires trail != [] && Moves(trail)
    ensures start + HooksAlong(h, trail) + Fire(h, trail[|trail| - 1], s) == start + HooksAlong(h, GoOn(trail, s))
  {
    hide HooksAlong, Fire, Moves;
    HooksMoveOn(h, start, trail, s);
  }

  /** Over every run of the switch, the hooks called are those of one chain of states. */
  lemma {:induction false} SwitchHooksFollowTrail(m: Machine, env: Env, c: Config, n: nat)
    ensures HooksIn(SwitchRun(m, env, c, n).world.log) ==
            HooksIn(c.world.log) + HooksAlong(m.hooks, SwitchTrail(m, env, c, n))
  {
    hide *;
    if n == 0 {
      TrailStarts(m, env, c);
      NothingMore(HooksIn(c.world.log));
    } else {
      SwitchHooksFollowTrail(m, env, c, n - 1);
      TrailStep(m, env, c, n - 1);
      var before := SwitchRun(m, env, c, n - 1);
      var trail := SwitchTrail(m, env, c, n - 1);
      var mid := Halfway(m, env, before).state;
      HalfwayFires(m, env, before);
      SwitchFires(m, env, before);
      HooksGoOn(m.hooks, HooksIn(c.world.log), trail, mid);
      HooksGoOn(m.hooks, HooksIn(c.world.log), GoOn(trail, mid), SwitchReact(m, env, before).state);
    }
  }

  function SingleTrail(m: Machine, env: Env, c: Config, n: nat): (r: seq<State>)
    ensures r != [] && r[0] == c.state && r[|r| - 1] == SingleRun(m, env, c, n).state
    ensures Moves(r)
  {
    if n == 0 then [c.state] else GoOn(SingleTrail(m, env, c, n - 1), SingleRun(m, env, c, n).state)
  }

  lemma SingleFires(m: Machine, env: Env, c: Config)
    ensures var r := SingleReact(m, env, c);
            HooksIn(r.world.log) == HooksIn(c.world.log) + Fire(m.hooks, c.state, r.state)
  {
    hide HooksIn, Fire, Changed;
    NoFire(m.hooks, c.state, c.world.log);
    var cell := Cell(m.infos, c.event, c.state);
    if c.event < NoEvent(m) && cell.Some? {
      var info := m.infos[cell.value];
      var (next, w1) := ActionResult(m, env, info.action, c.event, c.state, c.world);
      var (to, w2) := TransitionResult(env, info.transition, c.event, next, c.state, w1);
      CallsAreNoHooks(m, env, info.action, info.transition, c.event, next, c.state, c.world);
      ChangedFires(env, m.hooks, c.event, c.state, to, w2);
      HooksInBoth(w2.log, Fire(m.hooks, c.state, to));
      FireIsHooks(m.hooks, c.state, to);
    }
  }

  /** Over every run of the single switch, with transition functions of any kind, likewise. */
  lemma {:induction false} SingleHooksFollowTrail(m: Machine, env: Env, c: Config, n: nat)
    ensures HooksIn(SingleRun(m, env, c, n).world.log) == HooksIn(c.world.log) + HooksAlong(m.hooks, SingleTrail(m, env, c, n))
  {
    hide HooksIn, Fire, SingleReact;
    if n == 0 {
      NothingMore(HooksIn(c.world.log));
    } else {
      hide HooksAlong;
      SingleHooksFollowTrail(m, env, c, n - 1);
      SingleFires(m, env, SingleRun(m, env, c, n - 1));
      HooksMoveOn(m.hooks, HooksIn(c.world.log), SingleTrail(m, env, c, n - 1), SingleRun(m, env, c, n).state);
    }
  }
}
