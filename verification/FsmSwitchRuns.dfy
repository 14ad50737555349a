/** The switch back end against the table back end, over single iterations and over whole runs. */
module FsmSwitchRuns {
  import opened Wrappers
  import opened FsmMatrix
  import opened FsmRun
  import opened FsmProgram
  import opened FsmSwitch

  /** The configuration is one that a machine can be in. */
  ghost predicate Usable(m: Machine, env: Env, c: Config) {
    && WellFormed(m) && Clear(ClaimsOf(m.infos)) && Sound(m, env)
    && c.state < m.numStates && c.event <= NoEvent(m)
  }

  lemma ReactKeepsUsable(m: Machine, env: Env, c: Config)
    requires Usable(m, env, c)
    ensures Usable(m, env, React(m, env, c))
  {
    ReactStays(m, env, c);
  }

  lemma SwitchKeepsUsable(m: Machine, env: Env, c: Config)
    requires Usable(m, env, c)
    ensures Usable(m, env, SwitchReact(m, env, c))
  {
    hide Changed, Single, Cell, ClaimsOf, Clear;
    HandlerStays(m, env, c);
    if c.event < NoEvent(m) {
      var d := if AnySingle(m) then HandlerReact(m, env, c) else c;
      PerformStays(m, env, StateCell(m, d.event, d.state), c.event, d.event, d.state, d.world);
    }
  }

  lemma PerformStays(m: Machine, env: Env, cell: Option<nat>, seen: Event, e: Event, s: State, w: World)
    requires WellFormed(m) && Sound(m, env) && s < m.numStates && (cell.Some? ==> cell.value < |m.infos|)
    ensures var c := Perform(m, env, cell, seen, e, s, w); c.state < m.numStates && c.event <= NoEvent(m)
  {
    hide Changed;
    assert cell.Some? ==> WellFormedInfo(m, m.infos[cell.value]);
  }

  /** For an event handled identically in all states, the handler does what the table does. */
  lemma HandlerIsReact(m: Machine, env: Env, c: Config)
    requires Usable(m, env, c) && c.event < NoEvent(m) && Single(m, c.event)
    ensures HandlerReact(m, env, c) == React(m, env, c)
  {
    SingleCells(m, c.event, c.state);
  }

  /** The same functions, but they see one event recorded in the machine, whichever is being handled. */
  function Seeing(env: Env, seen: Event): Env {
    Env((memory: Memory, s: State, e: Event, id: nat) => env.act(memory, s, seen, id),
        (memory: Memory, s: State, e: Event, passed: Event, fn: nat) => env.move(memory, s, seen, passed, fn),
        (memory: Memory, s: State, e: Event, to: State) => env.moved(memory, s, seen, to),
        env.exited, env.entered)
  }

  /** For any other event, the state's function does what the table does when the called functions see the recorded
      event. */
  lemma StateFnIsReact(m: Machine, env: Env, seen: Event, c: Config)
    requires Usable(m, env, c) && c.event < NoEvent(m) && !Single(m, c.event)
    ensures StateReact(m, env, seen, c.event, c.state, c.world) == React(m, Seeing(env, seen), c)
  {
    hide PerformInfo;
    var cell := Cell(m.infos, c.event, c.state);
    if cell.Some? {
      SeeingIs(m, env, m.infos[cell.value], seen, c.event, c.state, c.world);
    }
  }

  lemma SeesItself(m: Machine, env: Env, c: Config)
    ensures React(m, Seeing(env, c.event), c) == React(m, env, c)
  {
    hide PerformInfo;
    var cell := Cell(m.infos, c.event, c.state);
    if cell.Some? {
      SeeingIs(m, env, m.infos[cell.value], c.event, c.event, c.state, c.world);
    }
  }

  /** An event of the handler that reaches a state's function is dropped. */
  lemma StateFnDrops(m: Machine, env: Env, seen: Event, c: Config)
    requires Single(m, c.event)
    ensures StateReact(m, env, seen, c.event, c.state, c.world) == Config(c.state, NoEvent(m), c.world)
  {
  }

  /** The action of an event handled identically in all states answers another such event. */
  predicate Relays(m: Machine, env: Env, c: Config) {
    && c.event < NoEvent(m) && Single(m, c.event)
    && React(m, env, c).event < NoEvent(m) && Single(m, React(m, env, c).event)
  }

  /** What one iteration of the switch is, for every configuration: one step of the table, or two, the second with
      functions that see the first event; when the second event is the handler's again, it is lost. */
  lemma SwitchIteration(m: Machine, env: Env, c: Config)
    requires Usable(m, env, c) && c.event < NoEvent(m)
    ensures var next := React(m, env, c);
            SwitchReact(m, env, c) ==
              if Relays(m, env, c) then Config(next.state, NoEvent(m), next.world)
              else if Single(m, c.event) then React(m, Seeing(env, c.event), next)
              else next
  {
    hide React, HandlerReact, StateReact, Single;
    var next := React(m, env, c);
    ReactKeepsUsable(m, env, c);
    if Single(m, c.event) {
      assert AnySingle(m);
      HandlerIsReact(m, env, c);
      if next.event == NoEvent(m) {
        RestStays(m, Seeing(env, c.event), next);
      } else if Single(m, next.event) {
        StateFnDrops(m, env, c.event, next);
      } else {
        StateFnIsReact(m, env, c.event, next);
      }
    } else {
      NotHandled(m, env, c);
      StateFnIsReact(m, env, c.event, c);
      SeesItself(m, env, c);
    }
  }

  lemma RestStays(m: Machine, env: Env, c: Config)
    requires c.event >= NoEvent(m)
    ensures React(m, env, c) == c
  {
  }

  lemma NotHandled(m: Machine, env: Env, c: Config)
    requires !Single(m, c.event)
    ensures HandlerReact(m, env, c) == c
  {
  }

  /** The functions that a record calls answer, move or remember otherwise when they see another event recorded than
      the one being handled. */
  predicate ActsOtherwise(m: Machine, env: Env, info: ActionInfo, seen: Event, e: Event, s: State, memory: Memory) {
    var w := World(memory, []);
    var other, own := PerformInfo(m, env, info, seen, e, s, w), PerformInfo(m, env, info, e, e, s, w);
    other.event != own.event || other.state != own.state || other.world.memory != own.world.memory
  }

  /** In the second half of an iteration the functions see the first event, and that makes a difference. */
  predicate Misreads(m: Machine, env: Env, c: Config) {
    var next := React(m, env, c);
    && c.event < NoEvent(m) && Single(m, c.event) && next.event < NoEvent(m) && !Single(m, next.event)
    && var cell := Cell(m.infos, next.event, next.state);
       && cell.Some?
       && ActsOtherwise(m, env, m.infos[cell.value], c.event, next.event, next.state, next.world.memory)
  }

  /** The cell neither calls anything nor leaves the state. */
  predicate Idles(m: Machine, e: Event, s: State) {
    var cell := Cell(m.infos, e, s);
    cell.Some? ==>
      && m.infos[cell.value].action == NoAction
      && (m.infos[cell.value].transition == Stay || m.infos[cell.value].transition == To(s))
  }

  /** Nothing is misread, and a relayed event would have done nothing. */
  predicate KeepsStep(m: Machine, env: Env, c: Config) {
    && !Misreads(m, env, c)
    && (Relays(m, env, c) ==> Idles(m, React(m, env, c).event, React(m, env, c).state))
  }

  /** A live step leaves state, memory and log alone and answers no event, whatever the called functions do,
      exactly in an idle cell. */
  lemma IdleDoesNothing(m: Machine, env: Env, c: Config)
    requires c.event < NoEvent(m)
    ensures React(m, env, c) == Config(c.state, NoEvent(m), c.world) <==> Idles(m, c.event, c.state)
  {
    hide Fire;
    var cell := Cell(m.infos, c.event, c.state);
    if cell.Some? {
      var info := m.infos[cell.value];
      var (_, w1) := ActionResult(m, env, info.action, c.event, c.state, c.world);
      var (to, w2) := TransitionResult(env, info.transition, c.event, c.event, c.state, w1);
      ChangedFires(env, m.hooks, c.event, c.state, to, w2);
      assert |React(m, env, c).world.log| == |w2.log| + |Fire(m.hooks, c.state, to)|;
    }
  }

  /** The log of a record's calls follows from the state it leads to. */
  lemma PerformLogs(m: Machine, env: Env, info: ActionInfo, seen: Event, e: Event, s: State, w: World)
    ensures var c := PerformInfo(m, env, info, seen, e, s, w);
            && c.world.log == w.log + (if info.action.Act? then [Acted(info.action.id)] else [])
                                    + (if info.transition.Call? then [Called(info.transition.fn, e)] else [])
                                    + Fire(m.hooks, s, c.state)
            && var d := PerformInfo(m, env, info, seen, e, s, World(w.memory, []));
               c.state == d.state && c.event == d.event && c.world.memory == d.world.memory
  {
    hide Fire;
    var (_, w1) := ActionResult(m, env, info.action, seen, s, w);
    var (to, w2) := TransitionResult(env, info.transition, seen, e, s, w1);
    ChangedFires(env, m.hooks, seen, s, to, w2);
    assert w.log + [] == w.log && w1.log + [] == w1.log;
  }

  /** Seeing another event shows exactly in what the called functions answer, move to and remember. */
  lemma SeeingShows(m: Machine, env: Env, seen: Event, c: Config)
    requires c.event < NoEvent(m)
    ensures var cell := Cell(m.infos, c.event, c.state);
            React(m, Seeing(env, seen), c) == React(m, env, c) <==>
              !(cell.Some? && ActsOtherwise(m, env, m.infos[cell.value], seen, c.event, c.state, c.world.memory))
  {
    var cell := Cell(m.infos, c.event, c.state);
    if cell.Some? {
      var info := m.infos[cell.value];
      SeeingIs(m, env, info, seen, c.event, c.state, c.world);
      PerformLogs(m, env, info, seen, c.event, c.state, c.world);
      PerformLogs(m, env, info, c.event, c.event, c.state, c.world);
      hide PerformInfo, Fire;
    }
  }

  lemma SeeingIs(m: Machine, env: Env, info: ActionInfo, seen: Event, e: Event, s: State, w: World)
    ensures PerformInfo(m, Seeing(env, seen), info, e, e, s, w) == PerformInfo(m, env, info, seen, e, s, w)
  {
  }

  /** Exactly when an iteration of the switch is one step of the table, or two for an event handled identically in
      all states. */
  lemma SwitchMatchesTable(m: Machine, env: Env, c: Config)
    requires Usable(m, env, c) && c.event < NoEvent(m)
    ensures var next := React(m, env, c);
            SwitchReact(m, env, c) == (if Single(m, c.event) then React(m, env, next) else next) <==>
              KeepsStep(m, env, c)
  {
    hide React, SwitchReact, Single, Idles, ActsOtherwise;
    var next := React(m, env, c);
    SwitchIteration(m, env, c);
    ReactKeepsUsable(m, env, c);
    if next.event < NoEvent(m) {
      IdleDoesNothing(m, env, next);
      SeeingShows(m, env, c.event, next);
    } else {
      RestStays(m, env, next);
      RestStays(m, Seeing(env, c.event), next);
    }
  }

  // ----- whole runs -----

  function SwitchRun(m: Machine, env: Env, c: Config, n: nat): Config {
    if n == 0 then c else SwitchReact(m, env, SwitchRun(m, env, c, n - 1))
  }

  lemma {:induction false} SwitchRunStays(m: Machine, env: Env, c: Config, n: nat)
    requires Usable(m, env, c)
    ensures Usable(m, env, SwitchRun(m, env, c, n))
  {
    if n > 0 {
      hide SwitchReact, Usable;
      SwitchRunStays(m, env, c, n - 1);
      SwitchKeepsUsable(m, env, SwitchRun(m, env, c, n - 1));
    }
  }

  /** How many iterations of the table an iteration of the switch makes. */
  function Stride(m: Machine, env: Env, c: Config): (k: nat)
    ensures 1 <= k <= 2
  {
    if c.event < NoEvent(m) && Single(m, c.event) then 2 else 1
  }

  function Steps(m: Machine, env: Env, c: Config, n: nat): (k: nat)
    ensures n <= k <= 2 * n
  {
    if n == 0 then 0 else Steps(m, env, c, n - 1) + Stride(m, env, SwitchRun(m, env, c, n - 1))
  }

  /** Each of the first `n` iterations of the switch keeps step. */
  predicate KeepsUp(m: Machine, env: Env, c: Config, n: nat) {
    forall j :: 0 <= j < n ==> KeepsStep(m, env, SwitchRun(m, env, c, j))
  }

  /** After each of the first `n` iterations of the switch, the table has come to the same state, event and log. */
  predicate RunsAlike(m: Machine, env: Env, c: Config, n: nat) {
    forall j :: 0 <= j <= n ==> SwitchRun(m, env, c, j) == Run(m, env, c, Steps(m, env, c, j))
  }

  lemma StrideRun(m: Machine, env: Env, c: Config)
    requires Usable(m, env, c)
    ensures SwitchReact(m, env, c) == Run(m, env, c, Stride(m, env, c)) <==> KeepsStep(m, env, c)
  {
    hide React, Single, KeepsStep;
    assert Run(m, env, c, 1) == React(m, env, c);
    assert Run(m, env, c, 2) == React(m, env, Run(m, env, c, 1));
    if c.event < NoEvent(m) {
      hide SwitchReact;
      SwitchMatchesTable(m, env, c);
    } else {
      RestStays(m, env, c);
      RestKeepsStep(m, env, c);
    }
  }

  lemma RestKeepsStep(m: Machine, env: Env, c: Config)
    requires c.event >= NoEvent(m)
    ensures KeepsStep(m, env, c)
  {
  }

  lemma KeepsUpOneMore(m: Machine, env: Env, c: Config, n: nat)
    ensures KeepsUp(m, env, c, n + 1) <==> KeepsUp(m, env, c, n) && KeepsStep(m, env, SwitchRun(m, env, c, n))
    ensures RunsAlike(m, env, c, n + 1) <==>
              RunsAlike(m, env, c, n) && SwitchRun(m, env, c, n + 1) == Run(m, env, c, Steps(m, env, c, n + 1))
  {
    hide SwitchRun, Run, Steps, KeepsStep;
  }

  /** While the two run alike, one more iteration does so exactly when it keeps step. */
  lemma OneMoreStride(m: Machine, env: Env, c: Config, n: nat)
    requires Usable(m, env, c) && SwitchRun(m, env, c, n) == Run(m, env, c, Steps(m, env, c, n))
    ensures SwitchRun(m, env, c, n + 1) == Run(m, env, c, Steps(m, env, c, n + 1)) <==>
              KeepsStep(m, env, SwitchRun(m, env, c, n))
  {
    hide SwitchReact, Run, KeepsStep, Usable;
    var d := SwitchRun(m, env, c, n);
    SwitchRunStays(m, env, c, n);
    StrideRun(m, env, d);
    RunMore(m, env, c, Steps(m, env, c, n), Stride(m, env, d));
  }

  lemma StartAlike(m: Machine, env: Env, c: Config)
    ensures RunsAlike(m, env, c, 0) && KeepsUp(m, env, c, 0)
  {
    assert Steps(m, env, c, 0) == 0;
    assert Run(m, env, c, 0) == c;
  }

  lemma AlikeAt(m: Machine, env: Env, c: Config, n: nat)
    requires RunsAlike(m, env, c, n)
    ensures SwitchRun(m, env, c, n) == Run(m, env, c, Steps(m, env, c, n))
  {
    hide SwitchRun, Run, Steps;
  }

  /** Exactly when a run of the switch is a run of the table all along: each of its iterations keeps step. */
  lemma {:induction false} SwitchRunIsTableRun(m: Machine, env: Env, c: Config, n: nat)
    requires Usable(m, env, c)
    ensures RunsAlike(m, env, c, n) <==> KeepsUp(m, env, c, n)
  {
    hide *;
    if n == 0 {
      StartAlike(m, env, c);
    } else {
      SwitchRunIsTableRun(m, env, c, n - 1);
      KeepsUpOneMore(m, env, c, n - 1);
      if RunsAlike(m, env, c, n - 1) {
        AlikeAt(m, env, c, n - 1);
        OneMoreStride(m, env, c, n - 1);
      }
    }
  }

  lemma StepsGrow(m: Machine, env: Env, c: Config, n: nat)
    ensures Steps(m, env, c, n) < Steps(m, env, c, n + 1) <= Steps(m, env, c, n) + 2
    ensures Steps(m, env, c, 0) == 0
  {
    hide SwitchRun, Stride;
  }

  lemma {:induction false} ReachSteps(m: Machine, env: Env, c: Config, k: nat) returns (n: nat)
    ensures n <= k && (Steps(m, env, c, n) == k || Steps(m, env, c, n) == k + 1)
    decreases k
  {
    hide Steps;
    if k == 0 {
      n := 0;
      StepsGrow(m, env, c, 0);
    } else {
      n := ReachSteps(m, env, c, k - 1);
      StepsGrow(m, env, c, n);
      if Steps(m, env, c, n) != k { n := n + 1; }
    }
  }

  /** While the switch keeps step, every run of the table is a run of the switch, or one iteration short of one. */
  lemma TableRunIsSwitchRun(m: Machine, env: Env, c: Config, k: nat) returns (n: nat)
    requires Usable(m, env, c) && KeepsUp(m, env, c, k)
    ensures n <= k
    ensures SwitchRun(m, env, c, n) == Run(m, env, c, k) || SwitchRun(m, env, c, n) == Run(m, env, c, k + 1)
  {
    hide SwitchRun, Run, Steps, KeepsUp;
    n := ReachSteps(m, env, c, k);
    SwitchRunIsTableRun(m, env, c, k);
  }

  lemma RunSettled(m: Machine, env: Env, c: Config, n: nat, k: nat)
    requires n <= k && Run(m, env, c, n).event >= NoEvent(m)
    ensures Run(m, env, c, k) == Run(m, env, c, n)
  {
    hide Run;
    RunMore(m, env, c, n, k - n);
    RunRests(m, env, Run(m, env, c, n), k - n);
  }

  /** While the switch keeps step, the two come to rest together: with the same state and log, or neither does. */
  lemma SettleTogether(m: Machine, env: Env, c: Config, k: nat)
    requires Usable(m, env, c) && KeepsUp(m, env, c, k)
    ensures Run(m, env, c, k).event == NoEvent(m) ==> SwitchRun(m, env, c, k) == Run(m, env, c, k)
    ensures SwitchRun(m, env, c, k).event == NoEvent(m) ==> Run(m, env, c, 2 * k) == SwitchRun(m, env, c, k)
  {
    hide Run, SwitchRun, Steps, Usable, KeepsUp;
    SwitchRunIsTableRun(m, env, c, k);
    var n := Steps(m, env, c, k);
    if Run(m, env, c, k).event == NoEvent(m) {
      RunSettled(m, env, c, k, n);
    }
    if SwitchRun(m, env, c, k).event == NoEvent(m) {
      RunSettled(m, env, c, n, 2 * k);
    }
  }

  // ----- conditions on the called functions -----

  /** The actions of events handled identically in all states answer no event, or one that is not. */
  ghost predicate HandsOver(m: Machine, env: Env) {
    forall e: Event, memory, s: State, id: nat |
      e < NoEvent(m) && Single(m, e) && m.infos[FirstInfo(m.infos, e).value].action == Act(id) ::
      var r := env.act(memory, s, e, id).0;
      r == NoEvent(m) || !Single(m, r)
  }

  /** What the cells of all other events call neither answers by the recorded event nor remembers it: the same comes
      of seeing the own event and of seeing one that is handled identically in all states. */
  ghost predicate NeverLooks(m: Machine, env: Env) {
    forall e: Event, f: Event | e < NoEvent(m) && Single(m, e) && f < NoEvent(m) && !Single(m, f) ::
      && (forall memory, s: State, id: nat | ActsOn(m, f, s, id) ::
            env.act(memory, s, e, id) == env.act(memory, s, f, id))
      && (forall memory, s: State, fn: nat | CallsOn(m, f, s, fn) ::
            env.move(memory, s, e, f, fn) == env.move(memory, s, f, f, fn))
      && (m.hooks.machine ==> forall memory, s: State, to: State ::
            env.moved(memory, s, e, to) == env.moved(memory, s, f, to))
  }

  predicate ActsOn(m: Machine, e: Event, s: State, id: nat) {
    var cell := Cell(m.infos, e, s);
    cell.Some? && m.infos[cell.value].action == Act(id)
  }

  predicate CallsOn(m: Machine, e: Event, s: State, fn: nat) {
    var cell := Cell(m.infos, e, s);
    cell.Some? && m.infos[cell.value].transition == Call(fn)
  }

  lemma HandsOverNeverRelays(m: Machine, env: Env, c: Config)
    requires Usable(m, env, c) && HandsOver(m, env)
    ensures !Relays(m, env, c)
  {
    hide Changed, CoversAll, TransitionResult;
    if c.event < NoEvent(m) && Single(m, c.event) {
      SingleCells(m, c.event, c.state);
      var info := m.infos[FirstInfo(m.infos, c.event).value];
      if info.action.Act? {
        var r := env.act(c.world.memory, c.state, c.event, info.action.id).0;
        assert React(m, env, c).event == r;
      }
    }
  }

  lemma NeverLooksNeverMisreads(m: Machine, env: Env, c: Config)
    requires NeverLooks(m, env)
    ensures !Misreads(m, env, c)
  {
    hide React, Single;
    var e, next := c.event, React(m, env, c);
    var f, s := next.event, next.state;
    var cell := Cell(m.infos, f, s);
    if e < NoEvent(m) && Single(m, e) && f < NoEvent(m) && !Single(m, f) && cell.Some? {
      var info := m.infos[cell.value];
      var w := World(next.world.memory, []);
      if info.action.Act? { assert ActsOn(m, f, s, info.action.id); }
      if info.transition.Call? { assert CallsOn(m, f, s, info.transition.fn); }
      assert ActionResult(m, env, info.action, e, s, w) == ActionResult(m, env, info.action, f, s, w);
      var w1 := ActionResult(m, env, info.action, f, s, w).1;
      assert TransitionResult(env, info.transition, e, f, s, w1) == TransitionResult(env, info.transition, f, f, s, w1);
    }
  }

  /** Under both conditions every run of the switch keeps step. */
  lemma ConditionsKeepUp(m: Machine, env: Env, c: Config, n: nat)
    requires Usable(m, env, c) && HandsOver(m, env) && NeverLooks(m, env)
    ensures KeepsUp(m, env, c, n)
  {
    hide SwitchRun, Relays, Misreads, HandsOver, NeverLooks, Usable;
    forall j | 0 <= j < n
      ensures KeepsStep(m, env, SwitchRun(m, env, c, j))
    {
      SwitchRunStays(m, env, c, j);
      HandsOverNeverRelays(m, env, SwitchRun(m, env, c, j));
      NeverLooksNeverMisreads(m, env, SwitchRun(m, env, c, j));
    }
  }

  // ----- machines that keep step whatever the called functions do -----

  /** The cell calls a function that sees the recorded event. */
  predicate Looks(m: Machine, e: Event, s: State) {
    var cell := Cell(m.infos, e, s);
    && cell.Some?
    && var info := m.infos[cell.value];
       || info.action.Act? || info.transition.Call?
       || (m.hooks.machine && info.transition.To? && info.transition.state != s)
  }

  /** The event does no harm as the second of an iteration. */
  predicate Harmless(m: Machine, e: Event, s: State) {
    if Single(m, e) then Idles(m, e, s) else !Looks(m, e, s)
  }

  /** An event handled identically in all states, with an action to answer by, may lead to a state. */
  predicate MayLeadTo(m: Machine, e: Event, s: State) {
    && Single(m, e)
    && var info := m.infos[FirstInfo(m.infos, e).value];
       info.action.Act? && (info.transition.To? ==> info.transition.state == s)
  }

  /** Whatever state such an event leads to, no event does harm there. */
  predicate SwitchIsSafe(m: Machine) {
    forall e: Event, s: State, f: Event |
      e < NoEvent(m) && s < m.numStates && f < NoEvent(m) && MayLeadTo(m, e, s) :: Harmless(m, f, s)
  }

  /** Functions that answer one event, move to one state, and remember the event they see. */
  function Noting(answer: Event, to: State): Env {
    Env((memory: Memory, s: State, e: Event, id: nat) => (answer, memory[0 := e as int]),
        (memory: Memory, s: State, e: Event, passed: Event, fn: nat) => (to, memory[0 := e as int]),
        (memory: Memory, s: State, e: Event, next: State) => memory[0 := e as int],
        (memory: Memory, s: State) => memory,
        (memory: Memory, s: State) => memory)
  }

  lemma NothingSeen(m: Machine, env: Env, seen: Event, e: Event, s: State, memory: Memory)
    requires !Looks(m, e, s)
    ensures var cell := Cell(m.infos, e, s);
            cell.Some? ==> !ActsOtherwise(m, env, m.infos[cell.value], seen, e, s, memory)
  {
  }

  lemma NotingShows(m: Machine, answer: Event, to: State, seen: Event, e: Event, s: State, memory: Memory)
    requires Looks(m, e, s) && seen != e && to == s
    ensures ActsOtherwise(m, Noting(answer, to), m.infos[Cell(m.infos, e, s).value], seen, e, s, memory)
  {
    var info := m.infos[Cell(m.infos, e, s).value];
    NotingNotes(m, answer, to, info, seen, e, s, memory);
    NotingNotes(m, answer, to, info, e, e, s, memory);
    hide PerformInfo;
    assert memory[0 := seen as int][0] != memory[0 := e as int][0];
  }

  lemma NotingNotes(m: Machine, answer: Event, to: State, info: ActionInfo, seen: Event, e: Event, s: State,
                    memory: Memory)
    requires || info.action.Act? || info.transition.Call?
             || (m.hooks.machine && info.transition.To? && info.transition.state != s)
    requires to == s
    ensures PerformInfo(m, Noting(answer, to), info, seen, e, s, World(memory, [])).world.memory ==
            memory[0 := seen as int]
  {
  }

  lemma LeadsTo(m: Machine, env: Env, c: Config)
    requires Usable(m, env, c) && c.event < NoEvent(m) && Single(m, c.event)
    ensures var next := React(m, env, c); next.event < NoEvent(m) ==> MayLeadTo(m, c.event, next.state)
  {
    hide Changed, Single;
    SingleCells(m, c.event, c.state);
  }

  lemma NotingLeadsTo(m: Machine, e: Event, f: Event, s: State)
    requires Clear(ClaimsOf(m.infos)) && e < NoEvent(m) && s < m.numStates && MayLeadTo(m, e, s)
    ensures var next := React(m, Noting(f, s), Config(s, e, World(map[], [])));
            next.event == f && next.state == s
  {
    hide Changed, CoversAll;
    SingleCells(m, e, s);
  }

  lemma HarmfulShows(m: Machine, e: Event, s: State, f: Event)
    requires Clear(ClaimsOf(m.infos)) && e < NoEvent(m) && s < m.numStates && f < NoEvent(m)
    requires MayLeadTo(m, e, s) && !Harmless(m, f, s)
    ensures !KeepsStep(m, Noting(f, s), Config(s, e, World(map[], [])))
  {
    hide React, Single, Looks, Idles, ActsOtherwise;
    NotingLeadsTo(m, e, f, s);
    if !Single(m, f) {
      var c := Config(s, e, World(map[], []));
      NotingShows(m, f, s, e, f, s, React(m, Noting(f, s), c).world.memory);
      SomeCell(m, f, s);
    }
  }

  lemma SomeCell(m: Machine, e: Event, s: State)
    requires Looks(m, e, s)
    ensures Cell(m.infos, e, s).Some?
  {
  }

  lemma SafeKeepsStep(m: Machine, env: Env, c: Config)
    requires Usable(m, env, c) && SwitchIsSafe(m)
    ensures KeepsStep(m, env, c)
  {
    hide React, Single, Looks, Idles, ActsOtherwise, MayLeadTo;
    var next := React(m, env, c);
    if c.event < NoEvent(m) && Single(m, c.event) && next.event < NoEvent(m) {
      ReactKeepsUsable(m, env, c);
      LeadsTo(m, env, c);
      assert Harmless(m, next.event, next.state);
      if !Single(m, next.event) {
        NothingSeen(m, env, c.event, next.event, next.state, next.world.memory);
      }
    }
  }

  /** Exactly the machines whose switch runs as the table does, whatever functions they call, from every
      configuration. */
  lemma SwitchIsTable(m: Machine)
    requires WellFormed(m) && Clear(ClaimsOf(m.infos))
    ensures (forall env, c, n: nat | Usable(m, env, c) :: RunsAlike(m, env, c, n)) <==> SwitchIsSafe(m)
  {
    hide RunsAlike, KeepsStep, MayLeadTo, Harmless, SwitchRun;
    if SwitchIsSafe(m) {
      forall env, c, n: nat | Usable(m, env, c)
        ensures RunsAlike(m, env, c, n)
      {
        forall j | 0 <= j < n
          ensures KeepsStep(m, env, SwitchRun(m, env, c, j))
        {
          SwitchRunStays(m, env, c, j);
          SafeKeepsStep(m, env, SwitchRun(m, env, c, j));
        }
        SwitchRunIsTableRun(m, env, c, n);
      }
    } else {
      var e: Event, s: State, f: Event :|
        e < NoEvent(m) && s < m.numStates && f < NoEvent(m) && MayLeadTo(m, e, s) && !Harmless(m, f, s);
      HarmfulShows(m, e, s, f);
      var env, c := Noting(f, s), Config(s, e, World(map[], []));
      assert Usable(m, env, c);
      assert SwitchRun(m, env, c, 0) == c by { SwitchRunStarts(m, env, c); }
      SwitchRunIsTableRun(m, env, c, 1);
      assert !KeepsUp(m, env, c, 1);
    }
  }

  lemma SwitchRunStarts(m: Machine, env: Env, c: Config)
    ensures SwitchRun(m, env, c, 0) == c
  {
  }

  /** The generated loop, cut off after some iterations, with called functions of any kind. */
  method Loop(fsm: Fsm, p: SwitchProgram, first: Event, limit: nat) returns (e: Event)
    requires Usable(fsm.m, fsm.env, fsm.At(first)) && IsSwitch(fsm.m, p)
    modifies fsm
    ensures fsm.At(e) == SwitchRun(fsm.m, fsm.env, old(fsm.At(first)), limit)
    ensures KeepsUp(fsm.m, fsm.env, old(fsm.At(first)), limit) ==>
              fsm.At(e) == Run(fsm.m, fsm.env, old(fsm.At(first)), Steps(fsm.m, fsm.env, old(fsm.At(first)), limit))
  {
    hide SwitchReact, IsSwitch, Run, Steps, KeepsUp;
    e := first;
    var n := 0;
    ghost var start := fsm.At(first);
    while n < limit && e != NoEvent(fsm.m)
      invariant n <= limit && fsm.At(e) == SwitchRun(fsm.m, fsm.env, start, n)
      invariant Usable(fsm.m, fsm.env, fsm.At(e))
    {
      SwitchKeepsUsable(fsm.m, fsm.env, fsm.At(e));
      e := Iterate(fsm, p, e);
      n := n + 1;
    }
    SwitchRests(fsm.m, fsm.env, start, n, limit);
    SwitchRunIsTableRun(fsm.m, fsm.env, start, limit);
  }

  lemma {:induction false} SwitchRests(m: Machine, env: Env, c: Config, n: nat, limit: nat)
    requires n <= limit && (n == limit || SwitchRun(m, env, c, n).event == NoEvent(m))
    ensures SwitchRun(m, env, c, limit) == SwitchRun(m, env, c, n)
    decreases limit
  {
    if n < limit {
      SwitchRests(m, env, c, n, limit - 1);
      hide HandlerReact, StateReact;
    }
  }

  /** An event can be lost: of two events handled identically, the first answers the second, and the second's action
      is never called. */
  lemma SwitchLosesEvent(env: Env, memory: Memory)
    requires env.act(memory, 0, 0, 7).0 == 1
    ensures var m := Machine(2, 1, [ActionInfo(Act(7), Stay, [0], [0]), ActionInfo(Act(8), Stay, [1], [0])],
                             Hooks(false, {}, {}));
            var c := Config(0, 0, World(memory, []));
            && SwitchReact(m, env, c) == Config(0, 2, World(env.act(memory, 0, 0, 7).1, [Acted(7)]))
            && Run(m, env, c, 2).world.log == [Acted(7), Acted(8)]
  {
    var a, b := ActionInfo(Act(7), Stay, [0], [0]), ActionInfo(Act(8), Stay, [1], [0]);
    var m := Machine(2, 1, [a, b], Hooks(false, {}, {}));
    assert m.infos[..1] == [a] && [a][..0] == [];
    assert 0 in a.states && 0 in b.states;
    assert Single(m, 0) && Single(m, 1);
    var c := Config(0, 0, World(memory, []));
    var d := Config(0, 1, World(env.act(memory, 0, 0, 7).1, [Acted(7)]));
    assert React(m, env, c) == d by {
      assert Cell(m.infos, 0, 0) == Some(0);
    }
    assert React(m, env, d).world.log == [Acted(7), Acted(8)] by {
      assert Cell(m.infos, 1, 0) == Some(1);
    }
    assert Run(m, env, c, 1) == d;
    assert HandlerReact(m, env, c) == d;
    StateFnDrops(m, env, 0, d);
  }

  /** Event 0 is handled identically in both states, events 1 and 2 in state 0 only. */
  function Chain(): Machine {
    Machine(3, 2, [ActionInfo(Act(7), Stay, [0], [0, 1]), ActionInfo(Act(8), Stay, [1], [0]),
                   ActionInfo(Act(9), Stay, [2], [0])], Hooks(false, {}, {}))
  }

  lemma ChainCells()
    ensures Single(Chain(), 0) && !Single(Chain(), 1) && !Single(Chain(), 2)
    ensures FirstInfo(Chain().infos, 0) == Some(0)
    ensures forall e: Event | e < 3 :: Cell(Chain().infos, e, 0) == Some(e)
  {
    var infos := Chain().infos;
    assert infos[..2] == [infos[0], infos[1]] && [infos[0], infos[1]][..1] == [infos[0]] && [infos[0]][..0] == [];
    assert 0 in infos[0].states && 1 in infos[0].states && 0 in infos[1].states && 0 in infos[2].states;
    assert 1 !in infos[1].states && 1 !in infos[2].states;
    assert FirstInfo(infos, 0) == Some(0) && FirstInfo(infos, 1) == Some(1) && FirstInfo(infos, 2) == Some(2);
    assert !CoversAll(infos[1], 2) && !CoversAll(infos[2], 2);
  }

  /** One step of that machine in state 0. */
  lemma ChainStep(env: Env, e: Event, w: World)
    requires e < 3
    ensures var (next, memory) := env.act(w.memory, 0, e, e + 7);
            React(Chain(), env, Config(0, e, w)) == Config(0, next, World(memory, w.log + [Acted(e + 7)]))
    ensures Single(Chain(), e) ==>
              HandlerReact(Chain(), env, Config(0, e, w)) == React(Chain(), env, Config(0, e, w))
    ensures forall seen | !Single(Chain(), e) ::
              var (next, memory) := env.act(w.memory, 0, seen, e + 7);
              StateReact(Chain(), env, seen, e, 0, w) == Config(0, next, World(memory, w.log + [Acted(e + 7)]))
  {
    hide Single;
    ChainCells();
  }

  /** Functions of which the second answers by the event it sees: no event when it sees event 0, else event 0. */
  function Peeking(): Env {
    Env((memory: Memory, s: State, e: Event, id: nat) => (if id == 7 then 1 else if e == 0 then 3 else 0, memory),
        (memory: Memory, s: State, e: Event, passed: Event, fn: nat) => (0, memory),
        (memory: Memory, s: State, e: Event, to: State) => memory,
        (memory: Memory, s: State) => memory,
        (memory: Memory, s: State) => memory)
  }

  /** Such a function tells the back ends apart: the action of event 1 sees event 0 in the switch, which comes to
      rest, and event 1 in the table, which goes on. */
  lemma SwitchMisreads()
    ensures var c := Config(0, 0, World(map[], []));
            && Misreads(Chain(), Peeking(), c)
            && SwitchReact(Chain(), Peeking(), c) == Config(0, 3, World(map[], [Acted(7), Acted(8)]))
            && Run(Chain(), Peeking(), c, 2) == Config(0, 0, World(map[], [Acted(7), Acted(8)]))
  {
    hide React, Single, HandlerReact, StateReact;
    var m, env := Chain(), Peeking();
    var c, d := Config(0, 0, World(map[], [])), Config(0, 1, World(map[], [Acted(7)]));
    ChainCells();
    ChainStep(env, 0, c.world);
    ChainStep(env, 1, d.world);
    assert c.world.log + [Acted(7)] == d.world.log && d.world.log + [Acted(8)] == [Acted(7), Acted(8)];
    assert React(m, env, c) == d && Run(m, env, c, 1) == React(m, env, Run(m, env, c, 0));
    assert AnySingle(m);
  }

  /** Functions that answer alike whatever they see: the second remembers what it saw, and the third answers by
      that. */
  function Recalling(): Env {
    Env((memory: Memory, s: State, e: Event, id: nat) =>
          if id == 7 then (1, memory)
          else if id == 8 then (2, memory[0 := e as int])
          else (if 0 in memory && memory[0] == 0 then 3 else 0, memory),
        (memory: Memory, s: State, e: Event, passed: Event, fn: nat) => (0, memory),
        (memory: Memory, s: State, e: Event, to: State) => memory,
        (memory: Memory, s: State) => memory,
        (memory: Memory, s: State) => memory)
  }

  /** Remembering is enough to tell the back ends apart, though no answer ever depends on the event seen: the switch
      comes to rest after two iterations, and the table goes on after three. */
  lemma SwitchRemembers()
    ensures forall memory, s, e, f, id :: Recalling().act(memory, s, e, id).0 == Recalling().act(memory, s, f, id).0
    ensures var c := Config(0, 0, World(map[], []));
            && Misreads(Chain(), Recalling(), c)
            && SwitchRun(Chain(), Recalling(), c, 2) ==
               Config(0, 3, World(map[0 := 0], [Acted(7), Acted(8), Acted(9)]))
            && Run(Chain(), Recalling(), c, 3) ==
               Config(0, 0, World(map[0 := 1], [Acted(7), Acted(8), Acted(9)]))
  {
    hide React, Single, HandlerReact, StateReact;
    var m, env := Chain(), Recalling();
    var c, d := Config(0, 0, World(map[], [])), Config(0, 1, World(map[], [Acted(7)]));
    var x, y := World(map[0 := 0], [Acted(7), Acted(8)]), World(map[0 := 1], [Acted(7), Acted(8)]);
    ChainCells();
    ChainStep(env, 0, c.world);
    ChainStep(env, 1, d.world);
    ChainStep(env, 2, x);
    ChainStep(env, 2, y);
    assert c.world.log + [Acted(7)] == d.world.log && d.world.log + [Acted(8)] == x.log;
    assert x.log + [Acted(9)] == [Acted(7), Acted(8), Acted(9)];
    assert map[][0 := 0] == map[0 := 0] && map[][0 := 1] == map[0 := 1];
    assert AnySingle(m);
    assert SwitchRun(m, env, c, 1) == SwitchReact(m, env, SwitchRun(m, env, c, 0)) == Config(0, 2, x);
    NotHandled(m, env, Config(0, 2, x));
    assert React(m, env, c) == d;
    assert Run(m, env, c, 1) == d;
    assert Run(m, env, c, 2) == React(m, env, d) == Config(0, 2, y);
  }
}
