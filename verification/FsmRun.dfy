/** What a machine is meant to do with an event, and what its hooks see over whole runs. */
module FsmRun {
  import opened Wrappers
  import opened FsmMatrix

  /** A call of an action, a transition function or a hook. */
  datatype Entry =
    | Acted(action: nat)
    | Called(fn: nat, event: Event)
    | MachineMoved(to: State)
    | Exited(state: State)
    | Entered(state: State)

  /** What the called functions remember: the values of their variables, by number. */
  type Memory = map<nat, int>

  /** What a run leaves behind: the memory of the called functions, and the calls in order. */
  datatype World = World(memory: Memory, log: seq<Entry>)

  /** The functions the machine calls; each leaves a new memory. An action sees the memory, the state and the event
      recorded in the machine, and answers an event. A transition function sees the same, is passed an event, and
      answers a state. The machine's own hook sees the same and is passed the next state. Exit and entry functions
      see the memory, but not the machine. */
  datatype Env = Env(
    act: (Memory, State, Event, nat) -> (Event, Memory),
    move: (Memory, State, Event, Event, nat) -> (State, Memory),
    moved: (Memory, State, Event, State) -> Memory,
    exited: (Memory, State) -> Memory,
    entered: (Memory, State) -> Memory)

  datatype Config = Config(state: State, event: Event, world: World)

  /** The number that stands for no event follows the events. */
  function NoEvent(m: Machine): Event {
    m.numEvents
  }

  /** The called functions answer events and states of the machine. */
  ghost predicate Sound(m: Machine, env: Env) {
    && (forall memory, s, e, a :: env.act(memory, s, e, a).0 <= NoEvent(m))
    && (forall memory, s, seen, e, f :: env.move(memory, s, seen, e, f).0 < m.numStates)
  }

  function Fire(h: Hooks, from: State, to: State): seq<Entry> {
    if from == to then []
    else
      (if h.machine then [MachineMoved(to)] else []) +
      (if from in h.exits then [Exited(from)] else []) +
      (if to in h.entries then [Entered(to)] else [])
  }

  /** The calls on a change of state, before the state is replaced. */
  function Changed(env: Env, h: Hooks, seen: Event, from: State, to: State, w: World): World {
    if from == to then w
    else
      var w1 := if h.machine then World(env.moved(w.memory, from, seen, to), w.log + [MachineMoved(to)]) else w;
      var w2 := if from in h.exits then World(env.exited(w1.memory, from), w1.log + [Exited(from)]) else w1;
      if to in h.entries then World(env.entered(w2.memory, to), w2.log + [Entered(to)]) else w2
  }

  lemma ChangedFires(env: Env, h: Hooks, seen: Event, from: State, to: State, w: World)
    ensures Changed(env, h, seen, from, to, w).log == w.log + Fire(h, from, to)
  {
  }

  lemma NoChange(env: Env, h: Hooks, seen: Event, s: State)
    ensures forall w :: Changed(env, h, seen, s, s, w) == w
  {
  }

  function ActionResult(m: Machine, env: Env, action: Action, seen: Event, s: State, w: World): (Event, World) {
    match action
    case NoAction => (NoEvent(m), w)
    case Act(id) =>
      var (next, memory) := env.act(w.memory, s, seen, id);
      (next, World(memory, w.log + [Acted(id)]))
  }

  function TransitionResult(env: Env, t: Transition, seen: Event, e: Event, s: State, w: World): (State, World) {
    match t
    case Stay => (s, w)
    case To(to) => (to, w)
    case Call(fn) =>
      var (to, memory) := env.move(w.memory, s, seen, e, fn);
      (to, World(memory, w.log + [Called(fn, e)]))
  }

  /** What one record does in a state: its action, its transition, and the hooks of a change. The called functions
      see one event, and another is passed on. */
  function PerformInfo(m: Machine, env: Env, info: ActionInfo, seen: Event, e: Event, s: State, w: World): Config {
    var (next, w1) := ActionResult(m, env, info.action, seen, s, w);
    var (to, w2) := TransitionResult(env, info.transition, seen, e, s, w1);
    Config(to, next, Changed(env, m.hooks, seen, s, to, w2))
  }

  /** An empty cell does nothing and answers no event. */
  function Perform(m: Machine, env: Env, cell: Option<nat>, seen: Event, e: Event, s: State, w: World): Config
    requires cell.Some? ==> cell.value < |m.infos|
  {
    if cell.None? then Config(s, NoEvent(m), w)
    else PerformInfo(m, env, m.infos[cell.value], seen, e, s, w)
  }

  /** One event handled by the cell of the current state. */
  function React(m: Machine, env: Env, c: Config): Config {
    if c.event >= NoEvent(m) then c
    else Perform(m, env, Cell(m.infos, c.event, c.state), c.event, c.event, c.state, c.world)
  }

  function Run(m: Machine, env: Env, c: Config, n: nat): Config {
    if n == 0 then c else React(m, env, Run(m, env, c, n - 1))
  }

  /** What a step does by the record that names the event and the state: the action by what it sees, then the
      transition, then on a change of state the hooks of the machine, of the state left and of the state entered,
      each with the memory that the one before left. Without a record nothing happens. */
  lemma StepOfRecord(m: Machine, env: Env, c: Config, k: nat)
    requires Clear(ClaimsOf(m.infos)) && c.event < m.numEvents && k < |m.infos|
    requires c.event in m.infos[k].events && c.state in m.infos[k].states
    ensures var e, s, info, log0 := c.event, c.state, m.infos[k], c.world.log;
            var (next, m1, log1) := match info.action
              case NoAction => (m.numEvents, c.world.memory, log0)
              case Act(id) =>
                var r := env.act(c.world.memory, s, e, id);
                (r.0, r.1, log0 + [Acted(id)]);
            var (to, m2, log2) := match info.transition
              case Stay => (s, m1, log1)
              case To(t) => (t, m1, log1)
              case Call(fn) =>
                var r := env.move(m1, s, e, e, fn);
                (r.0, r.1, log1 + [Called(fn, e)]);
            var (m3, log3) := if to == s || !m.hooks.machine then (m2, log2)
                              else (env.moved(m2, s, e, to), log2 + [MachineMoved(to)]);
            var (m4, log4) := if to == s || s !in m.hooks.exits then (m3, log3)
                              else (env.exited(m3, s), log3 + [Exited(s)]);
            var (m5, log5) := if to == s || to !in m.hooks.entries then (m4, log4)
                              else (env.entered(m4, to), log4 + [Entered(to)]);
            React(m, env, c) == Config(to, next, World(m5, log5))
  {
    hide ClaimsOf, Cell;
    InClaims(m.infos, Claim(k, c.event, c.state));
    ClaimOwnsCell(m.infos, Claim(k, c.event, c.state));
  }

  lemma StepWithoutRecord(m: Machine, env: Env, c: Config)
    requires c.event < m.numEvents
    requires forall k :: 0 <= k < |m.infos| ==> c.event !in m.infos[k].events || c.state !in m.infos[k].states
    ensures React(m, env, c) == Config(c.state, m.numEvents, c.world)
  {
    assert Cell(m.infos, c.event, c.state).None?;
  }

  lemma ReactStays(m: Machine, env: Env, c: Config)
    requires WellFormed(m) && Sound(m, env) && c.state < m.numStates && c.event <= NoEvent(m)
    ensures React(m, env, c).state < m.numStates && React(m, env, c).event <= NoEvent(m)
    ensures c.world.log <= React(m, env, c).world.log
  {
    var cell := Cell(m.infos, c.event, c.state);
    if c.event < NoEvent(m) && cell.Some? {
      var info := m.infos[cell.value];
      assert WellFormedInfo(m, info);
      var (_, w1) := ActionResult(m, env, info.action, c.event, c.state, c.world);
      var (to, w2) := TransitionResult(env, info.transition, c.event, c.event, c.state, w1);
      ChangedFires(env, m.hooks, c.event, c.state, to, w2);
    }
  }

  lemma {:induction false} RunStays(m: Machine, env: Env, c: Config, n: nat)
    requires WellFormed(m) && Sound(m, env) && c.state < m.numStates && c.event <= NoEvent(m)
    ensures Run(m, env, c, n).state < m.numStates && Run(m, env, c, n).event <= NoEvent(m)
    ensures c.world.log <= Run(m, env, c, n).world.log
  {
    if n > 0 {
      RunStays(m, env, c, n - 1);
      ReactStays(m, env, Run(m, env, c, n - 1));
    }
  }

  lemma {:induction false} RunMore(m: Machine, env: Env, c: Config, a: nat, b: nat)
    ensures Run(m, env, c, a + b) == Run(m, env, Run(m, env, c, a), b)
    decreases b
  {
    hide React;
    if b > 0 { RunMore(m, env, c, a, b - 1); }
  }

  /** A run without an event left stands still. */
  lemma {:induction false} RunRests(m: Machine, env: Env, c: Config, n: nat)
    requires c.event >= NoEvent(m)
    ensures Run(m, env, c, n) == c
  {
    if n > 0 { RunRests(m, env, c, n - 1); }
  }

  // ----- hooks over whole runs -----

  function HooksIn(log: seq<Entry>): seq<Entry> {
    if log == [] then []
    else
      var x := log[|log| - 1];
      HooksIn(log[..|log| - 1]) + if x.MachineMoved? || x.Exited? || x.Entered? then [x] else []
  }

  lemma {:induction false} HooksInBoth(a: seq<Entry>, b: seq<Entry>)
    ensures HooksIn(a + b) == HooksIn(a) + HooksIn(b)
    decreases |b|
  {
    if b == [] {
      assert a + b == a;
    } else {
      assert (a + b)[..|a + b| - 1] == a + b[..|b| - 1];
      HooksInBoth(a, b[..|b| - 1]);
    }
  }

  /** The hooks along a trail of states, each left for the next. */
  function HooksAlong(h: Hooks, trail: seq<State>): seq<Entry>
    requires trail != []
  {
    if |trail| == 1 then []
    else HooksAlong(h, trail[..|trail| - 1]) + Fire(h, trail[|trail| - 2], trail[|trail| - 1])
  }

  /** A trail never goes from a state to itself. */
  predicate Moves(trail: seq<State>) {
    forall i :: 0 <= i < |trail| - 1 ==> trail[i] != trail[i + 1]
  }

  /** The states a run goes through, without repeating the current one. */
  function Trail(m: Machine, env: Env, c: Config, n: nat): (r: seq<State>)
    ensures r != [] && r[0] == c.state && r[|r| - 1] == Run(m, env, c, n).state
    ensures Moves(r)
  {
    if n == 0 then [c.state]
    else
      var before := Trail(m, env, c, n - 1);
      var s := Run(m, env, c, n).state;
      if s == before[|before| - 1] then before else before + [s]
  }

  lemma FireIsHooks(h: Hooks, from: State, to: State)
    ensures HooksIn(Fire(h, from, to)) == Fire(h, from, to)
  {
    var moved := if h.machine then [MachineMoved(to)] else [];
    var exited := if from in h.exits then [Exited(from)] else [];
    var entered := if to in h.entries then [Entered(to)] else [];
    if from != to {
      HooksInBoth(moved + exited, entered);
      HooksInBoth(moved, exited);
      assert HooksIn(moved) == moved && HooksIn(exited) == exited && HooksIn(entered) == entered by {
        OneHook(MachineMoved(to));
        OneHook(Exited(from));
        OneHook(Entered(to));
      }
    }
  }

  lemma OneHook(x: Entry)
    ensures HooksIn([x]) == (if x.MachineMoved? || x.Exited? || x.Entered? then [x] else []) && HooksIn([]) == []
  {
    assert [x][..0] == [];
  }

  /** Calls of actions and transition functions are not hooks. */
  lemma CallsAreNoHooks(m: Machine, env: Env, action: Action, t: Transition, seen: Event, e: Event, s: State, w: World)
    ensures var (_, w1) := ActionResult(m, env, action, seen, s, w);
            HooksIn(TransitionResult(env, t, seen, e, s, w1).1.log) == HooksIn(w.log)
  {
    hide HooksIn;
    var (_, w1) := ActionResult(m, env, action, seen, s, w);
    if action.Act? {
      HooksInBoth(w.log, [Acted(action.id)]);
      OneHook(Acted(action.id));
      NothingMore(HooksIn(w.log));
    }
    if t.Call? {
      HooksInBoth(w1.log, [Called(t.fn, e)]);
      OneHook(Called(t.fn, e));
      NothingMore(HooksIn(w1.log));
    }
  }

  lemma PerformFires(m: Machine, env: Env, cell: Option<nat>, seen: Event, e: Event, s: State, w: World)
    requires cell.Some? ==> cell.value < |m.infos|
    ensures var c := Perform(m, env, cell, seen, e, s, w);
            HooksIn(c.world.log) == HooksIn(w.log) + Fire(m.hooks, s, c.state)
  {
    hide HooksIn, Fire, Changed;
    NoFire(m.hooks, s, w.log);
    if cell.Some? {
      var info := m.infos[cell.value];
      var (_, w1) := ActionResult(m, env, info.action, seen, s, w);
      var (to, w2) := TransitionResult(env, info.transition, seen, e, s, w1);
      CallsAreNoHooks(m, env, info.action, info.transition, seen, e, s, w);
      ChangedFires(env, m.hooks, seen, s, to, w2);
      HooksInBoth(w2.log, Fire(m.hooks, s, to));
      FireIsHooks(m.hooks, s, to);
    }
  }

  lemma ReactFires(m: Machine, env: Env, c: Config)
    ensures HooksIn(React(m, env, c).world.log) ==
            HooksIn(c.world.log) + Fire(m.hooks, c.state, React(m, env, c).state)
  {
    hide HooksIn, Fire, Perform;
    if c.event < NoEvent(m) {
      PerformFires(m, env, Cell(m.infos, c.event, c.state), c.event, c.event, c.state, c.world);
    } else {
      NoFire(m.hooks, c.state, c.world.log);
    }
  }

  lemma NothingMore(log: seq<Entry>)
    ensures log + [] == log
  {
  }

  lemma NoFire(h: Hooks, s: State, log: seq<Entry>)
    ensures Fire(h, s, s) == [] && HooksIn(log) + [] == HooksIn(log)
  {
  }

  lemma HooksAlongStep(h: Hooks, trail: seq<State>, s: State)
    requires trail != []
    ensures HooksAlong(h, trail + [s]) == HooksAlong(h, trail) + Fire(h, trail[|trail| - 1], s)
  {
    assert (trail + [s])[..|trail|] == trail;
  }

  lemma HooksMoveOn(h: Hooks, start: seq<Entry>, trail: seq<State>, s: State)
    requires trail != []
    ensures start + HooksAlong(h, trail) + Fire(h, trail[|trail| - 1], s) ==
            start + HooksAlong(h, if s == trail[|trail| - 1] then trail else trail + [s])
  {
    hide HooksAlong;
    if s == trail[|trail| - 1] {
      NothingMore(start + HooksAlong(h, trail));
    } else {
      hide Fire;
      HooksAlongStep(h, trail, s);
      Associative(start, HooksAlong(h, trail), Fire(h, trail[|trail| - 1], s));
    }
  }

  /** Over every run, the hooks called are those of the trail: one chain from the first state to the last. */
  lemma {:induction false} HooksFollowTrail(m: Machine, env: Env, c: Config, n: nat)
    ensures HooksIn(Run(m, env, c, n).world.log) == HooksIn(c.world.log) + HooksAlong(m.hooks, Trail(m, env, c, n))
  {
    hide HooksIn, Fire, React;
    if n == 0 {
      NothingMore(HooksIn(c.world.log));
    } else {
      hide HooksAlong;
      HooksFollowTrail(m, env, c, n - 1);
      ReactFires(m, env, Run(m, env, c, n - 1));
      HooksMoveOn(m.hooks, HooksIn(c.world.log), Trail(m, env, c, n - 1), Run(m, env, c, n).state);
    }
  }

  // ----- machines fed one event after another -----

  /** From each external event the machine runs a number of steps; in between it rests. */
  datatype Feed = Feed(event: Event, steps: nat)

  function Session(m: Machine, env: Env, s: State, w: World, feeds: seq<Feed>): Config {
    if feeds == [] then Config(s, NoEvent(m), w)
    else
      var before := Session(m, env, s, w, feeds[..|feeds| - 1]);
      var f := feeds[|feeds| - 1];
      Run(m, env, before.(event := f.event), f.steps)
  }

  function SessionTrail(m: Machine, env: Env, s: State, w: World, feeds: seq<Feed>): (r: seq<State>)
    ensures r != [] && r[0] == s && r[|r| - 1] == Session(m, env, s, w, feeds).state
    ensures Moves(r)
  {
    if feeds == [] then [s]
    else
      var front := feeds[..|feeds| - 1];
      var f := feeds[|feeds| - 1];
      SessionTrail(m, env, s, w, front) +
      Trail(m, env, Session(m, env, s, w, front).(event := f.event), f.steps)[1..]
  }

  lemma {:induction false} HooksAlongBoth(h: Hooks, a: seq<State>, b: seq<State>)
    requires a != [] && b != [] && a[|a| - 1] == b[0]
    ensures HooksAlong(h, a + b[1..]) == HooksAlong(h, a) + HooksAlong(h, b)
    decreases |b|
  {
    hide Fire;
    if |b| == 1 {
      assert a + b[1..] == a;
      NothingMore(HooksAlong(h, a));
    } else {
      hide HooksAlong;
      var front, last := b[..|b| - 1], b[|b| - 1];
      HooksAlongBoth(h, a, front);
      LastMoves(a, b);
      HooksAlongStep(h, a + front[1..], last);
      HooksAlongStep(h, front, last);
      Associative(HooksAlong(h, a), HooksAlong(h, front), Fire(h, front[|front| - 1], last));
    }
  }

  lemma LastMoves(a: seq<State>, b: seq<State>)
    requires a != [] && |b| > 1 && a[|a| - 1] == b[0]
    ensures var front, last := b[..|b| - 1], b[|b| - 1];
            && b == front + [last]
            && a + b[1..] == a + front[1..] + [last]
            && (a + front[1..])[|a + front[1..]| - 1] == front[|front| - 1]
  {
    var front := b[..|b| - 1];
    if |front| == 1 { assert a + front[1..] == a; }
  }

  /** The same over every session: each exit leaves the state that was entered last. */
  lemma {:induction false} HooksFollowSession(m: Machine, env: Env, s: State, w: World, feeds: seq<Feed>)
    ensures HooksIn(Session(m, env, s, w, feeds).world.log) ==
            HooksIn(w.log) + HooksAlong(m.hooks, SessionTrail(m, env, s, w, feeds))
    decreases |feeds|
  {
    if feeds == [] {
    } else {
      hide HooksIn, HooksAlong, Run, Trail;
      var front := feeds[..|feeds| - 1];
      var f := feeds[|feeds| - 1];
      HooksFollowSession(m, env, s, w, front);
      var c := Session(m, env, s, w, front).(event := f.event);
      HooksFollowTrail(m, env, c, f.steps);
      var a, b := SessionTrail(m, env, s, w, front), Trail(m, env, c, f.steps);
      HooksAlongBoth(m.hooks, a, b);
      Associative(HooksIn(w.log), HooksAlong(m.hooks, a), HooksAlong(m.hooks, b));
    }
  }

  /** The machine has the hook. */
  predicate Has(h: Hooks, x: Entry) {
    match x
    case MachineMoved(_) => h.machine
    case Exited(s) => s in h.exits
    case Entered(s) => s in h.entries
    case _ => false
  }

  function Only(h: Hooks, log: seq<Entry>): seq<Entry> {
    if log == [] then []
    else Only(h, log[..|log| - 1]) + if Has(h, log[|log| - 1]) then [log[|log| - 1]] else []
  }

  lemma {:induction false} OnlyBoth(h: Hooks, a: seq<Entry>, b: seq<Entry>)
    ensures Only(h, a + b) == Only(h, a) + Only(h, b)
    decreases |b|
  {
    if b == [] {
      assert a + b == a;
    } else {
      assert (a + b)[..|a + b| - 1] == a + b[..|b| - 1];
      OnlyBoth(h, a, b[..|b| - 1]);
    }
  }

  lemma OnlyOne(h: Hooks, x: Entry)
    ensures Only(h, [x]) == (if Has(h, x) then [x] else []) && Only(h, []) == []
  {
    assert [x][..0] == [];
  }

  lemma FireOnly(h: Hooks, all: Hooks, from: State, to: State)
    requires all.machine && from in all.exits && to in all.entries
    ensures Fire(h, from, to) == Only(h, Fire(all, from, to))
  {
    hide Only;
    var x, y, z := MachineMoved(to), Exited(from), Entered(to);
    OnlyOne(h, x);
    OnlyOne(h, y);
    OnlyOne(h, z);
    OnlyBoth(h, [x], [y]);
    OnlyBoth(h, [x] + [y], [z]);
  }

  /** A machine calls the hooks that it has, of those that a machine with all hooks would call. */
  lemma {:induction false} OnlyOwnHooks(h: Hooks, all: Hooks, trail: seq<State>)
    requires trail != [] && all.machine
    requires forall k :: 0 <= k < |trail| ==> trail[k] in all.exits && trail[k] in all.entries
    ensures HooksAlong(h, trail) == Only(h, HooksAlong(all, trail))
    decreases |trail|
  {
    hide Only, Fire;
    var n := |trail| - 1;
    if n == 0 {
      OnlyOne(h, Entered(0));
    } else {
      OnlyOwnHooks(h, all, trail[..n]);
      FireOnly(h, all, trail[n - 1], trail[n]);
      OnlyBoth(h, HooksAlong(all, trail[..n]), Fire(all, trail[n - 1], trail[n]));
    }
  }

  /** With every hook in place the calls name the trail: state `i` is left at `3 * i + 1` for the one entered next. */
  lemma {:induction false} AllHooksNameTrail(h: Hooks, trail: seq<State>, i: nat)
    requires Moves(trail) && i < |trail| - 1 && h.machine
    requires forall k :: 0 <= k < |trail| ==> trail[k] in h.exits && trail[k] in h.entries
    ensures var hooks := HooksAlong(h, trail);
            && |hooks| == 3 * (|trail| - 1)
            && hooks[3 * i] == MachineMoved(trail[i + 1])
            && hooks[3 * i + 1] == Exited(trail[i])
            && hooks[3 * i + 2] == Entered(trail[i + 1])
    decreases |trail|
  {
    var n := |trail| - 1;
    assert Fire(h, trail[n - 1], trail[n]) == [MachineMoved(trail[n]), Exited(trail[n - 1]), Entered(trail[n])];
    var front := trail[..n];
    if n == 1 {
      assert HooksAlong(h, front) == [];
    } else {
      AllHooksNameTrail(h, front, if i < n - 1 then i else 0);
    }
  }
}
