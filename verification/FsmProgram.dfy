/** Generated code: switch statements with fall-through, and the object they run on. */
module FsmProgram {
  import opened Wrappers
  import opened FsmMatrix
  import opened FsmRun

  /** A line of a switch: a case label, or a body that ends in a break. */
  datatype Item<T> = Case(key: T) | Body(action: Action, transition: Transition)

  /** The first body from line `i` on: labels without a body of their own fall through. */
  function BodyFrom<T>(items: seq<Item<T>>, i: nat): Option<Item<T>>
    requires i <= |items|
    decreases |items| - i
  {
    if i == |items| then None else if items[i].Body? then Some(items[i]) else BodyFrom(items, i + 1)
  }

  /** Where control enters: behind the label, or behind the last line when no label matches. */
  function Enter<T(==)>(items: seq<Item<T>>, key: T, i: nat): (r: nat)
    requires i <= |items|
    ensures i <= r <= |items|
    decreases |items| - i
  {
    if i == |items| then i else if items[i] == Case(key) then i else Enter(items, key, i + 1)
  }

  function Selected<T(==)>(items: seq<Item<T>>, key: T): (r: Option<Item<T>>)
    ensures r.Some? ==> r.value.Body?
  {
    EnteredBody(items, Enter(items, key, 0));
    BodyFrom(items, Enter(items, key, 0))
  }

  lemma {:induction false} EnteredBody<T>(items: seq<Item<T>>, i: nat)
    requires i <= |items|
    ensures BodyFrom(items, i).Some? ==> BodyFrom(items, i).value.Body?
    decreases |items| - i
  {
    if i < |items| { EnteredBody(items, i + 1); }
  }

  lemma {:induction false} EnterFinds<T>(items: seq<Item<T>>, key: T, i: nat)
    requires i <= |items|
    ensures var j := Enter(items, key, i);
            && (j < |items| ==> items[j] == Case(key))
            && (forall k :: i <= k < j ==> items[k] != Case(key))
    decreases |items| - i
  {
    if i < |items| && items[i] != Case(key) { EnterFinds(items, key, i + 1); }
  }

  /** No label is printed twice: a switch with a repeated label does not compile. */
  predicate DistinctLabels<T(==)>(items: seq<Item<T>>) {
    forall i, j :: 0 <= i < j < |items| && items[i].Case? && items[j].Case? ==> items[i].key != items[j].key
  }

  // ----- printing cases that share a body -----

  /** An element of a list that a generator walks: its label, the record that owns its cell, and whether the
      generator prints it at all. */
  datatype Line<T> = Line(key: T, owner: nat, shown: bool)

  /** A label is printed for each line, and a body where the next line has another owner. */
  function Piece<T>(infos: seq<ActionInfo>, lines: seq<Line<T>>, i: nat): seq<Item<T>>
    requires i < |lines| && lines[i].owner < |infos|
  {
    if !lines[i].shown then []
    else
      [Case(lines[i].key)] +
      if i + 1 == |lines| || lines[i].owner != lines[i + 1].owner
      then [BodyOf(infos[lines[i].owner])] else []
  }

  function BodyOf<T>(info: ActionInfo): Item<T> {
    Body(info.action, info.transition)
  }

  function CasesFrom<T>(infos: seq<ActionInfo>, lines: seq<Line<T>>, i: nat): seq<Item<T>>
    requires i <= |lines| && Owned(infos, lines)
    decreases |lines| - i
  {
    if i == |lines| then [] else Piece(infos, lines, i) + CasesFrom(infos, lines, i + 1)
  }

  predicate Owned<T>(infos: seq<ActionInfo>, lines: seq<Line<T>>) {
    forall i :: 0 <= i < |lines| ==> lines[i].owner < |infos|
  }

  /** A line that is printed and shares its owner with the next is not the last one printed. */
  predicate Tied<T>(lines: seq<Line<T>>) {
    forall i :: 0 <= i < |lines| - 1 && lines[i].shown && lines[i].owner == lines[i + 1].owner ==> lines[i + 1].shown
  }

  /** The owner depends on the label alone. */
  predicate Agree<T(==)>(lines: seq<Line<T>>) {
    forall i, j :: 0 <= i < |lines| && 0 <= j < |lines| && lines[i].key == lines[j].key ==> lines[i] == lines[j]
  }

  lemma {:induction false} EnterShift<T>(a: seq<Item<T>>, b: seq<Item<T>>, key: T, i: nat)
    requires i <= |a| && forall k :: i <= k < |a| ==> a[k] != Case(key)
    ensures Enter(a + b, key, i) == |a| + Enter(b, key, 0)
    decreases |a| - i
  {
    if i == |a| {
      EnterAfter(a, b, key, 0);
    } else {
      EnterShift(a, b, key, i + 1);
    }
  }

  lemma {:induction false} EnterAfter<T>(a: seq<Item<T>>, b: seq<Item<T>>, key: T, j: nat)
    requires j <= |b|
    ensures Enter(a + b, key, |a| + j) == |a| + Enter(b, key, j)
    decreases |b| - j
  {
    if j < |b| && b[j] != Case(key) { EnterAfter(a, b, key, j + 1); }
  }

  lemma {:induction false} BodyAfter<T>(a: seq<Item<T>>, b: seq<Item<T>>, j: nat)
    requires j <= |b|
    ensures BodyFrom(a + b, |a| + j) == BodyFrom(b, j)
    decreases |b| - j
  {
    if j < |b| && !b[j].Body? { BodyAfter(a, b, j + 1); }
  }

  /** From a printed label control falls to the body of its own owner. */
  lemma {:induction false} FallsToOwner<T>(infos: seq<ActionInfo>, lines: seq<Line<T>>, i: nat)
    requires i < |lines| && Owned(infos, lines) && Tied(lines) && lines[i].shown
    ensures BodyFrom(CasesFrom(infos, lines, i), 0) == Some(BodyOf(infos[lines[i].owner]))
    decreases |lines| - i
  {
    var piece, rest := Piece(infos, lines, i), CasesFrom(infos, lines, i + 1);
    if |piece| == 1 {
      FallsToOwner(infos, lines, i + 1);
      BodyAfter(piece, rest, 0);
    }
  }

  /** One line on: a label that this line does not print is looked up in the rest. */
  lemma SelectsLater<T>(infos: seq<ActionInfo>, lines: seq<Line<T>>, i: nat, key: T)
    requires i < |lines| && Owned(infos, lines)
    requires !lines[i].shown || lines[i].key != key
    ensures Selected(CasesFrom(infos, lines, i), key) == Selected(CasesFrom(infos, lines, i + 1), key)
  {
    var piece, rest := Piece(infos, lines, i), CasesFrom(infos, lines, i + 1);
    EnterShift(piece, rest, key, 0);
    BodyAfter(piece, rest, Enter(rest, key, 0));
  }

  /** Every printed label selects the body of its own owner. */
  lemma {:induction false} SelectsOwner<T>(infos: seq<ActionInfo>, lines: seq<Line<T>>, i: nat, k: nat)
    requires i <= k < |lines| && Owned(infos, lines) && Tied(lines) && Agree(lines) && lines[k].shown
    ensures Selected(CasesFrom(infos, lines, i), lines[k].key) == Some(BodyOf(infos[lines[k].owner]))
    decreases |lines| - i
  {
    if lines[i].shown && lines[i].key == lines[k].key {
      FallsToOwner(infos, lines, i);
      assert lines[i] == lines[k];
      assert CasesFrom(infos, lines, i)[0] == Case(lines[k].key);
    } else {
      SelectsLater(infos, lines, i, lines[k].key);
      SelectsOwner(infos, lines, i + 1, k);
    }
  }

  /** A label that no line prints selects nothing. */
  lemma {:induction false} SelectsNothing<T>(infos: seq<ActionInfo>, lines: seq<Line<T>>, i: nat, key: T)
    requires i <= |lines| && Owned(infos, lines)
    requires forall k :: i <= k < |lines| ==> lines[k].key != key || !lines[k].shown
    ensures Selected(CasesFrom(infos, lines, i), key).None?
    decreases |lines| - i
  {
    if i < |lines| {
      SelectsLater(infos, lines, i, key);
      SelectsNothing(infos, lines, i + 1, key);
    }
  }

  lemma EndsWithLines<T>(infos: seq<ActionInfo>, lines: seq<Line<T>>, i: nat)
    requires i <= |lines| && Owned(infos, lines) && CasesFrom(infos, lines, i) != []
    ensures i < |lines| && lines[i].owner < |infos|
  {
  }

  /** Every label that is printed is the label of a line that is shown. */
  lemma {:induction false} LabelsAreLines<T>(infos: seq<ActionInfo>, lines: seq<Line<T>>, i: nat, j: nat)
    returns (k: nat)
    requires i <= |lines| && Owned(infos, lines)
    requires j < |CasesFrom(infos, lines, i)| && CasesFrom(infos, lines, i)[j].Case?
    ensures i <= k < |lines| && lines[k].key == CasesFrom(infos, lines, i)[j].key
    decreases |lines| - i
  {
    hide CasesFrom;
    EndsWithLines(infos, lines, i);
    CasesUnfold(infos, lines, i);
    var piece := Piece(infos, lines, i);
    if j < |piece| {
      k := i;
    } else {
      hide *;
      k := LabelsAreLines(infos, lines, i + 1, j - |piece|);
    }
  }

  lemma DistinctJoin<T>(a: seq<Item<T>>, b: seq<Item<T>>)
    requires DistinctLabels(b) && (|a| > 1 ==> forall i :: 1 <= i < |a| ==> a[i].Body?)
    requires a != [] && a[0].Case? ==> forall j :: 0 <= j < |b| && b[j].Case? ==> b[j].key != a[0].key
    ensures DistinctLabels(a + b)
  {
    var all := a + b;
    forall i, j | 0 <= i < j < |all| && all[i].Case? && all[j].Case?
      ensures all[i].key != all[j].key
    {
      assert j >= |a| && all[j] == b[j - |a|];
      if i >= |a| { assert all[i] == b[i - |a|]; }
    }
  }

  lemma OwnedAt<T>(infos: seq<ActionInfo>, lines: seq<Line<T>>, i: nat)
    requires i < |lines| && Owned(infos, lines)
    ensures lines[i].owner < |infos|
  {
  }

  lemma CasesUnfold<T>(infos: seq<ActionInfo>, lines: seq<Line<T>>, i: nat)
    requires i < |lines| && Owned(infos, lines)
    ensures CasesFrom(infos, lines, i) == Piece(infos, lines, i) + CasesFrom(infos, lines, i + 1)
  {
  }

  lemma NoCases<T>(infos: seq<ActionInfo>, lines: seq<Line<T>>)
    requires Owned(infos, lines)
    ensures CasesFrom(infos, lines, |lines|) == []
  {
  }

  /** Lines with distinct labels print no label twice. */
  lemma {:induction false} CasesAreDistinct<T>(infos: seq<ActionInfo>, lines: seq<Line<T>>, i: nat)
    requires i <= |lines| && Owned(infos, lines)
    requires forall j, k :: 0 <= j < k < |lines| ==> lines[j].key != lines[k].key
    ensures DistinctLabels(CasesFrom(infos, lines, i))
    decreases |lines| - i
  {
    if i == |lines| {
    } else {
      hide CasesFrom, DistinctLabels, Owned;
      CasesAreDistinct(infos, lines, i + 1);
      assert lines[i].owner < |infos| by { OwnedAt(infos, lines, i); }
      CasesUnfold(infos, lines, i);
      var piece, rest := Piece(infos, lines, i), CasesFrom(infos, lines, i + 1);
      forall j | 0 <= j < |rest| && rest[j].Case?
        ensures rest[j].key != lines[i].key
      {
        var k := LabelsAreLines(infos, lines, i + 1, j);
      }
      DistinctJoin(piece, rest);
    }
  }

  /** The object that generated code runs on. */
  class Fsm {
    const m: Machine
    const env: Env
    var state: State
    /** The event it says it is handling. */
    var event: Event
    /** The memory of the called functions, and the calls made. */
    var world: World

    constructor (m: Machine, env: Env, memory: Memory)
      ensures this.m == m && this.env == env && state == 0 && event == NoEvent(m) && world == World(memory, [])
    {
      this.m, this.env := m, env;
      state, event, world := 0, m.numEvents, World(memory, []);
    }

    function At(e: Event): Config
      reads this
    {
      Config(state, e, world)
    }

    method RunAction(action: Action) returns (next: Event)
      modifies this`world
      ensures (next, world) == ActionResult(m, env, action, event, state, old(world))
    {
      match action
      case NoAction =>
        next := NoEvent(m);
      case Act(id) =>
        var (answer, memory) := env.act(world.memory, state, event, id);
        next, world := answer, World(memory, world.log + [Acted(id)]);
    }

    method RunTransition(t: Transition, e: Event) returns (to: State)
      modifies this`world
      ensures (to, world) == TransitionResult(env, t, event, e, state, old(world))
    {
      match t
      case Stay =>
        to := state;
      case To(s) =>
        to := s;
      case Call(fn) =>
        var (answer, memory) := env.move(world.memory, state, event, e, fn);
        to, world := answer, World(memory, world.log + [Called(fn, e)]);
    }

    method RunMachineHook(to: State)
      modifies this`world
      ensures world == World(env.moved(old(world.memory), state, event, to), old(world.log) + [MachineMoved(to)])
    {
      world := World(env.moved(world.memory, state, event, to), world.log + [MachineMoved(to)]);
    }

    method RunExitFunction()
      modifies this`world
      ensures world == World(env.exited(old(world.memory), state), old(world.log) + [Exited(state)])
    {
      world := World(env.exited(world.memory, state), world.log + [Exited(state)]);
    }

    method RunEntryFunction(to: State)
      modifies this`world
      ensures world == World(env.entered(old(world.memory), to), old(world.log) + [Entered(to)])
    {
      world := World(env.entered(world.memory, to), world.log + [Entered(to)]);
    }

    /** The calls made on a change of state, before the state is replaced. */
    method RunHooks(to: State)
      modifies this`world
      ensures world == Changed(env, m.hooks, event, state, to, old(world))
      ensures world.log == old(world.log) + Fire(m.hooks, state, to)
    {
      ChangedFires(env, m.hooks, event, state, to, world);
      if ExecutesOnTransition(m.hooks) && state != to {
        if m.hooks.machine {
          RunMachineHook(to);
        }
        if state in m.hooks.exits {
          RunExitFunction();
        }
        if to in m.hooks.entries {
          RunEntryFunction(to);
        }
      }
    }
  }

  lemma NoHooksNoChange(env: Env, h: Hooks, seen: Event, from: State, to: State, w: World)
    requires !ExecutesOnTransition(h)
    ensures Changed(env, h, seen, from, to, w) == w
  {
  }

  /** The transition of a body: into a local variable when hooks have to run, else into the state itself. */
  method TakeTransition(fsm: Fsm, t: Transition, e: Event, from: State) returns (s: State)
    requires from == fsm.state
    modifies fsm`world, fsm`state
    ensures (s, fsm.world) == TransitionResult(fsm.env, t, fsm.event, e, from, old(fsm.world))
    ensures fsm.state == if ExecutesOnTransition(fsm.m.hooks) then from else s
  {
    s := from;
    if t != Stay {
      var to := fsm.RunTransition(t, e);
      if !ExecutesOnTransition(fsm.m.hooks) {
        fsm.state := to;
      }
      s := to;
    }
  }
}
