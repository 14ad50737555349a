/** Running a tree of machines: calls into sub-machines, events handed back, and the cells looked up. */
module FsmNested {
  import opened Wrappers
  import opened FsmTree

  /** A machine at work: where it is in the tree, and its loop variable. */
  datatype Frame = Frame(path: Path, event: nat)

  /** A call of an action. */
  datatype Call = Call(machine: Path, action: nat)

  /** The calls in progress, the outermost first, the state of every machine, the actions called so far, and whether
      a cell outside its table was looked up. */
  datatype Config = Config(stack: seq<Frame>, states: map<Path, nat>, calls: seq<Call>, outside: bool)

  datatype Cell = Cell(action: nat, transition: nat)

  /** A table of cells by event and state for every machine, what an action answers, and where a transition goes: for
      any machine and at any time. */
  datatype Env = Env(tables: map<Path, seq<seq<Cell>>>, act: (nat, Path, nat) -> nat, move: (nat, Path, nat) -> nat)

  /** Every machine of the tree has a table with a row for each of its events and a column for each of its states. */
  ghost predicate Fitted(t: Tree, env: Env) {
    forall p :: TreePath(t, p) ==>
      && p in env.tables && |env.tables[p]| == TreeAt(t, p).events
      && forall i :: 0 <= i < |env.tables[p]| ==> |env.tables[p][i]| == TreeAt(t, p).states
  }

  /** The same by the machines' numbers. */
  ghost predicate HasTables(root: Numbered, env: Env) {
    forall p :: ValidPath(root, p) ==>
      && p in env.tables && |env.tables[p]| == At(root, p).noEvent - At(root, p).first
      && forall i :: 0 <= i < |env.tables[p]| ==> |env.tables[p][i]| == At(root, p).states
  }

  /** The number belongs to the machine itself: one of its events, or its noEvent. */
  predicate Own(n: Numbered, e: nat) {
    n.first <= e <= n.noEvent
  }

  /** The number comes after the machine's own, where the events of its sub-machines are. */
  predicate Below(n: Numbered, e: nat) {
    n.kids != [] && n.noEvent < e
  }

  /** What a machine may be handling: its own numbers, numbers below it, or numbers of its parent. */
  predicate MayHandle(root: Numbered, p: Path, e: nat)
    requires ValidPath(root, p)
  {
    var n := At(root, p);
    Own(n, e) || Below(n, e) || (p != [] && ValidPath(root, Parent(p)) && Own(At(root, Parent(p)), e))
  }

  function Parent(p: Path): Path
    requires p != []
  {
    p[..|p| - 1]
  }

  /** Actions answer events of their own machine, of its sub-machines or of its parent, and states of their own. */
  ghost predicate Honours(root: Numbered, env: Env) {
    forall time, p, x :: ValidPath(root, p) ==>
      MayHandle(root, p, env.act(time, p, x)) && env.move(time, p, x) < At(root, p).states
  }

  /** The loop of the machine on top goes on. */
  predicate GoesOn(root: Numbered, f: Frame)
    requires ValidPath(root, f.path)
  {
    var n := At(root, f.path);
    f.event != n.noEvent && (f.path == [] || f.event >= n.first)
  }

  /** The machine handles the event itself; one without sub-machines does not ask. */
  predicate HandlesItself(root: Numbered, f: Frame)
    requires ValidPath(root, f.path)
  {
    var n := At(root, f.path);
    n.kids == [] || f.event < n.noEvent
  }

  /** What a machine answers to its caller. */
  function Answer(root: Numbered, p: Path, e: nat): nat
    requires ValidPath(root, p) && p != [] && ValidPath(root, Parent(p))
  {
    if e == At(root, p).noEvent then At(root, Parent(p)).noEvent else e
  }

  /** Calls the action of a cell, and goes where its transition goes. */
  function Perform(env: Env, c: Config, top: nat, f: Frame, cell: Cell): Config
    requires top < |c.stack|
  {
    var time := |c.calls|;
    c.(stack := c.stack[..top] + [f.(event := env.act(time, f.path, cell.action))],
       states := c.states[f.path := env.move(time, f.path, cell.transition)],
       calls := c.calls + [Call(f.path, cell.action)])
  }

  /** One step: the machine on top looks up a cell, calls a sub-machine, or answers. */
  function Step(root: Numbered, env: Env, c: Config): Config {
    if c.stack == [] || c.outside then c
    else
      var top := |c.stack| - 1;
      var f := c.stack[top];
      if !ValidPath(root, f.path) then c
      else
        var n := At(root, f.path);
        if !GoesOn(root, f) then
          if top == 0 || f.path == [] || !ValidPath(root, Parent(f.path)) then c.(stack := c.stack[..top])
          else
            var caller := c.stack[top - 1];
            c.(stack := c.stack[..top - 1] + [caller.(event := Answer(root, f.path, f.event))])
        else if HandlesItself(root, f) then
          var i := f.event - n.first;
          if f.path !in env.tables || f.path !in c.states || !(0 <= i < |env.tables[f.path]|) ||
             c.states[f.path] >= |env.tables[f.path][i]|
          then c.(outside := true)
          else Perform(env, c, top, f, env.tables[f.path][i][c.states[f.path]])
        else
          match Find(n.kids, f.event)
          case None => c.(stack := c.stack[..top] + [f.(event := n.noEvent)])
          case Some(i) => c.(stack := c.stack + [Frame(f.path + [i], f.event)])
  }

  function Run(root: Numbered, env: Env, c: Config, n: nat): Config {
    if n == 0 then c else Step(root, env, Run(root, env, c, n - 1))
  }

  /** Calls in progress go down the tree one machine at a time, each in hand of a number it may handle. */
  predicate GoodStack(root: Numbered, stack: seq<Frame>) {
    && (forall i :: 0 <= i < |stack| ==> |stack[i].path| == i && ValidPath(root, stack[i].path))
    && (forall i :: 0 < i < |stack| ==> Parent(stack[i].path) == stack[i - 1].path)
    && (forall i :: 0 <= i < |stack| ==> MayHandle(root, stack[i].path, stack[i].event))
  }

  predicate GoodStates(root: Numbered, states: map<Path, nat>) {
    forall p :: p in states ==> ValidPath(root, p) && states[p] < At(root, p).states
  }

  ghost predicate AllStates(root: Numbered, states: map<Path, nat>) {
    GoodStates(root, states) && forall p :: ValidPath(root, p) ==> p in states
  }

  ghost predicate Good(root: Numbered, c: Config) {
    GoodStack(root, c.stack) && AllStates(root, c.states) && !c.outside
  }

  // ----- facts about numbers -----

  lemma LaidAt(root: Numbered, p: Path)
    requires LaidRoot(root) && ValidPath(root, p)
    ensures var n := At(root, p);
            && n.first < n.noEvent && n.states > 0
            && (forall i :: 0 <= i < |n.kids| ==> Laid(n.kids[i]) && n.noEvent < n.kids[i].first)
            && (p != [] ==> Laid(n))
            && (p == [] ==> n.first == 0)
  {
    if p == [] {
      forall i | 0 <= i < |root.kids|
        ensures root.noEvent < root.kids[i].first
      {
        LaidRootKids(root, i);
        LastReaches(root.kids, i);
      }
    } else {
      LaidBelow(root.kids[p[0]], p[1..]);
    }
  }

  lemma {:induction false} LaidBelow(n: Numbered, p: Path)
    requires Laid(n) && ValidPath(n, p)
    ensures var v := At(n, p);
            && Laid(v)
            && (forall i :: 0 <= i < |v.kids| ==> Laid(v.kids[i]) && v.noEvent < v.kids[i].first)
    decreases |p|
  {
    if p == [] {
      forall i | 0 <= i < |n.kids|
        ensures n.noEvent < n.kids[i].first
      {
        LaidKids(n, i);
        LastReaches(n.kids, i);
      }
    } else {
      LaidBelow(n.kids[p[0]], p[1..]);
    }
  }

  lemma {:induction false} ParentAt(root: Numbered, p: Path)
    requires ValidPath(root, p) && p != []
    ensures ValidPath(root, Parent(p)) && p[|p| - 1] < |At(root, Parent(p)).kids|
    ensures At(root, p) == At(root, Parent(p)).kids[p[|p| - 1]]
    decreases |p|
  {
    if |p| == 1 {
      assert Parent(p) == [] && p[1..] == [];
      assert At(root.kids[p[0]], p[1..]) == root.kids[p[0]];
    } else {
      ParentAt(root.kids[p[0]], p[1..]);
      assert Parent(p)[1..] == Parent(p[1..]) && Parent(p)[0] == p[0];
    }
  }

  lemma {:induction false} ChildAt(root: Numbered, p: Path, i: nat)
    requires ValidPath(root, p) && i < |At(root, p).kids|
    ensures ValidPath(root, p + [i]) && At(root, p + [i]) == At(root, p).kids[i] && Parent(p + [i]) == p
    decreases |p|
  {
    AtKid(At(root, p), i);
    ValidBoth(root, p, [i]);
  }

  // ----- one step -----

  /** The machine on top may handle its number. */
  lemma LooksUpWithinBounds(root: Numbered, f: Frame)
    requires LaidRoot(root) && ValidPath(root, f.path) && MayHandle(root, f.path, f.event)
    requires GoesOn(root, f) && HandlesItself(root, f)
    ensures At(root, f.path).first <= f.event < At(root, f.path).noEvent
  {
    LaidAt(root, f.path);
    if f.path != [] {
      ParentAt(root, f.path);
      LaidAt(root, Parent(f.path));
    }
  }

  /** A sub-machine answers an event of its parent, or its parent's noEvent. */
  lemma AnswersParent(root: Numbered, f: Frame)
    requires LaidRoot(root) && ValidPath(root, f.path) && f.path != [] && MayHandle(root, f.path, f.event)
    requires !GoesOn(root, f)
    ensures ValidPath(root, Parent(f.path)) && Own(At(root, Parent(f.path)), Answer(root, f.path, f.event))
  {
    LaidAt(root, f.path);
    ParentAt(root, f.path);
    LaidAt(root, Parent(f.path));
  }

  /** A sub-machine is called with a number that it may handle. */
  lemma CallsWithOwn(root: Numbered, p: Path, e: nat, i: nat)
    requires LaidRoot(root) && ValidPath(root, p) && Find(At(root, p).kids, e) == Some(i)
    ensures ValidPath(root, p + [i]) && MayHandle(root, p + [i], e) && Parent(p + [i]) == p
  {
    ChildAt(root, p, i);
    LaidAt(root, p);
    LaidAt(root, p + [i]);
  }

  lemma GoodPush(root: Numbered, stack: seq<Frame>, f: Frame)
    requires GoodStack(root, stack) && stack != []
    requires |f.path| == |stack| && ValidPath(root, f.path) && Parent(f.path) == stack[|stack| - 1].path
    requires MayHandle(root, f.path, f.event)
    ensures GoodStack(root, stack + [f])
  {
    hide MayHandle, ValidPath;
  }

  lemma GoodPop(root: Numbered, stack: seq<Frame>, k: nat)
    requires GoodStack(root, stack) && k <= |stack|
    ensures GoodStack(root, stack[..k])
  {
    hide MayHandle, ValidPath;
  }

  lemma GoodReplace(root: Numbered, stack: seq<Frame>, e: nat)
    requires GoodStack(root, stack) && stack != [] && MayHandle(root, stack[|stack| - 1].path, e)
    ensures GoodStack(root, stack[..|stack| - 1] + [stack[|stack| - 1].(event := e)])
  {
    hide MayHandle, ValidPath;
  }

  /** The cell looked up lies in the table of its machine. */
  lemma InsideTable(root: Numbered, env: Env, f: Frame, states: map<Path, nat>)
    requires LaidRoot(root) && HasTables(root, env) && AllStates(root, states)
    requires ValidPath(root, f.path) && MayHandle(root, f.path, f.event)
    requires GoesOn(root, f) && HandlesItself(root, f)
    ensures f.path in env.tables && f.path in states
    ensures 0 <= f.event - At(root, f.path).first < |env.tables[f.path]|
    ensures states[f.path] < |env.tables[f.path][f.event - At(root, f.path).first]|
  {
    hide At, ValidPath, LaidRoot, MayHandle;
    LooksUpWithinBounds(root, f);
  }

  /** Every step keeps the configuration good. */
  lemma StepKeepsGood(root: Numbered, env: Env, c: Config)
    requires LaidRoot(root) && HasTables(root, env) && Honours(root, env) && Good(root, c)
    ensures Good(root, Step(root, env, c))
  {
    hide At, ValidPath, LaidRoot, Find, HasTables;
    if c.stack != [] {
      var top := |c.stack| - 1;
      var f := c.stack[top];
      if !GoesOn(root, f) {
        if top > 0 {
          AnswersParent(root, f);
          GoodPop(root, c.stack, top);
          assert c.stack[..top][..top - 1] == c.stack[..top - 1];
          GoodReplace(root, c.stack[..top], Answer(root, f.path, f.event));
        } else {
          GoodPop(root, c.stack, top);
        }
      } else if HandlesItself(root, f) {
        InsideTable(root, env, f, c.states);
        var cell := env.tables[f.path][f.event - At(root, f.path).first][c.states[f.path]];
        GoodReplace(root, c.stack, env.act(|c.calls|, f.path, cell.action));
      } else {
        var r := Find(At(root, f.path).kids, f.event);
        if r.None? {
          LaidAt(root, f.path);
          GoodReplace(root, c.stack, At(root, f.path).noEvent);
        } else {
          CallsWithOwn(root, f.path, f.event, r.value);
          GoodPush(root, c.stack, Frame(f.path + [r.value], f.event));
        }
      }
    }
  }

  // ----- whole runs -----

  /** An event arrives at the top level: any number there is, or, without sub-machines, one of its own. */
  ghost predicate Starts(root: Numbered, c: Config) {
    && |c.stack| == 1 && c.stack[0].path == [] && MayHandle(root, [], c.stack[0].event)
    && AllStates(root, c.states) && !c.outside
  }

  lemma TablesFit(t: Tree, env: Env)
    requires Fitted(t, env)
    ensures HasTables(EmitRoot(t), env)
  {
    hide EmitRoot;
    var root := EmitRoot(t);
    EmitRootMirrors(t);
    forall p | ValidPath(root, p)
      ensures p in env.tables && |env.tables[p]| == At(root, p).noEvent - At(root, p).first
      ensures forall i :: 0 <= i < |env.tables[p]| ==> |env.tables[p][i]| == At(root, p).states
    {
      MirrorAt(root, t, p);
    }
  }

  lemma StartIsGood(root: Numbered, c: Config)
    requires Starts(root, c)
    ensures Good(root, c)
  {
  }

  lemma {:induction false} RunKeepsGood(root: Numbered, env: Env, c: Config, n: nat)
    requires LaidRoot(root) && HasTables(root, env) && Honours(root, env) && Good(root, c)
    ensures Good(root, Run(root, env, c, n))
  {
    if n > 0 {
      hide Step, Good, HasTables;
      RunKeepsGood(root, env, c, n - 1);
      StepKeepsGood(root, env, Run(root, env, c, n - 1));
    }
  }

  /** No run of any tree ever looks up a cell outside the table of the machine at work. */
  lemma RunsLookUpInside(t: Tree, env: Env, c: Config, n: nat)
    requires Proper(t) && Fitted(t, env) && Honours(EmitRoot(t), env) && Starts(EmitRoot(t), c)
    ensures !Run(EmitRoot(t), env, c, n).outside
  {
    hide EmitRoot, Run, LaidRoot, HasTables, Fitted;
    var root := EmitRoot(t);
    EmitRootLays(t);
    TablesFit(t, env);
    StartIsGood(root, c);
    RunKeepsGood(root, env, c, n);
  }

  /** Whatever a sub-machine hands back in a run is an event of its caller, or its caller's noEvent: its own noEvent
      is handed back as the caller's, any other event as it is. */
  lemma RunsAnswerParents(t: Tree, env: Env, c: Config, n: nat)
    requires Proper(t) && Fitted(t, env) && Honours(EmitRoot(t), env) && Starts(EmitRoot(t), c)
    ensures var root := EmitRoot(t);
            var before, after := Run(root, env, c, n), Run(root, env, c, n + 1);
            0 < |after.stack| < |before.stack| ==>
              && |after.stack| == |before.stack| - 1
              && after.states == before.states && after.calls == before.calls
              && var caller, top := after.stack[|after.stack| - 1], before.stack[|before.stack| - 1];
                 && ValidPath(root, caller.path) && Own(At(root, caller.path), caller.event)
                 && caller.path == before.stack[|after.stack| - 1].path && ValidPath(root, top.path)
                 && caller.event == if top.event == At(root, top.path).noEvent then At(root, caller.path).noEvent
                                    else top.event
  {
    hide EmitRoot, LaidRoot, Honours, At, ValidPath, Find, HasTables, Fitted;
    var root := EmitRoot(t);
    EmitRootLays(t);
    TablesFit(t, env);
    StartIsGood(root, c);
    RunKeepsGood(root, env, c, n);
    var before := Run(root, env, c, n);
    assert Run(root, env, c, n + 1) == Step(root, env, before);
    hide Run;
    var after := Step(root, env, before);
    if 0 < |after.stack| < |before.stack| {
      AnswersParent(root, before.stack[|before.stack| - 1]);
    }
  }

  // ----- the event a run starts with -----

  lemma {:induction false} RunMore(root: Numbered, env: Env, c: Config, a: nat, b: nat)
    ensures Run(root, env, c, a + b) == Run(root, env, Run(root, env, c, a), b)
    decreases b
  {
    hide Step;
    if b > 0 { RunMore(root, env, c, a, b - 1); }
  }

  /** The event is on its way down to a machine: every machine above has called the next. */
  function OnTheWay(p: Path, e: nat): (r: seq<Frame>)
    ensures |r| == |p| + 1 && r[|p|] == Frame(p, e)
  {
    if p == [] then [Frame([], e)] else OnTheWay(p[..|p| - 1], e) + [Frame(p, e)]
  }

  lemma {:induction false} RouteAlong(n: Numbered, e: nat, p: Path, k: nat, j: nat)
    requires Route(n, e) == Some(Place(p, k)) && j <= |p|
    ensures ValidPath(n, p[..j]) && Route(At(n, p[..j]), e) == Some(Place(p[j..], k))
    decreases j
  {
    if j == 0 {
      assert p[..0] == [] && p[0..] == p;
    } else {
      var i := Find(n.kids, e).value;
      assert p[0] == i && Route(n.kids[i], e) == Some(Place(p[1..], k)) by { PathOn(n, e, p, k); }
      RouteAlong(n.kids[i], e, p[1..], k, j - 1);
      assert p[..j][1..] == p[1..][..j - 1] && p[1..][j - 1..] == p[j..];
    }
  }

  lemma PathOn(n: Numbered, e: nat, p: Path, k: nat)
    requires Route(n, e) == Some(Place(p, k)) && p != []
    ensures n.noEvent <= e && Find(n.kids, e) == Some(p[0])
    ensures Route(n.kids[p[0]], e) == Some(Place(p[1..], k))
  {
    var r := Route(n.kids[Find(n.kids, e).value], e).value;
    assert ([Find(n.kids, e).value] + r.path)[1..] == r.path;
  }

  lemma PathEnds(n: Numbered, e: nat, k: nat)
    requires Route(n, e) == Some(Place([], k))
    ensures n.first <= e < n.noEvent && k == e - n.first
  {
  }

  /** A machine that the event passes through calls the next one down. */
  lemma PassesDown(root: Numbered, env: Env, c: Config, e: nat, p: Path, k: nat, j: nat)
    requires LaidRoot(root) && Route(root, e) == Some(Place(p, k)) && j < |p| && !c.outside
    ensures Step(root, env, c.(stack := OnTheWay(p[..j], e))) == c.(stack := OnTheWay(p[..j + 1], e))
  {
    hide At, ValidPath, Find, LaidRoot, Route;
    RouteAlong(root, e, p, k, j);
    LaidAt(root, p[..j]);
    var n := At(root, p[..j]);
    PathOn(n, e, p[j..], k);
    FoundInRange(n.kids, e);
    assert p[j..][0] == p[j];
    assert p[..j + 1] == p[..j] + [p[j]] && p[..j + 1][..j] == p[..j];
  }

  lemma FoundInRange(kids: seq<Numbered>, e: nat)
    ensures Find(kids, e).Some? ==> Find(kids, e).value < |kids| && kids[Find(kids, e).value].first <= e
    ensures Find(kids, e).Some? ==> e < kids[Find(kids, e).value].last
  {
  }

  /** On its way to its owner an event makes no machine look up a cell. */
  lemma {:induction false} GoesDown(root: Numbered, env: Env, c: Config, e: nat, p: Path, k: nat, j: nat)
    requires LaidRoot(root) && Route(root, e) == Some(Place(p, k)) && j <= |p|
    requires c.stack == [Frame([], e)] && !c.outside
    ensures Run(root, env, c, j) == c.(stack := OnTheWay(p[..j], e))
    decreases j
  {
    hide Step, LaidRoot, Route;
    if j == 0 {
      assert p[..0] == [];
    } else {
      GoesDown(root, env, c, e, p, k, j - 1);
      PassesDown(root, env, c, e, p, k, j - 1);
    }
  }

  /** The first action that a run calls is that of the cell to which the event is routed, in the state of the machine
      that owns it. */
  lemma FirstCallIsRouted(t: Tree, env: Env, c: Config, p: Path, k: nat)
    requires Proper(t) && Fitted(t, env) && Starts(EmitRoot(t), c)
    requires Route(EmitRoot(t), c.stack[0].event) == Some(Place(p, k))
    ensures var root := EmitRoot(t);
            && ValidPath(root, p) && p in env.tables && p in c.states
            && k < |env.tables[p]| && c.states[p] < |env.tables[p][k]|
            && (forall n :: 0 <= n <= |p| ==> Run(root, env, c, n).calls == c.calls)
            && var cell, after := env.tables[p][k][c.states[p]], Run(root, env, c, |p| + 1);
               && after.calls == c.calls + [Call(p, cell.action)]
               && after.states == c.states[p := env.move(|c.calls|, p, cell.transition)]
               && |after.stack| == |p| + 1 && after.stack[|p|] == Frame(p, env.act(|c.calls|, p, cell.action))
  {
    hide EmitRoot, LaidRoot, Route, Find, Fitted, At, ValidPath, Run, MayHandle;
    var root, e := EmitRoot(t), c.stack[0].event;
    EmitRootLays(t);
    TablesFit(t, env);
    forall n | 0 <= n <= |p|
      ensures Run(root, env, c, n).calls == c.calls
    {
      GoesDown(root, env, c, e, p, k, n);
    }
    GoesDown(root, env, c, e, p, k, |p|);
    assert p[..|p|] == p && p[|p|..] == [];
    RouteAlong(root, e, p, k, |p|);
    PathEnds(At(root, p), e, k);
    OneMore(root, env, c, |p|);
  }

  lemma OneMore(root: Numbered, env: Env, c: Config, n: nat)
    ensures Run(root, env, c, n + 1) == Step(root, env, Run(root, env, c, n))
  {
  }

  /** In every shallow tree: started with the number of an event of any machine, a run first calls the action of that
      event in that machine's state. */
  lemma EventReachesItsCell(t: Tree, env: Env, c: Config, p: Path, k: nat)
    requires Proper(t) && Fitted(t, env) && Starts(EmitRoot(t), c)
    requires forall i :: 0 <= i < |t.kids| ==> ShallowTree(t.kids[i])
    requires HasEvent(t, p, k) && ValidPath(EmitRoot(t), p) && c.stack[0].event == At(EmitRoot(t), p).first + k
    ensures p in env.tables && p in c.states && k < |env.tables[p]| && c.states[p] < |env.tables[p][k]|
    ensures Run(EmitRoot(t), env, c, |p|).calls == c.calls
    ensures Run(EmitRoot(t), env, c, |p| + 1).calls == c.calls + [Call(p, env.tables[p][k][c.states[p]].action)]
  {
    hide EmitRoot, Route, Fitted, At, ValidPath, Run, ShallowTree, HasEvent;
    RoutesAllWhenShallow(t);
    FirstCallIsRouted(t, env, c, p, k);
  }

  lemma StepNotFound(root: Numbered, env: Env, c: Config, before: seq<Frame>, q: Path, e: nat)
    requires ValidPath(root, q) && !c.outside && c.stack == before + [Frame(q, e)]
    requires var v := At(root, q); v.first <= e && v.noEvent < e && v.kids != [] && Find(v.kids, e).None?
    ensures Step(root, env, c) == c.(stack := before + [Frame(q, At(root, q).noEvent)])
  {
    hide At, ValidPath, Find;
    assert c.stack[..|c.stack| - 1] == before;
  }

  lemma StepInto(root: Numbered, env: Env, c: Config, before: seq<Frame>, q: Path, e: nat, i: nat)
    requires ValidPath(root, q) && !c.outside && c.stack == before + [Frame(q, e)]
    requires var v := At(root, q); v.first <= e && v.noEvent < e && v.kids != [] && Find(v.kids, e) == Some(i)
    ensures Step(root, env, c) == c.(stack := c.stack + [Frame(q + [i], e)])
  {
    hide At, ValidPath, Find;
  }

  lemma StepBack(root: Numbered, env: Env, c: Config, below: seq<Frame>, q: Path, e: nat, i: nat)
    requires ValidPath(root, q) && ValidPath(root, q + [i]) && Parent(q + [i]) == q && !c.outside
    requires c.stack == below + [Frame(q, e)] + [Frame(q + [i], At(root, q + [i]).noEvent)]
    ensures Step(root, env, c) == c.(stack := below + [Frame(q, At(root, q).noEvent)])
  {
    hide At, ValidPath, Find;
    var top := |c.stack| - 1;
    assert c.stack[..top - 1] == below && c.stack[top - 1] == Frame(q, e);
  }

  lemma EventPastOwn(v: Numbered, e: nat)
    requires Route(v, e) == None && v.first <= e && (v.kids == [] ==> e <= v.noEvent)
    ensures v.noEvent <= e && (e != v.noEvent ==> v.kids != [])
    ensures e != v.noEvent && Find(v.kids, e).Some? ==> Route(v.kids[Find(v.kids, e).value], e) == None
  {
  }

  /** The sub-machine that is asked was called with a number in its range. */
  lemma KidInRange(root: Numbered, q: Path, e: nat, i: nat)
    requires LaidRoot(root) && ValidPath(root, q) && Find(At(root, q).kids, e) == Some(i)
    ensures i < |At(root, q).kids| && ValidPath(root, q + [i]) && Parent(q + [i]) == q
    ensures At(root, q + [i]) == At(root, q).kids[i] && At(root, q + [i]).first <= e
    ensures At(root, q + [i]).kids == [] ==> e <= At(root, q + [i]).noEvent
  {
    hide ValidPath, LaidRoot, At, Find;
    FoundInRange(At(root, q).kids, e);
    ChildAt(root, q, i);
    LaidAt(root, q);
    LeafRange(At(root, q).kids[i]);
  }

  /** An event that is not routed runs out: the machine on top ends up with its noEvent, and nothing was called. */
  lemma {:induction false} RunsOut(root: Numbered, env: Env, c: Config, below: seq<Frame>, q: Path, e: nat)
    returns (n: nat)
    requires LaidRoot(root) && ValidPath(root, q) && !c.outside
    requires c.stack == below + [Frame(q, e)]
    requires Route(At(root, q), e) == None && At(root, q).first <= e
    requires At(root, q).kids == [] ==> e <= At(root, q).noEvent
    ensures Run(root, env, c, n) == c.(stack := below + [Frame(q, At(root, q).noEvent)])
    decreases At(root, q)
  {
    hide *;
    var v := At(root, q);
    EventPastOwn(v, e);
    RunNone(root, env, c);
    if e == v.noEvent {
      n := 0;
    } else {
      OneMore(root, env, c, 0);
      var r := Find(v.kids, e);
      if r.None? {
        StepNotFound(root, env, c, below, q, e);
        n := 1;
      } else {
        var i := r.value;
        StepInto(root, env, c, below, q, e, i);
        KidInRange(root, q, e, i);
        var d := c.(stack := c.stack + [Frame(q + [i], e)]);
        var m := RunsOut(root, env, d, c.stack, q + [i], e);
        StepBack(root, env, Run(root, env, d, m), below, q, e, i);
        RunMore(root, env, c, 1, m);
        OneMore(root, env, c, 1 + m);
        n := m + 2;
      }
    }
  }

  lemma RunNone(root: Numbered, env: Env, c: Config)
    ensures Run(root, env, c, 0) == c
  {
  }

  lemma LeafRange(v: Numbered)
    requires Laid(v)
    ensures v.kids == [] ==> v.last == v.noEvent
  {
  }

  /** A run that starts with a number that is not routed comes to its end without calling anything. */
  lemma UnroutedCallsNothing(t: Tree, env: Env, c: Config) returns (n: nat)
    requires Proper(t) && Starts(EmitRoot(t), c) && Route(EmitRoot(t), c.stack[0].event) == None
    ensures Run(EmitRoot(t), env, c, n) == c.(stack := [])
  {
    hide EmitRoot, LaidRoot, Route, Find, Run;
    var root, e := EmitRoot(t), c.stack[0].event;
    EmitRootLays(t);
    LaidAt(root, []);
    assert c.stack == [] + [Frame([], e)];
    n := RunsOut(root, env, c, [], [], e);
    OneMore(root, env, c, n);
    n := n + 1;
  }
}
