/** Numbering the events of a tree of machines, and finding the machine that owns an event. */
module FsmTree {
  import opened Wrappers

  /** A machine with its sub-machines: how many events and states it has of its own. */
  datatype Tree = Node(events: nat, states: nat, kids: seq<Tree>)

  /** A machine with its numbers: its first event, its noEvent, and the end of the range its parent looks in. */
  datatype Numbered = Numbered(first: nat, noEvent: nat, last: nat, states: nat, kids: seq<Numbered>)

  /** Every machine has an event and a state. */
  predicate Proper(t: Tree) {
    t.events > 0 && t.states > 0 && forall i :: 0 <= i < |t.kids| ==> Proper(t.kids[i])
  }

  /** From the top, the number of the sub-machine to go to at each level. */
  type Path = seq<nat>

  predicate TreePath(t: Tree, p: Path) {
    p == [] || (p[0] < |t.kids| && TreePath(t.kids[p[0]], p[1..]))
  }

  function TreeAt(t: Tree, p: Path): Tree
    requires TreePath(t, p)
  {
    if p == [] then t else TreeAt(t.kids[p[0]], p[1..])
  }

  /** The machine at the path has an event of that index. */
  predicate HasEvent(t: Tree, p: Path, k: nat) {
    TreePath(t, p) && k < TreeAt(t, p).events
  }

  // ----- the enumeration that the header prints -----

  /** A sub-machine's enumerators from `next` on. With sub-machines of its own, its `lastEvent` is the noEvent of
      the last of these, and the enumerators that follow go on from there. */
  function Emit(t: Tree, next: nat): (n: Numbered)
    ensures n.first == next
    decreases t
  {
    var kids := EmitAll(t.kids, next + t.events + 1);
    Numbered(next, next + t.events, if kids == [] then next + t.events else kids[|kids| - 1].noEvent, t.states, kids)
  }

  function EmitAll(ts: seq<Tree>, next: nat): (ns: seq<Numbered>)
    ensures |ns| == |ts|
    decreases ts
  {
    if ts == [] then []
    else
      var n := Emit(ts[0], next);
      [n] + EmitAll(ts[1..], n.last + 1)
  }

  /** The top level: its events, noEvent, numEvents, then the sub-machines. */
  function EmitRoot(t: Tree): Numbered {
    Numbered(0, t.events, t.events, t.states, EmitAll(t.kids, t.events + 2))
  }

  /** The number behind all others: that of numEvents when there are no sub-machines. */
  function NumAllEvents(n: Numbered): nat {
    if n.kids == [] then n.noEvent + 1 else n.kids[|n.kids| - 1].last + 1
  }

  datatype Enumerator =
    | EventOf(machine: Path, index: nat)
    | NoEventOf(machine: Path)
    | LastEventOf(machine: Path)
    | NumEventsOf
    | NumAllEventsOf

  /** An enumerator of the header and the number that a C compiler gives it. */
  datatype Member = Member(name: Enumerator, value: nat)

  function EventMembers(machine: Path, first: nat, count: nat): (r: seq<Member>)
    ensures |r| == count && forall k :: 0 <= k < count ==> r[k] == Member(EventOf(machine, k), first + k)
  {
    seq(count, k requires 0 <= k < count => Member(EventOf(machine, k), first + k))
  }

  /** The enumerators of a sub-machine and those below it, from `next` on. */
  function Members(t: Tree, machine: Path, next: nat): seq<Member>
    decreases t
  {
    EventMembers(machine, next, t.events) + [Member(NoEventOf(machine), next + t.events)] +
    MembersAll(t.kids, machine, 0, next + t.events + 1) +
    if t.kids == [] then [] else [Member(LastEventOf(machine), Emit(t, next).last)]
  }

  /** The enumerators of sub-machines, of which the first is number `i` in its parent. */
  function MembersAll(ts: seq<Tree>, parent: Path, i: nat, next: nat): seq<Member>
    decreases ts
  {
    if ts == [] then []
    else Members(ts[0], parent + [i], next) + MembersAll(ts[1..], parent, i + 1, Emit(ts[0], next).last + 1)
  }

  function MembersRoot(t: Tree): seq<Member> {
    EventMembers([], 0, t.events) + [Member(NoEventOf([]), t.events), Member(NumEventsOf, t.events + 1)] +
    MembersAll(t.kids, [], 0, t.events + 2) + [Member(NumAllEventsOf, NumAllEvents(EmitRoot(t)))]
  }

  /** The enumeration as the header prints it, and the number that a C compiler gives next. */
  class Enumeration {
    var next: nat
    var printed: seq<Member>
    /** The machine whose enumerators are being printed. */
    var machine: Path

    constructor ()
      ensures next == 0 && printed == [] && machine == []
    {
      next, printed, machine := 0, [], [];
    }

    /** Prints an enumerator without a value of its own. */
    method Print(name: Enumerator) returns (value: nat)
      modifies this
      ensures value == old(next) && next == old(next) + 1 && machine == old(machine)
      ensures printed == old(printed) + [Member(name, value)]
    {
      value := next;
      printed := printed + [Member(name, value)];
      next := next + 1;
    }

    /** Prints an enumerator with a value; the next one goes on from there. */
    method PrintValue(name: Enumerator, value: nat)
      modifies this
      ensures next == value + 1 && machine == old(machine)
      ensures printed == old(printed) + [Member(name, value)]
    {
      printed := printed + [Member(name, value)];
      next := value + 1;
    }

    method PrintEvents(events: nat) returns (first: nat)
      modifies this
      ensures first == old(next) && next == old(next) + events && machine == old(machine)
      ensures printed == old(printed) + EventMembers(machine, first, events)
    {
      first := next;
      for i := 0 to events
        invariant next == first + i && machine == old(machine)
        invariant printed == old(printed) + EventMembers(machine, first, i)
      {
        var value := Print(EventOf(machine, i));
      }
    }

    /** One sub-machine: it becomes the current machine, and its parent is the current machine again after it. */
    method PrintSubMachineEvents(t: Tree, i: nat) returns (n: Numbered)
      modifies this
      ensures n == Emit(t, old(next)) && next == n.last + 1 && machine == old(machine)
      ensures printed == old(printed) + Members(t, machine + [i], old(next))
      decreases t
    {
      var parent := machine;
      machine := machine + [i];
      var first := PrintEvents(t.events);
      var noEvent := Print(NoEventOf(machine));
      var kids := PrintSubMachines(t.kids, 0);
      var last := noEvent;
      if |kids| > 0 {
        last := kids[|kids| - 1].noEvent;
        PrintValue(LastEventOf(machine), last);
      }
      n := Numbered(first, noEvent, last, t.states, kids);
      machine := parent;
    }

    method PrintSubMachines(ts: seq<Tree>, i: nat) returns (ns: seq<Numbered>)
      modifies this
      ensures ns == EmitAll(ts, old(next)) && machine == old(machine)
      ensures next == if ts == [] then old(next) else ns[|ns| - 1].last + 1
      ensures printed == old(printed) + MembersAll(ts, machine, i, old(next))
      decreases ts
    {
      hide *;
      ns := [];
      ghost var was, start := printed, next;
      MembersUnfold(ts, machine, i, start);
      if |ts| > 0 {
        var n := PrintSubMachineEvents(ts[0], i);
        ghost var one := Members(ts[0], machine + [i], start);
        var rest := PrintSubMachines(ts[1..], i + 1);
        ns := [n] + rest;
        Associative(was, one, MembersAll(ts[1..], machine, i + 1, n.last + 1));
      }
    }

    method PrintAllEvents(t: Tree) returns (n: Numbered, numAllEvents: nat)
      requires next == 0 && printed == [] && machine == []
      modifies this
      ensures n == EmitRoot(t) && numAllEvents == NumAllEvents(n)
      ensures printed == MembersRoot(t)
    {
      hide Emit, MembersAll;
      var first := PrintEvents(t.events);
      var noEvent := Print(NoEventOf(machine));
      var numEvents := Print(NumEventsOf);
      var kids := [];
      if |t.kids| > 0 {
        kids := PrintSubMachines(t.kids, 0);
        numAllEvents := Print(NumAllEventsOf);
      } else {
        NoMembers(next);
        numAllEvents := numEvents;
        PrintValue(NumAllEventsOf, numAllEvents);
      }
      n := Numbered(first, noEvent, noEvent, t.states, kids);
    }
  }

  lemma MembersUnfold(ts: seq<Tree>, parent: Path, i: nat, next: nat)
    ensures ts == [] ==> MembersAll(ts, parent, i, next) == [] && EmitAll(ts, next) == []
    ensures ts != [] ==>
              var last := Emit(ts[0], next).last;
              && EmitAll(ts, next) == [Emit(ts[0], next)] + EmitAll(ts[1..], last + 1)
              && MembersAll(ts, parent, i, next) ==
                 Members(ts[0], parent + [i], next) + MembersAll(ts[1..], parent, i + 1, last + 1)
  {
  }

  lemma NoMembers(next: nat)
    ensures MembersAll([], [], 0, next) == [] && EmitAll([], next) == []
  {
  }

  // ----- finding the owner -----

  predicate InRange(n: Numbered, e: nat) {
    n.first <= e < n.last
  }

  /** The first sub-machine whose range holds the event. */
  function Find(kids: seq<Numbered>, e: nat): (r: Option<nat>)
    ensures r.Some? ==> r.value < |kids| && InRange(kids[r.value], e)
    ensures r.Some? ==> forall i :: 0 <= i < r.value ==> !InRange(kids[i], e)
    ensures r.None? ==> forall i :: 0 <= i < |kids| ==> !InRange(kids[i], e)
  {
    if kids == [] then None
    else if InRange(kids[0], e) then Some(0)
    else
      var r := Find(kids[1..], e);
      if r.None? then None else Some(r.value + 1)
  }

  method FindSubMachine(kids: seq<Numbered>, e: nat) returns (r: Option<nat>)
    ensures r == Find(kids, e)
  {
    for i := 0 to |kids|
      invariant forall j :: 0 <= j < i ==> !InRange(kids[j], e)
    {
      if kids[i].first <= e && kids[i].last > e {
        return Some(i);
      }
    }
    return None;
  }

  predicate ValidPath(n: Numbered, p: Path) {
    p == [] || (p[0] < |n.kids| && ValidPath(n.kids[p[0]], p[1..]))
  }

  function At(n: Numbered, p: Path): Numbered
    requires ValidPath(n, p)
  {
    if p == [] then n else At(n.kids[p[0]], p[1..])
  }

  /** An event's own machine, and its number among that machine's events. */
  datatype Place = Place(path: Path, index: nat)

  /** Where an event ends up when every machine keeps its own and hands others to the sub-machine it finds. */
  function Route(n: Numbered, e: nat): Option<Place> {
    if e < n.noEvent then
      if e < n.first then None else Some(Place([], e - n.first))
    else
      var i := Find(n.kids, e);
      if i.None? then None
      else
        var r := Route(n.kids[i.value], e);
        if r.None? then None else Some(Place([i.value] + r.value.path, r.value.index))
  }

  /** Every event of every machine is routed from the top to its own machine and its own place there. */
  ghost predicate RoutesAll(n: Numbered) {
    forall p: Path, k: nat :: Owns(n, p, k) ==> Route(n, At(n, p).first + k) == Some(Place(p, k))
  }

  /** By its numbers, the machine at the path has an event of that index. */
  predicate Owns(n: Numbered, p: Path, k: nat) {
    ValidPath(n, p) && k < At(n, p).noEvent - At(n, p).first
  }

  // ----- the numbers stand for the tree -----

  /** The same shape, with as many events and states in every machine. */
  predicate Mirrors(n: Numbered, t: Tree)
    decreases t
  {
    && n.noEvent == n.first + t.events && n.states == t.states && |n.kids| == |t.kids|
    && forall i :: 0 <= i < |t.kids| ==> Mirrors(n.kids[i], t.kids[i])
  }

  lemma {:induction false} EmitMirrors(t: Tree, next: nat)
    ensures Mirrors(Emit(t, next), t)
    decreases t
  {
    EmitAllMirrors(t.kids, next + t.events + 1);
  }

  lemma {:induction false} EmitAllMirrors(ts: seq<Tree>, next: nat)
    ensures forall i :: 0 <= i < |ts| ==> Mirrors(EmitAll(ts, next)[i], ts[i])
    decreases ts
  {
    if ts != [] {
      hide Mirrors;
      EmitMirrors(ts[0], next);
      EmitAllMirrors(ts[1..], Emit(ts[0], next).last + 1);
    }
  }

  /** The header's numbers stand for the tree: the same paths, and at each path the machine's own events and states. */
  lemma EmitRootMirrors(t: Tree)
    ensures Mirrors(EmitRoot(t), t)
  {
    EmitAllMirrors(t.kids, t.events + 2);
  }

  lemma {:induction false} MirrorAt(n: Numbered, t: Tree, p: Path)
    requires Mirrors(n, t)
    ensures ValidPath(n, p) <==> TreePath(t, p)
    ensures TreePath(t, p) ==>
              && Mirrors(At(n, p), TreeAt(t, p))
              && At(n, p).noEvent == At(n, p).first + TreeAt(t, p).events
              && At(n, p).states == TreeAt(t, p).states && |At(n, p).kids| == |TreeAt(t, p).kids|
    decreases |p|
  {
    if p != [] && p[0] < |t.kids| {
      MirrorAt(n.kids[p[0]], t.kids[p[0]], p[1..]);
    }
  }

  lemma OwnsWhatItHas(n: Numbered, t: Tree, p: Path, k: nat)
    requires Mirrors(n, t)
    ensures Owns(n, p, k) <==> HasEvent(t, p, k)
  {
    MirrorAt(n, t, p);
  }

  /** Every event of every machine of the tree is routed from the top to its own machine and its own place there. */
  ghost predicate RoutesEvents(n: Numbered, t: Tree) {
    forall p: Path, k: nat :: HasEvent(t, p, k) ==>
      ValidPath(n, p) && Route(n, At(n, p).first + k) == Some(Place(p, k))
  }

  lemma RoutesTheTree(n: Numbered, t: Tree)
    requires Mirrors(n, t)
    ensures RoutesEvents(n, t) <==> RoutesAll(n)
  {
    hide Route, Mirrors, HasEvent, Owns;
    forall p: Path, k: nat
      ensures Owns(n, p, k) <==> HasEvent(t, p, k)
      ensures Owns(n, p, k) ==> ValidPath(n, p)
    {
      OwnsWhatItHas(n, t, p, k);
      OwnsAtPath(n, p, k);
    }
  }

  lemma OwnsAtPath(n: Numbered, p: Path, k: nat)
    ensures Owns(n, p, k) ==> ValidPath(n, p)
  {
  }

  // ----- what the header prints -----

  /** One of the enumerators of a machine: an event, its noEvent, or, with sub-machines, its lastEvent. */
  predicate OfMachine(x: Member, path: Path, n: Numbered, t: Tree) {
    match x.name
    case EventOf(q, k) => q == path && k < t.events && x.value == n.first + k
    case NoEventOf(q) => q == path && x.value == n.noEvent
    case LastEventOf(q) => q == path && t.kids != [] && x.value == n.last
    case _ => false
  }

  lemma InOwn(t: Tree, machine: Path, next: nat, x: Member)
    ensures OfMachine(x, machine, Emit(t, next), t) ==> x in Members(t, machine, next)
    ensures x in Members(t, machine, next) ==>
              OfMachine(x, machine, Emit(t, next), t) || x in MembersAll(t.kids, machine, 0, next + t.events + 1)
  {
    hide MembersAll, EmitAll;
    var top := EventMembers(machine, next, t.events);
    if x.name.EventOf? && x.name.index < t.events { assert top[x.name.index] in top; }
  }

  /** Every enumerator of every machine is printed. */
  lemma {:induction false} MachineIsPrinted(t: Tree, machine: Path, next: nat, p: Path, x: Member)
    requires TreePath(t, p) && ValidPath(Emit(t, next), p)
    requires OfMachine(x, machine + p, At(Emit(t, next), p), TreeAt(t, p))
    ensures x in Members(t, machine, next)
    decreases t
  {
    hide MembersAll, EmitAll, OfMachine;
    if p == [] {
      assert machine + p == machine;
      InOwn(t, machine, next, x);
    } else {
      assert machine + [0 + p[0]] + p[1..] == machine + p;
      KidIsPrinted(t.kids, machine, 0, next + t.events + 1, p[0], p[1..], x);
    }
  }

  lemma {:induction false} KidIsPrinted(ts: seq<Tree>, parent: Path, i: nat, next: nat, j: nat, q: Path, x: Member)
    requires j < |ts| && TreePath(ts[j], q) && ValidPath(EmitAll(ts, next)[j], q)
    requires OfMachine(x, parent + [i + j] + q, At(EmitAll(ts, next)[j], q), TreeAt(ts[j], q))
    ensures x in MembersAll(ts, parent, i, next)
    decreases ts
  {
    hide Emit, Members, OfMachine, At, ValidPath, TreePath, TreeAt;
    if j == 0 {
      MachineIsPrinted(ts[0], parent + [i], next, q, x);
    } else {
      KidIsPrinted(ts[1..], parent, i + 1, Emit(ts[0], next).last + 1, j - 1, q, x);
    }
  }

  /** And only these are printed. */
  lemma {:induction false} PrintedIsOfMachine(t: Tree, machine: Path, next: nat, x: Member) returns (p: Path)
    requires x in Members(t, machine, next)
    ensures TreePath(t, p) && ValidPath(Emit(t, next), p)
    ensures OfMachine(x, machine + p, At(Emit(t, next), p), TreeAt(t, p))
    decreases t
  {
    hide MembersAll, EmitAll, OfMachine, Members;
    InOwn(t, machine, next, x);
    if OfMachine(x, machine, Emit(t, next), t) {
      p := [];
      assert machine + p == machine;
    } else {
      var j, q := PrintedIsOfKid(t.kids, machine, 0, next + t.events + 1, x);
      p := [j] + q;
      assert p[1..] == q && machine + [0 + j] + q == machine + p;
    }
  }

  lemma {:induction false} PrintedIsOfKid(ts: seq<Tree>, parent: Path, i: nat, next: nat, x: Member)
    returns (j: nat, q: Path)
    requires x in MembersAll(ts, parent, i, next)
    ensures j < |ts| && TreePath(ts[j], q) && ValidPath(EmitAll(ts, next)[j], q)
    ensures OfMachine(x, parent + [i + j] + q, At(EmitAll(ts, next)[j], q), TreeAt(ts[j], q))
    decreases ts
  {
    hide Emit, Members, OfMachine, At, ValidPath, TreePath, TreeAt;
    if x in Members(ts[0], parent + [i], next) {
      j := 0;
      q := PrintedIsOfMachine(ts[0], parent + [i], next, x);
    } else {
      j, q := PrintedIsOfKid(ts[1..], parent, i + 1, Emit(ts[0], next).last + 1, x);
      j := j + 1;
    }
  }

  /** Where the machine of an enumerator is. */
  function MachineOf(x: Member): Path {
    match x.name
    case EventOf(q, _) => q
    case NoEventOf(q) => q
    case LastEventOf(q) => q
    case _ => []
  }

  /** The enumerators of the whole header are those of the machines of the tree, each with the number that its
      machine's numbers give it, but for the lastEvent of the top level, and numEvents and numAllEvents. */
  lemma HeaderPrintsTree(t: Tree, x: Member)
    ensures x in MembersRoot(t) <==>
              || x == Member(NumEventsOf, t.events + 1)
              || x == Member(NumAllEventsOf, NumAllEvents(EmitRoot(t)))
              || (var p := MachineOf(x);
                  && TreePath(t, p) && ValidPath(EmitRoot(t), p)
                  && OfMachine(x, p, At(EmitRoot(t), p), TreeAt(t, p)) && x != Member(LastEventOf([]), x.value))
  {
    hide MembersAll, Emit, EmitAll, ValidPath, At, TreePath, TreeAt;
    var p := MachineOf(x);
    var top, below := EventMembers([], 0, t.events), MembersAll(t.kids, [], 0, t.events + 2);
    AtTop(t);
    if x.name.EventOf? && x.name.index < t.events { assert top[x.name.index] in top; }
    if x in below {
      var j, q := PrintedIsOfKid(t.kids, [], 0, t.events + 2, x);
      assert [] + [0 + j] + q == [j] + q;
      assert p == [j] + q && p[1..] == q;
      BelowTop(t, p);
    }
    if p != [] {
      BelowTop(t, p);
      if TreePath(t, p) && ValidPath(EmitRoot(t), p) && OfMachine(x, p, At(EmitRoot(t), p), TreeAt(t, p)) {
        assert [] + [0 + p[0]] + p[1..] == p;
        KidIsPrinted(t.kids, [], 0, t.events + 2, p[0], p[1..], x);
      }
    }
  }

  lemma AtTop(t: Tree)
    ensures TreePath(t, []) && TreeAt(t, []) == t && ValidPath(EmitRoot(t), []) && At(EmitRoot(t), []) == EmitRoot(t)
  {
  }

  lemma BelowTop(t: Tree, p: Path)
    requires p != []
    ensures TreePath(t, p) <==> p[0] < |t.kids| && TreePath(t.kids[p[0]], p[1..])
    ensures TreePath(t, p) ==> TreeAt(t, p) == TreeAt(t.kids[p[0]], p[1..])
    ensures var n := EmitRoot(t);
            && (ValidPath(n, p) <==> p[0] < |n.kids| && ValidPath(n.kids[p[0]], p[1..]))
            && n.kids == EmitAll(t.kids, t.events + 2)
            && (ValidPath(n, p) ==> At(n, p) == At(n.kids[p[0]], p[1..]))
  {
  }

  /** In a sub-machine with sub-machines, the last of these has none. */
  predicate Shallow(n: Numbered) {
    && (n.kids != [] ==> n.kids[|n.kids| - 1].kids == [])
    && forall i :: 0 <= i < |n.kids| ==> Shallow(n.kids[i])
  }

  /** The same for all sub-machines of the top level; the last one at the top may have sub-machines itself. */
  predicate ShallowBelow(n: Numbered) {
    forall i :: 0 <= i < |n.kids| ==> Shallow(n.kids[i])
  }

  /** How the numbers of a list of machines follow each other. */
  predicate Chained(ns: seq<Numbered>, next: nat) {
    && (ns != [] ==> ns[0].first == next)
    && (forall i :: 0 <= i < |ns| - 1 ==> ns[i + 1].first == ns[i].last + 1)
    && (forall i :: 0 <= i < |ns| ==> Laid(ns[i]))
  }

  /** The numbers of a sub-machine: its events, its noEvent, then its sub-machines, each range after the other. */
  predicate Laid(n: Numbered) {
    && n.first < n.noEvent <= n.last && n.states > 0
    && (n.kids == [] ==> n.last == n.noEvent)
    && (n.kids != [] ==> n.kids[0].first == n.noEvent + 1)
    && (forall i :: 0 <= i < |n.kids| - 1 ==> n.kids[i + 1].first == n.kids[i].last + 1)
    && (forall i :: 0 <= i < |n.kids| ==> Laid(n.kids[i]))
  }

  /** Every range reaches as far as those of the sub-machines in it. */
  predicate Covering(n: Numbered) {
    && (n.kids != [] ==> n.kids[|n.kids| - 1].last <= n.last)
    && forall i :: 0 <= i < |n.kids| ==> Covering(n.kids[i])
  }

  predicate CoveringBelow(n: Numbered) {
    forall i :: 0 <= i < |n.kids| ==> Covering(n.kids[i])
  }

  /** Where a range ends in the header: at the noEvent of the last sub-machine. */
  predicate EndsAtNoEvent(n: Numbered) {
    && n.last == (if n.kids == [] then n.noEvent else n.kids[|n.kids| - 1].noEvent)
    && forall i :: 0 <= i < |n.kids| ==> EndsAtNoEvent(n.kids[i])
  }

  lemma {:induction false} ChainRises(ns: seq<Numbered>, next: nat)
    requires Chained(ns, next) && ns != []
    ensures next < ns[|ns| - 1].noEvent
    decreases |ns|
  {
    var n := |ns| - 1;
    assert Laid(ns[n]);
    if n > 0 {
      ChainRises(ns[..n], next);
      assert Laid(ns[n - 1]);
    }
  }

  predicate LaidRoot(n: Numbered) {
    && n.first == 0 < n.noEvent && n.states > 0
    && Chained(n.kids, n.noEvent + 2)
  }

  lemma {:induction false} EmitLays(t: Tree, next: nat)
    requires Proper(t)
    ensures Laid(Emit(t, next)) && EndsAtNoEvent(Emit(t, next))
    decreases t
  {
    hide EmitAll;
    var kids := EmitAll(t.kids, next + t.events + 1);
    EmitAllLays(t.kids, next + t.events + 1);
    if kids != [] { ChainRises(kids, next + t.events + 1); }
  }

  lemma {:induction false} EmitAllLays(ts: seq<Tree>, next: nat)
    requires forall i :: 0 <= i < |ts| ==> Proper(ts[i])
    ensures Chained(EmitAll(ts, next), next)
    ensures AllEnd(EmitAll(ts, next))
    decreases ts
  {
    if ts == [] {
      assert EmitAll(ts, next) == [];
    } else {
      EmitAllUnfold(ts, next);
      hide *;
      EmitLays(ts[0], next);
      var n := Emit(ts[0], next);
      EmitAllLays(ts[1..], n.last + 1);
      ChainOn(n, EmitAll(ts[1..], n.last + 1), next);
    }
  }

  lemma EmitAllUnfold(ts: seq<Tree>, next: nat)
    requires ts != []
    ensures EmitAll(ts, next) == [Emit(ts[0], next)] + EmitAll(ts[1..], Emit(ts[0], next).last + 1)
  {
  }

  predicate AllEnd(ns: seq<Numbered>) {
    forall i :: 0 <= i < |ns| ==> EndsAtNoEvent(ns[i])
  }

  lemma ChainOn(n: Numbered, rest: seq<Numbered>, next: nat)
    requires Laid(n) && EndsAtNoEvent(n) && n.first == next
    requires Chained(rest, n.last + 1) && AllEnd(rest)
    ensures Chained([n] + rest, next) && AllEnd([n] + rest)
  {
    hide Laid, EndsAtNoEvent;
    var all := [n] + rest;
    assert forall i :: 0 < i < |all| ==> all[i] == rest[i - 1];
  }

  lemma EmitRootLays(t: Tree)
    requires Proper(t)
    ensures LaidRoot(EmitRoot(t))
    ensures AllEnd(EmitRoot(t).kids)
  {
    EmitAllLays(t.kids, t.events + 2);
  }

  // ----- ranges -----

  /** Each range follows the one before. */
  predicate Ordered(ns: seq<Numbered>) {
    && (forall k :: 0 <= k < |ns| ==> ns[k].first <= ns[k].last)
    && (forall k :: 0 <= k < |ns| - 1 ==> ns[k + 1].first == ns[k].last + 1)
  }

  lemma LaidKids(n: Numbered, i: nat)
    requires Laid(n) && i < |n.kids|
    ensures Laid(n.kids[i]) && Ordered(n.kids) && n.noEvent < n.kids[0].first
  {
  }

  lemma LaidRootKids(n: Numbered, i: nat)
    requires LaidRoot(n) && i < |n.kids|
    ensures Laid(n.kids[i]) && Ordered(n.kids) && n.noEvent < n.kids[0].first
  {
  }

  lemma {:induction false} RangesRise(ns: seq<Numbered>, i: nat, j: nat)
    requires i < j < |ns|
    requires Ordered(ns)
    ensures ns[i].last < ns[j].first
    decreases j
  {
    if i < j - 1 { RangesRise(ns, i, j - 1); }
  }

  /** The numbers in a machine's range belong to no sibling. */
  lemma FindsTheOne(ns: seq<Numbered>, i: nat, e: nat)
    requires i < |ns| && InRange(ns[i], e)
    requires Ordered(ns)
    ensures Find(ns, e) == Some(i)
  {
    var j := Find(ns, e).value;
    if j < i { RangesRise(ns, j, i); }
  }

  lemma {:induction false} LastReaches(ns: seq<Numbered>, i: nat)
    requires i < |ns|
    requires Ordered(ns)
    ensures ns[0].first <= ns[i].first && ns[i].last <= ns[|ns| - 1].last
  {
    if i > 0 { RangesRise(ns, 0, i); }
    if i < |ns| - 1 { RangesRise(ns, i, |ns| - 1); }
  }

  /** A covering range holds every event of the subtree. */
  lemma {:induction false} RangeHolds(n: Numbered, p: Path, k: nat)
    requires Laid(n) && Covering(n) && Owns(n, p, k)
    ensures InRange(n, At(n, p).first + k)
    ensures p != [] ==> n.noEvent < At(n, p).first + k
    decreases |p|
  {
    if p != [] {
      var i := p[0];
      RangeHolds(n.kids[i], p[1..], k);
      LastReaches(n.kids, i);
    }
  }

  lemma OwnsBelow(n: Numbered, p: Path, k: nat)
    requires Owns(n, p, k) && p != []
    ensures ValidPath(n, p) && p[0] < |n.kids| && ValidPath(n.kids[p[0]], p[1..])
    ensures At(n, p) == At(n.kids[p[0]], p[1..]) && Owns(n.kids[p[0]], p[1..], k)
    ensures p == [p[0]] + p[1..]
  {
  }

  lemma RouteOn(n: Numbered, e: nat, i: nat, q: Path, k: nat)
    requires i < |n.kids| && Ordered(n.kids) && n.noEvent <= e && InRange(n.kids[i], e)
    requires Route(n.kids[i], e) == Some(Place(q, k))
    ensures Route(n, e) == Some(Place([i] + q, k))
  {
    FindsTheOne(n.kids, i, e);
  }

  /** From a machine with covering ranges every event of its subtree is routed to its owner. */
  lemma {:induction false} RoutesDown(n: Numbered, p: Path, k: nat)
    requires Laid(n) && Covering(n) && Owns(n, p, k)
    ensures Route(n, At(n, p).first + k) == Some(Place(p, k))
    decreases |p|, 1
  {
    if p != [] {
      OwnsBelow(n, p, k);
      LaidKids(n, p[0]);
      RoutesThrough(n, p, k);
    }
  }

  lemma RoutesFromRoot(n: Numbered, p: Path, k: nat)
    requires LaidRoot(n) && CoveringBelow(n) && Owns(n, p, k)
    ensures Route(n, At(n, p).first + k) == Some(Place(p, k))
  {
    if p == [] {
      assert n.first == 0;
    } else {
      OwnsBelow(n, p, k);
      LaidRootKids(n, p[0]);
      assert Covering(n.kids[p[0]]);
      RoutesThrough(n, p, k);
    }
  }

  lemma {:induction false} RoutesThrough(n: Numbered, p: Path, k: nat)
    requires p != [] && p[0] < |n.kids| && Owns(n.kids[p[0]], p[1..], k) && ValidPath(n, p)
    requires At(n, p) == At(n.kids[p[0]], p[1..])
    requires Ordered(n.kids) && n.noEvent < n.kids[0].first && Laid(n.kids[p[0]]) && Covering(n.kids[p[0]])
    ensures Route(n, At(n, p).first + k) == Some(Place(p, k))
    decreases |p|, 0
  {
    hide *;
    var i, e := p[0], At(n, p).first + k;
    RangeHolds(n.kids[i], p[1..], k);
    LastReaches(n.kids, i);
    InRangeStarts(n.kids[i], e);
    RoutesDown(n.kids[i], p[1..], k);
    RouteOn(n, e, i, p[1..], k);
    assert p == [i] + p[1..];
  }

  lemma InRangeStarts(n: Numbered, e: nat)
    requires InRange(n, e)
    ensures n.first <= e
  {
  }

  // ----- what goes wrong in deeper trees -----

  /** A sub-machine whose last sub-machine has sub-machines. */
  predicate Deep(v: Numbered) {
    v.kids != [] && v.kids[|v.kids| - 1].kids != [] && Laid(v) && EndsAtNoEvent(v)
  }

  /** The header's ranges are covering exactly in shallow trees. */
  lemma {:induction false} CoveringWhenShallow(n: Numbered)
    requires Laid(n) && EndsAtNoEvent(n)
    ensures Covering(n) <==> Shallow(n)
    decreases n
  {
    forall i | 0 <= i < |n.kids|
      ensures Covering(n.kids[i]) <==> Shallow(n.kids[i])
    {
      CoveringWhenShallow(n.kids[i]);
    }
    if n.kids != [] {
      var w := n.kids[|n.kids| - 1];
      assert Laid(w) && EndsAtNoEvent(w);
      if w.kids != [] {
        LaidKids(w, |w.kids| - 1);
        LastReaches(w.kids, |w.kids| - 1);
      }
    }
  }

  /** A sub-machine that is not shallow, and the path to it. */
  lemma {:induction false} DeepPath(n: Numbered) returns (p: Path)
    requires Laid(n) && EndsAtNoEvent(n) && !Shallow(n)
    ensures ValidPath(n, p)
    ensures Deep(At(n, p))
    decreases n
  {
    if n.kids != [] && n.kids[|n.kids| - 1].kids != [] {
      p := [];
    } else {
      var i :| 0 <= i < |n.kids| && !Shallow(n.kids[i]);
      var q := DeepPath(n.kids[i]);
      p := [i] + q;
      assert p[1..] == q;
    }
  }

  /** Whatever is routed below a sub-machine lies in its range. */
  lemma {:induction false} RoutedLiesInRange(n: Numbered, e: nat, p: Path, q: Path)
    requires ValidPath(n, p + q) && Route(n, e).Some? && Route(n, e).value.path == p + q && p != []
    ensures ValidPath(n, p) && InRange(At(n, p), e)
    decreases |p|
  {
    var i := Find(n.kids, e).value;
    assert (p + q)[0] == i == p[0];
    assert (p + q)[1..] == p[1..] + q;
    assert Route(n.kids[i], e).value.path == p[1..] + q;
    if |p| > 1 {
      RoutedLiesInRange(n.kids[i], e, p[1..], q);
    }
  }

  lemma {:induction false} ValidBoth(n: Numbered, p: Path, q: Path)
    requires ValidPath(n, p) && ValidPath(At(n, p), q)
    ensures ValidPath(n, p + q) && At(n, p + q) == At(At(n, p), q)
    decreases |p|
  {
    if p == [] {
      assert p + q == q;
    } else {
      ValidBoth(n.kids[p[0]], p[1..], q);
      assert (p + q)[1..] == p[1..] + q;
    }
  }

  lemma AtKid(n: Numbered, i: nat)
    requires i < |n.kids|
    ensures ValidPath(n, [i]) && At(n, [i]) == n.kids[i]
  {
    var p: Path := [i];
    assert p[1..] == [];
    assert At(n.kids[i], []) == n.kids[i];
    assert At(n.kids[i], p[1..]) == n.kids[i];
  }

  /** Below a sub-machine whose last sub-machine has its own, an event lies beyond the range and is not routed. */
  lemma DeepIsNotRouted(n: Numbered, p: Path)
    requires ValidPath(n, p) && p != []
    requires Deep(At(n, p))
    ensures !RoutesAll(n)
  {
    var v := At(n, p);
    var q := BeyondRange(v);
    ValidBoth(n, p, q);
    hide *;
    var e := At(v, q).first;
    if RoutesAll(n) {
      RoutedToOwner(n, p + q);
      RoutedLiesInRange(n, e, p, q);
      OutOfRange(v, e);
    }
  }

  /** An event below a deep sub-machine that its range does not reach. */
  lemma BeyondRange(v: Numbered) returns (q: Path)
    requires Deep(v)
    ensures ValidPath(v, q) && At(v, q).first < At(v, q).noEvent && v.last <= At(v, q).first
  {
    var last := |v.kids| - 1;
    var w := v.kids[last];
    assert Laid(w) && Laid(w.kids[0]);
    AtKid(w, 0);
    q := [last, 0];
    assert q[0] == last && q[1..] == [0];
  }

  lemma RoutedToOwner(n: Numbered, p: Path)
    requires RoutesAll(n) && ValidPath(n, p) && At(n, p).first < At(n, p).noEvent
    ensures Route(n, At(n, p).first) == Some(Place(p, 0))
  {
    assert Owns(n, p, 0);
    assert Route(n, At(n, p).first + 0) == Some(Place(p, 0));
  }

  lemma OutOfRange(n: Numbered, e: nat)
    requires n.last <= e
    ensures !InRange(n, e)
  {
  }

  lemma DeepKid(n: Numbered, i: nat)
    requires LaidRoot(n) && i < |n.kids| && !Shallow(n.kids[i]) && EndsAtNoEvent(n.kids[i])
    ensures !RoutesAll(n)
  {
    var q := DeepPath(n.kids[i]);
    assert ([i] + q)[1..] == q;
    DeepIsNotRouted(n, [i] + q);
  }

  /** Covering ranges route every event to its owner. */
  lemma CoveringRoutes(n: Numbered)
    requires LaidRoot(n) && CoveringBelow(n)
    ensures RoutesAll(n)
  {
    hide LaidRoot, CoveringBelow, Route;
    forall p: Path, k: nat | Owns(n, p, k)
      ensures Route(n, At(n, p).first + k) == Some(Place(p, k))
    {
      RoutesFromRoot(n, p, k);
    }
  }

  /** The shape alone decides. */
  predicate ShallowTree(t: Tree) {
    && (t.kids != [] ==> t.kids[|t.kids| - 1].kids == [])
    && forall i :: 0 <= i < |t.kids| ==> ShallowTree(t.kids[i])
  }

  lemma {:induction false} ShallowByShape(t: Tree, next: nat)
    ensures Shallow(Emit(t, next)) <==> ShallowTree(t)
    decreases t
  {
    ShallowAllByShape(t.kids, next + t.events + 1);
  }

  lemma {:induction false} ShallowAllByShape(ts: seq<Tree>, next: nat)
    ensures forall i :: 0 <= i < |ts| ==> (Shallow(EmitAll(ts, next)[i]) <==> ShallowTree(ts[i]))
    ensures forall i :: 0 <= i < |ts| ==> (EmitAll(ts, next)[i].kids == [] <==> ts[i].kids == [])
    decreases ts
  {
    if ts != [] {
      hide Shallow, ShallowTree;
      ShallowByShape(ts[0], next);
      ShallowAllByShape(ts[1..], Emit(ts[0], next).last + 1);
    }
  }

  /** Exactly when every event reaches its owner: no sub-machine's last sub-machine has sub-machines. */
  lemma RoutesAllWhenShallow(t: Tree)
    requires Proper(t)
    ensures RoutesEvents(EmitRoot(t), t) <==> forall i :: 0 <= i < |t.kids| ==> ShallowTree(t.kids[i])
  {
    hide RoutesAll, RoutesEvents, Shallow, Covering, Laid, EndsAtNoEvent, ShallowTree, Mirrors;
    var n := EmitRoot(t);
    EmitRootLays(t);
    EmitRootMirrors(t);
    RoutesTheTree(n, t);
    ShallowAllByShape(t.kids, t.events + 2);
    if ShallowBelow(n) {
      forall i | 0 <= i < |n.kids|
        ensures Covering(n.kids[i])
      {
        CoveringWhenShallow(n.kids[i]);
      }
      CoveringRoutes(n);
    } else {
      var i :| 0 <= i < |n.kids| && !Shallow(n.kids[i]);
      DeepKid(n, i);
    }
  }
}
