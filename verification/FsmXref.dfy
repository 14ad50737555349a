/** The cross reference: one running counter over the tree of machines, and its agreement with the header. */
module FsmXref {
  import opened Wrappers
  import opened FsmTree

  /** A line of the cross reference; its number is its position. */
  datatype Line =
    | EventLine(machine: Path, index: nat)
    | NoEventLine(machine: Path)
    | NumEventsLine
    | NumAllEventsLine

  function EventLines(machine: Path, count: nat): (r: seq<Line>)
    ensures |r| == count && forall k :: 0 <= k < count ==> r[k] == EventLine(machine, k)
  {
    seq(count, k requires 0 <= k < count => EventLine(machine, k))
  }

  /** A machine's lines, then those of its sub-machines. */
  function Listing(t: Tree, machine: Path): seq<Line>
    decreases t
  {
    EventLines(machine, t.events) + [NoEventLine(machine)] + ListingAll(t.kids, machine, 0)
  }

  /** The lines of sub-machines, of which the first is number `i` in its parent. */
  function ListingAll(ts: seq<Tree>, parent: Path, i: nat): seq<Line>
    decreases ts
  {
    if ts == [] then [] else Listing(ts[0], parent + [i]) + ListingAll(ts[1..], parent, i + 1)
  }

  function ListingRoot(t: Tree): seq<Line> {
    EventLines([], t.events) + [NoEventLine([]), NumEventsLine] + ListingAll(t.kids, [], 0) +
    if t.kids == [] then [] else [NumAllEventsLine]
  }

  class Xref {
    var counter: nat
    var lines: seq<Line>
    /** The machine whose lines are being written. */
    var machine: Path

    constructor ()
      ensures counter == 0 && lines == [] && machine == []
    {
      counter, lines, machine := 0, [], [];
    }

    method WriteEntry(line: Line)
      requires counter == |lines|
      modifies this
      ensures lines == old(lines) + [line] && counter == |lines| && machine == old(machine)
    {
      lines := lines + [line];
      counter := counter + 1;
    }

    method WriteEvents(count: nat)
      requires counter == |lines|
      modifies this
      ensures lines == old(lines) + EventLines(machine, count) && counter == |lines| && machine == old(machine)
    {
      for k := 0 to count
        invariant lines == old(lines) + EventLines(machine, k) && counter == |lines| && machine == old(machine)
      {
        WriteEntry(EventLine(machine, k));
      }
    }

    /** One sub-machine: it becomes the current machine, and its parent is the current machine again after it. */
    method IterateSubMachine(t: Tree, i: nat)
      requires counter == |lines|
      modifies this
      ensures lines == old(lines) + Listing(t, machine + [i]) && counter == |lines| && machine == old(machine)
      decreases t
    {
      var parent := machine;
      machine := machine + [i];
      WriteEvents(t.events);
      WriteEntry(NoEventLine(machine));
      IterateSubMachines(t.kids, 0);
      machine := parent;
    }

    method IterateSubMachines(ts: seq<Tree>, i: nat)
      requires counter == |lines|
      modifies this
      ensures lines == old(lines) + ListingAll(ts, machine, i) && counter == |lines| && machine == old(machine)
      decreases ts
    {
      if |ts| > 0 {
        IterateSubMachine(ts[0], i);
        IterateSubMachines(ts[1..], i + 1);
      }
    }

    method WriteAll(t: Tree)
      requires counter == 0 && lines == [] && machine == []
      modifies this
      ensures lines == ListingRoot(t) && counter == |lines|
    {
      WriteEvents(t.events);
      WriteEntry(NoEventLine(machine));
      WriteEntry(NumEventsLine);
      if |t.kids| > 0 {
        IterateSubMachines(t.kids, 0);
        WriteEntry(NumAllEventsLine);
      }
    }
  }

  // ----- the numbers of the lines -----

  /** A machine numbered by one running counter; its range ends at the last number of its subtree. */
  function Count(t: Tree, next: nat): (n: Numbered)
    ensures n.first == next
    decreases t
  {
    var kids := CountAll(t.kids, next + t.events + 1);
    Numbered(next, next + t.events, if kids == [] then next + t.events else kids[|kids| - 1].last, t.states, kids)
  }

  function CountAll(ts: seq<Tree>, next: nat): (ns: seq<Numbered>)
    ensures |ns| == |ts|
    decreases ts
  {
    if ts == [] then []
    else
      var n := Count(ts[0], next);
      [n] + CountAll(ts[1..], n.last + 1)
  }

  function CountRoot(t: Tree): Numbered {
    Numbered(0, t.events, t.events, t.states, CountAll(t.kids, t.events + 2))
  }

  lemma {:induction false} CountLays(t: Tree, next: nat)
    requires Proper(t)
    ensures Laid(Count(t, next)) && Covering(Count(t, next))
    decreases t
  {
    var kids := CountAll(t.kids, next + t.events + 1);
    CountAllLays(t.kids, next + t.events + 1);
    if kids != [] {
      ChainRises(kids, next + t.events + 1);
      assert Laid(kids[|kids| - 1]);
    }
  }

  predicate AllCovering(ns: seq<Numbered>) {
    forall i :: 0 <= i < |ns| ==> Covering(ns[i])
  }

  lemma {:induction false} CountAllLays(ts: seq<Tree>, next: nat)
    requires forall i :: 0 <= i < |ts| ==> Proper(ts[i])
    ensures Chained(CountAll(ts, next), next) && AllCovering(CountAll(ts, next))
    decreases ts
  {
    if ts == [] {
      assert CountAll(ts, next) == [];
    } else {
      CountAllUnfold(ts, next);
      hide *;
      CountLays(ts[0], next);
      var n := Count(ts[0], next);
      CountAllLays(ts[1..], n.last + 1);
      CountOn(n, CountAll(ts[1..], n.last + 1), next);
    }
  }

  lemma CountAllUnfold(ts: seq<Tree>, next: nat)
    requires ts != []
    ensures CountAll(ts, next) == [Count(ts[0], next)] + CountAll(ts[1..], Count(ts[0], next).last + 1)
  {
  }

  lemma CountOn(n: Numbered, rest: seq<Numbered>, next: nat)
    requires Laid(n) && Covering(n) && n.first == next
    requires Chained(rest, n.last + 1) && AllCovering(rest)
    ensures Chained([n] + rest, next) && AllCovering([n] + rest)
  {
    hide Laid, Covering;
    var all := [n] + rest;
    assert forall i :: 0 < i < |all| ==> all[i] == rest[i - 1];
  }

  lemma {:induction false} CountMirrors(t: Tree, next: nat)
    ensures Mirrors(Count(t, next), t)
    decreases t
  {
    CountAllMirrors(t.kids, next + t.events + 1);
  }

  lemma {:induction false} CountAllMirrors(ts: seq<Tree>, next: nat)
    ensures forall i :: 0 <= i < |ts| ==> Mirrors(CountAll(ts, next)[i], ts[i])
    decreases ts
  {
    if ts != [] {
      hide Mirrors;
      CountMirrors(ts[0], next);
      CountAllMirrors(ts[1..], Count(ts[0], next).last + 1);
    }
  }

  /** The running counter's numbers stand for the tree as well. */
  lemma CountRootMirrors(t: Tree)
    ensures Mirrors(CountRoot(t), t)
  {
    CountAllMirrors(t.kids, t.events + 2);
  }

  lemma CountRoutesAll(t: Tree)
    requires Proper(t)
    ensures RoutesAll(CountRoot(t))
  {
    CountAllLays(t.kids, t.events + 2);
    CoveringRoutes(CountRoot(t));
  }

  /** With one running counter every event of every machine of the tree is routed to its owner, in every tree. */
  lemma CountRoutes(t: Tree)
    requires Proper(t)
    ensures RoutesEvents(CountRoot(t), t)
  {
    hide RoutesEvents, RoutesAll, Mirrors;
    CountRoutesAll(t);
    CountRootMirrors(t);
    RoutesTheTree(CountRoot(t), t);
  }

  // ----- the listing and the numbers -----

  lemma {:induction false} ListingSize(t: Tree, machine: Path, next: nat)
    requires Proper(t)
    ensures |Listing(t, machine)| == Count(t, next).last + 1 - next
    decreases t
  {
    ListingAllSize(t.kids, machine, 0, next + t.events + 1);
  }

  /** Where the numbers of a list of machines end. */
  function EndOf(ns: seq<Numbered>, next: nat): nat {
    if ns == [] then next else ns[|ns| - 1].last + 1
  }

  lemma {:induction false} ListingAllSize(ts: seq<Tree>, parent: Path, i: nat, next: nat)
    requires forall k :: 0 <= k < |ts| ==> Proper(ts[k])
    ensures |ListingAll(ts, parent, i)| == EndOf(CountAll(ts, next), next) - next
    decreases ts
  {
    hide Listing, Count, At;
    if ts != [] {
      ListingSize(ts[0], parent + [i], next);
      var n := Count(ts[0], next);
      ListingAllSize(ts[1..], parent, i + 1, n.last + 1);
      assert CountAll(ts, next) == [n] + CountAll(ts[1..], n.last + 1);
    }
  }

  /** What stands at a machine's `k`-th number: one of its events, and behind them its noEvent. */
  function LineOf(machine: Path, k: nat, events: nat): Line {
    if k < events then EventLine(machine, k) else NoEventLine(machine)
  }

  /** Every number of a machine has its line. */
  lemma {:induction false} LineAtNumber(t: Tree, machine: Path, next: nat, p: Path, k: nat)
    requires Proper(t) && TreePath(t, p) && k <= TreeAt(t, p).events
    ensures ValidPath(Count(t, next), p)
    ensures var i := At(Count(t, next), p).first + k - next;
            0 <= i < |Listing(t, machine)| && Listing(t, machine)[i] == LineOf(machine + p, k, TreeAt(t, p).events)
    decreases t
  {
    hide ListingAll, CountAll;
    if p == [] {
      assert machine + p == machine;
    } else {
      LineInList(t.kids, machine, 0, next + t.events + 1, p[0], p[1..], k);
      assert machine + [p[0]] + p[1..] == machine + p;
    }
  }

  lemma {:induction false} LineInList(ts: seq<Tree>, parent: Path, i: nat, next: nat, j: nat, q: Path, k: nat)
    requires forall l :: 0 <= l < |ts| ==> Proper(ts[l])
    requires j < |ts| && TreePath(ts[j], q) && k <= TreeAt(ts[j], q).events
    ensures ValidPath(CountAll(ts, next)[j], q)
    ensures var at := At(CountAll(ts, next)[j], q).first + k - next;
            0 <= at < |ListingAll(ts, parent, i)| &&
            ListingAll(ts, parent, i)[at] == LineOf(parent + [i + j] + q, k, TreeAt(ts[j], q).events)
    decreases ts
  {
    hide Count, Listing, At, ValidPath, TreeAt, TreePath;
    var n := Count(ts[0], next);
    var rest := CountAll(ts[1..], n.last + 1);
    assert CountAll(ts, next) == [n] + rest;
    ListingSize(ts[0], parent + [i], next);
    var head, tail := Listing(ts[0], parent + [i]), ListingAll(ts[1..], parent, i + 1);
    assert ListingAll(ts, parent, i) == head + tail;
    if j == 0 {
      LineAtNumber(ts[0], parent + [i], next, q, k);
    } else {
      assert CountAll(ts, next)[j] == rest[j - 1];
      LineInList(ts[1..], parent, i + 1, n.last + 1, j - 1, q, k);
    }
  }

  /** And a line of an event stands at that event's number. */
  lemma {:induction false} NumberOfLine(t: Tree, machine: Path, next: nat, i: nat) returns (p: Path)
    requires Proper(t) && i < |Listing(t, machine)| && Listing(t, machine)[i].EventLine?
    ensures var x := Listing(t, machine)[i];
            && x.machine == machine + p && HasEvent(t, p, x.index) && ValidPath(Count(t, next), p)
            && At(Count(t, next), p).first + x.index == next + i
    decreases t
  {
    hide ListingAll, CountAll;
    if i < t.events {
      p := [];
      assert machine + p == machine;
    } else {
      var j, q := NumberInList(t.kids, machine, 0, next + t.events + 1, i - t.events - 1);
      p := [j] + q;
      assert p[1..] == q && machine + [0 + j] + q == machine + p;
    }
  }

  lemma {:induction false} NumberInList(ts: seq<Tree>, parent: Path, i: nat, next: nat, at: nat)
    returns (j: nat, q: Path)
    requires forall l :: 0 <= l < |ts| ==> Proper(ts[l])
    requires at < |ListingAll(ts, parent, i)| && ListingAll(ts, parent, i)[at].EventLine?
    ensures var x := ListingAll(ts, parent, i)[at];
            && j < |ts| && x.machine == parent + [i + j] + q
            && HasEvent(ts[j], q, x.index) && ValidPath(CountAll(ts, next)[j], q)
            && At(CountAll(ts, next)[j], q).first + x.index == next + at
    decreases ts
  {
    hide Count, Listing, At, ValidPath, HasEvent;
    var n := Count(ts[0], next);
    var rest := CountAll(ts[1..], n.last + 1);
    assert CountAll(ts, next) == [n] + rest;
    ListingSize(ts[0], parent + [i], next);
    var head, tail := Listing(ts[0], parent + [i]), ListingAll(ts[1..], parent, i + 1);
    assert ListingAll(ts, parent, i) == head + tail;
    if at < |head| {
      j := 0;
      q := NumberOfLine(ts[0], parent + [i], next, at);
    } else {
      assert ListingAll(ts, parent, i)[at] == tail[at - |head|];
      j, q := NumberInList(ts[1..], parent, i + 1, n.last + 1, at - |head|);
      j := j + 1;
    }
  }

  /** In the whole cross reference every event of the tree stands at its number, every noEvent too, and no other line
      is an event's. */
  lemma LineAtRootNumber(t: Tree, p: Path, k: nat)
    requires Proper(t) && TreePath(t, p) && k <= TreeAt(t, p).events
    ensures ValidPath(CountRoot(t), p)
    ensures var i := At(CountRoot(t), p).first + k;
            i < |ListingRoot(t)| && ListingRoot(t)[i] == LineOf(p, k, TreeAt(t, p).events)
  {
    hide ListingAll, CountAll;
    if p != [] {
      LineInList(t.kids, [], 0, t.events + 2, p[0], p[1..], k);
      assert [] + [p[0]] + p[1..] == p;
    }
  }

  lemma NumberOfRootLine(t: Tree, i: nat)
    requires Proper(t) && i < |ListingRoot(t)| && ListingRoot(t)[i].EventLine?
    ensures var x := ListingRoot(t)[i];
            && HasEvent(t, x.machine, x.index) && ValidPath(CountRoot(t), x.machine)
            && At(CountRoot(t), x.machine).first + x.index == i
  {
    hide ListingAll, CountAll;
    var x := ListingRoot(t)[i];
    if i >= t.events {
      var j, q := NumberInList(t.kids, [], 0, t.events + 2, i - t.events - 2);
      assert [] + [0 + j] + q == x.machine && x.machine[0] == j && x.machine[1..] == q;
    }
  }

  lemma LastLine(t: Tree)
    requires Proper(t)
    ensures var n := NumAllEvents(CountRoot(t));
            && |ListingRoot(t)| == n + 1
            && ListingRoot(t)[n] == if t.kids == [] then NumEventsLine else NumAllEventsLine
  {
    hide Listing, ListingAll, Count, CountAll;
    ListingAllSize(t.kids, [], 0, t.events + 2);
  }

  /** The last line of the cross reference is that of numAllEvents, at its number; without sub-machines that is the
      number of numEvents. Every event of every machine is numbered below it. */
  lemma LastLineAtNumber(t: Tree)
    requires Proper(t)
    ensures var n := NumAllEvents(CountRoot(t));
            && |ListingRoot(t)| == n + 1
            && ListingRoot(t)[n] == (if t.kids == [] then NumEventsLine else NumAllEventsLine)
            && forall p, k :: HasEvent(t, p, k) ==> ValidPath(CountRoot(t), p) && At(CountRoot(t), p).first + k < n
  {
    hide NumAllEvents, ListingRoot, CountRoot, At, ValidPath, Proper;
    LastLine(t);
    forall p, k | HasEvent(t, p, k)
      ensures ValidPath(CountRoot(t), p) && At(CountRoot(t), p).first + k < NumAllEvents(CountRoot(t))
    {
      LineAtRootNumber(t, p, k);
    }
  }

  // ----- header and cross reference -----

  lemma {:induction false} EmitAgrees(t: Tree, next: nat)
    requires Proper(t) && ShallowTree(t)
    ensures Emit(t, next) == Count(t, next)
    decreases t
  {
    EmitAllAgrees(t.kids, next + t.events + 1);
    var kids := CountAll(t.kids, next + t.events + 1);
    if kids != [] { LeafEnds(t.kids, next + t.events + 1); }
  }

  lemma {:induction false} EmitAllAgrees(ts: seq<Tree>, next: nat)
    requires forall i :: 0 <= i < |ts| ==> Proper(ts[i]) && ShallowTree(ts[i])
    ensures EmitAll(ts, next) == CountAll(ts, next)
    decreases ts
  {
    if ts != [] {
      hide ShallowTree, Proper;
      EmitAgrees(ts[0], next);
      EmitAllAgrees(ts[1..], Emit(ts[0], next).last + 1);
    }
  }

  lemma {:induction false} LeafEnds(ts: seq<Tree>, next: nat)
    requires ts != [] && ts[|ts| - 1].kids == []
    ensures var w := CountAll(ts, next)[|ts| - 1]; w.last == w.noEvent
    decreases ts
  {
    if |ts| == 1 {
      assert CountAll(ts, next)[0] == Count(ts[0], next);
    } else {
      LeafEnds(ts[1..], Count(ts[0], next).last + 1);
    }
  }

  /** Exactly when the header numbers and bounds its machines as the cross reference does. */
  lemma HeaderMatchesXref(t: Tree)
    requires Proper(t)
    ensures EmitRoot(t) == CountRoot(t) <==> forall i :: 0 <= i < |t.kids| ==> ShallowTree(t.kids[i])
  {
    hide RoutesEvents, Emit, Count, ShallowTree, EmitAll, CountAll;
    if forall i :: 0 <= i < |t.kids| ==> ShallowTree(t.kids[i]) {
      EmitAllAgrees(t.kids, t.events + 2);
    }
    RoutesAllWhenShallow(t);
    CountRoutes(t);
  }

  /** In a deeper tree enumerators collide: here a machine three levels down and a machine at the top share the
      number 7, and that number is routed to the latter. */
  lemma DeepMachinesCollide()
    ensures var c := Node(1, 1, []);
            var t := Node(1, 1, [Node(1, 1, [Node(1, 1, [c])]), c]);
            var n := EmitRoot(t);
            && Proper(t)
            && Owns(n, [0, 0, 0], 0) && At(n, [0, 0, 0]).first == 7
            && Owns(n, [1], 0) && At(n, [1]).first == 7
            && Route(n, 7) == Some(Place([1], 0))
  {
    var c := Node(1, 1, []);
    var b := Node(1, 1, [c]);
    var a := Node(1, 1, [b]);
    var t := Node(1, 1, [a, c]);
    assert EmitAll([], 9) == [];
    var nc := Numbered(7, 8, 8, 1, []);
    var nb := Numbered(5, 6, 8, 1, [nc]);
    var na := Numbered(3, 4, 6, 1, [nb]);
    assert Emit(c, 7) == nc;
    assert EmitAll([c], 7) == [nc] by { assert [c][1..] == []; }
    assert Emit(b, 5) == nb;
    assert EmitAll([b], 5) == [nb] by { assert [b][1..] == []; }
    assert Emit(a, 3) == na;
    assert EmitAll([a, c], 3) == [na, nc] by { assert [a, c][1..] == [c]; }
    var n := EmitRoot(t);
    var p: Path := [0, 0, 0];
    assert p[1..] == [0, 0] && [0, 0][1..] == [0];
    AtKid(nb, 0);
    assert ValidPath(na, [0, 0]) && At(na, [0, 0]) == nc;
    AtKid(n, 1);
    assert Route(nc, 7) == Some(Place([], 0));
    RouteOn(n, 7, 1, [], 0);
    var down: Path := [1];
    assert down + [] == down;
    assert Proper(c);
    assert Proper(b);
    assert Proper(a);
  }
}
