/** Filling the event/state matrix from the action records, with the lists the generators walk. */
module FsmPopulate {
  import opened Wrappers
  import opened FsmMatrix

  /** The record in a cell after some claims were met, or -1. */
  function OwnerOf(claims: seq<Claim>, e: Event, s: State): int {
    if claims == [] then -1
    else
      var c := claims[|claims| - 1];
      if c.event == e && c.state == s then c.info else OwnerOf(claims[..|claims| - 1], e, s)
  }

  function AddUnique<T(==)>(list: seq<T>, x: T): seq<T> {
    if x in list then list else list + [x]
  }

  /** The events a state handles, in the order in which their cells were filled. */
  function EventsOf(claims: seq<Claim>, s: State): seq<Event> {
    if claims == [] then []
    else
      var c := claims[|claims| - 1];
      var rest := EventsOf(claims[..|claims| - 1], s);
      if c.state == s then AddUnique(rest, c.event) else rest
  }

  /** The states that handle an event, in the same order. */
  function StatesOf(claims: seq<Claim>, e: Event): seq<State> {
    if claims == [] then []
    else
      var c := claims[|claims| - 1];
      var rest := StatesOf(claims[..|claims| - 1], e);
      if c.event == e then AddUnique(rest, c.state) else rest
  }

  lemma {:induction false} InEventsOf(claims: seq<Claim>, e: Event, s: State)
    ensures e in EventsOf(claims, s) <==> Taken(claims, e, s)
    decreases |claims|
  {
    if claims != [] {
      InEventsOf(claims[..|claims| - 1], e, s);
      TakenLast(claims[..|claims| - 1], claims[|claims| - 1], e, s);
      assert claims == claims[..|claims| - 1] + [claims[|claims| - 1]];
    }
  }

  lemma {:induction false} InStatesOf(claims: seq<Claim>, e: Event, s: State)
    ensures s in StatesOf(claims, e) <==> Taken(claims, e, s)
    decreases |claims|
  {
    if claims != [] {
      InStatesOf(claims[..|claims| - 1], e, s);
      TakenLast(claims[..|claims| - 1], claims[|claims| - 1], e, s);
      assert claims == claims[..|claims| - 1] + [claims[|claims| - 1]];
    }
  }

  lemma TakenLast(claims: seq<Claim>, c: Claim, e: Event, s: State)
    ensures Taken(claims + [c], e, s) <==> Taken(claims, e, s) || (c.event == e && c.state == s)
  {
    var all := claims + [c];
    assert all[|claims|] == c;
    if Taken(claims, e, s) {
      var i :| 0 <= i < |claims| && claims[i].event == e && claims[i].state == s;
      assert all[i] == claims[i];
    }
  }

  lemma {:induction false} OwnerTakes(claims: seq<Claim>, e: Event, s: State)
    ensures OwnerOf(claims, e, s) >= 0 <==> Taken(claims, e, s)
    ensures OwnerOf(claims, e, s) >= -1
    ensures OwnerOf(claims, e, s) >= 0 ==> Claim(OwnerOf(claims, e, s), e, s) in claims
    decreases |claims|
  {
    if claims != [] {
      OwnerTakes(claims[..|claims| - 1], e, s);
      TakenLast(claims[..|claims| - 1], claims[|claims| - 1], e, s);
      assert claims == claims[..|claims| - 1] + [claims[|claims| - 1]];
    }
  }

  /** What one more claim adds to the cells and the lists. */
  lemma ListsGrow(claims: seq<Claim>, c: Claim)
    ensures forall e, s :: OwnerOf(claims + [c], e, s) ==
              if c.event == e && c.state == s then c.info else OwnerOf(claims, e, s)
    ensures forall s :: EventsOf(claims + [c], s) ==
              if c.state == s then AddUnique(EventsOf(claims, s), c.event) else EventsOf(claims, s)
    ensures forall e :: StatesOf(claims + [c], e) ==
              if c.event == e then AddUnique(StatesOf(claims, e), c.state) else StatesOf(claims, e)
  {
    assert (claims + [c])[..|claims|] == claims;
  }

  /** One more claim, on a free cell or on a taken one. */
  lemma ClearLast(claims: seq<Claim>, c: Claim)
    requires Clear(claims)
    ensures Clear(claims + [c]) <==> !Taken(claims, c.event, c.state)
  {
    var all := claims + [c];
    assert all[|claims|] == c;
    if Taken(claims, c.event, c.state) {
      var i :| 0 <= i < |claims| && claims[i].event == c.event && claims[i].state == c.state;
      assert SameCell(all[i], all[|claims|]);
    }
  }

  lemma ClearFront(claims: seq<Claim>, rest: seq<Claim>)
    requires Clear(claims + rest)
    ensures Clear(claims) && Clear(rest)
  {
    var all := claims + rest;
    assert forall i :: 0 <= i < |claims| ==> all[i] == claims[i];
    assert forall i :: 0 <= i < |rest| ==> rest[i] == all[|claims| + i];
  }

  // ----- counting states -----

  lemma {:induction false} ClearStates(k: nat, e: Event, states: seq<State>)
    requires Clear(ClaimsOfStates(k, e, states))
    ensures forall i, j :: 0 <= i < j < |states| ==> states[i] != states[j]
    ensures |ClaimsOfStates(k, e, states)| == |states|
    decreases |states|
  {
    if states != [] {
      var n := |states| - 1;
      var front := ClaimsOfStates(k, e, states[..n]);
      var c := Claim(k, e, states[n]);
      ClearFront(front, [c]);
      ClearStates(k, e, states[..n]);
      ClearLast(front, c);
      forall i | 0 <= i < n
        ensures states[i] != states[n]
      {
        InClaimsOfStates(k, e, states[..n], Claim(k, e, states[i]));
        assert states[..n][i] == states[i];
        assert Claim(k, e, states[i]) in front;
      }
    }
  }

  function Below(n: nat): (r: set<State>)
    ensures |r| == n && forall s: State :: s in r <==> s < n
  {
    if n == 0 then {} else Below(n - 1) + {n - 1}
  }

  function Elements(states: seq<State>): (r: set<State>)
    ensures forall s :: s in r <==> s in states
  {
    if states == [] then {}
    else
      assert states == states[..|states| - 1] + [states[|states| - 1]];
      Elements(states[..|states| - 1]) + {states[|states| - 1]}
  }

  lemma {:induction false} SizeOfDistinct(states: seq<State>)
    requires forall i, j :: 0 <= i < j < |states| ==> states[i] != states[j]
    ensures |Elements(states)| == |states|
    decreases |states|
  {
    if states != [] {
      var n := |states| - 1;
      SizeOfDistinct(states[..n]);
      assert states[n] !in states[..n];
    }
  }

  lemma SubsetSize(a: set<State>, b: set<State>)
    requires a <= b
    ensures |a| <= |b| && (|a| == |b| ==> a == b)
  {
    assert b == a + (b - a) && |b| == |a| + |b - a|;
  }

  /** Distinct states fill a machine exactly when there are as many of them. */
  lemma AllStatesByCount(states: seq<State>, n: nat)
    requires forall i, j :: 0 <= i < j < |states| ==> states[i] != states[j]
    requires forall i :: 0 <= i < |states| ==> states[i] < n
    ensures |states| == n <==> forall s :: 0 <= s < n ==> s in states
  {
    SizeOfDistinct(states);
    SubsetSize(Elements(states), Below(n));
    if |states| == n {
      assert Elements(states) == Below(n);
    }
    if forall s :: 0 <= s < n ==> s in states {
      assert Elements(states) == Below(n);
    }
  }

  // ----- what has been met so far -----

  /** The claims of the first `k` records, of the first `i` events of the next, and of the first `j` states. */
  function Met(infos: seq<ActionInfo>, k: nat, i: nat, j: nat): seq<Claim>
    requires k <= |infos|
    requires k == |infos| ==> i == 0 && j == 0
    requires k < |infos| ==> i <= |infos[k].events| && j <= |infos[k].states|
    requires k < |infos| && i == |infos[k].events| ==> j == 0
  {
    if k == |infos| then ClaimsOf(infos)
    else
      ClaimsOf(infos[..k]) + ClaimsOfEvents(k, infos[k].events[..i], infos[k].states) +
      if i == |infos[k].events| then [] else ClaimsOfStates(k, infos[k].events[i], infos[k].states[..j])
  }

  lemma {:induction false} ClaimsOfFront(infos: seq<ActionInfo>, k: nat) returns (rest: seq<Claim>)
    requires k <= |infos|
    ensures ClaimsOf(infos) == ClaimsOf(infos[..k]) + rest
    decreases |infos|
  {
    if k == |infos| {
      assert infos[..k] == infos;
      rest := [];
    } else {
      var n := |infos| - 1;
      rest := ClaimsOfFront(infos[..n], k);
      assert infos[..n][..k] == infos[..k];
      rest := rest + ClaimsOfEvents(n, infos[n].events, infos[n].states);
    }
  }

  lemma {:induction false} ClaimsOfEventsFront(k: nat, events: seq<Event>, states: seq<State>, i: nat)
    returns (rest: seq<Claim>)
    requires i <= |events|
    ensures ClaimsOfEvents(k, events, states) == ClaimsOfEvents(k, events[..i], states) + rest
    decreases |events|
  {
    if i == |events| {
      assert events[..i] == events;
      rest := [];
    } else {
      var n := |events| - 1;
      rest := ClaimsOfEventsFront(k, events[..n], states, i);
      assert events[..n][..i] == events[..i];
      rest := rest + ClaimsOfStates(k, events[n], states);
    }
  }

  lemma {:induction false} ClaimsOfStatesFront(k: nat, e: Event, states: seq<State>, j: nat) returns (rest: seq<Claim>)
    requires j <= |states|
    ensures ClaimsOfStates(k, e, states) == ClaimsOfStates(k, e, states[..j]) + rest
    decreases |states|
  {
    if j == |states| {
      assert states[..j] == states;
      rest := [];
    } else {
      var n := |states| - 1;
      rest := ClaimsOfStatesFront(k, e, states[..n], j);
      assert states[..n][..j] == states[..j];
      rest := rest + [Claim(k, e, states[n])];
    }
  }

  /** What was met is a front part of all that is asked for. */
  lemma MetIsFront(infos: seq<ActionInfo>, k: nat, i: nat, j: nat) returns (rest: seq<Claim>)
    requires k < |infos| && i < |infos[k].events| && j <= |infos[k].states|
    ensures ClaimsOf(infos) == Met(infos, k, i, j) + rest
  {
    hide ClaimsOf, ClaimsOfEvents, ClaimsOfStates;
    var events, states := infos[k].events, infos[k].states;
    var r1 := ClaimsOfFront(infos, k + 1);
    OneMoreInfo(infos, k);
    var r2 := ClaimsOfEventsFront(k, events, states, i + 1);
    OneMoreEvent(k, events, states, i);
    var r3 := ClaimsOfStatesFront(k, events[i], states, j);
    rest := r3 + r2 + r1;
    Regroup(ClaimsOf(infos[..k]), ClaimsOfEvents(k, events[..i], states), ClaimsOfStates(k, events[i], states[..j]),
            r3, r2, r1);
  }

  lemma Regroup<T>(a: seq<T>, b: seq<T>, c: seq<T>, r3: seq<T>, r2: seq<T>, r1: seq<T>)
    ensures (a + (((b + (c + r3))) + r2)) + r1 == (a + b + c) + (r3 + r2 + r1)
  {
  }

  lemma MetState(infos: seq<ActionInfo>, k: nat, i: nat, j: nat)
    requires k < |infos| && i < |infos[k].events| && j < |infos[k].states|
    ensures Met(infos, k, i, j + 1) == Met(infos, k, i, j) + [Claim(k, infos[k].events[i], infos[k].states[j])]
  {
    hide ClaimsOf, ClaimsOfEvents, ClaimsOfStates;
    var events, states := infos[k].events, infos[k].states;
    OneMoreState(k, events[i], states, j);
    Associative(ClaimsOf(infos[..k]) + ClaimsOfEvents(k, events[..i], states),
                ClaimsOfStates(k, events[i], states[..j]), [Claim(k, events[i], states[j])]);
  }

  lemma MetEvent(infos: seq<ActionInfo>, k: nat, i: nat)
    requires k < |infos| && i < |infos[k].events|
    ensures Met(infos, k, i, |infos[k].states|) == Met(infos, k, i + 1, 0)
  {
    hide ClaimsOf, ClaimsOfEvents, ClaimsOfStates;
    var events, states := infos[k].events, infos[k].states;
    assert states[..|states|] == states && states[..0] == [];
    OneMoreEvent(k, events, states, i);
    if i + 1 < |events| { NoClaims(k, events[i + 1], states); }
    var front, after := ClaimsOf(infos[..k]), ClaimsOfEvents(k, events[..i + 1], states);
    Associative(front, ClaimsOfEvents(k, events[..i], states), ClaimsOfStates(k, events[i], states));
    assert front + after + [] == front + after;
  }

  lemma MetInfo(infos: seq<ActionInfo>, k: nat)
    requires k < |infos|
    ensures Met(infos, k, |infos[k].events|, 0) == Met(infos, k + 1, 0, 0)
  {
    hide ClaimsOf, ClaimsOfEvents, ClaimsOfStates;
    var events, states := infos[k].events, infos[k].states;
    assert events[..|events|] == events;
    OneMoreInfo(infos, k);
    var after := ClaimsOf(infos[..k + 1]);
    assert after + [] == after;
    if k + 1 == |infos| {
      assert infos[..k + 1] == infos;
    } else {
      var next := infos[k + 1];
      assert next.events[..0] == [] && next.states[..0] == [];
      NoClaims(k + 1, 0, next.states);
      if next.events != [] { NoClaims(k + 1, next.events[0], next.states); }
    }
  }

  // ----- the fill itself -----

  /** The records met so far, as `FirstInfo` sees them. */
  function Touched(infos: seq<ActionInfo>, k: nat, i: nat): (r: seq<ActionInfo>)
    requires (k < |infos| && i <= |infos[k].events|) || (k == |infos| && i == 0)
    ensures |r| == k + if i == 0 then 0 else 1
  {
    infos[..k] + if i == 0 then [] else [infos[k].(events := infos[k].events[..i])]
  }

  lemma FirstInfoOneMore(front: seq<ActionInfo>, info: ActionInfo, events: seq<Event>, x: Event, e: Event)
    requires info.events == events + [x]
    ensures var before := front + if events == [] then [] else [info.(events := events)];
            FirstInfo(front + [info], e) ==
            if FirstInfo(before, e).Some? then FirstInfo(before, e)
            else if e == x then Some(|front|) else None
  {
    assert (front + [info])[..|front|] == front;
    assert (front + [info.(events := events)])[..|front|] == front;
    assert front + [] == front;
  }

  lemma TouchedMore(infos: seq<ActionInfo>, k: nat, i: nat, e: Event)
    requires k < |infos| && i < |infos[k].events|
    ensures FirstInfo(Touched(infos, k, i + 1), e) ==
            if FirstInfo(Touched(infos, k, i), e).Some? then FirstInfo(Touched(infos, k, i), e)
            else if e == infos[k].events[i] then Some(k) else None
    ensures |Touched(infos, k, i)| <= |infos| && |Touched(infos, k, i + 1)| <= |infos|
  {
    var events := infos[k].events;
    FirstInfoOneMore(infos[..k], infos[k].(events := events[..i + 1]), events[..i], events[i], e);
  }

  lemma TouchedInfo(infos: seq<ActionInfo>, k: nat)
    requires k < |infos| && infos[k].events != []
    ensures Touched(infos, k, |infos[k].events|) == Touched(infos, k + 1, 0)
  {
    assert infos[k].events[..|infos[k].events|] == infos[k].events;
    assert infos[..k + 1] == infos[..k] + [infos[k]];
  }

  /** The states of one event fill the machine exactly when there are as many of them. */
  lemma CoversByCount(m: Machine, k: nat, i: nat)
    requires WellFormed(m) && k < |m.infos| && i < |m.infos[k].events|
    requires Clear(Met(m.infos, k, i + 1, 0))
    ensures |m.infos[k].states| == m.numStates <==> CoversAll(m.infos[k], m.numStates)
    ensures m.numStates > 0
  {
    var info := m.infos[k];
    assert WellFormedInfo(m, info);
    MetEvent(m.infos, k, i);
    assert info.states[..|info.states|] == info.states;
    ClearFront(ClaimsOf(m.infos[..k]) + ClaimsOfEvents(k, info.events[..i], info.states),
               ClaimsOfStates(k, info.events[i], info.states));
    ClearStates(k, info.events[i], info.states);
    AllStatesByCount(info.states, m.numStates);
    assert info.states[0] < m.numStates;
  }

  function IndexOf(k: Option<nat>): int {
    if k.Some? then k.value else -1
  }

  /** What is recorded of the events after some records were met. */
  ghost predicate SinglesReflect(single: seq<int>, all: seq<bool>, has: bool, m: Machine, met: seq<ActionInfo>)
    requires |met| <= |m.infos|
  {
    && |single| == |all| == m.numEvents
    && (forall e :: 0 <= e < m.numEvents ==> single[e] == IndexOf(FirstInfo(met, e)))
    && (forall e :: 0 <= e < m.numEvents ==>
          (all[e] <==> single[e] >= 0 && CoversAll(m.infos[FirstInfo(met, e).value], m.numStates)))
    && (has <==> exists e :: 0 <= e < m.numEvents && all[e])
  }

  /** What one more event of a record changes in what is recorded. */
  lemma MarkEvent(m: Machine, k: nat, i: nat, single: seq<int>, all: seq<bool>, has: bool)
    requires WellFormed(m) && k < |m.infos| && i < |m.infos[k].events|
    requires SinglesReflect(single, all, has, m, Touched(m.infos, k, i))
    ensures |single| == |all| == m.numEvents && m.infos[k].events[i] < m.numEvents
    ensures var e := m.infos[k].events[i];
            var after := if single[e] == -1 then single[e := k] else single;
            if after[e] == k && CoversAll(m.infos[k], m.numStates)
            then SinglesReflect(after, all[e := true], true, m, Touched(m.infos, k, i + 1))
            else SinglesReflect(after, all, has, m, Touched(m.infos, k, i + 1))
  {
    hide FirstInfo, Touched, CoversAll;
    assert WellFormedInfo(m, m.infos[k]);
    var e := m.infos[k].events[i];
    forall f | 0 <= f < m.numEvents
      ensures FirstInfo(Touched(m.infos, k, i + 1), f) ==
              if FirstInfo(Touched(m.infos, k, i), f).Some? then FirstInfo(Touched(m.infos, k, i), f)
              else if f == e then Some(k) else None
    {
      TouchedMore(m.infos, k, i, f);
    }
    TouchedMore(m.infos, k, i, e);
    assert all[e := true][e];
  }

  class ActionArray {
    const m: Machine
    /** The record in each cell, or -1. */
    const cell: array2<int>
    var eventsHandled: seq<seq<Event>>
    var handlingStates: seq<seq<State>>
    /** Of each event: the first record that names it, or -1, and whether that one fills every state. */
    var single: seq<int>
    var allStates: seq<bool>
    var hasSingle: bool

    /** The cells and the lists show exactly the claims met. */
    ghost predicate Shows(done: seq<Claim>)
      reads this, cell
    {
      && cell.Length0 == m.numEvents && cell.Length1 == m.numStates
      && |eventsHandled| == m.numStates && |handlingStates| == m.numEvents
      && (forall e, s :: 0 <= e < m.numEvents && 0 <= s < m.numStates ==> cell[e, s] == OwnerOf(done, e, s))
      && (forall s :: 0 <= s < m.numStates ==> eventsHandled[s] == EventsOf(done, s))
      && (forall e :: 0 <= e < m.numEvents ==> handlingStates[e] == StatesOf(done, e))
    }

    /** The array is filled from all records, none of which clash. */
    ghost predicate Populated()
      reads this, cell
    {
      && WellFormed(m) && Clear(ClaimsOf(m.infos))
      && Shows(ClaimsOf(m.infos))
      && SinglesReflect(single, allStates, hasSingle, m, m.infos)
    }

    constructor (m: Machine)
      ensures this.m == m && fresh(cell) && Shows([])
      ensures SinglesReflect(single, allStates, hasSingle, m, [])
    {
      this.m := m;
      cell := new int[m.numEvents, m.numStates]((e, s) => -1);
      eventsHandled := seq(m.numStates, s => []);
      handlingStates := seq(m.numEvents, e => []);
      single := seq(m.numEvents, e => -1);
      allStates := seq(m.numEvents, e => false);
      hasSingle := false;
    }

    /** Puts one record into one cell, unless the cell is taken. */
    method AddToActionArray(k: nat, e: Event, s: State, ghost done: seq<Claim>) returns (error: bool)
      requires e < m.numEvents && s < m.numStates && Shows(done)
      modifies cell, this`eventsHandled, this`handlingStates
      ensures error == Taken(done, e, s)
      ensures !error ==> Shows(done + [Claim(k, e, s)])
    {
      hide OwnerOf, EventsOf, StatesOf;
      OwnerTakes(done, e, s);
      error := cell[e, s] >= 0;
      if !error {
        ghost var next := done + [Claim(k, e, s)];
        ListsGrow(done, Claim(k, e, s));
        cell[e, s] := k;
        eventsHandled := eventsHandled[s := AddUnique(eventsHandled[s], e)];
        handlingStates := handlingStates[e := AddUnique(handlingStates[e], s)];
      }
    }

    /** Puts one record into the cells of one of its events. */
    method AddStates(k: nat, i: nat) returns (error: bool, count: nat)
      requires WellFormed(m) && k < |m.infos| && i < |m.infos[k].events| && |single| == m.numEvents
      requires var met := Met(m.infos, k, i, 0);
               Clear(met) && Shows(met)
      modifies cell, this`eventsHandled, this`handlingStates
      ensures !error ==> count == if single[m.infos[k].events[i]] == k then |m.infos[k].states| else 0
      ensures error ==> !Clear(ClaimsOf(m.infos))
      ensures !error ==> var met := Met(m.infos, k, i + 1, 0); Clear(met) && Shows(met)
    {
      hide OwnerOf, EventsOf, StatesOf, Met, Shows;
      assert WellFormedInfo(m, m.infos[k]);
      var e, states := m.infos[k].events[i], m.infos[k].states;
      error, count := false, 0;
      for j := 0 to |states|
        invariant !error && count == if single[e] == k then j else 0
        invariant Clear(Met(m.infos, k, i, j)) && Shows(Met(m.infos, k, i, j))
      {
        ghost var met := Met(m.infos, k, i, j);
        MetState(m.infos, k, i, j);
        ClearLast(met, Claim(k, e, states[j]));
        error := AddToActionArray(k, e, states[j], met);
        if error {
          ghost var rest := MetIsFront(m.infos, k, i, j + 1);
          if Clear(ClaimsOf(m.infos)) { ClearFront(met + [Claim(k, e, states[j])], rest); }
          return;
        }
        if single[e] == k {
          count := count + 1;
        }
      }
      MetEvent(m.infos, k, i);
    }

    /** Meets one event of a record. */
    method IterateMatrixStates(k: nat, i: nat) returns (error: bool)
      requires WellFormed(m) && k < |m.infos| && i < |m.infos[k].events|
      requires Clear(Met(m.infos, k, i, 0)) && Shows(Met(m.infos, k, i, 0))
      requires SinglesReflect(single, allStates, hasSingle, m, Touched(m.infos, k, i))
      modifies cell, this
      ensures error ==> !Clear(ClaimsOf(m.infos))
      ensures !error ==> Clear(Met(m.infos, k, i + 1, 0)) && Shows(Met(m.infos, k, i + 1, 0))
      ensures !error ==> SinglesReflect(single, allStates, hasSingle, m, Touched(m.infos, k, i + 1))
    {
      hide Met, ClaimsOf, FirstInfo, Touched, CoversAll, SinglesReflect;
      assert WellFormedInfo(m, m.infos[k]);
      var e := m.infos[k].events[i];
      var count := 0;
      MarkEvent(m, k, i, single, allStates, hasSingle);
      if single[e] == -1 {
        single := single[e := k];
      }
      error, count := AddStates(k, i);
      if !error {
        CoversByCount(m, k, i);
        if count == m.numStates {
          allStates := allStates[e := true];
          hasSingle := true;
        }
      }
    }

    /** Meets one record. */
    method ProcessActionInfo(k: nat) returns (error: bool)
      requires WellFormed(m) && k < |m.infos|
      requires Clear(Met(m.infos, k, 0, 0)) && Shows(Met(m.infos, k, 0, 0))
      requires SinglesReflect(single, allStates, hasSingle, m, Touched(m.infos, k, 0))
      modifies cell, this
      ensures error ==> !Clear(ClaimsOf(m.infos))
      ensures !error ==> Clear(Met(m.infos, k + 1, 0, 0)) && Shows(Met(m.infos, k + 1, 0, 0))
      ensures !error ==> SinglesReflect(single, allStates, hasSingle, m, Touched(m.infos, k + 1, 0))
    {
      hide Met, ClaimsOf, FirstInfo, Touched, SinglesReflect;
      error := false;
      assert WellFormedInfo(m, m.infos[k]);
      for i := 0 to |m.infos[k].events|
        invariant Clear(Met(m.infos, k, i, 0)) && Shows(Met(m.infos, k, i, 0))
        invariant SinglesReflect(single, allStates, hasSingle, m, Touched(m.infos, k, i))
      {
        error := IterateMatrixStates(k, i);
        if error { return; }
      }
      MetInfo(m.infos, k);
      TouchedInfo(m.infos, k);
    }

    /** Fills the array, or answers that two records claim the same cell. */
    method Populate() returns (error: bool)
      requires WellFormed(m) && Shows([])
      requires SinglesReflect(single, allStates, hasSingle, m, [])
      modifies cell, this
      ensures error == !Clear(ClaimsOf(m.infos))
      ensures !error ==> Populated()
    {
      hide Shows, SinglesReflect, Met, Touched, ClaimsOf, Clear;
      error := false;
      NothingMet(m.infos);
      for k := 0 to |m.infos|
        invariant Clear(Met(m.infos, k, 0, 0)) && Shows(Met(m.infos, k, 0, 0))
        invariant SinglesReflect(single, allStates, hasSingle, m, Touched(m.infos, k, 0))
      {
        error := ProcessActionInfo(k);
        if error { return; }
      }
      AllMet(m.infos);
    }
  }

  lemma AllMet(infos: seq<ActionInfo>)
    ensures Met(infos, |infos|, 0, 0) == ClaimsOf(infos) && Touched(infos, |infos|, 0) == infos
  {
  }

  lemma NothingMet(infos: seq<ActionInfo>)
    ensures Met(infos, 0, 0, 0) == [] && Touched(infos, 0, 0) == [] && Clear([])
  {
    if infos != [] {
      assert infos[..0] == [] && infos[0].events[..0] == [] && infos[0].states[..0] == [];
    }
  }

  /** What a generator finds in a filled array. */
  lemma OwnerIsCell(infos: seq<ActionInfo>, e: Event, s: State)
    requires Clear(ClaimsOf(infos))
    ensures OwnerOf(ClaimsOf(infos), e, s) == IndexOf(Cell(infos, e, s))
  {
    var all := ClaimsOf(infos);
    OwnerTakes(all, e, s);
    OwnerClaims(infos, e, s);
    if OwnerOf(all, e, s) >= 0 {
      ClaimOwnsCell(infos, Claim(OwnerOf(all, e, s), e, s));
    }
  }

  lemma HandledByState(infos: seq<ActionInfo>, e: Event, s: State)
    ensures e in EventsOf(ClaimsOf(infos), s) <==> Cell(infos, e, s).Some?
    ensures s in StatesOf(ClaimsOf(infos), e) <==> Cell(infos, e, s).Some?
  {
    InEventsOf(ClaimsOf(infos), e, s);
    InStatesOf(ClaimsOf(infos), e, s);
    OwnerClaims(infos, e, s);
  }

  lemma SinglesFound(a: ActionArray, e: Event)
    requires a.Populated() && e < a.m.numEvents
    ensures a.allStates[e] == Single(a.m, e)
    ensures a.hasSingle == AnySingle(a.m)
    ensures Single(a.m, e) ==> a.single[e] == FirstInfo(a.m.infos, e).value
  {
    assert forall f :: 0 <= f < a.m.numEvents ==> (a.allStates[f] <==> Single(a.m, f));
  }

  /** No event and no state is listed twice. */
  lemma {:induction false} EventsOfDistinct(claims: seq<Claim>, s: State)
    ensures forall i, j :: 0 <= i < j < |EventsOf(claims, s)| ==> EventsOf(claims, s)[i] != EventsOf(claims, s)[j]
    decreases |claims|
  {
    if claims != [] { EventsOfDistinct(claims[..|claims| - 1], s); }
  }

  lemma {:induction false} StatesOfDistinct(claims: seq<Claim>, e: Event)
    ensures forall i, j :: 0 <= i < j < |StatesOf(claims, e)| ==> StatesOf(claims, e)[i] != StatesOf(claims, e)[j]
    decreases |claims|
  {
    if claims != [] { StatesOfDistinct(claims[..|claims| - 1], e); }
  }
}
