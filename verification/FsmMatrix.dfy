/** A machine as its description gives it: action records, each for a matrix of events and states. */
module FsmMatrix {
  import opened Wrappers

  type Event = nat
  type State = nat

  /** An action without a name is the silent one. */
  datatype Action = NoAction | Act(id: nat)

  datatype Transition = Stay | To(state: State) | Call(fn: nat)

  datatype ActionInfo = ActionInfo(action: Action, transition: Transition, events: seq<Event>, states: seq<State>)

  /** What runs on a change of state: the machine's own function, exit functions and entry functions. */
  datatype Hooks = Hooks(machine: bool, exits: set<State>, entries: set<State>)

  datatype Machine = Machine(numEvents: nat, numStates: nat, infos: seq<ActionInfo>, hooks: Hooks)

  predicate ExecutesOnTransition(h: Hooks) {
    h.machine || h.exits != {} || h.entries != {}
  }

  predicate WellFormed(m: Machine) {
    forall k :: 0 <= k < |m.infos| ==> WellFormedInfo(m, m.infos[k])
  }

  predicate WellFormedInfo(m: Machine, info: ActionInfo) {
    && info.events != [] && info.states != []
    && (forall i :: 0 <= i < |info.events| ==> info.events[i] < m.numEvents)
    && (forall i :: 0 <= i < |info.states| ==> info.states[i] < m.numStates)
    && (info.transition.To? ==> info.transition.state < m.numStates)
    && (info.action != NoAction || info.transition != Stay)
  }

  /** One cell that a record asks for. */
  datatype Claim = Claim(info: nat, event: Event, state: State)

  function ClaimsOfStates(k: nat, e: Event, states: seq<State>): seq<Claim> {
    if states == [] then []
    else ClaimsOfStates(k, e, states[..|states| - 1]) + [Claim(k, e, states[|states| - 1])]
  }

  function ClaimsOfEvents(k: nat, events: seq<Event>, states: seq<State>): seq<Claim> {
    if events == [] then []
    else ClaimsOfEvents(k, events[..|events| - 1], states) + ClaimsOfStates(k, events[|events| - 1], states)
  }

  function ClaimsOf(infos: seq<ActionInfo>): seq<Claim> {
    if infos == [] then []
    else
      var k := |infos| - 1;
      ClaimsOf(infos[..k]) + ClaimsOfEvents(k, infos[k].events, infos[k].states)
  }

  lemma OneMoreState(k: nat, e: Event, states: seq<State>, j: nat)
    requires j < |states|
    ensures ClaimsOfStates(k, e, states[..j + 1]) == ClaimsOfStates(k, e, states[..j]) + [Claim(k, e, states[j])]
  {
    assert states[..j + 1][..j] == states[..j];
  }

  lemma OneMoreEvent(k: nat, events: seq<Event>, states: seq<State>, i: nat)
    requires i < |events|
    ensures ClaimsOfEvents(k, events[..i + 1], states) ==
            ClaimsOfEvents(k, events[..i], states) + ClaimsOfStates(k, events[i], states)
  {
    assert events[..i + 1][..i] == events[..i];
  }

  lemma OneMoreInfo(infos: seq<ActionInfo>, k: nat)
    requires k < |infos|
    ensures ClaimsOf(infos[..k + 1]) == ClaimsOf(infos[..k]) + ClaimsOfEvents(k, infos[k].events, infos[k].states)
  {
    assert infos[..k + 1][..k] == infos[..k];
  }

  lemma NoClaims(k: nat, e: Event, states: seq<State>)
    ensures ClaimsOfStates(k, e, []) == [] && ClaimsOfEvents(k, [], states) == [] && ClaimsOf([]) == []
  {
  }

  predicate SameCell(a: Claim, b: Claim) {
    a.event == b.event && a.state == b.state
  }

  predicate Taken(claims: seq<Claim>, e: Event, s: State) {
    exists i :: 0 <= i < |claims| && claims[i].event == e && claims[i].state == s
  }

  /** No cell is asked for twice. */
  predicate Clear(claims: seq<Claim>) {
    forall i, j :: 0 <= i < j < |claims| ==> !SameCell(claims[i], claims[j])
  }

  predicate Covers(info: ActionInfo, e: Event, s: State) {
    e in info.events && s in info.states
  }

  /** The record that owns a cell. */
  function Cell(infos: seq<ActionInfo>, e: Event, s: State): (r: Option<nat>)
    ensures r.Some? ==> r.value < |infos| && Covers(infos[r.value], e, s)
    ensures r.None? ==> forall k :: 0 <= k < |infos| ==> !Covers(infos[k], e, s)
  {
    if infos == [] then None
    else
      var k := |infos| - 1;
      if Covers(infos[k], e, s) then Some(k) else Cell(infos[..k], e, s)
  }

  /** The first record that names an event. */
  function FirstInfo(infos: seq<ActionInfo>, e: Event): (r: Option<nat>)
    ensures r.Some? ==> r.value < |infos| && e in infos[r.value].events
    ensures r.Some? ==> forall k :: 0 <= k < r.value ==> e !in infos[k].events
    ensures r.None? ==> forall k :: 0 <= k < |infos| ==> e !in infos[k].events
  {
    if infos == [] then None
    else
      var k := |infos| - 1;
      var front := FirstInfo(infos[..k], e);
      if front.Some? then front else if e in infos[k].events then Some(k) else None
  }

  predicate CoversAll(info: ActionInfo, numStates: nat) {
    forall s :: 0 <= s < numStates ==> s in info.states
  }

  /** The event is handled identically in all states. */
  predicate Single(m: Machine, e: Event) {
    var k := FirstInfo(m.infos, e);
    k.Some? && CoversAll(m.infos[k.value], m.numStates)
  }

  predicate AnySingle(m: Machine) {
    exists e :: 0 <= e < m.numEvents && Single(m, e)
  }

  // ----- claims and cells -----

  lemma {:induction false} InClaimsOfStates(k: nat, e: Event, states: seq<State>, c: Claim)
    ensures c in ClaimsOfStates(k, e, states) <==> c.info == k && c.event == e && c.state in states
    decreases |states|
  {
    if states != [] {
      InClaimsOfStates(k, e, states[..|states| - 1], c);
      assert states == states[..|states| - 1] + [states[|states| - 1]];
    }
  }

  lemma {:induction false} InClaimsOfEvents(k: nat, events: seq<Event>, states: seq<State>, c: Claim)
    ensures c in ClaimsOfEvents(k, events, states) <==> c.info == k && c.event in events && c.state in states
    decreases |events|
  {
    if events != [] {
      InClaimsOfEvents(k, events[..|events| - 1], states, c);
      InClaimsOfStates(k, events[|events| - 1], states, c);
      assert events == events[..|events| - 1] + [events[|events| - 1]];
    }
  }

  lemma {:induction false} InClaims(infos: seq<ActionInfo>, c: Claim)
    ensures c in ClaimsOf(infos) <==> c.info < |infos| && Covers(infos[c.info], c.event, c.state)
    decreases |infos|
  {
    if infos != [] {
      var k := |infos| - 1;
      InClaims(infos[..k], c);
      InClaimsOfEvents(k, infos[k].events, infos[k].states, c);
    }
  }

  /** A cell that is asked for once belongs to whoever asks. */
  lemma ClaimOwnsCell(infos: seq<ActionInfo>, c: Claim)
    requires Clear(ClaimsOf(infos)) && c in ClaimsOf(infos)
    ensures Cell(infos, c.event, c.state) == Some(c.info)
  {
    InClaims(infos, c);
    var owner := Cell(infos, c.event, c.state);
    var d := Claim(owner.value, c.event, c.state);
    InClaims(infos, d);
    var all := ClaimsOf(infos);
    var i :| 0 <= i < |all| && all[i] == c;
    var j :| 0 <= j < |all| && all[j] == d;
    assert SameCell(all[i], all[j]) && SameCell(all[j], all[i]);
  }

  lemma OwnerClaims(infos: seq<ActionInfo>, e: Event, s: State)
    ensures Cell(infos, e, s).Some? ==> Claim(Cell(infos, e, s).value, e, s) in ClaimsOf(infos)
    ensures Cell(infos, e, s).None? <==> !Taken(ClaimsOf(infos), e, s)
  {
    var owner := Cell(infos, e, s);
    var all := ClaimsOf(infos);
    if owner.Some? {
      InClaims(infos, Claim(owner.value, e, s));
      var i :| 0 <= i < |all| && all[i] == Claim(owner.value, e, s);
    } else if Taken(all, e, s) {
      var i :| 0 <= i < |all| && all[i].event == e && all[i].state == s;
      InClaims(infos, all[i]);
    }
  }

  /** An event handled identically in all states has one record in every cell. */
  lemma SingleCells(m: Machine, e: Event, s: State)
    requires Clear(ClaimsOf(m.infos)) && s < m.numStates && Single(m, e)
    ensures Cell(m.infos, e, s) == FirstInfo(m.infos, e)
  {
    var c := Claim(FirstInfo(m.infos, e).value, e, s);
    InClaims(m.infos, c);
    ClaimOwnsCell(m.infos, c);
  }

  /** A record that owns a cell of such an event makes every event it names such an event. */
  lemma SingleSpreads(m: Machine, e: Event, s: State, f: Event)
    requires WellFormed(m) && Clear(ClaimsOf(m.infos)) && s < m.numStates
    requires Single(m, f) && Cell(m.infos, e, s) == Cell(m.infos, f, s) && Cell(m.infos, e, s).Some?
    ensures Single(m, e)
  {
    SingleCells(m, f, s);
    var k := Cell(m.infos, e, s).value;
    var first := FirstInfo(m.infos, e);
    if first.value < k {
      assert WellFormedInfo(m, m.infos[first.value]);
      ApartInStates(m, e, first.value, k, m.infos[first.value].states[0]);
    }
  }

  lemma ApartInStates(m: Machine, e: Event, j: nat, k: nat, s: State)
    requires Clear(ClaimsOf(m.infos))
    requires j < k < |m.infos| && e in m.infos[j].events && e in m.infos[k].events && s in m.infos[j].states
    ensures s !in m.infos[k].states
  {
    if s in m.infos[k].states {
      InClaims(m.infos, Claim(j, e, s));
      InClaims(m.infos, Claim(k, e, s));
      ClaimOwnsCell(m.infos, Claim(j, e, s));
      ClaimOwnsCell(m.infos, Claim(k, e, s));
    }
  }
}
