/** The single-switch back end: one switch over combined event and state, with consolidated bodies. */
module FsmSingleSwitch {
  import opened Wrappers
  import opened FsmMatrix
  import opened FsmConsolidate
  import opened FsmProgram

  // ----- combined keys -----

  /** Bitwise or of two unsigned numbers. */
  function BitOr(a: nat, b: nat): nat {
    if a == 0 then b
    else if b == 0 then a
    else 2 * BitOr(a / 2, b / 2) + if a % 2 == 1 || b % 2 == 1 then 1 else 0
  }

  function Pow2(bits: nat): (r: nat)
    ensures r > 0
  {
    if bits == 0 then 1 else 2 * Pow2(bits - 1)
  }

  /** The key of a cell: the event is shifted past the state. A top-level machine shifts by half the size of
      an unsigned long long, counted in bytes, which makes 4 bits; a sub-machine shifts by 16. */
  function Combine(bits: nat, e: Event, s: State): nat {
    BitOr(e * Pow2(bits), s)
  }

  const TOP_LEVEL_SHIFT := 8 / 2
  const SUB_MACHINE_SHIFT := 16

  lemma {:induction false} OrIntoZeros(e: nat, bits: nat, s: nat)
    requires s < Pow2(bits)
    ensures BitOr(e * Pow2(bits), s) == e * Pow2(bits) + s
    decreases bits
  {
    if bits > 0 && e > 0 && s > 0 {
      var half := e * Pow2(bits - 1);
      assert e * Pow2(bits) == 2 * half;
      OrIntoZeros(e, bits - 1, s / 2);
      assert (2 * half) / 2 == half && (2 * half) % 2 == 0;
    }
  }

  /** One bit of a number, the lowest at 0. */
  predicate Bit(a: nat, i: nat) {
    if i == 0 then a % 2 == 1 else Bit(a / 2, i - 1)
  }

  lemma {:induction false} OrOfBits(a: nat, b: nat, i: nat)
    ensures Bit(BitOr(a, b), i) <==> Bit(a, i) || Bit(b, i)
    decreases i
  {
    NoBits(i);
    if a > 0 && b > 0 {
      var low := if a % 2 == 1 || b % 2 == 1 then 1 else 0;
      var r := BitOr(a, b);
      assert r / 2 == BitOr(a / 2, b / 2) && r % 2 == low;
      if i > 0 { OrOfBits(a / 2, b / 2, i - 1); }
    }
  }

  lemma {:induction false} NoBits(i: nat)
    ensures !Bit(0, i)
    decreases i
  {
    if i > 0 { NoBits(i - 1); }
  }

  lemma {:induction false} ShiftedBit(e: nat, bits: nat, i: nat)
    ensures Bit(e * Pow2(bits), i) <==> i >= bits && Bit(e, i - bits)
    decreases bits
  {
    if bits > 0 {
      var half := e * Pow2(bits - 1);
      assert e * Pow2(bits) == 2 * half;
      assert (2 * half) / 2 == half && (2 * half) % 2 == 0;
      if i > 0 { ShiftedBit(e, bits - 1, i - 1); }
    }
  }

  /** The bits of a key are those of the event, moved up, and those of the state. */
  lemma KeyBits(bits: nat, e: Event, s: State, i: nat)
    ensures Bit(Combine(bits, e, s), i) <==> (i >= bits && Bit(e, i - bits)) || Bit(s, i)
  {
    OrOfBits(e * Pow2(bits), s, i);
    ShiftedBit(e, bits, i);
  }

  lemma NextMultiple(e: nat, f: nat, p: nat)
    requires e < f
    ensures e * p + p <= f * p
  {
    var d := f - e - 1;
    assert f * p == (e + 1 + d) * p == e * p + p + d * p;
  }

  lemma Separate(e: nat, s: nat, f: nat, t: nat, p: nat)
    requires s < p && t < p && e * p + s == f * p + t
    ensures e == f && s == t
  {
    if e < f {
      NextMultiple(e, f, p);
    } else if f < e {
      NextMultiple(f, e, p);
    }
  }

  /** Different cells of the machine have different keys. */
  predicate KeysDiffer(m: Machine, bits: nat) {
    forall e, s, f, t ::
      0 <= e < m.numEvents && 0 <= s < m.numStates && 0 <= f < m.numEvents && 0 <= t < m.numStates ==>
      Combine(bits, e, s) == Combine(bits, f, t) ==> e == f && s == t
  }

  /** Exactly when the keys of all cells differ: the states fit the shift, or there is one event at most. */
  lemma KeysDifferWhen(m: Machine, bits: nat)
    ensures KeysDiffer(m, bits) <==> m.numStates <= Pow2(bits) || m.numEvents <= 1
  {
    var p := Pow2(bits);
    if m.numStates <= p {
      forall e: Event, s: State, f: Event, t: State |
        e < m.numEvents && s < m.numStates && f < m.numEvents && t < m.numStates &&
        Combine(bits, e, s) == Combine(bits, f, t)
        ensures e == f && s == t
      {
        OrIntoZeros(e, bits, s);
        OrIntoZeros(f, bits, t);
        Separate(e, s, f, t, p);
      }
    } else if m.numEvents <= 1 {
      assert forall s: State :: Combine(bits, 0, s) == s;
    } else {
      assert Combine(bits, 0, p) == p && Combine(bits, 1, 0) == p;
    }
  }

  lemma ShiftsAre()
    ensures Pow2(TOP_LEVEL_SHIFT) == 16 && Pow2(SUB_MACHINE_SHIFT) == 65536
  {
    assert Pow2(4) == 16;
    assert Pow2(8) == 16 * Pow2(4);
    assert Pow2(12) == 16 * Pow2(8);
    assert Pow2(16) == 16 * Pow2(12);
  }

  // ----- generating -----

  function Key(bits: nat, c: Claim): nat {
    Combine(bits, c.event, c.state)
  }

  function Labels(bits: nat, claims: seq<Claim>): (r: seq<Item<nat>>)
    ensures |r| == |claims| && forall i :: 0 <= i < |r| ==> r[i] == Case(Key(bits, claims[i]))
  {
    if claims == [] then []
    else Labels(bits, claims[..|claims| - 1]) + [Case(Key(bits, claims[|claims| - 1]))]
  }

  /** All labels of a record's matrices, then one body. */
  function Cases(bits: nat, infos: seq<ActionInfo>, records: seq<Record>): seq<Item<nat>>
    requires InRange(infos, records) && forall r :: 0 <= r < |records| ==> records[r].info < |infos|
  {
    if records == [] then []
    else
      var r := records[|records| - 1];
      Cases(bits, infos, records[..|records| - 1]) + Labels(bits, MatrixClaims(infos, r.matrices)) +
      [BodyOf(infos[r.info])]
  }

  lemma LabelsBoth(bits: nat, a: seq<Claim>, b: seq<Claim>)
    ensures Labels(bits, a + b) == Labels(bits, a) + Labels(bits, b)
  {
  }

  lemma NothingYet(bits: nat, k: nat, e: Event, events: seq<Event>, states: seq<State>)
    ensures Labels(bits, ClaimsOfStates(k, e, states[..0])) == []
    ensures Labels(bits, ClaimsOfEvents(k, events[..0], states)) == []
  {
    assert states[..0] == [] && events[..0] == [];
  }

  lemma OneLabel(bits: nat, c: Claim)
    ensures Labels(bits, [c]) == [Case(Combine(bits, c.event, c.state))]
  {
    assert [c][..0] == [];
  }

  /** Prints the labels of one matrix: every event with every state. */
  method PrintMatrix(bits: nat, k: nat, events: seq<Event>, states: seq<State>) returns (items: seq<Item<nat>>)
    ensures items == Labels(bits, ClaimsOfEvents(k, events, states))
  {
    hide Labels, ClaimsOfStates, ClaimsOfEvents, Combine;
    items := [];
    NothingYet(bits, k, 0, events, states);
    for i := 0 to |events|
      invariant items == Labels(bits, ClaimsOfEvents(k, events[..i], states))
    {
      ghost var claims := ClaimsOfEvents(k, events[..i], states);
      var e := events[i];
      NothingYet(bits, k, e, events, states);
      assert claims + ClaimsOfStates(k, e, states[..0]) == claims;
      for j := 0 to |states|
        invariant items == Labels(bits, claims + ClaimsOfStates(k, e, states[..j]))
      {
        items := items + [Case(Combine(bits, e, states[j]))];
        OneMoreState(k, e, states, j);
        OneLabel(bits, Claim(k, e, states[j]));
        LabelsBoth(bits, claims + ClaimsOfStates(k, e, states[..j]), [Claim(k, e, states[j])]);
        Associative(claims, ClaimsOfStates(k, e, states[..j]), [Claim(k, e, states[j])]);
      }
      assert states[..|states|] == states;
      OneMoreEvent(k, events, states, i);
    }
    assert events[..|events|] == events;
  }

  method PrintRecord(bits: nat, infos: seq<ActionInfo>, r: Record) returns (items: seq<Item<nat>>)
    requires r.info < |infos| && forall i :: 0 <= i < |r.matrices| ==> r.matrices[i] < |infos|
    ensures items == Labels(bits, MatrixClaims(infos, r.matrices)) + [BodyOf(infos[r.info])]
  {
    items := [];
    for i := 0 to |r.matrices|
      invariant items == Labels(bits, MatrixClaims(infos, r.matrices[..i]))
    {
      var k := r.matrices[i];
      var more := PrintMatrix(bits, k, infos[k].events, infos[k].states);
      assert r.matrices[..i + 1][..i] == r.matrices[..i];
      LabelsBoth(bits, MatrixClaims(infos, r.matrices[..i]), ClaimsOfEvents(k, infos[k].events, infos[k].states));
      items := items + more;
    }
    assert r.matrices[..|r.matrices|] == r.matrices;
    items := items + [BodyOf(infos[r.info])];
  }

  ghost predicate IsSingleSwitch(m: Machine, bits: nat, items: seq<Item<nat>>) {
    exists records: seq<Record> ::
      && Consolidates(m.infos, records, |m.infos|)
      && InRange(m.infos, records) && (forall r :: 0 <= r < |records| ==> records[r].info < |m.infos|)
      && items == Cases(bits, m.infos, records)
  }

  method DefineSingleSwitch(m: Machine, bits: nat) returns (items: seq<Item<nat>>)
    ensures IsSingleSwitch(m, bits, items)
  {
    var records := ConsolidateActionInfoList(m.infos);
    items := [];
    RecordsInRange(m.infos, records);
    assert records[..0] == [];
    for n := 0 to |records|
      invariant items == Cases(bits, m.infos, records[..n])
    {
      var more := PrintRecord(bits, m.infos, records[n]);
      assert records[..n + 1][..n] == records[..n];
      items := items + more;
    }
    assert records[..|records|] == records;
  }

  lemma RecordsInRange(infos: seq<ActionInfo>, records: seq<Record>)
    requires Consolidates(infos, records, |infos|)
    ensures InRange(infos, records) && forall r :: 0 <= r < |records| ==> records[r].info < |infos|
  {
    forall r | 0 <= r < |records|
      ensures records[r].info < |infos|
      ensures forall i :: 0 <= i < |records[r].matrices| ==> records[r].matrices[i] < |infos|
    {
      assert WellRecorded(infos, records[r], |infos|);
    }
  }

  // ----- what the switch selects -----

  lemma {:induction false} EnterEarly(a: seq<Item<nat>>, b: seq<Item<nat>>, key: nat, i: nat)
    requires i <= |a| && Enter(a, key, i) < |a|
    ensures Enter(a + b, key, i) == Enter(a, key, i)
    decreases |a| - i
  {
    if a[i] != Case(key) { EnterEarly(a, b, key, i + 1); }
  }

  lemma {:induction false} BodyEarly(a: seq<Item<nat>>, b: seq<Item<nat>>, i: nat)
    requires i <= |a| && BodyFrom(a, i).Some?
    ensures BodyFrom(a + b, i) == BodyFrom(a, i)
    decreases |a| - i
  {
    if !a[i].Body? { BodyEarly(a, b, i + 1); }
  }

  /** From a label of a record control falls to the record's body. */
  lemma {:induction false} FallThroughLabels(bits: nat, claims: seq<Claim>, body: Item<nat>, i: nat)
    requires i <= |claims| && body.Body?
    ensures BodyFrom(Labels(bits, claims) + [body], i) == Some(body)
    decreases |claims| - i
  {
    if i < |claims| { FallThroughLabels(bits, claims, body, i + 1); }
  }

  lemma SelectedEarly(a: seq<Item<nat>>, b: seq<Item<nat>>, key: nat)
    requires Selected(a, key).Some?
    ensures Selected(a + b, key) == Selected(a, key)
  {
    EnterEarly(a, b, key, 0);
    BodyEarly(a, b, Enter(a, key, 0));
  }

  lemma SelectedLate(a: seq<Item<nat>>, b: seq<Item<nat>>, key: nat)
    requires Enter(a, key, 0) == |a|
    ensures Selected(a + b, key) == Selected(b, key)
  {
    EnterFinds(a, key, 0);
    EnterShift(a, b, key, 0);
    BodyAfter(a, b, Enter(b, key, 0));
  }

  /** One record's lines: a label of one of its claims selects its body, any other key nothing. */
  lemma RecordSelects(bits: nat, claims: seq<Claim>, body: Item<nat>, key: nat)
    requires body.Body?
    ensures var part := Labels(bits, claims) + [body];
            if exists c :: c in claims && Key(bits, c) == key then Selected(part, key) == Some(body)
            else Enter(part, key, 0) == |part|
  {
    var part := Labels(bits, claims) + [body];
    EnterFinds(part, key, 0);
    var i := Enter(part, key, 0);
    if i < |part| {
      assert part[i] == Case(Key(bits, claims[i])) && claims[i] in claims;
      FallThroughLabels(bits, claims, body, i);
    } else if c :| c in claims && Key(bits, c) == key {
      var j :| 0 <= j < |claims| && claims[j] == c;
      LabelAt(bits, claims, body, j);
    }
  }

  lemma LabelAt(bits: nat, claims: seq<Claim>, body: Item<nat>, j: nat)
    requires j < |claims|
    ensures (Labels(bits, claims) + [body])[j] == Case(Key(bits, claims[j]))
  {
  }

  /** A key that is printed selects the body of the action record that claims the key; no other key selects. */
  lemma {:induction false} CasesSelect(bits: nat, infos: seq<ActionInfo>, records: seq<Record>, key: nat)
    returns (claim: Option<Claim>)
    requires InRange(infos, records) && forall r :: 0 <= r < |records| ==> records[r].info < |infos|
    requires forall r :: 0 <= r < |records| ==> WellRecorded(infos, records[r], |infos|)
    ensures claim.Some? ==>
              && claim.value in RecordClaims(infos, records) && Key(bits, claim.value) == key
              && claim.value.info < |infos|
              && Selected(Cases(bits, infos, records), key) == Some(BodyOf(infos[claim.value.info]))
    ensures claim.None? ==>
              && (forall c :: c in RecordClaims(infos, records) ==> Key(bits, c) != key)
              && Enter(Cases(bits, infos, records), key, 0) == |Cases(bits, infos, records)|
    decreases |records|
  {
    claim := None;
    if records == [] {
      LastRecord(bits, infos, records);
    } else {
      hide Selected, Key, Enter, Labels, Cases, MatrixClaims, RecordClaims;
      LastRecord(bits, infos, records);
      var n := |records| - 1;
      var r := records[n];
      claim := CasesSelect(bits, infos, records[..n], key);
      var front := Cases(bits, infos, records[..n]);
      var claims, body := MatrixClaims(infos, r.matrices), BodyOf(infos[r.info]);
      var part := Labels(bits, claims) + [body];
      RecordSelects(bits, claims, body, key);
      if claim.Some? {
        SelectedEarly(front, part, key);
      } else {
        SelectedLate(front, part, key);
        if c :| c in claims && Key(bits, c) == key {
          claim := Some(c);
          InMatrixClaims(infos, r.matrices, c);
          assert WellRecorded(infos, r, |infos|);
        } else {
          EnterBoth(front, part, key);
        }
      }
    }
  }

  lemma EnterBoth(a: seq<Item<nat>>, b: seq<Item<nat>>, key: nat)
    requires Enter(a, key, 0) == |a| && Enter(b, key, 0) == |b|
    ensures Enter(a + b, key, 0) == |a + b|
  {
    EnterFinds(a, key, 0);
    EnterShift(a, b, key, 0);
  }

  /** No two filled cells share a key. */
  ghost predicate FilledKeysDiffer(m: Machine, bits: nat) {
    forall c, d :: c in ClaimsOf(m.infos) && d in ClaimsOf(m.infos) && Key(bits, c) == Key(bits, d) ==> c == d
  }

  /** No empty cell of the machine shares a key with a filled one. */
  ghost predicate EmptyKeysApart(m: Machine, bits: nat) {
    forall c, e: Event, s: State ::
      c in ClaimsOf(m.infos) && e < m.numEvents && s < m.numStates && Key(bits, c) == Combine(bits, e, s) ==>
      Cell(m.infos, e, s).Some?
  }

  /** The switch selects what the cell's own action record says, or nothing. */
  predicate SelectsCell(m: Machine, bits: nat, items: seq<Item<nat>>, e: Event, s: State) {
    var cell := Cell(m.infos, e, s);
    Selected(items, Combine(bits, e, s)) == if cell.None? then None else Some(BodyOf(m.infos[cell.value]))
  }

  /** A key selects the body of the record that claims it, or nothing when no record does. */
  lemma SwitchSelects(m: Machine, bits: nat, items: seq<Item<nat>>, key: nat) returns (claim: Option<Claim>)
    requires IsSingleSwitch(m, bits, items)
    ensures claim.Some? ==>
              && claim.value in ClaimsOf(m.infos) && Key(bits, claim.value) == key && claim.value.info < |m.infos|
              && Selected(items, key) == Some(BodyOf(m.infos[claim.value.info]))
    ensures claim.None? ==>
              && (forall c :: c in ClaimsOf(m.infos) ==> Key(bits, c) != key)
              && Selected(items, key).None?
  {
    hide Selected, ClaimsOf, RecordClaims, Key, Cases;
    var records: seq<Record> :|
      && Consolidates(m.infos, records, |m.infos|)
      && InRange(m.infos, records) && (forall r :: 0 <= r < |records| ==> records[r].info < |m.infos|)
      && items == Cases(bits, m.infos, records);
    claim := CasesSelect(bits, m.infos, records, key);
    forall c
      ensures c in RecordClaims(m.infos, records) <==> c in ClaimsOf(m.infos)
    {
      ConsolidationKeepsClaims(m.infos, records, c);
    }
    if claim.None? { NotEntered(items, key); }
  }

  /** When no two filled cells share a key, the switch is right in every cell exactly when no empty cell shares
      a key with a filled one. */
  lemma SwitchSelectsCell(m: Machine, bits: nat, items: seq<Item<nat>>)
    requires WellFormed(m) && Clear(ClaimsOf(m.infos)) && FilledKeysDiffer(m, bits)
    requires IsSingleSwitch(m, bits, items)
    ensures (forall e: Event, s: State | e < m.numEvents && s < m.numStates :: SelectsCell(m, bits, items, e, s)) <==>
              EmptyKeysApart(m, bits)
  {
    hide Selected, ClaimsOf, IsSingleSwitch, Combine, Clear;
    if EmptyKeysApart(m, bits) {
      forall e: Event, s: State | e < m.numEvents && s < m.numStates
        ensures SelectsCell(m, bits, items, e, s)
      {
        ApartSelects(m, bits, items, e, s);
      }
    } else {
      var c, e: Event, s: State :|
        && c in ClaimsOf(m.infos) && e < m.numEvents && s < m.numStates && Key(bits, c) == Combine(bits, e, s)
        && Cell(m.infos, e, s).None?;
      var claim := SwitchSelects(m, bits, items, Combine(bits, e, s));
      assert !SelectsCell(m, bits, items, e, s);
    }
  }

  lemma ApartSelects(m: Machine, bits: nat, items: seq<Item<nat>>, e: Event, s: State)
    requires WellFormed(m) && Clear(ClaimsOf(m.infos)) && FilledKeysDiffer(m, bits) && EmptyKeysApart(m, bits)
    requires IsSingleSwitch(m, bits, items) && e < m.numEvents && s < m.numStates
    ensures SelectsCell(m, bits, items, e, s)
  {
    hide Selected, ClaimsOf, IsSingleSwitch, Combine, Clear;
    OwnerClaims(m.infos, e, s);
    var claim := SwitchSelects(m, bits, items, Combine(bits, e, s));
    var cell := Cell(m.infos, e, s);
    if cell.Some? {
      assert claim.Some? && claim.value == Claim(cell.value, e, s) by {
        assert Key(bits, Claim(cell.value, e, s)) == Combine(bits, e, s);
      }
    }
  }

  /** Different keys for all cells are more than enough. */
  lemma DifferentKeysSuffice(m: Machine, bits: nat)
    requires WellFormed(m) && Clear(ClaimsOf(m.infos)) && KeysDiffer(m, bits)
    ensures FilledKeysDiffer(m, bits) && EmptyKeysApart(m, bits)
  {
    hide ClaimsOf, Combine, Clear;
    forall c | c in ClaimsOf(m.infos)
      ensures c.event < m.numEvents && c.state < m.numStates && Cell(m.infos, c.event, c.state) == Some(c.info)
    {
      ClaimFits(m, c);
      ClaimOwnsCell(m.infos, c);
    }
  }

  /** Beyond 16 states a machine that compiles may go wrong: with 17 states, where only the cell of event 0 and
      state 16 is filled, event 1 in state 0 has the key of that cell and runs its record. */
  lemma EmptyCellRuns(items: seq<Item<nat>>)
    requires IsSingleSwitch(Seventeen(), TOP_LEVEL_SHIFT, items)
    ensures DistinctLabels(items) && Cell(Seventeen().infos, 1, 0).None?
    ensures Selected(items, Combine(TOP_LEVEL_SHIFT, 1, 0)) == Some(BodyOf(Seventeen().infos[0]))
  {
    hide Selected, IsSingleSwitch, DistinctLabels, Combine, ClaimsOf;
    var m := Seventeen();
    OneClaim();
    SixteenTwice();
    var only := Claim(0, 0, 16);
    assert only in ClaimsOf(m.infos) && Key(TOP_LEVEL_SHIFT, only) == Combine(TOP_LEVEL_SHIFT, 1, 0);
    SingleSwitchCompiles(m, TOP_LEVEL_SHIFT, items);
    var claim := SwitchSelects(m, TOP_LEVEL_SHIFT, items, Combine(TOP_LEVEL_SHIFT, 1, 0));
  }

  lemma OneClaim()
    ensures WellFormed(Seventeen()) && ClaimsOf(Seventeen().infos) == [Claim(0, 0, 16)]
    ensures Cell(Seventeen().infos, 1, 0).None?
  {
    var infos := Seventeen().infos;
    assert infos[..0] == [] && [0 as Event][..0] == [] && [16 as State][..0] == [];
    assert ClaimsOfStates(0, 0, [16]) == [Claim(0, 0, 16)];
    assert ClaimsOfEvents(0, [0], [16]) == [Claim(0, 0, 16)];
    assert 0 !in [16 as State];
  }

  lemma SixteenTwice()
    ensures Combine(TOP_LEVEL_SHIFT, 0, 16) == Combine(TOP_LEVEL_SHIFT, 1, 0)
  {
    ShiftsAre();
    assert 0 * Pow2(TOP_LEVEL_SHIFT) == 0 && 1 * Pow2(TOP_LEVEL_SHIFT) == 16;
    assert BitOr(0, 16) == 16 && BitOr(16, 0) == 16;
  }

  function Seventeen(): Machine {
    Machine(2, 17, [ActionInfo(Act(7), Stay, [0], [16])], Hooks(false, {}, {}))
  }

  lemma NotEntered(items: seq<Item<nat>>, key: nat)
    requires Enter(items, key, 0) == |items|
    ensures Selected(items, key).None?
  {
  }

  lemma ClaimFits(m: Machine, c: Claim)
    requires WellFormed(m) && c in ClaimsOf(m.infos)
    ensures c.event < m.numEvents && c.state < m.numStates
  {
    InClaims(m.infos, c);
    assert WellFormedInfo(m, m.infos[c.info]);
  }

  // ----- no label twice -----

  lemma {:induction false} LabelsOfCases(bits: nat, infos: seq<ActionInfo>, records: seq<Record>, j: nat)
    returns (i: nat)
    requires InRange(infos, records) && forall r :: 0 <= r < |records| ==> records[r].info < |infos|
    requires j < |Cases(bits, infos, records)| && Cases(bits, infos, records)[j].Case?
    ensures i < |RecordClaims(infos, records)|
    ensures Cases(bits, infos, records)[j].key == Key(bits, RecordClaims(infos, records)[i])
    decreases |records|
  {
    hide Key;
    var n := |records| - 1;
    var front := Cases(bits, infos, records[..n]);
    var claims := MatrixClaims(infos, records[n].matrices);
    if j < |front| {
      i := LabelsOfCases(bits, infos, records[..n], j);
    } else {
      i := |RecordClaims(infos, records[..n])| + (j - |front|);
    }
  }

  /** No two claims share a key. */
  predicate KeysOnce(bits: nat, claims: seq<Claim>) {
    forall i, j :: 0 <= i < j < |claims| ==> Key(bits, claims[i]) != Key(bits, claims[j])
  }

  lemma KeysOnceParts(bits: nat, a: seq<Claim>, b: seq<Claim>)
    requires KeysOnce(bits, a + b)
    ensures KeysOnce(bits, a) && KeysOnce(bits, b)
    ensures forall i, j :: 0 <= i < |a| && 0 <= j < |b| ==> Key(bits, a[i]) != Key(bits, b[j])
  {
    hide Key;
    var all := a + b;
    assert forall i :: 0 <= i < |a| ==> all[i] == a[i];
    assert forall j :: 0 <= j < |b| ==> b[j] == all[|a| + j];
  }

  lemma LabelsDistinct(bits: nat, claims: seq<Claim>, body: Item<nat>)
    requires KeysOnce(bits, claims) && body.Body?
    ensures DistinctLabels(Labels(bits, claims) + [body])
  {
  }

  lemma DistinctJoined(a: seq<Item<nat>>, b: seq<Item<nat>>)
    requires DistinctLabels(a) && DistinctLabels(b)
    requires forall i, j :: 0 <= i < |a| && 0 <= j < |b| && a[i].Case? && b[j].Case? ==> a[i].key != b[j].key
    ensures DistinctLabels(a + b)
  {
  }

  lemma LastRecord(bits: nat, infos: seq<ActionInfo>, records: seq<Record>)
    requires InRange(infos, records) && forall r :: 0 <= r < |records| ==> records[r].info < |infos|
    ensures records == [] ==> Cases(bits, infos, records) == [] && RecordClaims(infos, records) == []
    ensures records != [] ==>
              var n := |records| - 1;
              var claims := MatrixClaims(infos, records[n].matrices);
              && RecordClaims(infos, records) == RecordClaims(infos, records[..n]) + claims
              && Cases(bits, infos, records) ==
                 Cases(bits, infos, records[..n]) + (Labels(bits, claims) + [BodyOf(infos[records[n].info])])
  {
  }

  lemma {:induction false} CasesDistinct(bits: nat, infos: seq<ActionInfo>, records: seq<Record>)
    requires InRange(infos, records) && forall r :: 0 <= r < |records| ==> records[r].info < |infos|
    requires KeysOnce(bits, RecordClaims(infos, records))
    ensures DistinctLabels(Cases(bits, infos, records))
    decreases |records|
  {
    hide Key, KeysOnce, Cases, RecordClaims, MatrixClaims, Labels;
    LastRecord(bits, infos, records);
    if records != [] {
      hide DistinctLabels;
      var n := |records| - 1;
      var r := records[n];
      var before, claims := RecordClaims(infos, records[..n]), MatrixClaims(infos, r.matrices);
      var front, part := Cases(bits, infos, records[..n]), Labels(bits, claims) + [BodyOf(infos[r.info])];
      KeysOnceParts(bits, before, claims);
      CasesDistinct(bits, infos, records[..n]);
      LabelsDistinct(bits, claims, BodyOf(infos[r.info]));
      forall i, j | 0 <= i < |front| && 0 <= j < |part| && front[i].Case? && part[j].Case?
        ensures front[i].key != part[j].key
      {
        var k := LabelsOfCases(bits, infos, records[..n], i);
        assert j < |claims| && part[j] == Case(Key(bits, claims[j]));
      }
      DistinctJoined(front, part);
    }
  }

  lemma {:induction false} CaseOfLabel(bits: nat, infos: seq<ActionInfo>, records: seq<Record>, i: nat) returns (j: nat)
    requires InRange(infos, records) && forall r :: 0 <= r < |records| ==> records[r].info < |infos|
    requires i < |RecordClaims(infos, records)|
    ensures j < |Cases(bits, infos, records)|
    ensures Cases(bits, infos, records)[j] == Case(Key(bits, RecordClaims(infos, records)[i]))
    decreases |records|
  {
    hide Key;
    var n := |records| - 1;
    var before := RecordClaims(infos, records[..n]);
    var front := Cases(bits, infos, records[..n]);
    if i < |before| {
      j := CaseOfLabel(bits, infos, records[..n], i);
    } else {
      j := |front| + (i - |before|);
    }
  }

  lemma KeysOnceJoined(bits: nat, a: seq<Claim>, b: seq<Claim>)
    requires KeysOnce(bits, a) && KeysOnce(bits, b)
    requires forall i, j :: 0 <= i < |a| && 0 <= j < |b| ==> Key(bits, a[i]) != Key(bits, b[j])
    ensures KeysOnce(bits, a + b)
  {
  }

  lemma DistinctParts(a: seq<Item<nat>>, b: seq<Item<nat>>)
    requires DistinctLabels(a + b)
    ensures DistinctLabels(a) && DistinctLabels(b)
    ensures forall i, j :: 0 <= i < |a| && 0 <= j < |b| && a[i].Case? && b[j].Case? ==> a[i].key != b[j].key
  {
    var all := a + b;
    assert forall i :: 0 <= i < |a| ==> all[i] == a[i];
    assert forall j :: 0 <= j < |b| ==> b[j] == all[|a| + j];
  }

  lemma LabelsOnce(bits: nat, claims: seq<Claim>, body: Item<nat>)
    requires body.Body? && DistinctLabels(Labels(bits, claims) + [body])
    ensures KeysOnce(bits, claims)
  {
    var part := Labels(bits, claims) + [body];
    assert forall i :: 0 <= i < |claims| ==> part[i] == Case(Key(bits, claims[i]));
  }

  lemma {:induction false} KeysOnceFromCases(bits: nat, infos: seq<ActionInfo>, records: seq<Record>)
    requires InRange(infos, records) && forall r :: 0 <= r < |records| ==> records[r].info < |infos|
    requires DistinctLabels(Cases(bits, infos, records))
    ensures KeysOnce(bits, RecordClaims(infos, records))
    decreases |records|
  {
    hide Key, DistinctLabels, Cases, RecordClaims, MatrixClaims, Labels;
    LastRecord(bits, infos, records);
    if records != [] {
      hide KeysOnce;
      var n := |records| - 1;
      var r := records[n];
      var before, claims := RecordClaims(infos, records[..n]), MatrixClaims(infos, r.matrices);
      var front, part := Cases(bits, infos, records[..n]), Labels(bits, claims) + [BodyOf(infos[r.info])];
      DistinctParts(front, part);
      KeysOnceFromCases(bits, infos, records[..n]);
      LabelsOnce(bits, claims, BodyOf(infos[r.info]));
      forall i, j | 0 <= i < |before| && 0 <= j < |claims|
        ensures Key(bits, before[i]) != Key(bits, claims[j])
      {
        var k := CaseOfLabel(bits, infos, records[..n], i);
        assert part[j] == Case(Key(bits, claims[j]));
      }
      KeysOnceJoined(bits, before, claims);
    }
  }

  lemma KeysOnceIsFilled(m: Machine, bits: nat, claims: seq<Claim>)
    requires Clear(claims) && forall c :: c in claims <==> c in ClaimsOf(m.infos)
    ensures KeysOnce(bits, claims) <==> FilledKeysDiffer(m, bits)
  {
    hide ClaimsOf, Combine;
    if FilledKeysDiffer(m, bits) {
      forall i, j | 0 <= i < j < |claims|
        ensures Key(bits, claims[i]) != Key(bits, claims[j])
      {
        assert !SameCell(claims[i], claims[j]) && claims[i] in claims && claims[j] in claims;
      }
    }
  }

  /** Exactly when no label is printed twice, so that the switch compiles: no two filled cells share a key. */
  lemma SingleSwitchCompiles(m: Machine, bits: nat, items: seq<Item<nat>>)
    requires WellFormed(m) && Clear(ClaimsOf(m.infos)) && IsSingleSwitch(m, bits, items)
    ensures DistinctLabels(items) <==> FilledKeysDiffer(m, bits)
  {
    hide ClaimsOf, RecordClaims, Combine, Cases, DistinctLabels, FilledKeysDiffer, KeysOnce, Clear;
    var records: seq<Record> :|
      && Consolidates(m.infos, records, |m.infos|)
      && InRange(m.infos, records) && (forall r :: 0 <= r < |records| ==> records[r].info < |m.infos|)
      && items == Cases(bits, m.infos, records);
    RecordClaimsClear(m.infos, records, |records|);
    assert records[..|records|] == records;
    var all := RecordClaims(m.infos, records);
    forall c
      ensures c in all <==> c in ClaimsOf(m.infos)
    {
      ConsolidationKeepsClaims(m.infos, records, c);
    }
    KeysOnceIsFilled(m, bits, all);
    if FilledKeysDiffer(m, bits) {
      CasesDistinct(bits, m.infos, records);
    }
    if DistinctLabels(items) {
      KeysOnceFromCases(bits, m.infos, records);
    }
  }

  /** Up to 16 states, or 65536 in a sub-machine, every single switch compiles and is right in every cell. */
  lemma SmallMachinesCompile(m: Machine, bits: nat, items: seq<Item<nat>>, e: Event, s: State)
    requires WellFormed(m) && Clear(ClaimsOf(m.infos)) && IsSingleSwitch(m, bits, items)
    requires (bits == TOP_LEVEL_SHIFT && m.numStates <= 16) || (bits == SUB_MACHINE_SHIFT && m.numStates <= 65536)
    requires e < m.numEvents && s < m.numStates
    ensures DistinctLabels(items) && SelectsCell(m, bits, items, e, s)
  {
    hide ClaimsOf, IsSingleSwitch, DistinctLabels, SelectsCell, Combine, Clear;
    ShiftsAre();
    KeysDifferWhen(m, bits);
    DifferentKeysSuffice(m, bits);
    SingleSwitchCompiles(m, bits, items);
    ApartSelects(m, bits, items, e, s);
  }
}
