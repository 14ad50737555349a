/** Consolidating action records that share action, transition and event list. */
module FsmConsolidate {
  import opened FsmMatrix
  import opened FsmPopulate

  /** A consolidated record: the first action record of its kind, and all whose matrices it takes over. */
  datatype Record = Record(info: nat, matrices: seq<nat>)

  /** Two action records of one kind. */
  predicate Alike(a: ActionInfo, b: ActionInfo) {
    a.action == b.action && a.transition == b.transition && a.events == b.events
  }

  /** The records are consolidated from the first `k` action records. */
  ghost predicate Consolidates(infos: seq<ActionInfo>, records: seq<Record>, k: nat)
    requires k <= |infos|
  {
    && (forall r :: 0 <= r < |records| ==> WellRecorded(infos, records[r], k))
    && (forall q, r :: 0 <= q < r < |records| ==> !Alike(infos[records[q].info], infos[records[r].info]))
    && (forall j :: 0 <= j < k ==> Held(records, j))
  }

  /** Some record took the action record over. */
  predicate Held(records: seq<Record>, j: nat) {
    exists r :: 0 <= r < |records| && j in records[r].matrices
  }

  /** A record holds action records of its own kind, none twice. */
  ghost predicate WellRecorded(infos: seq<ActionInfo>, r: Record, k: nat)
    requires k <= |infos|
  {
    && r.info < k && r.matrices != []
    && (forall i :: 0 <= i < |r.matrices| ==> r.matrices[i] < k && Alike(infos[r.matrices[i]], infos[r.info]))
    && (forall i, j :: 0 <= i < j < |r.matrices| ==> r.matrices[i] != r.matrices[j])
  }

  /** Walks two event lists side by side. */
  method MatricesHaveSameEvents(a: seq<Event>, b: seq<Event>) returns (same: bool)
    ensures same == (a == b)
  {
    if |a| != |b| { return false; }
    var i := 0;
    while i < |a|
      invariant i <= |a| && a[..i] == b[..i]
    {
      if a[i] != b[i] { return false; }
      i := i + 1;
    }
    return true;
  }

  /** Looks for the record of a kind and adds the matrix to it. */
  method ConsolidateRecords(infos: seq<ActionInfo>, records: seq<Record>, k: nat)
    returns (found: bool, after: seq<Record>)
    requires k < |infos| && Consolidates(infos, records, k)
    ensures found ==> Consolidates(infos, after, k + 1) && |after| == |records|
    ensures !found ==> after == records && forall r :: 0 <= r < |records| ==> !Alike(infos[records[r].info], infos[k])
  {
    found, after := false, records;
    for r := 0 to |records|
      invariant !found && after == records
      invariant forall q :: 0 <= q < r ==> !Alike(infos[records[q].info], infos[k])
    {
      assert WellRecorded(infos, records[r], k);
      var head := infos[records[r].info];
      var same := MatricesHaveSameEvents(head.events, infos[k].events);
      if head.action == infos[k].action && head.transition == infos[k].transition && same {
        after := records[r := Record(records[r].info, AddUnique(records[r].matrices, k))];
        TakenOver(infos, records, after, r, k);
        return true, after;
      }
    }
  }

  lemma TakenOver(infos: seq<ActionInfo>, records: seq<Record>, after: seq<Record>, r: nat, k: nat)
    requires k < |infos| && r < |records| && Consolidates(infos, records, k)
    requires Alike(infos[records[r].info], infos[k])
    requires after == records[r := Record(records[r].info, AddUnique(records[r].matrices, k))]
    ensures Consolidates(infos, after, k + 1)
  {
    assert WellRecorded(infos, records[r], k);
    forall q | 0 <= q < |after|
      ensures WellRecorded(infos, after[q], k + 1) && after[q].info == records[q].info
    {
      assert WellRecorded(infos, records[q], k);
      hide Alike;
    }
    hide Alike, WellRecorded;
    forall j | 0 <= j < k + 1
      ensures Held(after, j)
    {
      if j == k { assert k in after[r].matrices; } else { HeldOn(records, after, j); }
    }
  }

  lemma HeldOn(records: seq<Record>, after: seq<Record>, j: nat)
    requires Held(records, j) && |records| <= |after|
    requires forall q, i :: 0 <= q < |records| && i in records[q].matrices ==> i in after[q].matrices
    ensures Held(after, j)
  {
    var q :| 0 <= q < |records| && j in records[q].matrices;
    assert j in after[q].matrices;
  }

  lemma NewRecord(infos: seq<ActionInfo>, records: seq<Record>, k: nat)
    requires k < |infos| && Consolidates(infos, records, k)
    requires forall r :: 0 <= r < |records| ==> !Alike(infos[records[r].info], infos[k])
    ensures Consolidates(infos, records + [Record(k, [k])], k + 1)
  {
    var after := records + [Record(k, [k])];
    forall q | 0 <= q < |after|
      ensures WellRecorded(infos, after[q], k + 1)
    {
      if q < |records| { assert WellRecorded(infos, records[q], k); }
      hide Alike;
    }
    hide Alike, WellRecorded;
    forall j | 0 <= j < k + 1
      ensures Held(after, j)
    {
      if j == k { assert k in after[|records|].matrices; } else { HeldOn(records, after, j); }
    }
  }

  method ConsolidateActionInfoList(infos: seq<ActionInfo>) returns (records: seq<Record>)
    ensures Consolidates(infos, records, |infos|)
  {
    hide WellRecorded, Alike;
    records := [];
    for k := 0 to |infos|
      invariant Consolidates(infos, records, k)
    {
      var found, after := ConsolidateRecords(infos, records, k);
      if found {
        records := after;
      } else {
        NewRecord(infos, records, k);
        records := records + [Record(k, [k])];
      }
    }
  }

  // ----- the cells of consolidated records -----

  /** The claims of a record's matrices, in the order in which they are printed. */
  function MatrixClaims(infos: seq<ActionInfo>, matrices: seq<nat>): seq<Claim>
    requires forall i :: 0 <= i < |matrices| ==> matrices[i] < |infos|
  {
    if matrices == [] then []
    else
      var k := matrices[|matrices| - 1];
      MatrixClaims(infos, matrices[..|matrices| - 1]) + ClaimsOfEvents(k, infos[k].events, infos[k].states)
  }

  predicate InRange(infos: seq<ActionInfo>, records: seq<Record>) {
    forall r, i :: 0 <= r < |records| && 0 <= i < |records[r].matrices| ==> records[r].matrices[i] < |infos|
  }

  function RecordClaims(infos: seq<ActionInfo>, records: seq<Record>): seq<Claim>
    requires InRange(infos, records)
  {
    if records == [] then []
    else
      RecordClaims(infos, records[..|records| - 1]) + MatrixClaims(infos, records[|records| - 1].matrices)
  }

  lemma {:induction false} InMatrixClaims(infos: seq<ActionInfo>, matrices: seq<nat>, c: Claim)
    requires forall i :: 0 <= i < |matrices| ==> matrices[i] < |infos|
    ensures c in MatrixClaims(infos, matrices) <==>
              c.info in matrices && c.info < |infos| && Covers(infos[c.info], c.event, c.state)
    decreases |matrices|
  {
    if matrices != [] {
      var n := |matrices| - 1;
      InMatrixClaims(infos, matrices[..n], c);
      var k := matrices[n];
      InClaimsOfEvents(k, infos[k].events, infos[k].states, c);
      assert matrices == matrices[..n] + [k];
    }
  }

  lemma HeldLast(records: seq<Record>, r: Record, j: nat)
    ensures Held(records + [r], j) <==> Held(records, j) || j in r.matrices
  {
    var all := records + [r];
    assert all[|records|] == r;
    if Held(records, j) { HeldOn(records, all, j); }
  }

  lemma {:induction false} InRecordClaims(infos: seq<ActionInfo>, records: seq<Record>, c: Claim)
    requires InRange(infos, records)
    ensures c in RecordClaims(infos, records) <==>
              Held(records, c.info) && c.info < |infos| && Covers(infos[c.info], c.event, c.state)
    decreases |records|
  {
    if records != [] {
      hide Covers, Held;
      var n := |records| - 1;
      InRecordClaims(infos, records[..n], c);
      InMatrixClaims(infos, records[n].matrices, c);
      assert records == records[..n] + [records[n]];
      HeldLast(records[..n], records[n], c.info);
    }
  }

  /** Consolidation loses no cell and moves none: the same claims, in another order. */
  lemma ConsolidationKeepsClaims(infos: seq<ActionInfo>, records: seq<Record>, c: Claim)
    requires Consolidates(infos, records, |infos|)
    ensures InRange(infos, records)
    ensures c in RecordClaims(infos, records) <==> c in ClaimsOf(infos)
  {
    forall r, i | 0 <= r < |records| && 0 <= i < |records[r].matrices|
      ensures records[r].matrices[i] < |infos|
    {
      assert WellRecorded(infos, records[r], |infos|);
    }
    InRecordClaims(infos, records, c);
    InClaims(infos, c);
  }

  lemma {:induction false} EventClaimsClear(infos: seq<ActionInfo>, k: nat)
    requires k < |infos| && Clear(ClaimsOf(infos))
    ensures Clear(ClaimsOfEvents(k, infos[k].events, infos[k].states))
  {
    var rest := ClaimsOfFront(infos, k + 1);
    assert infos[..k + 1][..k] == infos[..k];
    var front, own := ClaimsOf(infos[..k]), ClaimsOfEvents(k, infos[k].events, infos[k].states);
    assert ClaimsOf(infos) == (front + own) + rest;
    ClearFront(front + own, rest);
    ClearFront(front, own);
  }

  /** Claims of different action records never meet in a cell. */
  lemma ClearTogether(infos: seq<ActionInfo>, a: seq<Claim>, b: seq<Claim>)
    requires Clear(ClaimsOf(infos)) && Clear(a) && Clear(b)
    requires forall c :: c in a || c in b ==> c in ClaimsOf(infos)
    requires forall c, d :: c in a && d in b ==> c.info != d.info
    ensures Clear(a + b)
  {
    var all := a + b;
    forall i, j | 0 <= i < j < |all|
      ensures !SameCell(all[i], all[j])
    {
      if i < |a| <= j {
        ClaimOwnsCell(infos, a[i]);
        ClaimOwnsCell(infos, b[j - |a|]);
        assert a[i] in a && b[j - |a|] in b;
      } else if j < |a| {
        assert !SameCell(a[i], a[j]);
      } else {
        assert !SameCell(b[i - |a|], b[j - |a|]);
      }
    }
  }

  lemma {:induction false} MatrixClaimsClear(infos: seq<ActionInfo>, matrices: seq<nat>)
    requires Clear(ClaimsOf(infos))
    requires forall i :: 0 <= i < |matrices| ==> matrices[i] < |infos|
    requires forall i, j :: 0 <= i < j < |matrices| ==> matrices[i] != matrices[j]
    ensures Clear(MatrixClaims(infos, matrices))
    decreases |matrices|
  {
    if matrices != [] {
      hide Clear, ClaimsOf, Covers;
      var n := |matrices| - 1;
      var k := matrices[n];
      MatrixClaimsClear(infos, matrices[..n]);
      EventClaimsClear(infos, k);
      var a, b := MatrixClaims(infos, matrices[..n]), ClaimsOfEvents(k, infos[k].events, infos[k].states);
      forall c
        ensures c in a ==> c in ClaimsOf(infos) && c.info != k
        ensures c in b ==> c in ClaimsOf(infos) && c.info == k
      {
        InMatrixClaims(infos, matrices[..n], c);
        InClaimsOfEvents(k, infos[k].events, infos[k].states, c);
        InClaims(infos, c);
        assert c.event in infos[k].events && c.state in infos[k].states ==> Covers(infos[k], c.event, c.state) by {
          CoversMeans(infos[k], c.event, c.state);
        }
      }
      ClearTogether(infos, a, b);
    } else {
      assert MatrixClaims(infos, matrices) == [];
    }
  }

  lemma CoversMeans(info: ActionInfo, e: Event, s: State)
    ensures Covers(info, e, s) <==> e in info.events && s in info.states
  {
  }

  /** No cell is printed twice. */
  lemma {:induction false} RecordClaimsClear(infos: seq<ActionInfo>, records: seq<Record>, n: nat)
    requires Clear(ClaimsOf(infos)) && Consolidates(infos, records, |infos|) && n <= |records|
    ensures InRange(infos, records[..n]) && Clear(RecordClaims(infos, records[..n]))
    decreases n
  {
    hide Clear, ClaimsOf, Covers, Alike, Held;
    if n > 0 {
      RecordClaimsClear(infos, records, n - 1);
      assert records[..n][..n - 1] == records[..n - 1];
      var r := records[n - 1];
      assert WellRecorded(infos, r, |infos|);
      MatrixClaimsClear(infos, r.matrices);
      var a, b := RecordClaims(infos, records[..n - 1]), MatrixClaims(infos, r.matrices);
      forall c
        ensures c in a ==> c in ClaimsOf(infos) && c.info !in r.matrices
        ensures c in b ==> c in ClaimsOf(infos) && c.info in r.matrices
      {
        InRecordClaims(infos, records[..n - 1], c);
        InMatrixClaims(infos, r.matrices, c);
        InClaims(infos, c);
        if c.info in r.matrices { HeldOnce(infos, records, n - 1, c.info); }
      }
      ClearTogether(infos, a, b);
    } else {
      assert RecordClaims(infos, records[..0]) == [];
      NothingClashes();
    }
  }

  lemma NothingClashes()
    ensures Clear([])
  {
  }

  lemma HeldOnce(infos: seq<ActionInfo>, records: seq<Record>, n: nat, j: nat)
    requires Consolidates(infos, records, |infos|) && n < |records| && j in records[n].matrices
    ensures !Held(records[..n], j)
  {
    hide WellRecorded, Alike;
    if Held(records[..n], j) {
      var q :| 0 <= q < n && j in records[..n][q].matrices;
      OneKind(infos, records[q], records[n], j);
    }
  }

  lemma OneKind(infos: seq<ActionInfo>, q: Record, r: Record, j: nat)
    requires WellRecorded(infos, q, |infos|) && WellRecorded(infos, r, |infos|)
    requires j in q.matrices && j in r.matrices
    ensures Alike(infos[q.info], infos[r.info])
  {
  }
}
