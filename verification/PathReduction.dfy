/** The counter scans that decide which segments survive, and the stack reduction they compute. */
module PathReduction {

  datatype Kind = Normal | Current | Back

  /** An empty segment compares equal to any string over zero characters, so it counts as current. */
  function KindOf(s: string): Kind {
    if s == "" || s == "." then Current else if s == ".." then Back else Normal
  }

  // ----- the scans, with the counter they carry -----

  /** The scan over the segments before a "..", nearest first. */
  predicate BackScan(before: seq<string>, counter: int) {
    if before == [] then false
    else
      var rest, s := before[..|before| - 1], before[|before| - 1];
      match KindOf(s)
      case Normal => counter + 1 > 0 || BackScan(rest, counter + 1)
      case Back => BackScan(rest, counter - 1)
      case Current => BackScan(rest, counter)
  }

  /** The scan over the segments after a normal one. */
  predicate NormalScan(after: seq<string>, counter: int) {
    if after == [] then false
    else
      match KindOf(after[0])
      case Normal => NormalScan(after[1..], counter + 1)
      case Back => counter - 1 < 0 || NormalScan(after[1..], counter - 1)
      case Current => NormalScan(after[1..], counter)
  }

  predicate WillBeRemoved(before: seq<string>, s: string, after: seq<string>, absolute: bool) {
    match KindOf(s)
    case Current => true
    case Back => absolute || BackScan(before, 0)
    case Normal => NormalScan(after, 0)
  }

  /** The segments among the first `k` that survive in the whole list. */
  function VisibleUpTo(all: seq<string>, k: nat, absolute: bool): (r: seq<string>)
    requires k <= |all|
  {
    if k == 0 then []
    else VisibleUpTo(all, k - 1, absolute) +
         if WillBeRemoved(all[..k - 1], all[k - 1], all[k..], absolute) then [] else [all[k - 1]]
  }

  lemma VisibleStep(all: seq<string>, before: seq<string>, cur: string, after: seq<string>, absolute: bool)
    requires all == before + [cur] + after
    ensures VisibleUpTo(all, |before| + 1, absolute) ==
            VisibleUpTo(all, |before|, absolute) + if WillBeRemoved(before, cur, after, absolute) then [] else [cur]
  {
    var k := |before|;
    assert all[..k] == before && all[k] == cur && all[k + 1..] == after;
  }

  // ----- the reference: one stack, left to right -----

  predicate TopIsNormal(stack: seq<string>) {
    stack != [] && KindOf(stack[|stack| - 1]) == Normal
  }

  function Push(stack: seq<string>, s: string, absolute: bool): seq<string> {
    match KindOf(s)
    case Current => stack
    case Normal => stack + [s]
    case Back =>
      if TopIsNormal(stack) then stack[..|stack| - 1]
      else if absolute then stack
      else stack + [s]
  }

  function ReduceFrom(stack: seq<string>, segs: seq<string>, absolute: bool): seq<string>
    decreases |segs|
  {
    if segs == [] then stack
    else ReduceFrom(Push(stack, segs[0], absolute), segs[1..], absolute)
  }

  function Reduce(segs: seq<string>, absolute: bool): seq<string> {
    ReduceFrom([], segs, absolute)
  }

  lemma {:induction false} ReduceFromAppend(stack: seq<string>, a: seq<string>, b: seq<string>, absolute: bool)
    ensures ReduceFrom(stack, a + b, absolute) == ReduceFrom(ReduceFrom(stack, a, absolute), b, absolute)
    decreases |a|
  {
    if a == [] {
      assert a + b == b;
    } else {
      assert (a + b)[1..] == a[1..] + b;
      ReduceFromAppend(Push(stack, a[0], absolute), a[1..], b, absolute);
    }
  }

  lemma ReduceLast(segs: seq<string>, s: string, absolute: bool)
    ensures Reduce(segs + [s], absolute) == Push(Reduce(segs, absolute), s, absolute)
  {
    ReduceFromAppend([], segs, [s], absolute);
    assert ReduceFrom(Reduce(segs, absolute), [s], absolute) == Push(Reduce(segs, absolute), s, absolute);
  }

  // ----- the scans agree with the stack -----

  /** How many normal segments the list still pops from what stands before it. */
  function Pops(after: seq<string>): nat {
    if after == [] then 0
    else
      var d := Pops(after[1..]);
      match KindOf(after[0])
      case Current => d
      case Back => d + 1
      case Normal => if d == 0 then 0 else d - 1
  }

  /** How many normal segments lie on top of the stack. */
  function TopNormals(stack: seq<string>): (n: nat)
    ensures n <= |stack|
  {
    if TopIsNormal(stack) then 1 + TopNormals(stack[..|stack| - 1]) else 0
  }

  /** The stack without its top `d` normal segments, or without all of them. */
  function Drop(stack: seq<string>, d: nat): seq<string> {
    if d > 0 && TopIsNormal(stack) then Drop(stack[..|stack| - 1], d - 1) else stack
  }

  lemma {:induction false} NormalScanCountsPops(after: seq<string>, counter: nat)
    ensures NormalScan(after, counter) <==> Pops(after) > counter
    decreases |after|
  {
    if after != [] {
      match KindOf(after[0])
      case Normal => NormalScanCountsPops(after[1..], counter + 1);
      case Back => if counter > 0 { NormalScanCountsPops(after[1..], counter - 1); }
      case Current => NormalScanCountsPops(after[1..], counter);
    }
  }

  lemma {:induction false} BackScanCountsTop(before: seq<string>, counter: int)
    requires counter <= 0
    ensures BackScan(before, counter) <==> TopNormals(Reduce(before, false)) + counter > 0
    decreases |before|
  {
    if before != [] {
      var rest, s := before[..|before| - 1], before[|before| - 1];
      assert before == rest + [s];
      ReduceLast(rest, s, false);
      var stack := Reduce(rest, false);
      match KindOf(s)
      case Normal =>
        assert (stack + [s])[..|stack|] == stack;
        if counter < 0 { BackScanCountsTop(rest, counter + 1); }
      case Back =>
        BackScanCountsTop(rest, counter - 1);
      case Current =>
        BackScanCountsTop(rest, counter);
    }
  }

  lemma {:induction false} AbsoluteStackIsNormal(segs: seq<string>)
    ensures forall i :: 0 <= i < |Reduce(segs, true)| ==> KindOf(Reduce(segs, true)[i]) == Normal
    decreases |segs|
  {
    if segs != [] {
      var rest, s := segs[..|segs| - 1], segs[|segs| - 1];
      assert segs == rest + [s];
      ReduceLast(rest, s, true);
      AbsoluteStackIsNormal(rest);
    }
  }

  /** One segment more: it is pushed, or pops, or survives what the rest pops. */
  lemma DropAfterPush(before: seq<string>, s: string, after: seq<string>, absolute: bool)
    ensures var stack := Reduce(before, absolute);
            Drop(Push(stack, s, absolute), Pops(after)) ==
            Drop(stack, Pops([s] + after)) + if WillBeRemoved(before, s, after, absolute) then [] else [s]
  {
    hide Reduce, NormalScan, BackScan;
    var stack := Reduce(before, absolute);
    assert ([s] + after)[1..] == after;
    match KindOf(s)
    case Current =>
    case Normal =>
      NormalScanCountsPops(after, 0);
      assert (stack + [s])[..|stack|] == stack;
    case Back =>
      if absolute { AbsoluteStackIsNormal(before); } else { BackScanCountsTop(before, 0); }
  }

  /** What survives of a prefix is its stack, less what the rest of the list pops. */
  lemma {:induction false} VisibleIsStackLessPops(all: seq<string>, k: nat, absolute: bool)
    requires k <= |all|
    ensures VisibleUpTo(all, k, absolute) == Drop(Reduce(all[..k], absolute), Pops(all[k..]))
    decreases k
  {
    if k == 0 {
      assert all[..0] == [];
    } else {
      hide Drop, Pops, Push, WillBeRemoved;
      var before, s, after := all[..k - 1], all[k - 1], all[k..];
      assert all[..k] == before + [s] && all[k - 1..] == [s] + after;
      ReduceLast(before, s, absolute);
      VisibleIsStackLessPops(all, k - 1, absolute);
      DropAfterPush(before, s, after, absolute);
    }
  }

  /** The surviving segments are exactly the stack reduction. */
  lemma VisibleIsReduction(all: seq<string>, absolute: bool)
    ensures VisibleUpTo(all, |all|, absolute) == Reduce(all, absolute)
  {
    VisibleIsStackLessPops(all, |all|, absolute);
    assert all[..|all|] == all && all[|all|..] == [];
  }

  /** A cut after a surviving segment never splits a removed pair. */
  lemma CutAfterVisible(all: seq<string>, k: nat, absolute: bool)
    requires k < |all| && !WillBeRemoved(all[..k], all[k], all[k + 1..], absolute)
    ensures VisibleUpTo(all, k + 1, absolute) == Reduce(all[..k + 1], absolute)
  {
    VisibleIsStackLessPops(all, k + 1, absolute);
    assert all[..k + 1] == all[..k] + [all[k]];
    ReduceLast(all[..k], all[k], absolute);
    if KindOf(all[k]) == Normal {
      NormalScanCountsPops(all[k + 1..], 0);
    } else {
      BackScanCountsTop(all[..k], 0);
    }
  }

  lemma {:induction false} VisibleIsPrefix(all: seq<string>, j: nat, k: nat, absolute: bool)
    requires j <= k <= |all|
    ensures VisibleUpTo(all, j, absolute) <= VisibleUpTo(all, k, absolute)
    decreases k
  {
    if j < k { VisibleIsPrefix(all, j, k - 1, absolute); }
  }

  /** A surviving segment stands in the reduced list right after those that survive before it. */
  lemma VisibleAt(all: seq<string>, k: nat, absolute: bool)
    requires k < |all| && !WillBeRemoved(all[..k], all[k], all[k + 1..], absolute)
    ensures var n := |VisibleUpTo(all, k, absolute)|;
            && n < |Reduce(all, absolute)|
            && Reduce(all, absolute)[..n] == VisibleUpTo(all, k, absolute)
            && Reduce(all, absolute)[n] == all[k]
  {
    VisibleIsPrefix(all, k + 1, |all|, absolute);
    VisibleIsReduction(all, absolute);
    assert VisibleUpTo(all, k + 1, absolute) == VisibleUpTo(all, k, absolute) + [all[k]];
  }

  /** What survives of a part stands at the front of the reduced list. */
  lemma VisibleInFront(all: seq<string>, k: nat, absolute: bool)
    requires k <= |all|
    ensures VisibleUpTo(all, k, absolute) <= Reduce(all, absolute)
  {
    VisibleIsPrefix(all, k, |all|, absolute);
    VisibleIsReduction(all, absolute);
  }

  // ----- the reduced form -----

  /** No "."; ".." only as a leading run, and none at all under a root. */
  predicate Canonical(segs: seq<string>, absolute: bool) {
    && (forall i :: 0 <= i < |segs| ==> KindOf(segs[i]) != Current)
    && (forall i :: 0 <= i < |segs| && KindOf(segs[i]) == Back ==> !absolute)
    && (forall i, j :: 0 <= i < j < |segs| && KindOf(segs[j]) == Back ==> KindOf(segs[i]) == Back)
  }

  lemma {:induction false} ReduceIsCanonical(segs: seq<string>, absolute: bool)
    ensures Canonical(Reduce(segs, absolute), absolute)
    ensures forall i :: 0 <= i < |Reduce(segs, absolute)| ==> Reduce(segs, absolute)[i] in segs
    decreases |segs|
  {
    if segs != [] {
      var rest, s := segs[..|segs| - 1], segs[|segs| - 1];
      assert segs == rest + [s];
      ReduceLast(rest, s, absolute);
      ReduceIsCanonical(rest, absolute);
      var stack := Reduce(rest, absolute);
      if KindOf(s) == Back && !TopIsNormal(stack) && stack != [] {
        assert KindOf(stack[|stack| - 1]) == Back;
      }
    }
  }

  lemma {:induction false} ReduceFixesCanonical(segs: seq<string>, absolute: bool)
    requires Canonical(segs, absolute)
    ensures Reduce(segs, absolute) == segs
    decreases |segs|
  {
    if segs != [] {
      var rest, s := segs[..|segs| - 1], segs[|segs| - 1];
      assert segs == rest + [s];
      ReduceLast(rest, s, absolute);
      assert Canonical(rest, absolute) by {
        assert forall i :: 0 <= i < |rest| ==> rest[i] == segs[i];
      }
      ReduceFixesCanonical(rest, absolute);
      if KindOf(s) == Back && rest != [] {
        assert KindOf(segs[|rest| - 1]) == Back;
      }
    }
  }

  lemma ReduceOfReduced(a: seq<string>, b: seq<string>, absolute: bool)
    ensures Reduce(Reduce(a, absolute) + b, absolute) == Reduce(a + b, absolute)
  {
    ReduceFromAppend([], a, b, absolute);
    ReduceIsCanonical(a, absolute);
    ReduceFixesCanonical(Reduce(a, absolute), absolute);
    ReduceFromAppend([], Reduce(a, absolute), b, absolute);
  }
}
