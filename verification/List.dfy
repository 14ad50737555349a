/** The doubly linked list with ordinals that the rest of the program keeps its entities in. */
module List {
  /** A member is kept and compared by its address. */
  type Member = nat

  const NULL: Member := 0

  class Element {
    const member: Member
    var next: Element?
    var prev: Element?
    var ordinal: nat

    constructor (member: Member)
      ensures this.member == member && next == null && prev == null && ordinal == 0
    {
      this.member := member;
      next, prev, ordinal := null, null, 0;
    }
  }

  /** Where a new member goes: in front of the first one it is lower than, or at the end. */
  function Place(s: seq<Member>, x: Member, lower: (Member, Member) -> bool): (k: nat)
    ensures k <= |s|
    ensures forall i :: 0 <= i < k ==> !lower(s[i], x)
    ensures k < |s| ==> lower(s[k], x)
  {
    if s == [] || lower(s[0], x) then 0 else 1 + Place(s[1..], x, lower)
  }

  function Inserted(s: seq<Member>, x: Member, lower: (Member, Member) -> bool): seq<Member> {
    s[..Place(s, x, lower)] + [x] + s[Place(s, x, lower)..]
  }

  /** `lower(a, x)` says that x is lower than a. No later member is lower than an earlier one. */
  predicate Sorted(s: seq<Member>, lower: (Member, Member) -> bool) {
    forall i, j :: 0 <= i < j < |s| ==> !lower(s[i], s[j])
  }

  /** What the order function must be for that to make sense: a strict order in which equals are interchangeable. */
  ghost predicate WeakOrder(lower: (Member, Member) -> bool) {
    && (forall a, b :: lower(a, b) ==> !lower(b, a))
    && (forall a, b, c :: !lower(a, b) && !lower(b, c) ==> !lower(a, c))
  }

  /** Whatever follows the place of insertion is higher. */
  lemma HigherBehind(s: seq<Member>, x: Member, lower: (Member, Member) -> bool, i: nat)
    requires WeakOrder(lower) && Sorted(s, lower) && Place(s, x, lower) <= i < |s|
    ensures lower(s[i], x) && !lower(x, s[i])
  {
    var k := Place(s, x, lower);
    assert k < i ==> !lower(s[k], s[i]);
  }

  /** Ordered insertion keeps the order, and puts a member behind all its equals. */
  lemma InsertedIsSorted(s: seq<Member>, x: Member, lower: (Member, Member) -> bool)
    requires WeakOrder(lower) && Sorted(s, lower)
    ensures Sorted(Inserted(s, x, lower), lower)
    ensures multiset(Inserted(s, x, lower)) == multiset(s) + multiset{x}
    ensures forall i :: Place(s, x, lower) <= i < |s| ==> lower(s[i], x)
  {
    var k, r := Place(s, x, lower), Inserted(s, x, lower);
    hide Place, WeakOrder;
    forall i: nat | k <= i < |s|
      ensures lower(s[i], x) && !lower(x, s[i])
    {
      HigherBehind(s, x, lower, i);
    }
    PutIntoIsSorted(s, x, lower, k);
    assert s == s[..k] + s[k..];
  }

  lemma PutIntoIsSorted(s: seq<Member>, x: Member, lower: (Member, Member) -> bool, k: nat)
    requires k <= |s| && Sorted(s, lower)
    requires forall i :: 0 <= i < k ==> !lower(s[i], x)
    requires forall i :: k <= i < |s| ==> !lower(x, s[i])
    ensures Sorted(s[..k] + [x] + s[k..], lower)
  {
    var r := s[..k] + [x] + s[k..];
    forall i, j | 0 <= i < j < |r|
      ensures !lower(r[i], r[j])
    {
      assert r[i] == if i < k then s[i] else if i == k then x else s[i - 1];
      assert r[j] == if j < k then s[j] else if j == k then x else s[j - 1];
    }
  }

  /** The first index of a member, or the length. */
  function IndexOf(s: seq<Member>, x: Member): (k: nat)
    ensures k <= |s|
    ensures forall i :: 0 <= i < k ==> s[i] != x
    ensures k < |s| ==> s[k] == x
    ensures k < |s| <==> x in s
  {
    if s == [] then 0 else if s[0] == x then 0 else 1 + IndexOf(s[1..], x)
  }

  predicate Distinct(elements: seq<Element>) {
    forall i, j :: 0 <= i < j < |elements| ==> elements[i] != elements[j]
  }

  function MembersOf(elements: seq<Element>): (s: seq<Member>)
    ensures |s| == |elements| && forall i :: 0 <= i < |s| ==> s[i] == elements[i].member
  {
    if elements == [] then [] else [elements[0].member] + MembersOf(elements[1..])
  }

  class LinkedList {
    var count: nat
    var head: Element?
    var tail: Element?
    /** The elements in order. */
    ghost var spine: seq<Element>

    /** The ends of the list. */
    ghost predicate Ends()
      reads this, spine
    {
      && count == |spine|
      && (spine == [] ==> head == null && tail == null)
      && (spine != [] ==> head == spine[0] && tail == spine[|spine| - 1] && spine[|spine| - 1].next == null)
    }

    /** The elements are distinct, and each leads to the next. */
    ghost predicate Forward()
      reads this, spine
    {
      && Distinct(spine)
      && (forall i :: 0 <= i < |spine| - 1 ==> spine[i].next == spine[i + 1])
    }

    ghost predicate Backward()
      reads this, spine
    {
      && (spine != [] ==> spine[0].prev == null)
      && (forall i :: 0 < i < |spine| ==> spine[i].prev == spine[i - 1])
    }

    ghost predicate Numbered()
      reads this, spine
    {
      forall i :: 0 <= i < |spine| ==> spine[i].ordinal == i
    }

    /** Walking forward from the head gives the elements in order, with their ordinals. */
    ghost predicate Linked()
      reads this, spine
    {
      Ends() && Forward() && Numbered()
    }

    /** Walking back from the tail gives them in reverse order as well. */
    ghost predicate Valid()
      reads this, spine
    {
      Linked() && Backward()
    }

    ghost function Contents(): seq<Member>
      reads this
    {
      MembersOf(spine)
    }

    constructor ()
      ensures Valid() && Contents() == [] && spine == []
    {
      count, head, tail := 0, null, null;
      spine := [];
    }

    method Add(x: Member) returns (e: Element)
      requires Valid()
      modifies this, spine
      ensures Valid() && fresh(e) && e.member == x
      ensures spine == old(spine) + [e] && Contents() == old(Contents()) + [x]
    {
      hide MembersOf;
      e := new Element(x);
      e.ordinal := count;
      if head == null {
        head := e;
        tail := e;
        e.prev := null;
        count := 1;
      } else {
        e.prev := tail;
        tail.next := e;
        tail := e;
        count := count + 1;
      }
      MembersBoth(spine, [e]);
      OneMember(e);
      spine := spine + [e];
    }

    /** The first element with the member, or none. */
    method Find(x: Member) returns (e: Element?)
      requires Linked()
      ensures var k := IndexOf(Contents(), x);
              e == if k < |spine| then spine[k] else null
    {
      e := head;
      ghost var i := 0;
      while e != null
        invariant if e == null then i == |spine| else i < |spine| && e == spine[i]
        invariant forall j :: 0 <= j < i ==> Contents()[j] != x
        decreases |spine| - i
      {
        if e.member == x { return; }
        assert i + 1 < |spine| ==> spine[i].next == spine[i + 1];
        e := e.next;
        i := i + 1;
      }
    }

    method AddUnique(x: Member) returns (e: Element)
      requires Valid()
      modifies this, spine
      ensures Valid() && e in spine && e.member == x
      ensures Contents() == if x in old(Contents()) then old(Contents()) else old(Contents()) + [x]
      ensures x in old(Contents()) ==> spine == old(spine)
    {
      var found := Find(x);
      if found == null {
        e := Add(x);
      } else {
        e := found;
      }
    }

    /** The member with an ordinal, looked for by ordinal. */
    method FindNth(target: nat) returns (e: Element?)
      requires Linked()
      ensures e == if target < |spine| then spine[target] else null
    {
      e := head;
      ghost var i := 0;
      while e != null
        invariant if e == null then i == |spine| else i < |spine| && e == spine[i]
        invariant i <= target
        decreases |spine| - i
      {
        if e.ordinal == target { return; }
        assert i + 1 < |spine| ==> spine[i].next == spine[i + 1];
        e := e.next;
        i := i + 1;
      }
    }

    method ResetOrdinals()
      requires Ends() && Forward() && Backward()
      modifies set e | e in spine :: e`ordinal
      ensures Valid()
    {
      var e := head;
      var counter := 0;
      while e != null
        invariant Ends() && Forward() && Backward()
        invariant if e == null then counter == |spine| else counter < |spine| && e == spine[counter]
        invariant forall i :: 0 <= i < counter ==> spine[i].ordinal == i
        decreases |spine| - counter
      {
        assert e in spine;
        e.ordinal := counter;
        assert counter + 1 < |spine| ==> spine[counter].next == spine[counter + 1];
        e := e.next;
        counter := counter + 1;
      }
    }

    /** The first element that the member is lower than. */
    method FindHigher(x: Member, lower: (Member, Member) -> bool) returns (e: Element?, ghost k: nat)
      requires Linked()
      ensures k == Place(Contents(), x, lower)
      ensures e == if k < |spine| then spine[k] else null
    {
      e := head;
      k := 0;
      while e != null
        invariant if e == null then k == |spine| else k < |spine| && e == spine[k]
        invariant forall j :: 0 <= j < k ==> !lower(Contents()[j], x)
        decreases |spine| - k
      {
        if lower(e.member, x) {
          PlaceIs(Contents(), x, lower, k);
          return;
        }
        assert k + 1 < |spine| ==> spine[k].next == spine[k + 1];
        e := e.next;
        k := k + 1;
      }
      PlaceIs(Contents(), x, lower, k);
    }

    /** Links a new element in front of an existing one. */
    method LinkBefore(e: Element, existing: Element, ghost k: nat)
      requires Ends() && Forward() && Backward() && k < |spine| && existing == spine[k] && e !in spine
      modifies this, spine, e
      ensures Ends() && Forward() && Backward()
      ensures spine == old(spine)[..k] + [e] + old(spine)[k..]
    {
      ghost var was := spine;
      assert k > 0 ==> existing.prev == spine[k - 1];
      e.prev := existing.prev;
      e.next := existing;
      if head == existing {
        head := e;
      } else {
        existing.prev.next := e;
      }
      existing.prev := e;
      count := count + 1;
      spine := was[..k] + [e] + was[k..];
      assert forall i :: 0 <= i < k ==> spine[i] == was[i];
      assert spine[k] == e;
      assert forall i :: k < i < |spine| ==> spine[i] == was[i - 1];
      forall i | 0 <= i < |spine| - 1
        ensures spine[i].next == spine[i + 1] && spine[i + 1].prev == spine[i]
      {
        if i < k - 1 {
          assert was[i].next == was[i + 1];
        } else if i > k {
          assert was[i - 1].next == was[i];
        }
      }
    }

    method AddOrdered(x: Member, lower: (Member, Member) -> bool) returns (e: Element)
      requires Valid()
      modifies this, spine
      ensures Valid() && fresh(e) && e.member == x
      ensures Contents() == Inserted(old(Contents()), x, lower)
    {
      hide MembersOf, Place;
      ghost var members := Contents();
      var existing, k := FindHigher(x, lower);
      if existing == null {
        e := Add(x);
        assert members[..k] == members && members[k..] == [];
      } else {
        e := new Element(x);
        LinkBefore(e, existing, k);
        assert Contents() == members[..k] + [x] + members[k..];
        ResetOrdinals();
      }
    }

    /** Unlinks an element; the element that followed the head, if any, becomes the head. */
    method Unlink(e: Element, ghost k: nat)
      requires Ends() && Forward() && Backward() && k < |spine| && e == spine[k]
      modifies this, spine
      ensures Ends() && Forward() && Backward()
      ensures spine == old(spine)[..k] + old(spine)[k + 1..]
    {
      ghost var was := spine;
      assert k + 1 < |spine| ==> e.next == spine[k + 1] && spine[k + 1].prev == e;
      assert k > 0 ==> e.prev == spine[k - 1] && spine[k - 1].next == e;
      if e == head {
        head := if e.next != null then e.next else tail;
        head.prev := null;
      } else if e == tail {
        tail := e.prev;
        e.prev.next := null;
      } else {
        e.prev.next := e.next;
        e.next.prev := e.prev;
      }
      count := count - 1;
      e.next := null;
      spine := was[..k] + was[k + 1..];
      if count == 0 {
        head, tail := null, null;
      }
      assert forall i :: 0 <= i < k ==> spine[i] == was[i];
      assert forall i :: k <= i < |spine| ==> spine[i] == was[i + 1];
      forall i | 0 <= i < |spine| - 1
        ensures spine[i].next == spine[i + 1] && spine[i + 1].prev == spine[i]
      {
        if i < k - 1 {
          assert was[i].next == was[i + 1];
        } else if i >= k {
          assert was[i + 1].next == was[i + 2];
        }
      }
    }

    /** Takes out the first element with the member. */
    method Remove(x: Member)
      requires Valid()
      modifies this, spine
      ensures Valid()
      ensures var k := IndexOf(old(Contents()), x);
              Contents() == if k < |old(Contents())| then old(Contents())[..k] + old(Contents())[k + 1..]
                            else old(Contents())
    {
      hide MembersOf, IndexOf;
      ghost var members := Contents();
      var e := Find(x);
      if e != null {
        ghost var k := IndexOf(members, x);
        Unlink(e, k);
        assert Contents() == members[..k] + members[k + 1..];
        ResetOrdinals();
      }
    }

    /** Takes out the first element with the member found at an ordinal; a null member is not taken out. */
    method RemoveNth(target: nat)
      requires Valid()
      modifies this, spine
      ensures Valid()
      ensures var s := old(Contents());
              Contents() == if target < |s| && s[target] != NULL
                            then s[..IndexOf(s, s[target])] + s[IndexOf(s, s[target]) + 1..] else s
      ensures var s := old(Contents());
              target < |s| && s[target] != NULL ==>
                (Contents() == s[..target] + s[target + 1..] <==> RepeatsTo(s, target))
    {
      hide MembersOf, IndexOf, RepeatsTo;
      if target < |Contents()| { RemovesAtOrdinal(Contents(), target); }
      var e := FindNth(target);
      if e != null && e.member != NULL {
        assert Contents()[target] == e.member;
        Remove(e.member);
      }
    }
  }

  /** From its first occurrence to an ordinal the member stands without a gap. */
  predicate RepeatsTo(s: seq<Member>, target: nat)
    requires target < |s|
  {
    forall i :: IndexOf(s, s[target]) <= i <= target ==> s[i] == s[target]
  }

  /** Taking out the first occurrence is taking out the one at the ordinal exactly when only repetitions stand
      between the two, and so always among distinct members. */
  lemma RemovesAtOrdinal(s: seq<Member>, target: nat)
    requires target < |s|
    ensures var k := IndexOf(s, s[target]);
            s[..k] + s[k + 1..] == s[..target] + s[target + 1..] <==> RepeatsTo(s, target)
  {
    hide IndexOf;
    var k := IndexOf(s, s[target]);
    WithoutEither(s, k, target);
    SameThroughout(s, k, target);
  }

  /** Leaving out one place or a later one is the same exactly when each place between equals the next. */
  lemma WithoutEither(s: seq<Member>, a: nat, b: nat)
    requires a <= b < |s|
    ensures s[..a] + s[a + 1..] == s[..b] + s[b + 1..] <==> forall i :: a <= i < b ==> s[i] == s[i + 1]
  {
    var first, there := s[..a] + s[a + 1..], s[..b] + s[b + 1..];
    assert forall i :: a <= i < b ==> first[i] == s[i + 1] && there[i] == s[i];
    assert forall i :: 0 <= i < a ==> first[i] == there[i];
    assert forall i :: b <= i < |s| - 1 ==> first[i] == there[i];
  }

  lemma {:induction false} SameThroughout(s: seq<Member>, a: nat, b: nat)
    requires a <= b < |s|
    ensures (forall i :: a <= i < b ==> s[i] == s[i + 1]) <==> forall i :: a <= i <= b ==> s[i] == s[b]
    decreases b
  {
    if a < b {
      SameThroughout(s, a, b - 1);
      if forall i :: a <= i <= b ==> s[i] == s[b] { assert s[b - 1] == s[b]; }
    }
  }

  lemma PlaceIs(s: seq<Member>, x: Member, lower: (Member, Member) -> bool, k: nat)
    requires k <= |s| && (forall j :: 0 <= j < k ==> !lower(s[j], x)) && (k < |s| ==> lower(s[k], x))
    ensures Place(s, x, lower) == k
  {
  }

  /** Each element leads to the next. */
  ghost predicate Links(a: seq<Element>)
    reads a
  {
    forall i :: 0 <= i < |a| - 1 ==> a[i].next == a[i + 1]
  }

  /** The ordinals count from a number. */
  ghost predicate CountsFrom(a: seq<Element>, start: nat)
    reads a
  {
    forall i :: 0 <= i < |a| ==> a[i].ordinal == start + i
  }

  /** Raises the ordinals of a list, walking from its first element. */
  method UpdateOrdinals(first: Element?, ghost es: seq<Element>, start: nat)
    requires Links(es) && Distinct(es) && CountsFrom(es, 0)
    requires if es == [] then first == null else first == es[0] && es[|es| - 1].next == null
    modifies set e | e in es :: e`ordinal
    ensures CountsFrom(es, start) && Links(es) && BackLinks(es) == old(BackLinks(es))
  {
    var e := first;
    ghost var i := 0;
    while e != null
      invariant if e == null then i == |es| else i < |es| && e == es[i]
      invariant forall j :: 0 <= j < i ==> es[j].ordinal == start + j
      invariant forall j :: i <= j < |es| ==> es[j].ordinal == j
      decreases |es| - i
    {
      assert e in es;
      e.ordinal := e.ordinal + start;
      assert i + 1 < |es| ==> es[i].next == es[i + 1];
      e := e.next;
      i := i + 1;
    }
  }

  lemma LinksBoth(a: seq<Element>, b: seq<Element>)
    requires Links(a) && Links(b)
    requires a != [] && b != [] ==> a[|a| - 1].next == b[0]
    ensures Links(a + b)
  {
    var all := a + b;
    forall i | 0 <= i < |all| - 1
      ensures all[i].next == all[i + 1]
    {
      if i < |a| - 1 {
        assert a[i].next == a[i + 1];
      } else if i >= |a| {
        assert b[i - |a|].next == b[i - |a| + 1];
      }
    }
  }

  lemma DistinctBoth(a: seq<Element>, b: seq<Element>)
    requires Distinct(a) && Distinct(b)
    requires forall e :: e in a ==> e !in b
    ensures Distinct(a + b)
  {
    var all := a + b;
    forall i, j | 0 <= i < j < |all|
      ensures all[i] != all[j]
    {
      if i < |a| <= j {
        assert a[i] in a && b[j - |a|] in b;
      }
    }
  }

  lemma CountsBoth(a: seq<Element>, b: seq<Element>)
    requires CountsFrom(a, 0) && CountsFrom(b, |a|)
    ensures CountsFrom(a + b, 0)
  {
  }

  /** Moves one list behind another. Walking forward works when the source had members or the destination had
      none; walking back stops at the seam, and without members in the source even the tail is lost. */
  method MoveList(dest: LinkedList, src: LinkedList)
    requires dest.Valid() && src.Valid() && dest != src
    requires forall e :: e in dest.spine ==> e !in src.spine
    modifies dest, src, dest.spine, src.spine
    ensures src.Valid() && src.Contents() == []
    ensures dest.spine == old(dest.spine) + old(src.spine)
    ensures dest.Contents() == old(dest.Contents()) + old(src.Contents())
    ensures dest.Forward() && dest.Numbered() && dest.count == |dest.spine|
    ensures dest.spine != [] ==> dest.head == dest.spine[0]
    ensures dest.Linked() <==> old(src.count) > 0 || old(dest.count) == 0
    ensures dest.Valid() <==> old(dest.count) == 0
  {
    hide *;
    hide LinkedList.Valid, LinkedList.Linked, LinkedList.Forward, LinkedList.Numbered, LinkedList.Contents;
    ghost var a, b := dest.spine, src.spine;
    ListFacts(dest);
    ListFacts(src);
    MembersBoth(a, b);
    Attach(dest, src);
    TakeOver(dest, src);
    EmptyIsValid(src);
    Moved(dest, a, b);
    ContentsAre(dest);
  }

  lemma ContentsAre(l: LinkedList)
    ensures l.Contents() == MembersOf(l.spine)
  {
  }

  /** Two chains of elements, the second linked behind the first by `next` alone. */
  ghost predicate Chain(a: seq<Element>, b: seq<Element>)
    reads a, b
  {
    && Links(a + b) && CountsFrom(a + b, 0) && Distinct(a + b) && BackLinks(b)
    && (b != [] ==> b[|b| - 1].next == null)
  }

  lemma EmptyIsValid(l: LinkedList)
    requires l.spine == [] && l.count == 0 && l.head == null && l.tail == null
    ensures l.Valid() && l.Contents() == []
  {
  }

  /** Links the source's elements behind the destination's. */
  method Attach(dest: LinkedList, src: LinkedList)
    requires dest.Valid() && src.Valid() && dest != src
    requires forall e :: e in dest.spine ==> e !in src.spine
    modifies dest`head, dest.spine, src.spine
    ensures Chain(dest.spine, src.spine)
    ensures dest.head == if dest.spine + src.spine == [] then null else (dest.spine + src.spine)[0]
  {
    hide Links, CountsFrom, BackLinks, Distinct, MembersOf;
    hide LinkedList.Valid, LinkedList.Contents;
    ListFacts(dest);
    ListFacts(src);
    ghost var a, b := dest.spine, src.spine;
    DistinctBoth(a, b);
    if dest.tail != null {
      AttachBehind(dest.tail, src.head, dest.count, a, b);
    } else {
      dest.head := src.head;
    }
    LinksBoth(a, b);
    CountsBoth(a, b);
  }

  lemma ListFacts(l: LinkedList)
    requires l.Valid()
    ensures Links(l.spine) && CountsFrom(l.spine, 0) && BackLinks(l.spine) && Distinct(l.spine)
    ensures l.count == |l.spine| && l.Contents() == MembersOf(l.spine)
    ensures if l.spine == [] then l.head == null && l.tail == null
            else l.head == l.spine[0] && l.tail == l.spine[|l.spine| - 1] && l.tail.next == null
  {
  }

  /** Hands the record of the source's elements over to the destination. */
  method TakeOver(dest: LinkedList, src: LinkedList)
    requires dest != src
    modifies dest, src
    ensures src.count == 0 && src.head == null && src.tail == null && src.spine == []
    ensures dest.head == old(dest.head) && dest.tail == old(src.tail)
    ensures dest.count == old(dest.count) + old(src.count) && dest.spine == old(dest.spine) + old(src.spine)
  {
    dest.tail := src.tail;
    dest.count := dest.count + src.count;
    dest.spine := dest.spine + src.spine;
    src.count, src.head, src.tail := 0, null, null;
    src.spine := [];
  }

  /** Each element but the first leads back. */
  ghost predicate BackLinks(a: seq<Element>)
    reads a
  {
    && (a != [] ==> a[0].prev == null)
    && (forall i :: 0 < i < |a| ==> a[i].prev == a[i - 1])
  }

  lemma ForwardMoved(l: LinkedList, a: seq<Element>, b: seq<Element>)
    requires l.spine == a + b && Chain(a, b)
    ensures l.Forward() && l.Numbered()
  {
    hide BackLinks, MembersOf;
  }

  lemma EndsMoved(l: LinkedList, a: seq<Element>, b: seq<Element>)
    requires l.spine == a + b && l.count == |a + b| && Chain(a, b)
    requires l.head == if a + b == [] then null else (a + b)[0]
    requires if b == [] then l.tail == null else l.tail == b[|b| - 1]
    ensures l.Ends() <==> b != [] || a == []
  {
    hide Links, CountsFrom, Distinct, BackLinks, MembersOf;
    if b != [] {
      assert l.spine[|l.spine| - 1] == b[|b| - 1];
    }
  }

  lemma SeamMoved(l: LinkedList, a: seq<Element>, b: seq<Element>)
    requires l.spine == a + b && Chain(a, b) && (b != [] || a == [])
    ensures l.Backward() <==> a == []
  {
    hide Links, CountsFrom, Distinct, MembersOf;
    if a == [] {
      assert a + b == b;
    } else {
      assert l.spine[|a|] == b[0] && b[0].prev == null;
      assert l.spine[|a|].prev != l.spine[|a| - 1];
    }
  }

  lemma Parts(l: LinkedList)
    ensures l.Linked() <==> l.Ends() && l.Forward() && l.Numbered()
    ensures l.Valid() <==> l.Linked() && l.Backward()
    ensures l.Ends() && l.spine != [] ==> l.head == l.spine[0]
  {
  }

  lemma Moved(l: LinkedList, a: seq<Element>, b: seq<Element>)
    requires l.spine == a + b && l.count == |a + b| && Chain(a, b)
    requires l.head == if a + b == [] then null else (a + b)[0]
    requires if b == [] then l.tail == null else l.tail == b[|b| - 1]
    ensures l.Forward() && l.Numbered()
    ensures l.spine != [] ==> l.head == l.spine[0]
    ensures l.Linked() <==> b != [] || a == []
    ensures l.Valid() <==> a == []
  {
    hide *;
    hide LinkedList.Ends, LinkedList.Forward, LinkedList.Backward, LinkedList.Numbered, LinkedList.Linked,
         LinkedList.Valid;
    ForwardMoved(l, a, b);
    EndsMoved(l, a, b);
    if b != [] || a == [] { SeamMoved(l, a, b); }
    Parts(l);
  }

  /** Links a chain of elements behind the last element of another and raises its ordinals. */
  method AttachBehind(tail: Element, first: Element?, count: nat, ghost a: seq<Element>, ghost b: seq<Element>)
    requires Links(a) && CountsFrom(a, 0) && Links(b) && CountsFrom(b, 0) && BackLinks(b) && Distinct(b)
    requires forall e :: e in a ==> e !in b
    requires a != [] && tail == a[|a| - 1] && count == |a| && Distinct(a)
    requires if b == [] then first == null else first == b[0] && b[|b| - 1].next == null
    modifies set e | e in b :: e`ordinal
    modifies tail`next
    ensures Links(a) && Links(b) && CountsFrom(a, 0) && CountsFrom(b, |a|) && BackLinks(b)
    ensures tail.next == first
    ensures b != [] ==> b[|b| - 1].next == null
  {
    hide BackLinks, MembersOf;
    InItself(a);
    InItself(b);
    assert tail in a;
    UpdateOrdinals(first, b, count);
    assert CountsFrom(a, 0) && Links(a);
    tail.next := first;
  }

  lemma InItself(a: seq<Element>)
    ensures forall i :: 0 <= i < |a| ==> a[i] in a
  {
  }

  lemma OneMember(e: Element)
    ensures MembersOf([e]) == [e.member]
  {
  }

  lemma MembersBoth(a: seq<Element>, b: seq<Element>)
    ensures MembersOf(a + b) == MembersOf(a) + MembersOf(b)
  {
  }
}
