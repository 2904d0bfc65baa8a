/** OBJLIST: a list that deletes the objects it holds. Every object it accepted is deleted exactly once,
    unless remove(index) is called with the count as its index. */
module OwnedList {
  import opened Arithmetic
  import opened ListSpec
  import opened PointerList
  import opened Sequences

  // ----- The list as a state machine -----

  /** What the list holds, the objects passed to delete so far, in order, and the number of slots that
      have held an item since the array was last given up. */
  datatype Owner = Owner(items: seq<Ptr>, freed: seq<Ptr>, used: int)

  datatype Op =
    | InsertOp(p: Ptr, index: nat)
    | InsertPtrOp(p: Ptr)
    | RemoveOp(index: nat)
    | RemovePtrOp(p: Ptr)
    | RemoveItemOp(slot: nat)
    | DestroyOp

  /** `delete items[i]` reads a slot that was written before. An empty list, asked for index 0, goes on to
      store in front of its array. Nothing else is excluded. */
  ghost predicate SlotAllowed(o: Owner, i: nat) { i < o.used && !(i == 0 == |o.items|) }

  ghost predicate Allowed(o: Owner, op: Op) {
    match op
    case RemoveOp(i) => SlotAllowed(o, i)
    case RemoveItemOp(i) => SlotAllowed(o, i)
    case _ => true
  }

  function WithItems(o: Owner, s: seq<Ptr>): Owner { o.(items := s, used := Max(o.used, |s|)) }

  /** Delete what the slot holds, which is nothing behind the items, and let List_Remove do its part. */
  function RemoveSlot(o: Owner, i: nat): Owner {
    var freed := if i < |o.items| then o.freed + [o.items[i]] else o.freed;
    var r := RemoveAt(o.items, i);
    o.(items := if r.Remaining? then r.items else o.items, freed := freed)
  }

  function Step(sf: SortFunc, o: Owner, op: Op): Owner {
    match op
    case InsertOp(p, i) => WithItems(o, InsertAt(o.items, p, i))
    case InsertPtrOp(p) =>
      if p == NULL then o else WithItems(o, InsertAt(o.items, p, InsertIndex(sf, o.items, p)))
    case RemoveOp(i) => RemoveSlot(o, i)
    case RemovePtrOp(p) =>
      var (found, i) := GetIndex(sf, o.items, p);
      if found then RemoveSlot(o, i) else o
    case RemoveItemOp(i) => RemoveSlot(o, i)
    case DestroyOp => Owner([], o.freed + o.items, 0)
  }

  /** The object a call hands over to the list, if it accepts it. */
  function Accepted(o: Owner, op: Op): seq<Ptr> {
    match op
    case InsertOp(p, i) => if p != NULL && i <= |o.items| then [p] else []
    case InsertPtrOp(p) => if p != NULL then [p] else []
    case _ => []
  }

  /** The call does not ask for the slot right behind the items. */
  ghost predicate NotAtCount(o: Owner, op: Op) {
    match op
    case RemoveOp(i) => i != |o.items|
    case RemoveItemOp(i) => i != |o.items|
    case _ => true
  }

  /** The object that leaves the list without being deleted. */
  ghost function DroppedAt(o: Owner, i: nat): seq<Ptr> {
    if i == |o.items| && i > 0 then [o.items[i - 1]] else []
  }

  ghost function Dropped(o: Owner, op: Op): seq<Ptr> {
    match op
    case RemoveOp(i) => DroppedAt(o, i)
    case RemoveItemOp(i) => DroppedAt(o, i)
    case _ => []
  }

  // ----- Conservation -----

  ghost function Held(o: Owner): multiset<Ptr> { multiset(o.items) + multiset(o.freed) }

  lemma {:induction false} WithoutConserves(s: seq<Ptr>, i: nat)
    requires i < |s|
    ensures multiset(s) == multiset(WithoutItem(s, i)) + multiset([s[i]])
  {
    assert s == s[..i] + [s[i]] + s[i + 1..];
  }

  lemma {:induction false} DeleteConserves(o: Owner, i: nat)
    requires i < |o.items|
    ensures Held(RemoveSlot(o, i)) == Held(o)
  {
    WithoutConserves(o.items, i);
    assert RemoveSlot(o, i) == o.(items := WithoutItem(o.items, i), freed := o.freed + [o.items[i]]);
    assert multiset(o.freed + [o.items[i]]) == multiset(o.freed) + multiset([o.items[i]]);
  }

  lemma {:induction false} RemoveSlotConserves(o: Owner, i: nat)
    requires SlotAllowed(o, i)
    ensures Held(RemoveSlot(o, i)) + multiset(DroppedAt(o, i)) == Held(o)
  {
    if i < |o.items| {
      DeleteConserves(o, i);
    } else if i == |o.items| {
      WithoutConserves(o.items, i - 1);
      assert RemoveSlot(o, i) == o.(items := WithoutItem(o.items, i - 1));
    }
  }

  lemma {:induction false} InsertConserves(s: seq<Ptr>, p: Ptr, i: nat)
    requires p != NULL && i <= |s|
    ensures multiset(InsertAt(s, p, i)) == multiset(s) + multiset([p])
  {
    assert s == s[..i] + s[i..];
  }

  lemma {:induction false} InsertionConserves(sf: SortFunc, o: Owner, op: Op)
    requires op.InsertOp? || op.InsertPtrOp?
    ensures Held(Step(sf, o, op)) == Held(o) + multiset(Accepted(o, op))
  {
    if Accepted(o, op) != [] {
      InsertConserves(o.items, op.p, if op.InsertOp? then op.index else InsertIndex(sf, o.items, op.p));
    }
  }

  lemma {:induction false} StepConserves(sf: SortFunc, o: Owner, op: Op)
    requires Allowed(o, op)
    ensures Held(Step(sf, o, op)) + multiset(Dropped(o, op)) == Held(o) + multiset(Accepted(o, op))
  {
    if op.InsertOp? || op.InsertPtrOp? {
      InsertionConserves(sf, o, op);
    } else if op.RemoveOp? {
      RemoveSlotConserves(o, op.index);
    } else if op.RemoveItemOp? {
      RemoveSlotConserves(o, op.slot);
    } else if op.RemovePtrOp? && GetIndex(sf, o.items, op.p).0 {
      DeleteConserves(o, GetIndex(sf, o.items, op.p).1);
    }
  }

  // ----- Runs -----

  ghost predicate AllowedRun(sf: SortFunc, o: Owner, ops: seq<Op>)
    decreases |ops|
  {
    ops == [] || (Allowed(o, ops[0]) && AllowedRun(sf, Step(sf, o, ops[0]), ops[1..]))
  }

  ghost function Run(sf: SortFunc, o: Owner, ops: seq<Op>): Owner
    decreases |ops|
  {
    if ops == [] then o else Run(sf, Step(sf, o, ops[0]), ops[1..])
  }

  ghost function AllAccepted(sf: SortFunc, o: Owner, ops: seq<Op>): seq<Ptr>
    decreases |ops|
  {
    if ops == [] then [] else Accepted(o, ops[0]) + AllAccepted(sf, Step(sf, o, ops[0]), ops[1..])
  }

  ghost function AllDropped(sf: SortFunc, o: Owner, ops: seq<Op>): seq<Ptr>
    decreases |ops|
  {
    if ops == [] then [] else Dropped(o, ops[0]) + AllDropped(sf, Step(sf, o, ops[0]), ops[1..])
  }

  /** No call of the run asks for the slot right behind the items. */
  ghost predicate NeverAtCount(sf: SortFunc, o: Owner, ops: seq<Op>)
    decreases |ops|
  {
    ops == [] || (NotAtCount(o, ops[0]) && NeverAtCount(sf, Step(sf, o, ops[0]), ops[1..]))
  }

  lemma {:induction false} BooksAddUp(before: multiset<Ptr>, between: multiset<Ptr>, after: multiset<Ptr>,
                                      in1: seq<Ptr>, in2: seq<Ptr>, out1: seq<Ptr>, out2: seq<Ptr>)
    requires between + multiset(out1) == before + multiset(in1)
    requires after + multiset(out2) == between + multiset(in2)
    ensures after + multiset(out1 + out2) == before + multiset(in1 + in2)
  {
    var m, n := after + multiset(out1 + out2), before + multiset(in1 + in2);
    forall p
      ensures m[p] == n[p]
    {
      assert (between + multiset(out1))[p] == (before + multiset(in1))[p];
      assert (after + multiset(out2))[p] == (between + multiset(in2))[p];
    }
  }

  /** Everything accepted is still in the list, or has been deleted, or was dropped. */
  lemma {:induction false} RunConserves(sf: SortFunc, o: Owner, ops: seq<Op>)
    requires AllowedRun(sf, o, ops)
    ensures Held(Run(sf, o, ops)) + multiset(AllDropped(sf, o, ops)) == Held(o) + multiset(AllAccepted(sf, o, ops))
    decreases |ops|
  {
    if ops == [] {
    } else {
      var next := Step(sf, o, ops[0]);
      StepConserves(sf, o, ops[0]);
      RunConserves(sf, next, ops[1..]);
      BooksAddUp(Held(o), Held(next), Held(Run(sf, next, ops[1..])), Accepted(o, ops[0]),
                 AllAccepted(sf, next, ops[1..]), Dropped(o, ops[0]), AllDropped(sf, next, ops[1..]));
    }
  }

  lemma {:induction false} NothingDroppedExactly(sf: SortFunc, o: Owner, ops: seq<Op>)
    requires AllowedRun(sf, o, ops)
    ensures AllDropped(sf, o, ops) == [] <==> NeverAtCount(sf, o, ops)
    decreases |ops|
  {
    if ops == [] {
    } else {
      NothingDroppedExactly(sf, Step(sf, o, ops[0]), ops[1..]);
    }
  }

  const EMPTY := Owner([], [], 0)

  ghost predicate Distinct(s: seq<Ptr>) {
    forall p :: p in s ==> multiset(s)[p] == 1
  }

  /** At every moment of every run that never hands over an object twice, no object has been deleted twice,
      none is in the list twice, none still in the list has been deleted, and a dropped one is neither in
      the list nor ever deleted. */
  lemma {:induction false} NothingReachableIsDeleted(sf: SortFunc, ops: seq<Op>)
    requires AllowedRun(sf, EMPTY, ops) && Distinct(AllAccepted(sf, EMPTY, ops))
    ensures var o, lost := Run(sf, EMPTY, ops), AllDropped(sf, EMPTY, ops);
            && Distinct(o.freed) && Distinct(o.items)
            && (forall p :: p in o.items ==> p !in o.freed)
            && (forall p :: p in lost ==> p !in o.items && p !in o.freed)
            && (forall p :: p in o.items || p in o.freed || p in lost <==> p in AllAccepted(sf, EMPTY, ops))
  {
    RunConserves(sf, EMPTY, ops);
    var o, all, lost := Run(sf, EMPTY, ops), AllAccepted(sf, EMPTY, ops), AllDropped(sf, EMPTY, ops);
    assert Held(o) + multiset(lost) == multiset(all);
    SplitDistinct(o.items, o.freed, lost, all);
  }

  lemma {:induction false} SplitDistinct(a: seq<Ptr>, b: seq<Ptr>, c: seq<Ptr>, all: seq<Ptr>)
    requires multiset(a) + multiset(b) + multiset(c) == multiset(all) && Distinct(all)
    ensures Distinct(a) && Distinct(b)
    ensures forall p :: p in a ==> p !in b
    ensures forall p :: p in c ==> p !in a && p !in b
    ensures forall p :: p in a || p in b || p in c <==> p in all
  {
    forall p
      ensures multiset(a)[p] + multiset(b)[p] + multiset(c)[p] == multiset(all)[p] <= 1
      ensures p in a <==> multiset(a)[p] > 0
      ensures p in b <==> multiset(b)[p] > 0
      ensures p in c <==> multiset(c)[p] > 0
      ensures p in all <==> multiset(all)[p] > 0
    {
      assert multiset(all)[p] == (multiset(a) + multiset(b) + multiset(c))[p];
      assert p in all <==> p in multiset(all);
    }
  }

  /** The end of a list's life: ~OBJLIST destroys it, and ~LIST destroys it once more. */
  function Destruct(sf: SortFunc, o: Owner): Owner {
    Step(sf, Step(sf, o, DestroyOp), DestroyOp)
  }

  /** After destruction every accepted object has been deleted exactly once if and only if the count was
      never given as an index; what was dropped that way is what is missing. */
  lemma {:induction false} DeletedExactlyOnce(sf: SortFunc, ops: seq<Op>)
    requires AllowedRun(sf, EMPTY, ops)
    ensures var freed, all := Destruct(sf, Run(sf, EMPTY, ops)).freed, AllAccepted(sf, EMPTY, ops);
            && multiset(freed) + multiset(AllDropped(sf, EMPTY, ops)) == multiset(all)
            && (multiset(freed) == multiset(all) <==> NeverAtCount(sf, EMPTY, ops))
            && (Distinct(all) ==> Distinct(freed))
    ensures Destruct(sf, Run(sf, EMPTY, ops)).items == []
  {
    var last, lost, all := Run(sf, EMPTY, ops), AllDropped(sf, EMPTY, ops), AllAccepted(sf, EMPTY, ops);
    var freed := Destruct(sf, last).freed;
    RunConserves(sf, EMPTY, ops);
    NothingDroppedExactly(sf, EMPTY, ops);
    assert freed == last.freed + last.items;
    assert multiset(freed) == Held(last);
    PartOf(freed, lost, all);
  }

  lemma {:induction false} PartOf(a: seq<Ptr>, b: seq<Ptr>, all: seq<Ptr>)
    requires multiset(a) + multiset(b) == multiset(all)
    ensures multiset(a) == multiset(all) <==> b == []
    ensures Distinct(all) ==> Distinct(a)
  {
    assert |multiset(a)| + |multiset(b)| == |multiset(all)|;
    if Distinct(all) {
      SplitDistinct(a, [], b, all);
    }
  }

  /** Two objects, the first one removed, then remove(1) with one object left: the second is never deleted. */
  lemma {:induction false} RemoveAtCountLeaks()
    ensures var ops := [InsertPtrOp(1), InsertPtrOp(2), RemoveOp(0), RemoveOp(1)];
            && AllowedRun(Unsorted, EMPTY, ops) && AllAccepted(Unsorted, EMPTY, ops) == [1, 2]
            && Destruct(Unsorted, Run(Unsorted, EMPTY, ops)).freed == [1]
  {
    var a, b := Owner([1], [], 1), Owner([1, 2], [], 2);
    var c, d := Owner([2], [1], 2), Owner([], [1], 2);
    assert Step(Unsorted, EMPTY, InsertPtrOp(1)) == a;
    assert Step(Unsorted, a, InsertPtrOp(2)) == b;
    assert Step(Unsorted, b, RemoveOp(0)) == c;
    assert Step(Unsorted, c, RemoveOp(1)) == d;
  }

  /** Sorted insertion and removal of every kind keep a list sorted, so every search in a run is exact. */
  lemma {:induction false} RunKeepsOrder(sf: SortFunc, o: Owner, ops: seq<Op>)
    requires Consistent(sf) && Ordered(sf, o.items)
    requires forall k :: 0 <= k < |ops| ==> !ops[k].InsertOp?
    ensures Ordered(sf, Run(sf, o, ops).items)
    decreases |ops|
  {
    if ops == [] {
    } else {
      StepKeepsOrder(sf, o, ops[0]);
      RunKeepsOrder(sf, Step(sf, o, ops[0]), ops[1..]);
    }
  }

  lemma {:induction false} RemoveSlotKeepsOrder(sf: SortFunc, o: Owner, i: nat)
    requires Ordered(sf, o.items)
    ensures Ordered(sf, RemoveSlot(o, i).items)
  {
    if RemoveAt(o.items, i).Remaining? {
      RemoveKeepsOrder(sf, o.items, i);
    }
  }

  lemma {:induction false} StepKeepsOrder(sf: SortFunc, o: Owner, op: Op)
    requires !op.InsertOp? && Consistent(sf) && Ordered(sf, o.items)
    ensures Ordered(sf, Step(sf, o, op).items)
  {
    match op
    case InsertPtrOp(p) =>
      if p != NULL {
        InsertKeepsOrder(sf, o.items, p);
      }
    case RemoveOp(i) => RemoveSlotKeepsOrder(sf, o, i);
    case RemovePtrOp(p) =>
      if GetIndex(sf, o.items, p).0 {
        RemoveSlotKeepsOrder(sf, o, GetIndex(sf, o.items, p).1);
      }
    case RemoveItemOp(i) => RemoveSlotKeepsOrder(sf, o, i);
    case DestroyOp =>
  }

  // ----- What remove(T*) deletes -----

  /** On a sorted list remove(p) deletes one object, and that one sorts equal to p, exactly if some object
      does; it deletes p itself only if the search happens to stop there. Without a sort function it never
      deletes anything, whether p is in the list or not. */
  lemma {:induction false} RemovePtrDeletes(sf: SortFunc, o: Owner, p: Ptr)
    requires Consistent(sf) && Ordered(sf, o.items)
    ensures var r := Step(sf, o, RemovePtrOp(p));
            && (r == o <==> p == NULL || sf == Unsorted
                            || !exists k :: 0 <= k < |o.items| && Compare(sf, o.items[k], p) == 0)
            && (r != o ==> |r.freed| == |o.freed| + 1 && r.freed[..|o.freed|] == o.freed
                           && r.freed[|o.freed|] in o.items && Compare(sf, r.freed[|o.freed|], p) == 0)
  {
    if p != NULL && sf != Unsorted {
      GetIndexFinds(sf, o.items, p);
    }
  }

  /** When no other object in the list sorts equal, remove(p) deletes p itself exactly if the list holds it. */
  lemma {:induction false} RemovePtrDeletesArgument(sf: SortFunc, o: Owner, p: Ptr)
    requires Consistent(sf) && Ordered(sf, o.items) && p != NULL && sf != Unsorted
    requires forall q :: q in o.items && Compare(sf, q, p) == 0 ==> q == p
    ensures var r := Step(sf, o, RemovePtrOp(p));
            r.freed == o.freed + (if p in o.items then [p] else [])
  {
    GetIndexFinds(sf, o.items, p);
    if p in o.items {
      var k :| 0 <= k < |o.items| && o.items[k] == p;
      CompareFlip(sf, p, p);
      assert Compare(sf, o.items[k], p) == 0;
    }
  }

  ghost predicate NoTwoEqual(sf: SortFunc, s: seq<Ptr>) {
    forall p, q :: p in s && q in s && Compare(sf, p, q) == 0 ==> p == q
  }

  ghost predicate DeletesArgument(sf: SortFunc, o: Owner, p: Ptr) {
    Step(sf, o, RemovePtrOp(p)).freed == o.freed + [p]
  }

  /** remove(p) deletes p for every p in a sorted list if and only if no two objects in it sort equal: of two
      that do, the search always stops at the same one. */
  lemma {:induction false} RemovePtrDeletesArgumentExactly(sf: SortFunc, o: Owner)
    requires Consistent(sf) && Ordered(sf, o.items) && NULL !in o.items && sf != Unsorted
    ensures (forall p :: p in o.items ==> DeletesArgument(sf, o, p)) <==> NoTwoEqual(sf, o.items)
  {
    if NoTwoEqual(sf, o.items) {
      forall p | p in o.items
        ensures DeletesArgument(sf, o, p)
      {
        RemovePtrDeletesArgument(sf, o, p);
      }
    }
    forall p, q | p in o.items && q in o.items && Compare(sf, p, q) == 0 && p != q
      ensures !DeletesArgument(sf, o, p) || !DeletesArgument(sf, o, q)
    {
      EqualItemsSearchAlike(sf, o.items, p, q);
      assert Step(sf, o, RemovePtrOp(p)) == Step(sf, o, RemovePtrOp(q));
      assert (o.freed + [p])[|o.freed|] == p && (o.freed + [q])[|o.freed|] == q;
    }
  }

  /** Two objects with one key: remove(2) deletes object 1 and keeps object 2. */
  lemma {:induction false} RemovePtrDeletesAnother()
    ensures Step(NumericKey(_ => 7), Owner([1, 2], [], 2), RemovePtrOp(2)) == Owner([2], [1], 2)
  {
    var sf := NumericKey(_ => 7);
    assert Signs(sf, [1, 2], 2)[0] == 0;
    assert GetIndex(sf, [1, 2], 2) == (true, 0);
  }

  // ----- A reverse walk that deletes what it chooses -----

  ghost predicate OwnerWalked(start: Owner, chosen: seq<bool>, i: int, o: Owner) {
    && start.freed <= o.freed && o.used == start.used
    && Walked(start.items, chosen, i, o.items, o.freed[|start.freed|..])
  }

  lemma {:induction false} OwnerWalkStart(o: Owner, chosen: seq<bool>)
    requires |chosen| == |o.items|
    ensures OwnerWalked(o, chosen, |o.items| - 1, o)
  {
    WalkStart(o.items, chosen);
  }

  lemma {:induction false} OwnerWalkOn(sf: SortFunc, start: Owner, chosen: seq<bool>, i: int, o: Owner)
    requires 0 <= i && OwnerWalked(start, chosen, i, o)
    ensures i < |o.items|
    ensures OwnerWalked(start, chosen, i - 1, if chosen[i] then Step(sf, o, RemoveItemOp(i)) else o)
  {
    WalkOn(start.items, chosen, i, o.items, o.freed[|start.freed|..]);
    if chosen[i] {
      var freed := o.freed + [o.items[i]];
      assert freed[|start.freed|..] == o.freed[|start.freed|..] + [o.items[i]];
      assert Step(sf, o, RemoveItemOp(i)) == o.(items := WithoutItem(o.items, i), freed := freed);
    }
  }

  lemma {:induction false} OwnerWalkEnd(start: Owner, chosen: seq<bool>, o: Owner)
    requires OwnerWalked(start, chosen, -1, o)
    ensures o == Owner(Marked(start.items, chosen, false),
                       start.freed + Reversed(Marked(start.items, chosen, true)), start.used)
  {
    WalkEnd(start.items, chosen, o.items, o.freed[|start.freed|..]);
    assert o.freed == start.freed + o.freed[|start.freed|..];
  }

  // ----- The object -----

  class ObjList {
    const list: List
    var freed: seq<Ptr>

    ghost predicate Valid()
      reads this, list, list.items
    {
      list.Valid()
    }

    ghost function View(): Owner
      requires 0 <= list.count <= list.items.Length
      reads this, list, list.items
    {
      Owner(list.Contents(), freed, list.used)
    }

    constructor (increment: int, sortFunc: SortFunc)
      requires increment > 0
      ensures Valid() && fresh(list) && fresh(list.items) && View() == EMPTY
      ensures list.sortFunc == sortFunc && list.increment == increment
    {
      list := new List(increment, sortFunc);
      freed := [];
    }

    /** The delete operator, as far as the list is concerned; it does nothing with a null pointer. */
    method DeleteObject(p: Ptr)
      modifies `freed
      ensures freed == if p == NULL then old(freed) else old(freed) + [p]
    {
      if p != NULL {
        freed := freed + [p];
      }
    }

    method Insert(p: Ptr, index: nat) returns (ok: int)
      requires Valid()
      modifies this, list, list.items
      ensures Valid() && (list.items == old(list.items) || fresh(list.items))
      ensures View() == Step(list.sortFunc, old(View()), InsertOp(p, index))
      ensures ok == |Accepted(old(View()), InsertOp(p, index))|
      ensures list.Contents() == InsertAt(old(list.Contents()), p, index) && freed == old(freed)
    {
      ok := list.Insert(p, index);
    }

    method InsertPtr(p: Ptr) returns (ok: int)
      requires Valid()
      modifies this, list, list.items
      ensures Valid() && (list.items == old(list.items) || fresh(list.items))
      ensures View() == Step(list.sortFunc, old(View()), InsertPtrOp(p))
      ensures p != NULL ==> list.Contents() == InsertAt(old(list.Contents()), p,
                                                        InsertIndex(list.sortFunc, old(list.Contents()), p))
    {
      ok := list.InsertPtr(p);
    }

    /** remove(int); with the count as its index it drops the last object without deleting it. */
    method Remove(index: int) returns (ok: int)
      requires Valid() && 0 <= index && SlotAllowed(View(), index)
      modifies this, list`count, list.items
      ensures Valid() && ok == if index <= old(list.count) then 1 else 0
      ensures View() == Step(list.sortFunc, old(View()), RemoveOp(index))
      ensures freed == if index < old(list.count) then old(freed) + [old(list.Contents())[index]] else old(freed)
    {
      DeleteObject(list.items[index]);
      var wild;
      ok, wild := list.Remove(index);
    }

    method RemovePtr(p: Ptr) returns (ok: int)
      requires Valid()
      modifies this, list`count, list.items
      ensures Valid()
      ensures View() == Step(list.sortFunc, old(View()), RemovePtrOp(p))
      ensures ok == |View().freed| - |old(View()).freed|
    {
      var found, i := list.GetIndex(p);
      if found {
        var _ := Remove(i);
        return 1;
      }
      return 0;
    }

    method RemoveItem(slot: int)
      requires Valid() && 0 <= slot && SlotAllowed(View(), slot)
      modifies this, list`count, list.items
      ensures Valid()
      ensures View() == Step(list.sortFunc, old(View()), RemoveItemOp(slot))
    {
      var _ := Remove(slot);
    }

    /** The body of the loop below. */
    method DeleteIfChosen(slot: int, ghost start: Owner, chosen: seq<bool>)
      requires Valid() && 0 <= slot && OwnerWalked(start, chosen, slot, View())
      modifies this, list`count, list.items
      ensures Valid() && OwnerWalked(start, chosen, slot - 1, View())
    {
      OwnerWalkOn(list.sortFunc, start, chosen, slot, View());
      if chosen[slot] {
        RemoveItem(slot);
      }
    }

    /** A loop over rev_iter() that deletes the current object with removeItem whenever it is chosen: the
        chosen objects are deleted, last one first, and the others stay in order. */
    method WalkAndDelete(chosen: seq<bool>)
      requires Valid() && |chosen| == list.count
      modifies this, list`count, list.items
      ensures Valid()
      ensures var o := old(View());
              View() == Owner(Marked(o.items, chosen, false), o.freed + Reversed(Marked(o.items, chosen, true)), o.used)
    {
      ghost var start := View();
      var ptr := list.count - 1;
      OwnerWalkStart(start, chosen);
      while ptr != -1
        invariant list.items == old(list.items) && Valid()
        invariant OwnerWalked(start, chosen, ptr, View())
        decreases ptr
      {
        DeleteIfChosen(ptr, start, chosen);
        ptr := ptr - 1;
      }
      OwnerWalkEnd(start, chosen, View());
    }

    method Destroy()
      requires Valid()
      modifies this, list
      ensures Valid() && fresh(list.items)
      ensures View() == Step(list.sortFunc, old(View()), DestroyOp)
      ensures list.Contents() == [] && freed == old(freed + list.Contents())
    {
      ghost var s, f := list.Contents(), freed;
      for i := 0 to list.count
        invariant list.items == old(list.items) && list.count == old(list.count) && Valid()
        invariant list.Contents() == s && freed == f + s[..i]
      {
        DeleteObject(list.items[i]);
        assert s[..i + 1] == s[..i] + [s[i]];
      }
      assert s[..|s|] == s;
      list.Destroy();
    }

    /** ~OBJLIST followed by ~LIST. */
    method Destructor()
      requires Valid()
      modifies this, list
      ensures Valid()
      ensures View() == Destruct(list.sortFunc, old(View()))
    {
      Destroy();
      list.Destroy();
    }
  }
}
