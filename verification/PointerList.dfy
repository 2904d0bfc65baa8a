/** The LIST object itself: an array of pointers that the List_* functions grow and shift in place, and
    the reverse iterator that walks it. */
module PointerList {
  import opened Arithmetic
  import opened ListSpec
  import opened Sequences

  class List {
    var items: array<Ptr>
    var count: int
    var limit: int
    const increment: int
    const sortFunc: SortFunc
    /** How many slots have ever held an item; the others were never written. */
    ghost var used: int

    ghost predicate Valid()
      reads this, items
    {
      && 0 <= count <= used <= limit == items.Length
      && increment > 0
      && NULL !in items[..count]
      && (forall k :: count <= k < used ==> items[k] == NULL)
    }

    ghost function Contents(): seq<Ptr>
      requires 0 <= count <= items.Length
      reads this, items
    {
      items[..count]
    }

    constructor (increment: int, sortFunc: SortFunc)
      requires increment > 0
      ensures Valid() && fresh(items) && Contents() == [] && used == 0
      ensures this.increment == increment && this.sortFunc == sortFunc
    {
      this.increment, this.sortFunc := increment, sortFunc;
      items := new Ptr[0];
      count, limit, used := 0, 0, 0;
    }

    /** List_Destroy; a second call finds nothing left to do. */
    method Destroy()
      requires Valid()
      modifies this
      ensures Valid() && fresh(items) && Contents() == [] && used == limit == 0
    {
      items := new Ptr[0];
      count, limit, used := 0, 0, 0;
    }

    method GetIndex(p: Ptr) returns (found: bool, index: int)
      requires Valid()
      ensures (found, index) == ListSpec.GetIndex(sortFunc, Contents(), p)
    {
      if p == NULL || sortFunc == Unsorted {
        return false, -1;
      }
      ghost var s := Contents();
      ghost var signs := Signs(sortFunc, s, p);
      assert forall k :: 0 <= k < count ==> SignAt(sortFunc, s, p, signs, k);
      found, index := BinarySearch(p, s, signs);
    }

    /** The loop of List_GetIndex, which meets the items through their signs only. */
    method BinarySearch(p: Ptr, ghost s: seq<Ptr>, ghost signs: seq<int>) returns (found: bool, index: int)
      requires Valid() && s == Contents() && |signs| == |s|
      requires forall k :: 0 <= k < count ==> SignAt(sortFunc, s, p, signs, k)
      ensures (found, index) == Search(signs, 0, count - 1)
    {
      var low, high := 0, count - 1;
      while low <= high
        invariant 0 <= low <= high + 1 <= count
        invariant Search(signs, low, high) == Search(signs, 0, count - 1)
      {
        var i := (low + high) / 2;
        assert SignAt(sortFunc, s, p, signs, i);
        var result := Compare(sortFunc, items[i], p);
        if result == 0 {
          return true, i;
        }
        if result < 0 {
          low := i + 1;
        } else {
          high := i - 1;
        }
      }
      return false, low;
    }

    method Find(p: Ptr) returns (item: Ptr)
      requires Valid()
      ensures item == NULL <==> !ListSpec.GetIndex(sortFunc, Contents(), p).0
      ensures item != NULL ==> item in Contents() && Compare(sortFunc, item, p) == 0
    {
      var found, index := GetIndex(p);
      item := if found then items[index] else NULL;
      assert found ==> items[index] == Contents()[index];
    }

    /** List_IndexOf: by address, front to back, whatever the sort function. */
    method IndexOf(p: Ptr) returns (index: int)
      requires Valid()
      ensures -1 <= index < count
      ensures index == -1 <==> p !in Contents()
      ensures index != -1 ==> Contents()[index] == p && p !in Contents()[..index]
    {
      if p == NULL {
        return -1;
      }
      for i := 0 to count
        invariant p !in items[..i]
      {
        if items[i] == p {
          return i;
        }
      }
      return -1;
    }

    method Insert(p: Ptr, index: int) returns (ok: int)
      requires Valid() && 0 <= index
      modifies this, items
      ensures Valid() && (items == old(items) || fresh(items))
      ensures ok == if p != NULL && index <= old(count) then 1 else 0
      ensures Contents() == InsertAt(old(Contents()), p, index)
      ensures ok == 0 ==> Contents() == old(Contents()) && items == old(items)
      ensures limit == old(limit) + if ok == 1 && old(count) == old(limit) then increment else 0
      ensures ok == 1 ==> Contents() == old(Contents()[..index]) + [p] + old(Contents()[index..])
      ensures used == Max(old(used), count)
    {
      if p == NULL || index > count {
        return 0;
      }
      if count == limit {
        Grow();
      }
      PutAt(p, index);
      return 1;
    }

    /** The second half of List_Insert, once there is room. */
    method PutAt(p: Ptr, index: nat)
      requires Valid() && p != NULL && index <= count < limit
      modifies `count, `used, items
      ensures Valid() && Contents() == InsertAt(old(Contents()), p, index)
      ensures used == Max(old(used), count)
    {
      ghost var s := Contents();
      ShiftUp(index);
      count := count + 1;
      items[index] := p;
      used := Max(used, count);
      assert items[..index] == s[..index] && items[index + 1..count] == s[index..];
      assert Contents() == items[..index] + [p] + items[index + 1..count];
    }

    /** The memmove inside List_Insert. */
    method ShiftUp(index: nat)
      requires 0 <= index <= count < items.Length
      modifies items
      ensures items[..index] == old(items[..index])
      ensures items[index + 1..count + 1] == old(items[index..count])
      ensures forall k :: count < k < items.Length ==> items[k] == old(items[k])
    {
      forall k | index <= k < count {
        items[k + 1] := items[k];
      }
    }

    /** The reallocation inside List_Insert: the one place where the array moves. */
    method Grow()
      requires Valid() && count == limit
      modifies `items, `limit
      ensures Valid() && fresh(items) && count < limit == old(limit) + increment
      ensures Contents() == old(Contents())
    {
      var bigger := new Ptr[count + increment];
      forall k | 0 <= k < count {
        bigger[k] := items[k];
      }
      assert bigger[..count] == items[..count];
      items := bigger;
      limit := limit + increment;
    }

    method InsertPtr(p: Ptr) returns (ok: int)
      requires Valid()
      modifies this, items
      ensures Valid() && (items == old(items) || fresh(items))
      ensures ok == if p == NULL then -1 else 1
      ensures used == Max(old(used), count)
      ensures Contents() == if p == NULL then old(Contents())
                            else InsertAt(old(Contents()), p, InsertIndex(sortFunc, old(Contents()), p))
    {
      if p == NULL {
        return -1;
      }
      var index := count;
      if sortFunc != Unsorted {
        var found;
        found, index := GetIndex(p);
      }
      ok := Insert(p, index);
    }

    /** List_Remove. The array stays where it is, and the slot given up is cleared. In an empty list, index 0
        passes the range check: the count becomes -1 and `wild` reports a null stored in front of the array. */
    method Remove(index: int) returns (ok: int, wild: bool)
      requires Valid()
      modifies `count, items
      ensures var r := RemoveAt(old(Contents()), index);
              && ok == (if r.Refused? then 0 else 1)
              && (wild <==> r.StoredInFront?)
              && (r.Refused? ==> Valid() && Contents() == old(Contents()))
              && (r.Remaining? ==> Valid() && Contents() == r.items && items[count] == NULL)
              && (r.StoredInFront? ==> count == -1)
      ensures 0 <= index < old(count) ==> Contents() == old(Contents()[..index]) + old(Contents()[index + 1..])
      ensures forall k :: 0 <= k < index && k < count ==> items[k] == old(items[k])
    {
      if index < 0 || index > count {
        return 0, false;
      }
      ghost var s := Contents();
      count := count - 1;
      if count < 0 {
        return 1, true;
      }
      CloseGap(index);
      RemoveAddsNothing(s, index);
      assert items[..count] == RemoveAt(s, index).items;
      return 1, false;
    }

    /** The second half of List_Remove, once the count has gone down. */
    method CloseGap(index: nat)
      requires index <= count + 1 && 0 <= count < items.Length
      modifies items
      ensures items[..count] == if index < count then old(items[..index] + items[index + 1..count + 1])
                                else old(items[..count])
      ensures items[count] == NULL
      ensures forall k :: 0 <= k < index && k < count ==> items[k] == old(items[k])
      ensures forall k :: count < k < items.Length ==> items[k] == old(items[k])
    {
      if count > index {
        ShiftDown(index);
        assert items[..count] == items[..index] + items[index..count];
      }
      ghost var kept := items[..count];
      items[count] := NULL;
      assert items[..count] == kept;
    }

    /** The memmove inside List_Remove. */
    method ShiftDown(index: nat)
      requires index < count < items.Length
      modifies items
      ensures items[..index] == old(items[..index])
      ensures items[index..count] == old(items[index + 1..count + 1])
      ensures forall k :: count < k < items.Length ==> items[k] == old(items[k])
    {
      forall k | index <= k < count {
        items[k] := items[k + 1];
      }
    }

    method RemovePtr(p: Ptr) returns (index: int)
      requires Valid()
      modifies `count, items
      ensures Valid()
      ensures var (found, i) := ListSpec.GetIndex(sortFunc, old(Contents()), p);
              && index == (if found then i else -1)
              && Contents() == if found then WithoutItem(old(Contents()), i) else old(Contents())
    {
      var found, i := GetIndex(p);
      if !found {
        return -1;
      }
      var _, _ := Remove(i);
      return i;
    }

    /** removeItem: takes the address of a slot, here its distance from the start of the array. */
    method RemoveItem(slot: int) returns (item: Ptr)
      requires Valid() && 0 <= slot < count
      modifies `count, items
      ensures Valid() && count == old(count) - 1
      ensures item == old(Contents())[slot]
      ensures Contents() == WithoutItem(old(Contents()), slot)
      ensures forall k :: 0 <= k < slot ==> items[k] == old(items[k])
    {
      item := items[slot];
      var _, _ := Remove(slot);
    }

    /** A loop over rev_iter() whose body removes the current element whenever it is chosen. The iterator
        keeps the array it started from and never looks at the count again. */
    method WalkAndRemove(chosen: seq<bool>) returns (visited: seq<Ptr>, removed: seq<Ptr>)
      requires Valid() && |chosen| == count
      modifies `count, items
      ensures Valid()
      ensures visited == Reversed(old(Contents()))
      ensures removed == Reversed(Marked(old(Contents()), chosen, true))
      ensures Contents() == Marked(old(Contents()), chosen, false)
    {
      ghost var s := Contents();
      var base, ptr := items, count - 1;
      visited, removed := [], [];
      WalkStart(s, chosen);
      while ptr != -1
        invariant Valid() && Walked(s, chosen, ptr, Contents(), removed)
        invariant visited == Reversed(s[ptr + 1..])
        decreases ptr
      {
        WalkOn(s, chosen, ptr, Contents(), removed);
        assert base[ptr] == Contents()[ptr];
        visited := visited + [base[ptr]];
        if chosen[ptr] {
          var item := RemoveItem(ptr);
          removed := removed + [item];
        }
        ptr := ptr - 1;
      }
      WalkEnd(s, chosen, Contents(), removed);
      assert s[0..] == s;
    }
  }
}
