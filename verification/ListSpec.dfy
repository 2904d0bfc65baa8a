/** The sorted pointer lists of src/mir_core/src/lists.cpp and include/m_system.h, seen as sequences. */
module ListSpec {
  import opened Sequences

  /** An address; objects are told apart by address only. */
  type Ptr = nat

  const NULL: Ptr := 0

  /** The value of a list's sortFunc field: none, one of the three special constants, or a function.
      `key` reads the sort key at the start of an object. */
  datatype SortFunc =
    | Unsorted
    | NumericKey(key: Ptr -> nat)
    | HandleKey(key: Ptr -> nat)
    | PtrKey
    | User(cmp: (Ptr, Ptr) -> int)

  /** Negative, zero or positive as the item sorts before, with or after p. */
  function Compare(sf: SortFunc, item: Ptr, p: Ptr): int {
    match sf
    case Unsorted => 0
    case NumericKey(key) => key(item) - key(p)
    case HandleKey(key) => key(item) - key(p)
    case PtrKey => item - p
    case User(cmp) => cmp(item, p)
  }

  ghost predicate NotAfter(sf: SortFunc, a: Ptr, b: Ptr) { Compare(sf, a, b) <= 0 }

  ghost predicate NotBefore(sf: SortFunc, a: Ptr, b: Ptr) { Compare(sf, a, b) >= 0 }

  /** A total preorder. */
  ghost predicate Consistent(sf: SortFunc) {
    && (forall a, b :: NotAfter(sf, a, b) <==> NotBefore(sf, b, a))
    && (forall a, b, c :: NotAfter(sf, a, b) && NotAfter(sf, b, c) ==> NotAfter(sf, a, c))
  }

  /** The special constants and the lack of a sort function are consistent; a function need not be. */
  lemma {:induction false} SpecialKeysConsistent(sf: SortFunc)
    requires !sf.User?
    ensures Consistent(sf)
  {}

  ghost predicate Ordered(sf: SortFunc, s: seq<Ptr>) {
    forall i, j {:trigger NotAfter(sf, s[i], s[j])} :: 0 <= i < j < |s| ==> NotAfter(sf, s[i], s[j])
  }

  // ----- List_GetIndex -----

  function Sign(x: int): int { if x < 0 then -1 else if x > 0 then 1 else 0 }

  /** All that a search for p sees of a list: on which side of p each item sorts. */
  function Signs(sf: SortFunc, s: seq<Ptr>, p: Ptr): (signs: seq<int>)
    ensures |signs| == |s| && forall k :: 0 <= k < |s| ==> signs[k] == Sign(Compare(sf, s[k], p))
  {
    seq(|s|, k requires 0 <= k < |s| => Sign(Compare(sf, s[k], p)))
  }

  ghost predicate SignAt(sf: SortFunc, s: seq<Ptr>, p: Ptr, signs: seq<int>, k: int)
    requires 0 <= k < |s| == |signs|
  {
    signs[k] == Sign(Compare(sf, s[k], p))
  }

  /** The binary search: whether an equal item was met, and where the search ended. */
  function Search(signs: seq<int>, low: int, high: int): (r: (bool, int))
    requires 0 <= low <= high + 1 <= |signs|
    ensures low <= r.1 <= high + 1
    ensures r.0 ==> r.1 <= high && signs[r.1] == 0
    decreases high - low + 1
  {
    if low > high then (false, low)
    else
      var i := (low + high) / 2;
      if signs[i] == 0 then (true, i)
      else if signs[i] < 0 then Search(signs, i + 1, high)
      else Search(signs, low, i - 1)
  }

  function SearchAll(sf: SortFunc, s: seq<Ptr>, p: Ptr): (r: (bool, int))
    ensures 0 <= r.1 <= |s|
    ensures r.0 ==> r.1 < |s| && Compare(sf, s[r.1], p) == 0
  {
    Search(Signs(sf, s, p), 0, |s| - 1)
  }

  function GetIndex(sf: SortFunc, s: seq<Ptr>, p: Ptr): (r: (bool, int))
    ensures r.0 ==> 0 <= r.1 < |s| && Compare(sf, s[r.1], p) == 0
    ensures -1 <= r.1 <= |s|
  {
    if p == NULL || sf == Unsorted then (false, -1) else SearchAll(sf, s, p)
  }

  ghost predicate Rising(signs: seq<int>) {
    forall j, k :: 0 <= j < k < |signs| ==> signs[j] <= signs[k]
  }

  /** Where the items before p end and the items after p begin. */
  ghost predicate Splits(signs: seq<int>, i: int) {
    && 0 <= i <= |signs|
    && (forall k :: 0 <= k < i ==> signs[k] < 0)
    && (forall k :: i <= k < |signs| ==> signs[k] > 0)
  }

  lemma {:induction false} CompareChain(sf: SortFunc, a: Ptr, b: Ptr, c: Ptr)
    requires Consistent(sf) && Compare(sf, a, b) <= 0
    ensures Compare(sf, b, c) <= 0 ==> Compare(sf, a, c) <= 0
    ensures Sign(Compare(sf, a, c)) <= Sign(Compare(sf, b, c))
  {
    assert NotAfter(sf, a, b);
    assert NotAfter(sf, b, c) ==> NotAfter(sf, a, c);
    assert NotAfter(sf, c, a) ==> NotAfter(sf, c, b);
    assert NotBefore(sf, a, c) <==> NotAfter(sf, c, a);
    assert NotBefore(sf, b, c) <==> NotAfter(sf, c, b);
  }

  lemma {:induction false} CompareFlip(sf: SortFunc, a: Ptr, b: Ptr)
    requires Consistent(sf)
    ensures Compare(sf, a, b) <= 0 <==> Compare(sf, b, a) >= 0
    ensures Compare(sf, a, b) == 0 <==> Compare(sf, b, a) == 0
  {
    assert NotAfter(sf, a, b) <==> NotBefore(sf, b, a);
    assert NotAfter(sf, b, a) <==> NotBefore(sf, a, b);
  }

  lemma {:induction false} SignsRise(sf: SortFunc, s: seq<Ptr>, p: Ptr)
    requires Consistent(sf) && Ordered(sf, s)
    ensures Rising(Signs(sf, s, p))
  {
    forall j, k | 0 <= j < k < |s|
      ensures Sign(Compare(sf, s[j], p)) <= Sign(Compare(sf, s[k], p))
    {
      assert NotAfter(sf, s[j], s[k]);
      CompareChain(sf, s[j], s[k], p);
    }
  }

  lemma {:induction false} SearchSplits(signs: seq<int>, low: int, high: int)
    requires Rising(signs) && 0 <= low <= high + 1 <= |signs|
    requires forall k :: 0 <= k < low ==> signs[k] < 0
    requires forall k :: high < k < |signs| ==> signs[k] > 0
    ensures Search(signs, low, high).0 || Splits(signs, Search(signs, low, high).1)
    decreases high - low + 1
  {
    if low > high {
    } else {
      var i := (low + high) / 2;
      if signs[i] < 0 {
        SearchSplits(signs, i + 1, high);
      } else if signs[i] > 0 {
        SearchSplits(signs, low, i - 1);
      }
    }
  }

  /** On a sorted list the search finds an equal item exactly if there is one, and otherwise the one
      place where p belongs. */
  lemma {:induction false} GetIndexFinds(sf: SortFunc, s: seq<Ptr>, p: Ptr)
    requires Consistent(sf) && Ordered(sf, s) && p != NULL && sf != Unsorted
    ensures var r := GetIndex(sf, s, p);
            && (r.0 <==> exists k :: 0 <= k < |s| && Compare(sf, s[k], p) == 0)
            && (!r.0 ==> Splits(Signs(sf, s, p), r.1))
  {
    SignsRise(sf, s, p);
    SearchSplits(Signs(sf, s, p), 0, |s| - 1);
  }

  /** Items that sort equal are searched for alike: the search cannot tell them apart. */
  lemma {:induction false} EqualItemsSearchAlike(sf: SortFunc, s: seq<Ptr>, p: Ptr, q: Ptr)
    requires Consistent(sf) && Compare(sf, p, q) == 0 && p != NULL && q != NULL
    ensures GetIndex(sf, s, p) == GetIndex(sf, s, q)
  {
    forall k | 0 <= k < |s|
      ensures Sign(Compare(sf, s[k], p)) == Sign(Compare(sf, s[k], q))
    {
      EqualItemsCompareAlike(sf, s[k], p, q);
    }
    assert Signs(sf, s, p) == Signs(sf, s, q);
  }

  lemma {:induction false} EqualItemsCompareAlike(sf: SortFunc, a: Ptr, p: Ptr, q: Ptr)
    requires Consistent(sf) && Compare(sf, p, q) == 0
    ensures Sign(Compare(sf, a, p)) == Sign(Compare(sf, a, q))
  {
    CompareFlip(sf, p, q);
    CompareFlip(sf, a, p);
    CompareFlip(sf, a, q);
    CompareChain(sf, p, q, a);
    CompareChain(sf, q, p, a);
  }

  // ----- Insertion -----

  function InsertAt(s: seq<Ptr>, p: Ptr, i: nat): seq<Ptr> {
    if p == NULL || i > |s| then s else s[..i] + [p] + s[i..]
  }

  /** The place List_InsertPtr picks. */
  function InsertIndex(sf: SortFunc, s: seq<Ptr>, p: Ptr): (i: nat)
    requires p != NULL
    ensures i <= |s|
  {
    if sf == Unsorted then |s| else SearchAll(sf, s, p).1
  }

  lemma {:induction false} InsertBetween(sf: SortFunc, s: seq<Ptr>, p: Ptr, i: nat)
    requires Ordered(sf, s) && p != NULL && i <= |s|
    requires forall k :: 0 <= k < i ==> Compare(sf, s[k], p) <= 0
    requires forall k :: i <= k < |s| ==> Compare(sf, p, s[k]) <= 0
    ensures Ordered(sf, InsertAt(s, p, i))
  {
    var t := InsertAt(s, p, i);
    forall m, n {:trigger NotAfter(sf, t[m], t[n])} | 0 <= m < n < |t|
      ensures NotAfter(sf, t[m], t[n])
    {
      var a, b := if m < i then m else m - 1, if n < i then n else n - 1;
      assert t[m] == if m == i then p else s[a];
      assert t[n] == if n == i then p else s[b];
      assert m != i && n != i ==> NotAfter(sf, s[a], s[b]);
    }
  }

  lemma {:induction false} SignsAround(signs: seq<int>, i: int)
    requires Rising(signs) && 0 <= i <= |signs|
    requires Splits(signs, i) || (i < |signs| && signs[i] == 0)
    ensures forall k :: 0 <= k < |signs| ==> if k < i then signs[k] <= 0 else signs[k] >= 0
  {}

  lemma {:induction false} SignsAtIndex(signs: seq<int>)
    requires Rising(signs)
    ensures var i := Search(signs, 0, |signs| - 1).1;
            forall k :: 0 <= k < |signs| ==> if k < i then signs[k] <= 0 else signs[k] >= 0
  {
    SearchSplits(signs, 0, |signs| - 1);
    SignsAround(signs, Search(signs, 0, |signs| - 1).1);
  }

  /** The place to insert at has no item that sorts after p in front of it, and none before p behind it. */
  lemma {:induction false} InsertSplits(sf: SortFunc, s: seq<Ptr>, p: Ptr)
    requires Consistent(sf) && Ordered(sf, s) && p != NULL
    ensures forall k :: 0 <= k < InsertIndex(sf, s, p) ==> Compare(sf, s[k], p) <= 0
    ensures forall k :: InsertIndex(sf, s, p) <= k < |s| ==> Compare(sf, p, s[k]) <= 0
  {
    if sf != Unsorted {
      var signs, i := Signs(sf, s, p), InsertIndex(sf, s, p);
      SignsRise(sf, s, p);
      SignsAtIndex(signs);
      forall k | 0 <= k < |s|
        ensures if k < i then Compare(sf, s[k], p) <= 0 else Compare(sf, p, s[k]) <= 0
      {
        assert Sign(Compare(sf, s[k], p)) == signs[k];
        CompareFlip(sf, p, s[k]);
      }
    }
  }

  /** List_InsertPtr keeps a sorted list sorted, equal items included. */
  lemma {:induction false} InsertKeepsOrder(sf: SortFunc, s: seq<Ptr>, p: Ptr)
    requires Consistent(sf) && Ordered(sf, s) && p != NULL
    ensures Ordered(sf, InsertAt(s, p, InsertIndex(sf, s, p)))
  {
    InsertSplits(sf, s, p);
    InsertBetween(sf, s, p, InsertIndex(sf, s, p));
  }

  // ----- The built-in keys, in numbers -----

  /** `key` gives the numbers that a special constant sorts by; PtrKey sorts by the address itself. */
  ghost predicate KeyedBy(sf: SortFunc, key: Ptr -> nat) {
    sf == NumericKey(key) || sf == HandleKey(key) || (sf == PtrKey && forall q :: key(q) == q)
  }

  ghost predicate KeysRise(key: Ptr -> nat, s: seq<Ptr>) {
    forall i, j :: 0 <= i < j < |s| ==> key(s[i]) <= key(s[j])
  }

  lemma {:induction false} KeyedOrder(sf: SortFunc, key: Ptr -> nat, s: seq<Ptr>)
    requires KeyedBy(sf, key)
    ensures Consistent(sf) && (Ordered(sf, s) <==> KeysRise(key, s))
  {
    SpecialKeysConsistent(sf);
    if Ordered(sf, s) {
      forall i, j | 0 <= i < j < |s|
        ensures key(s[i]) <= key(s[j])
      {
        assert NotAfter(sf, s[i], s[j]);
      }
    }
  }

  /** On a list whose keys never fall the search finds an object with the key of p exactly if there is one, and
      otherwise the place between the smaller and the larger keys. */
  lemma {:induction false} KeyedSearch(sf: SortFunc, key: Ptr -> nat, s: seq<Ptr>, p: Ptr)
    requires KeyedBy(sf, key) && KeysRise(key, s) && p != NULL
    ensures var (found, i) := GetIndex(sf, s, p);
            && (found <==> exists k :: 0 <= k < |s| && key(s[k]) == key(p))
            && (found ==> 0 <= i < |s| && key(s[i]) == key(p))
            && (!found ==> && 0 <= i <= |s|
                           && (forall k :: 0 <= k < i ==> key(s[k]) < key(p))
                           && (forall k :: i <= k < |s| ==> key(s[k]) > key(p)))
  {
    KeyedOrder(sf, key, s);
    GetIndexFinds(sf, s, p);
    var signs := Signs(sf, s, p);
    assert forall k :: 0 <= k < |s| ==> signs[k] == Sign(key(s[k]) - key(p));
  }

  /** Insertion keeps the keys from falling. */
  lemma {:induction false} KeyedInsert(sf: SortFunc, key: Ptr -> nat, s: seq<Ptr>, p: Ptr)
    requires KeyedBy(sf, key) && KeysRise(key, s) && p != NULL
    ensures KeysRise(key, InsertAt(s, p, InsertIndex(sf, s, p)))
  {
    KeyedOrder(sf, key, s);
    InsertKeepsOrder(sf, s, p);
    KeyedOrder(sf, key, InsertAt(s, p, InsertIndex(sf, s, p)));
  }

  /** A comparison function whose negative, zero and positive results mean before, with and after. */
  ghost predicate Comparison(cmp: (Ptr, Ptr) -> int) {
    && (forall a, b :: cmp(a, b) <= 0 <==> cmp(b, a) >= 0)
    && (forall a, b, c :: cmp(a, b) <= 0 && cmp(b, c) <= 0 ==> cmp(a, c) <= 0)
  }

  ghost predicate InSequence(cmp: (Ptr, Ptr) -> int, s: seq<Ptr>) {
    forall i, j :: 0 <= i < j < |s| ==> cmp(s[i], s[j]) <= 0
  }

  lemma {:induction false} ComparisonOrder(cmp: (Ptr, Ptr) -> int, s: seq<Ptr>)
    requires Comparison(cmp)
    ensures Consistent(User(cmp)) && (Ordered(User(cmp), s) <==> InSequence(cmp, s))
  {
    var sf := User(cmp);
    assert forall a, b :: NotAfter(sf, a, b) <==> cmp(a, b) <= 0;
    assert forall a, b :: NotBefore(sf, a, b) <==> cmp(a, b) >= 0;
    if Ordered(sf, s) {
      forall i, j | 0 <= i < j < |s|
        ensures cmp(s[i], s[j]) <= 0
      {
        assert NotAfter(sf, s[i], s[j]);
      }
    }
  }

  /** The same for a comparison function, which is called with the item first. */
  lemma {:induction false} ComparedSearch(cmp: (Ptr, Ptr) -> int, s: seq<Ptr>, p: Ptr)
    requires Comparison(cmp) && InSequence(cmp, s) && p != NULL
    ensures var (found, i) := GetIndex(User(cmp), s, p);
            && (found <==> exists k :: 0 <= k < |s| && cmp(s[k], p) == 0)
            && (found ==> 0 <= i < |s| && cmp(s[i], p) == 0)
            && (!found ==> && 0 <= i <= |s|
                           && (forall k :: 0 <= k < i ==> cmp(s[k], p) < 0)
                           && (forall k :: i <= k < |s| ==> cmp(s[k], p) > 0))
    ensures InSequence(cmp, InsertAt(s, p, InsertIndex(User(cmp), s, p)))
  {
    var sf := User(cmp);
    ComparisonOrder(cmp, s);
    GetIndexFinds(sf, s, p);
    var signs := Signs(sf, s, p);
    assert forall k :: 0 <= k < |s| ==> signs[k] == Sign(cmp(s[k], p));
    InsertKeepsOrder(sf, s, p);
    ComparisonOrder(cmp, InsertAt(s, p, InsertIndex(sf, s, p)));
  }

  /** Of items that all sort equal to p, the one in the middle is found. */
  lemma {:induction false} MiddleOfEqualItems(sf: SortFunc, s: seq<Ptr>, p: Ptr)
    requires p != NULL && sf != Unsorted && s != []
    requires forall k :: 0 <= k < |s| ==> Compare(sf, s[k], p) == 0
    ensures GetIndex(sf, s, p) == (true, (|s| - 1) / 2)
  {
    var signs := Signs(sf, s, p);
    assert signs[(|s| - 1) / 2] == 0;
  }

  /** Without a sort function nothing is found, and insertion appends. */
  lemma {:induction false} UnsortedAppends(s: seq<Ptr>, p: Ptr)
    requires p != NULL
    ensures GetIndex(Unsorted, s, p) == (false, -1)
    ensures InsertAt(s, p, InsertIndex(Unsorted, s, p)) == s + [p]
  {}

  // ----- Removal -----

  /** What a call of List_Remove comes to: nothing, the items that remain, or a null stored in front of
      the array, after which nothing is known about the list. */
  datatype Removal = Refused | Remaining(items: seq<Ptr>) | StoredInFront

  /** List_Remove. Its range check lets an index equal to the count through. */
  function RemoveAt(s: seq<Ptr>, index: int): Removal {
    if index < 0 || index > |s| then Refused
    else
      var count := |s| - 1;
      if count < 0 then StoredInFront
      else Remaining(if count > index then s[..index] + s[index + 1..] else s[..count])
  }

  function WithoutItem(s: seq<Ptr>, i: int): seq<Ptr>
    requires 0 <= i < |s|
  {
    s[..i] + s[i + 1..]
  }

  /** What the index asks for: the item it names goes, and an index that names none is refused. */
  function AsNamed(s: seq<Ptr>, i: int): Removal {
    if 0 <= i < |s| then Remaining(WithoutItem(s, i)) else Refused
  }

  /** List_Remove does what its index says exactly if the index is not the count. At the count it takes the
      last item, or, in an empty list, stores in front of the array. */
  lemma {:induction false} RemoveAtExactly(s: seq<Ptr>, i: int)
    ensures RemoveAt(s, i) == AsNamed(s, i) <==> i != |s|
    ensures i == |s| && s != [] ==> RemoveAt(s, i) == Remaining(WithoutItem(s, |s| - 1))
    ensures i == |s| && s == [] ==> RemoveAt(s, i) == StoredInFront
  {}

  lemma {:induction false} RemoveAddsNothing(s: seq<Ptr>, i: int)
    requires RemoveAt(s, i).Remaining?
    ensures forall p :: p in RemoveAt(s, i).items ==> p in s
  {}

  lemma {:induction false} RemoveKeepsOrder(sf: SortFunc, s: seq<Ptr>, i: int)
    requires Ordered(sf, s) && RemoveAt(s, i).Remaining?
    ensures Ordered(sf, RemoveAt(s, i).items)
  {}

  // ----- Reverse iteration -----

  /** The items whose mark is `on`, in list order. */
  function Marked(s: seq<Ptr>, marks: seq<bool>, on: bool): seq<Ptr>
    requires |marks| == |s|
  {
    if s == [] then []
    else
      var rest := Marked(s[1..], marks[1..], on);
      if marks[0] == on then [s[0]] + rest else rest
  }

  /** Every item is either chosen or a survivor, and neither selection invents or repeats one. */
  lemma {:induction false} MarkedPartition(s: seq<Ptr>, marks: seq<bool>)
    requires |marks| == |s|
    ensures multiset(Marked(s, marks, true)) + multiset(Marked(s, marks, false)) == multiset(s)
  {
    if s == [] {
    } else {
      MarkedPartition(s[1..], marks[1..]);
      assert s == [s[0]] + s[1..];
    }
  }

  /** Where the marks are `on`, counted from `from`. */
  function Positions(marks: seq<bool>, on: bool, from: nat): seq<nat> {
    if marks == [] then []
    else
      var rest := Positions(marks[1..], on, from + 1);
      if marks[0] == on then [from] + rest else rest
  }

  ghost predicate Increasing(q: seq<nat>, from: nat, to: nat) {
    && (forall k :: 0 <= k < |q| ==> from <= q[k] < to)
    && (forall j, k :: 0 <= j < k < |q| ==> q[j] < q[k])
  }

  lemma {:induction false} OneMore(from: nat, t: seq<nat>, to: nat)
    requires Increasing(t, from + 1, to) && from < to
    ensures Increasing([from] + t, from, to)
  {}

  lemma {:induction false} StartLower(from: nat, t: seq<nat>, to: nat)
    requires Increasing(t, from + 1, to)
    ensures Increasing(t, from, to)
  {}

  lemma {:induction false} PositionsIncrease(marks: seq<bool>, on: bool, from: nat)
    ensures Increasing(Positions(marks, on, from), from, from + |marks|)
  {
    if marks == [] {
    } else {
      var rest := Positions(marks[1..], on, from + 1);
      PositionsIncrease(marks[1..], on, from + 1);
      if marks[0] == on {
        OneMore(from, rest, from + |marks|);
      } else {
        StartLower(from, rest, from + |marks|);
      }
    }
  }

  /** The positions are exactly those with the mark. */
  lemma {:induction false} PositionsExact(marks: seq<bool>, on: bool, from: nat, i: nat)
    requires i < |marks|
    ensures from + i in Positions(marks, on, from) <==> marks[i] == on
  {
    PositionsIncrease(marks[1..], on, from + 1);
    if i == 0 {
    } else {
      PositionsExact(marks[1..], on, from + 1, i - 1);
    }
  }

  /** A selection keeps list order: it reads the list at the marked positions, front to back. */
  lemma {:induction false} MarkedInOrder(s: seq<Ptr>, marks: seq<bool>, on: bool, from: nat)
    requires |marks| == |s|
    ensures var q := Positions(marks, on, from);
            && Increasing(q, from, from + |s|)
            && |Marked(s, marks, on)| == |q|
            && forall k :: 0 <= k < |q| ==> Marked(s, marks, on)[k] == s[q[k] - from]
  {
    PositionsIncrease(marks, on, from);
    if s == [] {
    } else {
      MarkedInOrder(s[1..], marks[1..], on, from + 1);
    }
  }

  // ----- A reverse walk that removes what it chooses -----

  /** Before item i is visited: everything up to i is untouched, and of the items behind it the chosen ones
      are gone, in `removed`, and the others remain. */
  ghost predicate Walked(s: seq<Ptr>, chosen: seq<bool>, i: int, items: seq<Ptr>, removed: seq<Ptr>) {
    && -1 <= i < |s| == |chosen|
    && items == s[..i + 1] + Marked(s[i + 1..], chosen[i + 1..], false)
    && removed == Reversed(Marked(s[i + 1..], chosen[i + 1..], true))
  }

  lemma {:induction false} WalkStart(s: seq<Ptr>, chosen: seq<bool>)
    requires |s| == |chosen|
    ensures Walked(s, chosen, |s| - 1, s, [])
  {}

  lemma {:induction false} WalkEnd(s: seq<Ptr>, chosen: seq<bool>, items: seq<Ptr>, removed: seq<Ptr>)
    requires Walked(s, chosen, -1, items, removed)
    ensures items == Marked(s, chosen, false) && removed == Reversed(Marked(s, chosen, true))
  {}

  lemma {:induction false} WalkOn(s: seq<Ptr>, chosen: seq<bool>, i: int, items: seq<Ptr>, removed: seq<Ptr>)
    requires 0 <= i && Walked(s, chosen, i, items, removed)
    ensures i < |items| && items[i] == s[i]
    ensures if chosen[i] then Walked(s, chosen, i - 1, WithoutItem(items, i), removed + [s[i]])
            else Walked(s, chosen, i - 1, items, removed)
    ensures Reversed(s[i..]) == Reversed(s[i + 1..]) + [s[i]]
  {
    var rest := Marked(s[i + 1..], chosen[i + 1..], false);
    var gone := Marked(s[i + 1..], chosen[i + 1..], true);
    assert s[i..][1..] == s[i + 1..] && chosen[i..][1..] == chosen[i + 1..];
    ReversedFront(s[i..]);
    if chosen[i] {
      assert Marked(s[i..], chosen[i..], false) == rest;
      ReversedFront([s[i]] + gone);
      assert ([s[i]] + gone)[1..] == gone;
    } else {
      assert Marked(s[i..], chosen[i..], true) == gone;
      assert s[..i + 1] + rest == s[..i] + ([s[i]] + rest);
    }
  }
}
