/** Sequences read from the back, concatenations, and sums of numbers. */
module Sequences {

  function Reversed<T>(s: seq<T>): (r: seq<T>)
    ensures |r| == |s|
  {
    if s == [] then [] else [s[|s| - 1]] + Reversed(s[..|s| - 1])
  }

  lemma {:induction false} ReversedAt<T>(s: seq<T>, k: nat)
    requires k < |s|
    ensures Reversed(s)[k] == s[|s| - 1 - k]
    decreases |s|
  {
    if k == 0 {
    } else {
      ReversedAt(s[..|s| - 1], k - 1);
    }
  }

  /** The first item comes last. */
  lemma {:induction false} ReversedFront<T>(s: seq<T>)
    requires s != []
    ensures Reversed(s) == Reversed(s[1..]) + [s[0]]
    decreases |s|
  {
    if |s| == 1 {
    } else {
      var init := s[..|s| - 1];
      ReversedFront(init);
      assert init[1..] == s[1..][..|s| - 2];
    }
  }

  function Concat<T>(parts: seq<seq<T>>): seq<T> {
    if parts == [] then [] else parts[0] + Concat(parts[1..])
  }

  function Sum(s: seq<nat>): nat {
    if s == [] then 0 else Sum(s[..|s| - 1]) + s[|s| - 1]
  }
}
