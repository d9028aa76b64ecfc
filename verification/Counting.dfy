/** How many different numbers a list without repetitions holds, and when it holds all of them. */
module Counting {

  ghost function Elements(list: seq<nat>): set<nat> {
    set x | x in list
  }

  lemma {:induction false} DistinctCount(list: seq<nat>)
    requires forall i, j :: 0 <= i < j < |list| ==> list[i] != list[j]
    ensures |Elements(list)| == |list|
  {
    if list != [] {
      var rest := list[1..];
      DistinctCount(rest);
      assert Elements(list) == Elements(rest) + {list[0]};
      assert list[0] !in rest;
    }
  }

  lemma {:induction false} SlotCount(bitmap: seq<bool>, marked: set<nat>, n: nat)
    requires n <= |bitmap| && marked == set p: nat | p < n && bitmap[p]
    ensures |marked| <= n
    ensures |marked| == n <==> forall p :: 0 <= p < n ==> bitmap[p]
  {
    if n > 0 {
      var rest := set p: nat | p < n - 1 && bitmap[p];
      SlotCount(bitmap, rest, n - 1);
      assert marked == if bitmap[n - 1] then rest + {n - 1} else rest;
    }
  }
}
