/** Finite sets of page numbers: the range 1..n and the set shifted one down. */
module IntSets {

  /** The page numbers 1..n. */
  function Range(n: nat): (s: set<int>)
    ensures forall k :: k in s <==> 1 <= k <= n
    ensures |s| == n
    decreases n
  {
    if n == 0 then {} else Range(n - 1) + {n}
  }

  /** Every key of `s` one lower. */
  function Lowered(s: set<int>): (t: set<int>)
    ensures forall j :: j in t <==> j + 1 in s
  {
    set k | k in s :: k - 1
  }

  /** Shifting every key one down neither merges nor drops keys. */
  lemma {:induction false} LoweredSize(s: set<int>)
    ensures |Lowered(s)| == |s|
    decreases |s|
  {
    if x :| x in s {
      var rest := s - {x};
      LoweredSize(rest);
      assert Lowered(s) == Lowered(rest) + {x - 1};
    } else {
      assert forall y :: y in s <==> y in {};
      assert forall y :: y in Lowered(s) <==> y in {};
    }
  }

  /** Two sets with no common element: the union's size is the sum. */
  lemma DisjointUnionSize(a: set<int>, b: set<int>)
    requires forall x :: x in a ==> x !in b
    ensures |a + b| == |a| + |b|
  {
    assert forall x :: x in a * b <==> x in {};
  }

  /** The keys of `keys` under `d`. */
  function Below(keys: set<int>, d: int): (s: set<int>)
    ensures forall k :: k in s <==> k in keys && k < d
  {
    set k | k in keys && k < d
  }

  /** The keys of `keys` over `d`. */
  function Above(keys: set<int>, d: int): (s: set<int>)
    ensures forall k :: k in s <==> k in keys && k > d
  {
    set k | k in keys && k > d
  }

  /** Removing `d` leaves exactly the keys under it and the keys over it. */
  lemma RemovedSplits(keys: set<int>, d: int)
    ensures keys - {d} == Below(keys, d) + Above(keys, d)
  {
    assert forall j :: j in keys - {d} <==> j in Below(keys, d) + Above(keys, d);
  }

  /** Removing `d` and closing the gap from below: keys under `d` one lower, keys over `d` as they were. */
  function RenumberedKeys(keys: set<int>, d: int): (s: set<int>)
    ensures forall j {:trigger j in s} :: j in s <==> (j + 1 in keys && j + 1 < d) || (j in keys && j > d)
  {
    Lowered(Below(keys, d)) + Above(keys, d)
  }

  /** Closing the gap merges no two keys: one key fewer when `d` was present, as many when not. */
  lemma RenumberedKeysSize(keys: set<int>, d: int)
    ensures |RenumberedKeys(keys, d)| == |keys - {d}|
  {
    var below, above := Below(keys, d), Above(keys, d);
    LoweredSize(below);
    DisjointUnionSize(Lowered(below), above);
    RemovedSplits(keys, d);
    DisjointUnionSize(below, above);
  }

  /** Closing the gap left by 2 in {1, 2, 3}: 1 moves down to 0, 3 stays. */
  lemma ClosingMiddleOfThree()
    ensures RenumberedKeys({1, 2, 3}, 2) == {0, 3}
  {
    var s := RenumberedKeys({1, 2, 3}, 2);
    forall j ensures j in s <==> j in {0, 3} {
      assert j + 1 in {1, 2, 3} && j + 1 < 2 <==> j == 0;
      assert j in {1, 2, 3} && j > 2 <==> j == 3;
    }
  }
}
