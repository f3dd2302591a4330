// The exchange sort of btc/btc_util.c on sequences: each turn compares the element at lp with a
// later one and swaps the two if they are the wrong way round. The comparison may also depend on
// the two positions, as one that reads bytes nobody wrote does.
module ExchangeSort {

  type Swap<!T> = (nat, nat, T, T) -> bool

  // What one turn of the inner loop does.
  function Exchange<T>(swap: Swap<T>, s: seq<T>, lp: nat, lp2: nat): (r: seq<T>)
    requires lp < lp2 < |s|
    ensures |r| == |s|
  {
    if swap(lp, lp2, s[lp], s[lp2]) then s[lp := s[lp2]][lp2 := s[lp]] else s
  }

  // The inner loop from lp2 on.
  function Pass<T>(swap: Swap<T>, s: seq<T>, lp: nat, lp2: nat): (r: seq<T>)
    requires lp < lp2 <= |s|
    ensures |r| == |s|
    decreases |s| - lp2
  {
    if lp2 == |s| then s else Pass(swap, Exchange(swap, s, lp, lp2), lp, lp2 + 1)
  }

  // The outer loop from lp on.
  function SortFrom<T>(swap: Swap<T>, s: seq<T>, lp: nat): (r: seq<T>)
    ensures |r| == |s|
    decreases |s| - lp
  {
    if lp + 1 >= |s| then s else SortFrom(swap, Pass(swap, s, lp, lp + 1), lp + 1)
  }

  // ok(a, b) says that a may stand before b. It need not be transitive: what a turn brings forward
  // may stand before whatever the other element may stand before.
  ghost predicate Fits<T>(swap: Swap<T>, ok: (T, T) -> bool, i: nat, j: nat, a: T, b: T, c: T) {
    if swap(i, j, a, b) then ok(b, a) && (ok(a, c) ==> ok(b, c)) else ok(a, b)
  }

  ghost predicate Sorts<T(!new)>(swap: Swap<T>, ok: (T, T) -> bool) {
    forall i: nat, j: nat, a, b, c :: Fits(swap, ok, i, j, a, b, c)
  }

  predicate InOrder<T>(ok: (T, T) -> bool, s: seq<T>) {
    forall i, j | 0 <= i < j < |s| :: ok(s[i], s[j])
  }

  // Everything before lp may stand before anything after it.
  predicate Placed<T>(ok: (T, T) -> bool, s: seq<T>, lp: nat) {
    forall i, k | 0 <= i < lp && i < k < |s| :: ok(s[i], s[k])
  }

  // Element lp may stand before those from there to lp2.
  predicate Least<T>(ok: (T, T) -> bool, s: seq<T>, lp: nat, lp2: nat)
    requires lp < lp2 <= |s|
  {
    forall k | lp < k < lp2 :: ok(s[lp], s[k])
  }

  lemma ExchangeKeeps<T(!new)>(swap: Swap<T>, ok: (T, T) -> bool, s: seq<T>, lp: nat, lp2: nat)
    requires lp < lp2 < |s| && Sorts(swap, ok) && Placed(ok, s, lp) && Least(ok, s, lp, lp2)
    ensures var r := Exchange(swap, s, lp, lp2);
            Placed(ok, r, lp) && Least(ok, r, lp, lp2 + 1) && multiset(r) == multiset(s)
  {
    assert Fits(swap, ok, lp, lp2, s[lp], s[lp2], s[lp]);
    forall k | lp < k < lp2 && swap(lp, lp2, s[lp], s[lp2]) ensures ok(s[lp2], s[k]) {
      assert Fits(swap, ok, lp, lp2, s[lp], s[lp2], s[k]);
    }
  }

  lemma {:induction false} PassKeeps<T(!new)>(swap: Swap<T>, ok: (T, T) -> bool, s: seq<T>, lp: nat, lp2: nat)
    requires lp < lp2 <= |s| && Sorts(swap, ok) && Placed(ok, s, lp) && Least(ok, s, lp, lp2)
    ensures Placed(ok, Pass(swap, s, lp, lp2), lp + 1) && multiset(Pass(swap, s, lp, lp2)) == multiset(s)
    decreases |s| - lp2
  {
    if lp2 < |s| {
      ExchangeKeeps(swap, ok, s, lp, lp2);
      PassKeeps(swap, ok, Exchange(swap, s, lp, lp2), lp, lp2 + 1);
    }
  }

  lemma {:induction false} SortFromKeeps<T(!new)>(swap: Swap<T>, ok: (T, T) -> bool, s: seq<T>, lp: nat)
    requires Sorts(swap, ok) && Placed(ok, s, lp)
    ensures InOrder(ok, SortFrom(swap, s, lp)) && multiset(SortFrom(swap, s, lp)) == multiset(s)
    decreases |s| - lp
  {
    if lp + 1 < |s| {
      PassKeeps(swap, ok, s, lp, lp + 1);
      SortFromKeeps(swap, ok, Pass(swap, s, lp, lp + 1), lp + 1);
    }
  }

  // No turn would swap anything.
  predicate Still<T>(swap: Swap<T>, s: seq<T>) {
    forall i, j | 0 <= i < j < |s| :: !swap(i, j, s[i], s[j])
  }

  lemma {:induction false} PassFixes<T>(swap: Swap<T>, s: seq<T>, lp: nat, lp2: nat)
    requires lp < lp2 <= |s| && Still(swap, s)
    ensures Pass(swap, s, lp, lp2) == s
    decreases |s| - lp2
  {
    if lp2 < |s| { PassFixes(swap, s, lp, lp2 + 1); }
  }

  // Then the elements are left as they are.
  lemma {:induction false} SortFixes<T>(swap: Swap<T>, s: seq<T>, lp: nat)
    requires Still(swap, s)
    ensures SortFrom(swap, s, lp) == s
    decreases |s| - lp
  {
    if lp + 1 < |s| {
      PassFixes(swap, s, lp, lp + 1);
      SortFixes(swap, s, lp + 1);
    }
  }

  lemma SameElements<T>(s: seq<T>, t: seq<T>, i: nat) returns (j: nat)
    requires multiset(s) == multiset(t) && i < |s|
    ensures j < |t| && t[j] == s[i]
  {
    assert s[i] in multiset(s);
    assert s[i] in t;
    j :| j < |t| && t[j] == s[i];
  }

  // s with the elements at i and j exchanged.
  function Swapped<T>(s: seq<T>, i: nat, j: nat): (r: seq<T>)
    requires i < |s| && j < |s|
    ensures |r| == |s| && multiset(r) == multiset(s)
  {
    s[i := s[j]][j := s[i]]
  }
}
