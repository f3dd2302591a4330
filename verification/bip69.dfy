// The sort of the outputs in btc_util_sort_bip69 of btc/btc_util.c, in place.
module Bip69 {
  import opened Basics
  import opened ExchangeSort
  import opened TxFormat

  // memcmp from byte i on: the difference at the first byte that differs.
  function Memcmp(x: Octets, y: Octets, i: nat, n: nat): int
    requires i <= n <= |x| && n <= |y|
    decreases n - i
  {
    if i == n then 0
    else if x[i] != y[i] then x[i] as int - y[i] as int
    else Memcmp(x, y, i + 1, n)
  }

  function Common(x: Octets, y: Octets): (n: nat)
    ensures n <= |x| && n <= |y|
  {
    if |x| < |y| then |x| else |y|
  }

  // When the loop swaps a before b: by value, then by the scripts as far as both go.
  predicate Greater(a: Vout, b: Vout) {
    a.value > b.value || (a.value == b.value && Memcmp(a.script, b.script, 0, Common(a.script, b.script)) > 0)
  }

  // The first byte in which x and y differ is at d, and smaller in x.
  predicate FirstLess(x: Octets, y: Octets, d: nat) {
    d < |x| && d < |y| && x[..d] == y[..d] && x[d] < y[d]
  }

  // memcmp is negative or positive according to the first byte that differs.
  lemma {:induction false} MemcmpSign(x: Octets, y: Octets, i: nat)
    requires i <= Common(x, y) && x[..i] == y[..i]
    ensures Memcmp(x, y, i, Common(x, y)) < 0 <==> exists d :: FirstLess(x, y, d)
    ensures Memcmp(x, y, i, Common(x, y)) > 0 <==> exists d :: FirstLess(y, x, d)
    decreases |x| - i
  {
    forall d: nat | d < i ensures !FirstLess(x, y, d) && !FirstLess(y, x, d) { SamePrefixByte(x, y, i, d); }
    if i < Common(x, y) {
      if x[i] == y[i] {
        assert x[..i + 1] == x[..i] + [x[i]] && y[..i + 1] == y[..i] + [y[i]];
        MemcmpSign(x, y, i + 1);
      } else {
        assert FirstLess(x, y, i) || FirstLess(y, x, i);
        forall d: nat | i < d ensures !FirstLess(x, y, d) && !FirstLess(y, x, d) { OtherPrefix(x, y, i, d); }
      }
    }
  }

  lemma SamePrefixByte(x: Octets, y: Octets, i: nat, d: nat)
    requires d < i <= |x| && i <= |y| && x[..i] == y[..i]
    ensures x[d] == y[d]
  {
    assert x[..i][d] == y[..i][d];
  }

  lemma OtherPrefix(x: Octets, y: Octets, i: nat, d: nat)
    requires i < |x| && i < |y| && x[i] != y[i] && i < d
    ensures d <= |x| && d <= |y| ==> x[..d] != y[..d]
  {
    if d <= |x| && d <= |y| { assert x[..d][i] != y[..d][i]; }
  }

  lemma {:induction false} MemcmpTransitive(x: Octets, y: Octets, z: Octets, i: nat)
    requires i <= Common(x, y) && i <= Common(y, z) && i <= Common(x, z)
    requires Memcmp(x, y, i, Common(x, y)) > 0 && Memcmp(y, z, i, Common(y, z)) > 0
    ensures Memcmp(x, z, i, Common(x, z)) > 0
    decreases |x| - i
  {
    if x[i] == y[i] == z[i] { MemcmpTransitive(x, y, z, i + 1); }
  }

  lemma {:induction false} MemcmpAntisymmetric(x: Octets, y: Octets, i: nat, n: nat)
    requires i <= n <= |x| && n <= |y|
    ensures Memcmp(x, y, i, n) == -Memcmp(y, x, i, n)
    decreases n - i
  {
    if i < n && x[i] == y[i] { MemcmpAntisymmetric(x, y, i + 1, n); }
  }

  // Being greater is transitive, though being neither greater nor less is not.
  lemma GreaterTransitive(a: Vout, b: Vout, c: Vout)
    requires Greater(a, b) && Greater(b, c)
    ensures Greater(a, c)
  {
    if a.value == b.value == c.value { MemcmpTransitive(a.script, b.script, c.script, 0); }
  }

  lemma GreaterAsymmetric(a: Vout, b: Vout)
    requires Greater(a, b)
    ensures !Greater(b, a)
  {
    MemcmpAntisymmetric(a.script, b.script, 0, Common(a.script, b.script));
  }

  // Three outputs, each next pair equal to the comparison, but the first greater than the last.
  lemma EqualNotTransitive()
    ensures exists a, b, c :: !Greater(a, b) && !Greater(b, a) && !Greater(b, c) && !Greater(c, b) && Greater(a, c)
  {
    var a, b, c := Vout(0, [2]), Vout(0, []), Vout(0, [1]);
    assert !Greater(a, b) && !Greater(b, a) && !Greater(b, c) && !Greater(c, b);
    assert Memcmp(a.script, c.script, 0, 1) == 1;
    assert Greater(a, c);
  }

  // ---------- the order BIP 69 asks for ----------

  predicate ProperPrefix(x: Octets, y: Octets) { |x| < |y| && y[..|x|] == x }

  // By value, then by the scripts byte for byte, a script before its extensions.
  ghost predicate Bip69AtMost(a: Vout, b: Vout) {
    || a.value < b.value
    || (a.value == b.value && (a.script <= b.script || exists d :: FirstLess(a.script, b.script, d)))
  }

  lemma {:induction false} MemcmpZero(x: Octets, y: Octets, i: nat, n: nat)
    requires i <= n <= |x| && n <= |y|
    ensures Memcmp(x, y, i, n) == 0 <==> x[i..n] == y[i..n]
    decreases n - i
  {
    if i < n {
      assert x[i..n] == [x[i]] + x[i + 1..n] && y[i..n] == [y[i]] + y[i + 1..n];
      MemcmpZero(x, y, i + 1, n);
    }
  }

  // Two outputs left in this order are in the order of BIP 69 exactly unless the second has the
  // same value and a script of which the first is an extension.
  lemma OrderExact(a: Vout, b: Vout)
    requires !Greater(a, b)
    ensures Bip69AtMost(a, b) <==> !(a.value == b.value && ProperPrefix(b.script, a.script))
  {
    MemcmpZero(a.script, b.script, 0, Common(a.script, b.script));
    MemcmpSign(a.script, b.script, 0);
  }

  // ---------- the sort ----------

  function GreaterSwap(): Swap<Vout> { (i: nat, j: nat, a: Vout, b: Vout) => Greater(a, b) }

  function NotGreater(): (Vout, Vout) -> bool { (a: Vout, b: Vout) => !Greater(a, b) }

  function Sorted(s: seq<Vout>): (r: seq<Vout>)
    ensures |r| == |s|
  {
    SortFrom(GreaterSwap(), s, 0)
  }

  lemma GreaterSorts()
    ensures Sorts(GreaterSwap(), NotGreater())
  {
    forall i: nat, j: nat, a, b, c ensures Fits(GreaterSwap(), NotGreater(), i, j, a, b, c) {
      if Greater(a, b) {
        GreaterAsymmetric(a, b);
        if Greater(b, c) { GreaterTransitive(a, b, c); }
      }
    }
  }

  // No output of the result is greater than a later one, and none is lost or invented.
  lemma SortedInOrder(s: seq<Vout>)
    ensures multiset(Sorted(s)) == multiset(s)
    ensures forall i, j | 0 <= i < j < |s| :: !Greater(Sorted(s)[i], Sorted(s)[j])
  {
    GreaterSorts();
    SortFromKeeps(GreaterSwap(), NotGreater(), s, 0);
    var r := Sorted(s);
    forall i, j | 0 <= i < j < |s| ensures !Greater(r[i], r[j]) { assert NotGreater()(r[i], r[j]); }
  }

  predicate Ascending(s: seq<Vout>) {
    forall i, j | 0 <= i < j < |s| :: !Greater(s[i], s[j])
  }

  // What is in order is left as it is.
  lemma SortedFixes(s: seq<Vout>)
    requires Ascending(s)
    ensures Sorted(s) == s
  {
    SortFixes(GreaterSwap(), s, 0);
  }

  // ---------- when the result is in the order of BIP 69 ----------

  ghost predicate Bip69Ordered(s: seq<Vout>) {
    forall i, j | 0 <= i < j < |s| :: Bip69AtMost(s[i], s[j])
  }

  // The pairs of outputs that the comparison cannot tell apart though BIP 69 does.
  predicate PrefixPair(a: Vout, b: Vout) {
    a.value == b.value && ProperPrefix(a.script, b.script)
  }

  predicate NoPrefixPairs(s: seq<Vout>) {
    forall i, j | 0 <= i < |s| && 0 <= j < |s| :: !PrefixPair(s[i], s[j])
  }

  // Without such a pair among the outputs, in whatever order they come, the result is right.
  lemma NoPairsSuffice(s: seq<Vout>)
    requires NoPrefixPairs(s)
    ensures Bip69Ordered(Sorted(s))
  {
    var r := Sorted(s);
    SortedInOrder(s);
    forall i, j | 0 <= i < j < |r| ensures Bip69AtMost(r[i], r[j]) {
      var a := SameElements(r, s, i);
      var b := SameElements(r, s, j);
      assert !PrefixPair(s[b], s[a]);
      OrderExact(r[i], r[j]);
    }
  }

  // What lies between a script and an extension of it is a prefix of the extension or extends
  // the script.
  lemma {:induction false} BetweenPrefixes(x: Octets, m: Octets, y: Octets, i: nat)
    requires ProperPrefix(x, y) && i <= Common(x, m) && i <= Common(m, y)
    requires m[..i] == x[..i]
    requires Memcmp(x, m, i, Common(x, m)) <= 0 && Memcmp(m, y, i, Common(m, y)) <= 0
    ensures m[..Common(x, m)] == x[..Common(x, m)]
    decreases |x| - i
  {
    if i < Common(x, m) {
      assert x[i] == y[i];
      assert m[..i + 1] == x[..i + 1];
      BetweenPrefixes(x, m, y, i + 1);
    }
  }

  // An output between the two of a pair, in order, makes a pair with one of them, or is equal in
  // script to the first.
  lemma PairCloser(a: Vout, m: Vout, b: Vout)
    requires PrefixPair(a, b) && !Greater(a, m) && !Greater(m, b)
    ensures PrefixPair(a, m) || PrefixPair(m, b)
  {
    var n := Common(a.script, m.script);
    BetweenPrefixes(a.script, m.script, b.script, 0);
    if |a.script| < |m.script| {
      assert m.script[..n] == a.script;
    } else {
      assert m.script == a.script[..n];
      assert b.script[..n] == b.script[..|a.script|][..n];
    }
  }

  // So a pair in order has an adjacent pair between its ends.
  lemma {:induction false} AdjacentPair(s: seq<Vout>, i: nat, j: nat) returns (k: nat)
    requires Ascending(s) && i < j < |s| && PrefixPair(s[i], s[j])
    ensures i <= k && k + 1 <= j && PrefixPair(s[k], s[k + 1])
    decreases j - i
  {
    k := i;
    if i + 1 < j {
      PairCloser(s[i], s[i + 1], s[j]);
      if !PrefixPair(s[i], s[i + 1]) {
        k := AdjacentPair(s, i + 1, j);
      }
    }
  }

  // Swapping an adjacent pair leaves the outputs in order, but not in that of BIP 69.
  lemma SwappedPair(s: seq<Vout>, k: nat)
    requires Ascending(s) && k + 1 < |s| && PrefixPair(s[k], s[k + 1])
    ensures Ascending(Swapped(s, k, k + 1)) && !Bip69Ordered(Swapped(s, k, k + 1))
  {
    var t := Swapped(s, k, k + 1);
    PairNotGreater(s[k], s[k + 1]);
    forall i, j | 0 <= i < j < |t| ensures !Greater(t[i], t[j]) {
      var a := if i == k then k + 1 else if i == k + 1 then k else i;
      var b := if j == k then k + 1 else if j == k + 1 then k else j;
      assert t[i] == s[a] && t[j] == s[b];
    }
    assert !Bip69AtMost(t[k], t[k + 1]) by { OrderExact(t[k], t[k + 1]); }
  }

  lemma PairNotGreater(a: Vout, b: Vout)
    requires PrefixPair(a, b)
    ensures !Greater(b, a)
  {
    MemcmpZero(b.script, a.script, 0, Common(b.script, a.script));
  }

  // With such a pair, some arrangement of the same outputs is sorted wrongly.
  lemma PairsFail(s: seq<Vout>) returns (t: seq<Vout>)
    requires !NoPrefixPairs(s)
    ensures multiset(t) == multiset(s) && !Bip69Ordered(Sorted(t))
  {
    var r := Sorted(s);
    SortedInOrder(s);
    var i, j :| 0 <= i < |s| && 0 <= j < |s| && PrefixPair(s[i], s[j]);
    var a := SameElements(s, r, i);
    var b := SameElements(s, r, j);
    if b < a {
      OrderExact(r[b], r[a]);
      t := s;
    } else {
      var k := AdjacentPair(r, a, b);
      SwappedPair(r, k);
      SortedFixes(Swapped(r, k, k + 1));
      t := Swapped(r, k, k + 1);
    }
  }

  // The sort gives the order of BIP 69 for every arrangement of the outputs if and only if no two
  // of them have the same value and scripts of which one is a proper prefix of the other.
  lemma SortExact(s: seq<Vout>)
    ensures (forall t | multiset(t) == multiset(s) :: Bip69Ordered(Sorted(t))) <==> NoPrefixPairs(s)
  {
    if NoPrefixPairs(s) {
      forall t | multiset(t) == multiset(s) ensures Bip69Ordered(Sorted(t)) {
        SameNoPairs(s, t);
        NoPairsSuffice(t);
      }
    } else {
      var t := PairsFail(s);
    }
  }

  lemma SameNoPairs(s: seq<Vout>, t: seq<Vout>)
    requires multiset(t) == multiset(s) && NoPrefixPairs(s)
    ensures NoPrefixPairs(t)
  {
    forall i, j | 0 <= i < |t| && 0 <= j < |t| ensures !PrefixPair(t[i], t[j]) {
      var a := SameElements(t, s, i);
      var b := SameElements(t, s, j);
      assert !PrefixPair(s[a], s[b]);
    }
  }

  // Two outputs that the sort leaves in the wrong order.
  lemma WrongOrder()
    ensures var s := [Vout(0, [1]), Vout(0, [])]; Sorted(s) == s && !Bip69Ordered(s)
  {
    var s := [Vout(0, [1]), Vout(0, [])];
    assert !Greater(s[0], s[1]);
    SortedFixes(s);
    assert !Bip69AtMost(s[0], s[1]);
  }

  // ---------- the C function ----------

  // The sort of the outputs, in place.
  method SortVouts(vout: array<Vout>)
    modifies vout
    ensures vout[..] == Sorted(old(vout[..]))
  {
    if vout.Length > 1 {
      var lp := 0;
      while lp < vout.Length - 1
        invariant 0 <= lp <= vout.Length - 1
        invariant SortFrom(GreaterSwap(), vout[..], lp) == Sorted(old(vout[..]))
      {
        var lp2 := lp + 1;
        while lp2 < vout.Length
          invariant lp < lp2 <= vout.Length
          invariant SortFrom(GreaterSwap(), Pass(GreaterSwap(), vout[..], lp, lp2), lp + 1) == Sorted(old(vout[..]))
        {
          ExchangeVouts(vout, lp, lp2);
          lp2 := lp2 + 1;
        }
        lp := lp + 1;
      }
    }
  }

  method ExchangeVouts(vout: array<Vout>, lp: nat, lp2: nat)
    requires lp < lp2 < vout.Length
    modifies vout
    ensures vout[..] == Exchange(GreaterSwap(), old(vout[..]), lp, lp2)
  {
    if Greater(vout[lp], vout[lp2]) {
      vout[lp], vout[lp2] := vout[lp2], vout[lp];
    }
  }
}
