// The sort of the inputs in btc_util_sort_bip69 of btc/btc_util.c, in place, and the whole call.
// The loop compares 16 bytes of each id, last byte first, followed by 16 bytes that were never
// written, and then the indices.
module Bip69Inputs {
  import opened Basics
  import opened Bip69
  import opened ExchangeSort
  import opened TxFormat

  type Half = x: Octets | |x| == 16 witness seq(16, _ => 0)

  // The unwritten bytes at each comparison.
  type Unset = (nat, nat) -> (Half, Half)

  function Reversed(x: Octets): (r: Octets)
    ensures |r| == |x|
  {
    seq(|x|, i requires 0 <= i < |x| => x[|x| - 1 - i])
  }

  function HalfReversed(txid: Octets): Half
    requires |txid| == 32
  {
    seq(16, i requires 0 <= i < 16 => txid[31 - i])
  }

  // When the loop swaps a before b, with u in the unwritten bytes.
  predicate Wrong(u: (Half, Half), a: Vin, b: Vin) {
    |a.txid| == 32 && |b.txid| == 32 &&
    var cmp := Memcmp(HalfReversed(a.txid) + u.0, HalfReversed(b.txid) + u.1, 0, 32);
    cmp > 0 || (cmp == 0 && a.index >= b.index)
  }

  function WrongSwap(unset: Unset): Swap<Vin> {
    (i: nat, j: nat, a: Vin, b: Vin) => Wrong(unset(i, j), a, b)
  }

  function SortedVins(unset: Unset, s: seq<Vin>): (r: seq<Vin>)
    ensures |r| == |s|
  {
    SortFrom(WrongSwap(unset), s, 0)
  }

  // ---------- what the comparison decides, whatever was not written ----------

  // The written halves are in order.
  predicate HalfAtMost(a: Vin, b: Vin) {
    |a.txid| == 32 && |b.txid| == 32 ==> Memcmp(HalfReversed(a.txid), HalfReversed(b.txid), 0, 16) <= 0
  }

  function HalfOrder(): (Vin, Vin) -> bool { (a: Vin, b: Vin) => HalfAtMost(a, b) }

  lemma {:induction false} MemcmpAppended(x: Octets, y: Octets, u: Octets, v: Octets, i: nat)
    requires |x| == |y| && |u| == |v| && i <= |x|
    ensures Memcmp(x + u, y + v, i, |x| + |u|) ==
            if Memcmp(x, y, i, |x|) != 0 then Memcmp(x, y, i, |x|) else Memcmp(u, v, 0, |u|)
    decreases |x| - i
  {
    if i < |x| {
      if x[i] == y[i] { MemcmpAppended(x, y, u, v, i + 1); }
    } else {
      MemcmpShifted(x, y, u, v, 0);
    }
  }

  lemma {:induction false} MemcmpShifted(x: Octets, y: Octets, u: Octets, v: Octets, i: nat)
    requires |x| == |y| && |u| == |v| && i <= |u|
    ensures Memcmp(x + u, y + v, |x| + i, |x| + |u|) == Memcmp(u, v, i, |u|)
    decreases |u| - i
  {
    if i < |u| && u[i] == v[i] { MemcmpShifted(x, y, u, v, i + 1); }
  }

  lemma {:induction false} MemcmpAtMostTransitive(x: Octets, y: Octets, z: Octets, i: nat)
    requires |x| == |y| == |z| && i <= |x|
    requires Memcmp(x, y, i, |x|) <= 0 && Memcmp(y, z, i, |x|) <= 0
    ensures Memcmp(x, z, i, |x|) <= 0
    decreases |x| - i
  {
    if i < |x| && x[i] == y[i] == z[i] { MemcmpAtMostTransitive(x, y, z, i + 1); }
  }

  lemma WrongIs(u: (Half, Half), a: Vin, b: Vin)
    requires |a.txid| == 32 && |b.txid| == 32
    ensures var d := Memcmp(HalfReversed(a.txid), HalfReversed(b.txid), 0, 16);
            && (d > 0 ==> Wrong(u, a, b)) && (d < 0 ==> !Wrong(u, a, b))
            && (d == 0 && Memcmp(u.0, u.1, 0, 16) < 0 ==> !Wrong(u, a, b))
  {
    MemcmpAppended(HalfReversed(a.txid), HalfReversed(b.txid), u.0, u.1, 0);
  }

  lemma WrongFits(u: (Half, Half), a: Vin, b: Vin, c: Vin)
    ensures if Wrong(u, a, b) then HalfAtMost(b, a) && (HalfAtMost(a, c) ==> HalfAtMost(b, c))
            else HalfAtMost(a, b)
  {
    if |a.txid| == 32 && |b.txid| == 32 {
      var x, y := HalfReversed(a.txid), HalfReversed(b.txid);
      WrongIs(u, a, b);
      MemcmpAntisymmetric(x, y, 0, 16);
      if Wrong(u, a, b) && HalfAtMost(a, c) && |c.txid| == 32 {
        MemcmpAtMostTransitive(y, x, HalfReversed(c.txid), 0);
      }
    }
  }

  lemma HalvesSort(unset: Unset)
    ensures Sorts(WrongSwap(unset), HalfOrder())
  {
    forall i: nat, j: nat, a, b, c ensures Fits(WrongSwap(unset), HalfOrder(), i, j, a, b, c) {
      WrongFits(unset(i, j), a, b, c);
    }
  }

  // Whatever was not written, the inputs are permuted into the order of the last 16 bytes of
  // their ids, read backwards.
  lemma VinsInHalfOrder(unset: Unset, s: seq<Vin>)
    ensures multiset(SortedVins(unset, s)) == multiset(s)
    ensures forall i, j | 0 <= i < j < |s| :: HalfAtMost(SortedVins(unset, s)[i], SortedVins(unset, s)[j])
  {
    HalvesSort(unset);
    SortFromKeeps(WrongSwap(unset), HalfOrder(), s, 0);
    var r := SortedVins(unset, s);
    forall i, j | 0 <= i < j < |s| ensures HalfAtMost(r[i], r[j]) { assert HalfOrder()(r[i], r[j]); }
  }

  // ---------- when that is the order BIP 69 asks for ----------

  // By id read backwards, byte for byte, then by index.
  ghost predicate VinAtMost(a: Vin, b: Vin) {
    (a.txid == b.txid && a.index <= b.index) || exists d :: FirstLess(Reversed(a.txid), Reversed(b.txid), d)
  }

  ghost predicate VinsOrdered(s: seq<Vin>) {
    forall i, j | 0 <= i < j < |s| :: VinAtMost(s[i], s[j])
  }

  // Two different inputs that agree in the last 16 bytes of their ids.
  predicate Clash(a: Vin, b: Vin)
    requires |a.txid| == 32 && |b.txid| == 32
  {
    a.txid[16..] == b.txid[16..] && !(a.txid == b.txid && a.index == b.index)
  }

  lemma HalvesAre(a: Octets, b: Octets)
    requires |a| == 32 && |b| == 32
    ensures HalfReversed(a) == Reversed(a)[..16]
    ensures HalfReversed(a) == HalfReversed(b) <==> a[16..] == b[16..]
  {
    if HalfReversed(a) == HalfReversed(b) {
      forall k | 0 <= k < 16 ensures a[16..][k] == b[16..][k] {
        assert HalfReversed(a)[15 - k] == HalfReversed(b)[15 - k];
      }
    }
    forall k | 0 <= k < 16 ensures HalfReversed(a)[k] == a[16..][15 - k] {}
    forall k | 0 <= k < 16 ensures HalfReversed(b)[k] == b[16..][15 - k] {}
  }

  lemma FirstLessExtends(x: Octets, y: Octets, n: nat, d: nat)
    requires n <= |x| && n <= |y| && FirstLess(x[..n], y[..n], d)
    ensures FirstLess(x, y, d)
  {
    assert x[..n][..d] == x[..d] && y[..n][..d] == y[..d];
  }

  lemma HalfDecides(a: Vin, b: Vin)
    requires |a.txid| == 32 && |b.txid| == 32 && HalfAtMost(a, b) && !Clash(a, b)
    ensures VinAtMost(a, b)
  {
    var x, y := HalfReversed(a.txid), HalfReversed(b.txid);
    HalvesAre(a.txid, b.txid);
    HalvesAre(b.txid, a.txid);
    MemcmpZero(x, y, 0, 16);
    if x != y {
      assert x[0..16] == x && y[0..16] == y;
      MemcmpSign(x, y, 0);
      var d :| FirstLess(x, y, d);
      FirstLessExtends(Reversed(a.txid), Reversed(b.txid), 16, d);
    }
  }

  // Of two different inputs exactly one comes first.
  lemma VinAtMostStrict(a: Vin, b: Vin)
    requires |a.txid| == 32 && |b.txid| == 32 && !(a.txid == b.txid && a.index == b.index)
    ensures !VinAtMost(a, b) || !VinAtMost(b, a)
  {
    MemcmpSign(Reversed(a.txid), Reversed(b.txid), 0);
    MemcmpZero(Reversed(a.txid), Reversed(b.txid), 0, 32);
  }

  // Unwritten bytes with which no two inputs of equal halves are swapped.
  function Quiet(): Unset { (i: nat, j: nat) => (Fill(0), Fill(1)) }

  function Fill(b: Octet): Half { seq(16, _ => b) }

  lemma QuietStill(s: seq<Vin>)
    requires forall i, j | 0 <= i < j < |s| :: HalfAtMost(s[i], s[j])
    ensures SortedVins(Quiet(), s) == s
  {
    forall i, j | 0 <= i < j < |s| ensures !Wrong(Quiet()(i, j), s[i], s[j]) {
      if |s[i].txid| == 32 && |s[j].txid| == 32 {
        assert HalfAtMost(s[i], s[j]);
        WrongIs(Quiet()(i, j), s[i], s[j]);
      }
    }
    SortFixes(WrongSwap(Quiet()), s, 0);
  }

  lemma SwappedHalves(s: seq<Vin>, p: nat, q: nat)
    requires p < |s| && q < |s| && |s[p].txid| == 32 && |s[q].txid| == 32
    requires HalfReversed(s[p].txid) == HalfReversed(s[q].txid)
    requires forall i, j | 0 <= i < j < |s| :: HalfAtMost(s[i], s[j])
    ensures forall i, j | 0 <= i < j < |s| :: HalfAtMost(Swapped(s, p, q)[i], Swapped(s, p, q)[j])
  {
    var t := Swapped(s, p, q);
    forall i, j | 0 <= i < j < |s| ensures HalfAtMost(t[i], t[j]) {
      assert HalfAtMost(s[i], s[j]);
      MemcmpZero(HalfReversed(s[p].txid), HalfReversed(s[q].txid), 0, 16);
    }
  }

  // With such a pair, some arrangement of the inputs and some unwritten bytes give a wrong order.
  lemma ClashFails(s: seq<Vin>, i: nat, j: nat) returns (t: seq<Vin>)
    requires forall k | 0 <= k < |s| :: |s[k].txid| == 32
    requires i < |s| && j < |s| && Clash(s[i], s[j]) && !VinAtMost(s[i], s[j])
    ensures multiset(t) == multiset(s) && !VinsOrdered(SortedVins(Quiet(), t))
  {
    var r := SortedVins(Quiet(), s);
    VinsInHalfOrder(Quiet(), s);
    var p := SameElements(s, r, i);
    var q := SameElements(s, r, j);
    if p < q {
      t := s;
      assert !VinAtMost(r[p], r[q]);
    } else {
      t := Swapped(r, p, q);
      HalvesAre(s[i].txid, s[j].txid);
      SwappedHalves(r, p, q);
      QuietStill(t);
      assert p != q && !VinAtMost(t[q], t[p]);
    }
  }

  // Every arrangement of the inputs ends in the order of BIP 69, whatever was not written, if and
  // only if no two different ones agree in the last 16 bytes of their ids.
  lemma VinsExact(s: seq<Vin>)
    requires forall k | 0 <= k < |s| :: |s[k].txid| == 32
    ensures (forall unset, t | multiset(t) == multiset(s) :: VinsOrdered(SortedVins(unset, t))) <==>
            (forall i, j | 0 <= i < |s| && 0 <= j < |s| :: !Clash(s[i], s[j]))
  {
    if i, j :| 0 <= i < |s| && 0 <= j < |s| && Clash(s[i], s[j]) {
      VinAtMostStrict(s[i], s[j]);
      if VinAtMost(s[i], s[j]) {
        var t := ClashFails(s, j, i);
      } else {
        var t := ClashFails(s, i, j);
      }
    } else {
      forall unset, t | multiset(t) == multiset(s) ensures VinsOrdered(SortedVins(unset, t)) {
        VinsInHalfOrder(unset, t);
        NoClashOrdered(s, SortedVins(unset, t));
      }
    }
  }

  lemma NoClashOrdered(s: seq<Vin>, r: seq<Vin>)
    requires forall k | 0 <= k < |s| :: |s[k].txid| == 32
    requires forall i, j | 0 <= i < |s| && 0 <= j < |s| :: !Clash(s[i], s[j])
    requires multiset(r) == multiset(s) && forall i, j | 0 <= i < j < |r| :: HalfAtMost(r[i], r[j])
    ensures VinsOrdered(r)
  {
    forall i, j | 0 <= i < j < |r| ensures VinAtMost(r[i], r[j]) {
      var a := SameElements(r, s, i);
      var b := SameElements(r, s, j);
      assert !Clash(s[a], s[b]);
      HalfDecides(r[i], r[j]);
    }
  }

  // Two inputs that spend outputs of one transaction: their indices are looked at only if the
  // unwritten bytes happen to be equal.
  lemma SameTransaction(unset: Unset, a: Vin, b: Vin)
    requires |a.txid| == 32 && a.txid == b.txid
    ensures var (u, v) := unset(0, 1);
            && (u == v ==> SortedVins(unset, [a, b]) == if a.index < b.index then [a, b] else [b, a])
            && ((exists d :: FirstLess(u, v, d)) ==> SortedVins(unset, [a, b]) == [a, b])
            && ((exists d :: FirstLess(v, u, d)) ==> SortedVins(unset, [a, b]) == [b, a])
  {
    var (u, v) := unset(0, 1);
    var x := HalfReversed(a.txid);
    MemcmpAppended(x, x, u, v, 0);
    MemcmpZero(x, x, 0, 16);
    MemcmpZero(u, v, 0, 16);
    MemcmpSign(u, v, 0);
    assert u == u[0..16] && v == v[0..16];
    TwoSorted(WrongSwap(unset), a, b);
  }

  lemma TwoSorted<T>(swap: Swap<T>, a: T, b: T)
    ensures SortFrom(swap, [a, b], 0) == if swap(0, 1, a, b) then [b, a] else [a, b]
  {
    var s := [a, b];
    var r := Exchange(swap, s, 0, 1);
    assert r == if swap(0, 1, a, b) then [b, a] else [a, b];
    assert Pass(swap, s, 0, 1) == Pass(swap, r, 0, 2) == r;
    assert SortFrom(swap, r, 1) == r;
  }

  // ---------- the C function ----------

  predicate Ids(s: seq<Vin>) {
    forall i | 0 <= i < |s| :: |s[i].txid| == 32
  }

  // The sort of the inputs, in place. Every id has 32 bytes.
  method SortVins(vin: array<Vin>, unset: Unset)
    requires Ids(vin[..])
    modifies vin
    ensures vin[..] == SortedVins(unset, old(vin[..]))
  {
    if vin.Length > 1 {
      var lp := 0;
      while lp < vin.Length - 1
        invariant 0 <= lp <= vin.Length - 1
        invariant Ids(vin[..])
        invariant SortFrom(WrongSwap(unset), vin[..], lp) == SortedVins(unset, old(vin[..]))
      {
        var lp2 := lp + 1;
        while lp2 < vin.Length
          invariant lp < lp2 <= vin.Length
          invariant Ids(vin[..])
          invariant SortFrom(WrongSwap(unset), Pass(WrongSwap(unset), vin[..], lp, lp2), lp + 1) ==
                    SortedVins(unset, old(vin[..]))
        {
          ExchangeVins(vin, lp, lp2, unset);
          lp2 := lp2 + 1;
        }
        lp := lp + 1;
      }
    }
  }

  method ExchangeVins(vin: array<Vin>, lp: nat, lp2: nat, unset: Unset)
    requires lp < lp2 < vin.Length && Ids(vin[..])
    modifies vin
    ensures vin[..] == Exchange(WrongSwap(unset), old(vin[..]), lp, lp2) && Ids(vin[..])
  {
    assert |vin[..][lp].txid| == 32 && |vin[..][lp2].txid| == 32;
    var vin1 := HalfReversed(vin[lp].txid) + unset(lp, lp2).0;
    var vin2 := HalfReversed(vin[lp2].txid) + unset(lp, lp2).1;
    var cmp := Memcmp(vin1, vin2, 0, 32);
    if cmp == 0 {
      cmp := if vin[lp].index < vin[lp2].index then -1 else 1;
    }
    if cmp > 0 {
      vin[lp], vin[lp2] := vin[lp2], vin[lp];
    }
  }

  // btc_util_sort_bip69
  method BtcUtilSortBip69(vin: array<Vin>, vout: array<Vout>, unset: Unset)
    requires Ids(vin[..])
    modifies vin, vout
    ensures vin[..] == SortedVins(unset, old(vin[..]))
    ensures vout[..] == Sorted(old(vout[..]))
  {
    SortVins(vin, unset);
    SortVouts(vout);
  }
}
