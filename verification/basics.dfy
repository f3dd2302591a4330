// What several modules share.
module Basics {
  datatype Option<+T> = None | Some(value: T)

  // A byte of a message, a script or a transaction.
  newtype Octet = b: int | 0 <= b < 256

  type Octets = seq<Octet>

  predicate Distinct<T(==)>(xs: seq<T>) {
    forall i, j | 0 <= i < j < |xs| :: xs[i] != xs[j]
  }

  // A pointer to bytes of unknown length.
  type Memory = nat -> Octet

  function Read(m: Memory, at: nat, n: nat): (r: Octets)
    ensures |r| == n
  {
    seq(n, i requires 0 <= i < n => m(at + i))
  }

  // m points to x at position at.
  predicate HoldsAt(m: Memory, at: nat, x: Octets) {
    Read(m, at, |x|) == x
  }

  lemma HoldsByte(m: Memory, at: nat, x: Octets, i: nat)
    requires HoldsAt(m, at, x) && i < |x|
    ensures m(at + i) == x[i]
  {
    assert Read(m, at, |x|)[i] == m(at + i);
  }

  lemma HoldsPart(m: Memory, at: nat, x: Octets, i: nat, j: nat)
    requires HoldsAt(m, at, x) && i <= j <= |x|
    ensures HoldsAt(m, at + i, x[i..j])
  {
    forall k | 0 <= k < j - i ensures m(at + i + k) == x[i..j][k] { HoldsByte(m, at, x, i + k); }
  }

  lemma HoldsParts(m: Memory, at: nat, x: Octets, y: Octets)
    ensures HoldsAt(m, at, x + y) <==> HoldsAt(m, at, x) && HoldsAt(m, at + |x|, y)
  {
    var r := Read(m, at, |x + y|);
    assert r == Read(m, at, |x|) + Read(m, at + |x|, |y|);
    if HoldsAt(m, at, x + y) {
      assert r[..|x|] == x && r[|x|..] == y;
    }
  }

  // memcpy to position p.
  method Copy(buf: array<Octet>, p: nat, x: Octets)
    requires p + |x| <= buf.Length
    modifies buf
    ensures buf[..p + |x|] == old(buf[..p]) + x
  {
    forall i | 0 <= i < |x| { buf[p + i] := x[i]; }
  }
}
