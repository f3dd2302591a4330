// The number in a byte buffer, lowest byte first, and what turning over one bit does to it.
module LittleEndian {
  import opened Powers

  function LeNumber(p: seq<bv8>): nat {
    if p == [] then 0 else p[0] as nat + 256 * LeNumber(p[1..])
  }

  lemma SameByte(x: bv8, y: bv8)
    requires x as nat == y as nat
    ensures x == y
  {
    assert x as nat as bv8 == x && y as nat as bv8 == y;
  }

  lemma LowDigit(a: nat, m: nat, b: nat, n: nat)
    requires a < 256 && b < 256 && a + 256 * m == b + 256 * n
    ensures a == b && m == n
  {
  }

  lemma {:induction false} LeNumberInjective(p: seq<bv8>, q: seq<bv8>)
    requires |p| == |q| && LeNumber(p) == LeNumber(q)
    ensures p == q
  {
    if p != [] {
      LowDigit(p[0] as nat, LeNumber(p[1..]), q[0] as nat, LeNumber(q[1..]));
      SameByte(p[0], q[0]);
      LeNumberInjective(p[1..], q[1..]);
      assert p == [p[0]] + p[1..] && q == [q[0]] + q[1..];
    }
  }

  // n with the bit worth p turned over.
  function Toggle(n: nat, p: nat): int
    requires p > 0
  {
    if n / p % 2 == 1 then n - p else n + p
  }

  // One mask at a time: the solver does not see through a variable shift.
  lemma ByteFlip(x: bv8, k: nat, y: bv8)
    requires k < 8 && y == x ^ (1 << k)
    ensures y as nat == Toggle(x as nat, Pow2(k))
  {
    if k < 4 { LowFlip(x, k, y); } else { HighFlip(x, k, y); }
  }

  lemma LowFlip(x: bv8, k: nat, y: bv8)
    requires k < 4 && y == x ^ (1 << k)
    ensures y as nat == Toggle(x as nat, Pow2(k))
  {
    assert Pow2(0) == 1 && Pow2(1) == 2 && Pow2(2) == 4 && Pow2(3) == 8;
    if k == 0 { Flip1(x, y); } else if k == 1 { Flip2(x, y); }
    else if k == 2 { Flip4(x, y); } else { Flip8(x, y); }
  }

  lemma HighFlip(x: bv8, k: nat, y: bv8)
    requires 4 <= k < 8 && y == x ^ (1 << k)
    ensures y as nat == Toggle(x as nat, Pow2(k))
  {
    assert Pow2(4) == 16 && Pow2(5) == 32 && Pow2(6) == 64 && Pow2(7) == 128;
    if k == 4 { Flip16(x, y); } else if k == 5 { Flip32(x, y); }
    else if k == 6 { Flip64(x, y); } else { Flip128(x, y); }
  }

  lemma Flip1(x: bv8, y: bv8)
    requires y == x ^ 1
    ensures y as nat == Toggle(x as nat, 1)
  {
  }

  lemma Flip2(x: bv8, y: bv8)
    requires y == x ^ 2
    ensures y as nat == Toggle(x as nat, 2)
  {
  }

  lemma Flip4(x: bv8, y: bv8)
    requires y == x ^ 4
    ensures y as nat == Toggle(x as nat, 4)
  {
  }

  lemma Flip8(x: bv8, y: bv8)
    requires y == x ^ 8
    ensures y as nat == Toggle(x as nat, 8)
  {
  }

  lemma Flip16(x: bv8, y: bv8)
    requires y == x ^ 16
    ensures y as nat == Toggle(x as nat, 16)
  {
  }

  lemma Flip32(x: bv8, y: bv8)
    requires y == x ^ 32
    ensures y as nat == Toggle(x as nat, 32)
  {
  }

  lemma Flip64(x: bv8, y: bv8)
    requires y == x ^ 64
    ensures y as nat == Toggle(x as nat, 64)
  {
  }

  lemma Flip128(x: bv8, y: bv8)
    requires y == x ^ 128
    ensures y as nat == Toggle(x as nat, 128)
  {
  }

  lemma ByteToggle(x: nat, r: nat, p: nat, c: nat)
    requires x < 256 && p > 0 && p * (2 * c) == 256
    ensures Toggle(x + 256 * r, p) == Toggle(x, p) + 256 * r
  {
    DigitOf(x, r * c, 2, p);
    Regrouped(r, p, 2, c);
  }

  lemma UpperToggle(x: nat, r: nat, p: nat)
    requires x < 256 && p > 0
    ensures 256 * p > 0 && Toggle(x + 256 * r, 256 * p) == x + 256 * Toggle(r, p)
  {
    DivDiv(x + 256 * r, 256, p);
  }

  lemma Pow2Byte(k: nat)
    requires k < 8
    ensures Pow2(k) * (2 * Pow2(7 - k)) == 256
  {
    Pow2Add(k, 8 - k);
    assert Pow2(8) == 256;
  }

  lemma FirstByteFlip(p: seq<bv8>, k: nat, y: bv8)
    requires p != [] && k < 8 && y as nat == Toggle(p[0] as nat, Pow2(k))
    ensures LeNumber(p[0 := y]) == Toggle(LeNumber(p), Pow2(k))
  {
    Pow2Byte(k);
    ByteToggle(p[0] as nat, LeNumber(p[1..]), Pow2(k), Pow2(7 - k));
    assert p[0 := y][1..] == p[1..];
  }

  // Turning over bit k of byte i turns over bit 8 i + k of the number.
  lemma {:induction false} NumberFlip(p: seq<bv8>, i: nat, k: nat, y: bv8)
    requires i < |p| && k < 8 && y as nat == Toggle(p[i] as nat, Pow2(k))
    ensures LeNumber(p[i := y]) == Toggle(LeNumber(p), Pow2(8 * i + k))
    decreases i
  {
    if i == 0 {
      FirstByteFlip(p, k, y);
    } else {
      assert p[i := y][1..] == p[1..][i - 1 := y];
      NumberFlip(p[1..], i - 1, k, y);
      UpperToggle(p[0] as nat, LeNumber(p[1..]), Pow2(8 * (i - 1) + k));
      Pow2Add(8, 8 * (i - 1) + k);
      assert Pow2(8) == 256;
    }
  }
}
