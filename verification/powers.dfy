// Powers of two and the division facts that the bit-level models share. Shifts and masks on
// unsigned C integers are written with these: x >> b is x / Pow2(b), x & (2^b - 1) is x % Pow2(b).
module Powers {

  function Pow2(n: nat): (p: nat)
    ensures p > 0
  {
    if n == 0 then 1 else 2 * Pow2(n - 1)
  }

  lemma {:induction false} Pow2Add(a: nat, b: nat)
    ensures Pow2(a + b) == Pow2(a) * Pow2(b)
  {
    if a > 0 {
      Pow2Add(a - 1, b);
      assert Pow2(a) * Pow2(b) == 2 * (Pow2(a - 1) * Pow2(b));
    }
  }

  lemma {:induction false} Pow2Monotone(a: nat, b: nat)
    requires a <= b
    ensures Pow2(a) <= Pow2(b)
    decreases b
  {
    if a < b {
      Pow2Monotone(a, b - 1);
    }
  }

  // The quotient and the remainder are the only pair that divides x by d.
  lemma DivModUnique(x: int, d: int, q: int, r: int)
    requires d > 0 && 0 <= r < d && x == q * d + r
    ensures x / d == q && x % d == r
  {
    var e := x / d - q;
    assert x / d * d + x % d == x;
    assert e * d == r - x % d by {
      assert (x / d - q) * d == x / d * d - q * d;
    }
    if e >= 1 {
      MulMonotone(1, e, d);
    } else if e <= -1 {
      MulMonotone(e, -1, d);
    }
  }

  lemma MulMonotone(a: int, b: int, d: int)
    requires a <= b && d >= 0
    ensures a * d <= b * d
  {
    assert (b - a) * d >= 0;
    assert (b - a) * d == b * d - a * d;
  }

  lemma DivDiv(n: nat, p: nat, q: nat)
    requires p > 0 && q > 0
    ensures n / p / q == n / (p * q)
  {
    var m, r := n / p, n % p;
    var k, s := m / q, m % q;
    assert n == m * p + r && m == k * q + s;
    assert (k * q + s) * p == k * (p * q) + s * p;
    MulMonotone(s + 1, q, p);
    assert (s + 1) * p == s * p + p && q * p == p * q;
    DivModUnique(n, p * q, k, s * p + r);
  }

  lemma AddMultiple(n: nat, k: nat, p: nat)
    requires p > 0
    ensures (k * p + n) / p == k + n / p && (k * p + n) % p == n % p
  {
    assert n == n / p * p + n % p;
    assert (k + n / p) * p == k * p + n / p * p;
    DivModUnique(k * p + n, p, k + n / p, n % p);
  }

  // Dropping multiples of d = p * q * c leaves the digits below them alone.
  lemma DigitBelow(n: nat, p: nat, q: nat, c: nat, d: nat)
    requires p > 0 && q > 0 && d == p * (q * c) && d > 0
    ensures n % d / p % q == n / p % q
  {
    var k, m := n / d, n % d;
    QuotientAndRest(n, d);
    Regrouped(k, p, q, c);
    DigitOf(m, k * c, q, p);
  }

  lemma QuotientAndRest(n: nat, d: nat)
    requires d > 0
    ensures n == n / d * d + n % d
  {
  }

  lemma Regrouped(k: nat, p: nat, q: nat, c: nat)
    ensures k * (p * (q * c)) == k * c * q * p
  {
    MulAssociative(k, c, q);
    MulAssociative(k, c * q, p);
    assert p * (q * c) == c * q * p;
  }

  lemma DigitOf(m: nat, t: nat, q: nat, p: nat)
    requires p > 0 && q > 0
    ensures (t * q * p + m) / p % q == m / p % q
  {
    AddMultiple(m, t * q, p);
    AddMultiple(m / p, t, q);
  }

  lemma MulAssociative(a: int, b: int, c: int)
    ensures a * (b * c) == a * b * c
  {
  }

  lemma ModScale(n: nat, p: nat, s: nat)
    requires p > 0 && s > 0 && p * s > 0
    ensures n * s % (p * s) == n % p * s
  {
    var q, r := n / p, n % p;
    assert n == q * p + r;
    assert n * s == q * (p * s) + r * s by {
      assert (q * p + r) * s == q * p * s + r * s;
      MulAssociative(q, p, s);
    }
    MulMonotone(r + 1, p, s);
    assert (r + 1) * s == r * s + s;
    MulMonotone(0, r, s);
    DivModUnique(n * s, p * s, q, r * s);
  }

  function Quotient(n: nat, d: nat): nat
    requires d > 0
  {
    n / d
  }

  // Shifts and masks.
  function Shl(n: nat, b: nat): nat { n * Pow2(b) }

  function Shr(n: nat, b: nat): nat { Quotient(n, Pow2(b)) }

  function Mask(n: nat, b: nat): (r: nat)
    ensures r < Pow2(b)
  {
    n % Pow2(b)
  }

  lemma ShrShr(n: nat, a: nat, b: nat)
    ensures Shr(Shr(n, a), b) == Shr(n, a + b)
  {
    Pow2Add(a, b);
    DivDiv(n, Pow2(a), Pow2(b));
  }

  lemma ShlJoin(n: nat, x: nat, b: nat)
    requires x < Pow2(b)
    ensures Shr(Shl(n, b) + x, b) == n && Mask(Shl(n, b) + x, b) == x
  {
    DivModUnique(n * Pow2(b) + x, Pow2(b), n, x);
  }

  lemma ShrMask(n: nat, b: nat)
    ensures Shl(Shr(n, b), b) + Mask(n, b) == n
  {
  }

  lemma ShlBound(n: nat, a: nat, b: nat)
    ensures n < Pow2(a) <==> Shl(n, b) < Pow2(a + b)
  {
    Pow2Add(a, b);
    if n < Pow2(a) {
      MulMonotone(n + 1, Pow2(a), Pow2(b));
      assert (n + 1) * Pow2(b) == n * Pow2(b) + Pow2(b);
    } else {
      MulMonotone(Pow2(a), n, Pow2(b));
    }
  }

  // ---------- bytes ----------

  function Pow256(n: nat): nat { if n == 0 then 1 else 256 * Pow256(n - 1) }

  lemma {:induction false} Pow256Monotone(a: nat, b: nat)
    requires a <= b
    ensures Pow256(a) <= Pow256(b)
    decreases b
  {
    if a < b { Pow256Monotone(a, b - 1); }
  }
}
