// The curve operations that the key derivations use, over any group of points P with a generator.
// mbedtls is not part of this model: of its functions only what is stated here is known.
module Curve {
  import opened Basics
  import opened Powers

  // n is the order; accepts says which factors the library's multiplication takes.
  datatype Group<!P> = Group(
    n: nat, g: P, zero: P, add: (P, P) -> P, scale: (nat, P) -> P, accepts: nat -> bool,
    encode: P -> Octets, decode: Octets -> Option<P>)

  // a G + b G == (a + b) G.
  ghost predicate Adds<P>(c: Group<P>, a: nat, b: nat) {
    c.add(Times(c, a), Times(c, b)) == Times(c, a + b)
  }

  // a (b G) == (a b) G.
  ghost predicate Scales<P>(c: Group<P>, a: nat, b: nat) {
    c.scale(a, Times(c, b)) == Times(c, a * b)
  }

  // Factors count modulo the order, and only its multiples give the point at infinity.
  ghost predicate Wraps<P>(c: Group<P>, a: nat) {
    c.n > 1 && Times(c, a % c.n) == Times(c, a) && (Times(c, a) == c.zero <==> a % c.n == 0)
  }

  // Points are read back as they were written; nothing is said of the point at infinity.
  ghost predicate Codes<P>(c: Group<P>, p: P) {
    p != c.zero ==> c.decode(c.encode(p)) == Some(p)
  }

  ghost predicate GroupLaws<P(!new)>(c: Group<P>) {
    && c.n > 1
    && (forall a: nat, b: nat :: Adds(c, a, b))
    && (forall a: nat, b: nat :: Scales(c, a, b))
    && (forall a: nat :: Wraps(c, a))
    && (forall p :: Codes(c, p))
    && (forall a: nat :: 1 <= a < c.n ==> c.accepts(a))
  }

  function Times<P>(c: Group<P>, a: nat): P { c.scale(a, c.g) }

  // btc_keys_priv2pub: secrets out of range have no public key.
  function Pub<P>(c: Group<P>, k: nat): Option<Octets> {
    if 1 <= k < c.n then Some(c.encode(Times(c, k))) else None
  }

  // btc_util_ecp_muladd: a G + P, which must not be the point at infinity.
  function MulAdd<P(==)>(c: Group<P>, pubkey: Octets, a: nat): Option<Octets> {
    var p := c.decode(pubkey);
    if p.None? || !c.accepts(a) then None
    else if Sum(c, a, p.value) == c.zero then None
    else Some(c.encode(Sum(c, a, p.value)))
  }

  function Sum<P>(c: Group<P>, a: nat, p: P): P { c.add(Times(c, a), c.scale(1, p)) }

  // A secret in range gives a point that can be read back.
  lemma PubPoint<P(!new)>(c: Group<P>, k: nat)
    requires GroupLaws(c) && 1 <= k < c.n
    ensures Times(c, k) != c.zero && c.decode(Pub(c, k).value) == Some(Times(c, k))
  {
    SmallMod(k, c.n);
    assert Wraps(c, k) && Codes(c, Times(c, k));
  }

  lemma SmallMod(k: nat, n: nat)
    requires k < n
    ensures k % n == k
  {
  }

  // Adding to a public key is adding to the secret, except that a factor the library refuses has
  // no result.
  lemma MulAddIsPub<P(!new)>(c: Group<P>, k: nat, a: nat)
    requires GroupLaws(c) && 1 <= k < c.n
    ensures MulAdd(c, Pub(c, k).value, a) == if c.accepts(a) then Pub(c, (a + k) % c.n) else None
  {
    PubPoint(c, k);
    SumOfTimes(c, a, k);
    ModRange(a + k, c.n);
  }

  lemma ModRange(a: nat, n: nat)
    requires n > 0
    ensures 0 <= a % n < n
  {
  }

  lemma SumOfTimes<P(!new)>(c: Group<P>, a: nat, k: nat)
    requires GroupLaws(c)
    ensures Sum(c, a, Times(c, k)) == Times(c, (a + k) % c.n)
    ensures Sum(c, a, Times(c, k)) == c.zero <==> (a + k) % c.n == 0
  {
    assert Scales(c, 1, k) && Adds(c, a, k) && Wraps(c, a + k);
    assert 1 * k == k;
  }

  // ---------- the laws can hold ----------

  datatype Residue = Residue(v: nat)

  // Numbers modulo n, encoded in unary, and a library that takes the factors 1 to n - 1.
  function Cyclic(n: nat): Group<Residue>
    requires n > 1
  {
    Group(n, Residue(1), Residue(0),
          (a: Residue, b: Residue) => Residue((a.v + b.v) % n),
          (k: nat, a: Residue) => Residue(k * a.v % n),
          (k: nat) => 1 <= k < n, (a: Residue) => Unary(a.v), (x: Octets) => Some(Residue(|x|)))
  }

  function Unary(k: nat): (x: Octets)
    ensures |x| == k
  {
    seq(k, _ => 0)
  }

  lemma CyclicLaws(n: nat)
    requires n > 1
    ensures GroupLaws(Cyclic(n))
  {
    var c := Cyclic(n);
    forall a: nat, b: nat ensures Adds(c, a, b) { ModSum(a, b, n); }
    forall a: nat, b: nat ensures Scales(c, a, b) { ModProduct(a, b, n); }
    forall a: nat ensures Wraps(c, a) { ModTwice(a, n); }
  }

  lemma ModSum(a: nat, b: nat, n: nat)
    requires n > 0
    ensures (a % n + b % n) % n == (a + b) % n
  {
    var q, r := a / n, b / n;
    var x, y := a % n, b % n;
    SplitSum(a, b, q, r, x, y, n);
  }

  lemma SplitSum(a: nat, b: nat, q: nat, r: nat, x: nat, y: nat, n: nat)
    requires n > 0 && a == q * n + x && b == r * n + y
    ensures (x + y) % n == (a + b) % n
  {
    AddMultiple(x + y, q + r, n);
    Distribute(q, r, n);
  }

  lemma Distribute(q: int, r: int, n: int)
    ensures (q + r) * n == q * n + r * n
  {
  }

  lemma ModProduct(a: nat, b: nat, n: nat)
    requires n > 0
    ensures a * (b % n) % n == a * b % n
  {
    SplitProduct(a, b, b / n, b % n, n);
  }

  lemma SplitProduct(a: nat, b: nat, q: nat, r: nat, n: nat)
    requires n > 0 && b == q * n + r
    ensures a * r % n == a * b % n
  {
    MulAssociative(a, q, n);
    DistributeLeft(a, q * n, r);
    AddMultiple(a * r, a * q, n);
  }

  lemma DistributeLeft(a: int, x: int, y: int)
    ensures a * (x + y) == a * x + a * y
  {
  }

  lemma ModTwice(a: nat, n: nat)
    requires n > 0
    ensures a % n % n == a % n
  {
    SmallMod(a % n, n);
  }
}
