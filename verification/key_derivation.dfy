// The four key derivations of ln/ln_derkey.c (BOLT #3, "Key Derivation"). Secrets are numbers,
// points are their 33-byte encodings, and hash is SHA-256 read as a number.
module KeyDerivation {
  import opened Basics
  import opened Curve

  // ln_derkey_pubkey
  function DerivePub<P(==)>(c: Group<P>, hash: Octets -> nat, base: Octets, point: Octets): Option<Octets> {
    MulAdd(c, base, hash(point + base))
  }

  // ln_derkey_privkey
  function DerivePriv<P>(c: Group<P>, hash: Octets -> nat, base: Octets, point: Octets, secret: nat): nat
    requires c.n > 0
  {
    (hash(point + base) + secret) % c.n
  }

  // ln_derkey_revocationkey: here the point at infinity is not refused.
  function DeriveRevocationPub<P>(c: Group<P>, hash: Octets -> nat, base: Octets, point: Octets): Option<Octets> {
    var s1, s2 := c.decode(base), c.decode(point);
    var h1, h2 := hash(base + point), hash(point + base);
    if s1.None? || s2.None? || !c.accepts(h1) || !c.accepts(h2) then None
    else Some(c.encode(c.add(c.scale(h1, s1.value), c.scale(h2, s2.value))))
  }

  // ln_derkey_revocationprivkey
  function DeriveRevocationPriv<P>(c: Group<P>, hash: Octets -> nat, base: Octets, point: Octets,
                                   secret: nat, pointSecret: nat): nat
    requires c.n > 0
  {
    (hash(base + point) * secret + hash(point + base) * pointSecret) % c.n
  }

  // The derived public key is that of the derived secret if the library takes the hash as a
  // factor; else it is refused while the secret is given, and the two agree only on a zero secret,
  // which has no public key either.
  lemma PubOfPriv<P(!new)>(c: Group<P>, hash: Octets -> nat, secret: nat, point: Octets)
    requires GroupLaws(c) && Pub(c, secret).Some?
    ensures var base := Pub(c, secret).value;
            var k := (hash(point + base) + secret) % c.n;
            && DerivePriv(c, hash, base, point, secret) == k
            && DerivePub(c, hash, base, point) == (if c.accepts(hash(point + base)) then Pub(c, k) else None)
            && (DerivePub(c, hash, base, point) == Pub(c, k) <==> c.accepts(hash(point + base)) || k == 0)
  {
    var base := Pub(c, secret).value;
    MulAddIsPub(c, secret, hash(point + base));
    ModRange(hash(point + base) + secret, c.n);
  }

  lemma RevocationPoint<P(!new)>(c: Group<P>, secret: nat, pointSecret: nat, h1: nat, h2: nat)
    requires GroupLaws(c)
    ensures c.add(c.scale(h1, Times(c, secret)), c.scale(h2, Times(c, pointSecret)))
            == Times(c, (h1 * secret + h2 * pointSecret) % c.n)
  {
    assert Scales(c, h1, secret) && Scales(c, h2, pointSecret);
    var a, b := h1 * secret, h2 * pointSecret;
    assert Adds(c, a, b) && Wraps(c, a + b);
  }

  // The revocation public key is given exactly if the library takes both hashes as factors. It is
  // that of the revocation secret if that is not zero; for a zero secret a key is given all the
  // same, so that the two agree only if it is refused.
  lemma RevocationPubOfPriv<P(!new)>(c: Group<P>, hash: Octets -> nat, secret: nat, pointSecret: nat)
    requires GroupLaws(c) && Pub(c, secret).Some? && Pub(c, pointSecret).Some?
    ensures var base, point := Pub(c, secret).value, Pub(c, pointSecret).value;
            var k := (hash(base + point) * secret + hash(point + base) * pointSecret) % c.n;
            var taken := c.accepts(hash(base + point)) && c.accepts(hash(point + base));
            && DeriveRevocationPriv(c, hash, base, point, secret, pointSecret) == k
            && (DeriveRevocationPub(c, hash, base, point).Some? <==> taken)
            && (DeriveRevocationPub(c, hash, base, point) == Pub(c, k) <==> (taken <==> k != 0))
  {
    var base, point := Pub(c, secret).value, Pub(c, pointSecret).value;
    PubPoint(c, secret);
    PubPoint(c, pointSecret);
    RevocationPoint(c, secret, pointSecret, hash(base + point), hash(point + base));
    ModRange(hash(base + point) * secret + hash(point + base) * pointSecret, c.n);
  }

  // ---------- inputs on which the two differ ----------

  // Modulo 2, with both secrets 1 and every hash 1, the revocation secret is zero, and a public
  // key is given.
  lemma ZeroRevocationSecret()
    ensures var c := Cyclic(2);
            var base := Pub(c, 1).value;
            && DeriveRevocationPriv(c, _ => 1, base, base, 1, 1) == 0
            && DeriveRevocationPub(c, _ => 1, base, base).Some?
  {
    CyclicLaws(2);
    RevocationPubOfPriv(Cyclic(2), _ => 1, 1, 1);
  }

  // With a hash of zero the public key is refused, and the secret is the base secret.
  lemma RefusedHash(point: Octets)
    ensures var c := Cyclic(2);
            var base := Pub(c, 1).value;
            && DerivePub(c, _ => 0, base, point).None?
            && DerivePriv(c, _ => 0, base, point, 1) == 1 && Pub(c, 1).Some?
  {
    CyclicLaws(2);
    PubOfPriv(Cyclic(2), _ => 0, 1, point);
  }
}
