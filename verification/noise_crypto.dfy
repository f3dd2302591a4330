// The primitives that ln/ln_enc_auth.c calls, as one record of functions on 32-byte words of any
// type W and on byte strings. Nothing is known of them but the laws below.
module NoiseCrypto {
  import opened Basics

  datatype Crypto<!W> = Crypto(
    seal: (W, nat, Option<W>, Octets) -> Octets,            // key, nonce, associated data, text
    open: (W, nat, Option<W>, Octets) -> Option<Octets>,
    hkdf: (W, Option<W>) -> (W, W),
    hash: (W, Octets) -> W,                                 // SHA-256 of a word and a string
    pub: W -> Octets,
    ecdh: (Octets, W) -> W)

  const MAC: nat := 16
  const PUBKEY: nat := 33

  ghost predicate Opens<W(!new)>(c: Crypto<W>, k: W, n: nat, ad: Option<W>, p: Octets) {
    c.open(k, n, ad, c.seal(k, n, ad, p)) == Some(p) && |c.seal(k, n, ad, p)| == |p| + MAC
  }

  ghost predicate Genuine<W(!new)>(c: Crypto<W>, k: W, n: nat, ad: Option<W>, x: Octets) {
    c.open(k, n, ad, x).Some? ==> x == c.seal(k, n, ad, c.open(k, n, ad, x).value)
  }

  // A correct cipher: it opens what it sealed, and nothing else with the same result.
  ghost predicate AeadLaw<W(!new)>(c: Crypto<W>) {
    && (forall k, n: nat, ad, p :: Opens(c, k, n, ad, p))
    && (forall k, n: nat, ad, x :: Genuine(c, k, n, ad, x))
  }

  ghost predicate Agree<W>(c: Crypto<W>, a: W, b: W) {
    c.ecdh(c.pub(a), b) == c.ecdh(c.pub(b), a) && |c.pub(a)| == PUBKEY
  }

  ghost predicate EcdhLaw<W(!new)>(c: Crypto<W>) {
    forall a, b :: Agree(c, a, b)
  }

  // ---------- the laws can hold ----------

  datatype Unit = Unit

  function ZeroTag(): (t: Octets)
    ensures |t| == MAC
  {
    seq(MAC, _ => 0)
  }

  function OpenTagged(x: Octets): Option<Octets> {
    if |x| >= MAC && x[|x| - MAC..] == ZeroTag() then Some(x[..|x| - MAC]) else None
  }

  // A cipher that only adds a constant tag, and one key for all.
  function Trivial(): Crypto<Unit> {
    Crypto((k: Unit, n: nat, ad: Option<Unit>, p: Octets) => p + ZeroTag(),
           (k: Unit, n: nat, ad: Option<Unit>, x: Octets) => OpenTagged(x),
           (k: Unit, ikm: Option<Unit>) => (k, k),
           (h: Unit, x: Octets) => h,
           (k: Unit) => seq(PUBKEY, _ => 0),
           (x: Octets, k: Unit) => k)
  }

  lemma TrivialLaws()
    ensures AeadLaw(Trivial()) && EcdhLaw(Trivial())
  {
    var c := Trivial();
    forall k, n: nat, ad, p ensures Opens(c, k, n, ad, p) {
      assert (p + ZeroTag())[|p|..] == ZeroTag() && (p + ZeroTag())[..|p|] == p;
    }
    forall k, n: nat, ad, x ensures Genuine(c, k, n, ad, x) {
      if OpenTagged(x).Some? { assert x == x[..|x| - MAC] + x[|x| - MAC..]; }
    }
    forall a, b ensures Agree(c, a, b) {}
  }
}
