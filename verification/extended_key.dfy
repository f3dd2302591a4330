// btc_extkey_generate and extkey_hmac512 of btc/btc_extkey.c (BIP 32, "Child key derivation (CKD)
// functions").
module ExtendedKey {
  import opened Basics
  import opened BigEndian
  import opened Curve
  import opened Powers

  // The first 32 bytes of the key field, read as a number, or all 33 of them as a point.
  datatype Key = Secret(k: nat) | Point(bytes: Octets)

  datatype Kind = Priv | Pubk

  // btc_extkey_t
  datatype Ext = Ext(kind: Kind, depth: nat, fingerprint: Octets, child: nat, chain: Octets, key: Key)

  // HMAC-SHA512 as two halves, the first read as a number; HASH160.
  datatype Hashes = Hashes(hmac: (Octets, Octets) -> (nat, Octets), hash160: Octets -> Octets)

  const HARDENED: nat := 0x8000_0000

  // "Bitcoin seed"
  const SEED_KEY: Octets := [0x42, 0x69, 0x74, 0x63, 0x6f, 0x69, 0x6e, 0x20, 0x73, 0x65, 0x65, 0x64]

  function Be32(n: nat): Octets {
    [(n / 0x100_0000 % 256) as Octet, (n / 0x1_0000 % 256) as Octet, (n / 256 % 256) as Octet, (n % 256) as Octet]
  }

  function Fingerprint(h: Hashes, pubkey: Octets): Octets {
    var x := h.hash160(pubkey);
    if |x| < 4 then x else x[..4]
  }

  // What both branches for a child do once the data to hash is known: a left half of zero or of
  // the group order and above is a failure, and the chain code changes only without one.
  function Split<P>(c: Group<P>, h: Hashes, chain: Octets, data: Octets): Option<(nat, Octets)> {
    var (l, r) := h.hmac(chain, data);
    if l == 0 || l >= c.n then None else Some((l, r))
  }

  // A secret's child.
  function ChildPriv<P(==)>(c: Group<P>, h: Hashes, e: Ext, depth: nat, child: nat, parent: nat): (Ext, bool)
    requires c.n > 0
  {
    var e1 := e.(kind := Priv, depth := depth, child := child);
    var pub := Pub(c, parent);
    if pub.None? then (e1, false)
    else
      var data := (if child >= HARDENED then [0] + Be(parent, 32) else pub.value) + Be32(child);
      var e2 := e1.(fingerprint := Fingerprint(h, pub.value));
      var s := Split(c, h, e.chain, data);
      if s.None? then (e2, false)
      else
        var k := (s.value.0 + parent) % c.n;
        (e2.(chain := s.value.1, key := Secret(k)), k != 0)
  }

  // A public key's child.
  function ChildPub<P(==)>(c: Group<P>, h: Hashes, e: Ext, depth: nat, child: nat, parent: Octets): (Ext, bool) {
    var e1 := e.(kind := Pubk, depth := depth, child := child);
    if child >= HARDENED then (e1, false)
    else
      var e2 := e1.(fingerprint := Fingerprint(h, parent));
      var s := Split(c, h, e.chain, parent + Be32(child));
      if s.None? then (e2, false)
      else
        var e3 := e2.(chain := s.value.1);
        var p := MulAdd(c, parent, s.value.0);
        if p.None? then (e3, false) else (e3.(key := Point(p.value)), true)
  }

  // The master key of a seed.
  function Master<P>(c: Group<P>, h: Hashes, e: Ext, depth: nat, child: nat, seed: Octets): (Ext, bool) {
    var e1 := e.(kind := Priv, depth := depth, child := child, fingerprint := [0, 0, 0, 0]);
    var s := Split(c, h, SEED_KEY, seed);
    if s.None? then (e1, false) else (e1.(chain := s.value.1, key := Secret(s.value.0)), true)
  }

  // btc_extkey_generate; the parent's key is usually the structure's own.
  function Generate<P(==)>(c: Group<P>, h: Hashes, e: Ext, kind: Kind, depth: nat, child: nat,
                           parent: Option<Key>, seed: Option<Octets>): (Ext, bool)
    requires c.n > 0
  {
    if kind == Priv && seed.Some? then Master(c, h, e, depth, child, seed.value)
    else if kind == Priv && parent.Some? && parent.value.Secret? then
      ChildPriv(c, h, e, depth, child, parent.value.k)
    else if kind == Pubk && parent.Some? && parent.value.Point? then
      ChildPub(c, h, e, depth, child, parent.value.bytes)
    else (e.(kind := kind, depth := depth, child := child), false)
  }

  // The structure the C function overwrites.
  class ExtKey<P(==)> {
    const c: Group<P>
    const h: Hashes
    var kind: Kind
    var depth: nat
    var fingerprint: Octets
    var child: nat
    var chain: Octets
    var key: Key

    constructor (c: Group<P>, h: Hashes, e: Ext)
      ensures this.c == c && this.h == h && View() == e
    {
      this.c, this.h := c, h;
      kind, depth, fingerprint, child, chain, key := e.kind, e.depth, e.fingerprint, e.child, e.chain, e.key;
    }

    function View(): Ext
      reads this
    {
      Ext(kind, depth, fingerprint, child, chain, key)
    }

    // extkey_hmac512
    method Hmac512(hmacKey: Octets, data: Octets) returns (ok: bool, l: nat)
      modifies this`chain
      ensures var (left, right) := h.hmac(hmacKey, data);
              && (ok <==> 0 < left < c.n)
              && (ok ==> l == left)
              && chain == if ok then right else old(chain)
    {
      var (left, right) := h.hmac(hmacKey, data);
      l := left;
      if l == 0 { return false, l; }
      if l >= c.n { return false, l; }
      chain := right;
      ok := true;
    }

    // What a secret's child hashes.
    method SecretInput(k: nat, pub: Octets, child: nat) returns (input: Octets)
      ensures input == (if child >= HARDENED then [0] + Be(k, 32) else pub) + Be32(child)
    {
      if child >= HARDENED {
        input := [0] + Be(k, 32);
      } else {
        input := pub;
      }
      input := input + Be32(child);
    }

    // The key passed in must be of the kind asked for, as all callers pass it.
    method BtcExtkeyGenerate(kind: Kind, depth: nat, child: nat, parent: Option<Key>, seed: Option<Octets>)
      returns (ok: bool)
      requires c.n > 0
      requires parent.Some? && !(kind == Priv && seed.Some?) ==> (kind == Priv <==> parent.value.Secret?)
      modifies this
      ensures (View(), ok) == Generate(c, h, old(View()), kind, depth, child, parent, seed)
    {
      this.kind, this.depth, this.child := kind, depth, child;
      var input: Octets := [];
      var hmacKey := chain;
      if kind == Priv && seed.None? {
        if parent.None? { return false; }
        var pub := Pub(c, parent.value.k);
        if pub.None? { return false; }
        input := SecretInput(parent.value.k, pub.value, child);
        fingerprint := Fingerprint(h, pub.value);
      } else if kind == Priv {
        hmacKey := SEED_KEY;
        input := seed.value;
        fingerprint := [0, 0, 0, 0];
      } else {
        if parent.None? { return false; }
        if child >= HARDENED { return false; }
        input := parent.value.bytes + Be32(child);
        fingerprint := Fingerprint(h, parent.value.bytes);
      }
      var good, l := Hmac512(hmacKey, input);
      if !good { return false; }
      ok := SetKey(kind, parent, seed, l);
    }

    // The key from the left half l.
    method SetKey(kind: Kind, parent: Option<Key>, seed: Option<Octets>, l: nat) returns (ok: bool)
      requires c.n > 0
      requires kind == Pubk || seed.None? ==> parent.Some? && (kind == Priv <==> parent.value.Secret?)
      modifies this`key
      ensures kind == Priv && seed.None? ==>
                key == Secret((l + parent.value.k) % c.n) && ok == ((l + parent.value.k) % c.n != 0)
      ensures kind == Priv && seed.Some? ==> key == Secret(l) && ok
      ensures kind == Pubk ==>
                var p := MulAdd(c, parent.value.bytes, l);
                ok == p.Some? && key == if ok then Point(p.value) else old(key)
    {
      if kind == Priv && seed.None? {
        key := Secret((l + parent.value.k) % c.n);
        ok := key.k != 0;
      } else if kind == Priv {
        key := Secret(l);
        ok := true;
      } else {
        var p := MulAdd(c, parent.value.bytes, l);
        ok := p.Some?;
        if ok { key := Point(p.value); }
      }
    }
  }

  // ---------- what one step computes ----------

  lemma FourBytes(n: nat)
    requires n < 0x1_0000_0000
    ensures ((n / 0x100_0000 % 256 * 256 + n / 0x1_0000 % 256) * 256 + n / 256 % 256) * 256 + n % 256 == n
  {
  }

  lemma Be32Value(n: nat)
    requires n < 0x1_0000_0000
    ensures Value(Be32(n)) == n
  {
    var x := Be32(n);
    ValueSnoc([], x[0]);
    ValueSnoc([x[0]], x[1]);
    ValueSnoc([x[0], x[1]], x[2]);
    ValueSnoc([x[0], x[1], x[2]], x[3]);
    assert [] + [x[0]] == [x[0]] && [x[0]] + [x[1]] == [x[0], x[1]];
    assert [x[0], x[1]] + [x[2]] == [x[0], x[1], x[2]] && [x[0], x[1], x[2]] + [x[3]] == x;
    FourBytes(n);
  }

  lemma IndexBytes(n: nat, y: Octets)
    requires |y| == 4 && Value(y) == n
    ensures y == Be32(n)
  {
    ValueBound(y);
    assert Pow256(4) == 0x1_0000_0000;
    Be32Value(n);
    ValueInjective(y, Be32(n));
  }

  lemma SecretBytes(k: nat, x: Octets)
    requires |x| == 32 && Value(x) == k
    ensures x == Be(k, 32)
  {
    ValueBound(x);
    BeUnique(k, x);
  }

  // e' is the child of secret k with public key p, derived from the hash of data.
  predicate FromSecret<P>(c: Group<P>, h: Hashes, e: Ext, e': Ext, ok: bool, depth: nat, child: nat,
                          k: nat, p: Octets, data: Octets)
    requires c.n > 0
  {
    var (l, r) := h.hmac(e.chain, data);
    && (ok <==> 0 < l < c.n && (l + k) % c.n != 0)
    && (0 < l < c.n ==> e'.chain == r && e'.key == Secret((l + k) % c.n))
    && (!(0 < l < c.n) ==> e'.chain == e.chain && e'.key == e.key)
    && e'.kind == Priv && e'.depth == depth && e'.child == child
    && (4 <= |h.hash160(p)| ==> e'.fingerprint == h.hash160(p)[..4])
  }

  lemma SecretStep<P>(c: Group<P>, h: Hashes, e: Ext, depth: nat, child: nat, k: nat, p: Octets, x: Octets, y: Octets)
    requires c.n > 0 && e.key == Secret(k) && Pub(c, k) == Some(p) && x == Be(k, 32) && y == Be32(child)
    ensures var (e', ok) := StepPriv(c, h, e, depth, child);
            FromSecret(c, h, e, e', ok, depth, child, k, p, (if child >= 0x8000_0000 then [0] + x else p) + y)
  {
  }

  // The child of a secret with public key p: x is the secret in 32 bytes and y the index in four. A
  // hardened child hashes the secret, another one the public key.
  lemma SecretChild<P(!new)>(c: Group<P>, h: Hashes, e: Ext, depth: nat, child: nat,
                             k: nat, p: Octets, x: Octets, y: Octets)
    requires c.n > 0 && e.key == Secret(k) && Pub(c, k) == Some(p)
    requires |x| == 32 && Value(x) == k && |y| == 4 && Value(y) == child
    ensures var (e', ok) := StepPriv(c, h, e, depth, child);
            FromSecret(c, h, e, e', ok, depth, child, k, p, (if child >= 0x8000_0000 then [0] + x else p) + y)
  {
    SecretBytes(k, x);
    IndexBytes(child, y);
    SecretStep(c, h, e, depth, child, k, p, x, y);
  }

  // The child of a public key, which has none with a hardened index.
  lemma PublicChild<P(!new)>(c: Group<P>, h: Hashes, e: Ext, depth: nat, child: nat, p: Octets, y: Octets)
    requires c.n > 0 && e.key == Point(p) && |y| == 4 && Value(y) == child
    ensures var (l, r) := h.hmac(e.chain, p + y);
            var sum := MulAdd(c, p, l);
            var (e', ok) := StepPub(c, h, e, depth, child);
            && (ok <==> child < 0x8000_0000 && 0 < l < c.n && sum.Some?)
            && (ok ==> e'.chain == r && e'.key == Point(sum.value))
            && (child >= 0x8000_0000 || !(0 < l < c.n) ==> e'.chain == e.chain && e'.key == e.key)
            && e'.kind == Pubk && e'.depth == depth && e'.child == child
            && (child < 0x8000_0000 && 4 <= |h.hash160(p)| ==> e'.fingerprint == h.hash160(p)[..4])
  {
    IndexBytes(child, y);
  }

  // The master key of a seed hashes it under the twelve bytes of "Bitcoin seed".
  lemma MasterKey<P(!new)>(c: Group<P>, h: Hashes, e: Ext, seed: Octets, key: Octets)
    requires c.n > 0
    requires key == [0x42, 0x69, 0x74, 0x63, 0x6f, 0x69, 0x6e, 0x20, 0x73, 0x65, 0x65, 0x64]
    ensures var (l, r) := h.hmac(key, seed);
            Generate(c, h, e, Priv, 0, 0, None, Some(seed)) ==
            (if 0 < l < c.n then Ext(Priv, 0, [0, 0, 0, 0], 0, r, Secret(l))
             else Ext(Priv, 0, [0, 0, 0, 0], 0, e.chain, e.key),
             0 < l < c.n)
  {
    assert key == SEED_KEY;
  }

  // ---------- public and private derivation ----------

  // e is the extended secret and f the extended public key of the same node.
  predicate Twins<P>(c: Group<P>, e: Ext, f: Ext) {
    && e.key.Secret? && f.key.Point? && Pub(c, e.key.k) == Some(f.key.bytes)
    && SamePublic(e, f)
  }

  predicate SamePublic(e: Ext, f: Ext) {
    e.depth == f.depth && e.fingerprint == f.fingerprint && e.child == f.child && e.chain == f.chain
  }

  function StepPriv<P(==)>(c: Group<P>, h: Hashes, e: Ext, depth: nat, child: nat): (Ext, bool)
    requires c.n > 0
  {
    Generate(c, h, e, Priv, depth, child, Some(e.key), None)
  }

  function StepPub<P(==)>(c: Group<P>, h: Hashes, e: Ext, depth: nat, child: nat): (Ext, bool)
    requires c.n > 0
  {
    Generate(c, h, e, Pubk, depth, child, Some(e.key), None)
  }

  // One step: both succeed or both fail, and everything public stays the same.
  lemma StepTwins<P(!new)>(c: Group<P>, h: Hashes, e: Ext, f: Ext, depth: nat, child: nat)
    requires GroupLaws(c) && Twins(c, e, f) && child < HARDENED
    ensures var (e', ok) := StepPriv(c, h, e, depth, child);
            var (f', ok') := StepPub(c, h, f, depth, child);
            ok == ok' && SamePublic(e', f') && (ok ==> Twins(c, e', f'))
  {
    var s := Split(c, h, e.chain, f.key.bytes + Be32(child));
    if s.Some? {
      MulAddIsPub(c, e.key.k, s.value.0);
    }
  }

  // A path of indices, each step one deeper, given up at the first failure.
  function PathPriv<P(==)>(c: Group<P>, h: Hashes, e: Ext, path: seq<nat>): (Ext, bool)
    requires c.n > 0
    decreases |path|
  {
    if path == [] then (e, true)
    else
      var (e1, ok) := PathPriv(c, h, e, path[..|path| - 1]);
      if !ok then (e1, false) else StepPriv(c, h, e1, e1.depth + 1, path[|path| - 1])
  }

  function PathPub<P(==)>(c: Group<P>, h: Hashes, f: Ext, path: seq<nat>): (Ext, bool)
    requires c.n > 0
    decreases |path|
  {
    if path == [] then (f, true)
    else
      var (f1, ok) := PathPub(c, h, f, path[..|path| - 1]);
      if !ok then (f1, false) else StepPub(c, h, f1, f1.depth + 1, path[|path| - 1])
  }

  // Deriving secrets along any path without hardened indices and then taking public keys is
  // deriving public keys from the start: in keys, chain codes, fingerprints and failures.
  lemma {:induction false} PathTwins<P(!new)>(c: Group<P>, h: Hashes, e: Ext, f: Ext, path: seq<nat>)
    requires GroupLaws(c) && Twins(c, e, f) && forall i | 0 <= i < |path| :: path[i] < HARDENED
    ensures var (e', ok) := PathPriv(c, h, e, path);
            var (f', ok') := PathPub(c, h, f, path);
            ok == ok' && SamePublic(e', f') && (ok ==> Twins(c, e', f'))
    decreases |path|
  {
    if path != [] {
      var rest := path[..|path| - 1];
      PathTwins(c, h, e, f, rest);
      var (e1, ok) := PathPriv(c, h, e, rest);
      var (f1, _) := PathPub(c, h, f, rest);
      if ok { StepTwins(c, h, e1, f1, e1.depth + 1, path[|path| - 1]); }
    }
  }
}
