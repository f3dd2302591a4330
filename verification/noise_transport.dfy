// ln_enc_auth_enc, ln_enc_auth_dec_len and ln_enc_auth_dec_msg of ln/ln_enc_auth.c: the BOLT #8
// message transport with its nonces and key rotation.
module NoiseTransport {
  import opened Basics
  import opened NoiseCrypto

  datatype Noise<W> = Noise(key: W, nonce: nat, ck: W)

  const HEADER: nat := 18
  const ROTATE: nat := 1000
  const MAX_MESSAGE: nat := 65519

  // uint64_t ++
  function Bump(n: nat): nat { (n + 1) % 0x1_0000_0000_0000_0000 }

  function OrByte(a: nat, b: nat): Octet
    requires a < 256 && b < 256
  {
    (a as bv8 | b as bv8) as Octet
  }

  // (len >> 8) | (len << 8) cut to 16 bits, in memory order. Above 65535 the third byte of the
  // length is mixed into the last.
  function LengthBytes(n: nat): (r: Octets)
    ensures |r| == 2
  {
    [(n / 256 % 256) as Octet, OrByte(n / 65536 % 256, n % 256)]
  }

  function LengthOf(pl: Octets): nat
    requires |pl| == 2
  {
    (pl[0] as nat * 256 + pl[1] as nat + MAC) % 65536
  }

  function Rotate<W>(c: Crypto<W>, s: Noise<W>): Noise<W> {
    var (ck, k) := c.hkdf(s.ck, Some(s.key));
    Noise(k, 0, ck)
  }

  function Advance<W>(c: Crypto<W>, s: Noise<W>): Noise<W> {
    if Bump(s.nonce) == ROTATE then Rotate(c, s) else s.(nonce := Bump(s.nonce))
  }

  function Mid<W>(s: Noise<W>): Noise<W> { s.(nonce := Bump(s.nonce)) }

  function SealLength<W>(c: Crypto<W>, s: Noise<W>, msg: Octets): Octets {
    c.seal(s.key, s.nonce, None, LengthBytes(|msg|))
  }

  function SealBody<W>(c: Crypto<W>, s: Noise<W>, msg: Octets): Octets {
    c.seal(s.key, Bump(s.nonce), None, msg)
  }

  // ln_enc_auth_enc. A rotation in the middle of a message is given up on.
  function EncStep<W>(c: Crypto<W>, s: Noise<W>, msg: Octets): (Noise<W>, Option<Octets>) {
    if Mid(s).nonce == ROTATE then (Mid(s), None)
    else (Advance(c, Mid(s)), Some(SealLength(c, s, msg) + SealBody(c, s, msg)))
  }

  // The key and nonce of each call of the cipher.
  function EncUses<W>(s: Noise<W>): seq<(W, nat)> {
    if Mid(s).nonce == ROTATE then [(s.key, s.nonce)] else [(s.key, s.nonce), (s.key, Bump(s.nonce))]
  }

  // ln_enc_auth_dec_len: 0 is a failure.
  function DecLenStep<W>(c: Crypto<W>, s: Noise<W>, data: Octets): (Noise<W>, nat) {
    if |data| != HEADER then (s, 0)
    else
      var pl := c.open(s.key, s.nonce, None, data);
      if pl.None? || |pl.value| != 2 then (s, 0)
      else if Mid(s).nonce == ROTATE then (Mid(s), 0)
      else (Mid(s), LengthOf(pl.value))
  }

  // ln_enc_auth_dec_msg: the length of the text is kept in 16 bits.
  function DecMsgStep<W>(c: Crypto<W>, s: Noise<W>, buf: Octets): (Noise<W>, Option<Octets>)
    requires |buf| >= MAC
  {
    var pm := c.open(s.key, s.nonce, None, buf[..(|buf| - MAC) % 65536 + MAC]);
    if pm.None? then (s, None) else (Advance(c, s), pm)
  }

  // The connection's part of ln_self_t. used records every call of the cipher for sending.
  class Peer<W(!new)> {
    const c: Crypto<W>
    var noiseSend: Noise<W>
    var noiseRecv: Noise<W>
    ghost var used: seq<(W, nat)>

    constructor (c: Crypto<W>, send: Noise<W>, recv: Noise<W>)
      ensures this.c == c && noiseSend == send && noiseRecv == recv && used == []
    {
      this.c, noiseSend, noiseRecv, used := c, send, recv, [];
    }

    method Enc(msg: Octets) returns (packet: Option<Octets>)
      modifies this`noiseSend, this`used
      ensures (noiseSend, packet) == EncStep(c, old(noiseSend), msg)
      ensures used == old(used) + EncUses(old(noiseSend))
    {
      var cl := c.seal(noiseSend.key, noiseSend.nonce, None, LengthBytes(|msg|));
      used := used + [(noiseSend.key, noiseSend.nonce)];
      noiseSend := noiseSend.(nonce := Bump(noiseSend.nonce));
      if noiseSend.nonce == ROTATE {
        return None;
      }
      var cm := c.seal(noiseSend.key, noiseSend.nonce, None, msg);
      used := used + [(noiseSend.key, noiseSend.nonce)];
      noiseSend := noiseSend.(nonce := Bump(noiseSend.nonce));
      if noiseSend.nonce == ROTATE {
        var (ck, key) := c.hkdf(noiseSend.ck, Some(noiseSend.key));
        noiseSend := noiseSend.(ck := ck, key := key);
        noiseSend := noiseSend.(nonce := 0);
      }
      packet := Some(cl + cm);
    }

    method DecLen(data: Octets) returns (len: nat)
      modifies this`noiseRecv
      ensures (noiseRecv, len) == DecLenStep(c, old(noiseRecv), data)
    {
      len := 0;
      if |data| != HEADER {
        return;
      }
      var pl := c.open(noiseRecv.key, noiseRecv.nonce, None, data);
      if pl.None? || |pl.value| != 2 {
        return;
      }
      noiseRecv := noiseRecv.(nonce := Bump(noiseRecv.nonce));
      if noiseRecv.nonce == ROTATE {
        return;
      }
      len := (pl.value[0] as nat * 256 + pl.value[1] as nat + MAC) % 65536;
    }

    method DecMsg(buf: Octets) returns (msg: Option<Octets>)
      requires |buf| >= MAC
      modifies this`noiseRecv
      ensures (noiseRecv, msg) == DecMsgStep(c, old(noiseRecv), buf)
    {
      var l := (|buf| - MAC) % 65536;
      msg := c.open(noiseRecv.key, noiseRecv.nonce, None, buf[..l + MAC]);
      if msg.None? {
        return;
      }
      noiseRecv := noiseRecv.(nonce := Bump(noiseRecv.nonce));
      if noiseRecv.nonce == ROTATE {
        var (ck, key) := c.hkdf(noiseRecv.ck, Some(noiseRecv.key));
        noiseRecv := noiseRecv.(ck := ck, key := key);
        noiseRecv := noiseRecv.(nonce := 0);
      }
    }
  }

  // ---------- one message ----------

  lemma OrZero(b: nat)
    requires b < 256
    ensures OrByte(0, b) as nat == b
  {
    assert 0 as bv8 | b as bv8 == b as bv8;
  }

  // The announced length is right for exactly the messages of at most 65519 bytes: a longer one
  // wraps around, although BOLT #8 allows 65535.
  lemma AnnouncedLength(n: nat)
    ensures n < 65536 ==> LengthBytes(n) == [(n / 256) as Octet, (n % 256) as Octet]
    ensures LengthOf(LengthBytes(n)) == n + 16 <==> n <= 65519
  {
    if n < 65536 {
      assert n / 65536 == 0 && n / 256 % 256 == n / 256;
      OrZero(n % 256);
    }
  }

  // When the two ends hold the same state, decoding a message gives it back and leaves the two
  // ends with the same state.
  lemma DecAfterEnc<W(!new)>(c: Crypto<W>, s: Noise<W>, msg: Octets)
    requires AeadLaw(c) && |msg| <= MAX_MESSAGE && Mid(s).nonce != ROTATE
    ensures DecLenStep(c, s, SealLength(c, s, msg)) == (Mid(s), |msg| + MAC)
    ensures |SealLength(c, s, msg)| == HEADER && |SealBody(c, s, msg)| == |msg| + MAC
    ensures DecMsgStep(c, Mid(s), SealBody(c, s, msg)) == (EncStep(c, s, msg).0, Some(msg))
  {
    assert Opens(c, s.key, s.nonce, None, LengthBytes(|msg|));
    assert Opens(c, s.key, Bump(s.nonce), None, msg);
    AnnouncedLength(|msg|);
    var body := SealBody(c, s, msg);
    assert (|body| - MAC) % 65536 + MAC == |body| && body[..|body|] == body;
  }

  // The other way round: a header and a body of the announced length that are accepted are what
  // the sender would have written for the decoded message.
  lemma EncAfterDec<W(!new)>(c: Crypto<W>, s: Noise<W>, header: Octets, body: Octets)
    requires AeadLaw(c) && |body| >= MAC
    requires DecLenStep(c, s, header).1 == |body|
    requires DecMsgStep(c, DecLenStep(c, s, header).0, body).1.Some?
    ensures var msg := DecMsgStep(c, Mid(s), body).1.value;
            EncStep(c, s, msg) == (DecMsgStep(c, Mid(s), body).0, Some(header + body))
  {
    var pl := c.open(s.key, s.nonce, None, header);
    assert Genuine(c, s.key, s.nonce, None, header);
    assert |body| < 65536 && (|body| - MAC) % 65536 + MAC == |body|;
    assert body[..|body|] == body;
    assert Genuine(c, s.key, Bump(s.nonce), None, body);
    var msg := DecMsgStep(c, Mid(s), body).1.value;
    assert Opens(c, s.key, Bump(s.nonce), None, msg);
    assert LengthOf(pl.value) == |msg| + MAC;
    SameLength(pl.value, |msg|);
  }

  lemma SameLength(pl: Octets, n: nat)
    requires |pl| == 2 && LengthOf(pl) == n + MAC
    ensures pl == LengthBytes(n)
  {
    var v := pl[0] as nat * 256 + pl[1] as nat;
    assert n == v;
    assert n / 256 == pl[0] as nat && n % 256 == pl[1] as nat;
    OrZero(n % 256);
  }

  // ---------- what a reader takes ----------

  // A header is taken exactly if it is the seal of two bytes under the current key and nonce, and
  // moves the nonce on; an announced length of 65520 is reported as a failure all the same.
  lemma HeaderExact<W(!new)>(c: Crypto<W>, s: Noise<W>, data: Octets)
    requires AeadLaw(c) && s.nonce < 999
    ensures (exists pl: Octets :: |pl| == 2 && data == c.seal(s.key, s.nonce, None, pl))
            || DecLenStep(c, s, data) == (s, 0)
    ensures forall pl: Octets | |pl| == 2 && data == c.seal(s.key, s.nonce, None, pl) ::
              DecLenStep(c, s, data) == (Noise(s.key, s.nonce + 1, s.ck),
                                         (pl[0] as nat * 256 + pl[1] as nat + 16) % 65536)
  {
    assert Genuine(c, s.key, s.nonce, None, data);
    forall pl: Octets | |pl| == 2 && data == c.seal(s.key, s.nonce, None, pl)
      ensures |data| == 18 && c.open(s.key, s.nonce, None, data) == Some(pl)
    {
      assert Opens(c, s.key, s.nonce, None, pl);
    }
  }

  // A body is taken exactly if it is the seal of a message under the current key and nonce; after
  // nonce 999 key and chaining key are replaced.
  lemma BodyExact<W(!new)>(c: Crypto<W>, s: Noise<W>, data: Octets)
    requires AeadLaw(c) && s.nonce <= 999 && 16 <= |data| < 65552
    ensures (exists msg :: data == c.seal(s.key, s.nonce, None, msg)) || DecMsgStep(c, s, data) == (s, None)
    ensures forall msg | data == c.seal(s.key, s.nonce, None, msg) ::
              var (ck, key) := c.hkdf(s.ck, Some(s.key));
              DecMsgStep(c, s, data) ==
              (if s.nonce == 999 then Noise(key, 0, ck) else Noise(s.key, s.nonce + 1, s.ck), Some(msg))
  {
    assert (|data| - MAC) % 65536 + MAC == |data| && data[..|data|] == data;
    assert Genuine(c, s.key, s.nonce, None, data);
    forall msg | data == c.seal(s.key, s.nonce, None, msg)
      ensures c.open(s.key, s.nonce, None, data) == Some(msg)
    {
      assert Opens(c, s.key, s.nonce, None, msg);
    }
  }
}
