// The three-act handshake of ln/ln_enc_auth.c (BOLT #8, "Authenticated Key Agreement Handshake").
module NoiseHandshake {
  import opened Basics
  import opened NoiseCrypto
  import opened NoiseTransport

  datatype State = StartInitiator | WaitActTwo | WaitActOne | WaitActThree

  // bolt8_t; e is the ephemeral secret.
  datatype Bolt<W> = Bolt(e: W, h: W, ck: W, tempK: W, state: State)

  // The connection's part of ln_self_t; the handshake pointer is null before and after.
  datatype Node<W> = Node(handshake: Option<Bolt<W>>, send: Noise<W>, recv: Noise<W>)

  // SHA-256 of the protocol name, and the prologue "lightning".
  datatype Protocol<W> = Protocol(name: W, prologue: Octets)

  const ACT_SIZE: nat := 50
  const ACT_THREE_SIZE: nat := 66

  // ---------- the acts as functions ----------

  function Mix<W>(c: Crypto<W>, b: Bolt<W>, pubkey: Octets, ss: W): Bolt<W> {
    var (ck, k) := c.hkdf(b.ck, Some(ss));
    b.(h := c.hash(b.h, pubkey), ck := ck, tempK := k)
  }

  function Tag<W>(c: Crypto<W>, b: Bolt<W>): Octets { c.seal(b.tempK, 0, Some(b.h), []) }

  function MixHash<W>(c: Crypto<W>, b: Bolt<W>, x: Octets): Bolt<W> { b.(h := c.hash(b.h, x)) }

  // The message of acts one and two for public key pubkey and shared secret ss.
  function Act<W>(c: Crypto<W>, b: Bolt<W>, pubkey: Octets, ss: W): Octets {
    [0] + pubkey + Tag(c, Mix(c, b, pubkey, ss))
  }

  function AfterAct<W>(c: Crypto<W>, b: Bolt<W>, pubkey: Octets, ss: W): Bolt<W> {
    MixHash(c, Mix(c, b, pubkey, ss), Tag(c, Mix(c, b, pubkey, ss)))
  }

  // What the receiver of act one or two ends with: the key in the message if all is well.
  function ReceiveAct<W>(c: Crypto<W>, b: Bolt<W>, secret: W, buf: Octets): (Bolt<W>, Option<Octets>) {
    if |buf| != ACT_SIZE || buf[0] != 0 then (b, None)
    else
      var re, t := buf[1..34], buf[34..];
      var b1 := Mix(c, b, re, c.ecdh(re, secret));
      if c.open(b1.tempK, 0, Some(b1.h), t).None? then (b1, None)
      else (MixHash(c, b1, t), Some(re))
  }

  // Act three: the initiator's node id under temp_k2, then a tag under temp_k3.
  function IdBox<W>(c: Crypto<W>, b: Bolt<W>, id: Octets): Octets { c.seal(b.tempK, 1, Some(b.h), id) }

  function MixThree<W>(c: Crypto<W>, b: Bolt<W>, box: Octets, ss: W): Bolt<W> {
    var (ck, k) := c.hkdf(b.ck, Some(ss));
    b.(h := c.hash(b.h, box), ck := ck, tempK := k)
  }

  function ActThree<W>(c: Crypto<W>, b: Bolt<W>, id: Octets, ss: W): Octets {
    [0] + IdBox(c, b, id) + Tag(c, MixThree(c, b, IdBox(c, b, id), ss))
  }

  function ReceiveActThree<W>(c: Crypto<W>, b: Bolt<W>, buf: Octets): (Bolt<W>, Option<Octets>) {
    if |buf| != ACT_THREE_SIZE || buf[0] != 0 then (b, None)
    else
      var box, t := buf[1..50], buf[50..];
      var rs := c.open(b.tempK, 1, Some(b.h), box);
      if rs.None? then (b, None)
      else
        var b1 := MixThree(c, b, box, c.ecdh(rs.value, b.e));
        if c.open(b1.tempK, 0, Some(b1.h), t).None? then (b1, None) else (b1, rs)
  }

  // ---------- the handshake calls as steps of a node ----------

  function Begin<W>(c: Crypto<W>, p: Protocol<W>, e: W, temp: W, responderId: Octets, state: State): Bolt<W> {
    Bolt(e, c.hash(c.hash(p.name, p.prologue), responderId), p.name, temp, state)
  }

  // ln_enc_auth_handshake_init; the caller's node id is the initiator's mark.
  function InitStep<W>(c: Crypto<W>, p: Protocol<W>, n: Node<W>, s: W, e: Option<W>, temp: W, peer: Option<Octets>)
    : (Node<W>, bool)
  {
    if e.None? then (n.(handshake := None), false)
    else if peer.Some? then (n.(handshake := Some(Begin(c, p, e.value, temp, peer.value, StartInitiator))), true)
    else (n.(handshake := Some(Begin(c, p, e.value, temp, c.pub(s), WaitActOne))), true)
  }

  // ln_enc_auth_handshake_start
  function StartStep<W>(c: Crypto<W>, n: Node<W>, rs: Octets): (Node<W>, Option<Octets>) {
    if n.handshake.None? || n.handshake.value.state != StartInitiator then (n, None)
    else
      var b := n.handshake.value;
      var ss := c.ecdh(rs, b.e);
      (n.(handshake := Some(AfterAct(c, b, c.pub(b.e), ss).(state := WaitActTwo))), Some(Act(c, b, c.pub(b.e), ss)))
  }

  function Keyed<W>(n: Node<W>, ck: W, send: W, recv: W): Node<W> {
    n.(handshake := None, send := Noise(send, 0, ck), recv := Noise(recv, 0, ck))
  }

  // Act one at the responder, which answers with act two.
  function ActOneStep<W>(c: Crypto<W>, n: Node<W>, b: Bolt<W>, s: W, buf: Octets): (Node<W>, Option<Octets>) {
    var (b1, re) := ReceiveAct(c, b, s, buf);
    if re.None? then (n.(handshake := None), None)
    else
      var ss := c.ecdh(re.value, b.e);
      (n.(handshake := Some(AfterAct(c, b1, c.pub(b.e), ss).(state := WaitActThree))), Some(Act(c, b1, c.pub(b.e), ss)))
  }

  // Act two at the initiator, which answers with act three and is done.
  function ActTwoStep<W>(c: Crypto<W>, n: Node<W>, b: Bolt<W>, s: W, buf: Octets): (Node<W>, Option<Octets>) {
    var (b1, re) := ReceiveAct(c, b, b.e, buf);
    if re.None? then (Keyed(n, b1.ck, n.send.key, n.recv.key), None)
    else
      var ss := c.ecdh(re.value, s);
      var b2 := MixThree(c, b1, IdBox(c, b1, c.pub(s)), ss);
      var (sk, rk) := c.hkdf(b2.ck, None);
      (Keyed(n, b2.ck, sk, rk), Some(ActThree(c, b1, c.pub(s), ss)))
  }

  // Act three at the responder, which then knows the initiator's id.
  function ActThreeStep<W>(c: Crypto<W>, n: Node<W>, b: Bolt<W>, buf: Octets): (Node<W>, Option<Octets>) {
    var (b1, rs) := ReceiveActThree(c, b, buf);
    if rs.None? then (Keyed(n, b1.ck, n.send.key, n.recv.key), None)
    else
      var (rk, sk) := c.hkdf(b1.ck, None);
      (Keyed(n, b1.ck, sk, rk), rs)
  }

  // ln_enc_auth_handshake_recv. A failed act two or three still overwrites the chaining keys and
  // nonces of the connection.
  function RecvStep<W>(c: Crypto<W>, n: Node<W>, s: W, buf: Octets): (Node<W>, Option<Octets>) {
    if n.handshake.None? then (n, None)
    else
      var b := n.handshake.value;
      match b.state
      case WaitActOne => ActOneStep(c, n, b, s, buf)
      case WaitActTwo => ActTwoStep(c, n, b, s, buf)
      case WaitActThree => ActThreeStep(c, n, b, buf)
      case StartInitiator => (n.(handshake := None), None)
  }

  // ---------- the C functions ----------

  class Connection<W(!new)> {
    const c: Crypto<W>
    const p: Protocol<W>
    const s: W                            // the node's secret
    var handshake: Option<Bolt<W>>
    var noiseSend: Noise<W>
    var noiseRecv: Noise<W>

    function View(): Node<W>
      reads this
    {
      Node(handshake, noiseSend, noiseRecv)
    }

    constructor (c: Crypto<W>, p: Protocol<W>, s: W, send: Noise<W>, recv: Noise<W>)
      ensures this.c == c && this.p == p && this.s == s && View() == Node(None, send, recv)
    {
      this.c, this.p, this.s := c, p, s;
      handshake, noiseSend, noiseRecv := None, send, recv;
    }

    // e is the ephemeral secret drawn, if the draw succeeds; temp what malloc left in temp_k.
    method HandshakeInit(peer: Option<Octets>, e: Option<W>, temp: W) returns (ok: bool)
      modifies this`handshake
      ensures (View(), ok) == InitStep(c, p, old(View()), s, e, temp, peer)
    {
      if e.None? {
        handshake := None;
        return false;
      }
      var b := Bolt(e.value, p.name, p.name, temp, WaitActOne);
      b := b.(h := c.hash(b.ck, p.prologue));
      var id := c.pub(s);
      if peer.Some? {
        b := b.(state := StartInitiator);
        id := peer.value;
      }
      b := b.(h := c.hash(b.h, id));
      handshake := Some(b);
      ok := true;
    }

    method HandshakeStart(rs: Octets) returns (reply: Option<Octets>)
      modifies this`handshake
      ensures (View(), reply) == StartStep(c, old(View()), rs)
    {
      if handshake.None? || handshake.value.state != StartInitiator {
        return None;
      }
      var m := ActOneSender(rs);
      handshake := Some(handshake.value.(state := WaitActTwo));
      reply := Some(m);
    }

    method HandshakeRecv(buf: Octets) returns (reply: Option<Octets>)
      modifies this
      ensures (View(), reply) == RecvStep(c, old(View()), s, buf)
    {
      if handshake.None? {
        return None;
      }
      var state := handshake.value.state;
      if state == WaitActTwo {
        reply := ActTwoReceiver(buf);
        EndHandshake();
      } else if state == WaitActOne {
        reply := ActOneReceiver(buf);
        handshake := Some(handshake.value.(state := WaitActThree));
      } else if state == WaitActThree {
        reply := ActThreeReceiver(buf);
        EndHandshake();
      } else {
        reply := None;
      }
      if reply.None? {
        handshake := None;
      }
    }

    // The end of acts two and three, which the C code writes out twice.
    method EndHandshake()
      requires handshake.Some?
      modifies this
      ensures View() == Keyed(old(View()), old(handshake.value.ck), old(noiseSend.key), old(noiseRecv.key))
    {
      noiseSend := noiseSend.(ck := handshake.value.ck);
      noiseRecv := noiseRecv.(ck := handshake.value.ck);
      handshake := None;
      noiseSend := noiseSend.(nonce := 0);
      noiseRecv := noiseRecv.(nonce := 0);
    }

    method ActOneSender(rs: Octets) returns (m: Octets)
      requires handshake.Some?
      modifies this`handshake
      ensures var b := old(handshake.value);
              var ss := c.ecdh(rs, b.e);
              handshake == Some(AfterAct(c, b, c.pub(b.e), ss)) && m == Act(c, b, c.pub(b.e), ss)
    {
      var b := handshake.value;
      b := b.(h := c.hash(b.h, c.pub(b.e)));
      var ss := c.ecdh(rs, b.e);
      var (ck, k) := c.hkdf(b.ck, Some(ss));
      b := b.(ck := ck, tempK := k);
      var t := c.seal(b.tempK, 0, Some(b.h), []);
      b := b.(h := c.hash(b.h, t));
      handshake := Some(b);
      m := [0] + c.pub(b.e) + t;
    }

    method ActOneReceiver(buf: Octets) returns (m: Option<Octets>)
      requires handshake.Some?
      modifies this`handshake
      ensures var b := old(handshake.value);
              var (b1, re) := ReceiveAct(c, b, s, buf);
              if re.None? then handshake == Some(b1) && m == None
              else
                var ss := c.ecdh(re.value, b.e);
                handshake == Some(AfterAct(c, b1, c.pub(b.e), ss)) && m == Some(Act(c, b1, c.pub(b.e), ss))
    {
      if |buf| != ACT_SIZE || buf[0] != 0 {
        return None;
      }
      var re, t := buf[1..34], buf[34..];
      var b := handshake.value;
      b := b.(h := c.hash(b.h, re));
      var ss := c.ecdh(re, s);
      var (ck, k) := c.hkdf(b.ck, Some(ss));
      b := b.(ck := ck, tempK := k);
      handshake := Some(b);
      if c.open(b.tempK, 0, Some(b.h), t).None? {
        return None;
      }
      handshake := Some(b.(h := c.hash(b.h, t)));
      var reply := ActTwoSender(re);
      m := Some(reply);
    }

    method ActTwoSender(re: Octets) returns (m: Octets)
      requires handshake.Some?
      modifies this`handshake
      ensures var b := old(handshake.value);
              var ss := c.ecdh(re, b.e);
              handshake == Some(AfterAct(c, b, c.pub(b.e), ss)) && m == Act(c, b, c.pub(b.e), ss)
    {
      var b := handshake.value;
      b := b.(h := c.hash(b.h, c.pub(b.e)));
      var ss := c.ecdh(re, b.e);
      var (ck, k) := c.hkdf(b.ck, Some(ss));
      b := b.(ck := ck, tempK := k);
      var t := c.seal(b.tempK, 0, Some(b.h), []);
      b := b.(h := c.hash(b.h, t));
      handshake := Some(b);
      m := [0] + c.pub(b.e) + t;
    }

    method ActTwoReceiver(buf: Octets) returns (m: Option<Octets>)
      requires handshake.Some?
      modifies this
      ensures handshake.Some?
      ensures var b := old(handshake.value);
              var (b1, re) := ReceiveAct(c, b, b.e, buf);
              if re.None? then m == None && View() == old(View()).(handshake := Some(b1))
              else
                var ss := c.ecdh(re.value, s);
                && handshake == Some(MixThree(c, b1, IdBox(c, b1, c.pub(s)), ss))
                && (noiseSend, noiseRecv) == Rekeyed(old(noiseSend), old(noiseRecv), c.hkdf(handshake.value.ck, None))
                && m == Some(ActThree(c, b1, c.pub(s), ss))
    {
      if |buf| != ACT_SIZE || buf[0] != 0 {
        return None;
      }
      var re, t := buf[1..34], buf[34..];
      var b := handshake.value;
      b := b.(h := c.hash(b.h, re));
      var ss := c.ecdh(re, b.e);
      var (ck, k) := c.hkdf(b.ck, Some(ss));
      b := b.(ck := ck, tempK := k);
      handshake := Some(b);
      if c.open(b.tempK, 0, Some(b.h), t).None? {
        return None;
      }
      handshake := Some(b.(h := c.hash(b.h, t)));
      var reply := ActThreeSender(re);
      m := Some(reply);
    }

    function Rekeyed(send: Noise<W>, recv: Noise<W>, keys: (W, W)): (Noise<W>, Noise<W>) {
      (send.(key := keys.0), recv.(key := keys.1))
    }

    method ActThreeSender(re: Octets) returns (m: Octets)
      requires handshake.Some?
      modifies this
      ensures handshake.Some?
      ensures var b := old(handshake.value);
              var ss := c.ecdh(re, s);
              && handshake == Some(MixThree(c, b, IdBox(c, b, c.pub(s)), ss))
              && (noiseSend, noiseRecv) == Rekeyed(old(noiseSend), old(noiseRecv), c.hkdf(handshake.value.ck, None))
              && m == ActThree(c, b, c.pub(s), ss)
    {
      var b := handshake.value;
      var box := c.seal(b.tempK, 1, Some(b.h), c.pub(s));
      b := b.(h := c.hash(b.h, box));
      var ss := c.ecdh(re, s);
      var (ck, k) := c.hkdf(b.ck, Some(ss));
      b := b.(ck := ck, tempK := k);
      var t := c.seal(b.tempK, 0, Some(b.h), []);
      handshake := Some(b);
      var (sk, rk) := c.hkdf(b.ck, None);
      noiseSend, noiseRecv := noiseSend.(key := sk), noiseRecv.(key := rk);
      m := [0] + box + t;
    }

    method ActThreeReceiver(buf: Octets) returns (id: Option<Octets>)
      requires handshake.Some?
      modifies this
      ensures handshake.Some?
      ensures var (b1, rs) := ReceiveActThree(c, old(handshake.value), buf);
              && handshake == Some(b1) && id == rs
              && if rs.None? then noiseSend == old(noiseSend) && noiseRecv == old(noiseRecv)
                 else (noiseRecv, noiseSend) == Rekeyed(old(noiseRecv), old(noiseSend), c.hkdf(b1.ck, None))
    {
      if |buf| != ACT_THREE_SIZE || buf[0] != 0 {
        return None;
      }
      var box, t := buf[1..50], buf[50..];
      var b := handshake.value;
      var rs := c.open(b.tempK, 1, Some(b.h), box);
      if rs.None? {
        return None;
      }
      b := b.(h := c.hash(b.h, box));
      var ss := c.ecdh(rs.value, b.e);
      var (ck, k) := c.hkdf(b.ck, Some(ss));
      b := b.(ck := ck, tempK := k);
      handshake := Some(b);
      if c.open(b.tempK, 0, Some(b.h), t).None? {
        return None;
      }
      var (rk, sk) := c.hkdf(b.ck, None);
      noiseRecv, noiseSend := noiseRecv.(key := rk), noiseSend.(key := sk);
      id := rs;
    }

  }
}
