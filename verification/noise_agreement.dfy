// What the handshake of ln/ln_enc_auth.c achieves.
module NoiseAgreement {
  import opened Basics
  import opened NoiseCrypto
  import opened NoiseTransport
  import opened NoiseHandshake
  import Session = NoiseSession

  ghost predicate Laws<W(!new)>(c: Crypto<W>) {
    AeadLaw(c) && EcdhLaw(c)
  }

  // Transcript hash, chaining key and temporary key.
  predicate SameSecrets<W(==)>(a: Bolt<W>, b: Bolt<W>) {
    a.h == b.h && a.ck == b.ck && a.tempK == b.tempK
  }

  lemma PartsOfAct(re: Octets, t: Octets)
    requires |re| == PUBKEY
    ensures ([0] + re + t)[1..34] == re && ([0] + re + t)[34..] == t
  {
  }

  lemma ActOfParts(buf: Octets)
    requires |buf| == ACT_SIZE && buf[0] == 0
    ensures buf == [0] + buf[1..34] + buf[34..]
  {
  }

  // A message of act one or two is accepted exactly if it is the one that the holder of the key
  // in it would have sent.
  lemma ActAccepted<W(!new)>(c: Crypto<W>, b: Bolt<W>, secret: W, buf: Octets)
    requires AeadLaw(c)
    ensures ReceiveAct(c, b, secret, buf).1.Some? <==>
            exists re: Octets :: |re| == PUBKEY && buf == Act(c, b, re, c.ecdh(re, secret))
  {
    if ReceiveAct(c, b, secret, buf).1.Some? {
      ActOfParts(buf);
      var re := buf[1..34];
      var b1 := Mix(c, b, re, c.ecdh(re, secret));
      assert Genuine(c, b1.tempK, 0, Some(b1.h), buf[34..]);
      assert Opens(c, b1.tempK, 0, Some(b1.h), c.open(b1.tempK, 0, Some(b1.h), buf[34..]).value);
      assert buf == Act(c, b, re, c.ecdh(re, secret));
    }
    if re: Octets :| |re| == PUBKEY && buf == Act(c, b, re, c.ecdh(re, secret)) {
      ActReceived(c, b, secret, re);
    }
  }

  lemma ActReceived<W(!new)>(c: Crypto<W>, b: Bolt<W>, secret: W, re: Octets)
    requires AeadLaw(c) && |re| == PUBKEY
    ensures var ss := c.ecdh(re, secret);
            ReceiveAct(c, b, secret, Act(c, b, re, ss)) == (AfterAct(c, b, re, ss), Some(re))
  {
    var b1 := Mix(c, b, re, c.ecdh(re, secret));
    assert Opens(c, b1.tempK, 0, Some(b1.h), []);
    PartsOfAct(re, Tag(c, b1));
  }

  lemma PartsOfActThree(box: Octets, t: Octets)
    requires |box| == PUBKEY + MAC
    ensures ([0] + box + t)[1..50] == box && ([0] + box + t)[50..] == t
  {
  }

  lemma ActThreeOfParts(buf: Octets)
    requires |buf| == ACT_THREE_SIZE && buf[0] == 0
    ensures buf == [0] + buf[1..50] + buf[50..]
  {
  }

  lemma ActThreeReceived<W(!new)>(c: Crypto<W>, b: Bolt<W>, id: Octets)
    requires AeadLaw(c) && |id| == PUBKEY
    ensures var ss := c.ecdh(id, b.e);
            ReceiveActThree(c, b, ActThree(c, b, id, ss)) == (MixThree(c, b, IdBox(c, b, id), ss), Some(id))
  {
    assert Opens(c, b.tempK, 1, Some(b.h), id);
    var b1 := MixThree(c, b, IdBox(c, b, id), c.ecdh(id, b.e));
    assert Opens(c, b1.tempK, 0, Some(b1.h), []);
    PartsOfActThree(IdBox(c, b, id), Tag(c, b1));
  }

  // So is act three, and the id the responder reports is the one sealed in it.
  lemma ActThreeAccepted<W(!new)>(c: Crypto<W>, b: Bolt<W>, buf: Octets, id: Octets)
    requires AeadLaw(c)
    ensures ReceiveActThree(c, b, buf).1 == Some(id) <==>
            |id| == PUBKEY && buf == ActThree(c, b, id, c.ecdh(id, b.e))
  {
    if ReceiveActThree(c, b, buf).1 == Some(id) {
      ActThreeOfParts(buf);
      var box, t := buf[1..50], buf[50..];
      assert Genuine(c, b.tempK, 1, Some(b.h), box);
      assert Opens(c, b.tempK, 1, Some(b.h), id);
      var b1 := MixThree(c, b, box, c.ecdh(id, b.e));
      assert Genuine(c, b1.tempK, 0, Some(b1.h), t);
      assert Opens(c, b1.tempK, 0, Some(b1.h), c.open(b1.tempK, 0, Some(b1.h), t).value);
    }
    if |id| == PUBKEY && buf == ActThree(c, b, id, c.ecdh(id, b.e)) {
      ActThreeReceived(c, b, id);
    }
  }

  // ---------- an undisturbed handshake ----------

  // Initiator secrets a and x (node and ephemeral), responder secrets b and y.
  ghost predicate ReadyOne<W(!new)>(c: Crypto<W>, na: Node<W>, nb: Node<W>, x: W, y: W) {
    && na.handshake.Some? && nb.handshake.Some?
    && na.handshake.value.state == StartInitiator && nb.handshake.value.state == WaitActOne
    && na.handshake.value.e == x && nb.handshake.value.e == y
    && na.handshake.value.h == nb.handshake.value.h && na.handshake.value.ck == nb.handshake.value.ck
  }

  // After act one has been answered: the initiator waits for m, the act two just written.
  ghost predicate ReadyTwo<W(!new)>(c: Crypto<W>, na: Node<W>, nb: Node<W>, x: W, y: W, m: Octets) {
    && na.handshake.Some? && nb.handshake.Some?
    && na.handshake.value.state == WaitActTwo && nb.handshake.value.state == WaitActThree
    && na.handshake.value.e == x && nb.handshake.value.e == y
    && var ss := c.ecdh(c.pub(y), x);
       m == Act(c, na.handshake.value, c.pub(y), ss)
       && SameSecrets(nb.handshake.value, AfterAct(c, na.handshake.value, c.pub(y), ss))
  }

  lemma Begun<W(!new)>(c: Crypto<W>, p: Protocol<W>, na: Node<W>, nb: Node<W>,
                       a: W, b: W, x: W, y: W, ta: W, tb: W)
    ensures ReadyOne(c, InitStep(c, p, na, a, Some(x), ta, Some(c.pub(b))).0,
                     InitStep(c, p, nb, b, Some(y), tb, None).0, x, y)
  {
  }

  // Act one reaches the responder, which agrees with the initiator and answers.
  lemma ActOneAgrees<W(!new)>(c: Crypto<W>, na: Node<W>, nb: Node<W>, b: W, x: W, y: W)
    requires Laws(c) && ReadyOne(c, na, nb, x, y)
    ensures var (na2, m1) := StartStep(c, na, c.pub(b));
            m1.Some? &&
            var (nb2, m2) := RecvStep(c, nb, b, m1.value);
            m2.Some? && ReadyTwo(c, na2, nb2, x, y, m2.value)
  {
    assert Agree(c, b, x) && Agree(c, x, y) && Agree(c, y, x);
    ActReceived(c, nb.handshake.value, b, c.pub(x));
  }

  // Act two and act three.
  lemma ActTwoAgrees<W(!new)>(c: Crypto<W>, na: Node<W>, nb: Node<W>, a: W, b: W, x: W, y: W, m: Octets)
    requires Laws(c) && ReadyTwo(c, na, nb, x, y, m)
    ensures var (na3, m3) := RecvStep(c, na, a, m);
            m3.Some? &&
            var (nb3, id) := RecvStep(c, nb, b, m3.value);
            id == Some(c.pub(a)) && Finished(na3, nb3)
  {
    assert Agree(c, y, x) && Agree(c, a, y) && Agree(c, y, a);
    ActReceived(c, na.handshake.value, x, c.pub(y));
    ActThreeReceived(c, nb.handshake.value, c.pub(a));
  }

  // Both ends hold the same two states, crossed over, with nonce zero, and no handshake is left.
  predicate Finished<W(==)>(na: Node<W>, nb: Node<W>) {
    && na.handshake == None && nb.handshake == None
    && na.send == nb.recv && na.recv == nb.send
    && na.send.nonce == 0 && na.recv.nonce == 0 && na.send.ck == na.recv.ck
  }

  // The undisturbed handshake: every call succeeds, the responder learns the initiator's node id
  // and the two ends are ready to talk.
  lemma HandshakeAgrees<W(!new)>(c: Crypto<W>, p: Protocol<W>, na: Node<W>, nb: Node<W>,
                                 a: W, b: W, x: W, y: W, ta: W, tb: W)
    requires Laws(c)
    ensures var na1 := InitStep(c, p, na, a, Some(x), ta, Some(c.pub(b))).0;
            var nb1 := InitStep(c, p, nb, b, Some(y), tb, None).0;
            var (na2, m1) := StartStep(c, na1, c.pub(b));
            m1.Some? &&
            var (nb2, m2) := RecvStep(c, nb1, b, m1.value);
            m2.Some? &&
            var (na3, m3) := RecvStep(c, na2, a, m2.value);
            m3.Some? &&
            var (nb3, id) := RecvStep(c, nb2, b, m3.value);
            id == Some(c.pub(a)) && Finished(na3, nb3)
  {
    Begun(c, p, na, nb, a, b, x, y, ta, tb);
    var na1 := InitStep(c, p, na, a, Some(x), ta, Some(c.pub(b))).0;
    var nb1 := InitStep(c, p, nb, b, Some(y), tb, None).0;
    ActOneAgrees(c, na1, nb1, b, x, y);
    var (na2, m1) := StartStep(c, na1, c.pub(b));
    var (nb2, m2) := RecvStep(c, nb1, b, m1.value);
    ActTwoAgrees(c, na2, nb2, a, b, x, y, m2.value);
  }

  // ---------- what BOLT #8 computes ----------

  // The transcript hash over the strings mixed into it, in order.
  function Transcript<W>(c: Crypto<W>, start: W, xs: seq<Octets>): W
    decreases |xs|
  {
    if xs == [] then start else c.hash(Transcript(c, start, xs[..|xs| - 1]), xs[|xs| - 1])
  }

  lemma TranscriptSnoc<W>(c: Crypto<W>, start: W, xs: seq<Octets>, x: Octets)
    ensures Transcript(c, start, xs + [x]) == c.hash(Transcript(c, start, xs), x)
  {
    assert (xs + [x])[..|xs|] == xs;
  }

  lemma TranscriptSix<W>(c: Crypto<W>, w: W, a: Octets, b: Octets, d: Octets, e: Octets, f: Octets, g: Octets)
    ensures Transcript(c, w, [a, b, d, e, f, g]) ==
            c.hash(c.hash(c.hash(c.hash(c.hash(c.hash(w, a), b), d), e), f), g)
  {
    TranscriptSnoc(c, w, [], a);
    TranscriptSnoc(c, w, [a], b);
    TranscriptSnoc(c, w, [a, b], d);
    TranscriptSnoc(c, w, [a, b, d], e);
    TranscriptSnoc(c, w, [a, b, d, e], f);
    TranscriptSnoc(c, w, [a, b, d, e, f], g);
    assert [] + [a] == [a] && [a] + [b] == [a, b] && [a, b] + [d] == [a, b, d];
    assert [a, b, d] + [e] == [a, b, d, e] && [a, b, d, e] + [f] == [a, b, d, e, f];
    assert [a, b, d, e, f] + [g] == [a, b, d, e, f, g];
  }

  // When act three is due, both ends have hashed the prologue, the responder's id, and the key
  // and the tag of acts one and two, in this order.
  lemma TranscriptAfterTwo<W(!new)>(c: Crypto<W>, p: Protocol<W>, na: Node<W>, nb: Node<W>,
                                    a: W, b: W, x: W, y: W, ta: W, tb: W)
    requires Laws(c)
    ensures var na1 := InitStep(c, p, na, a, Some(x), ta, Some(c.pub(b))).0;
            var nb1 := InitStep(c, p, nb, b, Some(y), tb, None).0;
            var m1 := StartStep(c, na1, c.pub(b)).1;
            m1.Some? && |m1.value| == ACT_SIZE &&
            var (nb2, m2) := RecvStep(c, nb1, b, m1.value);
            m2.Some? && |m2.value| == ACT_SIZE && nb2.handshake.Some? &&
            nb2.handshake.value.h ==
            Transcript(c, p.name, [p.prologue, c.pub(b), c.pub(x), m1.value[34..], c.pub(y), m2.value[34..]])
  {
    Begun(c, p, na, nb, a, b, x, y, ta, tb);
    var na1 := InitStep(c, p, na, a, Some(x), ta, Some(c.pub(b))).0;
    var nb1 := InitStep(c, p, nb, b, Some(y), tb, None).0;
    ActOneAgrees(c, na1, nb1, b, x, y);
    assert Agree(c, b, x) && Agree(c, x, y) && Agree(c, y, x);
    var a0, b0 := na1.handshake.value, nb1.handshake.value;
    ActReceived(c, b0, b, c.pub(x));
    var t1 := Tag(c, Mix(c, a0, c.pub(x), c.ecdh(c.pub(b), x)));
    var b1 := AfterAct(c, b0, c.pub(x), c.ecdh(c.pub(x), b));
    var t2 := Tag(c, Mix(c, b1, c.pub(y), c.ecdh(c.pub(x), y)));
    TagSize(c, Mix(c, a0, c.pub(x), c.ecdh(c.pub(b), x)));
    TagSize(c, Mix(c, b1, c.pub(y), c.ecdh(c.pub(x), y)));
    PartsOfAct(c.pub(x), t1);
    PartsOfAct(c.pub(y), t2);
    TranscriptSix(c, p.name, p.prologue, c.pub(b), c.pub(x), t1, c.pub(y), t2);
  }

  lemma TagSize<W(!new)>(c: Crypto<W>, b: Bolt<W>)
    requires AeadLaw(c)
    ensures |Tag(c, b)| == MAC
  {
    assert Opens(c, b.tempK, 0, Some(b.h), []);
  }

  // The chaining key takes in the three shared secrets: ephemeral to static, ephemeral to
  // ephemeral, static to ephemeral.
  function ChainKey<W>(c: Crypto<W>, name: W, es: W, ee: W, se: W): W {
    c.hkdf(c.hkdf(c.hkdf(name, Some(es)).0, Some(ee)).0, Some(se)).0
  }

  // The keys both ends finish with, in closed form.
  lemma HandshakeKeys<W(!new)>(c: Crypto<W>, p: Protocol<W>, na: Node<W>, nb: Node<W>,
                               a: W, b: W, x: W, y: W, ta: W, tb: W)
    requires Laws(c)
    ensures var na1 := InitStep(c, p, na, a, Some(x), ta, Some(c.pub(b))).0;
            var nb1 := InitStep(c, p, nb, b, Some(y), tb, None).0;
            var (na2, m1) := StartStep(c, na1, c.pub(b));
            m1.Some? &&
            var m2 := RecvStep(c, nb1, b, m1.value).1;
            m2.Some? &&
            var na3 := RecvStep(c, na2, a, m2.value).0;
            var ck := ChainKey(c, p.name, c.ecdh(c.pub(b), x), c.ecdh(c.pub(y), x), c.ecdh(c.pub(y), a));
            var keys := c.hkdf(ck, None);
            na3.send == Noise(keys.0, 0, ck) && na3.recv == Noise(keys.1, 0, ck)
  {
    Begun(c, p, na, nb, a, b, x, y, ta, tb);
    var na1 := InitStep(c, p, na, a, Some(x), ta, Some(c.pub(b))).0;
    var nb1 := InitStep(c, p, nb, b, Some(y), tb, None).0;
    ActOneAgrees(c, na1, nb1, b, x, y);
    var (na2, m1) := StartStep(c, na1, c.pub(b));
    assert Agree(c, y, x);
    ActReceived(c, na2.handshake.value, x, c.pub(y));
  }

  lemma FourPairs<W>(k1: W, k2: W, k3: W)
    ensures Distinct([(k1, 0), (k2, 0), (k2, 1), (k3, 0)]) <==> k1 != k2 && k2 != k3 && k1 != k3
  {
    var s := [(k1, 0), (k2, 0), (k2, 1), (k3, 0)];
    if Distinct(s) {
      assert s[0] != s[1] && s[1] != s[3] && s[0] != s[3];
    }
  }

  // What the three acts consist of, from the primitives alone: a version byte, an ephemeral key or
  // the sealed node id, and a tag over the transcript so far. The four seals use a key and nonce
  // together twice only if the key derivation repeats a key.
  lemma HandshakeMessages<W(!new)>(c: Crypto<W>, p: Protocol<W>, na: Node<W>, nb: Node<W>,
                                   a: W, b: W, x: W, y: W, ta: W, tb: W)
    requires Laws(c)
    ensures var (ck1, k1) := c.hkdf(p.name, Some(c.ecdh(c.pub(b), x)));
            var (ck2, k2) := c.hkdf(ck1, Some(c.ecdh(c.pub(y), x)));
            var k3 := c.hkdf(ck2, Some(c.ecdh(c.pub(y), a))).1;
            var h1 := c.hash(c.hash(c.hash(p.name, p.prologue), c.pub(b)), c.pub(x));
            var t1 := c.seal(k1, 0, Some(h1), []);
            var h2 := c.hash(c.hash(h1, t1), c.pub(y));
            var t2 := c.seal(k2, 0, Some(h2), []);
            var h3 := c.hash(h2, t2);
            var box := c.seal(k2, 1, Some(h3), c.pub(a));
            var t3 := c.seal(k3, 0, Some(c.hash(h3, box)), []);
            var na1 := InitStep(c, p, na, a, Some(x), ta, Some(c.pub(b))).0;
            var nb1 := InitStep(c, p, nb, b, Some(y), tb, None).0;
            var (na2, m1) := StartStep(c, na1, c.pub(b));
            && m1 == Some([0] + c.pub(x) + t1)
            && var (nb2, m2) := RecvStep(c, nb1, b, m1.value);
            && m2 == Some([0] + c.pub(y) + t2)
            && RecvStep(c, na2, a, m2.value).1 == Some([0] + box + t3)
            && (Distinct([(k1, 0), (k2, 0), (k2, 1), (k3, 0)]) <==> k1 != k2 && k2 != k3 && k1 != k3)
  {
    Begun(c, p, na, nb, a, b, x, y, ta, tb);
    var na1 := InitStep(c, p, na, a, Some(x), ta, Some(c.pub(b))).0;
    var nb1 := InitStep(c, p, nb, b, Some(y), tb, None).0;
    ActOneAgrees(c, na1, nb1, b, x, y);
    assert Agree(c, b, x) && Agree(c, x, y) && Agree(c, y, x);
    ActReceived(c, nb1.handshake.value, b, c.pub(x));
    var (na2, m1) := StartStep(c, na1, c.pub(b));
    ActReceived(c, na2.handshake.value, x, c.pub(y));
    var k2 := c.hkdf(na2.handshake.value.ck, Some(c.ecdh(c.pub(y), x)));
    FourPairs(na2.handshake.value.tempK, k2.1, c.hkdf(k2.0, Some(c.ecdh(c.pub(y), a))).1);
  }

  // What a refused message leaves: no handshake, and from act two on the nonces and the chaining
  // keys of the connection are overwritten, its keys are not.
  lemma RefusedMessage<W(!new)>(c: Crypto<W>, n: Node<W>, s: W, buf: Octets)
    requires n.handshake.Some? && RecvStep(c, n, s, buf).1.None?
    ensures var b, r := n.handshake.value, RecvStep(c, n, s, buf).0;
            && r.handshake == None
            && (b.state == StartInitiator || b.state == WaitActOne ==> r.send == n.send && r.recv == n.recv)
            && (b.state == WaitActTwo || b.state == WaitActThree ==>
                  && r.send.key == n.send.key && r.recv.key == n.recv.key
                  && r.send.nonce == r.recv.nonce == 0 && r.send.ck == r.recv.ck)
            && (b.state == WaitActTwo ==>
                  r.send.ck ==
                  if |buf| == 50 && buf[0] == 0 then c.hkdf(b.ck, Some(c.ecdh(buf[1..34], b.e))).0 else b.ck)
  {
  }

  // After it, whatever the two ends send each other and however the two directions interleave, no
  // call fails, and at any moment reading on delivers everything sent, in both directions.
  lemma SessionAfterHandshake<W(!new)>(c: Crypto<W>, na: Node<W>, nb: Node<W>, evs: seq<(bool, Session.Event)>)
    requires Laws(c) && Finished(na, nb)
    ensures var r := Session.RunBoth(c, Session.Connection(Between(na, nb), Between(nb, na)), evs);
            r.Some? && CatchesUp(c, r.value.ab) && CatchesUp(c, r.value.ba)
  {
    Session.BothKeep(c, na.send, nb.send, evs);
    var r := Session.RunBoth(c, Session.Connection(Between(na, nb), Between(nb, na)), evs).value;
    Session.CatchUpFrom(c, na.send, r.ab);
    Session.CatchUpFrom(c, nb.send, r.ba);
  }

  // Reading on, without a failure, delivers everything sent and leaves both ends in one state.
  ghost predicate CatchesUp<W>(c: Crypto<W>, l: Session.Link<W>) {
    var r := Session.Run(c, l, Session.Rest(l));
    r.Some? && Session.CaughtUp(l, r.value)
  }

  // The direction from one node to the other.
  function Between<W>(from: Node<W>, to: Node<W>): Session.Link<W> {
    Session.Link(from.send, to.recv, [], None, [], [], [])
  }
}
