// Whole sessions over the transport of ln/ln_enc_auth.c: one end sends messages onto a byte
// stream, the other reads a header, then as many bytes as it announces, whenever they are there.
module NoiseSession {
  import opened Basics
  import opened NoiseCrypto
  import opened NoiseTransport

  // One direction of a connection. body is the length the last header announced, while the body
  // is still to be read; used lists the key and nonce of every sealing.
  datatype Link<W> = Link(tx: Noise<W>, rx: Noise<W>, wire: Octets, body: Option<nat>,
                          sent: seq<Octets>, got: seq<Octets>, used: seq<(W, nat)>)

  datatype Event = Send(msg: Octets) | ReadHeader | ReadBody

  function Start<W>(s: Noise<W>): Link<W> { Link(s, s, [], None, [], [], []) }

  predicate Enabled<W>(l: Link<W>, ev: Event) {
    match ev
    case Send(msg) => |msg| <= MAX_MESSAGE
    case ReadHeader => l.body.None? && |l.wire| >= HEADER
    case ReadBody => l.body.Some? && |l.wire| >= l.body.value
  }

  // None when a call fails; an event that cannot happen yet changes nothing.
  function Step<W>(c: Crypto<W>, l: Link<W>, ev: Event): Option<Link<W>> {
    if !Enabled(l, ev) then Some(l)
    else match ev
      case Send(msg) => SendStep(c, l, msg)
      case ReadHeader => HeaderStep(c, l)
      case ReadBody => BodyStep(c, l)
  }

  function SendStep<W>(c: Crypto<W>, l: Link<W>, msg: Octets): Option<Link<W>> {
    var (s, packet) := EncStep(c, l.tx, msg);
    if packet.None? then None
    else Some(l.(tx := s, wire := l.wire + packet.value, sent := l.sent + [msg], used := l.used + EncUses(l.tx)))
  }

  function HeaderStep<W>(c: Crypto<W>, l: Link<W>): Option<Link<W>>
    requires Enabled(l, ReadHeader)
  {
    var (s, n) := DecLenStep(c, l.rx, l.wire[..HEADER]);
    if n == 0 then None else Some(l.(rx := s, body := Some(n), wire := l.wire[HEADER..]))
  }

  function BodyStep<W>(c: Crypto<W>, l: Link<W>): Option<Link<W>>
    requires Enabled(l, ReadBody)
  {
    var n := l.body.value;
    if n < MAC then None
    else
      var (s, msg) := DecMsgStep(c, l.rx, l.wire[..n]);
      if msg.None? then None
      else Some(l.(rx := s, body := None, wire := l.wire[n..], got := l.got + [msg.value]))
  }

  function Run<W>(c: Crypto<W>, l: Link<W>, evs: seq<Event>): Option<Link<W>>
    decreases |evs|
  {
    if evs == [] then Some(l)
    else
      var before := Run(c, l, evs[..|evs| - 1]);
      if before.None? then None else Step(c, before.value, evs[|evs| - 1])
  }

  // ---------- the states a session goes through ----------

  // The chaining key and key after e rotations, from the key derivation alone.
  function KeyChain<W>(c: Crypto<W>, s: Noise<W>, e: nat): (W, W) {
    if e == 0 then (s.ck, s.key)
    else
      var (ck, key) := KeyChain(c, s, e - 1);
      c.hkdf(ck, Some(key))
  }

  // Message m is sealed in epoch m / 500 with nonces 2 (m % 500) and one more.
  function NoiseAt<W>(c: Crypto<W>, s: Noise<W>, m: nat): (r: Noise<W>)
    ensures r.nonce % 2 == 0 && r.nonce < 1000 && 1000 * (m / 500) + r.nonce == 2 * m
  {
    Noise(KeyChain(c, s, m / 500).1, 2 * (m % 500), KeyChain(c, s, m / 500).0)
  }

  lemma NoiseNext<W>(c: Crypto<W>, s: Noise<W>, m: nat)
    requires s.nonce == 0
    ensures Mid(NoiseAt(c, s, m)).nonce == NoiseAt(c, s, m).nonce + 1 < ROTATE
    ensures Advance(c, Mid(NoiseAt(c, s, m))) == NoiseAt(c, s, m + 1)
  {
    if m % 500 == 499 {
      assert (m + 1) / 500 == m / 500 + 1 && (m + 1) % 500 == 0;
      assert KeyChain(c, s, (m + 1) / 500) == c.hkdf(KeyChain(c, s, m / 500).0, Some(KeyChain(c, s, m / 500).1));
    } else {
      assert (m + 1) / 500 == m / 500 && (m + 1) % 500 == m % 500 + 1;
    }
  }

  lemma NoiseZero<W>(c: Crypto<W>, s: Noise<W>)
    requires s.nonce == 0
    ensures NoiseAt(c, s, 0) == s
  {
  }

  // The bytes of messages k on.
  function Stream<W>(c: Crypto<W>, s: Noise<W>, msgs: seq<Octets>, k: nat): Octets
    requires k <= |msgs|
    decreases |msgs| - k
  {
    if k == |msgs| then []
    else SealLength(c, NoiseAt(c, s, k), msgs[k]) + SealBody(c, NoiseAt(c, s, k), msgs[k]) + Stream(c, s, msgs, k + 1)
  }

  lemma {:induction false} StreamSnoc<W>(c: Crypto<W>, s: Noise<W>, msgs: seq<Octets>, msg: Octets, k: nat)
    requires k <= |msgs|
    ensures Stream(c, s, msgs + [msg], k) == Stream(c, s, msgs, k)
            + (SealLength(c, NoiseAt(c, s, |msgs|), msg) + SealBody(c, NoiseAt(c, s, |msgs|), msg))
    decreases |msgs| - k
  {
    if k == |msgs| {
      assert Stream(c, s, msgs + [msg], k + 1) == [];
    } else {
      StreamSnoc(c, s, msgs, msg, k + 1);
      assert (msgs + [msg])[k] == msgs[k];
    }
  }

  // What is still to be read: the body of the message whose header was read, then the rest.
  function Pending<W>(c: Crypto<W>, s: Noise<W>, msgs: seq<Octets>, k: nat, inBody: bool): Octets
    requires k <= |msgs| && (inBody ==> k < |msgs|)
  {
    if inBody then SealBody(c, NoiseAt(c, s, k), msgs[k]) + Stream(c, s, msgs, k + 1)
    else Stream(c, s, msgs, k)
  }

  predicate Counted<W>(l: Link<W>) {
    && |l.got| <= |l.sent| && (l.body.Some? ==> |l.got| < |l.sent|)
    && (l.body.Some? ==> l.body.value == |l.sent[|l.got|]| + MAC)
    && forall i | 0 <= i < |l.sent| :: |l.sent[i]| <= MAX_MESSAGE
  }

  // The invariant of every run that starts in state s at both ends.
  ghost predicate Inv<W>(c: Crypto<W>, s: Noise<W>, l: Link<W>) {
    && Counted(l)
    && l.got == l.sent[..|l.got|]
    && l.tx == NoiseAt(c, s, |l.sent|)
    && l.rx == (if l.body.Some? then Mid(NoiseAt(c, s, |l.got|)) else NoiseAt(c, s, |l.got|))
    && l.wire == Pending(c, s, l.sent, |l.got|, l.body.Some?)
  }

  lemma SendKeeps<W(!new)>(c: Crypto<W>, s: Noise<W>, l: Link<W>, msg: Octets)
    requires s.nonce == 0 && Inv(c, s, l) && |msg| <= MAX_MESSAGE
    ensures SendStep(c, l, msg).Some? && Inv(c, s, SendStep(c, l, msg).value)
  {
    NoiseNext(c, s, |l.sent|);
    PendingSnoc(c, s, l.sent, msg, |l.got|, l.body.Some?);
    PrefixKept(l.sent, msg, |l.got|);
  }

  lemma PrefixKept(msgs: seq<Octets>, msg: Octets, k: nat)
    requires k <= |msgs|
    ensures (msgs + [msg])[..k] == msgs[..k]
  {
  }

  lemma PendingSnoc<W>(c: Crypto<W>, s: Noise<W>, msgs: seq<Octets>, msg: Octets, k: nat, inBody: bool)
    requires k <= |msgs| && (inBody ==> k < |msgs|)
    ensures Pending(c, s, msgs + [msg], k, inBody) == Pending(c, s, msgs, k, inBody)
            + (SealLength(c, NoiseAt(c, s, |msgs|), msg) + SealBody(c, NoiseAt(c, s, |msgs|), msg))
  {
    StreamSnoc(c, s, msgs, msg, if inBody then k + 1 else k);
    if inBody { assert (msgs + [msg])[k] == msgs[k]; }
  }

  lemma HeaderKeeps<W(!new)>(c: Crypto<W>, s: Noise<W>, l: Link<W>)
    requires AeadLaw(c) && s.nonce == 0 && Inv(c, s, l) && Enabled(l, ReadHeader)
    ensures HeaderStep(c, l).Some? && Inv(c, s, HeaderStep(c, l).value)
  {
    var k := |l.got|;
    NoiseNext(c, s, k);
    assert k < |l.sent|;
    DecAfterEnc(c, NoiseAt(c, s, k), l.sent[k]);
    assert l.wire[..HEADER] == SealLength(c, NoiseAt(c, s, k), l.sent[k]);
    assert l.wire[HEADER..] == Pending(c, s, l.sent, k, true);
  }

  lemma BodyKeeps<W(!new)>(c: Crypto<W>, s: Noise<W>, l: Link<W>)
    requires AeadLaw(c) && s.nonce == 0 && Inv(c, s, l) && Enabled(l, ReadBody)
    ensures BodyStep(c, l).Some? && Inv(c, s, BodyStep(c, l).value)
  {
    var k := |l.got|;
    NoiseNext(c, s, k);
    DecAfterEnc(c, NoiseAt(c, s, k), l.sent[k]);
    var n := l.body.value;
    assert l.wire[..n] == SealBody(c, NoiseAt(c, s, k), l.sent[k]);
    assert l.wire[n..] == Pending(c, s, l.sent, k + 1, false);
    assert l.sent[..k] + [l.sent[k]] == l.sent[..k + 1];
  }

  lemma StepKeeps<W(!new)>(c: Crypto<W>, s: Noise<W>, l: Link<W>, ev: Event)
    requires AeadLaw(c) && s.nonce == 0 && Inv(c, s, l)
    ensures Step(c, l, ev).Some? && Inv(c, s, Step(c, l, ev).value)
  {
    if Enabled(l, ev) {
      match ev
      case Send(msg) => SendKeeps(c, s, l, msg);
      case ReadHeader => HeaderKeeps(c, s, l);
      case ReadBody => BodyKeeps(c, s, l);
    }
  }

  // In every run no call fails and the invariant holds: the two ends agree at every message
  // boundary and what was received is a prefix of what was sent.
  lemma {:induction false} RunKeeps<W(!new)>(c: Crypto<W>, s: Noise<W>, evs: seq<Event>)
    requires AeadLaw(c) && s.nonce == 0
    ensures Run(c, Start(s), evs).Some? && Inv(c, s, Run(c, Start(s), evs).value)
    decreases |evs|
  {
    if evs == [] {
      NoiseZero(c, s);
    } else {
      RunKeeps(c, s, evs[..|evs| - 1]);
      StepKeeps(c, s, Run(c, Start(s), evs[..|evs| - 1]).value, evs[|evs| - 1]);
    }
  }

  // ---------- delivery ----------

  // Something is always ready to be read until everything sent has arrived.
  lemma SomethingToRead<W(!new)>(c: Crypto<W>, s: Noise<W>, l: Link<W>)
    requires AeadLaw(c) && s.nonce == 0 && Inv(c, s, l)
    ensures Enabled(l, ReadHeader) <==> l.body.None? && |l.got| < |l.sent|
    ensures Enabled(l, ReadBody) <==> l.body.Some?
  {
    var k := |l.got|;
    if k < |l.sent| {
      NoiseNext(c, s, k);
      DecAfterEnc(c, NoiseAt(c, s, k), l.sent[k]);
    }
  }

  function Reads(n: nat): (r: seq<Event>)
    ensures |r| == 2 * n
  {
    if n == 0 then [] else Reads(n - 1) + [ReadHeader, ReadBody]
  }

  lemma RunTwo<W>(c: Crypto<W>, l: Link<W>, evs: seq<Event>, a: Event, b: Event)
    requires Run(c, l, evs).Some?
    ensures var mid := Step(c, Run(c, l, evs).value, a);
            Run(c, l, evs + [a, b]) == if mid.None? then None else Step(c, mid.value, b)
  {
    assert evs + [a, b] == evs + [a] + [b];
    RunOne(c, l, evs, a);
    if Run(c, l, evs + [a]).Some? {
      RunOne(c, l, evs + [a], b);
    } else {
      assert (evs + [a] + [b])[..|evs| + 1] == evs + [a];
    }
  }

  lemma RunOne<W>(c: Crypto<W>, l: Link<W>, evs: seq<Event>, a: Event)
    requires Run(c, l, evs).Some?
    ensures Run(c, l, evs + [a]) == Step(c, Run(c, l, evs).value, a)
  {
    assert (evs + [a])[..|evs|] == evs;
  }

  predicate Delivered<W>(from: Link<W>, to: Link<W>, n: nat) {
    to.body.None? && to.sent == from.sent && |to.got| == |from.got| + n
  }

  lemma OneRound<W(!new)>(c: Crypto<W>, s: Noise<W>, l: Link<W>)
    requires AeadLaw(c) && s.nonce == 0 && Inv(c, s, l) && l.body.None? && |l.got| < |l.sent|
    ensures var mid := Step(c, l, ReadHeader);
            && mid.Some? && Step(c, mid.value, ReadBody).Some?
            && Inv(c, s, Step(c, mid.value, ReadBody).value)
            && Delivered(l, Step(c, mid.value, ReadBody).value, 1)
  {
    SomethingToRead(c, s, l);
    StepKeeps(c, s, l, ReadHeader);
    var mid := Step(c, l, ReadHeader).value;
    SomethingToRead(c, s, mid);
    StepKeeps(c, s, mid, ReadBody);
  }

  lemma NextRound<W(!new)>(c: Crypto<W>, s: Noise<W>, l: Link<W>) returns (r: Link<W>)
    requires AeadLaw(c) && s.nonce == 0 && Inv(c, s, l) && l.body.None? && |l.got| < |l.sent|
    ensures Run(c, l, [ReadHeader, ReadBody]) == Some(r) && Inv(c, s, r) && Delivered(l, r, 1)
  {
    OneRound(c, s, l);
    assert [] + [ReadHeader, ReadBody] == [ReadHeader, ReadBody];
    RunTwo(c, l, [], ReadHeader, ReadBody);
    r := Step(c, Step(c, l, ReadHeader).value, ReadBody).value;
  }

  lemma OneMoreRound<W(!new)>(c: Crypto<W>, s: Noise<W>, l: Link<W>, mid: Link<W>, n: nat) returns (r: Link<W>)
    requires AeadLaw(c) && s.nonce == 0 && Inv(c, s, mid) && 0 < n <= Missing(l)
    requires Run(c, l, Reads(n - 1)) == Some(mid) && Delivered(l, mid, n - 1)
    ensures Run(c, l, Reads(n)) == Some(r) && Inv(c, s, r) && Delivered(l, r, n)
  {
    r := NextRound(c, s, mid);
    RunThen(c, l, mid, r, Reads(n - 1), [ReadHeader, ReadBody]);
  }

  // From any state between messages, n rounds of reading deliver n messages more.
  lemma {:induction false} ReadsDeliver<W(!new)>(c: Crypto<W>, s: Noise<W>, l: Link<W>, n: nat) returns (r: Link<W>)
    requires AeadLaw(c) && s.nonce == 0 && Inv(c, s, l) && l.body.None? && n <= Missing(l)
    ensures Run(c, l, Reads(n)) == Some(r) && Inv(c, s, r) && Delivered(l, r, n)
  {
    r := l;
    if n > 0 {
      var mid := ReadsDeliver(c, s, l, n - 1);
      r := OneMoreRound(c, s, l, mid, n);
    }
  }

  function Missing<W>(l: Link<W>): nat {
    if |l.got| <= |l.sent| then |l.sent| - |l.got| else 0
  }

  lemma {:induction false} RunConcat<W>(c: Crypto<W>, l: Link<W>, xs: seq<Event>, ys: seq<Event>)
    requires Run(c, l, xs).Some?
    ensures Run(c, l, xs + ys) == Run(c, Run(c, l, xs).value, ys)
    decreases |ys|
  {
    if ys == [] {
      assert xs + ys == xs;
    } else {
      RunConcat(c, l, xs, ys[..|ys| - 1]);
      assert (xs + ys)[..|xs + ys| - 1] == xs + ys[..|ys| - 1];
    }
  }

  // The body that is pending, if one is, then everything else.
  function Rest<W>(l: Link<W>): seq<Event> {
    var pending := if l.body.Some? then 1 else 0;
    [ReadBody] + Reads(if Missing(l) >= pending then Missing(l) - pending else 0)
  }

  predicate CaughtUp<W(==)>(from: Link<W>, to: Link<W>) {
    to.got == to.sent == from.sent && to.tx == to.rx && to.wire == [] && to.body.None?
  }

  lemma FirstBody<W(!new)>(c: Crypto<W>, s: Noise<W>, l: Link<W>) returns (r: Link<W>)
    requires AeadLaw(c) && s.nonce == 0 && Inv(c, s, l)
    ensures Run(c, l, [ReadBody]) == Some(r) && Inv(c, s, r)
    ensures Delivered(l, r, if l.body.Some? then 1 else 0)
  {
    SomethingToRead(c, s, l);
    StepKeeps(c, s, l, ReadBody);
    assert [ReadBody][..0] == [];
    assert Run(c, l, []) == Some(l);
    r := Step(c, l, ReadBody).value;
  }

  // From any state of a session the reader can catch up: it then has every message, in order and
  // unchanged, and both ends hold the same key, chaining key and nonce.
  lemma CatchUpFrom<W(!new)>(c: Crypto<W>, s: Noise<W>, l: Link<W>)
    requires AeadLaw(c) && s.nonce == 0 && Inv(c, s, l)
    ensures Run(c, l, Rest(l)).Some? && CaughtUp(l, Run(c, l, Rest(l)).value)
  {
    var r1 := FirstBody(c, s, l);
    var r2 := ReadsDeliver(c, s, r1, Missing(r1));
    RestIs(l, r1);
    RunThen(c, l, r1, r2, [ReadBody], Reads(Missing(r1)));
    AllRead(c, s, r2);
  }

  lemma RestIs<W>(l: Link<W>, r: Link<W>)
    requires Counted(l) && Delivered(l, r, if l.body.Some? then 1 else 0)
    ensures Rest(l) == [ReadBody] + Reads(Missing(r))
  {
  }

  lemma RunThen<W>(c: Crypto<W>, l: Link<W>, mid: Link<W>, r: Link<W>, xs: seq<Event>, ys: seq<Event>)
    requires Run(c, l, xs) == Some(mid) && Run(c, mid, ys) == Some(r)
    ensures Run(c, l, xs + ys) == Some(r)
  {
    RunConcat(c, l, xs, ys);
  }

  // So it can after any run.
  lemma CatchUp<W(!new)>(c: Crypto<W>, s: Noise<W>, evs: seq<Event>)
    requires AeadLaw(c) && s.nonce == 0
    ensures Run(c, Start(s), evs).Some?
    ensures var l := Run(c, Start(s), evs).value;
            Run(c, l, Rest(l)).Some? && CaughtUp(l, Run(c, l, Rest(l)).value)
  {
    RunKeeps(c, s, evs);
    CatchUpFrom(c, s, Run(c, Start(s), evs).value);
  }

  lemma AllRead<W>(c: Crypto<W>, s: Noise<W>, l: Link<W>)
    requires Inv(c, s, l) && l.body.None? && |l.got| == |l.sent|
    ensures l.got == l.sent && l.tx == l.rx && l.wire == []
  {
  }

  // ---------- no nonce twice ----------

  lemma UsesOfMessage<W>(c: Crypto<W>, s: Noise<W>, m: nat)
    requires s.nonce == 0
    ensures EncUses(NoiseAt(c, s, m)) == [UseAt(c, s, 2 * m), UseAt(c, s, 2 * m + 1)]
  {
    NoiseNext(c, s, m);
    HalfIndex(m);
  }

  lemma HalfIndex(m: nat)
    ensures 2 * m / ROTATE == m / 500 && 2 * m % ROTATE == 2 * (m % 500)
    ensures (2 * m + 1) / ROTATE == m / 500 && (2 * m + 1) % ROTATE == 2 * (m % 500) + 1
  {
    var q, r := m / 500, m % 500;
    assert m == 500 * q + r && 2 * m == 1000 * q + 2 * r;
  }

  function UseAt<W>(c: Crypto<W>, s: Noise<W>, j: nat): (W, nat) {
    (KeyChain(c, s, j / 1000).1, j % 1000)
  }

  ghost predicate UsesAre<W>(c: Crypto<W>, s: Noise<W>, l: Link<W>) {
    && |l.used| == 2 * |l.sent|
    && forall j | 0 <= j < |l.used| :: l.used[j] == UseAt(c, s, j)
  }

  lemma StepUses<W(!new)>(c: Crypto<W>, s: Noise<W>, l: Link<W>, ev: Event)
    requires s.nonce == 0 && l.tx == NoiseAt(c, s, |l.sent|) && UsesAre(c, s, l) && Step(c, l, ev).Some?
    ensures UsesAre(c, s, Step(c, l, ev).value)
  {
    var r := Step(c, l, ev).value;
    if ev.Send? && Enabled(l, ev) {
      UsesOfMessage(c, s, |l.sent|);
      assert r.used == l.used + [UseAt(c, s, 2 * |l.sent|), UseAt(c, s, 2 * |l.sent| + 1)];
    } else {
      assert r.used == l.used && r.sent == l.sent;
    }
  }

  lemma {:induction false} RunUsesAre<W(!new)>(c: Crypto<W>, s: Noise<W>, evs: seq<Event>)
    requires AeadLaw(c) && s.nonce == 0
    ensures Run(c, Start(s), evs).Some? && UsesAre(c, s, Run(c, Start(s), evs).value)
    decreases |evs|
  {
    RunKeeps(c, s, evs);
    if evs != [] {
      RunUsesAre(c, s, evs[..|evs| - 1]);
      RunKeeps(c, s, evs[..|evs| - 1]);
      StepUses(c, s, Run(c, Start(s), evs[..|evs| - 1]).value, evs[|evs| - 1]);
    }
  }

  // Call j of the cipher uses the key after j / 1000 rotations and nonce j % 1000, in every run.
  lemma RunUses<W(!new)>(c: Crypto<W>, s: Noise<W>, evs: seq<Event>)
    requires AeadLaw(c) && s.nonce == 0
    ensures Run(c, Start(s), evs).Some?
    ensures var l := Run(c, Start(s), evs).value;
            && |l.used| == 2 * |l.sent|
            && forall j | 0 <= j < |l.used| :: l.used[j] == (KeyChain(c, s, j / 1000).1, j % 1000)
  {
    RunUsesAre(c, s, evs);
    var l := Run(c, Start(s), evs).value;
    forall j | 0 <= j < |l.used| ensures l.used[j] == (KeyChain(c, s, j / 1000).1, j % 1000) {
      assert l.used[j] == UseAt(c, s, j);
    }
  }

  // What both ends hold in every run, from the key derivation and the two message counts.
  lemma RunStates<W(!new)>(c: Crypto<W>, s: Noise<W>, evs: seq<Event>)
    requires AeadLaw(c) && s.nonce == 0
    ensures Run(c, Start(s), evs).Some?
    ensures var l := Run(c, Start(s), evs).value;
            && |l.got| <= |l.sent| && l.got == l.sent[..|l.got|]
            && (l.tx.ck, l.tx.key) == KeyChain(c, s, |l.sent| / 500) && l.tx.nonce == 2 * (|l.sent| % 500)
            && (l.rx.ck, l.rx.key) == KeyChain(c, s, |l.got| / 500)
            && l.rx.nonce == 2 * (|l.got| % 500) + if l.body.Some? then 1 else 0
  {
    RunKeeps(c, s, evs);
    NoiseNext(c, s, |Run(c, Start(s), evs).value.got|);
  }

  // The packet of message m: its length in two bytes, then the message, each sealed without
  // associated data under the key of its epoch and the next two nonces.
  lemma PacketIs<W(!new)>(c: Crypto<W>, s: Noise<W>, l: Link<W>, msg: Octets)
    requires AeadLaw(c) && s.nonce == 0 && Inv(c, s, l) && |msg| <= 65519
    ensures SendStep(c, l, msg).Some?
    ensures var k, n := KeyChain(c, s, |l.sent| / 500).1, 2 * (|l.sent| % 500);
            SendStep(c, l, msg).value.wire == l.wire
              + c.seal(k, n, None, [(|msg| / 256) as Octet, (|msg| % 256) as Octet]) + c.seal(k, n + 1, None, msg)
  {
    NoiseNext(c, s, |l.sent|);
    AnnouncedLength(|msg|);
  }

  // The keys begun by n calls of the cipher.
  ghost predicate FreshKeys<W>(c: Crypto<W>, s: Noise<W>, n: nat) {
    forall d: nat, e: nat | d < e && e * 1000 < n :: KeyChain(c, s, d).1 != KeyChain(c, s, e).1
  }

  // So no key and nonce are ever used together twice, exactly when the key chain itself has not
  // repeated a key in the epochs begun.
  lemma NoReuse<W(!new)>(c: Crypto<W>, s: Noise<W>, evs: seq<Event>)
    requires AeadLaw(c) && s.nonce == 0 && Run(c, Start(s), evs).Some?
    ensures var used := Run(c, Start(s), evs).value.used; Distinct(used) <==> FreshKeys(c, s, |used|)
  {
    RunUsesAre(c, s, evs);
    UsesDistinct(c, s, Run(c, Start(s), evs).value.used);
  }

  lemma UsesDistinct<W>(c: Crypto<W>, s: Noise<W>, used: seq<(W, nat)>)
    requires forall j | 0 <= j < |used| :: used[j] == UseAt(c, s, j)
    ensures Distinct(used) <==> FreshKeys(c, s, |used|)
  {
    if Distinct(used) {
      forall d: nat, e: nat | d < e && e * ROTATE < |used|
        ensures KeyChain(c, s, d).1 != KeyChain(c, s, e).1
      {
        assert used[d * ROTATE] != used[e * ROTATE];
      }
    }
    if FreshKeys(c, s, |used|) {
      forall i, j | 0 <= i < j < |used| ensures used[i] != used[j] {
        if i / ROTATE == j / ROTATE {
          assert i % ROTATE != j % ROTATE;
        } else {
          assert i / ROTATE < j / ROTATE && j / ROTATE * ROTATE < |used|;
        }
      }
    }
  }

  // ---------- both directions ----------

  // A connection: each event happens in one of the two directions.
  datatype Connection<W> = Connection(ab: Link<W>, ba: Link<W>)

  function RunBoth<W>(c: Crypto<W>, x: Connection<W>, evs: seq<(bool, Event)>): Option<Connection<W>>
    decreases |evs|
  {
    if evs == [] then Some(x)
    else
      var before := RunBoth(c, x, evs[..|evs| - 1]);
      if before.None? then None else StepBoth(c, before.value, evs[|evs| - 1])
  }

  function StepBoth<W>(c: Crypto<W>, x: Connection<W>, ev: (bool, Event)): Option<Connection<W>> {
    var after := Step(c, if ev.0 then x.ab else x.ba, ev.1);
    if after.None? then None
    else if ev.0 then Some(x.(ab := after.value)) else Some(x.(ba := after.value))
  }

  // However the two directions interleave, each keeps its invariant.
  lemma {:induction false} BothKeep<W(!new)>(c: Crypto<W>, s: Noise<W>, t: Noise<W>, evs: seq<(bool, Event)>)
    requires AeadLaw(c) && s.nonce == 0 && t.nonce == 0
    ensures var r := RunBoth(c, Connection(Start(s), Start(t)), evs);
            r.Some? && Inv(c, s, r.value.ab) && Inv(c, t, r.value.ba)
    decreases |evs|
  {
    if evs == [] {
      NoiseZero(c, s);
      NoiseZero(c, t);
    } else {
      BothKeep(c, s, t, evs[..|evs| - 1]);
      var x := RunBoth(c, Connection(Start(s), Start(t)), evs[..|evs| - 1]).value;
      var (dir, ev) := evs[|evs| - 1];
      if dir { StepKeeps(c, s, x.ab, ev); } else { StepKeeps(c, t, x.ba, ev); }
    }
  }
}
