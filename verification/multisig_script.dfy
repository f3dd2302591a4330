// The scripts that btc_tx_set_vin_p2sh of btc/btc_tx.c and btc_keys_createmulti of
// btc/btc_keys.c write, and what btc_tx_verify_multisig makes of them.
module MultisigScript {
  import opened Basics
  import opened Multisig

  function Push(x: Octets): Octets { [(|x| % 256) as Octet] + x }

  function Pushes(xs: seq<Octets>): Octets
    decreases |xs|
  {
    if xs == [] then [] else Pushes(xs[..|xs| - 1]) + Push(xs[|xs| - 1])
  }

  predicate AreKeys(keys: seq<Octets>) {
    forall i | 0 <= i < |keys| :: |keys[i]| == KEY
  }

  predicate AreShort(sigs: seq<Octets>) {
    forall i | 0 <= i < |sigs| :: |sigs[i]| < 0x4c
  }

  // The redeem script: m of the given keys.
  function Redeem(keys: seq<Octets>, m: nat): Octets
    requires |keys| <= 16 && m <= 16
  {
    [(OP_X + m) as Octet] + Pushes(keys) + [(OP_X + |keys|) as Octet, OP_CHECKMULTISIG]
  }

  function CreateMulti(keys: seq<Octets>, m: nat): Option<Octets> {
    if |keys| > 16 || m > 16 || m > |keys| then None else Some(Redeem(keys, m))
  }

  // The length of the redeem script, as it is pushed: below 256 in one byte, else in two.
  function PushLength(n: nat): Octets {
    if n >= 0x100 then [OP_PUSHDATA2, (n % 256) as Octet, (n / 256 % 256) as Octet]
    else [OP_PUSHDATA1, n as Octet]
  }

  function ScriptSig(sigs: seq<Octets>, redeem: Octets): Octets {
    [0] + Pushes(sigs) + PushLength(|redeem|) + redeem
  }

  // ---------- the scripts byte for byte ----------

  lemma {:induction false} KeyPushes(keys: seq<Octets>, i: nat)
    requires AreKeys(keys) && i < |keys|
    ensures |Pushes(keys)| == 34 * |keys|
    ensures Pushes(keys)[34 * i] == 33 && Pushes(keys)[34 * i + 1..34 * i + 34] == keys[i]
    decreases |keys|
  {
    var n := |keys| - 1;
    if i < n {
      KeyPushes(keys[..n], i);
      assert Pushes(keys)[..34 * n] == Pushes(keys[..n]);
      assert Pushes(keys)[34 * i + 1..34 * i + 34] == Pushes(keys)[..34 * n][34 * i + 1..34 * i + 34];
    } else {
      KeyPushesSize(keys[..n]);
    }
  }

  // A redeem script is OP_m, each key after its length, OP_n and OP_CHECKMULTISIG.
  lemma RedeemBytes(keys: seq<Octets>, m: nat, i: nat)
    requires m <= |keys| <= 16 && AreKeys(keys) && i < |keys|
    ensures CreateMulti(keys, m).Some?
    ensures var r, n := CreateMulti(keys, m).value, |keys|;
            && |r| == 3 + 34 * n && r[0] as nat == 0x50 + m
            && r[1 + 34 * i] == 33 && r[2 + 34 * i..35 + 34 * i] == keys[i]
            && r[1 + 34 * n] as nat == 0x50 + n && r[2 + 34 * n] == 0xae
  {
    KeyPushes(keys, i);
    var r := Redeem(keys, m);
    assert r[1..1 + 34 * |keys|] == Pushes(keys);
    assert r[2 + 34 * i..35 + 34 * i] == r[1..1 + 34 * |keys|][34 * i + 1..34 * i + 34];
    assert r[1 + 34 * i] == r[1..1 + 34 * |keys|][34 * i];
  }

  // The script that spends a channel's output with two signatures.
  lemma TwoSignatures(a: Octets, b: Octets, redeem: Octets)
    requires |a| < 256 && |b| < 256 && |redeem| < 0x1_0000
    ensures ScriptSig([a, b], redeem) ==
            [0] + ([|a| as Octet] + a + ([|b| as Octet] + b))
            + (if |redeem| < 256 then [0x4c, |redeem| as Octet]
               else [0x4d, (|redeem| % 256) as Octet, (|redeem| / 256) as Octet]) + redeem
  {
    assert [a, b][..1] == [a] && [a][..0] == [];
    assert Pushes([a, b]) == Pushes([a]) + Push(b);
    assert Pushes([a]) == [] + Push(a);
  }

  // ---------- the C functions ----------

  lemma PushesSnoc(xs: seq<Octets>, i: nat)
    requires i < |xs|
    ensures Pushes(xs[..i + 1]) == Pushes(xs[..i]) + Push(xs[i])
  {
    assert xs[..i + 1][..i] == xs[..i];
  }

  lemma {:induction false} PushesPrefix(xs: seq<Octets>, i: nat)
    requires i <= |xs|
    ensures |Pushes(xs[..i])| <= |Pushes(xs)|
    decreases |xs| - i
  {
    if i == |xs| {
      assert xs[..i] == xs;
    } else {
      PushesSnoc(xs, i);
      PushesPrefix(xs, i + 1);
    }
  }

  lemma {:induction false} KeyPushesSize(keys: seq<Octets>)
    requires AreKeys(keys)
    ensures |Pushes(keys)| == Slots(|keys|)
    decreases |keys|
  {
    if keys != [] { KeyPushesSize(keys[..|keys| - 1]); }
  }

  // btc_keys_createmulti
  method BtcKeysCreateMulti(keys: seq<Octets>, m: nat) returns (redeem: Option<array<Octet>>)
    requires AreKeys(keys)
    ensures CreateMulti(keys, m).None? <==> redeem.None?
    ensures redeem.Some? ==> redeem.value[..] == CreateMulti(keys, m).value
  {
    if |keys| > 16 { return None; }
    if m > 16 { return None; }
    if m > |keys| { return None; }
    var buf := new Octet[3 + |keys| * (KEY + 1)];
    KeyPushesSize(keys);
    var p := 0;
    Copy(buf, p, [(OP_X + m) as Octet]);
    p := p + 1;
    p := WritePushes(buf, p, keys);
    Copy(buf, p, [(OP_X + |keys|) as Octet, OP_CHECKMULTISIG]);
    p := p + 2;
    assert buf[..] == buf[..p];
    redeem := Some(buf);
  }

  method WritePushes(buf: array<Octet>, start: nat, xs: seq<Octets>) returns (p: nat)
    requires start + |Pushes(xs)| <= buf.Length
    modifies buf
    ensures p == start + |Pushes(xs)|
    ensures buf[..p] == old(buf[..start]) + Pushes(xs)
  {
    p := start;
    ghost var before := buf[..start];
    var lp := 0;
    while lp < |xs|
      invariant lp <= |xs| && p == start + |Pushes(xs[..lp])| && p <= buf.Length
      invariant buf[..p] == before + Pushes(xs[..lp])
    {
      PushesSnoc(xs, lp);
      PushesPrefix(xs, lp + 1);
      Copy(buf, p, [(|xs[lp]| % 256) as Octet]);
      p := p + 1;
      Copy(buf, p, xs[lp]);
      p := p + |xs[lp]|;
      lp := lp + 1;
    }
    assert xs[..|xs|] == xs;
  }

  // btc_tx_set_vin_p2sh
  method BtcTxSetVinP2sh(sigs: seq<Octets>, redeem: Octets) returns (buf: array<Octet>)
    requires |redeem| < 0x1_0000
    ensures buf[..] == ScriptSig(sigs, redeem)
  {
    var opPush2, len := SizeOfScript(sigs, redeem);
    buf := new Octet[len];
    var p := 0;
    Copy(buf, p, [0]);
    p := p + 1;
    p := WritePushes(buf, p, sigs);
    p := WritePushLength(buf, p, |redeem|, opPush2);
    Copy(buf, p, redeem);
    p := p + |redeem|;
    assert buf[..] == buf[..p];
  }

  method WritePushLength(buf: array<Octet>, start: nat, n: nat, opPush2: bool) returns (p: nat)
    requires start + |PushLength(n)| <= buf.Length && n < 0x1_0000 && opPush2 == (n >= 0x100)
    modifies buf
    ensures p == start + |PushLength(n)| && buf[..p] == old(buf[..start]) + PushLength(n)
  {
    p := start;
    if opPush2 {
      Copy(buf, p, [OP_PUSHDATA2, (n % 256) as Octet, (n / 256) as Octet]);
      p := p + 3;
    } else {
      Copy(buf, p, [OP_PUSHDATA1, n as Octet]);
      p := p + 2;
    }
  }

  method SizeOfScript(sigs: seq<Octets>, redeem: Octets) returns (opPush2: bool, len: nat)
    ensures opPush2 <==> |redeem| >= 0x100
    ensures len == 1 + |Pushes(sigs)| + (if opPush2 then 3 else 2) + |redeem|
  {
    opPush2 := false;
    len := 1 + |sigs| + 1 + 1 + |redeem|;
    if |redeem| >= 0x100 {
      opPush2 := true;
      len := len + 1;
    }
    var lp := 0;
    while lp < |sigs|
      invariant lp <= |sigs|
      invariant len + lp == 1 + |sigs| + (if opPush2 then 3 else 2) + |redeem| + |Pushes(sigs[..lp])|
    {
      PushesSnoc(sigs, lp);
      len := len + |sigs[lp]|;
      lp := lp + 1;
    }
    assert sigs[..|sigs|] == sigs;
  }

  // ---------- reading the scripts back ----------

  lemma {:induction false} PushAt(s: Memory, at: nat, xs: seq<Octets>, i: nat)
    requires HoldsAt(s, at, Pushes(xs)) && i < |xs| && |xs[i]| < 256
    ensures s(at + |Pushes(xs[..i])|) as nat == |xs[i]|
    ensures Read(s, at + |Pushes(xs[..i])| + 1, |xs[i]|) == xs[i]
    decreases |xs|
  {
    var n := |xs| - 1;
    HoldsParts(s, at, Pushes(xs[..n]), Push(xs[n]));
    if i < n {
      assert xs[..n][..i] == xs[..i];
      PushAt(s, at, xs[..n], i);
    } else {
      var start := at + |Pushes(xs[..n])|;
      HoldsParts(s, start, [|xs[n]| as Octet], xs[n]);
      HoldsByte(s, start, [|xs[n]| as Octet], 0);
    }
  }

  lemma {:induction false} SigPosIs(s: Memory, sigs: seq<Octets>, i: nat)
    requires HoldsAt(s, 1, Pushes(sigs)) && AreShort(sigs) && i <= |sigs|
    ensures SigPos(s, i) == 1 + |Pushes(sigs[..i])|
  {
    if i > 0 {
      SigPosIs(s, sigs, i - 1);
      PushAt(s, 1, sigs, i - 1);
      PushesSnoc(sigs, i - 1);
    }
  }

  lemma SigIs(s: Memory, sigs: seq<Octets>, i: nat)
    requires HoldsAt(s, 1, Pushes(sigs)) && AreShort(sigs) && i < |sigs|
    ensures s(SigPos(s, i)) as nat == |sigs[i]| < 0x4c && SigAt(s, i) == sigs[i]
    ensures SigPos(s, i) <= |Pushes(sigs)|
  {
    SigPosIs(s, sigs, i);
    PushAt(s, 1, sigs, i);
    PushesSnoc(sigs, i);
    PushesPrefix(sigs, i + 1);
  }

  // Scanning i signatures from the start.
  lemma {:induction false} ScanPushes(s: Memory, len: nat, sigs: seq<Octets>, i: nat)
    requires HoldsAt(s, 1, Pushes(sigs)) && AreShort(sigs) && i <= |sigs|
    requires 1 + |Pushes(sigs)| < len
    ensures ScanSigs(s, len, 1, 0) == ScanSigs(s, len, SigPos(s, i), i)
  {
    if i > 0 {
      ScanPushes(s, len, sigs, i - 1);
      SigIs(s, sigs, i - 1);
    }
  }

  lemma SignaturesAre(s: Memory, sigs: seq<Octets>)
    requires forall j | 0 <= j < |sigs| :: SigAt(s, j) == sigs[j]
    ensures Signatures(s, |sigs|) == sigs
  {
  }

  lemma ScannedSigs(s: Memory, len: nat, sigs: seq<Octets>)
    requires HoldsAt(s, 1, Pushes(sigs)) && AreShort(sigs)
    requires 1 + |Pushes(sigs)| < len && IsPush(s(1 + |Pushes(sigs)|))
    ensures ScanSigs(s, len, 1, 0) == (1 + |Pushes(sigs)|, |sigs|)
    ensures Signatures(s, |sigs|) == sigs
  {
    ScanPushes(s, len, sigs, |sigs|);
    SigPosIs(s, sigs, |sigs|);
    assert sigs[..|sigs|] == sigs;
    forall j | 0 <= j < |sigs| ensures SigAt(s, j) == sigs[j] { SigIs(s, sigs, j); }
    SignaturesAre(s, sigs);
  }

  predicate KeySlots(s: Memory, at: nat, n: nat) {
    n > 0 ==> KeySlots(s, at, n - 1) && s(at + Slots(n - 1)) as nat == KEY
  }

  lemma {:induction false} ScanSlots(s: Memory, len: nat, at: nat, n: nat)
    requires KeySlots(s, at, n) && at + Slots(n) <= len
    ensures ScanKeys(s, len, at, 0) == ScanKeys(s, len, at + Slots(n), n)
  {
    if n > 0 { ScanSlots(s, len, at, n - 1); }
  }

  lemma ScannedKeys(s: Memory, len: nat, at: nat, n: nat)
    requires KeySlots(s, at, n) && n <= 16
    requires at + Slots(n) < len && s(at + Slots(n)) as nat == OP_X + n
    ensures ScanKeys(s, len, at, 0) == if n == 0 then None else Some((at + Slots(n), n))
  {
    ScanSlots(s, len, at, n);
  }

  lemma PrefixSize(keys: seq<Octets>, j: nat)
    requires AreKeys(keys) && j <= |keys|
    ensures |Pushes(keys[..j])| == Slots(j)
  {
    KeyPushesSize(keys[..j]);
  }

  lemma KeyPushAt(s: Memory, at: nat, keys: seq<Octets>, j: nat, pos: nat)
    requires HoldsAt(s, at, Pushes(keys)) && j < |keys| && |keys[j]| == KEY && pos == at + |Pushes(keys[..j])|
    ensures s(pos) as nat == KEY && Read(s, pos + 1, KEY) == keys[j]
  {
    PushAt(s, at, keys, j);
  }

  lemma {:induction false} SlotsOfPushes(s: Memory, at: nat, keys: seq<Octets>, n: nat)
    requires HoldsAt(s, at, Pushes(keys)) && AreKeys(keys) && n <= |keys|
    ensures KeySlots(s, at, n)
  {
    if n > 0 {
      SlotsOfPushes(s, at, keys, n - 1);
      PrefixSize(keys, n - 1);
      KeyPushAt(s, at, keys, n - 1, at + Slots(n - 1));
    }
  }

  lemma KeyIs(s: Memory, at: nat, keys: seq<Octets>, j: nat)
    requires HoldsAt(s, at, Pushes(keys)) && AreKeys(keys) && j < |keys|
    ensures KeyAt(s, at, j) == keys[j]
  {
    PrefixSize(keys, j);
    var pos := at + Slots(j);
    KeyPushAt(s, at, keys, j, pos);
    KeyFound(s, at, j, pos, keys[j]);
  }

  lemma KeyFound(s: Memory, at: nat, j: nat, pos: nat, key: Octets)
    requires pos == at + Slots(j) && Read(s, pos + 1, KEY) == key
    ensures KeyAt(s, at, j) == key
  {
  }

  lemma KeysAre(s: Memory, at: nat, keys: seq<Octets>)
    requires forall j | 0 <= j < |keys| :: KeyAt(s, at, j) == keys[j]
    ensures Keys(s, at, |keys|) == keys
  {
  }

  lemma SameKeys(s: Memory, at: nat, keys: seq<Octets>)
    requires HoldsAt(s, at, Pushes(keys)) && AreKeys(keys)
    ensures Keys(s, at, |keys|) == keys
  {
    forall j | 0 <= j < |keys| ensures KeyAt(s, at, j) == keys[j] { KeyIs(s, at, keys, j); }
    KeysAre(s, at, keys);
  }

  // Where the parts of a redeem script at r are.
  lemma RedeemParts(s: Memory, r: nat, keys: seq<Octets>, m: nat)
    requires |keys| <= 16 && m <= 16 && AreKeys(keys) && HoldsAt(s, r, Redeem(keys, m))
    ensures |Redeem(keys, m)| == 3 + Slots(|keys|)
    ensures s(r) as nat == OP_X + m && HoldsAt(s, r + 1, Pushes(keys))
    ensures s(r + 1 + Slots(|keys|)) as nat == OP_X + |keys| && s(r + 2 + Slots(|keys|)) == OP_CHECKMULTISIG
    ensures Read(s, r, |Redeem(keys, m)|) == Redeem(keys, m)
  {
    var tail := [(OP_X + |keys|) as Octet, OP_CHECKMULTISIG];
    KeyPushesSize(keys);
    HoldsParts(s, r, [(OP_X + m) as Octet] + Pushes(keys), tail);
    HoldsParts(s, r, [(OP_X + m) as Octet], Pushes(keys));
    HoldsByte(s, r, [(OP_X + m) as Octet], 0);
    var t := r + 1 + Slots(|keys|);
    HoldsByte(s, t, tail, 0);
    HoldsByte(s, t, tail, 1);
  }

  lemma ScriptParts(s: Memory, sigs: seq<Octets>, redeem: Octets)
    requires HoldsAt(s, 0, ScriptSig(sigs, redeem)) && |redeem| < 0x1_0000
    ensures var e := 1 + |Pushes(sigs)|;
            && s(0) == 0 && HoldsAt(s, 1, Pushes(sigs)) && HoldsAt(s, e, PushLength(|redeem|))
            && HoldsAt(s, e + |PushLength(|redeem|)|, redeem)
  {
    var l := PushLength(|redeem|);
    HoldsParts(s, 0, [0] + Pushes(sigs) + l, redeem);
    HoldsParts(s, 0, [0] + Pushes(sigs), l);
    HoldsParts(s, 0, [0], Pushes(sigs));
    HoldsByte(s, 0, [0], 0);
  }

  lemma ParseFrom(s: Memory, len: nat, e: nat, sigs: nat, m: nat, keys: nat)
    requires s(0) == 0 && ScanSigs(s, len, 1, 0) == (e, sigs) && s(e + 1) < 0xfd && s(e + 2) as nat == OP_X + m
    requires len == e + 5 + Slots(keys)
    requires ScanKeys(s, len, e + 3, 0) == if keys == 0 then None else Some((e + 3 + Slots(keys), keys))
    requires s(e + 3 + Slots(keys)) as nat == OP_X + keys && s(e + 4 + Slots(keys)) == OP_CHECKMULTISIG
    ensures Parse(s, len) == if sigs == m && keys != 0 then Some(Parsed(m, keys, e + 3)) else None
  {
  }

  // Up to seven keys the redeem script is found where it is.
  lemma ParseSmall(s: Memory, sigs: seq<Octets>, keys: seq<Octets>, m: nat, redeem: Octets)
    requires |keys| <= 7 && m <= 16 && AreKeys(keys) && AreShort(sigs) && redeem == Redeem(keys, m)
    requires HoldsAt(s, 0, ScriptSig(sigs, redeem))
    ensures var len, r := |ScriptSig(sigs, redeem)|, 1 + |Pushes(sigs)| + |PushLength(|redeem|)|;
            && Parse(s, len) == (if |sigs| == m && keys != [] then Some(Parsed(m, |keys|, r + 1)) else None)
            && len == r + |redeem| && Read(s, r, |redeem|) == redeem
            && Signatures(s, |sigs|) == sigs && Keys(s, r + 1, |keys|) == keys
  {
    var e := 1 + |Pushes(sigs)|;
    RedeemSize(keys, m);
    Slotted(|keys|);
    ScriptSize(sigs, redeem);
    ScriptParts(s, sigs, redeem);
    SmallLength(s, e, |redeem|);
    SmallParts(s, e, e + |PushLength(|redeem|)|, sigs, keys, m, redeem);
  }

  lemma SmallParts(s: Memory, e: nat, r: nat, sigs: seq<Octets>, keys: seq<Octets>, m: nat, redeem: Octets)
    requires |keys| <= 7 && m <= 16 && AreKeys(keys) && AreShort(sigs) && redeem == Redeem(keys, m)
    requires e == 1 + |Pushes(sigs)| && r == e + 2 && s(0) == 0 && s(e) == OP_PUSHDATA1 && s(e + 1) < 0xfd
    requires HoldsAt(s, 1, Pushes(sigs)) && HoldsAt(s, r, redeem)
    ensures Parse(s, r + |redeem|) == if |sigs| == m && keys != [] then Some(Parsed(m, |keys|, r + 1)) else None
    ensures Signatures(s, |sigs|) == sigs && Keys(s, r + 1, |keys|) == keys
  {
    RedeemSize(keys, m);
    var n := |keys|;
    var len := r + 3 + Slots(n);
    ScannedSigs(s, len, sigs);
    RedeemParts(s, r, keys, m);
    RedeemKeys(s, len, r + 1, keys);
    ParseFrom(s, len, e, |sigs|, m, n);
  }

  lemma Slotted(n: nat)
    requires n <= 7
    ensures 3 + Slots(n) < 0xfd
  {
  }

  lemma RedeemSize(keys: seq<Octets>, m: nat)
    requires |keys| <= 16 && m <= 16 && AreKeys(keys)
    ensures |Redeem(keys, m)| == 3 + Slots(|keys|)
  {
    KeyPushesSize(keys);
  }

  lemma ScriptSize(sigs: seq<Octets>, redeem: Octets)
    ensures |ScriptSig(sigs, redeem)| == 1 + |Pushes(sigs)| + |PushLength(|redeem|)| + |redeem|
  {
  }

  lemma RedeemKeys(s: Memory, len: nat, at: nat, keys: seq<Octets>)
    requires AreKeys(keys) && |keys| <= 16 && HoldsAt(s, at, Pushes(keys))
    requires at + Slots(|keys|) < len && s(at + Slots(|keys|)) as nat == OP_X + |keys|
    ensures Keys(s, at, |keys|) == keys
    ensures ScanKeys(s, len, at, 0) == if |keys| == 0 then None else Some((at + Slots(|keys|), |keys|))
  {
    SameKeys(s, at, keys);
    SlotsOfPushes(s, at, keys, |keys|);
    ScannedKeys(s, len, at, |keys|);
  }

  lemma SmallLength(s: Memory, e: nat, n: nat)
    requires n < 0xfd && HoldsAt(s, e, PushLength(n))
    ensures |PushLength(n)| == 2 && s(e) == OP_PUSHDATA1 && s(e + 1) < 0xfd
  {
    HoldsByte(s, e, PushLength(n), 0);
    HoldsByte(s, e, PushLength(n), 1);
  }

  // With more keys the length takes two bytes, but only one is skipped: the next is taken for the
  // number of signatures, and no script has a negative number of them.
  lemma ParseLarge(s: Memory, sigs: seq<Octets>, keys: seq<Octets>, m: nat)
    requires 8 <= |keys| <= 16 && m <= 16 && AreKeys(keys) && AreShort(sigs)
    requires HoldsAt(s, 0, ScriptSig(sigs, Redeem(keys, m)))
    ensures Parse(s, |ScriptSig(sigs, Redeem(keys, m))|).None?
  {
    var redeem := Redeem(keys, m);
    KeyPushesSize(keys);
    ScriptParts(s, sigs, redeem);
    var e, l := 1 + |Pushes(sigs)|, PushLength(|redeem|);
    HoldsByte(s, e, l, 0);
    HoldsByte(s, e, l, 1);
    HoldsByte(s, e, l, 2);
    assert |redeem| % 256 < 0xfd && |redeem| / 256 % 256 <= 2;
    ScannedSigs(s, |ScriptSig(sigs, redeem)|, sigs);
  }

  // The check decides what it is for on exactly the scripts of at most seven keys: a script built
  // from short signatures and a redeem script is accepted if and only if there are one to seven
  // distinct keys, as many signatures as it asks for, the hash is that of the redeem script and
  // the signatures verify under keys in the same order.
  lemma BuiltAccepted(c: Checks, s: Memory, sigs: seq<Octets>, keys: seq<Octets>, m: nat, scriptHash: Octets)
    requires AreKeys(keys) && AreShort(sigs) && CreateMulti(keys, m).Some?
    requires HoldsAt(s, 0, ScriptSig(sigs, CreateMulti(keys, m).value))
    ensures var redeem := CreateMulti(keys, m).value;
            Accepts(c, s, |ScriptSig(sigs, redeem)|, scriptHash) <==>
              && 1 <= |keys| <= 7 && |sigs| == m && c.hash160(redeem) == scriptHash
              && Distinct(keys) && Assignable(c, sigs, keys, 0, 0)
  {
    if |keys| <= 7 {
      ParseSmall(s, sigs, keys, m, CreateMulti(keys, m).value);
    } else {
      ParseLarge(s, sigs, keys, m);
    }
  }
}
