// btc_tx_verify_multisig of btc/btc_tx.c: it parses a P2SH script and matches its signatures to
// its keys in one pass, with a budget of failures.
module Multisig {
  import opened Basics

  const OP_PUSHDATA1: Octet := 0x4c
  const OP_PUSHDATA2: Octet := 0x4d
  const OP_X: nat := 0x50
  const OP_CHECKMULTISIG: Octet := 0xae
  const KEY: nat := 33
  const SLOT: nat := 34

  // The size of n keys, each with its length byte.
  function Slots(n: nat): nat { 34 * n }

  // The primitives: HASH160, and the check of one signature against one key.
  datatype Checks = Checks(hash160: Octets -> Octets, verify: (Octets, Octets) -> bool)

  // What a script says: the numbers of signatures and keys and where the first key's length is.
  datatype Parsed = Parsed(sigs: nat, keys: nat, keyPos: nat)

  // ---------- parsing ----------

  predicate IsPush(b: Octet) { b == OP_PUSHDATA1 || b == OP_PUSHDATA2 }

  function ScanSigs(s: Memory, len: nat, pos: nat, n: nat): (nat, nat)
    decreases len - pos
  {
    if pos >= len || IsPush(s(pos)) then (pos, n) else ScanSigs(s, len, pos + 1 + s(pos) as nat, n + 1)
  }

  // None for an element that is neither a key nor the number of keys.
  function ScanKeys(s: Memory, len: nat, pos: nat, n: nat): Option<(nat, nat)>
    decreases len - pos
  {
    if pos >= len || 0x51 <= s(pos) <= 0x60 then Some((pos, n))
    else if s(pos) as nat != KEY then None
    else ScanKeys(s, len, pos + SLOT, n + 1)
  }

  // The number of bytes get_varint takes.
  function VarintSize(b: Octet): nat { if b < 0xfd then 1 else 3 }

  // The length after OP_PUSHDATAx is skipped as a varint and not looked at.
  function Parse(s: Memory, len: nat): Option<Parsed> {
    if s(0) != 0 then None
    else
      var (pos, sigs) := ScanSigs(s, len, 1, 0);
      if pos >= len then None
      else
        var m := pos + 1 + VarintSize(s(pos + 1));
        if sigs != s(m) as int - OP_X then None
        else
          var scan := ScanKeys(s, len, m + 1, 0);
          if scan.None? then None
          else if !ScriptEnds(s, len, scan.value.0, scan.value.1) then None
          else Some(Parsed(sigs, scan.value.1, m + 1))
  }

  predicate ScriptEnds(s: Memory, len: nat, pos: nat, keys: nat) {
    pos < len && keys == s(pos) as int - OP_X && s(pos + 1) == OP_CHECKMULTISIG && pos + 2 == len
  }

  // Where the length byte of signature i is.
  function SigPos(s: Memory, i: nat): nat {
    if i == 0 then 1 else SigPos(s, i - 1) + 1 + s(SigPos(s, i - 1)) as nat
  }

  function SigAt(s: Memory, i: nat): Octets { Read(s, SigPos(s, i) + 1, s(SigPos(s, i)) as nat) }

  function Signatures(s: Memory, n: nat): (r: seq<Octets>)
    ensures |r| == n
  {
    seq(n, i requires 0 <= i < n => SigAt(s, i))
  }

  function KeyAt(s: Memory, pos: nat, i: nat): Octets { Read(s, pos + Slots(i) + 1, KEY) }

  function Keys(s: Memory, pos: nat, n: nat): (r: seq<Octets>)
    ensures |r| == n
  {
    seq(n, i requires 0 <= i < n => KeyAt(s, pos, i))
  }

  // ---------- what a multisig script asks for ----------

  // f gives each signature from the i-th on a key it verifies under, each after the last and none
  // before from.
  ghost predicate Assigns(c: Checks, sigs: seq<Octets>, keys: seq<Octets>, i: nat, from: nat, f: seq<nat>) {
    && i <= |sigs| && |f| == |sigs| - i
    && (forall k | 0 <= k < |f| :: from <= f[k] < |keys| && c.verify(sigs[i + k], keys[f[k]]))
    && (forall k, l | 0 <= k < l < |f| :: f[k] < f[l])
  }

  ghost predicate Assignable(c: Checks, sigs: seq<Octets>, keys: seq<Octets>, i: nat, from: nat) {
    exists f :: Assigns(c, sigs, keys, i, from, f)
  }

  // The script is well formed, hashes to the given value, names no key twice, and has a strictly
  // increasing assignment of keys to signatures under which each one verifies.
  ghost predicate Accepts(c: Checks, s: Memory, len: nat, scriptHash: Octets) {
    var p := Parse(s, len);
    && p.Some?
    && c.hash160(Read(s, p.value.keyPos - 1, len - (p.value.keyPos - 1))) == scriptHash
    && Distinct(Keys(s, p.value.keyPos, p.value.keys))
    && Assignable(c, Signatures(s, p.value.sigs), Keys(s, p.value.keyPos, p.value.keys), 0, 0)
  }

  // ---------- why one pass is enough ----------

  lemma {:induction false} IncreasingBound(f: seq<nat>, k: nat, from: nat)
    requires k < |f| && f[0] >= from && forall a, b | 0 <= a < b < |f| :: f[a] < f[b]
    ensures f[k] >= from + k
  {
    if k > 0 { IncreasingBound(f, k - 1, from); }
  }

  // Too few keys left.
  lemma NoRoom(c: Checks, sigs: seq<Octets>, keys: seq<Octets>, i: nat, from: nat)
    requires i <= |sigs| && from + (|sigs| - i) > |keys| && i < |sigs|
    ensures !Assignable(c, sigs, keys, i, from)
  {
    if f :| Assigns(c, sigs, keys, i, from, f) {
      IncreasingBound(f, |f| - 1, from);
    }
  }

  // A key that does not verify can be passed over.
  lemma PassOver(c: Checks, sigs: seq<Octets>, keys: seq<Octets>, i: nat, from: nat)
    requires i < |sigs| && from < |keys| && !c.verify(sigs[i], keys[from])
    ensures Assignable(c, sigs, keys, i, from) <==> Assignable(c, sigs, keys, i, from + 1)
  {
    if f :| Assigns(c, sigs, keys, i, from, f) {
      assert f[0] != from by { assert sigs[i + 0] == sigs[i]; }
      forall k | 0 <= k < |f| ensures f[k] >= from + 1 { if k > 0 { assert f[0] < f[k]; } }
      assert Assigns(c, sigs, keys, i, from + 1, f);
    }
    var next := from + 1;
    if f :| Assigns(c, sigs, keys, i, next, f) {
      assert Assigns(c, sigs, keys, i, from, f);
    }
  }

  // The first key that verifies can be taken: any other choice leaves fewer keys.
  lemma TakeFirst(c: Checks, sigs: seq<Octets>, keys: seq<Octets>, i: nat, from: nat)
    requires i < |sigs| && from < |keys| && c.verify(sigs[i], keys[from])
    ensures Assignable(c, sigs, keys, i, from) <==> Assignable(c, sigs, keys, i + 1, from + 1)
  {
    if f :| Assigns(c, sigs, keys, i, from, f) {
      var g := f[1..];
      forall k | 0 <= k < |g|
        ensures from + 1 <= g[k] < |keys| && c.verify(sigs[i + 1 + k], keys[g[k]])
      {
        assert g[k] == f[k + 1] && f[0] < f[k + 1] && sigs[i + 1 + k] == sigs[i + (k + 1)];
      }
      assert Assigns(c, sigs, keys, i + 1, from + 1, g);
    }
    var j, next := i + 1, from + 1;
    if g :| Assigns(c, sigs, keys, j, next, g) {
      var f := [from] + g;
      forall k | 0 <= k < |f| ensures from <= f[k] < |keys| && c.verify(sigs[i + k], keys[f[k]]) {
        if k > 0 { assert f[k] == g[k - 1] && sigs[i + 1 + (k - 1)] == sigs[i + k]; }
      }
      assert Assigns(c, sigs, keys, i, from, f);
    }
  }

  lemma AllTaken(c: Checks, sigs: seq<Octets>, keys: seq<Octets>, from: nat)
    ensures Assignable(c, sigs, keys, |sigs|, from)
  {
    assert Assigns(c, sigs, keys, |sigs|, from, []);
  }

  // ---------- the C function ----------

  lemma {:induction false} SigPosGrows(s: Memory, i: nat)
    ensures SigPos(s, i) >= i + 1
  {
    if i > 0 { SigPosGrows(s, i - 1); }
  }

  method CountSigs(s: Memory, len: nat) returns (pos: nat, n: nat)
    ensures (pos, n) == ScanSigs(s, len, 1, 0)
  {
    pos, n := 1, 0;
    while pos < len && !IsPush(s(pos))
      invariant ScanSigs(s, len, pos, n) == ScanSigs(s, len, 1, 0)
      decreases len - pos
    {
      pos, n := pos + 1 + s(pos) as nat, n + 1;
    }
  }

  method CountKeys(s: Memory, len: nat, start: nat) returns (ok: bool, pos: nat, n: nat)
    ensures ok <==> ScanKeys(s, len, start, 0).Some?
    ensures ok ==> ScanKeys(s, len, start, 0) == Some((pos, n))
    ensures ok ==> pos == start + Slots(n) && forall i | 0 <= i < n :: s(start + Slots(i)) as nat == KEY
  {
    pos, n := start, 0;
    while pos < len && !(0x51 <= s(pos) <= 0x60)
      invariant ScanKeys(s, len, pos, n) == ScanKeys(s, len, start, 0)
      invariant pos == start + Slots(n) && forall i | 0 <= i < n :: s(start + Slots(i)) as nat == KEY
      decreases len - pos
    {
      if s(pos) as nat != KEY { return false, pos, n; }
      pos, n := pos + 1 + s(pos) as nat, n + 1;
    }
    ok := true;
  }

  // The two nested loops that look for a repeated key, length byte included.
  method KeysDistinct(s: Memory, keyPos: nat, n: nat) returns (ok: bool)
    requires forall i | 0 <= i < n :: s(keyPos + Slots(i)) as nat == KEY
    ensures ok <==> Distinct(Keys(s, keyPos, n))
  {
    ghost var keys := Keys(s, keyPos, n);
    var lp := 0;
    while lp < n as int - 1
      invariant 0 <= lp && (n > 0 ==> lp <= n - 1)
      invariant forall i, j | 0 <= i < lp && i < j < n :: keys[i] != keys[j]
    {
      var lp2 := lp + 1;
      while lp2 < n
        invariant lp < lp2 <= n
        invariant forall j | lp < j < lp2 :: keys[lp] != keys[j]
      {
        SlotsEqual(s, keyPos, n, lp, lp2);
        if Read(s, keyPos + Slots(lp), SLOT) == Read(s, keyPos + Slots(lp2), SLOT) {
          return false;
        }
        lp2 := lp2 + 1;
      }
      lp := lp + 1;
    }
    ok := true;
  }

  lemma SlotsEqual(s: Memory, keyPos: nat, n: nat, i: nat, j: nat)
    requires forall k | 0 <= k < n :: s(keyPos + Slots(k)) as nat == KEY
    requires i < n && j < n
    ensures Read(s, keyPos + Slots(i), SLOT) == Read(s, keyPos + Slots(j), SLOT) <==>
            Keys(s, keyPos, n)[i] == Keys(s, keyPos, n)[j]
  {
    var a, b := Read(s, keyPos + Slots(i), SLOT), Read(s, keyPos + Slots(j), SLOT);
    assert a[0] == b[0];
    assert a[1..] == KeyAt(s, keyPos, i) && b[1..] == KeyAt(s, keyPos, j);
    assert a == [a[0]] + a[1..] && b == [b[0]] + b[1..];
  }

  function UpTo(n: nat): (r: set<nat>)
    ensures forall k: nat :: k in r <==> k < n
  {
    if n == 0 then {} else UpTo(n - 1) + {n - 1}
  }

  // One signature against the keys that are not checked yet; chk holds the bits of chk_pos. The
  // budget of failures runs out exactly when too few keys are left.
  method MatchSignature(c: Checks, s: Memory, keyPos: nat, keyNum: nat, sig: Octets, chk: set<nat>, budget: int,
                        ghost from: nat, ghost sigs: seq<Octets>, ghost lp: nat)
    returns (found: bool, out: bool, chk': set<nat>, ng: int, ghost next: nat)
    requires forall i | 0 <= i < keyNum :: s(keyPos + Slots(i)) as nat == KEY
    requires chk == UpTo(from) && from <= keyNum && lp < |sigs| && sigs[lp] == sig
    requires from < keyNum ==> budget == keyNum - |sigs| - (from - lp)
    ensures from <= next <= keyNum && chk' == UpTo(next)
    ensures found ==> from < next && !out && ng == keyNum - |sigs| - (next - (lp + 1))
    ensures found ==> (Assignable(c, sigs, Keys(s, keyPos, keyNum), lp, from) <==>
                       Assignable(c, sigs, Keys(s, keyPos, keyNum), lp + 1, next))
    ensures !found ==> next == from && !Assignable(c, sigs, Keys(s, keyPos, keyNum), lp, from)
    ensures !found && !out ==> from == keyNum
  {
    ghost var keys := Keys(s, keyPos, keyNum);
    ghost var at := from;
    found, out, chk', ng, next := false, false, chk, budget, from;
    var now := keyPos;
    var lp2 := 0;
    while lp2 < keyNum
      invariant 0 <= lp2 <= keyNum && now == keyPos + Slots(lp2)
      invariant at == if lp2 < from then from else lp2
      invariant from < keyNum ==> ng == keyNum - |sigs| - (at - lp)
      invariant at > from ==> ng >= 0
      invariant Assignable(c, sigs, keys, lp, from) <==> Assignable(c, sigs, keys, lp, at)
    {
      if lp2 !in chk {
        assert keys[lp2] == Read(s, now + 1, KEY);
        if s(now) as nat == KEY && c.verify(sig, Read(s, now + 1, KEY)) {
          TakeFirst(c, sigs, keys, lp, lp2);
          next := lp2 + 1;
          chk' := chk + UpTo(lp2 + 1);
          return true, false, chk', ng, next;
        }
        PassOver(c, sigs, keys, lp, lp2);
        at := lp2 + 1;
        ng := ng - 1;
        if ng < 0 {
          NoRoom(c, sigs, keys, lp, at);
          return false, true, chk', ng, next;
        }
      }
      now := now + s(now) as nat + 1;
      lp2 := lp2 + 1;
    }
    NoRoom(c, sigs, keys, lp, at);
  }

  method MatchAll(c: Checks, s: Memory, sigNum: nat, keyPos: nat, keyNum: nat) returns (ok: bool)
    requires forall i | 0 <= i < keyNum :: s(keyPos + Slots(i)) as nat == KEY
    ensures ok <==> Assignable(c, Signatures(s, sigNum), Keys(s, keyPos, keyNum), 0, 0)
  {
    ghost var sigs, keys := Signatures(s, sigNum), Keys(s, keyPos, keyNum);
    var chkPos: set<nat> := {};
    var okCnt := 0;
    var ngCnt := keyNum - sigNum;
    var sigPos := 1;
    ghost var from := 0;
    ghost var live := true;
    var lp := 0;
    while lp < sigNum
      invariant from <= keyNum && chkPos == UpTo(from)
      invariant lp <= sigNum ==> sigPos == SigPos(s, lp)
      invariant lp <= sigNum || !live
      invariant live ==> okCnt == lp && ngCnt == keyNum - sigNum - (from - lp)
      invariant live ==> (Assignable(c, sigs, keys, 0, 0) <==> Assignable(c, sigs, keys, lp, from))
      invariant !live ==> okCnt < sigNum && !Assignable(c, sigs, keys, 0, 0)
      invariant !live ==> from == keyNum || lp > sigNum
    {
      assert sigs[lp] == SigAt(s, lp);
      var sig := Read(s, sigPos + 1, s(sigPos) as nat);
      var found, out;
      ghost var next;
      found, out, chkPos, ngCnt, next := MatchSignature(c, s, keyPos, keyNum, sig, chkPos, ngCnt, from, sigs, lp);
      live := live && found;
      from := next;
      sigPos := sigPos + s(sigPos) as nat + 1;
      if found { okCnt := okCnt + 1; }
      if out {
        okCnt := -1;
        lp := sigNum;
      }
      lp := lp + 1;
    }
    AllTaken(c, sigs, keys, from);
    ok := okCnt == sigNum;
  }

  method BtcTxVerifyMultisig(c: Checks, s: Memory, len: nat, scriptHash: Octets) returns (ok: bool)
    ensures ok <==> Accepts(c, s, len, scriptHash)
  {
    if s(0) != 0 { return false; }
    var pos, sigNum := CountSigs(s, len);
    if pos >= len { return false; }
    pos := pos + 1;
    pos := pos + VarintSize(s(pos));
    if sigNum != s(pos) as int - OP_X { return false; }
    pos := pos + 1;
    var keyPos := pos;
    var good, keyEnd, keyNum := CountKeys(s, len, keyPos);
    if !good { return false; }
    pos := keyEnd;
    if pos >= len { return false; }
    if keyNum != s(pos) as int - OP_X { return false; }
    pos := pos + 1;
    if s(pos) != OP_CHECKMULTISIG { return false; }
    pos := pos + 1;
    if pos != len { return false; }
    assert Parse(s, len) == Some(Parsed(sigNum, keyNum, keyPos));
    if c.hash160(Read(s, keyPos - 1, len - keyPos + 1)) != scriptHash { return false; }
    good := KeysDistinct(s, keyPos, keyNum);
    if !good { return false; }
    ok := MatchAll(c, s, sigNum, keyPos, keyNum);
  }
}
