// ln_misc_sigtrim and ln_misc_sigexpand of ln/ln_misc.c, which turn a DER signature into the 64
// bytes r || s and back, and is_valid_signature_encoding of btc/btc_tx.c (BIP 66).
module DerSignature {
  import opened Basics
  import opened BigEndian
  import opened Powers

  // ---------- integers ----------

  function Zeros(n: nat): (r: Octets)
    ensures |r| == n
  {
    seq(n, _ => 0)
  }

  // Without leading zeros, but never empty.
  function Strip(x: Octets): (r: Octets)
    ensures |r| <= |x| && (x != [] ==> r != []) && (|r| > 1 ==> r[0] != 0)
  {
    if |x| > 1 && x[0] == 0 then Strip(x[1..]) else x
  }

  // The shortest encoding of a number that is not negative.
  function DerInt(x: Octets): Octets
    requires x != []
  {
    var t := Strip(x);
    if t[0] >= 0x80 then [0] + t else t
  }

  // The loop of ln_misc_sigtrim: its bound shrinks while it strips.
  function StripFrom(x: Octets, lp: nat): (r: Octets)
    ensures |r| <= |x|
    decreases |x|
  {
    if lp < |x| - 1 && x[0] == 0 then StripFrom(x[1..], lp + 1) else x
  }

  function Pad(x: Octets): (r: Option<Octets>)
    ensures r.Some? ==> |r.value| == 32
  {
    if |x| > 32 then None else Some(Zeros(32 - |x|) + x)
  }

  function TrimInt(x: Octets): (r: Option<Octets>)
    ensures r.Some? ==> |r.value| == 32
  {
    Pad(StripFrom(x, 0))
  }

  // ---------- signatures ----------

  function Encoding(r: Octets, s: Octets, hashType: Octet): Octets
    requires |r| + |s| < 252
  {
    [0x30, (4 + |r| + |s|) as Octet, 2, |r| as Octet] + r + [2, |s| as Octet] + s + [hashType]
  }

  // ln_misc_sigexpand
  function Expand(rs: Octets): Octets
    requires |rs| == 64
  {
    DerIntSize(rs[..32]);
    DerIntSize(rs[32..]);
    Encoding(DerInt(rs[..32]), DerInt(rs[32..]), 1)
  }

  lemma DerIntSize(x: Octets)
    requires |x| == 32
    ensures 1 <= |DerInt(x)| <= 33
  {
  }

  // ln_misc_sigtrim, on memory: the lengths are checked against each other and nothing else is.
  function Trim(m: Memory): Option<Octets> {
    var lenR := m(3) as nat;
    var lenS := m(5 + lenR) as nat;
    if (m(1) as int - 4) % 256 != lenR + lenS then None
    else
      var r, s := TrimInt(Read(m, 4, lenR)), TrimInt(Read(m, 6 + lenR, lenS));
      if r.None? || s.None? then None else Some(r.value + s.value)
  }

  predicate MinimalPositive(x: Octets) {
    x != [] && x[0] < 0x80 && (|x| > 1 && x[0] == 0 ==> x[1] >= 0x80)
  }

  // is_valid_signature_encoding, check by check.
  predicate IsValidSignatureEncoding(sig: Octets) {
    var size := |sig|;
    if size < 9 then false
    else if size > 73 then false
    else if sig[0] != 0x30 then false
    else if sig[1] as nat != size - 3 then false
    else
      var lenR := sig[3] as nat;
      if 5 + lenR >= size then false
      else
        var lenS := sig[5 + lenR] as nat;
        if lenR + lenS + 7 != size then false
        else if sig[2] != 2 then false
        else if lenR == 0 then false
        else if sig[4] >= 0x80 then false
        else if lenR > 1 && sig[4] == 0 && !(sig[5] >= 0x80) then false
        else if sig[lenR + 4] != 2 then false
        else if lenS == 0 then false
        else if sig[lenR + 6] >= 0x80 then false
        else if lenS > 1 && sig[lenR + 6] == 0 && !(sig[lenR + 7] >= 0x80) then false
        else true
  }

  function PartR(sig: Octets): Octets
    requires |sig| >= 4 && 4 + sig[3] as nat <= |sig|
  {
    sig[4..4 + sig[3] as nat]
  }

  function PartS(sig: Octets): Octets
    requires |sig| >= 7 && 7 + sig[3] as nat <= |sig|
  {
    sig[6 + sig[3] as nat..|sig| - 1]
  }

  // The checks accept exactly the encodings of two shortest positive integers.
  lemma ValidIsEncoding(sig: Octets)
    ensures IsValidSignatureEncoding(sig) <==>
            exists r, s, h :: |r| + |s| <= 66 && MinimalPositive(r) && MinimalPositive(s) && sig == Encoding(r, s, h)
  {
    if IsValidSignatureEncoding(sig) {
      var r, s, h := PartR(sig), PartS(sig), sig[|sig| - 1];
      EncodingOfParts(sig);
      assert |r| + |s| <= 66 && MinimalPositive(r) && MinimalPositive(s) && sig == Encoding(r, s, h);
    }
    if r, s, h :| |r| + |s| <= 66 && MinimalPositive(r) && MinimalPositive(s) && sig == Encoding(r, s, h) {
      EncodingCells(r, s, h);
    }
  }

  lemma EncodingCells(r: Octets, s: Octets, h: Octet)
    requires |r| + |s| < 252
    ensures var e := Encoding(r, s, h);
            && |e| == |r| + |s| + 7
            && e[0] == 0x30 && e[1] as nat == 4 + |r| + |s| && e[2] == 2 && e[3] as nat == |r|
            && e[4 + |r|] == 2 && e[5 + |r|] as nat == |s| && e[|e| - 1] == h
            && (forall i | 0 <= i < |r| :: e[4 + i] == r[i])
            && (forall i | 0 <= i < |s| :: e[6 + |r| + i] == s[i])
            && PartR(e) == r && PartS(e) == s
  {
    var e := Encoding(r, s, h);
    assert PartR(e) == r;
    assert forall i | 0 <= i < |s| :: e[6 + |r| + i] == s[i];
    assert PartS(e) == s;
  }

  lemma EncodingOfParts(sig: Octets)
    requires IsValidSignatureEncoding(sig)
    ensures |PartR(sig)| + |PartS(sig)| <= 66 && sig == Encoding(PartR(sig), PartS(sig), sig[|sig| - 1])
    ensures MinimalPositive(PartR(sig)) && MinimalPositive(PartS(sig))
  {
    var n := |PartR(sig)|;
    Slices(sig, 4, 4 + n, 6 + n);
    assert sig[..4] == [sig[0], sig[1], sig[2], sig[3]];
    assert sig[4 + n..6 + n] == [sig[4 + n], sig[5 + n]];
  }

  lemma Slices(x: Octets, a: nat, b: nat, c: nat)
    requires a <= b <= c < |x|
    ensures x == x[..a] + x[a..b] + x[b..c] + x[c..|x| - 1] + [x[|x| - 1]]
  {
  }

  // What ln_misc_sigexpand writes is always valid.
  lemma ExpandIsValid(rs: Octets)
    requires |rs| == 64
    ensures IsValidSignatureEncoding(Expand(rs)) && Expand(rs)[|Expand(rs)| - 1] == 1
  {
    var r, s := DerInt(rs[..32]), DerInt(rs[32..]);
    DerIntMinimal(rs[..32]);
    DerIntMinimal(rs[32..]);
    EncodingCells(r, s, 1);
    assert |r| + |s| <= 66 && MinimalPositive(r) && MinimalPositive(s) && Expand(rs) == Encoding(r, s, 1);
    ValidIsEncoding(Expand(rs));
  }

  lemma DerIntMinimal(x: Octets)
    requires |x| == 32
    ensures MinimalPositive(DerInt(x)) && |DerInt(x)| <= 33
  {
  }

  // ---------- trimming one integer ----------

  function Half(n: nat, lp: nat): (k: nat)
    ensures k <= n
  {
    if lp < n then (n - lp) / 2 else 0
  }

  // ---------- numbers ----------

  // A leading zero changes nothing; the leading byte decides how large the number is.
  lemma ValueLead(x: Octets)
    requires x != []
    ensures x[0] == 0 <==> Value(x) < Pow256(|x| - 1)
    ensures x[0] < 0x80 <==> Value(x) < 128 * Pow256(|x| - 1)
    ensures x[0] == 0 ==> Value(x) == Value(x[1..])
  {
    ValueSplit(x);
    ValueBound(x[1..]);
    LeadingDigit(x[0] as nat, Pow256(|x| - 1), Value(x[1..]));
  }

  lemma LeadingDigit(d: nat, p: nat, v: nat)
    requires v < p
    ensures d == 0 <==> d * p + v < p
    ensures d == 0 ==> d * p + v == v
    ensures d < 128 <==> d * p + v < 128 * p
  {
    if d > 0 { MulMonotone(1, d, p); }
    if d < 128 { MulMonotone(d + 1, 128, p); } else { MulMonotone(128, d, p); }
  }

  // Shortest encodings are unique.
  lemma MinimalUnique(a: Octets, b: Octets)
    requires MinimalPositive(a) && MinimalPositive(b) && Value(a) == Value(b)
    ensures a == b
  {
    if |a| < |b| { ShorterIsLess(a, b); }
    if |b| < |a| { ShorterIsLess(b, a); }
    ValueInjective(a, b);
  }

  lemma ShorterIsLess(a: Octets, b: Octets)
    requires MinimalPositive(a) && MinimalPositive(b) && |a| < |b|
    ensures Value(a) < Value(b)
  {
    ValueLead(a);
    ValueLead(b);
    ValueBound(a);
    if b[0] != 0 {
      Pow256Monotone(|a|, |b| - 1);
    } else {
      ValueLead(b[1..]);
      Pow256Monotone(|a| - 1, |b| - 2);
    }
  }

  lemma {:induction false} StripValue(x: Octets)
    requires x != []
    ensures Value(Strip(x)) == Value(x)
    decreases |x|
  {
    if |x| > 1 && x[0] == 0 {
      ValueLead(x);
      StripValue(x[1..]);
    }
  }

  lemma DerIntValue(x: Octets)
    requires x != []
    ensures Value(DerInt(x)) == Value(x)
  {
    StripValue(x);
    ValueLead(DerInt(x));
    assert DerInt(x)[0] == 0 && Strip(x)[0] >= 0x80 ==> DerInt(x)[1..] == Strip(x);
  }

  lemma {:induction false} ZerosValue(n: nat, x: Octets)
    ensures Value(Zeros(n) + x) == Value(x)
    decreases n
  {
    if n == 0 {
      assert Zeros(0) + x == x;
    } else {
      ValueLead(Zeros(n) + x);
      assert (Zeros(n) + x)[1..] == Zeros(n - 1) + x;
      ZerosValue(n - 1, x);
    }
  }

  // The number is below 256^n exactly if all but n bytes lead with zeros.
  lemma {:induction false} FitsBytes(x: Octets, n: nat)
    ensures Value(x) < Pow256(n) <==> forall i | 0 <= i < |x| - n :: x[i] == 0
    decreases |x|
  {
    if |x| <= n {
      ValueBound(x);
      Pow256Monotone(|x|, n);
    } else {
      ValueLead(x);
      Pow256Monotone(n, |x| - 1);
      if x[0] == 0 {
        FitsBytes(x[1..], n);
        assert forall i | 0 < i < |x| :: x[i] == x[1..][i - 1];
      }
    }
  }

  lemma {:induction false} StripFromValue(x: Octets, lp: nat)
    ensures Value(StripFrom(x, lp)) == Value(x)
    decreases |x|
  {
    if lp < |x| - 1 && x[0] == 0 {
      ValueLead(x);
      StripFromValue(x[1..], lp + 1);
    }
  }

  // How much is stripped: at most half, and no more than what leads with zeros.
  lemma {:induction false} StripFromSize(x: Octets, lp: nat, k: nat)
    ensures |StripFrom(x, lp)| <= k <==> |x| - k <= Half(|x|, lp) && forall i | 0 <= i < |x| - k :: x[i] == 0
    decreases |x|
  {
    if lp < |x| - 1 && x[0] == 0 {
      StripFromSize(x[1..], lp + 1, k);
      assert forall i | 0 < i < |x| :: x[i] == x[1..][i - 1];
    }
  }

  // ln_misc_sigtrim takes exactly the integers of at most 64 bytes that are below 2^256, and
  // gives their 32 bytes.
  lemma TrimIntExact(x: Octets)
    ensures TrimInt(x).Some? <==> |x| <= 64 && Value(x) < Pow256(32)
    ensures TrimInt(x).Some? ==> Value(TrimInt(x).value) == Value(x)
  {
    StripFromSize(x, 0, 32);
    FitsBytes(x, 32);
    StripFromValue(x, 0);
    if TrimInt(x).Some? { ZerosValue(32 - |StripFrom(x, 0)|, StripFrom(x, 0)); }
  }

  // On any memory: the announced size must be that of the two integers, and both must be taken.
  lemma TrimExact(m: Memory)
    ensures var x, y := Read(m, 4, m(3) as nat), Read(m, 6 + m(3) as nat, m(5 + m(3) as nat) as nat);
            && (Trim(m).Some? <==>
                  && (m(1) as int - 4) % 256 == |x| + |y|
                  && |x| <= 64 && Value(x) < Pow256(32) && |y| <= 64 && Value(y) < Pow256(32))
            && (Trim(m).Some? ==>
                  && |Trim(m).value| == 64
                  && Value(Trim(m).value[..32]) == Value(x) && Value(Trim(m).value[32..]) == Value(y))
  {
    var x, y := Read(m, 4, m(3) as nat), Read(m, 6 + m(3) as nat, m(5 + m(3) as nat) as nat);
    TrimIntExact(x);
    TrimIntExact(y);
    if Trim(m).Some? {
      var r, s := TrimInt(x).value, TrimInt(y).value;
      assert (r + s)[..32] == r && (r + s)[32..] == s;
    }
  }

  // ---------- the two codecs ----------

  lemma TrimOfDerInt(x: Octets)
    requires |x| == 32
    ensures TrimInt(DerInt(x)) == Some(x)
  {
    DerIntValue(x);
    ValueBound(x);
    TrimIntExact(DerInt(x));
    DerIntMinimal(x);
    ValueInjective(TrimInt(DerInt(x)).value, x);
  }

  lemma DerIntOfTrim(x: Octets)
    requires MinimalPositive(x) && TrimInt(x).Some?
    ensures DerInt(TrimInt(x).value) == x
  {
    TrimIntExact(x);
    DerIntValue(TrimInt(x).value);
    DerIntMinimal(TrimInt(x).value);
    MinimalUnique(DerInt(TrimInt(x).value), x);
  }

  lemma TrimOfEncoding(m: Memory, r: Octets, s: Octets, h: Octet)
    requires |r| + |s| < 252 && HoldsAt(m, 0, Encoding(r, s, h))
    ensures Trim(m) == if TrimInt(r).None? || TrimInt(s).None? then None
                       else Some(TrimInt(r).value + TrimInt(s).value)
  {
    EncodingReads(m, r, s, h);
  }

  lemma EncodingReads(m: Memory, r: Octets, s: Octets, h: Octet)
    requires |r| + |s| < 252 && HoldsAt(m, 0, Encoding(r, s, h))
    ensures m(1) as nat == 4 + |r| + |s| && m(3) as nat == |r| && m(5 + |r|) as nat == |s|
    ensures Read(m, 4, |r|) == r && Read(m, 6 + |r|, |s|) == s
  {
    EncodingCells(r, s, h);
    CellsRead(m, Encoding(r, s, h), r, s);
  }

  lemma CellsRead(m: Memory, e: Octets, r: Octets, s: Octets)
    requires HoldsAt(m, 0, e) && |e| == |r| + |s| + 7
    requires e[4..4 + |r|] == r && e[6 + |r|..6 + |r| + |s|] == s
    ensures m(1) == e[1] && m(3) == e[3] && m(5 + |r|) == e[5 + |r|]
    ensures Read(m, 4, |r|) == r && Read(m, 6 + |r|, |s|) == s
  {
    HoldsByte(m, 0, e, 1);
    HoldsByte(m, 0, e, 3);
    HoldsByte(m, 0, e, 5 + |r|);
    HoldsPart(m, 0, e, 4, 4 + |r|);
    HoldsPart(m, 0, e, 6 + |r|, 6 + |r| + |s|);
  }

  // Expanding and trimming gives back any 64 bytes.
  lemma TrimAfterExpand(rs: Octets, m: Memory)
    requires |rs| == 64 && HoldsAt(m, 0, Expand(rs))
    ensures Trim(m) == Some(rs)
  {
    DerIntSize(rs[..32]);
    DerIntSize(rs[32..]);
    TrimOfEncoding(m, DerInt(rs[..32]), DerInt(rs[32..]), 1);
    TrimOfDerInt(rs[..32]);
    TrimOfDerInt(rs[32..]);
    assert rs[..32] + rs[32..] == rs;
  }

  lemma ExpandOf(rs: Octets, r: Octets, s: Octets)
    requires |rs| == 64 && |r| <= 33 && |s| <= 33 && r == DerInt(rs[..32]) && s == DerInt(rs[32..])
    ensures Expand(rs) == [0x30, (4 + |r| + |s|) as Octet, 2, |r| as Octet] + r + [2, |s| as Octet] + s + [1]
  {
  }

  // An expanded signature byte for byte: r and s are the two halves in the fewest bytes that do not
  // read as a negative number.
  lemma ExpandIs(rs: Octets, r: Octets, s: Octets)
    requires |rs| == 64 && 1 <= |r| <= 33 && 1 <= |s| <= 33
    requires Value(r) == Value(rs[..32]) && Value(s) == Value(rs[32..])
    requires r[0] < 0x80 && (|r| > 1 && r[0] == 0 ==> r[1] >= 0x80)
    requires s[0] < 0x80 && (|s| > 1 && s[0] == 0 ==> s[1] >= 0x80)
    ensures Expand(rs) == [0x30, (4 + |r| + |s|) as Octet, 2, |r| as Octet] + r + [2, |s| as Octet] + s + [1]
  {
    HalvesAre(rs, r, s);
    ExpandOf(rs, r, s);
  }

  lemma HalvesAre(rs: Octets, r: Octets, s: Octets)
    requires |rs| == 64 && MinimalPositive(r) && MinimalPositive(s)
    requires Value(r) == Value(rs[..32]) && Value(s) == Value(rs[32..])
    ensures r == DerInt(rs[..32]) && s == DerInt(rs[32..])
  {
    ShortestIs(rs[..32], r);
    ShortestIs(rs[32..], s);
  }

  // Two numbers of zero.
  lemma ZeroSignature()
    ensures Expand(seq(64, _ => 0)) == [0x30, 6, 2, 1, 0, 2, 1, 0, 1]
  {
    var rs: Octets := seq(64, _ => 0);
    ZerosValue(31, [0]);
    assert rs[..32] == Zeros(31) + [0] && rs[32..] == Zeros(31) + [0];
    ExpandIs(rs, [0], [0]);
  }

  lemma ShortestIs(x: Octets, r: Octets)
    requires |x| == 32 && MinimalPositive(r) && Value(r) == Value(x)
    ensures r == DerInt(x)
  {
    DerIntMinimal(x);
    DerIntValue(x);
    MinimalUnique(r, DerInt(x));
  }

  // Of the valid encodings, exactly those of two numbers below 2^256 are trimmed.
  lemma TrimAccepts(sig: Octets, m: Memory)
    requires IsValidSignatureEncoding(sig) && HoldsAt(m, 0, sig)
    ensures Trim(m).Some? <==> Value(PartR(sig)) < Pow256(32) && Value(PartS(sig)) < Pow256(32)
  {
    var r, s := PartR(sig), PartS(sig);
    EncodingOfParts(sig);
    TrimOfEncoding(m, r, s, sig[|sig| - 1]);
    TrimIntExact(r);
    TrimIntExact(s);
    if |r| > 64 { LongIsLarge(r); }
    if |s| > 64 { LongIsLarge(s); }
  }

  lemma LongIsLarge(x: Octets)
    requires MinimalPositive(x) && |x| > 33
    ensures Value(x) >= Pow256(32)
  {
    ValueLead(x);
    if x[0] == 0 {
      ValueLead(x[1..]);
      Pow256Monotone(32, |x| - 2);
    } else {
      Pow256Monotone(32, |x| - 1);
    }
  }

  // Trimming and expanding gives back every valid encoding that signs everything.
  lemma ExpandAfterTrim(sig: Octets, m: Memory)
    requires IsValidSignatureEncoding(sig) && sig[|sig| - 1] == 1 && HoldsAt(m, 0, sig) && Trim(m).Some?
    ensures |Trim(m).value| == 64 && Expand(Trim(m).value) == sig
  {
    var r, s := PartR(sig), PartS(sig);
    EncodingOfParts(sig);
    TrimOfEncoding(m, r, s, 1);
    DerIntOfTrim(r);
    DerIntOfTrim(s);
    var x, y := TrimInt(r).value, TrimInt(s).value;
    assert (x + y)[..32] == x && (x + y)[32..] == y;
  }

  // ---------- the C functions ----------

  // What both integers go through in ln_misc_sigtrim: strip, then right-align in 32 bytes at w.
  method TrimPart(pSig: array<Octet>, w: nat, buf: Memory, start: nat, size: nat)
    returns (ok: bool, p: nat)
    requires w + 32 <= pSig.Length
    modifies pSig
    ensures ok <==> TrimInt(Read(buf, start, size)).Some?
    ensures ok ==> p == start + size && pSig[w..w + 32] == TrimInt(Read(buf, start, size)).value
    ensures forall i | 0 <= i < pSig.Length && !(w <= i < w + 32) :: pSig[i] == old(pSig[i])
  {
    var sz := size;
    p := start;
    var lp := 0;
    while lp < sz - 1 && buf(p) == 0
      invariant 0 <= sz <= size && p + sz == start + size
      invariant StripFrom(Read(buf, p, sz), lp) == StripFrom(Read(buf, start, size), 0)
      decreases sz
    {
      assert Read(buf, p, sz)[1..] == Read(buf, p + 1, sz - 1);
      sz, p, lp := sz - 1, p + 1, lp + 1;
    }
    if sz > 32 { return false, p; }
    forall i | 0 <= i < 32 - sz { pSig[w + i] := 0; }
    forall i | 0 <= i < sz { pSig[w + (32 - sz) + i] := buf(p + i); }
    assert pSig[w..w + 32] == Zeros(32 - sz) + Read(buf, p, sz) by {
      AlignedCells(pSig[w..w + 32], Read(buf, p, sz));
    }
    p := p + sz;
    ok := true;
  }

  lemma AlignedCells(cells: Octets, x: Octets)
    requires |x| <= 32 == |cells|
    requires forall i | 0 <= i < 32 - |x| :: cells[i] == 0
    requires forall i | 32 - |x| <= i < 32 :: cells[i] == x[i - (32 - |x|)]
    ensures cells == Zeros(32 - |x|) + x
  {
  }

  // ln_misc_sigtrim
  method SigTrim(pSig: array<Octet>, buf: Memory) returns (ok: bool)
    requires pSig.Length >= 64
    modifies pSig
    ensures ok <==> Trim(buf).Some?
    ensures ok ==> pSig[..64] == Trim(buf).value
    ensures pSig[64..] == old(pSig[64..])
  {
    var sz := (buf(1) as int - 4) % 256;
    var szR := buf(3) as nat;
    var szS := buf(4 + szR + 1) as nat;
    var p := 4;
    if sz != szR + szS { return false; }
    ok, p := TrimPart(pSig, 0, buf, p, szR);
    if !ok { return; }
    p := p + 2;
    ghost var r := pSig[..32];
    ok, p := TrimPart(pSig, 32, buf, p, szS);
    assert pSig[..64] == pSig[..32] + pSig[32..64];
  }

  // What both integers go through in ln_misc_sigexpand: where the number starts, and the length
  // to announce.
  method Significant(rs: Octets, start: nat, ghost r: Octets) returns (p: nat, len: nat)
    requires start + 32 <= |rs| && r == DerInt(rs[start..start + 32])
    ensures start <= p < start + 32 && len == |r|
    ensures r == if rs[p] >= 0x80 then [0] + rs[p..start + 32] else rs[p..start + 32]
  {
    p, len := start, 32;
    var lp := 0;
    while lp < 31 && rs[p] == 0
      invariant 0 <= lp <= 31 && p == start + lp && len == 32 - lp
      invariant Strip(rs[p..start + 32]) == Strip(rs[start..start + 32])
    {
      assert rs[p..start + 32][1..] == rs[p + 1..start + 32];
      p, len, lp := p + 1, len - 1, lp + 1;
    }
    assert rs[p..start + 32][0] == rs[p];
    if rs[p] >= 0x80 { len := len + 1; }
  }

  // ln_misc_sigexpand
  method SigExpand(rs: Octets) returns (sig: Octets)
    requires |rs| == 64
    ensures sig == Expand(rs)
  {
    assert rs[..32] == rs[0..32] && rs[32..] == rs[32..64];
    ghost var r, s := DerInt(rs[..32]), DerInt(rs[32..]);
    DerIntSize(rs[..32]);
    DerIntSize(rs[32..]);
    var rP, rLen := Significant(rs, 0, r);
    var sP, sLen := Significant(rs, 32, s);
    sig := PushAll(rs, rP, rLen, sP, sLen, r, s);
    ExpandOf(rs, r, s);
  }

  method PushAll(rs: Octets, rP: nat, rLen: nat, sP: nat, sLen: nat, ghost r: Octets, ghost s: Octets)
    returns (sig: Octets)
    requires rP < 32 <= sP < 64 == |rs| && rLen == |r| <= 33 && sLen == |s| <= 33
    requires r == if rs[rP] >= 0x80 then [0] + rs[rP..32] else rs[rP..32]
    requires s == if rs[sP] >= 0x80 then [0] + rs[sP..64] else rs[sP..64]
    ensures sig == [0x30, (4 + |r| + |s|) as Octet, 2, |r| as Octet] + r + [2, |s| as Octet] + s + [1]
  {
    sig := [0x30, (4 + rLen + sLen) as Octet, 2, rLen as Octet];
    sig := PushInt(sig, rs, rP, 32, rLen, r);
    sig := sig + [2, sLen as Octet];
    sig := PushInt(sig, rs, sP, 64, sLen, s);
    sig := sig + [1];
  }

  method PushInt(sig: Octets, rs: Octets, p: nat, end: nat, len: nat, ghost r: Octets) returns (out: Octets)
    requires p < end <= |rs| && len == |r|
    requires r == if rs[p] >= 0x80 then [0] + rs[p..end] else rs[p..end]
    ensures out == sig + r
  {
    var n := len;
    out := sig;
    if rs[p] >= 0x80 { out := out + [0]; n := n - 1; }
    out := out + rs[p..p + n];
    assert sig + [0] + rs[p..end] == sig + ([0] + rs[p..end]);
  }
}
