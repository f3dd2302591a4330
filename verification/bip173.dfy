// The promises of BIP 173 for the register of btc/segwit_addr.c itself.
module Bip173 {
  import opened Basics
  import opened LinearRegister
  import opened Bech32
  import opened Bech32Exact
  import opened Bech32Prefix
  import opened Polymod
  import opened SegwitAddr

  lemma Roundtrip(hrp: string, data: seq<Byte>, ln: bool)
    requires Encode(Bech32Register(), hrp, data, ln).Some?
    ensures var s := Encode(Bech32Register(), hrp, data, ln).value;
            Decode(Bech32Register(), s, ln) ==
            if hrp != [] && (ln ==> LN_MIN <= |s|) then Some((hrp, Symbols(data))) else None
  {
    Bech32Sound();
    EncodeThenDecode(Bech32Register(), hrp, data, ln);
  }

  lemma Canonical(s: string, ln: bool)
    requires Decode(Bech32Register(), s, ln).Some?
    ensures var (hrp, vs) := Decode(Bech32Register(), s, ln).value;
            Encode(Bech32Register(), hrp, Bytes(vs), ln) == Some(LowerAll(s))
  {
    Bech32Sound();
    DecodeThenEncode(Bech32Register(), s, ln);
  }

  // What the decoder accepts, said through the encoder.
  lemma Accepted(s: string, ln: bool, h: string, vs: seq<Sym>)
    ensures Decode(Bech32Register(), s, ln) == Some((h, vs)) <==>
            && Encode(Bech32Register(), h, Bytes(vs), ln) == Some(LowerAll(s)) && h != [] && (ln ==> 122 <= |s|)
            && !((exists i | 0 <= i < |s| :: 'a' <= s[i] <= 'z') && (exists i | 0 <= i < |s| :: 'A' <= s[i] <= 'Z'))
  {
    Bech32Sound();
    AcceptedExactly(Bech32Register(), s, ln, h, vs);
  }

  // No length bound: an invoice of any size.
  lemma DetectsBursts(s: string, t: string, ln: bool, i: nat, n: nat)
    requires Decode(Bech32Register(), s, ln).Some? && BurstApart(s, t, i, n) && n <= 6
    ensures Decode(Bech32Register(), t, ln).None?
  {
    Bech32Sound();
    BurstDetected(Bech32Register(), s, t, ln, i, n);
  }

  // Two strings with the same human readable part and data are the same up to case.
  lemma OneSpelling(s: string, t: string, ln: bool)
    requires Decode(Bech32Register(), s, ln).Some?
    requires Decode(Bech32Register(), s, ln) == Decode(Bech32Register(), t, ln)
    ensures LowerAll(s) == LowerAll(t)
  {
    Canonical(s, ln);
    Canonical(t, ln);
  }

  // Exchanging the human readable part is noticed: for another one of at most two characters, or
  // for one that differs in the low bits of at most six characters in a row.
  lemma DetectsPartChange(s: string, g: string, ln: bool, i: nat, n: nat)
    requires Decode(Bech32Register(), s, ln).Some? && LowerAll(g) != Decode(Bech32Register(), s, ln).value.0
    requires || NearParts(Decode(Bech32Register(), s, ln).value.0, LowerAll(g), i, n)
             || (|Decode(Bech32Register(), s, ln).value.0| <= 2 && |g| <= 2)
    ensures Decode(Bech32Register(), g + s[LastOne(s)..], ln).None?
  {
    Bech32Sound();
    if NearParts(Decode(Bech32Register(), s, ln).value.0, LowerAll(g), i, n) {
      NearPartDetected(Bech32Register(), s, g, ln, i, n);
    } else {
      ShortPartDetected(Bech32Register(), s, g, ln);
    }
  }

  // Every version and every program of a permitted size has an address; it begins as its network
  // demands, decodes to them, and is refused as an address of the other network.
  lemma AddressRoundtrip(hrpType: nat, version: nat, prog: seq<Byte>)
    requires hrpType <= 1 && version <= 16
    requires 2 <= |prog| <= 40 && (version == 0 ==> |prog| == 20 || |prog| == 32)
    ensures AddrEncode(Bech32Register(), hrpType, version, prog).Some?
    ensures var addr := AddrEncode(Bech32Register(), hrpType, version, prog).value;
            && (if hrpType == 0 then "bc1" else "tb1") <= addr
            && AddrDecode(Bech32Register(), hrpType, addr) == Some((version as int, prog))
            && AddrDecode(Bech32Register(), 1 - hrpType, addr) == None
  {
    Bech32Sound();
    AddrEncodable(Bech32Register(), hrpType, version, prog);
    AddrRoundTrip(Bech32Register(), hrpType, version, prog);
    OtherNetwork(hrpType, AddrData(version, prog), AddrEncode(Bech32Register(), hrpType, version, prog).value);
  }

  lemma OtherNetwork(hrpType: nat, data: seq<Byte>, addr: string)
    requires hrpType <= 1 && Encode(Bech32Register(), HrpStr(hrpType), data, false) == Some(addr)
    ensures (if hrpType == 0 then "bc1" else "tb1") <= addr
    ensures AddrDecode(Bech32Register(), 1 - hrpType, addr) == None
  {
    Roundtrip(HrpStr(hrpType), data, false);
    assert "bc"[0] != "tb"[0];
    assert HrpStr(hrpType) + ['1'] <= addr;
  }

  // An accepted address has a permitted version and size, and begins as its network demands.
  lemma AcceptedAddress(hrpType: nat, addr: string)
    requires AddrDecode(Bech32Register(), hrpType, addr).Some?
    ensures var (version, prog) := AddrDecode(Bech32Register(), hrpType, addr).value;
            && 0 <= version <= 16 && 2 <= |prog| <= 40 && (version == 0 ==> |prog| == 20 || |prog| == 32)
            && hrpType <= 1 && (if hrpType == 0 then "bc" else "tb") <= LowerAll(addr)
  {
    var sep := LastOne(addr);
    DecodeAt(Bech32Register(), addr, false, sep, addr[..sep], addr[sep + 1..]);
    PrefixIn(hrpType, LowerAll(addr[..sep]), LowerAll(addr));
  }

  lemma PrefixIn(hrpType: nat, hrp: string, s: string)
    requires IsNet(hrpType) && PrefixMatches(hrpType, hrp) && hrp <= s
    ensures (if hrpType == 0 then "bc" else "tb") <= s
  {
    assert s[..2] == hrp[..2];
  }
}
