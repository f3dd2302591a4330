// segwit_addr_encode and segwit_addr_decode of btc/segwit_addr.c with the wrappers of
// btc/btc_segwit_addr.c.
module SegwitAddr {
  import opened Basics
  import opened Powers
  import opened LinearRegister
  import opened Bech32
  import opened Bech32Exact
  import opened BitGroups
  import opened Bech32Buffers

  const MAINNET: nat := 0
  const TESTNET: nat := 1

  // hrp_str
  function HrpStr(hrpType: nat): string
    requires hrpType < 7
  {
    match hrpType
    case 0 => "bc" case 1 => "tb" case 2 => "BC" case 3 => "TB"
    case 4 => "lnbc" case 5 => "lntb" case _ => "lnbcrt"
  }

  predicate IsNet(hrpType: nat) { hrpType == MAINNET || hrpType == TESTNET }

  predicate ProgramOk(version: int, len: nat) {
    2 <= len <= 40 && (version == 0 ==> len == 20 || len == 32)
  }

  function AsBytes(ds: seq<nat>): (r: seq<Byte>)
    requires forall i | 0 <= i < |ds| :: ds[i] < 256
    ensures r == ds
  {
    ds
  }

  function Padded(prog: seq<Byte>): (r: seq<Byte>)
    ensures Convert(prog, 8, 5, true) == Some(r)
    ensures AllSymbols(r) && |r| == (8 * |prog| + 4) / 5
  {
    BytesFit(prog);
    PadThenUnpad(prog);
    assert Pow2(5) == 32;
    AsBytes(Convert(prog, 8, 5, true).value)
  }

  lemma BytesFit(bs: seq<Byte>)
    ensures Fits(bs, 8)
  {
    assert Pow2(8) == 256;
  }

  lemma SymbolsFit(vs: seq<Byte>)
    requires AllSymbols(vs)
    ensures Fits(vs, 5)
  {
    assert Pow2(5) == 32;
  }

  // The version is cut to eight bits when it is stored as the first symbol.
  function AddrEncode(r: Reg, hrpType: nat, version: int, prog: seq<Byte>): Option<string> {
    if version > 16 || !ProgramOk(version, |prog|) || !IsNet(hrpType) then None
    else Encode(r, HrpStr(hrpType), AddrData(version, prog), false)
  }

  function AddrData(version: int, prog: seq<Byte>): seq<Byte> { [version % 256] + Padded(prog) }

  // Only the first two characters of the human readable part are compared.
  predicate PrefixMatches(hrpType: nat, hrp: string)
    requires IsNet(hrpType)
  {
    |hrp| >= 2 && hrp[..2] == HrpStr(hrpType)
  }

  function AddrDecode(r: Reg, hrpType: nat, addr: string): Option<(int, seq<nat>)> {
    if !IsNet(hrpType) || Decode(r, addr, false).None? then None
    else Program(hrpType, Decode(r, addr, false).value.0, Bytes(Decode(r, addr, false).value.1))
  }

  function Program(hrpType: nat, hrp: string, vs: seq<Byte>): Option<(int, seq<nat>)>
    requires IsNet(hrpType)
  {
    if |vs| == 0 || |vs| > 65 || !PrefixMatches(hrpType, hrp) || vs[0] > 16 then None
    else
      var prog := Convert(vs[1..], 5, 8, false);
      if prog.None? || !ProgramOk(vs[0], |prog.value|) then None
      else Some((vs[0], prog.value))
  }

  // ---------- round trips ----------

  lemma DecodedProgram(hrpType: nat, v: nat, prog: seq<Byte>)
    requires IsNet(hrpType) && v < 32 && |prog| <= 40
    ensures Program(hrpType, HrpStr(hrpType), AddrData(v, prog)) ==
            if v <= 16 && ProgramOk(v, |prog|) then Some((v, prog)) else None
  {
    PaddedThere(prog);
    HeadAndRest(v, prog);
    ProgramOf(hrpType, AddrData(v, prog), v, Padded(prog), prog);
  }

  lemma HeadAndRest(v: nat, prog: seq<Byte>)
    requires v < 32 && |prog| <= 40
    ensures var vs := AddrData(v, prog); 1 <= |vs| <= 65 && vs[0] == v && vs[1..] == Padded(prog)
  {
  }

  lemma ProgramOf(hrpType: nat, vs: seq<Byte>, v: nat, symbols: seq<Byte>, prog: seq<nat>)
    requires IsNet(hrpType) && 1 <= |vs| <= 65 && vs[0] == v && vs[1..] == symbols
    requires Convert(symbols, 5, 8, false) == Some(prog)
    ensures Program(hrpType, HrpStr(hrpType), vs) == if v <= 16 && ProgramOk(v, |prog|) then Some((v, prog)) else None
  {
    NetPrefix(hrpType);
  }

  lemma NetPrefix(hrpType: nat)
    requires IsNet(hrpType)
    ensures PrefixMatches(hrpType, HrpStr(hrpType))
  {
    assert HrpStr(hrpType)[..2] == HrpStr(hrpType);
  }

  lemma PaddedThere(prog: seq<Byte>)
    ensures Convert(Padded(prog), 5, 8, false) == Some(prog)
  {
    BytesFit(prog);
    PadThenUnpad(prog);
  }

  // Whatever the encoder accepts decodes to the same version and program, exactly when the
  // version is not negative: a negative one is silently cut to eight bits.
  lemma AddrRoundTrip(r: Reg, hrpType: nat, version: int, prog: seq<Byte>)
    requires Sound(r) && AddrEncode(r, hrpType, version, prog).Some?
    ensures AddrDecode(r, hrpType, AddrEncode(r, hrpType, version, prog).value) == Some((version, prog))
            <==> 0 <= version
  {
    AddrVersion(r, hrpType, version, prog);
    AddrDecodeEncoded(r, hrpType, AddrData(version, prog), AddrEncode(r, hrpType, version, prog).value);
    DecodedProgram(hrpType, version % 256, prog);
  }

  lemma AddrVersion(r: Reg, hrpType: nat, version: int, prog: seq<Byte>)
    requires AddrEncode(r, hrpType, version, prog).Some?
    ensures IsNet(hrpType) && version % 256 < 32 && version <= 16 && ProgramOk(version, |prog|)
    ensures AddrData(version % 256, prog) == AddrData(version, prog)
    ensures 0 <= version ==> version % 256 == version
  {
    FirstSymbol(version, prog);
    VersionTwice(version, prog);
  }

  lemma FirstSymbol(version: int, prog: seq<Byte>)
    requires AllSymbols(AddrData(version, prog))
    ensures version % 256 < 32
  {
    assert AddrData(version, prog)[0] == version % 256;
  }

  lemma VersionTwice(version: int, prog: seq<Byte>)
    ensures AddrData(version % 256, prog) == AddrData(version, prog)
  {
  }

  lemma AddrDecodeEncoded(r: Reg, hrpType: nat, data: seq<Byte>, addr: string)
    requires Sound(r) && IsNet(hrpType) && Encode(r, HrpStr(hrpType), data, false) == Some(addr)
    ensures AddrDecode(r, hrpType, addr) == Program(hrpType, HrpStr(hrpType), data)
  {
    EncodeThenDecode(r, HrpStr(hrpType), data, false);
    assert Bytes(Symbols(data)) == data;
  }

  // All versions 0 to 16 and all programs of a permitted size have an address.
  lemma AddrEncodable(r: Reg, hrpType: nat, version: nat, prog: seq<Byte>)
    requires IsNet(hrpType) && version <= 16 && ProgramOk(version, |prog|)
    ensures AddrEncode(r, hrpType, version, prog).Some?
  {
    NetEncodable(hrpType);
    AddrDataSymbols(version, prog);
  }

  lemma NetEncodable(hrpType: nat)
    requires IsNet(hrpType)
    ensures |HrpStr(hrpType)| == 2 && EncodableHrp(HrpStr(hrpType))
  {
  }

  lemma AddrDataSymbols(version: nat, prog: seq<Byte>)
    requires version < 32
    ensures AllSymbols(AddrData(version, prog)) && |AddrData(version, prog)| == 1 + (8 * |prog| + 4) / 5
  {
    var ps := Padded(prog);
    var data := [version] + ps;
    forall i | 0 <= i < |data| ensures data[i] < 32 { assert i > 0 ==> data[i] == ps[i - 1]; }
  }

  // An accepted address re-encodes to its own lower case exactly when its human readable part
  // is the network's; the decoder also accepts longer ones with the same first two characters.
  lemma AddrCanonical(r: Reg, hrpType: nat, addr: string)
    requires Sound(r) && AddrDecode(r, hrpType, addr).Some?
    ensures var (v, prog) := AddrDecode(r, hrpType, addr).value;
            && (forall i | 0 <= i < |prog| :: prog[i] < 256)
            && (AddrEncode(r, hrpType, v, AsBytes(prog)) == Some(LowerAll(addr)) <==> LastOne(addr) == 2)
  {
    var (hrp, syms) := Decode(r, addr, false).value;
    Reencoded(r, hrpType, hrp, Bytes(syms));
    NetRespelled(r, HrpStr(hrpType), addr);
  }

  lemma Reencoded(r: Reg, hrpType: nat, hrp: string, vs: seq<Byte>)
    requires IsNet(hrpType) && AllSymbols(vs) && Program(hrpType, hrp, vs).Some?
    ensures var (v, prog) := Program(hrpType, hrp, vs).value;
            && (forall i | 0 <= i < |prog| :: prog[i] < 256)
            && AddrEncode(r, hrpType, v, AsBytes(prog)) == Encode(r, HrpStr(hrpType), vs, false)
    ensures PrefixMatches(hrpType, hrp) && EncodableHrp(HrpStr(hrpType))
  {
    ProgramInverse(hrpType, hrp, vs);
  }

  lemma ProgramInverse(hrpType: nat, hrp: string, vs: seq<Byte>)
    requires IsNet(hrpType) && AllSymbols(vs) && Program(hrpType, hrp, vs).Some?
    ensures var (v, prog) := Program(hrpType, hrp, vs).value;
            && 0 <= v <= 16 && ProgramOk(v, |prog|)
            && (forall i | 0 <= i < |prog| :: prog[i] < 256)
            && AddrData(v, AsBytes(prog)) == vs
  {
    ProgramParts(hrpType, hrp, vs);
    var (v, prog) := Program(hrpType, hrp, vs).value;
    PaddedBack(vs[1..], prog);
    VersionAndRest(v, AsBytes(prog), vs);
  }

  lemma ProgramParts(hrpType: nat, hrp: string, vs: seq<Byte>)
    requires IsNet(hrpType) && Program(hrpType, hrp, vs).Some?
    ensures var (v, prog) := Program(hrpType, hrp, vs).value;
            && 0 <= v <= 16 && ProgramOk(v, |prog|)
            && |vs| > 0 && v == vs[0] && Convert(vs[1..], 5, 8, false) == Some(prog)
  {
  }

  lemma PaddedBack(vs: seq<Byte>, prog: seq<nat>)
    requires AllSymbols(vs) && Convert(vs, 5, 8, false) == Some(prog)
    ensures forall i | 0 <= i < |prog| :: prog[i] < 256
    ensures Padded(AsBytes(prog)) == vs
  {
    SymbolsFit(vs);
    UnpadThenPad(vs);
    assert Pow2(8) == 256;
  }

  lemma VersionAndRest(v: int, prog: seq<Byte>, vs: seq<Byte>)
    requires |vs| > 0 && 0 <= v <= 16 && vs[0] == v && Padded(prog) == vs[1..]
    ensures AddrData(v, prog) == vs
  {
    assert v % 256 == v;
    assert [vs[0]] + vs[1..] == vs;
  }

  lemma NetRespelled(r: Reg, net: string, addr: string)
    requires Sound(r) && |net| == 2 && EncodableHrp(net) && Decode(r, addr, false).Some?
    requires var hrp := Decode(r, addr, false).value.0; |hrp| >= 2 && hrp[..2] == net
    ensures Encode(r, net, Bytes(Decode(r, addr, false).value.1), false) == Some(LowerAll(addr)) <==> LastOne(addr) == 2
  {
    var (hrp, syms) := Decode(r, addr, false).value;
    LowerLastOne(addr);
    if LastOne(addr) == 2 {
      DecodeThenEncode(r, addr, false);
      assert hrp == hrp[..2];
    } else if Encode(r, net, Bytes(syms), false).Some? {
      AssembledPieces(r, net, syms);
    }
  }

  // ---------- inputs on which the two fail ----------

  // A version of -255 is encoded, as version 1, and so does not come back.
  lemma NegativeVersion(r: Reg, prog: seq<Byte>)
    requires Sound(r) && |prog| == 32
    ensures AddrEncode(r, MAINNET, -255, prog).Some?
    ensures AddrDecode(r, MAINNET, AddrEncode(r, MAINNET, -255, prog).value) != Some((-255, prog))
  {
    AddrEncodable(r, MAINNET, 1, prog);
    assert AddrData(-255, prog) == AddrData(1, prog);
    AddrRoundTrip(r, MAINNET, -255, prog);
  }

  // An address of "bcx" is accepted as one of "bc", and re-encodes to another string.
  lemma LongPrefix(r: Reg, prog: seq<Byte>)
    requires Sound(r) && |prog| == 32
    ensures Encode(r, "bcx", AddrData(0, prog), false).Some?
    ensures var addr := Encode(r, "bcx", AddrData(0, prog), false).value;
            && AddrDecode(r, MAINNET, addr) == Some((0, prog)) && LastOne(addr) == 3
            && AddrEncode(r, MAINNET, 0, prog) != Some(LowerAll(addr))
  {
    var data := AddrData(0, prog);
    AddrEncodable(r, MAINNET, 0, prog);
    EncodeThenDecode(r, "bcx", data, false);
    AssembledPieces(r, "bcx", Symbols(data));
    assert Bytes(Symbols(data)) == data;
    PrefixIgnored("bcx", data);
    DecodedProgram(MAINNET, 0, prog);
    AddrCanonical(r, MAINNET, Encode(r, "bcx", data, false).value);
  }

  lemma PrefixIgnored(hrp: string, vs: seq<Byte>)
    requires PrefixMatches(MAINNET, hrp)
    ensures Program(MAINNET, hrp, vs) == Program(MAINNET, HrpStr(MAINNET), vs)
  {
    assert HrpStr(MAINNET)[..2] == HrpStr(MAINNET);
  }

  // ---------- the C functions ----------

  // segwit_addr_encode; the caller's buffer holds 73 characters and the human readable part.
  method SegwitAddrEncode(r: Reg, output: array<char>, hrpType: nat, version: int, prog: seq<Byte>)
    returns (ok: bool)
    requires output.Length >= 75 && PlainStep(r)
    modifies output
    ensures ok <==> AddrEncode(r, hrpType, version, prog).Some?
    ensures ok ==> var addr := AddrEncode(r, hrpType, version, prog).value;
                   |addr| < output.Length && output[..|addr| + 1] == addr + [NUL]
  {
    var data := new Byte[65];
    if version > 16 { return false; }
    if version == 0 && |prog| != 20 && |prog| != 32 { return false; }
    if |prog| < 2 || |prog| > 40 { return false; }
    if hrpType != MAINNET && hrpType != TESTNET { return false; }
    data[0] := version % 256;
    BytesFit(prog);
    var good, datalen := ConvertBits(data, 1, 5, prog, 8, true);
    if !good { return false; }
    datalen := datalen + 1;
    ghost var all := AddrData(version, prog);
    assert data[..datalen] == all by {
      assert data[..datalen] == [data[0]] + data[1..datalen];
    }
    assert AddrEncode(r, hrpType, version, prog) == Encode(r, HrpStr(hrpType), all, false);
    ok := Bech32Encode(r, output, HrpStr(hrpType), data[..datalen], false);
    if ok { AssembledPieces(r, HrpStr(hrpType), Symbols(all)); }
  }

  // segwit_addr_decode with its two 84-cell buffers; the caller provides 40 program bytes.
  method SegwitAddrDecode(r: Reg, witdata: array<Byte>, hrpType: nat, addr: string)
    returns (ok: bool, version: int, len: nat)
    requires witdata.Length >= 40 && PlainStep(r)
    modifies witdata
    ensures ok <==> AddrDecode(r, hrpType, addr).Some?
    ensures ok ==> version == AddrDecode(r, hrpType, addr).value.0
    ensures ok ==> len <= 40 && witdata[..len] == AddrDecode(r, hrpType, addr).value.1
  {
    version, len := 0, 0;
    var data := new Byte[84];
    var hrpActual := new char[84];
    if hrpType != MAINNET && hrpType != TESTNET { return false, version, len; }
    var good, dataLen := Bech32Decode(r, hrpActual, data, addr, false);
    if !good { return false, version, len; }
    ghost var hrp, vs := Decode(r, addr, false).value.0, Bytes(Decode(r, addr, false).value.1);
    ok, version, len := TakeProgram(witdata, hrpType, hrpActual, data, dataLen, hrp, vs);
  }

  // What segwit_addr_decode does once the string has been decoded to hrp and vs.
  method TakeProgram(witdata: array<Byte>, hrpType: nat, hrpActual: array<char>, data: array<Byte>, dataLen: nat,
                     ghost hrp: string, ghost vs: seq<Byte>)
    returns (ok: bool, version: int, len: nat)
    requires witdata.Length >= 40 && witdata != data && IsNet(hrpType)
    requires 1 <= |hrp| < hrpActual.Length && hrpActual[..|hrp| + 1] == hrp + [NUL]
    requires dataLen <= data.Length && data[..dataLen] == vs && AllSymbols(vs)
    modifies witdata
    ensures ok <==> Program(hrpType, hrp, vs).Some?
    ensures ok ==> len <= 40 && (version, witdata[..len]) == Program(hrpType, hrp, vs).value
  {
    ok, version, len := false, 0, 0;
    if dataLen == 0 || dataLen > 65 { return; }
    PrefixCells(hrpActual[..|hrp| + 1], hrp, HrpStr(hrpType));
    if hrpActual[0] != HrpStr(hrpType)[0] || hrpActual[1] != HrpStr(hrpType)[1] { return; }
    if data[0] > 16 { return; }
    assert data[1..dataLen] == vs[1..];
    SymbolsFit(data[1..dataLen]);
    ok, len := ConvertBits(witdata, 0, 8, data[1..dataLen], 5, false);
    if !ok { return; }
    if len < 2 || len > 40 { return false, version, len; }
    if data[0] == 0 && len != 20 && len != 32 { return false, version, len; }
    version := data[0];
  }

  // strncmp over two characters of a terminated string.
  lemma PrefixCells(cells: string, hrp: string, net: string)
    requires |hrp| >= 1 && cells == hrp + [NUL] && |net| == 2 && net[1] != NUL
    ensures cells[0] == net[0] && cells[1] == net[1] <==> |hrp| >= 2 && hrp[..2] == net
  {
    if |hrp| >= 2 { assert hrp[..2] == [hrp[0], hrp[1]] && net == [net[0], net[1]]; }
  }

  // btc_segwit_addr_encode. The size test looks up the human readable part of any of the seven
  // types the table has.
  method BtcSegwitAddrEncode(r: Reg, output: array<char>, hrpType: nat, version: int, prog: seq<Byte>)
    returns (ok: bool)
    requires hrpType < 7 && PlainStep(r)
    modifies output
    ensures ok <==> output.Length >= 73 + |HrpStr(hrpType)| && AddrEncode(r, hrpType, version, prog).Some?
    ensures ok ==> var addr := AddrEncode(r, hrpType, version, prog).value;
                   |addr| < output.Length && output[..|addr| + 1] == addr + [NUL]
  {
    if output.Length < 73 + |HrpStr(hrpType)| { return false; }
    ok := SegwitAddrEncode(r, output, hrpType, version, prog);
  }

  // btc_segwit_addr_decode
  method BtcSegwitAddrDecode(r: Reg, prog: array<Byte>, hrpType: nat, addr: string)
    returns (ok: bool, version: int, len: nat)
    requires PlainStep(r)
    modifies prog
    ensures ok <==> prog.Length >= 40 && AddrDecode(r, hrpType, addr).Some?
    ensures ok ==> version == AddrDecode(r, hrpType, addr).value.0
    ensures ok ==> len <= 40 && prog[..len] == AddrDecode(r, hrpType, addr).value.1
  {
    if prog.Length < 40 { return false, 0, 0; }
    ok, version, len := SegwitAddrDecode(r, prog, hrpType, addr);
  }
}
