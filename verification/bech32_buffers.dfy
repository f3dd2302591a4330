// The same codec as the C code runs it: loops over a checksum word that write characters and
// symbols into the caller's buffers. Every write is inside the buffer, the terminator included.
module Bech32Buffers {
  import opened Basics
  import opened LinearRegister
  import opened Bech32

  const NUL: char := '\0'

  // Absorbed is bech32_polymod_step(chk) ^ v.
  lemma AbsorbSnoc(r: Reg, vs: seq<Sym>, v: Sym)
    ensures State(r, vs + [v]) == Absorbed(r, State(r, vs), v)
  {
    assert (vs + [v])[..|vs + [v]| - 1] == vs;
  }

  lemma AbsorbZero(r: Reg, chk: bv32)
    requires PlainStep(r)
    ensures r.step(chk) == Absorbed(r, chk, 0)
  {
  }

  lemma StateEmpty(r: Reg)
    ensures State(r, []) == 1
  {
  }

  // The register after the first i of the given symbols.
  ghost function Fed(r: Reg, start: bv32, vs: seq<Sym>, i: nat): bv32
    requires i <= |vs|
  {
    if i == 0 then start else Absorbed(r, Fed(r, start, vs, i - 1), vs[i - 1])
  }

  lemma {:induction false} FedIs(r: Reg, x: seq<Sym>, vs: seq<Sym>, i: nat)
    requires i <= |vs|
    ensures Fed(r, State(r, x), vs, i) == State(r, x + vs[..i])
  {
    if i == 0 {
      assert x + vs[..0] == x;
    } else {
      FedIs(r, x, vs, i - 1);
      StateSnoc(r, x, vs, i - 1);
    }
  }

  lemma StateSnoc(r: Reg, x: seq<Sym>, vs: seq<Sym>, i: nat)
    requires i < |vs|
    ensures State(r, x + vs[..i + 1]) == Absorbed(r, State(r, x + vs[..i]), vs[i])
  {
    assert vs[..i + 1] == vs[..i] + [vs[i]];
    Regroup(x, vs[..i], [vs[i]]);
    AbsorbSnoc(r, x + vs[..i], vs[i]);
  }

  lemma FedAll(r: Reg, x: seq<Sym>, vs: seq<Sym>)
    ensures Fed(r, State(r, x), vs, |vs|) == State(r, x + vs)
  {
    FedIs(r, x, vs, |vs|);
    assert vs[..|vs|] == vs;
  }

  lemma HiFed(r: Reg, hi: seq<Sym>)
    ensures Fed(r, 1, hi, |hi|) == State(r, hi)
  {
    StateEmpty(r);
    FedAll(r, [], hi);
    assert [] + hi == hi;
  }

  // bech32_encode
  method Bech32Encode(r: Reg, output: array<char>, hrp: string, data: seq<Byte>, ln: bool) returns (ok: bool)
    requires output.Length >= |hrp| + |data| + 8 && PlainStep(r)
    modifies output
    ensures ok <==> Encode(r, hrp, data, ln).Some?
    ensures ok ==> output[..|hrp| + |data| + 8] == Encode(r, hrp, data, ln).value + [NUL]
  {
    var chk;
    ok, chk := HrpHigh(r, hrp, HiPart(hrp));
    if !ok { return; }
    if !ln && |hrp| + 7 + |data| > 90 { return false; }
    chk := HrpLow(r, output, hrp, chk);
    ok, chk := EncodeData(r, output, hrp, data, chk);
    if !ok { return; }
    WriteChecksum(r, output, |hrp| + 1 + |data|, hrp, Symbols(data), chk);
  }

  // The first pass: check the characters and absorb their high bits hi.
  method HrpHigh(r: Reg, hrp: string, ghost hi: seq<Sym>) returns (ok: bool, chk: bv32)
    requires hi == HiPart(hrp)
    ensures ok <==> EncodableHrp(hrp)
    ensures ok ==> chk == State(r, hi)
  {
    chk := 1;
    var i := 0;
    while i < |hrp|
      invariant i <= |hrp| && chk == Fed(r, 1, hi, i)
      invariant forall k | 0 <= k < i :: HrpChar(hrp[k]) && !IsUpper(hrp[k])
    {
      var ch := hrp[i];
      if ch as int < 33 || ch as int > 126 { return false, chk; }
      if IsUpper(ch) { return false, chk; }
      chk := Absorbed(r, chk, Hi(ch));
      i := i + 1;
    }
    HiFed(r, hi);
    ok := true;
  }

  // The middle of the encoder: absorb the separator and the low bits while copying the prefix.
  method HrpLow(r: Reg, output: array<char>, hrp: string, start: bv32) returns (chk: bv32)
    requires output.Length >= |hrp| && start == State(r, HiPart(hrp)) && PlainStep(r)
    modifies output
    ensures chk == State(r, Expand(hrp)) && output[..|hrp|] == hrp
  {
    ghost var lo := LoPart(hrp);
    AbsorbZero(r, start);
    AbsorbSnoc(r, HiPart(hrp), 0);
    chk := r.step(start);
    chk := CopyLow(r, output, hrp, chk, lo);
    FedAll(r, HiPart(hrp) + [0], lo);
  }

  method CopyLow(r: Reg, output: array<char>, hrp: string, start: bv32, ghost lo: seq<Sym>) returns (chk: bv32)
    requires output.Length >= |hrp| == |lo| && forall k | 0 <= k < |hrp| :: lo[k] == Lo(hrp[k])
    modifies output
    ensures chk == Fed(r, start, lo, |lo|) && output[..|hrp|] == hrp
  {
    chk := start;
    var i := 0;
    while i < |hrp|
      invariant i <= |hrp| && chk == Fed(r, start, lo, i)
      invariant forall k | 0 <= k < i :: output[k] == hrp[k]
    {
      chk := Absorbed(r, chk, Lo(hrp[i]));
      output[i] := hrp[i];
      i := i + 1;
    }
  }

  // The separator and the data part; a value that is not a symbol stops the encoder.
  method EncodeData(r: Reg, output: array<char>, hrp: string, data: seq<Byte>, start: bv32)
    returns (ok: bool, chk: bv32)
    requires output.Length >= |hrp| + |data| + 8 && start == State(r, Expand(hrp))
    requires output[..|hrp|] == hrp
    modifies output
    ensures ok <==> AllSymbols(data)
    ensures ok ==> chk == State(r, Expand(hrp) + Symbols(data))
    ensures ok ==> output[..|hrp| + 1 + |data|] == hrp + ['1'] + Chars(Symbols(data))
  {
    output[|hrp|] := '1';
    ghost var head := output[..|hrp| + 1];
    assert head == hrp + ['1'];
    ok, chk := WriteData(r, output, |hrp| + 1, data, start, head);
    if ok {
      ghost var syms := Symbols(data);
      ghost var text, cells := Chars(syms), output[..|hrp| + 1 + |data|];
      FedAll(r, Expand(hrp), syms);
      assert forall k | 0 <= k < |text| :: cells[|head| + k] == text[k];
      CellsAreText(cells, head, text);
    }
  }

  lemma CellsAreText(cells: string, head: string, text: string)
    requires |cells| == |head| + |text| && cells[..|head|] == head
    requires forall k | 0 <= k < |text| :: cells[|head| + k] == text[k]
    ensures cells == head + text
  {
  }

  method WriteData(r: Reg, output: array<char>, start: nat, data: seq<Byte>, chk0: bv32, ghost head: string)
    returns (ok: bool, chk: bv32)
    requires output.Length >= start + |data| && output[..start] == head
    modifies output
    ensures ok <==> AllSymbols(data)
    ensures ok ==> chk == Fed(r, chk0, Symbols(data), |data|) && output[..start] == head
    ensures ok ==> forall k | 0 <= k < |data| :: output[start + k] == Chars(Symbols(data))[k]
  {
    chk := chk0;
    var p := start;
    var i := 0;
    while i < |data|
      invariant i <= |data| && p == start + i && output[..start] == head
      invariant forall k | 0 <= k < i :: data[k] < 32
      invariant AllSymbols(data) ==> chk == Fed(r, chk0, Symbols(data), i)
      invariant forall k | 0 <= k < i :: output[start + k] == CharsetAt(data[k] as Sym)
    {
      if data[i] >= 32 { return false, chk; }
      chk := Absorbed(r, chk, data[i] as Sym);
      output[p] := CharsetAt(data[i] as Sym);
      p := p + 1;
      i := i + 1;
    }
    ok := true;
  }

  // The end of the encoder: six zero symbols, then the checksum characters and the terminator.
  method WriteChecksum(r: Reg, output: array<char>, start: nat, hrp: string, vs: seq<Sym>, reg: bv32)
    requires output.Length >= start + 7 && start == |hrp| + 1 + |vs|
    requires reg == State(r, Expand(hrp) + vs) && PlainStep(r)
    requires output[..start] == hrp + ['1'] + Chars(vs)
    modifies output
    ensures output[..start + 7] == Assemble(r, hrp, vs) + [NUL]
  {
    var chk := SixZeros(r, Expand(hrp) + vs, reg);
    chk := r.xor(chk, 1);
    ghost var cs := SymbolsOf(r, chk);
    WriteSymbols(r, output, start, chk, hrp + ['1'] + Chars(vs));
    CharsConcat(hrp + ['1'], vs, cs);
    output[start + 6] := NUL;
  }

  method WriteSymbols(r: Reg, output: array<char>, start: nat, chk: bv32, ghost text: string)
    requires output.Length >= start + 7 && output[..start] == text
    modifies output
    ensures output[..start + 6] == text + Chars(SymbolsOf(r, chk))
  {
    ghost var cs := SymbolsOf(r, chk);
    var p := start;
    assert text + Chars(cs[..0]) == text;
    for i := 0 to 6
      invariant p == start + i && output[..p] == text + Chars(cs[..i])
    {
      CharsSnoc(text, cs, i);
      output[p] := CharsetAt(r.sym(chk, i));
      p := p + 1;
    }
    assert cs[..6] == cs;
  }

  lemma CharsConcat(head: string, vs: seq<Sym>, cs: seq<Sym>)
    ensures head + Chars(vs) + Chars(cs) == head + Chars(vs + cs)
  {
    assert Chars(vs) + Chars(cs) == Chars(vs + cs);
  }

  lemma CharsSnoc(text: string, vs: seq<Sym>, i: nat)
    requires i < |vs|
    ensures text + Chars(vs[..i + 1]) == text + Chars(vs[..i]) + [CharsetAt(vs[i])]
  {
  }

  method SixZeros(r: Reg, ghost x: seq<Sym>, reg: bv32) returns (chk: bv32)
    requires reg == State(r, x) && PlainStep(r)
    ensures chk == State(r, x + Zeros())
  {
    chk := reg;
    assert x + Zeros()[..0] == x;
    for i := 0 to 6
      invariant chk == State(r, x + Zeros()[..i])
    {
      AbsorbZero(r, chk);
      AbsorbSnoc(r, x + Zeros()[..i], 0);
      assert x + Zeros()[..i + 1] == x + Zeros()[..i] + [0];
      chk := r.step(chk);
    }
    assert Zeros()[..6] == Zeros();
  }

  // What the buffers must hold once the length test has passed.
  predicate BuffersFit(s: string, ln: bool, hrpLen: nat, dataLen: nat) {
    var sep := LastOne(s);
    LengthOk(|s|, ln) && 1 <= sep && sep + 7 <= |s| ==> sep + 1 <= hrpLen && |s| - sep - 7 <= dataLen
  }

  // The backward scan both decoders start with: the number of characters after the last '1'.
  method CountData(s: string) returns (n: nat)
    ensures n == |s| - 1 - LastOne(s)
  {
    n := 0;
    while n < |s| && s[|s| - 1 - n] != '1'
      invariant n <= |s|
      invariant forall i | |s| - n <= i < |s| :: s[i] != '1'
    {
      n := n + 1;
    }
    if n < |s| { LastOneUnique(s, |s| - 1 - n); }
  }

  // bech32_decode
  method Bech32Decode(r: Reg, hrp: array<char>, data: array<Byte>, s: string, ln: bool)
    returns (ok: bool, dataLen: nat)
    requires BuffersFit(s, ln, hrp.Length, data.Length) && PlainStep(r)
    modifies hrp, data
    ensures ok <==> Decode(r, s, ln).Some?
    ensures ok ==> Delivered(hrp[..], data[..], dataLen, Decode(r, s, ln).value)
  {
    dataLen := 0;
    if ln {
      if |s| < 4 + 1 + 7 + 104 + 6 { return false, dataLen; }
    } else {
      if |s| < 8 || 90 < |s| { return false, dataLen; }
    }
    dataLen := CountData(s);
    if 1 + dataLen >= |s| || dataLen < 6 { return false, dataLen; }
    var hrpLen := |s| - (1 + dataLen);
    dataLen := dataLen - 6;
    var mixed;
    ok, mixed := DecodeBoth(r, hrp, data, s, hrpLen, s[..hrpLen], s[hrpLen + 1..]);
    if mixed { return false, dataLen; }
  }

  // The result is in the buffers: a terminated string, and a number of symbols.
  predicate Delivered(hrp: string, data: seq<Byte>, dataLen: nat, out: (string, seq<Sym>)) {
    && dataLen == |out.1| <= |data| && data[..dataLen] == Bytes(out.1)
    && |out.0| < |hrp| && hrp[..|out.0| + 1] == out.0 + [NUL]
  }

  // The passes over both parts and the last tests.
  method DecodeBoth(r: Reg, hrp: array<char>, data: array<Byte>, s: string, hrpLen: nat,
                    ghost h: string, ghost t: string)
    returns (ok: bool, mixed: bool)
    requires hrpLen < hrp.Length && hrpLen + 7 <= |s| && |s| - hrpLen - 7 <= data.Length
    requires s[hrpLen] == '1' && PlainStep(r) && h == s[..hrpLen] && t == s[hrpLen + 1..]
    modifies hrp, data
    ensures !mixed ==> (ok <==> DecodePieces(r, h, t).Some? && !MixedCase(s))
    ensures mixed ==> MixedCase(s)
    ensures ok && !mixed ==> Delivered(hrp[..], data[..], |t| - 6, DecodePieces(r, h, t).value)
  {
    var chk, lower, upper;
    mixed := false;
    ok, chk, lower, upper := DecodeHrp(r, hrp, s, hrpLen, h);
    if !ok { return; }
    ghost var cells := hrp[..hrpLen + 1];
    ok, chk, lower, upper := DecodeData(r, data, s, hrpLen, chk, lower, upper, Expand(LowerAll(h)), t);
    assert hrp[..hrpLen + 1] == cells;
    if !ok { return; }
    SeenIsExists(s, |s|);
    mixed := lower && upper;
    ok := chk == 1;
  }

  // The two flags of the decoder, as functions of the first n characters.
  predicate SeenLower(s: string, n: nat)
    requires n <= |s|
  {
    n > 0 && (SeenLower(s, n - 1) || IsLower(s[n - 1]))
  }

  predicate SeenUpper(s: string, n: nat)
    requires n <= |s|
  {
    n > 0 && (SeenUpper(s, n - 1) || IsUpper(s[n - 1]))
  }

  lemma {:induction false} SeenIsExists(s: string, n: nat)
    requires n <= |s|
    ensures SeenLower(s, n) <==> exists i | 0 <= i < n :: IsLower(s[i])
    ensures SeenUpper(s, n) <==> exists i | 0 <= i < n :: IsUpper(s[i])
  {
    if n > 0 {
      SeenIsExists(s, n - 1);
    }
  }

  // The two passes over the human readable part h.
  method DecodeHrp(r: Reg, hrp: array<char>, s: string, hrpLen: nat, ghost h: string)
    returns (ok: bool, chk: bv32, lower: bool, upper: bool)
    requires hrpLen <= |s| && hrpLen < hrp.Length && PlainStep(r) && h == s[..hrpLen]
    modifies hrp
    ensures ok <==> GoodHrp(h)
    ensures ok ==> hrp[..hrpLen + 1] == LowerAll(h) + [NUL]
    ensures ok ==> chk == State(r, Expand(LowerAll(h)))
    ensures ok ==> lower == SeenLower(s, hrpLen) && upper == SeenUpper(s, hrpLen)
  {
    ghost var low := LowerAll(h);
    ok, chk, lower, upper := HrpLoop(r, hrp, s, hrpLen, low, HiPart(low));
    if !ok { return; }
    hrp[hrpLen] := NUL;
    Terminated(hrp[..hrpLen + 1], low);
    HiFed(r, HiPart(low));
    chk := DecodeLow(r, s, hrpLen, chk, h);
  }

  method HrpLoop(r: Reg, hrp: array<char>, s: string, hrpLen: nat, ghost low: string, ghost hi: seq<Sym>)
    returns (ok: bool, chk: bv32, lower: bool, upper: bool)
    requires hrpLen == |low| == |hi| <= |s| && hrpLen < hrp.Length
    requires forall k | 0 <= k < hrpLen :: low[k] == Lower(s[k]) && hi[k] == Hi(low[k])
    modifies hrp
    ensures ok <==> forall k | 0 <= k < hrpLen :: HrpChar(s[k])
    ensures ok ==> forall k | 0 <= k < hrpLen :: hrp[k] == low[k]
    ensures ok ==> chk == Fed(r, 1, hi, hrpLen)
    ensures ok ==> lower == SeenLower(s, hrpLen) && upper == SeenUpper(s, hrpLen)
  {
    chk, lower, upper := 1, false, false;
    var i := 0;
    while i < hrpLen
      invariant i <= hrpLen
      invariant forall k | 0 <= k < i :: HrpChar(s[k])
      invariant forall k | 0 <= k < i :: hrp[k] == low[k]
      invariant chk == Fed(r, 1, hi, i)
      invariant lower == SeenLower(s, i) && upper == SeenUpper(s, i)
    {
      if !HrpChar(s[i]) {
        return false, chk, lower, upper;
      }
      var ch;
      ch, lower, upper := CaseStep(s, i, lower, upper);
      hrp[i] := ch;
      chk := Absorbed(r, chk, Hi(ch));
      i := i + 1;
    }
    ok := true;
  }

  lemma Terminated(cells: string, text: string)
    requires |cells| == |text| + 1 && cells[|text|] == NUL
    requires forall k | 0 <= k < |text| :: cells[k] == text[k]
    ensures cells == text + [NUL]
  {
  }

  method DecodeLow(r: Reg, s: string, hrpLen: nat, start: bv32, ghost h: string) returns (chk: bv32)
    requires hrpLen <= |s| && h == s[..hrpLen] && PlainStep(r)
    requires start == State(r, HiPart(LowerAll(h)))
    ensures chk == State(r, Expand(LowerAll(h)))
  {
    ghost var hi, lo := HiPart(LowerAll(h)), LoPart(LowerAll(h));
    AbsorbZero(r, start);
    AbsorbSnoc(r, hi, 0);
    chk := r.step(start);
    LoCells(s, h, lo);
    chk := LowLoop(r, s, hrpLen, chk, lo);
    FedAll(r, hi + [0], lo);
  }

  lemma LoCells(s: string, h: string, lo: seq<Sym>)
    requires |h| <= |s| && h == s[..|h|] && lo == LoPart(LowerAll(h))
    ensures forall k | 0 <= k < |h| :: lo[k] == Lo(s[k])
  {
    forall k | 0 <= k < |h| ensures lo[k] == Lo(s[k]) { LoIgnoresCase(s[k]); }
  }

  method LowLoop(r: Reg, s: string, hrpLen: nat, start: bv32, ghost lo: seq<Sym>) returns (chk: bv32)
    requires hrpLen == |lo| <= |s| && forall k | 0 <= k < hrpLen :: lo[k] == Lo(s[k])
    ensures chk == Fed(r, start, lo, hrpLen)
  {
    chk := start;
    var i := 0;
    while i < hrpLen
      invariant i <= hrpLen && chk == Fed(r, start, lo, i)
    {
      chk := Absorbed(r, chk, Lo(s[i]));
      i := i + 1;
    }
  }

  lemma LoIgnoresCase(c: char)
    ensures Lo(Lower(c)) == Lo(c)
  {
  }

  // What the table gives for each character of the data part.
  ghost function Revs(t: string): (revs: seq<int>)
    ensures |revs| == |t|
  {
    seq(|t|, k requires 0 <= k < |t| => CharsetRev(t[k]))
  }

  // The same as symbols, whatever is not in the alphabet counting as zero.
  ghost function SymbolsOfRevs(revs: seq<int>): (vs: seq<Sym>)
    ensures |vs| == |revs|
  {
    seq(|revs|, k requires 0 <= k < |revs| => if 0 <= revs[k] < 32 then revs[k] as Sym else 0)
  }

  lemma RevsAreValues(t: string)
    ensures InCharset(t) <==> forall k | 0 <= k < |t| :: Revs(t)[k] != -1
    ensures InCharset(t) ==> SymbolsOfRevs(Revs(t)) == Values(t)
  {
    if InCharset(t) {
      forall k | 0 <= k < |t| ensures SymbolsOfRevs(Revs(t))[k] == Values(t)[k] {
        CharsetCanonical(t[k]);
      }
    }
    forall k | 0 <= k < |t| ensures Revs(t)[k] == CharsetRev(t[k]) {}
  }

  // The loop over the data part t; the last six symbols are only checked.
  method DecodeData(r: Reg, data: array<Byte>, s: string, hrpLen: nat, chk0: bv32, lower0: bool, upper0: bool,
                    ghost x: seq<Sym>, ghost t: string)
    returns (ok: bool, chk: bv32, lower: bool, upper: bool)
    requires hrpLen + 7 <= |s| && |s| - hrpLen - 7 <= data.Length && s[hrpLen] == '1'
    requires t == s[hrpLen + 1..] && chk0 == State(r, x)
    requires lower0 == SeenLower(s, hrpLen) && upper0 == SeenUpper(s, hrpLen)
    modifies data
    ensures ok <==> InCharset(t)
    ensures ok ==> chk == State(r, x + Values(t))
    ensures ok ==> lower == SeenLower(s, |s|) && upper == SeenUpper(s, |s|)
    ensures ok ==> data[..|t| - 6] == Bytes(Values(t)[..|t| - 6])
  {
    ghost var revs := Revs(t);
    RevsHold(s, hrpLen + 1, t, 0);
    ok, chk, lower, upper := DataLoop(r, data, s, hrpLen, chk0, lower0, upper0, revs, SymbolsOfRevs(revs));
    AllFoundIs(revs, |revs|);
    RevsAreValues(t);
    if ok {
      FedAll(r, x, SymbolsOfRevs(revs));
      CellsAreBytes(data[..|t| - 6], Values(t)[..|t| - 6]);
    }
  }

  lemma CellsAreBytes(d: seq<Byte>, vs: seq<Sym>)
    requires |d| == |vs| && forall k | 0 <= k < |d| :: d[k] == vs[k] as int
    ensures d == Bytes(vs)
  {
  }

  method DataLoop(r: Reg, data: array<Byte>, s: string, hrpLen: nat, chk0: bv32, lower0: bool, upper0: bool,
                  ghost revs: seq<int>, ghost vs: seq<Sym>)
    returns (ok: bool, chk: bv32, lower: bool, upper: bool)
    requires hrpLen + 7 <= |s| && |s| - hrpLen - 7 <= data.Length && s[hrpLen] == '1'
    requires |vs| == |revs| == |s| - hrpLen - 1 && RevsFrom(s, hrpLen + 1, revs, vs, 0)
    requires lower0 == SeenLower(s, hrpLen) && upper0 == SeenUpper(s, hrpLen)
    modifies data
    ensures ok <==> AllFound(revs, |revs|)
    ensures ok ==> chk == Fed(r, chk0, vs, |vs|)
    ensures ok ==> lower == SeenLower(s, |s|) && upper == SeenUpper(s, |s|)
    ensures ok ==> forall k | 0 <= k < |vs| - 6 :: data[k] == vs[k] as int
  {
    chk, lower, upper := chk0, lower0, upper0;
    var i := hrpLen + 1;
    ghost var j := 0;
    while i < |s|
      invariant j <= |revs| && i == hrpLen + 1 + j && RevsFrom(s, hrpLen + 1, revs, vs, j)
      invariant AllFound(revs, j)
      invariant lower == SeenLower(s, i) && upper == SeenUpper(s, i)
      invariant chk == Fed(r, chk0, vs, j)
      invariant forall k | 0 <= k < j && k + 6 < |vs| :: data[k] == vs[k] as int
    {
      var v := LookUp(s, i, hrpLen + 1, revs, vs, j);
      var _, low, up := CaseStep(s, i, lower, upper);
      lower, upper := low, up;
      if v == -1 {
        NotAllFound(revs, j, |revs|);
        return false, chk, lower, upper;
      }
      chk := Absorbed(r, chk, v as Sym);
      if i + 6 < |s| {
        StoreSymbol(data, i - (1 + hrpLen), v, vs);
      }
      i, j := i + 1, j + 1;
    }
    ok := true;
  }

  method StoreSymbol(data: array<Byte>, j: nat, v: Byte, ghost vs: seq<Sym>)
    requires j < data.Length && j < |vs| && v == vs[j] as int
    requires forall k | 0 <= k < j :: data[k] == vs[k] as int
    modifies data
    ensures forall k | 0 <= k <= j :: data[k] == vs[k] as int
  {
    data[j] := v;
  }

  // The first n characters are all in the alphabet.
  ghost predicate AllFound(revs: seq<int>, n: nat)
    requires n <= |revs|
  {
    n > 0 ==> AllFound(revs, n - 1) && revs[n - 1] != -1
  }

  lemma {:induction false} NotAllFound(revs: seq<int>, j: nat, n: nat)
    requires j < n <= |revs| && revs[j] == -1
    ensures !AllFound(revs, n)
  {
    if j < n - 1 { NotAllFound(revs, j, n - 1); }
  }

  lemma {:induction false} AllFoundIs(revs: seq<int>, n: nat)
    requires n <= |revs|
    ensures AllFound(revs, n) <==> forall k | 0 <= k < n :: revs[k] != -1
  {
    if n > 0 { AllFoundIs(revs, n - 1); }
  }

  // revs and vs are what the table gives for the characters of s from at + j on.
  ghost predicate RevsFrom(s: string, at: nat, revs: seq<int>, vs: seq<Sym>, j: nat)
    requires j <= |revs| == |vs| && at + |revs| <= |s|
    decreases |revs| - j
  {
    j < |revs| ==>
      && revs[j] == CharsetRev(s[at + j]) && (revs[j] != -1 ==> revs[j] == vs[j] as int)
      && RevsFrom(s, at, revs, vs, j + 1)
  }

  lemma {:induction false} RevsHold(s: string, at: nat, t: string, j: nat)
    requires at <= |s| && t == s[at..] && j <= |t|
    ensures RevsFrom(s, at, Revs(t), SymbolsOfRevs(Revs(t)), j)
    decreases |t| - j
  {
    if j < |t| {
      CharsetCanonical(t[j]);
      RevsHold(s, at, t, j + 1);
    }
  }

  // The table at character i of the string, the one at + j.
  method LookUp(s: string, i: nat, ghost at: nat, ghost revs: seq<int>, ghost vs: seq<Sym>, ghost j: nat)
    returns (v: int)
    requires j < |revs| == |vs| && at + |revs| <= |s| && i == at + j && RevsFrom(s, at, revs, vs, j)
    ensures v == revs[j] && -1 <= v < 32 && (v != -1 ==> vs[j] as int == v)
    ensures RevsFrom(s, at, revs, vs, j + 1)
  {
    CharsetCanonical(s[i]);
    v := CharsetRev(s[i]);
  }

  // The flags after one more character, and its lower case.
  method CaseStep(s: string, i: nat, lower0: bool, upper0: bool) returns (ch: char, lower: bool, upper: bool)
    requires i < |s| && lower0 == SeenLower(s, i) && upper0 == SeenUpper(s, i)
    ensures ch == Lower(s[i]) && lower == SeenLower(s, i + 1) && upper == SeenUpper(s, i + 1)
  {
    ch, lower, upper := s[i], lower0, upper0;
    if IsLower(ch) {
      lower := true;
    } else if IsUpper(ch) {
      upper := true;
      ch := (ch as int - 'A' as int + 'a' as int) as char;
    }
  }

  // ---------- the size-checking wrappers of btc/btc_segwit_addr.c ----------

  // btc_bech32_encode
  method BtcBech32Encode(r: Reg, output: array<char>, hrp: string, data: seq<Byte>, ln: bool) returns (ok: bool)
    requires PlainStep(r)
    modifies output
    ensures ok <==> hrp != [] && |hrp| + |data| + 8 <= output.Length && Encode(r, hrp, data, ln).Some?
    ensures ok ==> output[..|hrp| + |data| + 8] == Encode(r, hrp, data, ln).value + [NUL]
  {
    if |hrp| == 0 { return false; }
    if output.Length < |hrp| + |data| + 8 { return false; }
    ok := Bech32Encode(r, output, hrp, data, ln);
  }

  // btc_bech32_decode: any string may be passed with any buffers.
  method BtcBech32Decode(r: Reg, hrp: array<char>, data: array<Byte>, s: string, ln: bool)
    returns (ok: bool, dataLen: nat)
    requires PlainStep(r)
    modifies hrp, data
    ensures ok <==> Decode(r, s, ln).Some? && |Decode(r, s, ln).value.0| + 1 <= hrp.Length
                    && |Decode(r, s, ln).value.1| <= data.Length
    ensures ok ==> dataLen == |Decode(r, s, ln).value.1|
    ensures ok ==> data[..dataLen] == Bytes(Decode(r, s, ln).value.1)
    ensures ok ==> hrp[..|Decode(r, s, ln).value.0| + 1] == Decode(r, s, ln).value.0 + [NUL]
  {
    dataLen := 0;
    var n := CountData(s);
    if 1 + n >= |s| || n < 6 { return false, dataLen; }
    var hrpLen := |s| - (1 + n);
    if hrp.Length < hrpLen + 1 { return false, dataLen; }
    if data.Length < n - 6 { return false, dataLen; }
    ok, dataLen := Bech32Decode(r, hrp, data, s, ln);
  }
}
