// Which strings bech32_decode accepts, and with what result, said through the encoder alone.
module Bech32Exact {
  import opened Basics
  import opened LinearRegister
  import opened Bech32

  lemma LowerChar(c: char)
    ensures Lower(Lower(c)) == Lower(c) && !IsUpper(Lower(c))
    ensures Lower(c) == '1' <==> c == '1'
    ensures HrpChar(Lower(c)) <==> HrpChar(c)
  {
  }

  lemma LowerString(s: string)
    ensures LowerAll(LowerAll(s)) == LowerAll(s) && !MixedCase(LowerAll(s))
    ensures GoodHrp(LowerAll(s)) <==> GoodHrp(s)
  {
    var l := LowerAll(s);
    forall i | 0 <= i < |s| ensures Lower(l[i]) == l[i] && !IsUpper(l[i]) && (HrpChar(l[i]) <==> HrpChar(s[i])) {
      LowerChar(s[i]);
    }
    if GoodHrp(l) {
      forall i | 0 <= i < |s| ensures HrpChar(s[i]) { assert HrpChar(l[i]); }
    }
  }

  lemma LowerValues(s: string)
    ensures InCharset(LowerAll(s)) <==> InCharset(s)
    ensures InCharset(s) ==> Values(LowerAll(s)) == Values(s)
  {
    var l := LowerAll(s);
    forall i | 0 <= i < |s| ensures CharsetRev(l[i]) == CharsetRev(s[i]) { CharsetCanonical(s[i]); }
    if InCharset(l) {
      forall i | 0 <= i < |s| ensures CharsetRev(s[i]) != -1 { assert CharsetRev(l[i]) != -1; }
    }
  }

  lemma LowerLastOne(s: string)
    ensures LastOne(LowerAll(s)) == LastOne(s)
  {
    var l, i := LowerAll(s), LastOne(s);
    forall k | 0 <= k < |s| ensures l[k] == '1' <==> s[k] == '1' { LowerChar(s[k]); }
    if i >= 0 { LastOneUnique(l, i); }
  }

  lemma LowerPieces(r: Reg, h: string, t: string)
    requires |t| >= 6
    ensures DecodePieces(r, LowerAll(h), LowerAll(t)) == DecodePieces(r, h, t)
  {
    LowerString(h);
    LowerValues(t);
  }

  lemma LowerSlices(s: string, i: nat)
    requires i < |s|
    ensures LowerAll(s)[..i] == LowerAll(s[..i]) && LowerAll(s)[i + 1..] == LowerAll(s[i + 1..])
  {
  }

  lemma LowerFramed(s: string, ln: bool)
    requires !MixedCase(s)
    ensures LastOne(LowerAll(s)) == LastOne(s) && (Framed(LowerAll(s), ln) <==> Framed(s, ln))
  {
    LowerLastOne(s);
    LowerString(s);
  }

  // A string in one case is decoded like its lower case.
  lemma DecodeLower(r: Reg, s: string, ln: bool)
    requires !MixedCase(s)
    ensures Decode(r, LowerAll(s), ln) == Decode(r, s, ln)
  {
    LowerFramed(s, ln);
    if Framed(s, ln) {
      var i := LastOne(s);
      var h, t := s[..i], s[i + 1..];
      LowerSlices(s, i);
      FramedPieces(r, s, ln, i, h, t);
      FramedPieces(r, LowerAll(s), ln, i, LowerAll(h), LowerAll(t));
      LowerPieces(r, h, t);
    }
  }

  lemma FramedPieces(r: Reg, s: string, ln: bool, i: nat, h: string, t: string)
    requires Framed(s, ln) && LastOne(s) == i && h == s[..i] && t == s[i + 1..]
    ensures |t| >= 6 && Decode(r, s, ln) == DecodePieces(r, h, t)
  {
  }

  // A string is accepted as h and vs exactly if its lower case is their encoding, h is not empty,
  // an invoice has at least 122 characters, and the string does not mix cases.
  lemma AcceptedExactly(r: Reg, s: string, ln: bool, h: string, vs: seq<Sym>)
    requires Sound(r)
    ensures Decode(r, s, ln) == Some((h, vs)) <==>
            && Encode(r, h, Bytes(vs), ln) == Some(LowerAll(s)) && h != [] && (ln ==> 122 <= |s|)
            && !((exists i | 0 <= i < |s| :: 'a' <= s[i] <= 'z') && (exists i | 0 <= i < |s| :: 'A' <= s[i] <= 'Z'))
  {
    if Decode(r, s, ln) == Some((h, vs)) {
      DecodeThenEncode(r, s, ln);
      NotMixed(s);
    }
    if Encode(r, h, Bytes(vs), ln) == Some(LowerAll(s)) && !MixedCase(s) {
      EncodeThenDecode(r, h, Bytes(vs), ln);
      DecodeLower(r, s, ln);
    }
    NotMixed(s);
  }

  lemma NotMixed(s: string)
    ensures MixedCase(s) <==>
            (exists i | 0 <= i < |s| :: 'a' <= s[i] <= 'z') && (exists i | 0 <= i < |s| :: 'A' <= s[i] <= 'Z')
  {
    if i :| 0 <= i < |s| && 'a' <= s[i] <= 'z' { assert IsLower(s[i]); }
    if i :| 0 <= i < |s| && 'A' <= s[i] <= 'Z' { assert IsUpper(s[i]); }
  }
}
