// Two test vectors of BIP 173, worked out for the register of btc/segwit_addr.c. They fix what no
// round trip sees: the constants of the polynomial, the start value and the target, the alphabet
// and its order, and how the human readable part enters the checksum.
module Bech32Vectors {
  import opened Basics
  import opened LinearRegister
  import opened Bech32
  import opened Polymod

  predicate Follows(x: bv32, v: Sym, y: bv32) {
    Xor(PolymodStep(x), Word(v)) == y
  }

  lemma {:induction false} Feeds(xs: seq<bv32>, vs: seq<Sym>)
    requires |xs| == |vs| + 1 && forall i | 0 <= i < |vs| :: Follows(xs[i], vs[i], xs[i + 1])
    ensures Run(Bech32Register(), xs[0], vs) == xs[|vs|]
    decreases |vs|
  {
    if vs != [] {
      Feeds(xs[..|vs|], vs[..|vs| - 1]);
      assert Follows(xs[|vs| - 1], vs[|vs| - 1], xs[|vs|]);
    }
  }

  lemma ShortState()
    ensures State(Bech32Register(), [3, 0, 1, 10, 28, 25, 31, 20, 31]) == 1
  {
    Feeds([0x1, 0x23, 0x460, 0x8c01, 0x11802a, 0x230055c, 0x3d6afc2b, 0x2f84386, 0x24622766, 0x1],
          [3, 0, 1, 10, 28, 25, 31, 20, 31]);
  }

  lemma ShortFramed()
    ensures LastOne("A12UEL5L") == 1 && Framed("A12UEL5L", false)
  {
    LastOneUnique("A12UEL5L", 1);
  }

  lemma ShortValues()
    ensures InCharset("2UEL5L") && Values("2UEL5L") == [10, 28, 25, 31, 20, 31]
  {
  }

  lemma ShortDecoded()
    ensures Decode(Bech32Register(), "A12UEL5L", false) == Some(("a", []))
  {
    var s, t := "A12UEL5L", "2UEL5L";
    ShortFramed();
    assert s[..1] == "A" && s[2..] == t;
    assert LowerAll("A") == "a";
    assert Expand("a") == [3, 0, 1];
    ShortValues();
    assert [3, 0, 1] + [10, 28, 25, 31, 20, 31] == [3, 0, 1, 10, 28, 25, 31, 20, 31];
    ShortState();
  }

  function AllValues(): (s: seq<Sym>)
    ensures |s| == 32
  {
    seq(32, i requires 0 <= i < 32 => i as Sym)
  }

  lemma Joined(x: bv32, us: seq<Sym>, y: bv32, vs: seq<Sym>, z: bv32)
    requires Run(Bech32Register(), x, us) == y && Run(Bech32Register(), y, vs) == z
    ensures Run(Bech32Register(), x, us + vs) == z
  {
    RunConcat(Bech32Register(), x, us, vs);
  }

  lemma HighBits()
    ensures Run(Bech32Register(), 0x1, [3, 3, 3, 3, 3, 3, 0]) == 0x4dcbcd9
  {
    Feeds([0x1, 0x23, 0x463, 0x8c63, 0x118c63, 0x2318c63, 0x3d5bdbd1, 0x4dcbcd9],
          [3, 3, 3, 3, 3, 3, 0]);
  }

  lemma LowBits()
    ensures Run(Bech32Register(), 0x4dcbcd9, [1, 2, 3, 4, 5, 6]) == 0x3be80e6a
  {
    Feeds([0x4dcbcd9, 0x3dc7154c, 0x17456f7b, 0x8d50561, 0x401b5de, 0x266635a8, 0x3be80e6a],
          [1, 2, 3, 4, 5, 6]);
  }

  lemma Values0()
    ensures Run(Bech32Register(), 0x3be80e6a, [0, 1, 2, 3, 4, 5]) == 0x2fd98d2c
  {
    Feeds([0x3be80e6a, 0xf9cd266, 0x30018ce4, 0x1767cdec, 0xc815781, 0x28db67b3, 0x2fd98d2c],
          [0, 1, 2, 3, 4, 5]);
  }

  lemma Values6()
    ensures Run(Bech32Register(), 0x2fd98d2c, [6, 7, 8, 9, 10, 11]) == 0x2f8ccedd
  {
    Feeds([0x2fd98d2c, 0x12be0710, 0x11e88668, 0x52fed5, 0xa5fdaa9, 0x2e301b62, 0x2f8ccedd],
          [6, 7, 8, 9, 10, 11]);
  }

  lemma Values12()
    ensures Run(Bech32Register(), 0x2f8ccedd, [12, 13, 14, 15, 16, 17]) == 0xe08010d
  {
    Feeds([0x2f8ccedd, 0x1816793a, 0x212c0d6a, 0xf95cffd, 0x31223f8a, 0x3311a03e, 0xe08010d],
          [12, 13, 14, 15, 16, 17]);
  }

  lemma Values18()
    ensures Run(Bech32Register(), 0xe08010d, [18, 19, 20, 21, 22, 23, 24]) == 0x1b3c6751
  {
    Feeds([0xe08010d, 0x29be197, 0x28166541, 0x3679d37d, 0x556e704, 0xc8c6efb, 0x297c48e0, 0x1b3c6751],
          [18, 19, 20, 21, 22, 23, 24]);
  }

  lemma Values25()
    ensures Run(Bech32Register(), 0x1b3c6751, [25, 26, 27, 28, 29, 30, 31]) == 0x1a0d3656
  {
    Feeds([0x1b3c6751, 0x3f0597ac, 0x347f64d1, 0x3eea4538, 0x9853657, 0x2e07d307, 0x2975c268, 0x1a0d3656],
          [25, 26, 27, 28, 29, 30, 31]);
  }

  lemma ChecksumValues()
    ensures Run(Bech32Register(), 0x1a0d3656, [27, 0, 0, 0, 6, 14]) == 0x1
  {
    Feeds([0x1a0d3656, 0x192fb74e, 0x615c3e7, 0x1f82a53f, 0xe8d5418, 0x12314323, 0x1],
          [27, 0, 0, 0, 6, 14]);
  }

  lemma PartOfAlphabet()
    ensures State(Bech32Register(), Expand("abcdef")) == 0x3be80e6a
  {
    HighBits();
    LowBits();
    Joined(0x1, [3, 3, 3, 3, 3, 3, 0], 0x4dcbcd9, [1, 2, 3, 4, 5, 6], 0x3be80e6a);
    ExpandedAlphabetPart();
  }

  lemma ExpandedAlphabetPart()
    ensures Expand("abcdef") == [3, 3, 3, 3, 3, 3, 0] + [1, 2, 3, 4, 5, 6]
  {
    assert HiPart("abcdef") == [3, 3, 3, 3, 3, 3];
    assert LoPart("abcdef") == [1, 2, 3, 4, 5, 6];
  }

  lemma AllValuesParts()
    ensures AllValues() ==
            [0, 1, 2, 3, 4, 5] + [6, 7, 8, 9, 10, 11] + [12, 13, 14, 15, 16, 17] +
            [18, 19, 20, 21, 22, 23, 24] + [25, 26, 27, 28, 29, 30, 31]
  {
  }

  lemma ValuesOfAlphabet()
    ensures Run(Bech32Register(), 0x3be80e6a, AllValues()) == 0x1a0d3656
  {
    var a, b, c: seq<Sym> := [0, 1, 2, 3, 4, 5], [6, 7, 8, 9, 10, 11], [12, 13, 14, 15, 16, 17];
    var d, e: seq<Sym> := [18, 19, 20, 21, 22, 23, 24], [25, 26, 27, 28, 29, 30, 31];
    Values0();
    Values6();
    Joined(0x3be80e6a, a, 0x2fd98d2c, b, 0x2f8ccedd);
    Values12();
    Joined(0x3be80e6a, a + b, 0x2f8ccedd, c, 0xe08010d);
    Values18();
    Joined(0x3be80e6a, a + b + c, 0xe08010d, d, 0x1b3c6751);
    Values25();
    Joined(0x3be80e6a, a + b + c + d, 0x1b3c6751, e, 0x1a0d3656);
    AllValuesParts();
  }

  lemma ChecksumOfAlphabet()
    ensures Bech32.Checksum(Bech32Register(), "abcdef", AllValues()) == [27, 0, 0, 0, 6, 14]
  {
    var x := Expand("abcdef");
    PartOfAlphabet();
    ValuesOfAlphabet();
    Joined(1, x, 0x3be80e6a, AllValues(), 0x1a0d3656);
    ChecksumValues();
    Joined(1, x + AllValues(), 0x1a0d3656, [27, 0, 0, 0, 6, 14], 0x1);
    OnlyChecksumVerifies(x + AllValues(), [27, 0, 0, 0, 6, 14]);
  }

  lemma CharsConcat(us: seq<Sym>, vs: seq<Sym>)
    ensures Chars(us + vs) == Chars(us) + Chars(vs)
  {
  }

  lemma Alphabet()
    ensures Chars(AllValues()) == "qpzry9x8gf2tvdw0s3jn54khce6mua7l"
    ensures Chars([27, 0, 0, 0, 6, 14]) == "mqqqxw"
  {
  }

  lemma AllEncoded()
    ensures var data: seq<Byte> := seq(32, i requires 0 <= i < 32 => i);
            Encode(Bech32Register(), "abcdef", data, false) ==
            Some("abcdef" + "1" + "qpzry9x8gf2tvdw0s3jn54khce6mua7l" + "mqqqxw")
  {
    var data: seq<Byte> := seq(32, i requires 0 <= i < 32 => i);
    assert Symbols(data) == AllValues();
    ChecksumOfAlphabet();
    CharsConcat(AllValues(), [27, 0, 0, 0, 6, 14]);
    Alphabet();
    var a := "qpzry9x8gf2tvdw0s3jn54khce6mua7l";
    assert "abcdef" + "1" + (a + "mqqqxw") == "abcdef" + "1" + a + "mqqqxw";
  }
}
