// The checksum covers the human readable part: a string whose part is exchanged for another one is
// rejected.
module Bech32Prefix {
  import opened Basics
  import opened LinearRegister
  import opened Bech32

  // ---------- the symbols of a human readable part determine it ----------

  lemma CharOfParts(c: char, d: char)
    requires HrpChar(c) && HrpChar(d) && Hi(c) == Hi(d) && Lo(c) == Lo(d)
    ensures c == d
  {
    assert c as int == c as int / 32 * 32 + c as int % 32;
    assert d as int == d as int / 32 * 32 + d as int % 32;
  }

  lemma ExpandedAt(h: string, k: nat)
    requires k < |h|
    ensures Expand(h)[k] == Hi(h[k]) && Expand(h)[|h| + 1 + k] == Lo(h[k])
  {
  }

  lemma ExpandInjective(h: string, g: string)
    requires GoodHrp(h) && GoodHrp(g) && Expand(h) == Expand(g)
    ensures h == g
  {
    assert |h| == |g|;
    forall k | 0 <= k < |h| ensures h[k] == g[k] {
      ExpandedAt(h, k);
      ExpandedAt(g, k);
      CharOfParts(h[k], g[k]);
    }
  }

  // ---------- which changes show ----------

  // h and g differ only in the n characters from i on, and there in the low five bits of at most
  // six, or the part is so short that all symbols between fit into six.
  predicate NearParts(h: string, g: string, i: nat, n: nat) {
    && |h| == |g| && i + n <= |h|
    && (forall k | 0 <= k < |h| && !(i <= k < i + n) :: h[k] == g[k])
    && ((n <= 6 && forall k | 0 <= k < |h| :: h[k] as int / 32 == g[k] as int / 32) || |h| + n <= 5)
  }

  // The first symbol of a window that holds every difference of the expanded parts, and its size.
  lemma ExpandedWindow(h: string, g: string, i: nat, n: nat, t: seq<Sym>) returns (a: nat, m: nat)
    requires NearParts(h, g, i, n)
    ensures var us, vs := Expand(h) + t, Expand(g) + t;
            && m <= 6 && a + m <= |us| == |vs| && us[..a] == vs[..a] && us[a + m..] == vs[a + m..]
  {
    if n <= 6 && forall k | 0 <= k < |h| :: h[k] as int / 32 == g[k] as int / 32 {
      a, m := |h| + 1 + i, n;
      assert HiPart(h) == HiPart(g);
      SameHead(h, g, i, t);
    } else {
      a, m := i, |h| + 1 + n;
      assert (Expand(h) + t)[..i] == HiPart(h)[..i] && (Expand(g) + t)[..i] == HiPart(g)[..i];
    }
    assert LoPart(h)[i + n..] == LoPart(g)[i + n..];
    TailOfExpanded(h, i + n, t);
    TailOfExpanded(g, i + n, t);
  }

  lemma SameHead(h: string, g: string, i: nat, t: seq<Sym>)
    requires i <= |h| == |g| && HiPart(h) == HiPart(g) && h[..i] == g[..i]
    ensures (Expand(h) + t)[..|h| + 1 + i] == (Expand(g) + t)[..|h| + 1 + i]
  {
    assert LoPart(h)[..i] == LoPart(h[..i]) && LoPart(g)[..i] == LoPart(g[..i]);
    assert (Expand(h) + t)[..|h| + 1 + i] == HiPart(h) + [0] + LoPart(h)[..i];
    assert (Expand(g) + t)[..|h| + 1 + i] == HiPart(g) + [0] + LoPart(g)[..i];
  }

  lemma TailOfExpanded(h: string, k: nat, t: seq<Sym>)
    requires k <= |h|
    ensures (Expand(h) + t)[|h| + 1 + k..] == LoPart(h)[k..] + t
  {
  }

  lemma NearPartsShow(r: Reg, h: string, g: string, i: nat, n: nat, t: seq<Sym>)
    requires Sound(r) && GoodHrp(h) && GoodHrp(g) && h != g && NearParts(h, g, i, n)
    ensures State(r, Expand(h) + t) != State(r, Expand(g) + t)
  {
    var a, m := ExpandedWindow(h, g, i, n, t);
    if Expand(h) + t == Expand(g) + t {
      SamePrefix(Expand(h), Expand(g), t);
      ExpandInjective(h, g);
    }
    BurstInSymbols(r, [], Expand(h) + t, Expand(g) + t, a, m);
    NothingBefore(Expand(h) + t);
    NothingBefore(Expand(g) + t);
  }

  lemma SamePrefix(x: seq<Sym>, y: seq<Sym>, t: seq<Sym>)
    requires |x| == |y| && x + t == y + t
    ensures x == y
  {
    assert (x + t)[..|x|] == x && (y + t)[..|y|] == y;
  }

  lemma NothingBefore(x: seq<Sym>)
    ensures [] + x == x
  {
  }

  lemma ShortPartsShow(r: Reg, h: string, g: string, t: seq<Sym>)
    requires Sound(r) && GoodHrp(h) && GoodHrp(g) && h != g && |h| <= 2 && |g| <= 2
    ensures State(r, Expand(h) + t) != State(r, Expand(g) + t)
  {
    if Expand(h) == Expand(g) { ExpandInjective(h, g); }
    assert HeadShows(r, Expand(h), Expand(g), t);
  }

  // ---------- strings ----------

  // s with its human readable part exchanged for g.
  function WithPart(s: string, g: string): string
    requires LastOne(s) >= 0
  {
    g + s[LastOne(s)..]
  }

  lemma ExchangedPieces(s: string, g: string) returns (sep: nat, t: string)
    requires LastOne(s) >= 0
    ensures LastOne(s) == sep && t == s[sep + 1..]
    ensures LastOne(WithPart(s, g)) == |g| && g == WithPart(s, g)[..|g|] && t == WithPart(s, g)[|g| + 1..]
  {
    sep := LastOne(s);
    t := s[sep + 1..];
    var w := WithPart(s, g);
    forall j | |g| < j < |w| ensures w[j] != '1' { assert w[j] == s[sep + j - |g|]; }
    LastOneUnique(w, |g|);
  }

  lemma ExchangedRejected(r: Reg, s: string, g: string, ln: bool)
    requires Decode(r, s, ln).Some?
    requires forall t :: GoodHrp(LowerAll(g)) ==>
               State(r, Expand(Decode(r, s, ln).value.0) + t) != State(r, Expand(LowerAll(g)) + t)
    ensures Decode(r, WithPart(s, g), ln).None?
  {
    var sep, t := ExchangedPieces(s, g);
    DecodeAt(r, s, ln, sep, s[..sep], t);
    DecodeAt(r, WithPart(s, g), ln, |g|, g, t);
    if Decode(r, WithPart(s, g), ln).Some? {
      LowerGood(g);
    }
  }

  lemma LowerGood(h: string)
    requires GoodHrp(h)
    ensures GoodHrp(LowerAll(h))
  {
  }

  lemma DecodedPartGood(r: Reg, s: string, ln: bool)
    requires Decode(r, s, ln).Some?
    ensures GoodHrp(Decode(r, s, ln).value.0)
  {
    LowerGood(s[..LastOne(s)]);
  }

  // Exchanging the human readable part for one that differs in the low bits of at most six
  // consecutive characters is detected, whatever its length; so is any change of n characters of a
  // part of at most 5 - n.
  lemma NearPartDetected(r: Reg, s: string, g: string, ln: bool, i: nat, n: nat)
    requires Sound(r) && Decode(r, s, ln).Some?
    requires LowerAll(g) != Decode(r, s, ln).value.0 && NearParts(Decode(r, s, ln).value.0, LowerAll(g), i, n)
    ensures Decode(r, WithPart(s, g), ln).None?
  {
    var h := Decode(r, s, ln).value.0;
    DecodedPartGood(r, s, ln);
    forall t | GoodHrp(LowerAll(g)) ensures State(r, Expand(h) + t) != State(r, Expand(LowerAll(g)) + t) {
      NearPartsShow(r, h, LowerAll(g), i, n, t);
    }
    ExchangedRejected(r, s, g, ln);
  }

  // A part of at most two characters cannot be exchanged for any other such part, shorter or longer.
  lemma ShortPartDetected(r: Reg, s: string, g: string, ln: bool)
    requires Sound(r) && Decode(r, s, ln).Some?
    requires |Decode(r, s, ln).value.0| <= 2 && |g| <= 2 && LowerAll(g) != Decode(r, s, ln).value.0
    ensures Decode(r, WithPart(s, g), ln).None?
  {
    var h := Decode(r, s, ln).value.0;
    DecodedPartGood(r, s, ln);
    forall t | GoodHrp(LowerAll(g)) ensures State(r, Expand(h) + t) != State(r, Expand(LowerAll(g)) + t) {
      ShortPartsShow(r, h, LowerAll(g), t);
    }
    ExchangedRejected(r, s, g, ln);
  }
}
