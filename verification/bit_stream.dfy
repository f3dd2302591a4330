// What regrouping does to the bits: it keeps them, in their order.
module BitStream {
  import opened Basics
  import opened Powers
  import opened BitGroups

  // Bit r of value q, counted from the low end, in the number of the whole list.
  lemma {:induction false} NumberBit(ds: seq<nat>, w: nat, q: nat, r: nat)
    requires Fits(ds, w) && q < |ds| && r < w
    ensures Shr(Number(ds, w), Span(|ds| - 1 - q, w) + r) % 2 == Shr(ds[q], r) % 2
    decreases |ds|
  {
    var k := |ds| - 1;
    var n := Number(ds[..k], w);
    if q == k {
      LowestBit(n, ds[k], w, r);
    } else {
      NumberBit(ds[..k], w, q, r);
      ShiftIn(n, ds[k], Span(k - 1 - q, w) + r, w);
    }
  }

  lemma LowestBit(n: nat, x: nat, w: nat, r: nat)
    requires r < w
    ensures Shr(Shl(n, w) + x, r) % 2 == Shr(x, r) % 2
  {
    var t := n * Pow2(w - 1 - r);
    Pow2Add(w - 1 - r, r + 1);
    assert Pow2(r + 1) == 2 * Pow2(r);
    MulAssociative(n, Pow2(w - 1 - r), 2 * Pow2(r));
    MulAssociative(t, 2, Pow2(r));
    DigitOf(x, t, 2, Pow2(r));
  }

  // Shifting up by p moves every bit, and the p lowest are zero.
  lemma ShiftedBit(n: nat, p: nat, e: nat)
    ensures Shr(Shl(n, p), e) % 2 == if e >= p then Shr(n, e - p) % 2 else 0
  {
    if e >= p {
      ShiftIn(n, 0, e - p, p);
    } else {
      LowestBit(n, 0, p, e);
      ZeroBits(Pow2(e));
    }
  }

  lemma ZeroBits(d: nat)
    requires d > 0
    ensures 0 / d % 2 == 0
  {
    DivModUnique(0, d, 0, 0);
  }

  // Bit i of a list of bytes, counted from the front.
  lemma ByteBit(bs: seq<nat>, i: nat, e: nat)
    requires Fits(bs, 8) && i + e + 1 == 8 * |bs|
    ensures Shr(Number(bs, 8), e) % 2 == Shr(bs[i / 8], 7 - i % 8) % 2
  {
    SpanIs(|bs| - 1 - i / 8, 8);
    NumberBit(bs, 8, i / 8, 7 - i % 8);
  }

  // Bit i of a list of five-bit symbols.
  lemma SymbolBit(vs: seq<nat>, i: nat, e: nat)
    requires Fits(vs, 5) && i + e + 1 == 5 * |vs|
    ensures Shr(Number(vs, 5), e) % 2 == Shr(vs[i / 5], 4 - i % 5) % 2
  {
    SpanIs(|vs| - 1 - i / 5, 5);
    NumberBit(vs, 5, i / 5, 4 - i % 5);
  }

  // Bit i of the padded form, counted from the front, is bit i of the bytes, or zero past their end.
  lemma BitsKept(bs: seq<nat>, i: nat)
    requires Fits(bs, 8) && Convert(bs, 8, 5, true).Some? && i < 5 * |Convert(bs, 8, 5, true).value|
    ensures var vs := Convert(bs, 8, 5, true).value;
            vs[i / 5] / Pow2(4 - i % 5) % 2 == if i < 8 * |bs| then bs[i / 8] / Pow2(7 - i % 8) % 2 else 0
  {
    var p, k := PaddedForm(bs);
    PaddedNumber(bs, p, k);
    SymbolBit(Convert(bs, 8, 5, true).value, i, 5 * k - 1 - i);
    ShiftedBit(Number(bs, 8), p, 5 * k - 1 - i);
    if i < 8 * |bs| { ByteBit(bs, i, 8 * |bs| - 1 - i); }
  }
}
