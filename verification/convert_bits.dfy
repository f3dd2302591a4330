// convert_bits of btc/segwit_addr.c: regrouping a big-endian bit stream from inbits-wide to
// outbits-wide values in a 32-bit accumulator that wraps.
module BitGroups {
  import opened Basics
  import opened Powers
  import opened Bech32

  const WORD: nat := 0x1_0000_0000

  // The number a list of w-bit values spells, most significant first.
  function Number(ds: seq<nat>, w: nat): nat
    decreases |ds|
  {
    if ds == [] then 0 else Shl(Number(ds[..|ds| - 1], w), w) + ds[|ds| - 1]
  }

  // The k low digits of n, w bits each.
  function Digits(n: nat, k: nat, w: nat): (ds: seq<nat>)
    ensures |ds| == k
    decreases k
  {
    if k == 0 then [] else Digits(Shr(n, w), k - 1, w) + [Mask(n, w)]
  }

  predicate Fits(ds: seq<nat>, w: nat) {
    forall i | 0 <= i < |ds| :: ds[i] < Pow2(w)
  }

  // The whole stream as one number, cut into digits. Padding appends zero bits; without padding
  // the bits left over must be zero and fewer than one input value.
  function Convert(ds: seq<nat>, inbits: nat, outbits: nat, pad: bool): Option<seq<nat>>
    requires outbits > 0
  {
    var n, total := Number(ds, inbits), |ds| * inbits;
    var bits := total % outbits;
    if pad then
      if bits == 0 then Some(Digits(n, total / outbits, outbits))
      else Some(Digits(Shl(n, outbits - bits), total / outbits + 1, outbits))
    else if Mask(n, bits) != 0 || bits >= inbits then None
    else Some(Digits(Shr(n, bits), total / outbits, outbits))
  }

  // ---------- arithmetic of the accumulator ----------

  // x enters from the right; the bits above b stay what they were.
  lemma ShiftIn(n: nat, x: nat, b: nat, i: nat)
    requires x < Pow2(i)
    ensures Shr(Shl(n, i) + x, b + i) == Shr(n, b)
  {
    ShlJoin(n, x, i);
    ShrShr(Shl(n, i) + x, i, b);
  }

  lemma ModOfSum(n: nat, x: nat, p: nat, d: nat)
    requires p > 0 && d > 0
    ensures (n % d * p + x) % d == (n * p + x) % d
  {
    var q, r := n / d, n % d;
    assert n == q * d + r;
    assert n * p + x == q * p * d + (r * p + x) by {
      assert (q * d + r) * p == q * d * p + r * p;
      assert q * d * p == q * p * d;
    }
    AddMultiple(r * p + x, q * p, d);
  }

  // Shifting the wrapped accumulator is shifting the whole stream.
  lemma WrapShift(n: nat, x: nat, i: nat)
    ensures (Shl(n % WORD, i) + x) % WORD == (Shl(n, i) + x) % WORD
  {
    ModOfSum(n, x, Pow2(i), WORD);
  }

  // The bits the accumulator still holds are those of the whole stream.
  lemma LowBitsSurvive(n: nat, b: nat, o: nat)
    requires b + o <= 32
    ensures Mask(Shr(n % WORD, b), o) == Mask(Shr(n, b), o)
  {
    Pow2Is32();
    Pow2Add(b, 32 - b);
    Pow2Add(o, 32 - b - o);
    DigitBelow(n, Pow2(b), Pow2(o), Pow2(32 - b - o), WORD);
  }

  lemma Pow2Is32()
    ensures Pow2(32) == WORD
  {
    assert Pow2(8) == 256;
    Pow2Add(8, 8);
    assert Pow2(16) == 0x1_0000;
    Pow2Add(16, 16);
  }

  // ---------- numbers and digits ----------

  // k times w, digit by digit.
  function Span(k: nat, w: nat): nat { if k == 0 then 0 else Span(k - 1, w) + w }

  lemma {:induction false} SpanIs(k: nat, w: nat)
    ensures Span(k, w) == k * w
  {
    if k > 0 {
      SpanIs(k - 1, w);
      assert (k - 1) * w == k * w - w;
    }
  }

  lemma {:induction false} NumberBound(ds: seq<nat>, w: nat)
    requires Fits(ds, w)
    ensures Number(ds, w) < Pow2(Span(|ds|, w))
    decreases |ds|
  {
    if ds != [] {
      var k := |ds| - 1;
      NumberBound(ds[..k], w);
      JoinBound(Number(ds[..k], w), ds[k], Span(k, w), w);
    }
  }

  lemma JoinBound(n: nat, x: nat, a: nat, b: nat)
    requires x < Pow2(b)
    ensures Shl(n, b) + x < Pow2(a + b) <==> n < Pow2(a)
  {
    Pow2Add(a, b);
    if n < Pow2(a) {
      MulMonotone(n + 1, Pow2(a), Pow2(b));
      assert (n + 1) * Pow2(b) == n * Pow2(b) + Pow2(b);
    } else {
      MulMonotone(Pow2(a), n, Pow2(b));
    }
  }

  lemma {:induction false} DigitsOfNumber(ds: seq<nat>, w: nat)
    requires Fits(ds, w)
    ensures Digits(Number(ds, w), |ds|, w) == ds
    decreases |ds|
  {
    if ds != [] {
      var k := |ds| - 1;
      DigitsOfNumber(ds[..k], w);
      ShlJoin(Number(ds[..k], w), ds[k], w);
      assert ds == ds[..k] + [ds[k]];
    }
  }

  lemma ShrBelow(n: nat, e: nat, w: nat)
    requires n < Pow2(e + w)
    ensures Shr(n, w) < Pow2(e)
  {
    ShrMask(n, w);
    JoinBound(Shr(n, w), Mask(n, w), e, w);
  }

  lemma NumberSnoc(ds: seq<nat>, d: nat, w: nat)
    ensures Number(ds + [d], w) == Shl(Number(ds, w), w) + d
  {
    assert (ds + [d])[..|ds|] == ds;
  }

  lemma {:induction false} NumberOfDigits(n: nat, k: nat, w: nat)
    requires n < Pow2(Span(k, w))
    ensures Number(Digits(n, k, w), w) == n && Fits(Digits(n, k, w), w)
    decreases k
  {
    if k > 0 {
      ShrBelow(n, Span(k - 1, w), w);
      ShrMask(n, w);
      NumberOfDigits(Shr(n, w), k - 1, w);
      NumberSnoc(Digits(Shr(n, w), k - 1, w), Mask(n, w), w);
    }
  }

  // ---------- the round trips of the address codec ----------

  lemma PaddedForm(bs: seq<nat>) returns (p: nat, k: nat)
    ensures p < 5 && 5 * k == 8 * |bs| + p
    ensures Convert(bs, 8, 5, true) == Some(Digits(Shl(Number(bs, 8), p), k, 5))
  {
    var bits := 8 * |bs| % 5;
    p := if bits == 0 then 0 else 5 - bits;
    k := 8 * |bs| / 5 + if bits == 0 then 0 else 1;
    ShlZero(Number(bs, 8));
  }

  lemma ShlZero(n: nat)
    ensures Shl(n, 0) == n && Shr(n, 0) == n
  {
    assert Pow2(0) == 1;
  }

  // The padded form spells the bytes' number, shifted.
  lemma PaddedNumber(bs: seq<nat>, p: nat, k: nat)
    requires Fits(bs, 8) && 5 * k == 8 * |bs| + p
    ensures var vs := Digits(Shl(Number(bs, 8), p), k, 5); Fits(vs, 5) && Number(vs, 5) == Shl(Number(bs, 8), p)
  {
    NumberBound(bs, 8);
    SpanIs(|bs|, 8);
    SpanIs(k, 5);
    ShlBound(Number(bs, 8), Span(|bs|, 8), p);
    NumberOfDigits(Shl(Number(bs, 8), p), k, 5);
  }

  lemma Unpadded(vs: seq<nat>, bs: seq<nat>, p: nat)
    requires Fits(bs, 8) && p < 5 && 5 * |vs| == 8 * |bs| + p && Number(vs, 5) == Shl(Number(bs, 8), p)
    ensures Convert(vs, 5, 8, false) == Some(bs)
  {
    Totals(|bs|, |vs|, p);
    ShlJoin(Number(bs, 8), 0, p);
    DigitsOfNumber(bs, 8);
  }

  // Padded 8 to 5, then unpadded 5 to 8, is the identity on bytes of any number.
  lemma PadThenUnpad(bs: seq<nat>)
    requires Fits(bs, 8)
    ensures Convert(bs, 8, 5, true).Some?
    ensures var vs := Convert(bs, 8, 5, true).value;
            Fits(vs, 5) && |vs| == (8 * |bs| + 4) / 5 && Convert(vs, 5, 8, false) == Some(bs)
  {
    var p, k := PaddedForm(bs);
    PaddedNumber(bs, p, k);
    Totals(|bs|, k, p);
    Unpadded(Convert(bs, 8, 5, true).value, bs, p);
  }

  lemma Totals(n: nat, k: nat, p: nat)
    requires p < 5 && 5 * k == 8 * n + p
    ensures k * 5 % 8 == p && k * 5 / 8 == n && k == (8 * n + 4) / 5
  {
  }

  // Whatever the unpadded direction accepts is exactly the padded form of its output.
  lemma UnpadThenPad(vs: seq<nat>)
    requires Fits(vs, 5) && Convert(vs, 5, 8, false).Some?
    ensures var bs := Convert(vs, 5, 8, false).value;
            Fits(bs, 8) && |bs| == 5 * |vs| / 8 && Convert(bs, 8, 5, true) == Some(vs)
  {
    var m, n, q := Number(vs, 5), 5 * |vs| / 8, 5 * |vs| % 8;
    NumberBound(vs, 5);
    SpanIs(|vs|, 5);
    SpanIs(n, 8);
    ShrMask(m, q);
    ShlBound(Shr(m, q), Span(n, 8), q);
    NumberOfDigits(Shr(m, q), n, 8);
    var p, k := PaddedForm(Digits(Shr(m, q), n, 8));
    assert k == |vs| && p == q;
    DigitsOfNumber(vs, 5);
  }

  // ---------- the loop ----------

  // What has been written and what is still in the accumulator after some input.
  ghost predicate LoopState(ds: seq<nat>, inbits: nat, outbits: nat, written: seq<nat>, val: nat, bits: nat) {
    && val == Number(ds, inbits) % WORD
    && |ds| * inbits == |written| * outbits + bits
    && written == Digits(Shr(Number(ds, inbits), bits), |written|, outbits)
  }

  lemma TakeInput(ds: seq<nat>, x: nat, inbits: nat, outbits: nat, written: seq<nat>, val: nat, bits: nat)
    requires LoopState(ds, inbits, outbits, written, val, bits) && x < Pow2(inbits)
    ensures LoopState(ds + [x], inbits, outbits, written, (Shl(val, inbits) + x) % WORD, bits + inbits)
  {
    var n := Number(ds, inbits);
    assert (ds + [x])[..|ds + [x]| - 1] == ds;
    WrapShift(n, x, inbits);
    ShiftIn(n, x, bits, inbits);
    assert (|ds| + 1) * inbits == |ds| * inbits + inbits;
  }

  lemma EmitOutput(ds: seq<nat>, inbits: nat, outbits: nat, written: seq<nat>, val: nat, bits: nat)
    requires LoopState(ds, inbits, outbits, written, val, bits) && outbits <= bits <= 32
    ensures LoopState(ds, inbits, outbits,
                      written + [Mask(Shr(val, bits - outbits), outbits)], val, bits - outbits)
  {
    var n := Number(ds, inbits);
    LowBitsSurvive(n, bits - outbits, outbits);
    ShrShr(n, bits - outbits, outbits);
    assert (|written| + 1) * outbits == |written| * outbits + outbits;
  }

  // The accumulator shifted up into one output value: the bits not yet written, then zeros.
  function Rest(val: nat, bits: nat, outbits: nat): nat
    requires bits <= outbits
  {
    Mask(Shl(val, outbits - bits) % WORD, outbits)
  }

  lemma RestOfStream(n: nat, bits: nat, outbits: nat)
    requires bits < outbits <= 8
    ensures Rest(n % WORD, bits, outbits) == Mask(Shl(n, outbits - bits), outbits)
    ensures Rest(n % WORD, bits, outbits) == 0 <==> Mask(n, bits) == 0
  {
    var s := outbits - bits;
    WrapShift(n, 0, s);
    LowBitsSurvive(Shl(n, s), 0, outbits);
    ShlZero(Shl(n, s));
    ShlZero(Shl(n, s) % WORD);
    MaskShl(n, bits, s);
  }

  lemma MaskShl(n: nat, b: nat, s: nat)
    ensures Mask(Shl(n, s), b + s) == Shl(Mask(n, b), s)
    ensures Shl(Mask(n, b), s) == 0 <==> Mask(n, b) == 0
  {
    Pow2Add(b, s);
    ModScale(n, Pow2(b), Pow2(s));
    if Mask(n, b) > 0 { MulMonotone(1, Mask(n, b), Pow2(s)); }
  }

  lemma PadOutput(ds: seq<nat>, inbits: nat, outbits: nat, written: seq<nat>, val: nat, bits: nat)
    requires LoopState(ds, inbits, outbits, written, val, bits) && 0 < bits < outbits <= 8
    ensures Digits(Shl(Number(ds, inbits), outbits - bits), |written| + 1, outbits)
            == written + [Rest(val, bits, outbits)]
  {
    var n := Number(ds, inbits);
    RestOfStream(n, bits, outbits);
    ShiftIn(n, 0, bits, outbits - bits);
  }

  lemma TotalSplit(total: nat, k: nat, outbits: nat, bits: nat)
    requires bits < outbits && total == k * outbits + bits
    ensures total / outbits == k && total % outbits == bits
  {
    DivModUnique(total, outbits, k, bits);
  }

  // How many values the conversion may write.
  function Room(n: nat, inbits: nat, outbits: nat): nat
    requires outbits > 0
  {
    (n * inbits + outbits - 1) / outbits
  }

  lemma RoomSuffices(total: nat, k: nat, outbits: nat, bits: nat)
    requires outbits > 0 && total >= k * outbits + bits && bits > 0
    ensures k < (total + outbits - 1) / outbits
  {
    var t := total + outbits - 1;
    if t / outbits <= k {
      MulMonotone(t / outbits, k, outbits);
    }
  }

  // convert_bits, writing from position off of the buffer on. Both callers pass an *outlen of 0.
  method ConvertBits(out: array<Byte>, off: nat, outbits: nat, input: seq<nat>, inbits: nat, pad: bool)
    returns (ok: bool, outlen: nat)
    requires 0 < inbits <= 8 && 0 < outbits <= 8 && Fits(input, inbits)
    requires off + Room(|input|, inbits, outbits) <= out.Length
    modifies out
    ensures ok <==> Convert(input, inbits, outbits, pad).Some?
    ensures ok ==> off + outlen <= out.Length
    ensures ok ==> out[off..off + outlen] == Convert(input, inbits, outbits, pad).value
    ensures forall i | 0 <= i < off :: out[i] == old(out[i])
  {
    var val: nat, bits: nat;
    ghost var written: seq<nat>;
    outlen, val, bits, written := TakeAll(out, off, outbits, input, inbits);
    TotalSplit(|input| * inbits, outlen, outbits, bits);
    if pad {
      if bits > 0 {
        PadOutput(input, inbits, outbits, written, val, bits);
        RoomSuffices(|input| * inbits, outlen, outbits, bits);
        outlen := Put(out, off, outlen, Rest(val, bits, outbits), outbits);
      } else {
        ShlZero(Number(input, inbits));
      }
    } else {
      RestOfStream(Number(input, inbits), bits, outbits);
      if Rest(val, bits, outbits) != 0 || bits >= inbits {
        return false, outlen;
      }
    }
    ok := true;
  }

  // The outer loop.
  method TakeAll(out: array<Byte>, off: nat, outbits: nat, input: seq<nat>, inbits: nat)
    returns (outlen: nat, val: nat, bits: nat, ghost written: seq<nat>)
    requires 0 < inbits <= 8 && 0 < outbits <= 8 && Fits(input, inbits)
    requires off + Room(|input|, inbits, outbits) <= out.Length
    modifies out
    ensures bits < outbits && off + outlen <= out.Length && written == out[off..off + outlen]
    ensures LoopState(input, inbits, outbits, written, val, bits)
    ensures forall j | 0 <= j < off :: out[j] == old(out[j])
  {
    val, bits, outlen, written := 0, 0, 0, [];
    var i := 0;
    assert Pow2(0) == 1;
    while i < |input|
      invariant i <= |input| && bits < outbits && off + outlen <= out.Length
      invariant written == out[off..off + outlen]
      invariant LoopState(input[..i], inbits, outbits, written, val, bits)
      invariant forall j | 0 <= j < off :: out[j] == old(out[j])
    {
      TakeInput(input[..i], input[i], inbits, outbits, written, val, bits);
      assert input[..i + 1] == input[..i] + [input[i]];
      val := (Shl(val, inbits) + input[i]) % WORD;
      bits := bits + inbits;
      i := i + 1;
      MulMonotone(i, |input|, inbits);
      outlen, bits, written := EmitAll(out, off, outlen, val, bits, outbits, input[..i], inbits, written,
                                       |input| * inbits);
    }
    assert input[..i] == input;
  }

  // The inner loop: write while the accumulator holds a whole output value.
  method EmitAll(out: array<Byte>, off: nat, n: nat, val: nat, bits0: nat, outbits: nat,
                 ghost ds: seq<nat>, ghost inbits: nat, ghost written0: seq<nat>, ghost total: nat)
    returns (outlen: nat, bits: nat, ghost written: seq<nat>)
    requires 0 < outbits <= 8 && bits0 < 16 && |ds| * inbits <= total
    requires off + (total + outbits - 1) / outbits <= out.Length
    requires off + n <= out.Length && written0 == out[off..off + n]
    requires LoopState(ds, inbits, outbits, written0, val, bits0)
    modifies out
    ensures bits < outbits && off + outlen <= out.Length && written == out[off..off + outlen]
    ensures LoopState(ds, inbits, outbits, written, val, bits)
    ensures forall j | 0 <= j < off :: out[j] == old(out[j])
  {
    outlen, bits, written := n, bits0, written0;
    while bits >= outbits
      invariant bits < 16 && off + outlen <= out.Length
      invariant written == out[off..off + outlen]
      invariant LoopState(ds, inbits, outbits, written, val, bits)
      invariant forall j | 0 <= j < off :: out[j] == old(out[j])
    {
      EmitOutput(ds, inbits, outbits, written, val, bits);
      RoomSuffices(total, outlen, outbits, bits);
      bits := bits - outbits;
      written := written + [Mask(Shr(val, bits), outbits)];
      outlen := Put(out, off, outlen, Mask(Shr(val, bits), outbits), outbits);
    }
  }

  // out[(*outlen)++] = v
  method Put(out: array<Byte>, off: nat, n: nat, v: nat, w: nat) returns (outlen: nat)
    requires off + n < out.Length && v < Pow2(w) && w <= 8
    modifies out
    ensures outlen == n + 1 && out[off..off + outlen] == old(out[off..off + n]) + [v]
    ensures forall i | 0 <= i < off :: out[i] == old(out[i])
  {
    Pow2Monotone(w, 8);
    assert Pow2(8) == 256;
    out[off + n] := v;
    outlen := n + 1;
  }
}
