// The 30-bit Bech32 checksum register of btc/segwit_addr.c as a linear register.
module Polymod {
  import opened LinearRegister
  import opened Bech32

  function Xor(a: bv32, b: bv32): bv32 { a ^ b }

  // One term of the step: the constant c if the bit is set.
  function Tap(bit: bv5, c: bv32): bv32 { (0 - bit as bv32) & c }

  function Taps(a: bv5, b: bv5, c: bv5, d: bv5, e: bv5): bv32 {
    Xor(Xor(Xor(Xor(Tap(a, 0x3b6a57b2), Tap(b, 0x26508e6d)), Tap(c, 0x1ea119fa)), Tap(d, 0x3d4233dd)),
        Tap(e, 0x2a1462b3))
  }

  // The part of the step that depends on the top symbol.
  function Feedback(b: bv5): bv32 {
    Taps((b >> 0) & 1, (b >> 1) & 1, (b >> 2) & 1, (b >> 3) & 1, (b >> 4) & 1)
  }

  function Top(pre: bv32): bv5 { ((pre >> 25) & 31) as bv5 }

  function Shifted(pre: bv32): bv32 { (pre & 0x1FFFFFF) << 5 }

  // bech32_polymod_step
  function PolymodStep(pre: bv32): bv32 {
    Xor(Shifted(pre), Feedback(Top(pre)))
  }

  predicate IsState(x: bv32) { x < 0x4000_0000 }

  function Word(v: Sym): bv32 { (v as bv5) as bv32 }

  // Symbol i of a register, the most significant first: (chk >> ((5 - i) * 5)) & 0x1f.
  function SymbolAt(x: bv32, i: nat): Sym {
    ((Spelled(x, i + 1) & 0x1f) as bv5) as Sym
  }

  // The word that the first n symbols of x spell.
  function Spelled(x: bv32, n: nat): bv32 {
    match n
    case 0 => 0
    case 1 => x >> 25
    case 2 => x >> 20
    case 3 => x >> 15
    case 4 => x >> 10
    case 5 => x >> 5
    case _ => x
  }

  // The words that n symbols can spell.
  predicate FitsSymbols(d: bv32, n: nat) {
    match n
    case 0 => d == 0
    case 1 => d <= 0x1f
    case 2 => d <= 0x3ff
    case 3 => d <= 0x7fff
    case 4 => d <= 0xf_ffff
    case 5 => d <= 0x1ff_ffff
    case _ => true
  }

  function Bech32Register(): Register<bv32> {
    Register(0, Xor, PolymodStep, Word, IsState, FitsSymbols, Spelled, SymbolAt)
  }

  // ---------- facts about one word ----------

  lemma XorAssociative(a: bv32, b: bv32, c: bv32)
    ensures Xor(Xor(a, b), c) == Xor(a, Xor(b, c))
  {
  }

  lemma XorCommutes(a: bv32, b: bv32)
    ensures Xor(a, b) == Xor(b, a)
  {
  }

  lemma XorSwap(a: bv32, b: bv32, c: bv32, d: bv32)
    ensures Xor(Xor(a, b), Xor(c, d)) == Xor(Xor(a, c), Xor(b, d))
  {
    XorAssociative(a, b, Xor(c, d));
    XorAssociative(b, c, d);
    XorCommutes(b, c);
    XorAssociative(c, b, d);
    XorAssociative(a, c, Xor(b, d));
  }

  lemma XorZero(a: bv32, b: bv32)
    ensures Xor(a, b) == 0 <==> a == b
  {
    XorUnit(a);
    XorUnit(b);
    XorSelf(a);
    XorAssociative(a, a, b);
  }

  lemma XorSelf(a: bv32)
    ensures Xor(a, a) == 0
  {
  }

  lemma XorUnit(a: bv32)
    ensures Xor(a, 0) == a && Xor(0, a) == a
  {
  }

  lemma TapLinear(u: bv5, v: bv5, c: bv32)
    requires u < 2 && v < 2
    ensures Tap(u ^ v, c) == Xor(Tap(u, c), Tap(v, c))
  {
  }

  lemma BitsLinear(x: bv5, y: bv5)
    ensures ((x ^ y) >> 0) & 1 == ((x >> 0) & 1) ^ ((y >> 0) & 1)
    ensures ((x ^ y) >> 1) & 1 == ((x >> 1) & 1) ^ ((y >> 1) & 1)
    ensures ((x ^ y) >> 2) & 1 == ((x >> 2) & 1) ^ ((y >> 2) & 1)
    ensures ((x ^ y) >> 3) & 1 == ((x >> 3) & 1) ^ ((y >> 3) & 1)
    ensures ((x ^ y) >> 4) & 1 == ((x >> 4) & 1) ^ ((y >> 4) & 1)
  {
  }

  lemma FeedbackLinear(x: bv5, y: bv5)
    ensures Feedback(x ^ y) == Xor(Feedback(x), Feedback(y))
  {
    BitsLinear(x, y);
    FiveTaps((x >> 0) & 1, (x >> 1) & 1, (x >> 2) & 1, (x >> 3) & 1, (x >> 4) & 1,
             (y >> 0) & 1, (y >> 1) & 1, (y >> 2) & 1, (y >> 3) & 1, (y >> 4) & 1);
  }

  lemma FiveTaps(a: bv5, b: bv5, c: bv5, d: bv5, e: bv5, a': bv5, b': bv5, c': bv5, d': bv5, e': bv5)
    requires a < 2 && b < 2 && c < 2 && d < 2 && e < 2 && a' < 2 && b' < 2 && c' < 2 && d' < 2 && e' < 2
    ensures Taps(a ^ a', b ^ b', c ^ c', d ^ d', e ^ e') == Xor(Taps(a, b, c, d, e), Taps(a', b', c', d', e'))
  {
    TapLinear(a, a', 0x3b6a57b2);
    TapLinear(b, b', 0x26508e6d);
    TapLinear(c, c', 0x1ea119fa);
    TapLinear(d, d', 0x3d4233dd);
    TapLinear(e, e', 0x2a1462b3);
    FivePairs(Tap(a, 0x3b6a57b2), Tap(b, 0x26508e6d), Tap(c, 0x1ea119fa), Tap(d, 0x3d4233dd), Tap(e, 0x2a1462b3),
              Tap(a', 0x3b6a57b2), Tap(b', 0x26508e6d), Tap(c', 0x1ea119fa), Tap(d', 0x3d4233dd), Tap(e', 0x2a1462b3));
  }

  function Five(a: bv32, b: bv32, c: bv32, d: bv32, e: bv32): bv32 { Xor(Xor(Xor(Xor(a, b), c), d), e) }

  lemma FivePairs(a: bv32, b: bv32, c: bv32, d: bv32, e: bv32, a': bv32, b': bv32, c': bv32, d': bv32, e': bv32)
    ensures Five(Xor(a, a'), Xor(b, b'), Xor(c, c'), Xor(d, d'), Xor(e, e')) ==
            Xor(Five(a, b, c, d, e), Five(a', b', c', d', e'))
  {
    XorSwap(a, a', b, b');
    XorSwap(Xor(a, b), Xor(a', b'), c, c');
    XorSwap(Xor(Xor(a, b), c), Xor(Xor(a', b'), c'), d, d');
    XorSwap(Xor(Xor(Xor(a, b), c), d), Xor(Xor(Xor(a', b'), c'), d'), e, e');
  }

  lemma TopLinear(a: bv32, b: bv32)
    ensures Top(Xor(a, b)) == Top(a) ^ Top(b)
  {
  }

  lemma ShiftedLinear(a: bv32, b: bv32)
    ensures Shifted(Xor(a, b)) == Xor(Shifted(a), Shifted(b))
  {
  }

  lemma StepLinear(a: bv32, b: bv32)
    ensures PolymodStep(Xor(a, b)) == Xor(PolymodStep(a), PolymodStep(b))
  {
    ShiftedLinear(a, b);
    TopLinear(a, b);
    FeedbackLinear(Top(a), Top(b));
    XorSwap(Shifted(a), Shifted(b), Feedback(Top(a)), Feedback(Top(b)));
  }

  lemma StepBound(a: bv32, v: Sym)
    ensures IsState(Xor(PolymodStep(a), Word(v)))
  {
    SymWord(v);
    StepState(a);
    XorState(PolymodStep(a), Word(v));
  }

  lemma StepState(a: bv32)
    ensures IsState(PolymodStep(a))
  {
  }

  lemma XorState(a: bv32, b: bv32)
    requires IsState(a) && IsState(b)
    ensures IsState(Xor(a, b))
  {
  }

  lemma SymWord(v: Sym)
    ensures Word(v) < 32
  {
  }

  lemma SymOfWord(w: bv32)
    ensures Word(((w & 0x1f) as bv5) as Sym) == w & 0x1f
  {
    SymRoundTrip((w & 0x1f) as bv5);
  }

  lemma SymRoundTrip(b: bv5)
    ensures (b as Sym) as bv5 == b
  {
  }

  lemma WordInjective(u: Sym, v: Sym)
    requires Word(u) == Word(v)
    ensures u == v
  {
    assert u as bv5 == v as bv5;
    SymValue(u);
    SymValue(v);
  }

  lemma SymValue(v: Sym)
    ensures (v as bv5) as Sym == v
  {
  }

  lemma StepKernel(a: bv32)
    requires IsState(a) && PolymodStep(a) == 0
    ensures a == 0
  {
  }

  lemma StepInjective(a: bv32, b: bv32)
    requires IsState(a) && IsState(b) && PolymodStep(a) == PolymodStep(b)
    ensures a == b
  {
    StepLinear(a, b);
    XorZero(PolymodStep(a), PolymodStep(b));
    XorState(a, b);
    StepKernel(Xor(a, b));
    XorZero(a, b);
  }

  function Up(d: bv32): bv32 { d << 5 }

  function Down(d: bv32): bv32 { d >> 5 }

  lemma NoFeedback(d: bv32)
    requires d <= 0x1ff_ffff
    ensures PolymodStep(d) == Up(d)
  {
  }

  lemma WordDiff(u: Sym, v: Sym)
    ensures Xor(Word(u), Word(v)) < 32
    ensures Xor(Word(u), Word(v)) == 0 <==> u == v
  {
    SymWord(u);
    SymWord(v);
    XorZero(Word(u), Word(v));
    SmallXor(Word(u), Word(v));
    if Word(u) == Word(v) { WordInjective(u, v); }
  }

  lemma SmallXor(a: bv32, b: bv32)
    requires a < 32 && b < 32
    ensures Xor(a, b) < 32
  {
  }

  lemma ShiftIn(d: bv32, e: bv32, m: bv32, k: bv32)
    requires d <= m && e < 32 && m <= 0x1ff_ffff && k == (m << 5) | 31
    ensures Xor(Up(d), e) <= k
    ensures Xor(Up(d), e) == 0 <==> d == 0 && e == 0
  {
  }

  lemma StepIn(d: bv32, e: bv32, m: bv32, k: bv32)
    requires d <= m && e < 32 && m <= 0x1ff_ffff && k == (m << 5) | 31
    ensures Xor(PolymodStep(d), e) <= k
    ensures Xor(PolymodStep(d), e) == 0 <==> d == 0 && e == 0
  {
    NoFeedback(d);
    ShiftIn(d, e, m, k);
  }

  lemma FitsStep(d: bv32, n: nat, e: bv32)
    requires n < 6 && FitsSymbols(d, n) && e < 32
    ensures FitsSymbols(Xor(PolymodStep(d), e), n + 1)
    ensures Xor(PolymodStep(d), e) == 0 <==> d == 0 && e == 0
  {
    if n == 0 { StepIn(d, e, 0, 0x1f); }
    else if n == 1 { StepIn(d, e, 0x1f, 0x3ff); }
    else if n == 2 { StepIn(d, e, 0x3ff, 0x7fff); }
    else if n == 3 { StepIn(d, e, 0x7fff, 0xf_ffff); }
    else if n == 4 { StepIn(d, e, 0xf_ffff, 0x1ff_ffff); }
    else { StepIn(d, e, 0x1ff_ffff, 0x3fff_ffff); }
  }

  lemma Rejoin(w: bv32)
    ensures Xor(Up(Down(w)), w & 0x1f) == w
  {
  }

  lemma SpelledPrefix(x: bv32, n: nat)
    requires IsState(x) && n < 6
    ensures Spelled(x, n) == Down(Spelled(x, n + 1)) && Spelled(x, n) <= 0x1ff_ffff
  {
    ShiftTwice(x);
  }

  lemma ShiftTwice(x: bv32)
    requires IsState(x)
    ensures Down(x >> 25) == 0 && Down(x >> 20) == x >> 25 && Down(x >> 15) == x >> 20
    ensures Down(x >> 10) == x >> 15 && Down(x >> 5) == x >> 10 && Down(x) == x >> 5
    ensures x >> 5 <= 0x1ff_ffff && x >> 10 <= 0x1ff_ffff && x >> 15 <= 0x1ff_ffff
    ensures x >> 20 <= 0x1ff_ffff && x >> 25 <= 0x1ff_ffff
  {
  }

  lemma SpellStep(x: bv32, n: nat)
    requires IsState(x) && n < 6
    ensures Xor(PolymodStep(Spelled(x, n)), Xor(Word(0), Word(SymbolAt(x, n)))) == Spelled(x, n + 1)
  {
    var w := Spelled(x, n + 1);
    SymOfWord(w);
    WordZero();
    XorUnit(Word(SymbolAt(x, n)));
    SpelledPrefix(x, n);
    NoFeedback(Spelled(x, n));
    Rejoin(w);
  }

  lemma WordZero()
    ensures Word(0) == 0
  {
  }

  // The Bech32 register is a linear register.
  lemma Bech32Laws()
    ensures Laws(Bech32Register())
  {
    SwapHolds();
    ZeroHolds();
    LinearHolds();
    InjectiveHolds();
    BoundHolds();
    WindowHolds();
    SpellHolds();
  }

  // ---------- what the codec relies on ----------

  lemma StateAfterXor(vs: seq<Sym>)
    ensures IsState(Xor(State(Bech32Register(), vs + Zeros()), 1))
  {
    BoundHolds();
    LinearHolds();
    InjectiveHolds();
    RunOk(Bech32Register(), 1, vs + Zeros());
    XorState(State(Bech32Register(), vs + Zeros()), 1);
  }

  lemma ChecksumVerifies(vs: seq<Sym>)
    ensures State(Bech32Register(), vs + ChecksumOf(Bech32Register(), vs)) == 1
  {
    Bech32Laws();
    StateAfterXor(vs);
    ChecksumReaches(Bech32Register(), 1, 1, vs);
  }

  lemma OnlyChecksumVerifies(vs: seq<Sym>, cs: seq<Sym>)
    requires |cs| == 6 && State(Bech32Register(), vs + cs) == 1
    ensures cs == ChecksumOf(Bech32Register(), vs)
  {
    Bech32Laws();
    StateAfterXor(vs);
    ChecksumUnique(Bech32Register(), 1, 1, vs, cs);
  }

  lemma BurstChangesState(pre: seq<Sym>, us: seq<Sym>, vs: seq<Sym>, post: seq<Sym>)
    requires |us| == |vs| <= 6 && us != vs
    ensures State(Bech32Register(), pre + us + post) != State(Bech32Register(), pre + vs + post)
  {
    Bech32Laws();
    BurstChangesRun(Bech32Register(), 1, pre, us, vs, post);
  }

  // The values the register can have n symbols after the start value 1: while nothing is fed back
  // the 1 moves up five bits a symbol.
  predicate StartAt(x: bv32, n: nat) {
    match n
    case 0 => x == 1
    case 1 => 0x20 <= x <= 0x3f
    case 2 => 0x400 <= x <= 0x7ff
    case 3 => 0x8000 <= x <= 0xffff
    case 4 => 0x10_0000 <= x <= 0x1f_ffff
    case _ => 0x200_0000 <= x <= 0x3ff_ffff
  }

  lemma StartBound(d: bv32, n: nat)
    requires n < 5 && StartAt(d, n)
    ensures d <= 0x1ff_ffff
  {
  }

  lemma ShiftedStart(d: bv32, y: bv32, n: nat, e: bv32)
    requires n < 5 && StartAt(d, n) && y == Up(d) && e < 32
    ensures StartAt(Xor(y, e), n + 1)
  {
  }

  lemma StartStep(d: bv32, n: nat, e: bv32)
    requires n < 5 && StartAt(d, n) && e < 32
    ensures StartAt(Xor(PolymodStep(d), e), n + 1)
  {
    StartBound(d, n);
    NoFeedback(d);
    ShiftedStart(d, PolymodStep(d), n, e);
  }

  lemma {:induction false} StartOf(us: seq<Sym>)
    requires |us| <= 5
    ensures StartAt(State(Bech32Register(), us), |us|)
  {
    if us != [] {
      var n := |us| - 1;
      StartOf(us[..n]);
      SymWord(us[n]);
      StartStep(State(Bech32Register(), us[..n]), n, Word(us[n]));
    }
  }

  lemma StartsDiffer(x: bv32, m: nat, y: bv32, n: nat)
    requires m < n <= 5 && StartAt(x, m) && StartAt(y, n)
    ensures x != y
  {
  }

  lemma HeadsDiffer(us: seq<Sym>, vs: seq<Sym>)
    requires |us| <= 5 && |vs| <= 5 && us != vs
    ensures State(Bech32Register(), us) != State(Bech32Register(), vs)
  {
    StartOf(us);
    StartOf(vs);
    if |us| < |vs| {
      StartsDiffer(State(Bech32Register(), us), |us|, State(Bech32Register(), vs), |vs|);
    } else if |vs| < |us| {
      StartsDiffer(State(Bech32Register(), vs), |vs|, State(Bech32Register(), us), |us|);
    } else {
      BurstChangesState([], us, vs, []);
      assert [] + us + [] == us && [] + vs + [] == vs;
    }
  }

  lemma HeadChangesState(us: seq<Sym>, vs: seq<Sym>, post: seq<Sym>)
    requires |us| <= 5 && |vs| <= 5 && us != vs
    ensures State(Bech32Register(), us + post) != State(Bech32Register(), vs + post)
  {
    var r := Bech32Register();
    Bech32Laws();
    HeadsDiffer(us, vs);
    RunOk(r, 1, us);
    RunOk(r, 1, vs);
    SuffixKeepsApart(r, State(r, us), State(r, vs), post);
    RunConcat(r, 1, us, post);
    RunConcat(r, 1, vs, post);
  }

  lemma PlainStepHolds()
    ensures PlainStep(Bech32Register())
  {
    var r := Bech32Register();
    forall a ensures r.xor(a, r.word(0)) == a {
      WordZero();
      XorUnit(a);
    }
  }

  // The register of the C code has every property the codec needs.
  lemma Bech32Sound()
    ensures Sound(Bech32Register())
  {
    var r := Bech32Register();
    PlainStepHolds();
    forall vs ensures Verifies(r, vs) { ChecksumVerifies(vs); }
    forall vs, cs ensures Pinned(r, vs, cs) {
      if |cs| == 6 && State(r, vs + cs) == 1 { OnlyChecksumVerifies(vs, cs); }
    }
    forall pre, us, vs, post ensures BurstShows(r, pre, us, vs, post) {
      if |us| == |vs| <= 6 && us != vs { BurstChangesState(pre, us, vs, post); }
    }
    forall us, vs, post ensures HeadShows(r, us, vs, post) {
      if |us| <= 5 && |vs| <= 5 && us != vs { HeadChangesState(us, vs, post); }
    }
  }

  lemma SwapHolds()
    ensures SwapLaw(Bech32Register())
  {
    forall a, b, c, d ensures Swaps(Bech32Register(), a, b, c, d) { XorSwap(a, b, c, d); }
  }

  lemma ZeroHolds()
    ensures ZeroLaw(Bech32Register())
  {
    forall a, b ensures Cancels(Bech32Register(), a, b) {
      XorZero(a, b);
      XorUnit(a);
    }
  }

  lemma LinearHolds()
    ensures LinearLaw(Bech32Register())
  {
    forall a, b ensures Distributes(Bech32Register(), a, b) { StepLinear(a, b); }
  }

  lemma InjectiveHolds()
    ensures InjectiveLaw(Bech32Register())
  {
    forall a, b ensures Injects(Bech32Register(), a, b) {
      if IsState(a) && IsState(b) && PolymodStep(a) == PolymodStep(b) { StepInjective(a, b); }
    }
  }

  lemma BoundHolds()
    ensures BoundLaw(Bech32Register())
  {
    forall a, v ensures Stays(Bech32Register(), a, v) { StepBound(a, v); }
  }

  lemma WindowHolds()
    ensures WindowLaws(Bech32Register())
  {
    forall d, n: nat, u, v ensures Widens(Bech32Register(), d, n, u, v) {
      WordDiff(u, v);
      if n < 6 && FitsSymbols(d, n) { FitsStep(d, n, Xor(Word(u), Word(v))); }
    }
  }

  lemma SpellHolds()
    ensures SpellLaws(Bech32Register())
  {
    forall x, n: nat ensures Spells(Bech32Register(), x, n) {
      if n < 6 && IsState(x) { SpellStep(x, n); }
    }
  }
}
