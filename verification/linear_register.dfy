// A checksum register that absorbs five-bit symbols, over any word type. Its step is linear over
// GF(2) and injective, which is what error detection rests on; nothing here bounds the length of
// a run. The Bech32 register is one instance.
module LinearRegister {

  newtype Sym = v: int | 0 <= v < 32

  // Words with exclusive or, a step, and the word of a symbol. ok marks the words a register
  // can hold; small(d, n) those that n symbols can spell; spell(x, n) is the first n of the six
  // symbols of x and sym(x, i) one of them.
  datatype Register<!W> = Register(
    zero: W, xor: (W, W) -> W, step: W -> W, word: Sym -> W,
    ok: W -> bool, small: (W, nat) -> bool, spell: (W, nat) -> W, sym: (W, nat) -> Sym)

  ghost predicate Swaps<W>(r: Register<W>, a: W, b: W, c: W, d: W) {
    r.xor(r.xor(a, b), r.xor(c, d)) == r.xor(r.xor(a, c), r.xor(b, d))
  }

  ghost predicate SwapLaw<W(!new)>(r: Register<W>) {
    forall a, b, c, d :: Swaps(r, a, b, c, d)
  }

  ghost predicate Cancels<W>(r: Register<W>, a: W, b: W) {
    && (r.xor(a, b) == r.zero <==> a == b)
    && r.xor(a, r.zero) == a && r.xor(r.zero, a) == a
  }

  ghost predicate ZeroLaw<W(!new)>(r: Register<W>) {
    forall a, b :: Cancels(r, a, b)
  }

  ghost predicate XorLaws<W(!new)>(r: Register<W>) {
    SwapLaw(r) && ZeroLaw(r)
  }

  ghost predicate Distributes<W>(r: Register<W>, a: W, b: W) {
    r.step(r.xor(a, b)) == r.xor(r.step(a), r.step(b))
  }

  ghost predicate LinearLaw<W(!new)>(r: Register<W>) {
    forall a, b :: Distributes(r, a, b)
  }

  ghost predicate Injects<W>(r: Register<W>, a: W, b: W) {
    r.ok(a) && r.ok(b) && r.step(a) == r.step(b) ==> a == b
  }

  ghost predicate InjectiveLaw<W(!new)>(r: Register<W>) {
    forall a, b :: Injects(r, a, b)
  }

  ghost predicate Stays<W>(r: Register<W>, a: W, v: Sym) {
    r.ok(Absorbed(r, a, v))
  }

  ghost predicate BoundLaw<W(!new)>(r: Register<W>) {
    forall a, v :: Stays(r, a, v)
  }

  ghost predicate StepLaws<W(!new)>(r: Register<W>) {
    LinearLaw(r) && InjectiveLaw(r) && BoundLaw(r)
  }

  // A difference d of n symbols, fed one more pair of symbols.
  function Differed<W>(r: Register<W>, d: W, u: Sym, v: Sym): W {
    r.xor(r.step(d), r.xor(r.word(u), r.word(v)))
  }

  ghost predicate Widens<W>(r: Register<W>, d: W, n: nat, u: Sym, v: Sym) {
    n < 6 && r.small(d, n) ==>
      && r.small(Differed(r, d, u, v), n + 1)
      && (Differed(r, d, u, v) == r.zero <==> d == r.zero && u == v)
  }

  // Below six symbols nothing is fed back, so no difference is lost.
  ghost predicate WindowLaws<W(!new)>(r: Register<W>) {
    && r.small(r.zero, 0)
    && (forall d, n: nat, u, v :: Widens(r, d, n, u, v))
  }

  ghost predicate Spells<W>(r: Register<W>, x: W, n: nat) {
    r.ok(x) ==>
      && r.spell(x, 0) == r.zero && r.spell(x, 6) == x
      && (n < 6 ==> Differed(r, r.spell(x, n), 0, r.sym(x, n)) == r.spell(x, n + 1))
  }

  ghost predicate SpellLaws<W(!new)>(r: Register<W>) {
    forall x, n: nat :: Spells(r, x, n)
  }

  // One symbol.
  function Absorbed<W>(r: Register<W>, chk: W, v: Sym): W { r.xor(r.step(chk), r.word(v)) }

  // The register after absorbing the symbols in order.
  function Run<W>(r: Register<W>, chk: W, vs: seq<Sym>): W
    decreases |vs|
  {
    if vs == [] then chk
    else Absorbed(r, Run(r, chk, vs[..|vs| - 1]), vs[|vs| - 1])
  }

  lemma {:induction false} RunOk<W(!new)>(r: Register<W>, chk: W, vs: seq<Sym>)
    requires StepLaws(r) && r.ok(chk)
    ensures r.ok(Run(r, chk, vs))
  {
    if vs != [] {
      assert Stays(r, Run(r, chk, vs[..|vs| - 1]), vs[|vs| - 1]);
    }
  }

  lemma {:induction false} RunConcat<W>(r: Register<W>, chk: W, xs: seq<Sym>, ys: seq<Sym>)
    ensures Run(r, chk, xs + ys) == Run(r, Run(r, chk, xs), ys)
    decreases |ys|
  {
    var zs := xs + ys;
    if ys == [] {
      assert zs == xs;
    } else {
      assert zs[..|zs| - 1] == xs + ys[..|ys| - 1];
      RunConcat(r, chk, xs, ys[..|ys| - 1]);
    }
  }

  lemma XorCancel<W(!new)>(r: Register<W>, a: W, b: W, c: W)
    requires XorLaws(r) && r.xor(a, c) == r.xor(b, c)
    ensures a == b
  {
    assert Swaps(r, a, b, c, c);
    assert Swaps(r, a, c, b, c);
    assert Cancels(r, r.xor(a, c), r.xor(b, c));
    assert Cancels(r, c, c) && Cancels(r, a, b) && Cancels(r, r.xor(a, b), r.zero);
  }

  lemma XorCancelLeft<W(!new)>(r: Register<W>, c: W, a: W, b: W)
    requires XorLaws(r) && r.xor(c, a) == r.xor(c, b)
    ensures a == b
  {
    assert Swaps(r, c, a, c, b);
    assert Cancels(r, r.xor(c, a), r.xor(c, b));
    assert Cancels(r, c, c) && Cancels(r, a, b) && Cancels(r, r.xor(a, b), r.zero);
  }

  // Registers that differ stay different however many equal symbols follow.
  lemma {:induction false} SuffixKeepsApart<W(!new)>(r: Register<W>, a: W, b: W, vs: seq<Sym>)
    requires XorLaws(r) && StepLaws(r) && r.ok(a) && r.ok(b) && a != b
    ensures Run(r, a, vs) != Run(r, b, vs)
    decreases |vs|
  {
    if vs != [] {
      var us := vs[..|vs| - 1];
      SuffixKeepsApart(r, a, b, us);
      RunOk(r, a, us);
      RunOk(r, b, us);
      assert Injects(r, Run(r, a, us), Run(r, b, us));
      if Run(r, a, vs) == Run(r, b, vs) {
        XorCancel(r, r.step(Run(r, a, us)), r.step(Run(r, b, us)), r.word(vs[|vs| - 1]));
      }
    }
  }

  function Diff<W>(r: Register<W>, chk: W, us: seq<Sym>, vs: seq<Sym>): W {
    r.xor(Run(r, chk, us), Run(r, chk, vs))
  }

  lemma DiffStep<W(!new)>(r: Register<W>, chk: W, us: seq<Sym>, vs: seq<Sym>)
    requires XorLaws(r) && StepLaws(r) && us != [] && vs != []
    ensures Diff(r, chk, us, vs) ==
            Differed(r, Diff(r, chk, us[..|us| - 1], vs[..|vs| - 1]), us[|us| - 1], vs[|vs| - 1])
  {
    var p, q := Run(r, chk, us[..|us| - 1]), Run(r, chk, vs[..|vs| - 1]);
    assert Distributes(r, p, q);
    assert Swaps(r, r.step(p), r.word(us[|us| - 1]), r.step(q), r.word(vs[|vs| - 1]));
  }

  lemma SameByLast(us: seq<Sym>, vs: seq<Sym>)
    requires |us| == |vs| > 0
    ensures us == vs <==> us[..|us| - 1] == vs[..|us| - 1] && us[|us| - 1] == vs[|us| - 1]
  {
    assert us == us[..|us| - 1] + [us[|us| - 1]] && vs == vs[..|vs| - 1] + [vs[|vs| - 1]];
  }

  // Over a window of at most six symbols the registers agree only if the symbols do.
  lemma {:induction false} DiffOfWindow<W(!new)>(r: Register<W>, chk: W, us: seq<Sym>, vs: seq<Sym>)
    requires XorLaws(r) && StepLaws(r) && WindowLaws(r) && |us| == |vs| <= 6
    ensures r.small(Diff(r, chk, us, vs), |us|)
    ensures Diff(r, chk, us, vs) == r.zero <==> us == vs
    decreases |us|
  {
    if us == [] {
      assert Cancels(r, chk, chk);
    } else {
      var n := |us| - 1;
      DiffOfWindow(r, chk, us[..n], vs[..n]);
      DiffStep(r, chk, us, vs);
      assert Widens(r, Diff(r, chk, us[..n], vs[..n]), n, us[n], vs[n]);
      SameByLast(us, vs);
    }
  }

  // Burst detection in the register: a window of at most six symbols in which something
  // differs, with equal symbols around it, always leads to a different register.
  lemma BurstChangesRun<W(!new)>(r: Register<W>, chk: W,
                                 pre: seq<Sym>, us: seq<Sym>, vs: seq<Sym>, post: seq<Sym>)
    requires XorLaws(r) && StepLaws(r) && WindowLaws(r) && r.ok(chk)
    requires |us| == |vs| <= 6 && us != vs
    ensures Run(r, chk, pre + us + post) != Run(r, chk, pre + vs + post)
  {
    var c := Run(r, chk, pre);
    RunOk(r, chk, pre);
    RunOk(r, c, us);
    RunOk(r, c, vs);
    DiffOfWindow(r, c, us, vs);
    assert Cancels(r, Run(r, c, us), Run(r, c, vs));
    SuffixKeepsApart(r, Run(r, c, us), Run(r, c, vs), post);
    RunConcat(r, chk, pre, us);
    RunConcat(r, chk, pre, vs);
    RunConcat(r, chk, pre + us, post);
    RunConcat(r, chk, pre + vs, post);
  }

  function Zeros(): (s: seq<Sym>)
    ensures |s| == 6
  {
    [0, 0, 0, 0, 0, 0]
  }

  function SymbolsOf<W>(r: Register<W>, x: W): (s: seq<Sym>)
    ensures |s| == 6
  {
    seq(6, i requires 0 <= i < 6 => r.sym(x, i))
  }

  // Six symbols appended to a register change it by exactly the word they spell.
  lemma {:induction false} AppendedSymbols<W(!new)>(r: Register<W>, chk: W, x: W, n: nat)
    requires XorLaws(r) && StepLaws(r) && SpellLaws(r) && r.ok(x) && n <= 6
    ensures Diff(r, chk, Zeros()[..n], SymbolsOf(r, x)[..n]) == r.spell(x, n)
  {
    assert Spells(r, x, 0);
    if n == 0 {
      assert Cancels(r, chk, chk);
    } else {
      AppendedSymbols(r, chk, x, n - 1);
      PrefixOfPrefix(Zeros(), n);
      PrefixOfPrefix(SymbolsOf(r, x), n);
      DiffStep(r, chk, Zeros()[..n], SymbolsOf(r, x)[..n]);
      SpellStep(r, x, n - 1);
    }
  }

  lemma SpellStep<W(!new)>(r: Register<W>, x: W, n: nat)
    requires SpellLaws(r) && r.ok(x) && n < 6
    ensures Differed(r, r.spell(x, n), Zeros()[n], SymbolsOf(r, x)[n]) == r.spell(x, n + 1)
  {
    assert Spells(r, x, n);
    assert Zeros()[n] == 0;
  }

  lemma PrefixOfPrefix(s: seq<Sym>, n: nat)
    requires 0 < n <= |s|
    ensures s[..n][..n - 1] == s[..n - 1] && s[..n][n - 1] == s[n - 1] && s[..|s|] == s
  {
  }

  lemma AppendedWord<W(!new)>(r: Register<W>, chk: W, x: W)
    requires XorLaws(r) && StepLaws(r) && SpellLaws(r) && r.ok(x)
    ensures r.xor(Run(r, chk, Zeros()), Run(r, chk, SymbolsOf(r, x))) == x
  {
    AppendedSymbols(r, chk, x, 6);
    assert Spells(r, x, 6);
    PrefixOfPrefix(Zeros(), 6);
    PrefixOfPrefix(SymbolsOf(r, x), 6);
  }

  ghost predicate Laws<W(!new)>(r: Register<W>) {
    XorLaws(r) && StepLaws(r) && WindowLaws(r) && SpellLaws(r)
  }

  // The six symbols that bring the register to the target after vs.
  function Checksum<W>(r: Register<W>, chk: W, target: W, vs: seq<Sym>): (s: seq<Sym>)
    ensures |s| == 6
  {
    SymbolsOf(r, r.xor(Run(r, chk, vs + Zeros()), target))
  }

  lemma ChecksumReaches<W(!new)>(r: Register<W>, chk: W, target: W, vs: seq<Sym>)
    requires Laws(r) && r.ok(r.xor(Run(r, chk, vs + Zeros()), target))
    ensures Run(r, chk, vs + Checksum(r, chk, target, vs)) == target
  {
    var c := Run(r, chk, vs);
    var z := Run(r, chk, vs + Zeros());
    RunConcat(r, chk, vs, Zeros());
    RunConcat(r, chk, vs, Checksum(r, chk, target, vs));
    AppendedWord(r, c, r.xor(z, target));
    XorCancelLeft(r, z, Run(r, c, Checksum(r, chk, target, vs)), target);
  }

  // Only these six symbols do, because six symbols after the same ones are a window.
  lemma ChecksumUnique<W(!new)>(r: Register<W>, chk: W, target: W, vs: seq<Sym>, cs: seq<Sym>)
    requires Laws(r) && r.ok(chk) && r.ok(r.xor(Run(r, chk, vs + Zeros()), target))
    requires |cs| == 6 && Run(r, chk, vs + cs) == target
    ensures cs == Checksum(r, chk, target, vs)
  {
    ChecksumReaches(r, chk, target, vs);
    if cs != Checksum(r, chk, target, vs) {
      WindowChangesRun(r, chk, vs, cs, Checksum(r, chk, target, vs));
    }
  }

  lemma WindowChangesRun<W(!new)>(r: Register<W>, chk: W, pre: seq<Sym>, us: seq<Sym>, vs: seq<Sym>)
    requires Laws(r) && r.ok(chk) && |us| == |vs| <= 6 && us != vs
    ensures Run(r, chk, pre + us) != Run(r, chk, pre + vs)
  {
    RunConcat(r, chk, pre, us);
    RunConcat(r, chk, pre, vs);
    var c := Run(r, chk, pre);
    DiffOfWindow(r, c, us, vs);
    assert Cancels(r, Run(r, c, us), Run(r, c, vs));
  }
}
