// The per-commitment secret store of ln/ln_derkey.c: 49 buckets stand in for a map of up to
// 2^48 secrets (BOLT #3, "Efficient Per-commitment Secret Storage"). SHA-256 is a parameter
// about which nothing is assumed but the length of its result.
module SecretStorage {
  import opened Basics
  import opened LittleEndian
  import opened Powers

  type Secret = s: seq<bv8> | |s| == 32 witness seq(32, _ => 0)
  type Sha = Secret -> Secret

  datatype Bucket = Bucket(secret: Secret, index: nat)

  const BUCKETS: nat := 49
  const INDEX_BITS: nat := 48
  const INDEX_END: nat := 0x1_0000_0000_0000   // one past the first index of a run
  const EMPTY_INDEX: nat := 0x1234_5678_9abc

  // The 0xcc fill of a bucket that has not been used.
  function EmptySecret(): Secret { seq(32, _ => 0xcc) }

  function EmptyBucket(): Bucket { Bucket(EmptySecret(), EMPTY_INDEX) }

  // ---------- bits of an index ----------

  // x & (1 << b)
  predicate Bit(x: nat, b: nat) {
    if b == 0 then x % 2 == 1 else Bit(x / 2, b - 1)
  }

  // x & ((1 << b) - 1)
  function Low(x: nat, b: nat): (r: nat)
    ensures r <= x && r < Pow2(b)
  {
    if b == 0 then 0 else x % 2 + 2 * Low(x / 2, b - 1)
  }

  // x & ~((1 << b) - 1)
  function High(x: nat, b: nat): nat { x - Low(x, b) }

  lemma HalvedDivMod(x: nat, p: nat)
    requires p > 0
    ensures x / (2 * p) == x / 2 / p && x % (2 * p) == x % 2 + 2 * (x / 2 % p)
  {
    var q, r := x / 2 / p, x / 2 % p;
    assert x / 2 == q * p + r;
    assert q * (2 * p) == 2 * (q * p);
    DivModUnique(x, 2 * p, q, 2 * r + x % 2);
  }

  // The recursive readings are the usual ones.
  lemma {:induction false} BitsAreDivMod(x: nat, b: nat)
    ensures Low(x, b) == x % Pow2(b)
    ensures Bit(x, b) <==> x / Pow2(b) % 2 == 1
    decreases b
  {
    if b > 0 {
      BitsAreDivMod(x / 2, b - 1);
      HalvedDivMod(x, Pow2(b - 1));
    }
  }

  lemma {:induction false} LowStep(x: nat, b: nat)
    ensures Low(x, b + 1) == Low(x, b) + if Bit(x, b) then Pow2(b) else 0
    decreases b
  {
    if b > 0 {
      LowStep(x / 2, b - 1);
    }
  }

  lemma {:induction false} LowMonotone(x: nat, m: nat, k: nat)
    requires m <= k
    ensures Low(x, m) <= Low(x, k)
    decreases k
  {
    if m < k {
      LowMonotone(x, m, k - 1);
      LowStep(x, k - 1);
    }
  }

  lemma HighStep(x: nat, m: nat)
    requires m > 0
    ensures High(x, m) == 2 * High(x / 2, m - 1)
  {
  }

  lemma LowOfDouble(h: nat, k: nat)
    requires k > 0
    ensures Low(2 * h, k) == 2 * Low(h, k - 1)
  {
    assert 2 * h % 2 == 0 && 2 * h / 2 == h;
  }

  // Clearing low bits clears exactly those.
  lemma {:induction false} LowOfHigh(x: nat, m: nat, k: nat)
    requires m <= k
    ensures Low(High(x, m), k) == Low(x, k) - Low(x, m)
    decreases m
  {
    if m > 0 {
      LowOfHigh(x / 2, m - 1, k - 1);
      HighStep(x, m);
      LowOfDouble(High(x / 2, m - 1), k);
    }
  }

  lemma {:induction false} LowOfSmall(x: nat, b: nat)
    requires x < Pow2(b)
    ensures Low(x, b) == x && !Bit(x, b)
    decreases b
  {
    if b > 0 {
      LowOfSmall(x / 2, b - 1);
    }
  }

  lemma {:induction false} LowOfPow2(n: nat, b: nat)
    requires b <= n
    ensures Low(Pow2(n), b) == 0
    decreases b
  {
    if b > 0 {
      LowOfPow2(n - 1, b - 1);
    }
  }

  // Indices with b clear low bits are at least 2^b apart.
  lemma {:induction false} ClearApart(x: nat, y: nat, b: nat)
    requires Low(x, b) == 0 && Low(y, b) == 0 && x < y
    ensures x + Pow2(b) <= y
    decreases b
  {
    if b > 0 {
      ClearApart(x / 2, y / 2, b - 1);
    }
  }

  lemma {:induction false} SetLow(x: nat, w: nat, b: nat)
    requires Low(x, w) == 0 && b < w
    ensures Low(x + Pow2(b), w) == Pow2(b)
    decreases b
  {
    if b > 0 {
      SetLow(x / 2, w - 1, b - 1);
      assert (x + Pow2(b)) / 2 == x / 2 + Pow2(b - 1);
    }
  }

  lemma BitOfHigh(x: nat, m: nat, k: nat)
    requires m <= k
    ensures Bit(High(x, m), k) <==> Bit(x, k)
  {
    LowOfHigh(x, m, k);
    LowOfHigh(x, m, k + 1);
    LowStep(x, k);
    LowStep(High(x, m), k);
  }

  lemma LowAgreeStep(x: nat, y: nat, k: nat)
    requires Low(x, k + 1) == Low(y, k + 1)
    ensures Low(x, k) == Low(y, k) && Bit(x, k) == Bit(y, k)
  {
    LowStep(x, k);
    LowStep(y, k);
  }

  lemma {:induction false} LowAgree(x: nat, y: nat, m: nat, k: nat)
    requires m <= k && Low(x, k) == Low(y, k)
    ensures Low(x, m) == Low(y, m)
    decreases k
  {
    if m < k {
      LowAgreeStep(x, y, k - 1);
      LowAgree(x, y, m, k - 1);
    }
  }

  // ---------- the two pure parts ----------

  // The number of trailing zero bits, 48 for a seed index.
  function WhereFrom(x: nat, b: nat): (r: nat)
    requires b <= INDEX_BITS
    ensures b <= r <= INDEX_BITS
    decreases INDEX_BITS - b
  {
    if b == INDEX_BITS || Bit(x, b) then b else WhereFrom(x, b + 1)
  }

  function WhereToPut(x: nat): (r: nat)
    ensures r <= INDEX_BITS
  {
    WhereFrom(x, 0)
  }

  // What a trailing-zero count means: the low bits are clear and the next one is set.
  predicate HasZeros(x: nat, b: nat) {
    b <= INDEX_BITS && Low(x, b) == 0 && (b < INDEX_BITS ==> Bit(x, b))
  }

  lemma {:induction false} WhereFromSpec(x: nat, from: nat, b: nat)
    requires from <= b && HasZeros(x, b)
    ensures WhereFrom(x, from) == b
    decreases b - from
  {
    if from < b {
      LowStep(x, from);
      LowMonotone(x, from + 1, b);
      WhereFromSpec(x, from + 1, b);
    }
  }

  lemma {:induction false} WhereFromZeros(x: nat, from: nat)
    requires from <= INDEX_BITS && Low(x, from) == 0
    ensures HasZeros(x, WhereFrom(x, from))
    decreases INDEX_BITS - from
  {
    if from < INDEX_BITS && !Bit(x, from) {
      LowStep(x, from);
      WhereFromZeros(x, from + 1);
    }
  }

  // The bucket number is the trailing-zero count and nothing else.
  lemma WhereToPutIsZeros(x: nat, b: nat)
    ensures WhereToPut(x) == b <==> HasZeros(x, b)
  {
    WhereFromZeros(x, 0);
    if HasZeros(x, b) {
      WhereFromSpec(x, 0, b);
    }
  }

  function Flip(p: Secret, b: nat): Secret
    requires b / 8 < 32
  {
    p[b / 8 := p[b / 8] ^ (1 << (b % 8))]
  }

  // derive_secret over bits n-1 .. 0 of the index.
  function Derive(sha: Sha, base: Secret, n: nat, index: nat): Secret
    requires n <= 256
    decreases n
  {
    if n == 0 then base
    else Derive(sha, if Bit(index, n - 1) then sha(Flip(base, n - 1)) else base, n - 1, index)
  }

  lemma {:induction false} DeriveZero(sha: Sha, base: Secret, n: nat, index: nat)
    requires n <= 256 && Low(index, n) == 0
    ensures Derive(sha, base, n, index) == base
    decreases n
  {
    if n > 0 {
      LowStep(index, n - 1);
      DeriveZero(sha, base, n - 1, index);
    }
  }

  // Only the low n bits of the index matter.
  lemma {:induction false} DeriveAgree(sha: Sha, base: Secret, n: nat, x: nat, y: nat)
    requires n <= 256 && Low(x, n) == Low(y, n)
    ensures Derive(sha, base, n, x) == Derive(sha, base, n, y)
    decreases n
  {
    if n > 0 {
      LowAgreeStep(x, y, n - 1);
      DeriveAgree(sha, if Bit(x, n - 1) then sha(Flip(base, n - 1)) else base, n - 1, x, y);
    }
  }

  // Derivation composes over a bit prefix: first the bits from m up, then those below.
  lemma {:induction false} DeriveSplit(sha: Sha, base: Secret, n: nat, m: nat, x: nat)
    requires m <= n <= 256
    ensures Derive(sha, base, n, x) == Derive(sha, Derive(sha, base, n, High(x, m)), m, x)
    decreases n
  {
    if m == n {
      LowOfHigh(x, m, m);
      DeriveZero(sha, base, n, High(x, m));
    } else {
      BitOfHigh(x, m, n - 1);
      DeriveSplit(sha, if Bit(x, n - 1) then sha(Flip(base, n - 1)) else base, n - 1, m, x);
    }
  }

  function CreateSecret(sha: Sha, seed: Secret, index: nat): Secret {
    Derive(sha, seed, INDEX_BITS, index)
  }

  // The secret of index 0 is the seed.
  lemma SeedIsSecretZero(sha: Sha, seed: Secret)
    ensures CreateSecret(sha, seed, 0) == seed
  {
    LowOfSmall(0, INDEX_BITS);
    DeriveZero(sha, seed, INDEX_BITS, 0);
  }

  // Setting bit b of an index whose bits up to b are clear hashes the one buffer whose number,
  // lowest byte first, differs from that of the secret of the index in bit b alone.
  lemma SetBitHashes(sha: Sha, seed: Secret, y: nat, b: nat, n: nat)
    requires b < 48 && y % Pow2(b + 1) == 0 && n == LeNumber(CreateSecret(sha, seed, y))
    ensures var m := if n / Pow2(b) % 2 == 1 then n - Pow2(b) else n + Pow2(b);
            && (exists t: Secret :: LeNumber(t) == m)
            && (forall t: Secret :: LeNumber(t) == m ==> CreateSecret(sha, seed, y + Pow2(b)) == sha(t))
  {
    var p := CreateSecret(sha, seed, y);
    var f := FlipNumber(p, b);
    SetBitDerives(sha, seed, y, b);
    forall t: Secret | LeNumber(t) == LeNumber(f) ensures t == f { LeNumberInjective(t, f); }
  }

  lemma FlipNumber(p: Secret, b: nat) returns (f: Secret)
    requires b / 8 < 32
    ensures f == Flip(p, b) && LeNumber(f) == Toggle(LeNumber(p), Pow2(b))
  {
    f := Flip(p, b);
    ByteFlip(p[b / 8], b % 8, f[b / 8]);
    NumberFlip(p, b / 8, b % 8, f[b / 8]);
  }

  lemma SetBitDerives(sha: Sha, seed: Secret, y: nat, b: nat)
    requires b < INDEX_BITS && y % Pow2(b + 1) == 0
    ensures CreateSecret(sha, seed, y + Pow2(b)) == sha(Flip(CreateSecret(sha, seed, y), b))
  {
    var x := y + Pow2(b);
    BitsAreDivMod(y, b + 1);
    SetLow(y, b + 1, b);
    LowStep(x, b);
    DeriveSplit(sha, seed, INDEX_BITS, b + 1, x);
    DeriveZero(sha, sha(Flip(CreateSecret(sha, seed, y), b)), b, x);
  }

  // ---------- the store as a value ----------

  type Buckets = s: seq<Bucket> | |s| == BUCKETS
    witness EmptyStore()

  function EmptyStore(): seq<Bucket> { seq(BUCKETS, _ => EmptyBucket()) }

  // The new secret must derive the secret of every bucket below its own.
  predicate Accepts(sha: Sha, st: Buckets, secret: Secret, index: nat) {
    forall b | 0 <= b < WhereToPut(index) ::
      Derive(sha, secret, WhereToPut(index), st[b].index) == st[b].secret
  }

  function Insert(sha: Sha, st: Buckets, secret: Secret, index: nat): Option<Buckets> {
    if Accepts(sha, st, secret, index) then Some(st[WhereToPut(index) := Bucket(secret, index)]) else None
  }

  predicate Matches(st: Buckets, b: nat, index: nat)
    requires b < BUCKETS
  {
    High(index, b) == st[b].index
  }

  // The highest matching bucket below n answers.
  function GetBelow(sha: Sha, st: Buckets, n: nat, index: nat): Option<Secret>
    requires n <= BUCKETS
  {
    if n == 0 then None
    else if Matches(st, n - 1, index) then
      Some(Derive(sha, st[n - 1].secret, n, index - st[n - 1].index))
    else GetBelow(sha, st, n - 1, index)
  }

  function Get(sha: Sha, st: Buckets, index: nat): Option<Secret> {
    GetBelow(sha, st, BUCKETS, index)
  }

  // ---------- descending runs ----------

  // A log lists the secrets in the order received: log[k] belongs to index 2^48 - 1 - k.
  function Lowest(log: seq<Secret>): int { INDEX_END - |log| }

  predicate Received(log: seq<Secret>, index: nat) {
    Lowest(log) <= index < INDEX_END
  }

  function Logged(log: seq<Secret>, index: nat): Secret
    requires |log| <= INDEX_END && Received(log, index)
  {
    log[INDEX_END - 1 - index]
  }

  // The next smaller index than those of the log.
  function NextIndex(log: seq<Secret>): nat
    requires |log| < INDEX_END
  {
    INDEX_END - 1 - |log|
  }

  // The store after inserting the whole log, None as soon as one insert is rejected.
  function StoreAll(sha: Sha, log: seq<Secret>): Option<Buckets>
    requires |log| <= INDEX_END
  {
    if log == [] then Some(EmptyStore())
    else
      var prior := StoreAll(sha, log[..|log| - 1]);
      if prior.None? then None
      else Insert(sha, prior.value, log[|log| - 1], NextIndex(log[..|log| - 1]))
  }

  lemma StoreAllStep(sha: Sha, log: seq<Secret>, secret: Secret)
    requires |log| < INDEX_END && StoreAll(sha, log).Some?
    ensures StoreAll(sha, log + [secret]) ==
            Insert(sha, StoreAll(sha, log).value, secret, NextIndex(log))
  {
    var l := log + [secret];
    assert l[..|l| - 1] == log && l[|l| - 1] == secret;
  }

  // ---------- the invariant of a run ----------

  // Bucket b holds the smallest received index with exactly b trailing zeros, and its secret
  // derives every secret of the block of 2^b indices that starts there.
  ghost predicate Filled(sha: Sha, log: seq<Secret>, b: nat, k: Bucket)
    requires |log| <= INDEX_END && b < BUCKETS
  {
    && Received(log, k.index) && WhereToPut(k.index) == b
    && (forall y: nat :: Lowest(log) <= y < k.index ==> WhereToPut(y) != b)
    && k.index + Pow2(b) <= INDEX_END
    && (forall j: nat :: k.index <= j < k.index + Pow2(b) ==>
          Derive(sha, k.secret, b, j - k.index) == Logged(log, j))
  }

  ghost predicate Unfilled(log: seq<Secret>, b: nat, k: Bucket) {
    && k == EmptyBucket()
    && (forall y: nat :: Received(log, y) ==> WhereToPut(y) != b)
  }

  ghost predicate Sound(sha: Sha, log: seq<Secret>, b: nat, k: Bucket)
    requires |log| <= INDEX_END && b < BUCKETS
  {
    Filled(sha, log, b, k) || Unfilled(log, b, k)
  }

  ghost predicate Inv(sha: Sha, log: seq<Secret>, st: Buckets)
    requires |log| <= INDEX_END
  {
    forall b | 0 <= b < BUCKETS :: Sound(sha, log, b, st[b])
  }

  lemma Pow48()
    ensures Pow2(INDEX_BITS) == INDEX_END
  {
    assert Pow2(8) == 256;
    Pow2Add(8, 8);
    assert Pow2(16) == 0x1_0000;
    Pow2Add(16, 16);
    assert Pow2(32) == 0x1_0000_0000;
    Pow2Add(16, 32);
  }

  lemma BlockFits(x: nat, b: nat)
    requires x < INDEX_END && b <= INDEX_BITS && Low(x, b) == 0
    ensures x + Pow2(b) <= INDEX_END
  {
    Pow48();
    LowOfPow2(INDEX_BITS, b);
    ClearApart(x, INDEX_END, b);
  }

  // Setting a bit below the trailing zeros of x.
  lemma SetBelow(x: nat, w: nat, b: nat)
    requires Low(x, w) == 0 && b < w <= INDEX_BITS
    ensures HasZeros(x + Pow2(b), b) && Low(x + Pow2(b), w) == Pow2(b)
    ensures Pow2(b) < Pow2(w)
  {
    Pow2Monotone(b + 1, w);
    SetLow(x, w, b);
    LowMonotone(x, b + 1, w);
    SetLow(x, b + 1, b);
    LowStep(x + Pow2(b), b);
  }

  // A bucket whose zeros some received index has is filled, with no larger index.
  lemma FilledAtMost(sha: Sha, log: seq<Secret>, b: nat, k: Bucket, y: nat)
    requires |log| <= INDEX_END && b < BUCKETS && Sound(sha, log, b, k)
    requires Received(log, y) && WhereToPut(y) == b
    ensures Received(log, k.index) && WhereToPut(k.index) == b && k.index <= y
  {
  }

  lemma FilledDerives(sha: Sha, log: seq<Secret>, b: nat, k: Bucket, j: nat)
    requires |log| <= INDEX_END && b < BUCKETS && Sound(sha, log, b, k)
    requires Received(log, k.index) && WhereToPut(k.index) == b
    requires k.index <= j < k.index + Pow2(b)
    ensures Received(log, j) && Derive(sha, k.secret, b, j - k.index) == Logged(log, j)
  {
    assert Filled(sha, log, b, k);
  }

  lemma SetBelowIndex(x: nat, w: nat, b: nat)
    requires x < INDEX_END && WhereToPut(x) == w && b < w
    ensures x + Pow2(b) < INDEX_END && WhereToPut(x + Pow2(b)) == b
  {
    WhereToPutIsZeros(x, w);
    SetBelow(x, w, b);
    BlockFits(x, w);
    ZerosPut(x + Pow2(b), b);
  }

  lemma ZerosPut(x: nat, b: nat)
    requires HasZeros(x, b)
    ensures WhereToPut(x) == b
  {
    WhereToPutIsZeros(x, b);
  }

  lemma NextWithZeros(x: nat, y: nat, w: nat, b: nat)
    requires WhereToPut(x) == w && WhereToPut(y) == b && b < w && x < y <= x + Pow2(b)
    ensures y == x + Pow2(b)
  {
    WhereToPutIsZeros(x, w);
    WhereToPutIsZeros(y, b);
    LowMonotone(x, b, w);
    ClearApart(x, y, b);
  }

  // When the next index ends in w zeros, every bucket b below w is filled with the index that
  // sets bit b in it: the check of an insert looks at exactly these.
  lemma BucketBelow(sha: Sha, log: seq<Secret>, st: Buckets, w: nat, b: nat)
    requires |log| < INDEX_END && b < w && WhereToPut(NextIndex(log)) == w
    requires Sound(sha, log, b, st[b])
    ensures Received(log, st[b].index) && WhereToPut(st[b].index) == b
    ensures st[b].index == NextIndex(log) + Pow2(b)
  {
    var x := NextIndex(log);
    SetBelowIndex(x, w, b);
    FilledAtMost(sha, log, b, st[b], x + Pow2(b));
    NextWithZeros(x, st[b].index, w, b);
  }

  function TopBit(d: nat): (b: nat)
    requires d > 0
    ensures Pow2(b) <= d < Pow2(b + 1)
  {
    if d == 1 then 0 else TopBit(d / 2) + 1
  }

  // An accepted secret derives everything received in its block.
  lemma AcceptedDerives(sha: Sha, log: seq<Secret>, st: Buckets, secret: Secret, w: nat, d: nat)
    requires |log| < INDEX_END && Inv(sha, log, st)
    requires WhereToPut(NextIndex(log)) == w && Accepts(sha, st, secret, NextIndex(log))
    requires 0 < d < Pow2(w) && NextIndex(log) + d < INDEX_END
    ensures Derive(sha, secret, w, d) == Logged(log, NextIndex(log) + d)
  {
    var x, b := NextIndex(log), TopBit(d);
    if w <= b { Pow2Monotone(w, b); }
    BucketBelow(sha, log, st, w, b);
    assert Derive(sha, secret, w, st[b].index) == st[b].secret;
    FilledDerives(sha, log, b, st[b], x + d);
    WhereToPutIsZeros(x, w);
    DeriveBlock(sha, secret, x, w, b, d);
  }

  // Deriving d below w zeros of x: first its top bit, which is what a check looks at, then the rest.
  lemma DeriveBlock(sha: Sha, secret: Secret, x: nat, w: nat, b: nat, d: nat)
    requires Low(x, w) == 0 && b < w <= INDEX_BITS && Pow2(b) <= d < Pow2(b + 1)
    ensures Derive(sha, secret, w, d) ==
            Derive(sha, Derive(sha, secret, w, x + Pow2(b)), b, d - Pow2(b))
  {
    SetBelow(x, w, b);
    LowOfSmall(Pow2(b), w);
    LowOfSmall(d, b + 1);
    LowStep(d, b);
    LowOfSmall(d - Pow2(b), b);
    calc {
      Derive(sha, secret, w, d);
      { DeriveSplit(sha, secret, w, b, d); }
      Derive(sha, Derive(sha, secret, w, Pow2(b)), b, d);
      { DeriveAgree(sha, secret, w, Pow2(b), x + Pow2(b)); }
      Derive(sha, Derive(sha, secret, w, x + Pow2(b)), b, d);
      { DeriveAgree(sha, Derive(sha, secret, w, x + Pow2(b)), b, d, d - Pow2(b)); }
      Derive(sha, Derive(sha, secret, w, x + Pow2(b)), b, d - Pow2(b));
    }
  }

  lemma NewBucketFilled(sha: Sha, log: seq<Secret>, st: Buckets, secret: Secret)
    requires |log| < INDEX_END && Inv(sha, log, st)
    requires Accepts(sha, st, secret, NextIndex(log))
    ensures Filled(sha, log + [secret], WhereToPut(NextIndex(log)), Bucket(secret, NextIndex(log)))
  {
    var x := NextIndex(log);
    var w := WhereToPut(x);
    WhereToPutIsZeros(x, w);
    BlockFits(x, w);
    forall j: nat | x <= j < x + Pow2(w)
      ensures Derive(sha, secret, w, j - x) == Logged(log + [secret], j)
    {
      if j == x {
        DeriveZero(sha, secret, w, 0);
      } else {
        AcceptedDerives(sha, log, st, secret, w, j - x);
      }
    }
  }

  lemma OldBucketKept(sha: Sha, log: seq<Secret>, secret: Secret, b: nat, k: Bucket)
    requires |log| < INDEX_END && b < BUCKETS && b != WhereToPut(NextIndex(log))
    requires Sound(sha, log, b, k)
    ensures Sound(sha, log + [secret], b, k)
  {
    if Filled(sha, log, b, k) {
      assert forall j: nat :: Received(log, j) ==> Logged(log + [secret], j) == Logged(log, j);
    } else {
      assert forall y: nat :: Received(log + [secret], y) ==> y == NextIndex(log) || Received(log, y);
    }
  }

  // Every accepted insert of a descending run keeps the invariant.
  lemma InsertKeepsInv(sha: Sha, log: seq<Secret>, st: Buckets, secret: Secret)
    requires |log| < INDEX_END && Inv(sha, log, st)
    requires Insert(sha, st, secret, NextIndex(log)).Some?
    ensures Inv(sha, log + [secret], Insert(sha, st, secret, NextIndex(log)).value)
  {
    NewBucketFilled(sha, log, st, secret);
    forall b | 0 <= b < BUCKETS && b != WhereToPut(NextIndex(log))
      ensures Sound(sha, log + [secret], b, st[b])
    {
      OldBucketKept(sha, log, secret, b, st[b]);
    }
  }

  lemma {:induction false} RunInv(sha: Sha, log: seq<Secret>)
    requires |log| <= INDEX_END && StoreAll(sha, log).Some?
    ensures Inv(sha, log, StoreAll(sha, log).value)
  {
    if log == [] {
      assert forall b | 0 <= b < BUCKETS :: Unfilled(log, b, EmptyStore()[b]);
    } else {
      var k := |log| - 1;
      RunInv(sha, log[..k]);
      assert log == log[..k] + [log[k]];
      InsertKeepsInv(sha, log[..k], StoreAll(sha, log[..k]).value, log[k]);
    }
  }

  // ---------- what get_secret returns after a run ----------

  // A match in a filled bucket is a received index, and the derivation yields its secret.
  lemma FilledMatch(sha: Sha, log: seq<Secret>, st: Buckets, b: nat, j: nat)
    requires |log| <= INDEX_END && b < BUCKETS && Filled(sha, log, b, st[b]) && Matches(st, b, j)
    ensures Received(log, j)
    ensures Derive(sha, st[b].secret, b + 1, j - st[b].index) == Logged(log, j)
  {
    var d := j - st[b].index;
    LowOfSmall(d, b);
    assert Derive(sha, st[b].secret, b, d) == Logged(log, j);
  }

  // The marker of an unused bucket has two trailing zeros, so only buckets 0, 1 and 2 match it.
  lemma MarkerMatch(j: nat, b: nat)
    requires High(j, b) == EMPTY_INDEX
    ensures b <= 2 && EMPTY_INDEX <= j < EMPTY_INDEX + 4
  {
    if b >= 3 {
      LowOfHigh(j, b, b);
      LowMonotone(EMPTY_INDEX, 3, b);
    } else {
      Pow2Monotone(b, 2);
      assert Pow2(2) == 4;
    }
  }

  lemma FirstZeros()
    ensures WhereToPut(INDEX_END - 1) == 0 && WhereToPut(INDEX_END - 2) == 1
    ensures WhereToPut(INDEX_END - 3) == 0 && WhereToPut(INDEX_END - 4) == 2
  {
    assert Pow2(1) == 2 && Pow2(2) == 4;
    BitsAreDivMod(INDEX_END - 2, 1);
    BitsAreDivMod(INDEX_END - 4, 2);
    WhereToPutIsZeros(INDEX_END - 1, 0);
    WhereToPutIsZeros(INDEX_END - 2, 1);
    WhereToPutIsZeros(INDEX_END - 3, 0);
    WhereToPutIsZeros(INDEX_END - 4, 2);
  }

  // The size of the largest aligned block around j that does not reach below low.
  function BlockBits(j: nat, low: nat, b: nat): (r: nat)
    requires b <= INDEX_BITS && low <= High(j, b)
    ensures b <= r <= INDEX_BITS && low <= High(j, r)
    ensures r < INDEX_BITS ==> High(j, r + 1) < low
    decreases INDEX_BITS - b
  {
    if b == INDEX_BITS || High(j, b + 1) < low then b else BlockBits(j, low, b + 1)
  }

  // That block starts at an index with r trailing zeros, and no index from low on below the start
  // has as many.
  lemma BlockStartZeros(j: nat, low: nat)
    requires low <= j < INDEX_END
    ensures WhereToPut(High(j, BlockBits(j, low, 0))) == BlockBits(j, low, 0)
  {
    Pow48();
    var b := BlockBits(j, low, 0);
    LowOfHigh(j, b, b);
    if b < INDEX_BITS {
      LowStep(j, b);
      BitOfHigh(j, b, b);
    }
    WhereToPutIsZeros(High(j, b), b);
  }

  lemma BlockStartFirst(j: nat, low: nat, y: nat)
    requires low <= j < INDEX_END && low <= y && WhereToPut(y) == BlockBits(j, low, 0)
    ensures High(j, BlockBits(j, low, 0)) <= y
  {
    var b := BlockBits(j, low, 0);
    var x := High(j, b);
    BlockStartZeros(j, low);
    WhereToPutIsZeros(x, b);
    WhereToPutIsZeros(y, b);
    if y < x {
      if b == INDEX_BITS {
        Pow48();
        ClearApart(y, x, b);
      } else {
        LowStep(x, b);
        LowStep(y, b);
        LowStep(j, b);
        LowOfHigh(x, b + 1, b + 1);
        LowOfHigh(y, b + 1, b + 1);
        ClearApart(High(y, b + 1), High(x, b + 1), b + 1);
      }
    }
  }

  // Every received index lies in the block of some filled bucket.
  lemma MatchExists(sha: Sha, log: seq<Secret>, st: Buckets, j: nat) returns (b: nat)
    requires |log| <= INDEX_END && Inv(sha, log, st) && Received(log, j)
    ensures b < BUCKETS && Matches(st, b, j)
  {
    b := BlockBits(j, Lowest(log), 0);
    BlockStartZeros(j, Lowest(log));
    FilledAtMost(sha, log, b, st[b], High(j, b));
    BlockStartFirst(j, Lowest(log), st[b].index);
  }

  // Whichever bucket a received index matches, its secret comes out.
  lemma MatchYields(sha: Sha, log: seq<Secret>, st: Buckets, b: nat, j: nat)
    requires |log| <= INDEX_END && b < BUCKETS && Sound(sha, log, b, st[b])
    requires Received(log, j) && Matches(st, b, j)
    ensures Derive(sha, st[b].secret, b + 1, j - st[b].index) == Logged(log, j)
  {
    if Unfilled(log, b, st[b]) {
      MarkerMatch(j, b);
      UnfilledFew(log, b, st[b]);
    } else {
      FilledMatch(sha, log, st, b, j);
    }
  }

  lemma {:induction false} GetBelowUnique(sha: Sha, st: Buckets, j: nat, n: nat, b: nat, v: Secret)
    requires b < n <= BUCKETS && Matches(st, b, j)
    requires forall m | 0 <= m < n && Matches(st, m, j) ::
               Derive(sha, st[m].secret, m + 1, j - st[m].index) == v
    ensures GetBelow(sha, st, n, j) == Some(v)
    decreases n
  {
    if !Matches(st, n - 1, j) {
      GetBelowUnique(sha, st, j, n - 1, b, v);
    }
  }

  lemma {:induction false} GetBelowSome(sha: Sha, st: Buckets, j: nat, n: nat)
    requires n <= BUCKETS
    ensures GetBelow(sha, st, n, j).Some? <==> exists b :: 0 <= b < n && Matches(st, b, j)
    decreases n
  {
    if n > 0 {
      GetBelowSome(sha, st, j, n - 1);
    }
  }

  lemma ReceivedYields(sha: Sha, log: seq<Secret>, j: nat)
    requires |log| <= INDEX_END && StoreAll(sha, log).Some? && Received(log, j)
    ensures Get(sha, StoreAll(sha, log).value, j) == Some(Logged(log, j))
  {
    RunInv(sha, log);
    var st := StoreAll(sha, log).value;
    var b := MatchExists(sha, log, st, j);
    forall m | 0 <= m < BUCKETS && Matches(st, m, j)
      ensures Derive(sha, st[m].secret, m + 1, j - st[m].index) == Logged(log, j)
    {
      MatchYields(sha, log, st, m, j);
    }
    GetBelowUnique(sha, st, j, BUCKETS, b, Logged(log, j));
  }

  // The 49 buckets refine the map they replace: after any accepted run, whatever the secrets, the
  // index that entry k of the log belongs to yields that entry.
  lemma GetReturnsInserted(sha: Sha, log: seq<Secret>, k: nat, j: nat)
    requires k < |log| <= 0x1_0000_0000_0000 && j == 0xffff_ffff_ffff - k && StoreAll(sha, log).Some?
    ensures Get(sha, StoreAll(sha, log).value, j) == Some(log[k])
  {
    assert Received(log, j) && Logged(log, j) == log[k];
    ReceivedYields(sha, log, j);
  }

  lemma MatchedAnswered(sha: Sha, log: seq<Secret>, st: Buckets, j: nat)
    requires |log| <= INDEX_END && Inv(sha, log, st)
    ensures (exists b :: 0 <= b < BUCKETS && Matches(st, b, j)) <==>
            Received(log, j) || (|log| < 4 && EMPTY_INDEX <= j < EMPTY_INDEX + 4)
  {
    if Received(log, j) {
      var b := MatchExists(sha, log, st, j);
    } else if |log| < 4 && EMPTY_INDEX <= j < EMPTY_INDEX + 4 {
      MarkerAnswers(sha, log, st, j);
    } else if exists b :: 0 <= b < BUCKETS && Matches(st, b, j) {
      var b :| 0 <= b < BUCKETS && Matches(st, b, j);
      if Unfilled(log, b, st[b]) {
        MarkerMatch(j, b);
        UnfilledFew(log, b, st[b]);
      } else {
        FilledMatch(sha, log, st, b, j);
      }
    }
  }

  // An index is answered exactly when it was received, or when fewer than four secrets are in
  // and it is one of the four indices that the marker of an unused bucket stands for.
  lemma GetAnswersExactly(sha: Sha, log: seq<Secret>, j: nat)
    requires |log| <= 0x1_0000_0000_0000 && StoreAll(sha, log).Some?
    ensures Get(sha, StoreAll(sha, log).value, j).Some? <==>
            || 0x1_0000_0000_0000 - |log| <= j < 0x1_0000_0000_0000
            || (|log| < 4 && 0x1234_5678_9abc <= j < 0x1234_5678_9ac0)
  {
    RunInv(sha, log);
    var st := StoreAll(sha, log).value;
    GetBelowSome(sha, st, j, BUCKETS);
    MatchedAnswered(sha, log, st, j);
  }

  lemma UnfilledFew(log: seq<Secret>, b: nat, k: Bucket)
    requires b <= 2 && Unfilled(log, b, k)
    ensures |log| < 4
  {
    FirstZeros();
    if 4 <= |log| {
      assert Received(log, INDEX_END - 1) && Received(log, INDEX_END - 2) && Received(log, INDEX_END - 4);
    }
  }

  lemma MarkerAnswers(sha: Sha, log: seq<Secret>, st: Buckets, j: nat)
    requires |log| < 4 && Inv(sha, log, st) && EMPTY_INDEX <= j < EMPTY_INDEX + 4
    ensures Matches(st, 2, j)
  {
    FirstZeros();
    if Filled(sha, log, 2, st[2]) {
      var y := st[2].index;
      if y == INDEX_END - 1 {} else if y == INDEX_END - 2 {} else if y == INDEX_END - 3 {}
    }
    assert Low(j / 2, 1) == j / 2 % 2;
  }

  // The marker is visible: an empty store answers for an index that was never received.
  lemma EmptyStoreAnswersMarker(sha: Sha)
    ensures Get(sha, EmptyStore(), 0x1234_5678_9abc).Some?
  {
    GetAnswersExactly(sha, [], EMPTY_INDEX);
  }

  // ---------- runs from one seed ----------

  function SeedLog(sha: Sha, seed: Secret, n: nat): (log: seq<Secret>)
    requires n <= INDEX_END
    ensures |log| == n
    ensures forall k :: 0 <= k < n ==> log[k] == CreateSecret(sha, seed, INDEX_END - 1 - k)
  {
    seq(n, k requires 0 <= k < INDEX_END => CreateSecret(sha, seed, INDEX_END - 1 - k))
  }

  // The secret of an index ending in w zeros derives those of the indices that set one of them.
  lemma SeedComposes(sha: Sha, seed: Secret, x: nat, w: nat, b: nat)
    requires Low(x, w) == 0 && b < w <= INDEX_BITS
    ensures Derive(sha, CreateSecret(sha, seed, x), w, x + Pow2(b)) == CreateSecret(sha, seed, x + Pow2(b))
  {
    SetBelow(x, w, b);
    DeriveSplit(sha, seed, INDEX_BITS, w, x + Pow2(b));
  }

  // Secrets created from one seed in descending order are all accepted.
  lemma {:induction false} SeedRunAccepted(sha: Sha, seed: Secret, n: nat)
    requires n <= INDEX_END
    ensures StoreAll(sha, SeedLog(sha, seed, n)).Some?
    decreases n
  {
    if n > 0 {
      SeedRunAccepted(sha, seed, n - 1);
      var log := SeedLog(sha, seed, n - 1);
      var secret := CreateSecret(sha, seed, NextIndex(log));
      assert SeedLog(sha, seed, n) == log + [secret];
      StoreAllStep(sha, log, secret);
      assert Insert(sha, StoreAll(sha, log).value, secret, NextIndex(log)).Some? by {
        RunInv(sha, log);
        SeedAccepted(sha, seed, log, StoreAll(sha, log).value);
      }
    }
  }

  lemma SeedAccepted(sha: Sha, seed: Secret, log: seq<Secret>, st: Buckets)
    requires |log| < INDEX_END && log == SeedLog(sha, seed, |log|) && Inv(sha, log, st)
    ensures Accepts(sha, st, CreateSecret(sha, seed, NextIndex(log)), NextIndex(log))
  {
    var x := NextIndex(log);
    var w := WhereToPut(x);
    WhereToPutIsZeros(x, w);
    forall b | 0 <= b < w
      ensures Derive(sha, CreateSecret(sha, seed, x), w, st[b].index) == st[b].secret
    {
      BucketBelow(sha, log, st, w, b);
      FilledDerives(sha, log, b, st[b], st[b].index);
      DeriveZero(sha, st[b].secret, b, 0);
      SeedComposes(sha, seed, x, w, b);
    }
  }

  // ---------- the C object ----------

  class Storage {
    const storage: array<Bucket>

    ghost predicate Valid()
      reads this, storage
    {
      storage.Length == BUCKETS
    }

    ghost function Contents(): Buckets
      requires Valid()
      reads this, storage
    {
      storage[..]
    }

    constructor ()
      ensures Valid() && fresh(storage) && Contents() == EmptyStore()
    {
      storage := new Bucket[BUCKETS](_ => EmptyBucket());
    }

    // ln_derkey_storage_init
    method Init()
      requires Valid()
      modifies storage
      ensures Contents() == EmptyStore()
    {
      for lp := 0 to BUCKETS
        invariant forall b | 0 <= b < lp :: storage[b] == EmptyBucket()
      {
        storage[lp] := EmptyBucket();
      }
    }

    // ln_derkey_storage_insert_secret. A rejected secret leaves every bucket as it was.
    method InsertSecret(sha: Sha, secret: Secret, index: nat) returns (ok: bool)
      requires Valid()
      modifies storage
      ensures ok <==> Insert(sha, old(Contents()), secret, index).Some?
      ensures Contents() == if ok then Insert(sha, old(Contents()), secret, index).value else old(Contents())
    {
      ghost var st := Contents();
      var output := new bv8[32];
      var bit := WhereToPutSecret(index);
      for lp := 0 to bit
        invariant storage[..] == st
        invariant forall b | 0 <= b < lp :: Derive(sha, secret, bit, st[b].index) == st[b].secret
      {
        DeriveSecret(sha, output, secret, bit - 1, storage[lp].index);
        if output[..] != storage[lp].secret {
          assert Derive(sha, secret, bit, st[lp].index) != st[lp].secret;
          assert !Accepts(sha, st, secret, index);
          return false;
        }
      }
      assert Accepts(sha, st, secret, index);
      storage[bit] := Bucket(secret, index);
      assert storage[..] == st[bit := Bucket(secret, index)];
      return true;
    }

    // ln_derkey_storage_get_secret
    method GetSecret(sha: Sha, pSecret: array<bv8>, index: nat) returns (ret: bool)
      requires Valid() && pSecret.Length == 32
      modifies pSecret
      ensures ret <==> Get(sha, Contents(), index).Some?
      ensures ret ==> pSecret[..] == Get(sha, Contents(), index).value
    {
      for lp := BUCKETS downto 0
        invariant Get(sha, Contents(), index) == GetBelow(sha, Contents(), lp, index)
      {
        if High(index, lp) == storage[lp].index {
          if index == storage[lp].index {
            CopyTo(pSecret, storage[lp].secret);
            DeriveZero(sha, storage[lp].secret, lp + 1, 0);
          } else {
            var diff := index - storage[lp].index;
            DeriveSecret(sha, pSecret, storage[lp].secret, lp, diff);
          }
          return true;
        }
      }
      return false;
    }
  }

  method CopyTo(dst: array<bv8>, src: Secret)
    requires dst.Length == 32
    modifies dst
    ensures dst[..] == src
  {
    forall k | 0 <= k < 32 { dst[k] := src[k]; }
  }

  // derive_secret: flip and rehash a buffer, bit by bit from the top.
  method DeriveSecret(sha: Sha, pOutput: array<bv8>, base: Secret, bit: nat, index: nat)
    requires pOutput.Length == 32 && bit <= INDEX_BITS
    modifies pOutput
    ensures pOutput[..] == Derive(sha, base, bit + 1, index)
  {
    var output := new bv8[32];
    CopyTo(output, base);
    ghost var buf: Secret := base;
    for lp := bit + 1 downto 0
      invariant output[..] == buf
      invariant Derive(sha, base, bit + 1, index) == Derive(sha, buf, lp, index)
    {
      if Bit(index, lp) {
        FlipBit(output, lp);
        CopyTo(output, sha(output[..]));
        buf := sha(Flip(buf, lp));
      }
    }
    CopyTo(pOutput, output[..]);
  }

  method FlipBit(output: array<bv8>, b: nat)
    requires output.Length == 32 && b / 8 < 32
    modifies output
    ensures output[..] == Flip(old(output[..]), b)
  {
    output[b / 8] := output[b / 8] ^ (1 << (b % 8));
  }

  // where_to_put_secret
  method WhereToPutSecret(index: nat) returns (lp: nat)
    ensures lp == WhereToPut(index)
  {
    if Low(index, INDEX_BITS) == 0 {
      WhereToPutIsZeros(index, INDEX_BITS);
      return 48;
    }
    lp := 0;
    while lp < 48
      invariant lp <= 48 && Low(index, lp) == 0
      invariant WhereToPut(index) == WhereFrom(index, lp)
    {
      if Bit(index, lp) {
        break;
      }
      LowStep(index, lp);
      lp := lp + 1;
    }
  }
}
