// bech32_encode and bech32_decode of btc/segwit_addr.c (BIP 173, with the extra length mode that
// Lightning invoices use), on strings. The checksum register is a parameter r, so that nothing
// but the properties in Sound is known of the polynomial; the C code's register is
// Polymod.Bech32Register(), which has them.
module Bech32 {
  import opened Basics
  import opened LinearRegister

  type Reg = Register<bv32>

  // The register after the given symbols, from the start value 1.
  function State(r: Reg, vs: seq<Sym>): bv32 { Run(r, 1, vs) }

  // The encoder's six symbols.
  function ChecksumOf(r: Reg, vs: seq<Sym>): (cs: seq<Sym>)
    ensures |cs| == 6
  {
    LinearRegister.Checksum(r, 1, 1, vs)
  }

  // What a codec needs of its register: the appended symbols bring it to 1, no others do, a
  // change within six symbols always shows, so does one of the first five symbols, their number
  // included, and a bare step absorbs a zero.
  ghost predicate Sound(r: Reg) {
    && (forall vs :: Verifies(r, vs))
    && (forall vs, cs :: Pinned(r, vs, cs))
    && (forall pre, us, vs, post :: BurstShows(r, pre, us, vs, post))
    && (forall us, vs, post :: HeadShows(r, us, vs, post))
    && PlainStep(r)
  }

  ghost predicate Verifies(r: Reg, vs: seq<Sym>) {
    State(r, vs + ChecksumOf(r, vs)) == 1
  }

  ghost predicate Pinned(r: Reg, vs: seq<Sym>, cs: seq<Sym>) {
    |cs| == 6 && State(r, vs + cs) == 1 ==> cs == ChecksumOf(r, vs)
  }

  ghost predicate BurstShows(r: Reg, pre: seq<Sym>, us: seq<Sym>, vs: seq<Sym>, post: seq<Sym>) {
    |us| == |vs| <= 6 && us != vs ==> State(r, pre + us + post) != State(r, pre + vs + post)
  }

  ghost predicate HeadShows(r: Reg, us: seq<Sym>, vs: seq<Sym>, post: seq<Sym>) {
    |us| <= 5 && |vs| <= 5 && us != vs ==> State(r, us + post) != State(r, vs + post)
  }

  ghost predicate PlainStep(r: Reg) {
    forall a :: r.xor(a, r.word(0)) == a
  }

  type Byte = b: nat | b < 256

  // ---------- characters ----------

  function CharsetAt(v: Sym): char {
    match v
    case 0 => 'q' case 1 => 'p' case 2 => 'z' case 3 => 'r'
    case 4 => 'y' case 5 => '9' case 6 => 'x' case 7 => '8'
    case 8 => 'g' case 9 => 'f' case 10 => '2' case 11 => 't'
    case 12 => 'v' case 13 => 'd' case 14 => 'w' case 15 => '0'
    case 16 => 's' case 17 => '3' case 18 => 'j' case 19 => 'n'
    case 20 => '5' case 21 => '4' case 22 => 'k' case 23 => 'h'
    case 24 => 'c' case 25 => 'e' case 26 => '6' case 27 => 'm'
    case 28 => 'u' case 29 => 'a' case 30 => '7' case _ => 'l'
  }

  predicate IsUpper(c: char) { 'A' <= c <= 'Z' }

  predicate IsLower(c: char) { 'a' <= c <= 'z' }

  function Lower(c: char): char { if IsUpper(c) then (c as int + 32) as char else c }

  // charset_rev: the same value for both cases of a letter, -1 outside the alphabet.
  function CharsetRev(c: char): int {
    match Lower(c)
    case 'q' => 0 case 'p' => 1 case 'z' => 2 case 'r' => 3
    case 'y' => 4 case '9' => 5 case 'x' => 6 case '8' => 7
    case 'g' => 8 case 'f' => 9 case '2' => 10 case 't' => 11
    case 'v' => 12 case 'd' => 13 case 'w' => 14 case '0' => 15
    case 's' => 16 case '3' => 17 case 'j' => 18 case 'n' => 19
    case '5' => 20 case '4' => 21 case 'k' => 22 case 'h' => 23
    case 'c' => 24 case 'e' => 25 case '6' => 26 case 'm' => 27
    case 'u' => 28 case 'a' => 29 case '7' => 30 case 'l' => 31
    case _ => -1
  }

  lemma CharsetInverse(v: Sym)
    ensures CharsetRev(CharsetAt(v)) == v as int && CharsetAt(v) != '1' && !IsUpper(CharsetAt(v))
  {
  }

  lemma CharsetCanonical(c: char)
    ensures -1 <= CharsetRev(c) < 32
    ensures CharsetRev(c) != -1 ==> CharsetAt(CharsetRev(c) as Sym) == Lower(c) && c != '1'
    ensures CharsetRev(Lower(c)) == CharsetRev(c)
  {
  }

  // ---------- pieces of a string ----------

  predicate HrpChar(c: char) { 33 <= c as int <= 126 }

  function Hi(c: char): Sym { (c as int / 32 % 32) as Sym }

  function Lo(c: char): Sym { (c as int % 32) as Sym }

  function HiPart(s: string): (r: seq<Sym>)
    ensures |r| == |s|
  {
    seq(|s|, i requires 0 <= i < |s| => Hi(s[i]))
  }

  function LoPart(s: string): (r: seq<Sym>)
    ensures |r| == |s|
  {
    seq(|s|, i requires 0 <= i < |s| => Lo(s[i]))
  }

  function Expand(hrp: string): seq<Sym> { HiPart(hrp) + [0] + LoPart(hrp) }

  function LowerAll(s: string): (r: string)
    ensures |r| == |s|
  {
    seq(|s|, i requires 0 <= i < |s| => Lower(s[i]))
  }

  function Chars(vs: seq<Sym>): (r: string)
    ensures |r| == |vs|
  {
    seq(|vs|, i requires 0 <= i < |vs| => CharsetAt(vs[i]))
  }

  predicate InCharset(s: string) {
    forall i | 0 <= i < |s| :: CharsetRev(s[i]) != -1
  }

  function Values(s: string): (r: seq<Sym>)
    requires InCharset(s)
    ensures |r| == |s|
  {
    seq(|s|, i requires 0 <= i < |s| => Value(s[i]))
  }

  function Value(c: char): Sym
    requires CharsetRev(c) != -1
  {
    CharsetCanonical(c);
    CharsetRev(c) as Sym
  }

  predicate AllSymbols(data: seq<Byte>) {
    forall i | 0 <= i < |data| :: data[i] < 32
  }

  function Symbols(data: seq<Byte>): (r: seq<Sym>)
    requires AllSymbols(data)
    ensures |r| == |data|
  {
    seq(|data|, i requires 0 <= i < |data| => data[i] as Sym)
  }

  function Bytes(vs: seq<Sym>): (r: seq<Byte>)
    ensures |r| == |vs| && AllSymbols(r) && Symbols(r) == vs
  {
    seq(|vs|, i requires 0 <= i < |vs| => vs[i] as int)
  }

  // ---------- the codec ----------

  function Checksum(r: Reg, hrp: string, vs: seq<Sym>): (cs: seq<Sym>)
    ensures |cs| == 6
  {
    ChecksumOf(r, Expand(hrp) + vs)
  }

  function Assemble(r: Reg, hrp: string, vs: seq<Sym>): string {
    hrp + ['1'] + Chars(vs + Checksum(r, hrp, vs))
  }

  predicate EncodableHrp(hrp: string) {
    forall i | 0 <= i < |hrp| :: HrpChar(hrp[i]) && !IsUpper(hrp[i])
  }

  function Encode(r: Reg, hrp: string, data: seq<Byte>, ln: bool): Option<string> {
    if !EncodableHrp(hrp) || (!ln && |hrp| + 7 + |data| > 90) || !AllSymbols(data) then None
    else Some(Assemble(r, hrp, Symbols(data)))
  }

  // The position of the last '1', -1 if there is none.
  function LastOne(s: string): (r: int)
    ensures -1 <= r < |s|
    ensures r >= 0 ==> s[r] == '1'
    ensures forall i | r < i < |s| :: s[i] != '1'
  {
    if s == [] then -1
    else if s[|s| - 1] == '1' then |s| - 1
    else LastOne(s[..|s| - 1])
  }

  const LN_MIN: nat := 4 + 1 + 7 + 104 + 6

  predicate LengthOk(n: nat, ln: bool) {
    if ln then LN_MIN <= n else 8 <= n <= 90
  }

  predicate MixedCase(s: string) {
    (exists i | 0 <= i < |s| :: IsLower(s[i])) && (exists i | 0 <= i < |s| :: IsUpper(s[i]))
  }

  // Length and case are right and there is a separator with enough on either side.
  predicate Framed(s: string, ln: bool) {
    LengthOk(|s|, ln) && 1 <= LastOne(s) && LastOne(s) + 7 <= |s| && !MixedCase(s)
  }

  predicate GoodHrp(h: string) {
    forall i | 0 <= i < |h| :: HrpChar(h[i])
  }

  // The human readable part h and the data part t, checksum included.
  function DecodePieces(r: Reg, h: string, t: string): Option<(string, seq<Sym>)>
    requires |t| >= 6
  {
    if !GoodHrp(h) || !InCharset(t) || State(r, Expand(LowerAll(h)) + Values(t)) != 1 then None
    else Some((LowerAll(h), Values(t)[..|t| - 6]))
  }

  function Decode(r: Reg, s: string, ln: bool): Option<(string, seq<Sym>)> {
    if !Framed(s, ln) then None else DecodePieces(r, s[..LastOne(s)], s[LastOne(s) + 1..])
  }

  // ---------- round trips ----------

  lemma LastOneUnique(s: string, i: nat)
    requires i < |s| && s[i] == '1' && forall j | i < j < |s| :: s[j] != '1'
    ensures LastOne(s) == i
  {
  }

  lemma ValuesOfChars(vs: seq<Sym>)
    ensures InCharset(Chars(vs)) && Values(Chars(vs)) == vs
    ensures forall i | 0 <= i < |vs| :: Chars(vs)[i] != '1' && !IsUpper(Chars(vs)[i])
  {
    forall i | 0 <= i < |vs|
      ensures CharsetRev(Chars(vs)[i]) == vs[i] as int && Chars(vs)[i] != '1' && !IsUpper(Chars(vs)[i])
    {
      CharsetInverse(vs[i]);
    }
  }

  lemma CharsOfValues(s: string)
    requires InCharset(s)
    ensures Chars(Values(s)) == LowerAll(s)
  {
    forall i | 0 <= i < |s| ensures Chars(Values(s))[i] == LowerAll(s)[i] {
      CharsetCanonical(s[i]);
    }
  }

  // Decoding what was encoded gives it back, exactly when the human readable part is not empty
  // and, for an invoice, the string is as long as the decoder asks.
  lemma EncodeThenDecode(r: Reg, hrp: string, data: seq<Byte>, ln: bool)
    requires Sound(r) && Encode(r, hrp, data, ln).Some?
    ensures var s := Encode(r, hrp, data, ln).value;
            Decode(r, s, ln) == if hrp != [] && (ln ==> LN_MIN <= |s|) then Some((hrp, Symbols(data))) else None
  {
    var vs := Symbols(data);
    AssembledPieces(r, hrp, vs);
    PiecesDecoded(r, hrp, vs);
  }

  lemma PiecesDecoded(r: Reg, hrp: string, vs: seq<Sym>)
    requires Sound(r) && EncodableHrp(hrp)
    ensures DecodePieces(r, hrp, Chars(vs + Checksum(r, hrp, vs))) == Some((hrp, vs))
  {
    var all := vs + Checksum(r, hrp, vs);
    assert Verifies(r, Expand(hrp) + vs);
    Regroup(Expand(hrp), vs, Checksum(r, hrp, vs));
    ValuesOfChars(all);
    assert LowerAll(hrp) == hrp;
    assert all[..|vs|] == vs;
  }

  lemma Regroup(a: seq<Sym>, b: seq<Sym>, c: seq<Sym>)
    ensures a + b + c == a + (b + c)
  {
  }

  lemma AssembledPieces(r: Reg, hrp: string, vs: seq<Sym>)
    requires EncodableHrp(hrp)
    ensures var s := Assemble(r, hrp, vs);
            && LastOne(s) == |hrp| && |s| == |hrp| + |vs| + 7 && !MixedCase(s)
            && s[..|hrp|] == hrp && s[|hrp| + 1..] == Chars(vs + Checksum(r, hrp, vs))
  {
    var all := vs + Checksum(r, hrp, vs);
    var s := hrp + ['1'] + Chars(all);
    ValuesOfChars(all);
    forall j | |hrp| < j < |s| ensures s[j] != '1' {
      assert s[j] == Chars(all)[j - |hrp| - 1];
    }
    LastOneUnique(s, |hrp|);
    forall i | 0 <= i < |s| ensures !IsUpper(s[i]) {
      assert i <= |hrp| || s[i] == Chars(all)[i - |hrp| - 1];
    }
  }

  // Every accepted string re-encodes to its own lower case, so an address has one spelling and
  // one checksum.
  lemma DecodeThenEncode(r: Reg, s: string, ln: bool)
    requires Sound(r) && Decode(r, s, ln).Some?
    ensures var (hrp, vs) := Decode(r, s, ln).value; Encode(r, hrp, Bytes(vs), ln) == Some(LowerAll(s))
  {
    var sep := LastOne(s);
    PiecesEncoded(r, s[..sep], s[sep + 1..]);
    LowerPieces(s, sep);
  }

  lemma PiecesEncoded(r: Reg, h: string, t: string)
    requires Sound(r) && |t| >= 6 && DecodePieces(r, h, t).Some?
    ensures InCharset(t) && EncodableHrp(LowerAll(h))
    ensures var (hrp, vs) := DecodePieces(r, h, t).value;
            Assemble(r, hrp, vs) == LowerAll(h) + ['1'] + Chars(Values(t))
  {
    AcceptedChecksum(r, LowerAll(h), Values(t));
  }

  lemma AcceptedChecksum(r: Reg, hrp: string, all: seq<Sym>)
    requires Sound(r) && |all| >= 6 && State(r, Expand(hrp) + all) == 1
    ensures all == all[..|all| - 6] + Checksum(r, hrp, all[..|all| - 6])
  {
    var vs, cs := all[..|all| - 6], all[|all| - 6..];
    assert Pinned(r, Expand(hrp) + vs, cs);
    SplitAt(all, |all| - 6);
    Regroup(Expand(hrp), vs, cs);
  }

  lemma SplitAt(s: seq<Sym>, i: nat)
    requires i <= |s|
    ensures s == s[..i] + s[i..]
  {
  }

  lemma LowerPieces(s: string, sep: nat)
    requires sep < |s| && s[sep] == '1' && InCharset(s[sep + 1..])
    ensures LowerAll(s[..sep]) + ['1'] + Chars(Values(s[sep + 1..])) == LowerAll(s)
  {
    CharsOfValues(s[sep + 1..]);
  }

  // ---------- burst detection ----------

  // s and t differ only inside the n data positions from i on, there in a symbol, and t has no
  // separator there.
  ghost predicate BurstApart(s: string, t: string, i: nat, n: nat) {
    && |s| == |t| && LastOne(s) < i && i + n <= |s|
    && SameOutside(s, t, i, n)
    && (forall k | i <= k < i + n :: t[k] != '1')
    && DiffersIn(s, t, i, n)
  }

  // Some character of the n from i on stands for another symbol.
  ghost predicate DiffersIn(s: string, t: string, i: nat, n: nat)
    requires i + n <= |s| == |t|
  {
    n > 0 && (CharsetRev(s[i + n - 1]) != CharsetRev(t[i + n - 1]) || DiffersIn(s, t, i, n - 1))
  }

  lemma {:induction false} DiffersAt(s: string, t: string, i: nat, n: nat) returns (k: nat)
    requires i + n <= |s| == |t| && DiffersIn(s, t, i, n)
    ensures i <= k < i + n && CharsetRev(s[k]) != CharsetRev(t[k])
  {
    k := i + n - 1;
    if CharsetRev(s[k]) == CharsetRev(t[k]) { k := DiffersAt(s, t, i, n - 1); }
  }

  lemma BurstInSymbols(r: Reg, x: seq<Sym>, us: seq<Sym>, vs: seq<Sym>, a: nat, n: nat)
    requires Sound(r) && n <= 6 && a + n <= |us| == |vs| && us != vs
    requires us[..a] == vs[..a] && us[a + n..] == vs[a + n..]
    ensures State(r, x + us) != State(r, x + vs)
  {
    var u, v := us[a..a + n], vs[a..a + n];
    assert BurstShows(r, x + us[..a], u, v, us[a + n..]);
    Window(x, us, a, n);
    Window(x, vs, a, n);
  }

  lemma Window(x: seq<Sym>, s: seq<Sym>, a: nat, n: nat)
    requires a + n <= |s|
    ensures s == s[..a] + s[a..a + n] + s[a + n..]
    ensures x + s[..a] + s[a..a + n] + s[a + n..] == x + s
  {
  }

  lemma BurstValues(s: string, t: string, i: nat, n: nat, k: nat)
    requires i <= k < i + n <= |s| == |t| && InCharset(s) && InCharset(t) && SameOutside(s, t, i, n)
    requires CharsetRev(s[k]) != CharsetRev(t[k])
    ensures Values(s)[..i] == Values(t)[..i] && Values(s)[i + n..] == Values(t)[i + n..]
    ensures Values(s) != Values(t)
  {
    forall j | 0 <= j < i ensures Values(s)[j] == Values(t)[j] { assert s[..i][j] == t[..i][j]; }
    forall j | i + n <= j < |s| ensures Values(s)[j] == Values(t)[j] {
      assert s[i + n..][j - i - n] == t[i + n..][j - i - n];
    }
    assert Values(s)[k] as int == CharsetRev(s[k]) && Values(t)[k] as int == CharsetRev(t[k]);
  }

  predicate SameOutside(s: string, t: string, i: nat, n: nat)
    requires i + n <= |s| == |t|
  {
    s[..i] == t[..i] && s[i + n..] == t[i + n..]
  }

  lemma SameSuffix(s: string, t: string, m: nat, i: nat, n: nat)
    requires m <= i && i + n <= |s| == |t| && SameOutside(s, t, i, n)
    ensures SameOutside(s[m..], t[m..], i - m, n)
  {
    assert s[m..][..i - m] == s[..i][m..] && t[m..][..i - m] == t[..i][m..];
    assert s[m..][i - m + n..] == s[i + n..] && t[m..][i - m + n..] == t[i + n..];
  }

  lemma BurstSplit(s: string, t: string, i: nat, n: nat)
    requires BurstApart(s, t, i, n) && LastOne(s) >= 0
    ensures LastOne(t) == LastOne(s) && t[..LastOne(s)] == s[..LastOne(s)]
  {
    LastOneUnique(t, LastOne(s));
  }

  // A change within six symbols of the data part t, in symbol k.
  lemma BurstInPieces(r: Reg, h: string, t: string, u: string, i: nat, n: nat, k: nat)
    requires Sound(r) && 6 <= |t| == |u| && n <= 6 && DecodePieces(r, h, t).Some?
    requires i <= k < i + n <= |t| && SameOutside(t, u, i, n) && CharsetRev(t[k]) != CharsetRev(u[k])
    ensures DecodePieces(r, h, u).None?
  {
    if InCharset(u) {
      BurstValues(t, u, i, n, k);
      BurstInSymbols(r, Expand(LowerAll(h)), Values(t), Values(u), i, n);
    }
  }

  // Any change confined to six consecutive data characters is detected, whatever the length.
  lemma BurstDetected(r: Reg, s: string, t: string, ln: bool, i: nat, n: nat)
    requires Sound(r) && Decode(r, s, ln).Some? && BurstApart(s, t, i, n) && n <= 6
    ensures Decode(r, t, ln).None?
  {
    var sep, h, u, v, k := BurstPieces(s, t, i, n);
    BurstAt(r, s, t, ln, sep, h, u, v, i - (sep + 1), n, k);
  }

  // The common human readable part, the two data parts, and a symbol in which they differ.
  lemma BurstPieces(s: string, t: string, i: nat, n: nat)
    returns (sep: nat, h: string, u: string, v: string, k: nat)
    requires BurstApart(s, t, i, n) && LastOne(s) >= 0
    ensures LastOne(s) == LastOne(t) == sep < i && h == s[..sep] == t[..sep]
    ensures u == s[sep + 1..] && v == t[sep + 1..]
    ensures i - (sep + 1) <= k < i - (sep + 1) + n <= |u| == |v|
    ensures SameOutside(u, v, i - (sep + 1), n) && CharsetRev(u[k]) != CharsetRev(v[k])
  {
    sep := LastOne(s);
    BurstSplit(s, t, i, n);
    h, u, v := s[..sep], s[sep + 1..], t[sep + 1..];
    k := BurstWitness(s, t, sep + 1, i, n);
  }

  // Where the suffixes from m on differ.
  lemma BurstWitness(s: string, t: string, m: nat, i: nat, n: nat) returns (k: nat)
    requires m <= i && i + n <= |s| == |t| && SameOutside(s, t, i, n)
    requires DiffersIn(s, t, i, n)
    ensures SameOutside(s[m..], t[m..], i - m, n)
    ensures i - m <= k < i - m + n && CharsetRev(s[m..][k]) != CharsetRev(t[m..][k])
  {
    SameSuffix(s, t, m, i, n);
    var j := DiffersAt(s, t, i, n);
    k := j - m;
    assert s[m..][k] == s[j] && t[m..][k] == t[j];
  }

  // The same with the pieces named: u and v are the data parts, and differ in symbol k.
  lemma BurstAt(r: Reg, s: string, t: string, ln: bool, sep: nat, h: string, u: string, v: string,
                i: nat, n: nat, k: nat)
    requires Sound(r) && Decode(r, s, ln).Some? && n <= 6
    requires LastOne(s) == LastOne(t) == sep && h == s[..sep] == t[..sep]
    requires u == s[sep + 1..] && v == t[sep + 1..]
    requires i <= k < i + n <= |u| == |v| && SameOutside(u, v, i, n) && CharsetRev(u[k]) != CharsetRev(v[k])
    ensures Decode(r, t, ln).None?
  {
    DecodeAt(r, s, ln, sep, h, u);
    DecodeAt(r, t, ln, sep, h, v);
    if Decode(r, t, ln).Some? {
      BurstInPieces(r, h, u, v, i, n, k);
    }
  }

  lemma DecodeAt(r: Reg, s: string, ln: bool, sep: nat, h: string, t: string)
    requires LastOne(s) == sep && h == s[..sep] && t == s[sep + 1..]
    ensures Decode(r, s, ln).Some? ==> |t| >= 6 && Decode(r, s, ln) == DecodePieces(r, h, t)
  {
  }
}
