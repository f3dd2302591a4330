// btc_tx_read rebuilds what btcl_util_create_tx wrote.
module TxRoundTrip {
  import opened Basics
  import opened Powers
  import opened TxFormat
  import opened TxReader

  predicate VinFits(v: Vin) {
    && |v.txid| == 32 && v.index < WORD && v.sequence < WORD && |v.script| < 65536
    && |v.wit| < 65536 && forall i | 0 <= i < |v.wit| :: |v.wit[i]| < 65536
  }

  predicate VoutFits(o: Vout) { o.value < WORD * WORD && |o.script| < 65536 }

  // Transactions that have an encoding: fields in the range of their C types, lengths in 16 bits,
  // and at least one input, without which the marker of BIP 144 cannot be told apart.
  predicate Encodable(tx: Tx) {
    && 1 <= |tx.vins| < 65536 && |tx.vouts| < 65536 && tx.locktime < WORD
    && -0x8000_0000 <= tx.version < 0x8000_0000
    && (forall i | 0 <= i < |tx.vins| :: VinFits(tx.vins[i]))
    && (forall i | 0 <= i < |tx.vouts| :: VoutFits(tx.vouts[i]))
  }

  function Bare(v: Vin): Vin { v.(wit := []) }

  // ---------- fields ----------

  lemma VarintRead(m: Memory, pos: nat, n: nat)
    requires HoldsAt(m, pos, Varint(n)) && n < 65536
    ensures GetVarint(m, pos) == (|Varint(n)|, n)
  {
    HoldsByte(m, pos, Varint(n), 0);
    if n >= 0xfd {
      HoldsByte(m, pos, Varint(n), 1);
      HoldsByte(m, pos, Varint(n), 2);
    }
  }

  lemma LeRead(m: Memory, pos: nat, n: nat, k: nat)
    requires HoldsAt(m, pos, Le(n, k)) && n < Pow256(k)
    ensures GetLe(m, pos, k) == n
  {
    LeRoundTrip(n, k);
  }

  lemma BlobRead(m: Memory, pos: nat, x: Octets)
    requires HoldsAt(m, pos, Blob(x)) && |x| < 65536
    ensures var (k, n) := GetVarint(m, pos);
            n == |x| && 1 <= k <= 3 && |Blob(x)| == k + n && Read(m, pos + k, n) == x
  {
    HoldsParts(m, pos, Varint(|x|), x);
    VarintRead(m, pos, |x|);
  }

  lemma VinRead(m: Memory, pos: nat, v: Vin)
    requires HoldsAt(m, pos, VinBytes(v)) && VinFits(v)
    ensures var (k, n) := GetVarint(m, pos + 36);
            k >= 1 && |VinBytes(v)| == 40 + k + n && ReadVin(m, pos, k, n) == Bare(v)
  {
    HoldsParts(m, pos, VinHead(v) + Blob(v.script), Le(v.sequence, 4));
    HoldsParts(m, pos, VinHead(v), Blob(v.script));
    HoldsParts(m, pos, v.txid, Le(v.index, 4));
    Words();
    LeRead(m, pos + 32, v.index, 4);
    BlobRead(m, pos + 36, v.script);
    LeRead(m, pos + 36 + |Blob(v.script)|, v.sequence, 4);
  }

  lemma VoutRead(m: Memory, pos: nat, o: Vout)
    requires HoldsAt(m, pos, VoutBytes(o)) && VoutFits(o)
    ensures var (k, n) := GetVarint(m, pos + 8);
            k >= 1 && |VoutBytes(o)| == 8 + k + n && ReadVout(m, pos, k, n) == o
  {
    HoldsParts(m, pos, Le(o.value, 8), Blob(o.script));
    Words();
    LeRead(m, pos, o.value, 8);
    BlobRead(m, pos + 8, o.script);
  }

  // ---------- lists ----------

  lemma {:induction false} FlatAt<T>(m: Memory, at: nat, f: T -> Octets, xs: seq<T>, i: nat, pos: nat)
    requires HoldsAt(m, at, Flat(f, xs)) && i < |xs| && pos == at + |Flat(f, xs[..i])|
    ensures HoldsAt(m, pos, f(xs[i]))
    ensures pos + |f(xs[i])| == at + |Flat(f, xs[..i + 1])| <= at + |Flat(f, xs)|
    decreases |xs|
  {
    var n := |xs| - 1;
    HoldsParts(m, at, Flat(f, xs[..n]), f(xs[n]));
    FlatSnoc(f, xs, i);
    FlatPrefix(f, xs, i + 1);
    if i < n {
      assert xs[..n][..i] == xs[..i];
      FlatAt(m, at, f, xs[..n], i, pos);
    }
  }

  lemma {:induction false} ItemsRead(e: Source, at: nat, ws: seq<Octets>, i: nat)
    requires HoldsAt(e.m, at, Flat(Blob, ws)) && at + |Flat(Blob, ws)| + 4 <= e.len && i <= |ws|
    requires forall j | 0 <= j < |ws| :: |ws[j]| < 65536
    ensures ReadItems(e, at, 0, |ws|, []) == ReadItems(e, at + |Flat(Blob, ws[..i])|, i, |ws|, ws[..i])
  {
    if i > 0 {
      ItemsRead(e, at, ws, i - 1);
      OneItem(e, at, ws, i, at + |Flat(Blob, ws[..i - 1])|, at + |Flat(Blob, ws[..i])|);
    }
  }

  lemma OneItem(e: Source, at: nat, ws: seq<Octets>, i: nat, pos: nat, end: nat)
    requires HoldsAt(e.m, at, Flat(Blob, ws)) && at + |Flat(Blob, ws)| + 4 <= e.len
    requires 0 < i <= |ws| && |ws[i - 1]| < 65536
    requires pos == at + |Flat(Blob, ws[..i - 1])| && end == at + |Flat(Blob, ws[..i])|
    ensures ReadItems(e, pos, i - 1, |ws|, ws[..i - 1]) == ReadItems(e, end, i, |ws|, ws[..i])
  {
    FlatAt(e.m, at, Blob, ws, i - 1, pos);
    ItemAt(e, pos, i - 1, ws[i - 1]);
    ItemTaken(e, pos, ws, i, end);
  }

  lemma ItemAt(e: Source, pos: nat, i: nat, x: Octets)
    requires HoldsAt(e.m, pos, Blob(x)) && |x| < 65536 && pos + |Blob(x)| + 4 <= e.len
    ensures NextItem(e, pos, i) == (pos + |Blob(x)|, x)
  {
    BlobRead(e.m, pos, x);
  }

  lemma ItemTaken(e: Source, pos: nat, ws: seq<Octets>, i: nat, end: nat)
    requires 0 < i <= |ws| && NextItem(e, pos, i - 1) == (end, ws[i - 1])
    ensures ReadItems(e, pos, i - 1, |ws|, ws[..i - 1]) == ReadItems(e, end, i, |ws|, ws[..i])
  {
    assert ws[..i] == ws[..i - 1] + [ws[i - 1]];
  }

  lemma WitnessRead(e: Source, pos: nat, v: Vin)
    requires HoldsAt(e.m, pos, WitnessBytes(v)) && VinFits(v) && pos + |WitnessBytes(v)| + 4 <= e.len
    ensures var (k, n) := GetVarint(e.m, pos);
            n == |v.wit| && ReadItems(e, pos + k, 0, n, []) == (pos + |WitnessBytes(v)|, v.wit)
  {
    HoldsParts(e.m, pos, Varint(|v.wit|), Flat(Blob, v.wit));
    VarintRead(e.m, pos, |v.wit|);
    ItemsRead(e, pos + |Varint(|v.wit|)|, v.wit, |v.wit|);
    assert v.wit[..|v.wit|] == v.wit;
  }

  // ---------- inputs ----------

  // One more turn.
  lemma StepMore(e: Source, r: Reader, mid: Reader, n: nat) returns (r': Reader)
    requires Takes(e, r, mid, n) && Valid(mid) && mid.pos < e.len
    ensures r' == Step(e, mid) && Takes(e, r, r', n + 1)
  {
    TakesOne(e, mid);
    TakesMore(e, r, mid, Step(e, mid), n, 1);
    r' := Step(e, mid);
  }

  // The reader after i of the inputs that start at position at.
  ghost predicate AfterVins(r: Reader, at: nat, vins: seq<Vin>, i: nat) {
    && i <= |vins| == |r.vins| && r.cnt == i && r.pos == at + |Flat(VinBytes, vins[..i])|
    && r.state == (if i == |vins| then 2 else 1)
    && forall j | 0 <= j < i :: r.vins[j] == Bare(vins[j])
  }

  predicate SameOthers(a: Reader, b: Reader) {
    a.segwit == b.segwit && a.vouts == b.vouts && a.locktime == b.locktime
  }

  lemma VinsStep(e: Source, r: Reader, at: nat, vins: seq<Vin>, i: nat)
    requires HoldsAt(e.m, at, Flat(VinBytes, vins)) && at + |Flat(VinBytes, vins)| + 5 <= e.len
    requires i < |vins| && AfterVins(r, at, vins, i) && VinFits(vins[i])
    ensures r.pos < e.len && AfterVins(Step(e, r), at, vins, i + 1) && SameOthers(r, Step(e, r))
  {
    FlatAt(e.m, at, VinBytes, vins, i, r.pos);
    VinTaken(e, r, vins[i]);
    VinSet(r, Step(e, r), at, vins, i);
  }

  // A turn that reads one input.
  lemma VinTaken(e: Source, r: Reader, v: Vin)
    requires r.state == 1 && r.cnt < |r.vins|
    requires HoldsAt(e.m, r.pos, VinBytes(v)) && VinFits(v) && r.pos + |VinBytes(v)| + 5 <= e.len
    ensures Step(e, r) == r.(vins := r.vins[r.cnt := Bare(v)], pos := r.pos + |VinBytes(v)|, cnt := r.cnt + 1,
                             state := if r.cnt + 1 >= |r.vins| then 2 else 1)
  {
    VinRead(e.m, r.pos, v);
  }

  lemma VinSet(r: Reader, r': Reader, at: nat, vins: seq<Vin>, i: nat)
    requires i < |vins| && AfterVins(r, at, vins, i)
    requires r' == r.(vins := r.vins[i := Bare(vins[i])], pos := at + |Flat(VinBytes, vins[..i + 1])|,
                      cnt := i + 1, state := if i + 1 >= |r.vins| then 2 else 1)
    ensures AfterVins(r', at, vins, i + 1)
  {
  }

  lemma {:induction false} VinsRun(e: Source, r: Reader, at: nat, vins: seq<Vin>, i: nat) returns (r': Reader)
    requires HoldsAt(e.m, at, Flat(VinBytes, vins)) && at + |Flat(VinBytes, vins)| + 5 <= e.len
    requires vins != [] && AfterVins(r, at, vins, 0) && i <= |vins|
    requires forall j | 0 <= j < |vins| :: VinFits(vins[j])
    ensures Takes(e, r, r', i) && AfterVins(r', at, vins, i) && SameOthers(r, r')
  {
    r' := r;
    if i > 0 {
      var mid := VinsRun(e, r, at, vins, i - 1);
      VinsStep(e, mid, at, vins, i - 1);
      r' := StepMore(e, r, mid, i - 1);
    }
  }

  // ---------- outputs ----------

  ghost predicate AfterVouts(r: Reader, at: nat, vouts: seq<Vout>, i: nat) {
    && i <= |vouts| == |r.vouts| && r.cnt == (if i == |vouts| then 0 else i)
    && r.pos == at + |Flat(VoutBytes, vouts[..i])|
    && r.state == (if i == |vouts| then AfterOutputs(r.segwit) else 3)
    && r.vouts[..i] == vouts[..i]
  }

  predicate SameInputs(a: Reader, b: Reader) {
    a.segwit == b.segwit && a.vins == b.vins && a.locktime == b.locktime
  }

  lemma VoutsStep(e: Source, r: Reader, at: nat, vouts: seq<Vout>, i: nat)
    requires HoldsAt(e.m, at, Flat(VoutBytes, vouts)) && at + |Flat(VoutBytes, vouts)| + 4 <= e.len
    requires i < |vouts| && AfterVouts(r, at, vouts, i) && VoutFits(vouts[i])
    ensures r.pos < e.len && AfterVouts(Step(e, r), at, vouts, i + 1) && SameInputs(r, Step(e, r))
  {
    FlatAt(e.m, at, VoutBytes, vouts, i, r.pos);
    VoutTaken(e, r, vouts[i]);
    VoutSet(r, Step(e, r), at, vouts, i);
  }

  // A turn that reads one output.
  lemma VoutTaken(e: Source, r: Reader, o: Vout)
    requires r.state == 3 && r.cnt < |r.vouts|
    requires HoldsAt(e.m, r.pos, VoutBytes(o)) && VoutFits(o) && r.pos + |VoutBytes(o)| + 4 <= e.len
    ensures Step(e, r) == r.(vouts := r.vouts[r.cnt := o], pos := r.pos + |VoutBytes(o)|,
                             cnt := if r.cnt + 1 == |r.vouts| then 0 else r.cnt + 1,
                             state := if r.cnt + 1 == |r.vouts| then AfterOutputs(r.segwit) else 3)
  {
    VoutRead(e.m, r.pos, o);
  }

  lemma VoutSet(r: Reader, r': Reader, at: nat, vouts: seq<Vout>, i: nat)
    requires i < |vouts| && AfterVouts(r, at, vouts, i)
    requires r' == r.(vouts := r.vouts[i := vouts[i]], pos := at + |Flat(VoutBytes, vouts[..i + 1])|,
                      cnt := if i + 1 == |vouts| then 0 else i + 1,
                      state := if i + 1 == |vouts| then AfterOutputs(r.segwit) else 3)
    ensures AfterVouts(r', at, vouts, i + 1)
  {
    assert vouts[..i + 1] == vouts[..i] + [vouts[i]];
  }

  lemma {:induction false} VoutsRun(e: Source, r: Reader, at: nat, vouts: seq<Vout>, i: nat) returns (r': Reader)
    requires HoldsAt(e.m, at, Flat(VoutBytes, vouts)) && at + |Flat(VoutBytes, vouts)| + 4 <= e.len
    requires AfterVouts(r, at, vouts, 0) && i <= |vouts|
    requires forall j | 0 <= j < |vouts| :: VoutFits(vouts[j])
    ensures Takes(e, r, r', i) && AfterVouts(r', at, vouts, i) && SameInputs(r, r')
  {
    r' := r;
    if i > 0 {
      var mid := VoutsRun(e, r, at, vouts, i - 1);
      VoutsStep(e, mid, at, vouts, i - 1);
      r' := StepMore(e, r, mid, i - 1);
    }
  }

  // ---------- witnesses ----------

  ghost predicate AfterWits(r: Reader, at: nat, vins: seq<Vin>, i: nat) {
    && i <= |vins| == |r.vins| && r.cnt == i && r.pos == at + |Flat(WitnessBytes, vins[..i])|
    && r.state == (if i == |vins| then 5 else 4)
    && (forall j | 0 <= j < i :: r.vins[j] == vins[j])
    && (forall j | i <= j < |vins| :: r.vins[j] == Bare(vins[j]))
  }

  lemma WitsStep(e: Source, r: Reader, at: nat, vins: seq<Vin>, i: nat)
    requires HoldsAt(e.m, at, Flat(WitnessBytes, vins)) && at + |Flat(WitnessBytes, vins)| + 4 <= e.len
    requires i < |vins| && AfterWits(r, at, vins, i) && VinFits(vins[i])
    ensures r.pos < e.len && AfterWits(Step(e, r), at, vins, i + 1) && SameOthers(r, Step(e, r))
  {
    FlatAt(e.m, at, WitnessBytes, vins, i, r.pos);
    WitnessTaken(e, r, vins[i]);
    WitnessSet(r, Step(e, r), at, vins, i);
  }

  // A turn that reads one witness field.
  lemma WitnessTaken(e: Source, r: Reader, v: Vin)
    requires r.state == 4 && r.cnt < |r.vins| && r.vins[r.cnt] == Bare(v)
    requires HoldsAt(e.m, r.pos, WitnessBytes(v)) && VinFits(v) && r.pos + |WitnessBytes(v)| + 4 <= e.len
    ensures Step(e, r) == r.(vins := r.vins[r.cnt := v], pos := r.pos + |WitnessBytes(v)|, cnt := r.cnt + 1,
                             state := if r.cnt + 1 >= |r.vins| then 5 else 4)
  {
    WitnessRead(e, r.pos, v);
  }

  lemma WitnessSet(r: Reader, r': Reader, at: nat, vins: seq<Vin>, i: nat)
    requires i < |vins| && AfterWits(r, at, vins, i)
    requires r' == r.(vins := r.vins[i := vins[i]], pos := at + |Flat(WitnessBytes, vins[..i + 1])|,
                      cnt := i + 1, state := if i + 1 >= |r.vins| then 5 else 4)
    ensures AfterWits(r', at, vins, i + 1)
  {
  }

  lemma {:induction false} WitsRun(e: Source, r: Reader, at: nat, vins: seq<Vin>, i: nat) returns (r': Reader)
    requires HoldsAt(e.m, at, Flat(WitnessBytes, vins)) && at + |Flat(WitnessBytes, vins)| + 4 <= e.len
    requires vins != [] && AfterWits(r, at, vins, 0) && i <= |vins|
    requires forall j | 0 <= j < |vins| :: VinFits(vins[j])
    ensures Takes(e, r, r', i) && AfterWits(r', at, vins, i) && SameOthers(r, r')
  {
    r' := r;
    if i > 0 {
      var mid := WitsRun(e, r, at, vins, i - 1);
      WitsStep(e, mid, at, vins, i - 1);
      r' := StepMore(e, r, mid, i - 1);
    }
  }

  // ---------- the whole ----------

  // Where the parts of a serialised transaction start: inputs, outputs, witnesses, lock time.
  datatype Layout = Layout(ins: nat, outs: nat, wits: nat, lock: nat)

  function LayoutOf(tx: Tx, segwit: bool): Layout {
    var ins := |Head(tx, segwit)|;
    var outs := ins + |Inputs(tx)|;
    var wits := outs + |Outputs(tx)|;
    Layout(ins, outs, wits, wits + |Witnesses(tx, segwit)|)
  }

  ghost predicate LaidOut(e: Source, tx: Tx, segwit: bool) {
    var l := LayoutOf(tx, segwit);
    && HoldsAt(e.m, 0, Le(Unsigned(tx.version), 4)) && HoldsAt(e.m, 4, Marker(segwit))
    && HoldsAt(e.m, l.ins, Varint(|tx.vins|)) && HoldsAt(e.m, l.ins + |Varint(|tx.vins|)|, Flat(VinBytes, tx.vins))
    && HoldsAt(e.m, l.outs, Varint(|tx.vouts|))
    && HoldsAt(e.m, l.outs + |Varint(|tx.vouts|)|, Flat(VoutBytes, tx.vouts))
    && HoldsAt(e.m, l.wits, Witnesses(tx, segwit))
    && HoldsAt(e.m, l.lock, Le(tx.locktime, 4)) && e.len == l.lock + 4
  }

  lemma IsLaidOut(e: Source, tx: Tx, segwit: bool)
    requires HoldsAt(e.m, 0, Serialize(tx, segwit)) && e.len == |Serialize(tx, segwit)|
    ensures LaidOut(e, tx, segwit)
  {
    var l := LayoutOf(tx, segwit);
    var head, ins, outs, wits := Head(tx, segwit), Inputs(tx), Outputs(tx), Witnesses(tx, segwit);
    HoldsParts(e.m, 0, head + ins + outs + wits, Le(tx.locktime, 4));
    HoldsParts(e.m, 0, head + ins + outs, wits);
    HoldsParts(e.m, 0, head + ins, outs);
    HoldsParts(e.m, 0, head, ins);
    HoldsParts(e.m, 0, Le(Unsigned(tx.version), 4), Marker(segwit));
    HoldsParts(e.m, l.ins, Varint(|tx.vins|), Flat(VinBytes, tx.vins));
    HoldsParts(e.m, l.outs, Varint(|tx.vouts|), Flat(VoutBytes, tx.vouts));
  }

  // The first byte of the marker is zero only with segwit.
  lemma MarkerIs(e: Source, tx: Tx, segwit: bool)
    requires LaidOut(e, tx, segwit) && tx.vins != []
    ensures e.len >= 8 && (e.m(4) == 0 <==> segwit) && (segwit ==> e.m(5) == 1)
  {
    LongEnough(tx, segwit);
    if segwit {
      HoldsByte(e.m, 4, Marker(true), 0);
      HoldsByte(e.m, 4, Marker(true), 1);
    } else {
      FirstOfVarint(e.m, 4, |tx.vins|);
    }
  }

  lemma LongEnough(tx: Tx, segwit: bool)
    ensures LayoutOf(tx, segwit).lock >= 6
  {
  }

  lemma FirstOfVarint(m: Memory, pos: nat, n: nat)
    requires HoldsAt(m, pos, Varint(n)) && n > 0
    ensures m(pos) != 0
  {
    HoldsByte(m, pos, Varint(n), 0);
  }

  lemma VersionIs(e: Source, tx: Tx, segwit: bool)
    requires LaidOut(e, tx, segwit) && -0x8000_0000 <= tx.version < 0x8000_0000
    ensures Signed(GetLe(e.m, 0, 4)) == tx.version
  {
    Words();
    LeRead(e.m, 0, Unsigned(tx.version), 4);
    SignedIs(tx.version);
  }

  lemma SignedIs(v: int)
    requires -0x8000_0000 <= v < 0x8000_0000
    ensures Signed(Unsigned(v)) == v
  {
  }

  lemma Started(e: Source, tx: Tx, segwit: bool, oldLocktime: nat)
    requires LaidOut(e, tx, segwit) && Encodable(tx)
    ensures Start(e, oldLocktime) == Some(Reader(0, LayoutOf(tx, segwit).ins, 0, segwit, [], [], oldLocktime))
    ensures Signed(GetLe(e.m, 0, 4)) == tx.version
  {
    MarkerIs(e, tx, segwit);
    VersionIs(e, tx, segwit);
  }

  // The inputs that reading gives back.
  function Shown(tx: Tx, segwit: bool): (r: seq<Vin>)
    ensures |r| == |tx.vins|
  {
    if segwit then tx.vins else seq(|tx.vins|, i requires 0 <= i < |tx.vins| => Bare(tx.vins[i]))
  }

  lemma InputsRead(e: Source, tx: Tx, segwit: bool, r: Reader) returns (r': Reader)
    requires LaidOut(e, tx, segwit) && Encodable(tx)
    requires r.state == 0 && r.cnt == 0 && r.pos == LayoutOf(tx, segwit).ins
    ensures Takes(e, r, r', 1 + |tx.vins|) && SameOthers(r, r')
    ensures r'.state == 2 && r'.pos == LayoutOf(tx, segwit).outs
    ensures r'.vins == Shown(tx, false)
  {
    VarintRead(e.m, r.pos, |tx.vins|);
    TakesOne(e, r);
    var at := r.pos + |Varint(|tx.vins|)|;
    var r1 := Step(e, r);
    assert AfterVins(r1, at, tx.vins, 0);
    r' := VinsRun(e, r1, at, tx.vins, |tx.vins|);
    TakesMore(e, r, r1, r', 1, |tx.vins|);
    FlatPrefix(VinBytes, tx.vins, |tx.vins|);
  }

  lemma OutputsRead(e: Source, tx: Tx, segwit: bool, r: Reader) returns (r': Reader)
    requires LaidOut(e, tx, segwit) && Encodable(tx)
    requires r.state == 2 && r.segwit == segwit && r.pos == LayoutOf(tx, segwit).outs
    ensures Takes(e, r, r', 1 + |tx.vouts|) && SameInputs(r, r')
    ensures r'.state == AfterOutputs(segwit) && r'.cnt == 0 && r'.pos == LayoutOf(tx, segwit).wits
    ensures r'.vouts == tx.vouts
  {
    VarintRead(e.m, r.pos, |tx.vouts|);
    TakesOne(e, r);
    var at := r.pos + |Varint(|tx.vouts|)|;
    var r1 := Step(e, r);
    assert AfterVouts(r1, at, tx.vouts, 0);
    r' := VoutsRun(e, r1, at, tx.vouts, |tx.vouts|);
    TakesMore(e, r, r1, r', 1, |tx.vouts|);
    FlatPrefix(VoutBytes, tx.vouts, |tx.vouts|);
    assert r'.vouts[..|tx.vouts|] == r'.vouts && tx.vouts[..|tx.vouts|] == tx.vouts;
  }

  function WitnessTurns(tx: Tx, segwit: bool): nat { if segwit then |tx.vins| else 0 }

  lemma WitnessesRead(e: Source, tx: Tx, segwit: bool, r: Reader) returns (r': Reader)
    requires LaidOut(e, tx, segwit) && Encodable(tx)
    requires r.state == AfterOutputs(segwit) && r.cnt == 0 && r.pos == LayoutOf(tx, segwit).wits
    requires r.vins == Shown(tx, false)
    ensures Takes(e, r, r', WitnessTurns(tx, segwit)) && SameOthers(r, r')
    ensures r'.state == 5 && r'.pos == LayoutOf(tx, segwit).lock && r'.vins == Shown(tx, segwit)
  {
    r' := r;
    if segwit {
      assert AfterWits(r, r.pos, tx.vins, 0);
      r' := WitsRun(e, r, r.pos, tx.vins, |tx.vins|);
      FlatPrefix(WitnessBytes, tx.vins, |tx.vins|);
    }
  }

  // How many turns the loop takes on a serialised transaction.
  function Turns(tx: Tx, segwit: bool): nat {
    1 + |tx.vins| + (1 + |tx.vouts|) + (WitnessTurns(tx, segwit) + 1)
  }

  // Reading what was written ends, succeeds, and gives back the transaction; without segwit its
  // witnesses are gone. This holds whatever memory held before and whatever follows the bytes.
  lemma ReadSerialized(e: Source, tx: Tx, segwit: bool, oldLocktime: nat)
    requires Encodable(tx)
    requires HoldsAt(e.m, 0, Serialize(tx, segwit)) && e.len == |Serialize(tx, segwit)|
    ensures Start(e, oldLocktime).Some?
    ensures var r := Run(e, Start(e, oldLocktime).value, Turns(tx, segwit));
            r.pos == e.len && Result(e, r) == tx.(vins := Shown(tx, segwit))
  {
    IsLaidOut(e, tx, segwit);
    ReadLaidOut(e, tx, segwit, oldLocktime);
  }

  lemma LockRead(e: Source, tx: Tx, segwit: bool, r: Reader)
    requires LaidOut(e, tx, segwit) && tx.locktime < WORD && r.state == 5 && r.pos == LayoutOf(tx, segwit).lock
    ensures Takes(e, r, r.(locktime := tx.locktime, pos := e.len), 1)
  {
    Words();
    LeRead(e.m, r.pos, tx.locktime, 4);
    TakesOne(e, r);
  }

  lemma ReadLaidOut(e: Source, tx: Tx, segwit: bool, oldLocktime: nat)
    requires Encodable(tx) && LaidOut(e, tx, segwit)
    ensures Start(e, oldLocktime).Some?
    ensures var r := Run(e, Start(e, oldLocktime).value, Turns(tx, segwit));
            r.pos == e.len && Result(e, r) == tx.(vins := Shown(tx, segwit))
  {
    Started(e, tx, segwit, oldLocktime);
    var r := BodyRead(e, tx, segwit, Start(e, oldLocktime).value);
  }

  lemma BodyRead(e: Source, tx: Tx, segwit: bool, r0: Reader) returns (r4: Reader)
    requires Encodable(tx) && LaidOut(e, tx, segwit)
    requires r0.state == 0 && r0.cnt == 0 && r0.segwit == segwit && r0.pos == LayoutOf(tx, segwit).ins
    ensures Takes(e, r0, r4, Turns(tx, segwit)) && r4.pos == e.len
    ensures r4.vins == Shown(tx, segwit) && r4.vouts == tx.vouts && r4.locktime == tx.locktime
  {
    var r2 := ListsRead(e, tx, segwit, r0);
    r4 := TailRead(e, tx, segwit, r0, r2, 1 + |tx.vins| + (1 + |tx.vouts|));
  }

  lemma ListsRead(e: Source, tx: Tx, segwit: bool, r: Reader) returns (r': Reader)
    requires Encodable(tx) && LaidOut(e, tx, segwit)
    requires r.state == 0 && r.cnt == 0 && r.segwit == segwit && r.pos == LayoutOf(tx, segwit).ins
    ensures Takes(e, r, r', 1 + |tx.vins| + (1 + |tx.vouts|))
    ensures r'.state == AfterOutputs(segwit) && r'.cnt == 0 && r'.pos == LayoutOf(tx, segwit).wits
    ensures r'.vouts == tx.vouts && r'.vins == Shown(tx, false)
  {
    var mid := InputsRead(e, tx, segwit, r);
    r' := OutputsRead(e, tx, segwit, mid);
    TakesMore(e, r, mid, r', 1 + |tx.vins|, 1 + |tx.vouts|);
  }

  // The rest, after the n turns that led from r0 to r.
  lemma TailRead(e: Source, tx: Tx, segwit: bool, r0: Reader, r: Reader, n: nat) returns (r': Reader)
    requires Encodable(tx) && LaidOut(e, tx, segwit) && Takes(e, r0, r, n)
    requires r.state == AfterOutputs(segwit) && r.cnt == 0 && r.pos == LayoutOf(tx, segwit).wits
    requires r.vins == Shown(tx, false)
    ensures Takes(e, r0, r', n + (WitnessTurns(tx, segwit) + 1)) && r'.pos == e.len
    ensures r'.vins == Shown(tx, segwit) && r'.vouts == r.vouts && r'.locktime == tx.locktime
  {
    var mid := WitnessesRead(e, tx, segwit, r);
    LockRead(e, tx, segwit, mid);
    r' := mid.(locktime := tx.locktime, pos := e.len);
    TakesMore(e, r, mid, r', WitnessTurns(tx, segwit), 1);
    TakesMore(e, r0, r, r', n, WitnessTurns(tx, segwit) + 1);
  }

  // With witnesses asked for, nothing is lost, and what was written never overruns.
  lemma CreateThenRead(e: Source, tx: Tx, oldLocktime: nat)
    requires Encodable(tx)
    requires HoldsAt(e.m, 0, Serialize(tx, Segwit(tx, true))) && e.len == |Serialize(tx, Segwit(tx, true))|
    ensures Start(e, oldLocktime).Some? && !Overruns(e.m, e.len)
    ensures Result(e, Final(e, Start(e, oldLocktime).value)) == tx
  {
    ReadSerialized(e, tx, Segwit(tx, true), oldLocktime);
    EndsExactly(e, oldLocktime);
    FinalIs(e, Start(e, oldLocktime).value, Turns(tx, Segwit(tx, true)));
    if !Segwit(tx, true) {
      NothingHidden(tx);
    }
  }

  lemma NothingHidden(tx: Tx)
    requires !Segwit(tx, true)
    ensures Shown(tx, false) == tx.vins
  {
    forall i | 0 <= i < |tx.vins| ensures Shown(tx, false)[i] == tx.vins[i] {
      assert !HasWitness(tx.vins[i]);
    }
  }

  // 60 bytes of a transaction whose one input announces a script of 200.
  function CutShort(i: nat): Octet {
    if i == 0 then 2 else if i == 4 then 1 else if i == 41 then 200 else 0
  }

  // On them the loop never ends.
  lemma CutShortHangs(e: Source, oldLocktime: nat, n: nat)
    requires e.m == CutShort && e.len == 60
    ensures Start(e, oldLocktime).Some? && Overruns(e.m, e.len)
    ensures Run(e, Start(e, oldLocktime).value, n).pos < e.len
  {
    assert GetVarint(e.m, 4) == (1, 1);
    assert GetVarint(e.m, 5 + 36) == (1, 200);
    EndsExactly(e, oldLocktime);
  }
}
