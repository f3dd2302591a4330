// Transactions and their serialisation (BIP 144, "Serialization") as btcl_util_create_tx of
// btc/btc_util.c writes them.
module TxFormat {
  import opened Basics
  import opened Powers

  datatype Vin = Vin(txid: Octets, index: nat, script: Octets, wit: seq<Octets>, sequence: nat)
  datatype Vout = Vout(value: nat, script: Octets)
  datatype Tx = Tx(version: int, vins: seq<Vin>, vouts: seq<Vout>, locktime: nat)

  const WORD: nat := 0x1_0000_0000

  // ---------- numbers ----------

  // k bytes, the least significant first.
  function Le(n: nat, k: nat): (r: Octets)
    ensures |r| == k
  {
    if k == 0 then [] else [(n % 256) as Octet] + Le(n / 256, k - 1)
  }

  function FromLe(x: Octets): nat {
    if x == [] then 0 else x[0] as nat + 256 * FromLe(x[1..])
  }

  lemma {:induction false} LeRoundTrip(n: nat, k: nat)
    requires n < Pow256(k)
    ensures FromLe(Le(n, k)) == n
  {
    if k > 0 {
      LeRoundTrip(n / 256, k - 1);
      assert Le(n, k)[1..] == Le(n / 256, k - 1);
    }
  }

  // Byte i of a written number is its digit i to base 256.
  lemma {:induction false} LeByte(n: nat, k: nat, i: nat)
    requires i < k
    ensures Pow256(i) > 0 && Le(n, k)[i] as nat == n / Pow256(i) % 256
    decreases k
  {
    if i > 0 {
      LeByte(n / 256, k - 1, i - 1);
      DivDiv(n, 256, Pow256(i - 1));
    }
  }

  lemma Words()
    ensures Pow256(4) == WORD && Pow256(8) == WORD * WORD
  {
    assert Pow256(2) == 65536;
    assert Pow256(4) == WORD;
    assert Pow256(6) == 65536 * WORD;
  }

  // int32_t to uint32_t and back.
  function Unsigned(v: int): nat { v % WORD }

  function Signed(n: nat): int { if n % WORD < WORD / 2 then n % WORD else n % WORD - WORD }

  // btcl_util_set_varint_len: three bytes at most, of which only 16 bits are length.
  function Varint(n: nat): Octets {
    if n < 0xfd then [n as Octet] else [0xfd, (n % 256) as Octet, (n / 256 % 256) as Octet]
  }

  // btcl_util_get_varint_len
  function VarintLen(n: nat): nat { if n < 0xfd then 1 else 3 }

  // A longer length is marked by 0xfd and written like any number.
  lemma VarintIsLe(n: nat)
    requires 0xfd <= n < 0x1_0000
    ensures Varint(n) == [0xfd] + Le(n, 2)
  {
    assert Le(n, 2) == [(n % 256) as Octet] + Le(n / 256, 1);
    assert Le(n / 256, 1) == [(n / 256 % 256) as Octet] + Le(n / 256 / 256, 0);
  }

  // ---------- lists ----------

  function Flat<T>(f: T -> Octets, xs: seq<T>): Octets
    decreases |xs|
  {
    if xs == [] then [] else Flat(f, xs[..|xs| - 1]) + f(xs[|xs| - 1])
  }

  lemma FlatSnoc<T>(f: T -> Octets, xs: seq<T>, i: nat)
    requires i < |xs|
    ensures Flat(f, xs[..i + 1]) == Flat(f, xs[..i]) + f(xs[i])
  {
    assert xs[..i + 1][..i] == xs[..i];
  }

  lemma {:induction false} FlatPrefix<T>(f: T -> Octets, xs: seq<T>, i: nat)
    requires i <= |xs|
    ensures |Flat(f, xs[..i])| <= |Flat(f, xs)|
    ensures i == |xs| ==> Flat(f, xs[..i]) == Flat(f, xs)
    decreases |xs| - i
  {
    if i == |xs| {
      assert xs[..i] == xs;
    } else {
      FlatSnoc(f, xs, i);
      FlatPrefix(f, xs, i + 1);
    }
  }

  lemma FlatNext<T>(f: T -> Octets, xs: seq<T>, i: nat)
    requires i < |xs|
    ensures Flat(f, xs[..i + 1]) == Flat(f, xs[..i]) + f(xs[i])
    ensures |Flat(f, xs[..i])| + |f(xs[i])| <= |Flat(f, xs)|
  {
    FlatSnoc(f, xs, i);
    FlatPrefix(f, xs, i + 1);
  }

  // ---------- a transaction ----------

  function VinHead(v: Vin): Octets { v.txid + Le(v.index, 4) }

  function Blob(x: Octets): Octets { Varint(|x|) + x }

  function VinBytes(v: Vin): Octets { VinHead(v) + Blob(v.script) + Le(v.sequence, 4) }

  function VoutBytes(o: Vout): Octets { Le(o.value, 8) + Blob(o.script) }

  function WitnessBytes(v: Vin): Octets { Varint(|v.wit|) + Flat(Blob, v.wit) }

  predicate HasWitness(v: Vin) { v.wit != [] }

  // Whether the witnesses are written: if asked for, and some input has one.
  predicate Segwit(tx: Tx, enable: bool) {
    enable && exists i | 0 <= i < |tx.vins| :: HasWitness(tx.vins[i])
  }

  function Marker(segwit: bool): Octets { if segwit then [0, 1] else [] }

  function Witnesses(tx: Tx, segwit: bool): Octets { if segwit then Flat(WitnessBytes, tx.vins) else [] }

  function Head(tx: Tx, segwit: bool): Octets { Le(Unsigned(tx.version), 4) + Marker(segwit) }

  function Inputs(tx: Tx): Octets { Varint(|tx.vins|) + Flat(VinBytes, tx.vins) }

  function Outputs(tx: Tx): Octets { Varint(|tx.vouts|) + Flat(VoutBytes, tx.vouts) }

  // With segwit, every input has a witness field, if only an empty one.
  function Serialize(tx: Tx, segwit: bool): Octets {
    Head(tx, segwit) + Inputs(tx) + Outputs(tx) + Witnesses(tx, segwit) + Le(tx.locktime, 4)
  }

  // ---------- the size pass ----------

  function VinSize(v: Vin): nat { 32 + 4 + |v.script| + 4 + VarintLen(|v.script|) }

  function Items(v: Vin): nat { ItemsSize(v.wit) }

  function ItemsSize(ws: seq<Octets>): nat
    decreases |ws|
  {
    if ws == [] then 0 else ItemsSize(ws[..|ws| - 1]) + |ws[|ws| - 1]| + VarintLen(|ws[|ws| - 1]|)
  }

  // One byte for the number of items, but only for an input that has some.
  function WitnessSize(v: Vin, enable: bool): nat {
    if enable && HasWitness(v) then 1 + Items(v) else 0
  }

  function VoutSize(o: Vout): nat { 8 + |o.script| + VarintLen(|o.script|) }

  function InSizes(vins: seq<Vin>, enable: bool): nat
    decreases |vins|
  {
    if vins == [] then 0
    else InSizes(vins[..|vins| - 1], enable) + VinSize(vins[|vins| - 1]) + WitnessSize(vins[|vins| - 1], enable)
  }

  function OutSizes(vouts: seq<Vout>): nat
    decreases |vouts|
  {
    if vouts == [] then 0 else OutSizes(vouts[..|vouts| - 1]) + VoutSize(vouts[|vouts| - 1])
  }

  // What the first pass of btcl_util_create_tx allocates.
  function Size(tx: Tx, enable: bool): nat {
    4 + VarintLen(|tx.vins|) + VarintLen(|tx.vouts|) + InSizes(tx.vins, enable)
    + (if Segwit(tx, enable) then 2 else 0) + OutSizes(tx.vouts) + 4
  }

  // ---------- size and bytes ----------

  predicate Typed(tx: Tx) {
    && forall i | 0 <= i < |tx.vins| :: |tx.vins[i].txid| == 32
  }

  lemma {:induction false} ItemsSizeIs(ws: seq<Octets>)
    ensures |Flat(Blob, ws)| == ItemsSize(ws)
    decreases |ws|
  {
    if ws != [] { ItemsSizeIs(ws[..|ws| - 1]); }
  }

  // The bytes that the size pass forgets for one input.
  function Forgotten(v: Vin): nat {
    if HasWitness(v) then VarintLen(|v.wit|) - 1 else 1
  }

  function AllForgotten(vins: seq<Vin>): nat
    decreases |vins|
  {
    if vins == [] then 0 else AllForgotten(vins[..|vins| - 1]) + Forgotten(vins[|vins| - 1])
  }

  lemma {:induction false} NoneForgotten(vins: seq<Vin>)
    ensures AllForgotten(vins) == 0 <==> forall i | 0 <= i < |vins| :: 1 <= |vins[i].wit| <= 252
    decreases |vins|
  {
    if vins != [] { NoneForgotten(vins[..|vins| - 1]); }
  }

  lemma {:induction false} PlainInputs(vins: seq<Vin>)
    requires forall i | 0 <= i < |vins| :: |vins[i].txid| == 32
    ensures |Flat(VinBytes, vins)| == InSizes(vins, false)
    decreases |vins|
  {
    if vins != [] { PlainInputs(vins[..|vins| - 1]); }
  }

  lemma {:induction false} WitnessInputs(vins: seq<Vin>)
    requires forall i | 0 <= i < |vins| :: |vins[i].txid| == 32
    ensures |Flat(VinBytes, vins)| + |Flat(WitnessBytes, vins)| == InSizes(vins, true) + AllForgotten(vins)
    decreases |vins|
  {
    if vins != [] {
      WitnessInputs(vins[..|vins| - 1]);
      ItemsSizeIs(vins[|vins| - 1].wit);
    }
  }

  lemma {:induction false} UnusedWitnesses(vins: seq<Vin>, enable: bool)
    requires enable ==> forall i | 0 <= i < |vins| :: !HasWitness(vins[i])
    ensures InSizes(vins, enable) == InSizes(vins, false)
    decreases |vins|
  {
    if vins != [] { UnusedWitnesses(vins[..|vins| - 1], enable); }
  }

  lemma {:induction false} OutSizesAre(vouts: seq<Vout>)
    ensures |Flat(VoutBytes, vouts)| == OutSizes(vouts)
    decreases |vouts|
  {
    if vouts != [] { OutSizesAre(vouts[..|vouts| - 1]); }
  }

  // The second pass never writes less than the first one allocated, and it writes more unless no
  // witness is written or every input has 1 to 252 witness items.
  lemma SizeExact(tx: Tx, enable: bool)
    requires Typed(tx)
    ensures Size(tx, enable) <= |Serialize(tx, Segwit(tx, enable))|
    ensures Size(tx, enable) == |Serialize(tx, Segwit(tx, enable))| <==>
            !Segwit(tx, enable) || forall i | 0 <= i < |tx.vins| :: 1 <= |tx.vins[i].wit| <= 252
  {
    OutSizesAre(tx.vouts);
    if Segwit(tx, enable) {
      WitnessInputs(tx.vins);
      NoneForgotten(tx.vins);
    } else {
      PlainInputs(tx.vins);
      UnusedWitnesses(tx.vins, enable);
    }
  }

  // One input with a witness and one without: the buffer is a byte short.
  lemma SizeShort()
    ensures var txid := seq(32, _ => 0 as Octet);
            var tx := Tx(2, [Vin(txid, 0, [], [[1]], 0), Vin(txid, 0, [], [], 0)], [], 0);
            Typed(tx) && Size(tx, true) < |Serialize(tx, Segwit(tx, true))|
  {
    var txid := seq(32, _ => 0 as Octet);
    var tx := Tx(2, [Vin(txid, 0, [], [[1]], 0), Vin(txid, 0, [], [], 0)], [], 0);
    assert HasWitness(tx.vins[0]);
    assert |tx.vins[1].wit| == 0;
    SizeExact(tx, true);
  }
}
