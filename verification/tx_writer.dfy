// btcl_util_create_tx of btc/btc_util.c: a pass that adds up the size, then a pass that fills the
// buffer through a moving pointer.
module TxWriter {
  import opened Basics
  import opened TxFormat

  // The first pass.
  method SizePass(tx: Tx, enable: bool) returns (len: nat, segwit: bool)
    ensures len == Size(tx, enable) && segwit == Segwit(tx, enable)
  {
    len := 4 + VarintLen(|tx.vins|) + VarintLen(|tx.vouts|);
    segwit := false;
    ghost var base := len;
    var lp := 0;
    while lp < |tx.vins|
      invariant lp <= |tx.vins| && len == base + InSizes(tx.vins[..lp], enable)
      invariant segwit == (enable && exists i | 0 <= i < lp :: HasWitness(tx.vins[i]))
    {
      var vin := tx.vins[lp];
      assert tx.vins[..lp + 1][..lp] == tx.vins[..lp];
      len := len + 32 + 4 + |vin.script| + 4;
      len := len + VarintLen(|vin.script|);
      if enable && |vin.wit| != 0 {
        segwit := true;
        var n := ItemsPass(vin.wit);
        len := len + 1 + n;
        assert HasWitness(tx.vins[lp]);
      }
      lp := lp + 1;
    }
    assert tx.vins[..|tx.vins|] == tx.vins;
    if segwit { len := len + 2; }
    base := len;
    lp := 0;
    while lp < |tx.vouts|
      invariant lp <= |tx.vouts| && len == base + OutSizes(tx.vouts[..lp])
    {
      var vout := tx.vouts[lp];
      assert tx.vouts[..lp + 1][..lp] == tx.vouts[..lp];
      len := len + 8 + |vout.script|;
      len := len + VarintLen(|vout.script|);
      lp := lp + 1;
    }
    assert tx.vouts[..|tx.vouts|] == tx.vouts;
    len := len + 4;
  }

  method ItemsPass(ws: seq<Octets>) returns (n: nat)
    ensures n == ItemsSize(ws)
  {
    n := 0;
    var lp := 0;
    while lp < |ws|
      invariant lp <= |ws| && n == ItemsSize(ws[..lp])
    {
      assert ws[..lp + 1][..lp] == ws[..lp];
      n := n + |ws[lp]| + VarintLen(|ws[lp]|);
      lp := lp + 1;
    }
    assert ws[..|ws|] == ws;
  }

  // A length and the bytes themselves.
  method WriteBlob(buf: array<Octet>, start: nat, x: Octets) returns (p: nat)
    requires start + |Blob(x)| <= buf.Length
    modifies buf
    ensures p == start + |Blob(x)| && buf[..p] == old(buf[..start]) + Blob(x)
  {
    p := start;
    Copy(buf, p, Varint(|x|));
    p := p + |Varint(|x|)|;
    Copy(buf, p, x);
    p := p + |x|;
  }

  method WriteVin(buf: array<Octet>, start: nat, vin: Vin) returns (p: nat)
    requires start + |VinBytes(vin)| <= buf.Length
    modifies buf
    ensures p == start + |VinBytes(vin)| && buf[..p] == old(buf[..start]) + VinBytes(vin)
  {
    p := start;
    Copy(buf, p, vin.txid);
    p := p + |vin.txid|;
    Copy(buf, p, Le(vin.index, 4));
    p := p + 4;
    p := WriteBlob(buf, p, vin.script);
    Copy(buf, p, Le(vin.sequence, 4));
    p := p + 4;
  }

  method WriteVins(buf: array<Octet>, start: nat, vins: seq<Vin>) returns (p: nat)
    requires start + |Flat(VinBytes, vins)| <= buf.Length
    modifies buf
    ensures p == start + |Flat(VinBytes, vins)| && buf[..p] == old(buf[..start]) + Flat(VinBytes, vins)
  {
    p := start;
    ghost var before := buf[..start];
    var lp := 0;
    while lp < |vins|
      invariant lp <= |vins| && p == start + |Flat(VinBytes, vins[..lp])| <= buf.Length
      invariant buf[..p] == before + Flat(VinBytes, vins[..lp])
    {
      FlatNext(VinBytes, vins, lp);
      p := WriteVin(buf, p, vins[lp]);
      lp := lp + 1;
    }
    FlatPrefix(VinBytes, vins, lp);
  }

  method WriteVout(buf: array<Octet>, start: nat, vout: Vout) returns (p: nat)
    requires start + |VoutBytes(vout)| <= buf.Length
    modifies buf
    ensures p == start + |VoutBytes(vout)| && buf[..p] == old(buf[..start]) + VoutBytes(vout)
  {
    p := start;
    Copy(buf, p, Le(vout.value, 8));
    p := p + 8;
    p := WriteBlob(buf, p, vout.script);
  }

  method WriteVouts(buf: array<Octet>, start: nat, vouts: seq<Vout>) returns (p: nat)
    requires start + |Flat(VoutBytes, vouts)| <= buf.Length
    modifies buf
    ensures p == start + |Flat(VoutBytes, vouts)| && buf[..p] == old(buf[..start]) + Flat(VoutBytes, vouts)
  {
    p := start;
    ghost var before := buf[..start];
    var lp := 0;
    while lp < |vouts|
      invariant lp <= |vouts| && p == start + |Flat(VoutBytes, vouts[..lp])| <= buf.Length
      invariant buf[..p] == before + Flat(VoutBytes, vouts[..lp])
    {
      FlatNext(VoutBytes, vouts, lp);
      p := WriteVout(buf, p, vouts[lp]);
      lp := lp + 1;
    }
    FlatPrefix(VoutBytes, vouts, lp);
  }

  method WriteItems(buf: array<Octet>, start: nat, ws: seq<Octets>) returns (p: nat)
    requires start + |Flat(Blob, ws)| <= buf.Length
    modifies buf
    ensures p == start + |Flat(Blob, ws)| && buf[..p] == old(buf[..start]) + Flat(Blob, ws)
  {
    p := start;
    ghost var before := buf[..start];
    var lp := 0;
    while lp < |ws|
      invariant lp <= |ws| && p == start + |Flat(Blob, ws[..lp])| <= buf.Length
      invariant buf[..p] == before + Flat(Blob, ws[..lp])
    {
      FlatNext(Blob, ws, lp);
      p := WriteBlob(buf, p, ws[lp]);
      lp := lp + 1;
    }
    FlatPrefix(Blob, ws, lp);
  }

  method WriteWitness(buf: array<Octet>, start: nat, vin: Vin) returns (p: nat)
    requires start + |WitnessBytes(vin)| <= buf.Length
    modifies buf
    ensures p == start + |WitnessBytes(vin)| && buf[..p] == old(buf[..start]) + WitnessBytes(vin)
  {
    p := start;
    Copy(buf, p, Varint(|vin.wit|));
    p := p + |Varint(|vin.wit|)|;
    p := WriteItems(buf, p, vin.wit);
  }

  method WriteWitnesses(buf: array<Octet>, start: nat, vins: seq<Vin>) returns (p: nat)
    requires start + |Flat(WitnessBytes, vins)| <= buf.Length
    modifies buf
    ensures p == start + |Flat(WitnessBytes, vins)| && buf[..p] == old(buf[..start]) + Flat(WitnessBytes, vins)
  {
    p := start;
    ghost var before := buf[..start];
    var lp := 0;
    while lp < |vins|
      invariant lp <= |vins| && p == start + |Flat(WitnessBytes, vins[..lp])| <= buf.Length
      invariant buf[..p] == before + Flat(WitnessBytes, vins[..lp])
    {
      FlatNext(WitnessBytes, vins, lp);
      p := WriteWitness(buf, p, vins[lp]);
      lp := lp + 1;
    }
    FlatPrefix(WitnessBytes, vins, lp);
  }

  // btcl_util_create_tx. memory is what starts where the buffer of len bytes was allocated, as far
  // as the second pass writes: more than len, unless no witness is written or every input has 1
  // to 252 items (SizeExact).
  method BtclUtilCreateTx(tx: Tx, enable: bool, memory: array<Octet>) returns (ok: bool, len: nat)
    requires Typed(tx) && memory.Length >= |Serialize(tx, Segwit(tx, enable))|
    modifies memory
    ensures memory[..|Serialize(tx, Segwit(tx, enable))|] == Serialize(tx, Segwit(tx, enable))
    ensures len == Size(tx, enable) && (ok <==> len == |Serialize(tx, Segwit(tx, enable))|)
  {
    var segwit;
    len, segwit := SizePass(tx, enable);
    var p := FillPass(memory, tx, segwit);
    ok := p == len;
  }

  // What it returns is success exactly where it stayed inside the buffer.
  method BtcTxCreate(tx: Tx, memory: array<Octet>) returns (ok: bool, len: nat)
    requires Typed(tx) && memory.Length >= |Serialize(tx, Segwit(tx, true))|
    modifies memory
    ensures ok <==> !Segwit(tx, true) || forall i | 0 <= i < |tx.vins| :: 1 <= |tx.vins[i].wit| <= 252
    ensures ok ==> len <= memory.Length && memory[..len] == Serialize(tx, Segwit(tx, true))
  {
    ok, len := BtclUtilCreateTx(tx, true, memory);
    SizeExact(tx, true);
  }

  // The second pass.
  method FillPass(buf: array<Octet>, tx: Tx, segwit: bool) returns (p: nat)
    requires buf.Length >= |Serialize(tx, segwit)|
    modifies buf
    ensures p == |Serialize(tx, segwit)| && buf[..p] == Serialize(tx, segwit)
  {
    p := WriteHead(buf, tx, segwit);
    p := WriteBody(buf, p, tx, segwit);
    Copy(buf, p, Le(tx.locktime, 4));
    p := p + 4;
  }

  method WriteHead(buf: array<Octet>, tx: Tx, segwit: bool) returns (p: nat)
    requires |Head(tx, segwit)| <= buf.Length
    modifies buf
    ensures p == |Head(tx, segwit)| && buf[..p] == Head(tx, segwit)
  {
    p := 0;
    Copy(buf, p, Le(Unsigned(tx.version), 4));
    p := p + 4;
    if segwit {
      Copy(buf, p, [0, 1]);
      p := p + 2;
    }
  }

  method WriteBody(buf: array<Octet>, start: nat, tx: Tx, segwit: bool) returns (p: nat)
    requires start + |Inputs(tx)| + |Outputs(tx)| + |Witnesses(tx, segwit)| <= buf.Length
    modifies buf
    ensures p == start + |Inputs(tx)| + |Outputs(tx)| + |Witnesses(tx, segwit)|
    ensures buf[..p] == old(buf[..start]) + Inputs(tx) + Outputs(tx) + Witnesses(tx, segwit)
  {
    p := WriteInputs(buf, start, tx);
    p := WriteOutputs(buf, p, tx);
    if segwit {
      p := WriteWitnesses(buf, p, tx.vins);
    }
  }

  method WriteInputs(buf: array<Octet>, start: nat, tx: Tx) returns (p: nat)
    requires start + |Inputs(tx)| <= buf.Length
    modifies buf
    ensures p == start + |Inputs(tx)| && buf[..p] == old(buf[..start]) + Inputs(tx)
  {
    p := start;
    Copy(buf, p, Varint(|tx.vins|));
    p := p + |Varint(|tx.vins|)|;
    p := WriteVins(buf, p, tx.vins);
  }

  method WriteOutputs(buf: array<Octet>, start: nat, tx: Tx) returns (p: nat)
    requires start + |Outputs(tx)| <= buf.Length
    modifies buf
    ensures p == start + |Outputs(tx)| && buf[..p] == old(buf[..start]) + Outputs(tx)
  {
    p := start;
    Copy(buf, p, Varint(|tx.vouts|));
    p := p + |Varint(|tx.vouts|)|;
    p := WriteVouts(buf, p, tx.vouts);
  }
}
