// One transaction, byte for byte, with and without its witness (BIP 144): it fixes the order of the
// fields, which the round trip of writer and reader does not see.
module TxVector {
  import opened Basics
  import opened TxFormat

  function Sample(txid: Octets): Tx {
    Tx(2, [Vin(txid, 0x0102_0304, [0xa1, 0xa2], [[0xb1], []], 0xffff_fffe)],
       [Vout(0x0102_0304_0506_0708, [0xc1])], 0x1122_3344)
  }

  lemma SampleWords()
    ensures Le(Unsigned(2), 4) == [2, 0, 0, 0] && Le(0x0102_0304, 4) == [4, 3, 2, 1]
    ensures Le(0xffff_fffe, 4) == [0xfe, 0xff, 0xff, 0xff] && Le(0x1122_3344, 4) == [0x44, 0x33, 0x22, 0x11]
  {
  }

  lemma SampleValue()
    ensures Le(0x0102_0304_0506_0708, 8) == [8, 7, 6, 5, 4, 3, 2, 1]
  {
    assert Le(0x0102_0304, 4) == [4, 3, 2, 1];
  }

  lemma FlatOne<T>(f: T -> Octets, x: T)
    ensures Flat(f, [x]) == f(x)
  {
    assert [x][..0] == [];
  }

  lemma SampleInput(txid: Octets)
    ensures Inputs(Sample(txid)) == [1] + txid + [4, 3, 2, 1, 2, 0xa1, 0xa2, 0xfe, 0xff, 0xff, 0xff]
  {
    SampleWords();
    FlatOne(VinBytes, Sample(txid).vins[0]);
  }

  lemma SampleOutput(txid: Octets)
    ensures Outputs(Sample(txid)) == [1, 8, 7, 6, 5, 4, 3, 2, 1, 1, 0xc1]
  {
    SampleValue();
    FlatOne(VoutBytes, Sample(txid).vouts[0]);
  }

  lemma SampleWitness(txid: Octets)
    ensures Witnesses(Sample(txid), true) == [2, 1, 0xb1, 0]
  {
    FlatOne(WitnessBytes, Sample(txid).vins[0]);
    var w: seq<Octets> := [[0xb1], []];
    assert w[..1] == [w[0]];
    FlatOne(Blob, w[0]);
    assert Flat(Blob, w) == Flat(Blob, w[..1]) + Blob(w[1]);
  }

  // Version, marker and flag, inputs, outputs, witnesses, lock time; without the witnesses also
  // without marker and flag.
  lemma Layout(tx: Tx, v: Octets, i: Octets, o: Octets, w: Octets, t: Octets)
    requires Le(Unsigned(tx.version), 4) == v && Inputs(tx) == i && Outputs(tx) == o
    requires Flat(WitnessBytes, tx.vins) == w && Le(tx.locktime, 4) == t
    ensures Serialize(tx, true) == v + [0, 1] + i + o + w + t
    ensures Serialize(tx, false) == v + i + o + t
  {
    assert v + [] == v && v + i + o + [] == v + i + o;
  }

  lemma SampleBytes(txid: Octets, i: Octets)
    requires |txid| == 32 && i == [1] + txid + [4, 3, 2, 1, 2, 0xa1, 0xa2, 0xfe, 0xff, 0xff, 0xff]
    ensures Serialize(Sample(txid), true) ==
            [2, 0, 0, 0] + [0, 1] + i + [1, 8, 7, 6, 5, 4, 3, 2, 1, 1, 0xc1] + [2, 1, 0xb1, 0]
            + [0x44, 0x33, 0x22, 0x11]
    ensures Serialize(Sample(txid), false) ==
            [2, 0, 0, 0] + i + [1, 8, 7, 6, 5, 4, 3, 2, 1, 1, 0xc1] + [0x44, 0x33, 0x22, 0x11]
  {
    SampleWords();
    SampleInput(txid);
    SampleOutput(txid);
    SampleWitness(txid);
    Layout(Sample(txid), [2, 0, 0, 0], i, [1, 8, 7, 6, 5, 4, 3, 2, 1, 1, 0xc1], [2, 1, 0xb1, 0],
           [0x44, 0x33, 0x22, 0x11]);
  }
}
