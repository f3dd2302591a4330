// Numbers written in bytes, the most significant first.
module BigEndian {
  import opened Basics
  import opened Powers

  function Value(x: Octets): nat
    decreases |x|
  {
    if x == [] then 0 else Value(x[..|x| - 1]) * 256 + x[|x| - 1] as nat
  }

  lemma ValueSnoc(x: Octets, b: Octet)
    ensures Value(x + [b]) == Value(x) * 256 + b as nat
  {
    assert (x + [b])[..|x|] == x;
  }

  lemma {:induction false} ValueBound(x: Octets)
    ensures Value(x) < Pow256(|x|)
    decreases |x|
  {
    if x != [] { ValueBound(x[..|x| - 1]); }
  }

  lemma {:induction false} ValueSplit(x: Octets)
    requires x != []
    ensures Value(x) == x[0] as nat * Pow256(|x| - 1) + Value(x[1..])
    decreases |x|
  {
    if |x| == 1 {
      assert x[..0] == [] && x[1..] == [];
    } else {
      var y := x[..|x| - 1];
      ValueSplit(y);
      assert x[1..][..|x| - 2] == y[1..];
    }
  }

  lemma {:induction false} ValueInjective(x: Octets, y: Octets)
    requires |x| == |y| && Value(x) == Value(y)
    ensures x == y
    decreases |x|
  {
    if x != [] {
      var n := |x| - 1;
      assert x[n] == y[n] && Value(x[..n]) == Value(y[..n]);
      ValueInjective(x[..n], y[..n]);
      assert x == x[..n] + [x[n]] && y == y[..n] + [y[n]];
    }
  }

  // n in len bytes.
  function Be(n: nat, len: nat): (r: Octets)
    ensures |r| == len
    decreases len
  {
    if len == 0 then [] else Be(n / 256, len - 1) + [(n % 256) as Octet]
  }

  lemma {:induction false} ValueOfBe(n: nat, len: nat)
    requires n < Pow256(len)
    ensures Value(Be(n, len)) == n
    decreases len
  {
    if len > 0 {
      ValueOfBe(n / 256, len - 1);
      assert Be(n, len)[..len - 1] == Be(n / 256, len - 1);
    }
  }

  // The bytes of a number are the only ones of their length that read as it.
  lemma BeUnique(n: nat, x: Octets)
    requires n < Pow256(|x|)
    ensures x == Be(n, |x|) <==> Value(x) == n
  {
    ValueOfBe(n, |x|);
    if Value(x) == n { ValueInjective(x, Be(n, |x|)); }
  }
}
