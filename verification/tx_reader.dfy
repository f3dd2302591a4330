// btc_tx_read of btc/btc_tx.c: a loop of six states over the bytes.
module TxReader {
  import opened Basics
  import opened TxFormat

  // The bytes, how many there are, and what memory holds that was allocated but not yet written.
  datatype Source = Source(m: Memory, len: nat, oldVin: nat -> Vin, oldVout: nat -> Vout, oldItem: nat -> Octets)

  // The local variables of the loop and what of the transaction has been filled in.
  datatype Reader = Reader(state: nat, pos: nat, cnt: nat, segwit: bool,
                           vins: seq<Vin>, vouts: seq<Vout>, locktime: nat)

  function GetLe(m: Memory, pos: nat, k: nat): nat { FromLe(Read(m, pos, k)) }

  // get_varint: how many bytes it takes, and a value of 16 bits.
  function GetVarint(m: Memory, pos: nat): (nat, nat) {
    if m(pos) < 0xfd then (1, m(pos) as nat) else (3, m(pos + 1) as nat + 256 * m(pos + 2) as nat)
  }

  function StepVinCount(e: Source, r: Reader): Reader {
    var (k, n) := GetVarint(e.m, r.pos);
    r.(pos := r.pos + k, vins := seq(n, e.oldVin), state := if n == 0 then 2 else 1)
  }

  function ReadVin(m: Memory, pos: nat, k: nat, n: nat): Vin {
    Vin(Read(m, pos, 32), GetLe(m, pos + 32, 4), Read(m, pos + 36 + k, n), [], GetLe(m, pos + 36 + k + n, 4))
  }

  // An input that does not fit is not taken, and nothing else happens either.
  function StepVin(e: Source, r: Reader): Reader
    requires r.cnt < |r.vins|
  {
    if r.pos + 46 > e.len then r.(state := 2)
    else
      var (k, n) := GetVarint(e.m, r.pos + 36);
      if r.pos + 45 + k + n > e.len then r
      else r.(vins := r.vins[r.cnt := ReadVin(e.m, r.pos, k, n)], cnt := r.cnt + 1, pos := r.pos + 40 + k + n,
              state := if r.cnt + 1 >= |r.vins| then 2 else 1)
  }

  function AfterOutputs(segwit: bool): nat { if segwit then 4 else 5 }

  function StepVoutCount(e: Source, r: Reader): Reader {
    var (k, n) := GetVarint(e.m, r.pos);
    r.(pos := r.pos + k, vouts := seq(n, e.oldVout), cnt := 0, state := if n == 0 then AfterOutputs(r.segwit) else 3)
  }

  function ReadVout(m: Memory, pos: nat, k: nat, n: nat): Vout {
    Vout(GetLe(m, pos, 8), Read(m, pos + 8 + k, n))
  }

  function StepVout(e: Source, r: Reader): Reader
    requires r.cnt < |r.vouts|
  {
    if r.pos + 13 > e.len then r.(state := AfterOutputs(r.segwit), cnt := 0)
    else
      var (k, n) := GetVarint(e.m, r.pos + 8);
      if r.pos + 12 + k + n > e.len then r
      else
        var r1 := r.(vouts := r.vouts[r.cnt := ReadVout(e.m, r.pos, k, n)], pos := r.pos + 8 + k + n);
        if r.cnt + 1 >= |r.vouts| then r1.(state := AfterOutputs(r.segwit), cnt := 0) else r1.(cnt := r.cnt + 1)
  }

  // Item number i: the position after it, and the item. One that does not fit stays unwritten,
  // and only its length is passed over.
  function NextItem(e: Source, pos: nat, i: nat): (nat, Octets) {
    var (k, size) := GetVarint(e.m, pos);
    if pos + k + size + 4 <= e.len then (pos + k + size, Read(e.m, pos + k, size)) else (pos + k, e.oldItem(i))
  }

  // Items from number i on, after those already read.
  function ReadItems(e: Source, pos: nat, i: nat, n: nat, items: seq<Octets>): (nat, seq<Octets>)
    requires i <= n
    decreases n - i
  {
    if i == n then (pos, items)
    else ReadItems(e, NextItem(e, pos, i).0, i + 1, n, items + [NextItem(e, pos, i).1])
  }

  function StepWitness(e: Source, r: Reader): Reader {
    if r.pos + 4 > e.len || r.cnt >= |r.vins| then r.(state := 5)
    else
      var (k, n) := GetVarint(e.m, r.pos);
      var (end, items) := ReadItems(e, r.pos + k, 0, n, []);
      r.(vins := r.vins[r.cnt := r.vins[r.cnt].(wit := items)], pos := end, cnt := r.cnt + 1,
         state := if r.cnt + 1 >= |r.vins| then 5 else 4)
  }

  function StepLocktime(e: Source, r: Reader): Reader {
    r.(locktime := GetLe(e.m, r.pos, 4), pos := r.pos + 4)
  }

  predicate Valid(r: Reader) {
    && r.state <= 5 && (r.state == 0 ==> r.cnt == 0)
    && (r.state == 1 ==> r.cnt < |r.vins|) && (r.state == 3 ==> r.cnt < |r.vouts|)
  }

  function Step(e: Source, r: Reader): (r': Reader)
    requires Valid(r)
    ensures Valid(r')
  {
    if r.state == 0 then StepVinCount(e, r)
    else if r.state == 1 then StepVin(e, r)
    else if r.state == 2 then StepVoutCount(e, r)
    else if r.state == 3 then StepVout(e, r)
    else if r.state == 4 then StepWitness(e, r)
    else StepLocktime(e, r)
  }

  // n turns of the loop, or fewer if it ends.
  function Run(e: Source, r: Reader, n: nat): (r': Reader)
    requires Valid(r)
    ensures Valid(r')
    decreases n
  {
    if n == 0 || r.pos >= e.len then r else Run(e, Step(e, r), n - 1)
  }

  function Start(e: Source, oldLocktime: nat): Option<Reader> {
    if e.len < 8 then None
    else if e.m(4) == 0 && e.m(5) != 1 then None
    else if e.m(4) == 0 then Some(Reader(0, 6, 0, true, [], [], oldLocktime))
    else Some(Reader(0, 4, 0, false, [], [], oldLocktime))
  }

  function Result(e: Source, r: Reader): Tx { Tx(Signed(GetLe(e.m, 0, 4)), r.vins, r.vouts, r.locktime) }

  // ---------- when the loop ends ----------

  // An input or output whose script is longer than what is left, while the smallest one would
  // still fit: the loop then turns forever.
  predicate Stuck(e: Source, r: Reader)
    requires Valid(r)
  {
    || (r.state == 1 && r.pos + 46 <= e.len
        && var (k, n) := GetVarint(e.m, r.pos + 36); r.pos + 45 + k + n > e.len)
    || (r.state == 3 && r.pos + 13 <= e.len
        && var (k, n) := GetVarint(e.m, r.pos + 8); r.pos + 12 + k + n > e.len)
  }

  function Measure(e: Source, r: Reader): nat
    requires Valid(r)
  {
    if r.pos >= e.len then 0 else 6 * (e.len - r.pos) + (6 - r.state)
  }

  lemma {:induction false} ReadItemsAdvance(e: Source, pos: nat, i: nat, n: nat, items: seq<Octets>)
    requires i <= n
    ensures ReadItems(e, pos, i, n, items).0 >= pos
    decreases n - i
  {
    if i < n {
      ReadItemsAdvance(e, NextItem(e, pos, i).0, i + 1, n, items + [NextItem(e, pos, i).1]);
    }
  }

  // Every other turn brings the end nearer.
  lemma Progress(e: Source, r: Reader)
    requires Valid(r) && r.pos < e.len
    ensures Stuck(e, r) ==> Step(e, r) == r
    ensures !Stuck(e, r) ==> Measure(e, Step(e, r)) < Measure(e, r)
  {
    if r.state == 4 && r.cnt < |r.vins| {
      var (k, n) := GetVarint(e.m, r.pos);
      ReadItemsAdvance(e, r.pos + k, 0, n, []);
    }
  }

  lemma {:induction false} StuckStays(e: Source, r: Reader, n: nat)
    requires Valid(r) && Stuck(e, r)
    ensures Run(e, r, n) == r && r.pos < e.len
    decreases n
  {
    if n > 0 {
      Progress(e, r);
      StuckStays(e, r, n - 1);
    }
  }

  // On every input the loop either ends within Measure turns or is stuck by then.
  lemma {:induction false} EndsOrStuck(e: Source, r: Reader, n: nat)
    requires Valid(r) && n >= Measure(e, r)
    ensures Run(e, r, n).pos >= e.len || Stuck(e, Run(e, r, n))
    decreases n
  {
    if r.pos < e.len {
      if Stuck(e, r) {
        StuckStays(e, r, n);
      } else {
        Progress(e, r);
        EndsOrStuck(e, Step(e, r), n - 1);
      }
    }
  }

  lemma {:induction false} RunAdd(e: Source, r: Reader, a: nat, b: nat)
    requires Valid(r)
    ensures Run(e, r, a + b) == Run(e, Run(e, r, a), b)
    decreases a
  {
    if a > 0 && r.pos < e.len { RunAdd(e, Step(e, r), a - 1, b); }
  }

  // ---------- the condition on the bytes ----------

  // Where the inputs stop, reading n of them from pos on by nothing but the lengths they announce;
  // None if one announces more than is left where the smallest input would still fit.
  function InputsEnd(m: Memory, len: nat, pos: nat, n: nat): Option<nat>
    decreases n
  {
    if n == 0 || pos + 46 > len then Some(pos)
    else
      var (k, size) := GetVarint(m, pos + 36);
      if pos + 45 + k + size > len then None else InputsEnd(m, len, pos + 40 + k + size, n - 1)
  }

  // The same of n outputs.
  predicate OutputsOverrun(m: Memory, len: nat, pos: nat, n: nat)
    decreases n
  {
    if n == 0 || pos + 13 > len then false
    else
      var (k, size) := GetVarint(m, pos + 8);
      pos + 12 + k + size > len || OutputsOverrun(m, len, pos + 8 + k + size, n - 1)
  }

  // Some input, or some output after the inputs, announces more than is left.
  predicate Overruns(m: Memory, len: nat) {
    var start := if m(4) == 0 then 6 else 4;
    var (k, n) := GetVarint(m, start);
    var ins := InputsEnd(m, len, start + k, n);
    ins.None? || (ins.value < len &&
      var (j, outs) := GetVarint(m, ins.value); OutputsOverrun(m, len, ins.value + j, outs))
  }

  // The loop takes r to r' in n turns.
  ghost predicate Takes(e: Source, r: Reader, r': Reader, n: nat) {
    Valid(r) && Run(e, r, n) == r'
  }

  lemma TakesMore(e: Source, a: Reader, b: Reader, c: Reader, n: nat, k: nat)
    requires Takes(e, a, b, n) && Takes(e, b, c, k)
    ensures Takes(e, a, c, n + k)
  {
    RunAdd(e, a, n, k);
  }

  lemma TakesOne(e: Source, r: Reader)
    requires Valid(r) && r.pos < e.len
    ensures Takes(e, r, Step(e, r), 1)
  {
  }

  // The turns on the inputs end stuck on one of them, or where the walk over them ends.
  lemma {:induction false} InputsWalk(e: Source, r: Reader) returns (r': Reader, n: nat)
    requires r.state == 1 && Valid(r)
    ensures Takes(e, r, r', n) && Valid(r')
    ensures var p := InputsEnd(e.m, e.len, r.pos, |r.vins| - r.cnt);
            if p.None? then Stuck(e, r') else r'.pos == p.value && (p.value < e.len ==> r'.state == 2)
    decreases |r.vins| - r.cnt
  {
    r', n := r, 0;
    if r.pos < e.len && !Stuck(e, r) {
      TakesOne(e, r);
      r', n := Step(e, r), 1;
      if r'.state == 1 {
        var mid := r';
        r', n := InputsWalk(e, mid);
        TakesMore(e, r, mid, r', 1, n);
        n := 1 + n;
      }
    }
  }

  // The turns on the outputs end stuck on one of them, or after all that could hang.
  lemma {:induction false} OutputsWalk(e: Source, r: Reader) returns (r': Reader, n: nat)
    requires r.state == 3 && Valid(r)
    ensures Takes(e, r, r', n) && Valid(r')
    ensures if OutputsOverrun(e.m, e.len, r.pos, |r.vouts| - r.cnt) then Stuck(e, r')
            else r'.pos >= e.len || r'.state >= 4
    decreases |r.vouts| - r.cnt
  {
    r', n := r, 0;
    if r.pos < e.len && !Stuck(e, r) {
      TakesOne(e, r);
      r', n := Step(e, r), 1;
      if r'.state == 3 {
        var mid := r';
        r', n := OutputsWalk(e, mid);
        TakesMore(e, r, mid, r', 1, n);
        n := 1 + n;
      }
    }
  }

  // From the output count on.
  lemma TailWalk(e: Source, r: Reader) returns (r': Reader, n: nat)
    requires r.state == 2 && r.pos < e.len
    ensures Takes(e, r, r', n) && Valid(r')
    ensures var (k, outs) := GetVarint(e.m, r.pos);
            if OutputsOverrun(e.m, e.len, r.pos + k, outs) then Stuck(e, r')
            else r'.pos >= e.len || r'.state >= 4
  {
    TakesOne(e, r);
    r', n := Step(e, r), 1;
    if r'.state == 3 {
      var mid := r';
      r', n := OutputsWalk(e, mid);
      TakesMore(e, r, mid, r', 1, n);
      n := 1 + n;
    }
  }

  // From the start on.
  lemma WholeWalk(e: Source, oldLocktime: nat) returns (r: Reader, n: nat)
    requires Start(e, oldLocktime).Some?
    ensures Takes(e, Start(e, oldLocktime).value, r, n) && Valid(r)
    ensures if Overruns(e.m, e.len) then Stuck(e, r) else r.pos >= e.len || r.state >= 4
  {
    var r0 := Start(e, oldLocktime).value;
    TakesOne(e, r0);
    var r1 := Step(e, r0);
    r, n := r1, 1;
    if r1.state == 1 {
      r, n := InputsWalk(e, r1);
      TakesMore(e, r0, r1, r, 1, n);
      n := 1 + n;
    }
    if r.state == 2 && r.pos < e.len {
      var r2, n2 := r, n;
      r, n := TailWalk(e, r2);
      TakesMore(e, r0, r2, r, n2, n);
      n := n2 + n;
    }
  }

  // Past the outputs nothing hangs.
  lemma {:induction false} LateStays(e: Source, r: Reader, n: nat)
    requires Valid(r) && r.state >= 4
    ensures Run(e, r, n).state >= 4
    decreases n
  {
    if n > 0 && r.pos < e.len { LateStays(e, Step(e, r), n - 1); }
  }

  lemma {:induction false} EndedStays(e: Source, r: Reader, n: nat, k: nat)
    requires Valid(r) && Run(e, r, n).pos >= e.len && n <= k
    ensures Run(e, r, k) == Run(e, r, n)
  {
    RunAdd(e, r, n, k - n);
  }

  // The loop ends if and only if no input or output announces more bytes than are left: a
  // condition on the bytes alone.
  lemma EndsExactly(e: Source, oldLocktime: nat)
    requires Start(e, oldLocktime).Some?
    ensures (exists n :: Run(e, Start(e, oldLocktime).value, n).pos >= e.len) <==> !Overruns(e.m, e.len)
  {
    var r0 := Start(e, oldLocktime).value;
    var r, n := WholeWalk(e, oldLocktime);
    if Overruns(e.m, e.len) {
      forall k ensures Run(e, r0, k).pos < e.len {
        StuckStays(e, r, k);
        RunAdd(e, r0, n, k);
        if Run(e, r0, k).pos >= e.len { EndedStays(e, r0, k, n + k); }
      }
    } else {
      var m := Measure(e, r);
      EndsOrStuck(e, r, m);
      if r.pos < e.len { LateStays(e, r, m); }
      RunAdd(e, r0, n, m);
      assert Run(e, r0, n + m).pos >= e.len;
    }
  }

  // Where the loop ends, if it does: it takes no more than Measure turns.
  function Final(e: Source, r: Reader): (r': Reader)
    requires Valid(r)
    ensures Valid(r')
  {
    Run(e, r, Measure(e, r))
  }

  lemma FinalIs(e: Source, r: Reader, n: nat)
    requires Valid(r) && Run(e, r, n).pos >= e.len
    ensures Final(e, r) == Run(e, r, n)
  {
    var m := Measure(e, r);
    EndsOrStuck(e, r, m);
    if n <= m {
      EndedStays(e, r, n, m);
    } else {
      RunAdd(e, r, m, n - m);
      if Stuck(e, Run(e, r, m)) { StuckStays(e, Run(e, r, m), n - m); }
    }
  }

  // ---------- the C function ----------

  method BtcTxRead(e: Source, oldLocktime: nat) returns (ok: bool, tx: Tx)
    requires Start(e, oldLocktime).Some? ==> !Overruns(e.m, e.len)
    ensures ok <==> Start(e, oldLocktime).Some?
    ensures ok ==> Final(e, Start(e, oldLocktime).value).pos >= e.len
                   && tx == Result(e, Final(e, Start(e, oldLocktime).value))
  {
    tx := Tx(0, [], [], 0);
    if e.len < 8 { return false, tx; }
    var version := Signed(GetLe(e.m, 0, 4));
    var mark, flag := e.m(4), e.m(5);
    if mark == 0 && flag != 1 { return false, tx; }
    var r := Reader(0, 4, 0, false, [], [], oldLocktime);
    if mark == 0 && flag == 1 { r := r.(segwit := true, pos := 6); }
    r := Loop(e, r, oldLocktime);
    ok := true;
    tx := Tx(version, r.vins, r.vouts, r.locktime);
  }

  // The loop over the six states.
  method Loop(e: Source, start: Reader, ghost oldLocktime: nat) returns (r: Reader)
    requires Start(e, oldLocktime) == Some(start) && !Overruns(e.m, e.len)
    ensures r == Final(e, start) && r.pos >= e.len
  {
    EndsExactly(e, oldLocktime);
    ghost var n: nat :| Run(e, start, n).pos >= e.len;
    FinalIs(e, start, n);
    r := start;
    ghost var turns := 0;
    while r.pos < e.len
      invariant Valid(r) && turns <= n
      invariant Run(e, r, n - turns) == Final(e, start)
      decreases n - turns
    {
      match r.state {
        case 0 => r := StepVinCount(e, r);
        case 1 => r := TakeVin(e, r);
        case 2 => r := StepVoutCount(e, r);
        case 3 => r := TakeVout(e, r);
        case 4 => r := TakeWitness(e, r);
        case _ => r := StepLocktime(e, r);
      }
      turns := turns + 1;
    }
  }

  method TakeVin(e: Source, r0: Reader) returns (r: Reader)
    requires r0.state == 1 && Valid(r0)
    ensures r == StepVin(e, r0)
  {
    r := r0;
    var k, n;
    if r.pos + 41 + 1 + 4 <= e.len {
      var at := r.pos + 32 + 4;
      k, n := GetVarint(e.m, at).0, GetVarint(e.m, at).1;
    } else {
      r := r.(state := 2);
      return;
    }
    if r.pos + 40 + k + n + 1 + 4 <= e.len {
      var vin := r.cnt;
      var pos := r.pos;
      var txid := Read(e.m, pos, 32);
      pos := pos + 32;
      var index := GetLe(e.m, pos, 4);
      pos := pos + 4 + k;
      var script := Read(e.m, pos, n);
      pos := pos + n;
      var sequence := GetLe(e.m, pos, 4);
      pos := pos + 4;
      r := r.(cnt := r.cnt + 1, pos := pos, vins := r.vins[vin := Vin(txid, index, script, [], sequence)]);
    }
    if r.cnt >= |r.vins| { r := r.(state := 2); }
  }

  method TakeVout(e: Source, r0: Reader) returns (r: Reader)
    requires r0.state == 3 && Valid(r0)
    ensures r == StepVout(e, r0)
  {
    r := r0;
    var k, n;
    if r.pos + 9 + 4 <= e.len {
      var at := r.pos + 8;
      k, n := GetVarint(e.m, at).0, GetVarint(e.m, at).1;
    } else {
      r := r.(state := if r.segwit then 4 else 5);
      r := r.(cnt := 0);
      return;
    }
    if r.pos + 8 + k + n + 4 <= e.len {
      var vout := r.cnt;
      var pos := r.pos;
      var value := GetLe(e.m, pos, 8);
      pos := pos + 8 + k;
      var script := Read(e.m, pos, n);
      pos := pos + n;
      r := r.(cnt := r.cnt + 1, pos := pos, vouts := r.vouts[vout := Vout(value, script)]);
    }
    if r.cnt >= |r.vouts| {
      r := r.(state := if r.segwit then 4 else 5);
      r := r.(cnt := 0);
    }
  }

  method TakeWitness(e: Source, r0: Reader) returns (r: Reader)
    requires r0.state == 4
    ensures r == StepWitness(e, r0)
  {
    r := r0;
    if r.pos + 4 > e.len || r.cnt >= |r.vins| {
      r := r.(state := 5);
      return;
    }
    var k, n := GetVarint(e.m, r.pos).0, GetVarint(e.m, r.pos).1;
    var pos, items := TakeItems(e, r.pos + k, n);
    r := r.(vins := r.vins[r.cnt := r.vins[r.cnt].(wit := items)], pos := pos);
    r := r.(cnt := r.cnt + 1);
    if r.cnt >= |r.vins| { r := r.(state := 5); }
  }

  // The inner loop over the items of one input.
  method TakeItems(e: Source, start: nat, n: nat) returns (pos: nat, items: seq<Octets>)
    ensures (pos, items) == ReadItems(e, start, 0, n, [])
  {
    pos, items := start, [];
    var lp: nat := 0;
    while lp < n
      invariant lp <= n
      invariant ReadItems(e, start, 0, n, []) == ReadItems(e, pos, lp, n, items)
    {
      var (k, size) := GetVarint(e.m, pos);
      pos := pos + k;
      if pos + size + 4 <= e.len {
        items := items + [Read(e.m, pos, size)];
        pos := pos + size;
      } else {
        items := items + [e.oldItem(lp)];
      }
      lp := lp + 1;
    }
  }
}
