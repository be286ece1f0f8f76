/**
 The list of txs waiting to be proposed, mempool/reap_list.go: a slice with holes
 and an index from hash to position, which also guards against adding a tx twice.
 Checking for a hash and pushing it are one step here.
 */
module ReapList {
  import opened Prelude

  datatype Tx = Tx(bytes: seq<int>, hash: string, gas: nat)

  // ---------- Specification: a plain queue and a guard set ----------

  datatype State = State(fifo: seq<Tx>, guards: set<string>)

  datatype Op = Push(tx: Tx) | Reap(maxBytes: nat, maxGas: nat) | Drop(hash: string)

  /** The stopping test of the loop, with its uint64 sums. */
  predicate Stops(bytesSoFar: nat, gasSoFar: nat, tx: Tx, maxBytes: nat, maxGas: nat) {
    (maxBytes > 0 && Wrap64(bytesSoFar + |tx.bytes|) > maxBytes) || (maxGas > 0 && Wrap64(gasSoFar + tx.gas) > maxGas)
  }

  /** How many txs the loop takes from here on. */
  function Taken(fifo: seq<Tx>, bytesSoFar: nat, gasSoFar: nat, maxBytes: nat, maxGas: nat): nat {
    if fifo == [] || Stops(bytesSoFar, gasSoFar, fifo[0], maxBytes, maxGas) then 0
    else 1 + Taken(fifo[1..], Wrap64(bytesSoFar + |fifo[0].bytes|), Wrap64(gasSoFar + fifo[0].gas), maxBytes, maxGas)
  }

  lemma {:induction false} TakenIsBounded(fifo: seq<Tx>, b: nat, g: nat, maxBytes: nat, maxGas: nat)
    ensures Taken(fifo, b, g, maxBytes, maxGas) <= |fifo|
  {
    if fifo != [] {
      TakenIsBounded(fifo[1..], Wrap64(b + |fifo[0].bytes|), Wrap64(g + fifo[0].gas), maxBytes, maxGas);
    }
  }

  function Returned(s: State, op: Op): seq<Tx> {
    if op.Reap? then
      TakenIsBounded(s.fifo, 0, 0, op.maxBytes, op.maxGas);
      s.fifo[..Taken(s.fifo, 0, 0, op.maxBytes, op.maxGas)]
    else []
  }

  function Without(fifo: seq<Tx>, hash: string): seq<Tx> {
    if fifo == [] then []
    else (if fifo[0].hash == hash then [] else [fifo[0]]) + Without(fifo[1..], hash)
  }

  function Step(s: State, op: Op): State {
    match op
    case Push(tx) => if tx.hash in s.guards then s else State(s.fifo + [tx], s.guards + {tx.hash})
    case Reap(maxBytes, maxGas) =>
      TakenIsBounded(s.fifo, 0, 0, maxBytes, maxGas);
      s.(fifo := s.fifo[|Returned(s, op)|..])
    case Drop(hash) => State(Without(s.fifo, hash), s.guards - {hash})
  }

  function Run(s: State, ops: seq<Op>): State
    decreases |ops|
  {
    if ops == [] then s else Run(Step(s, ops[0]), ops[1..])
  }

  ghost predicate Inv(s: State) {
    && (forall i, j | 0 <= i < j < |s.fifo| :: s.fifo[i].hash != s.fifo[j].hash)
    && (forall i | 0 <= i < |s.fifo| :: s.fifo[i].hash in s.guards)
  }

  lemma {:induction false} WithoutIsSubsequence(fifo: seq<Tx>, hash: string)
    ensures forall tx :: tx in Without(fifo, hash) <==> tx in fifo && tx.hash != hash
    ensures (forall i, j | 0 <= i < j < |fifo| :: fifo[i].hash != fifo[j].hash) ==>
              forall i, j | 0 <= i < j < |Without(fifo, hash)| :: Without(fifo, hash)[i].hash != Without(fifo, hash)[j].hash
  {
    if fifo != [] {
      WithoutIsSubsequence(fifo[1..], hash);
      var rest := Without(fifo[1..], hash);
      forall j | 0 <= j < |rest| && forall i, k | 0 <= i < k < |fifo| :: fifo[i].hash != fifo[k].hash
        ensures fifo[0].hash != rest[j].hash
      {
        assert rest[j] in rest;
        var k :| 0 <= k < |fifo[1..]| && fifo[1..][k] == rest[j];
        assert fifo[k + 1] == rest[j];
      }
      assert forall tx :: tx in fifo <==> tx == fifo[0] || tx in fifo[1..];
    }
  }

  lemma StepKeepsInv(s: State, op: Op)
    requires Inv(s)
    ensures Inv(Step(s, op))
  {
    if op.Drop? {
      WithoutIsSubsequence(s.fifo, op.hash);
      var r := Without(s.fifo, op.hash);
      forall i | 0 <= i < |r| ensures r[i].hash in s.guards - {op.hash} {
        assert r[i] in r;
      }
    } else if op.Reap? {
      TakenIsBounded(s.fifo, 0, 0, op.maxBytes, op.maxGas);
    }
  }

  /** The hash is guarded but no longer waiting: it has been handed out. */
  ghost predicate HandedOut(s: State, hash: string) {
    hash in s.guards && forall i | 0 <= i < |s.fifo| :: s.fifo[i].hash != hash
  }

  /** A returned tx has been handed out afterwards. */
  lemma ReturnedIsHandedOut(s: State, op: Op, i: nat)
    requires Inv(s) && i < |Returned(s, op)|
    ensures HandedOut(Step(s, op), Returned(s, op)[i].hash)
  {
    TakenIsBounded(s.fifo, 0, 0, op.maxBytes, op.maxGas);
  }

  /**
   No hash is returned twice without a drop in between: once handed out it stays
   handed out, whatever is pushed and reaped, and no reap returns it.
   */
  lemma {:induction false} NeverTwiceWithoutDrop(s: State, ops: seq<Op>, hash: string, k: nat)
    requires Inv(s) && HandedOut(s, hash) && k < |ops|
    requires forall i | 0 <= i < k :: ops[i] != Drop(hash)
    ensures forall i | 0 <= i < |Returned(Run(s, ops[..k]), ops[k])| :: Returned(Run(s, ops[..k]), ops[k])[i].hash != hash
    decreases k
  {
    if k == 0 {
      TakenIsBounded(s.fifo, 0, 0, if ops[0].Reap? then ops[0].maxBytes else 0, if ops[0].Reap? then ops[0].maxGas else 0);
    } else {
      StepKeepsInv(s, ops[0]);
      StaysHandedOut(s, ops[0], hash);
      NeverTwiceWithoutDrop(Step(s, ops[0]), ops[1..], hash, k - 1);
      assert ops[..k][1..] == ops[1..][..k - 1];
    }
  }

  lemma StaysHandedOut(s: State, op: Op, hash: string)
    requires HandedOut(s, hash) && op != Drop(hash)
    ensures HandedOut(Step(s, op), hash)
  {
    if op.Drop? {
      WithoutIsSubsequence(s.fifo, op.hash);
      var r := Without(s.fifo, op.hash);
      forall i | 0 <= i < |r| ensures r[i].hash != hash {
        assert r[i] in r;
      }
    } else if op.Reap? {
      TakenIsBounded(s.fifo, 0, 0, op.maxBytes, op.maxGas);
    }
  }

  lemma {:induction false} RunKeepsInv(s: State, ops: seq<Op>)
    requires Inv(s)
    ensures Inv(Run(s, ops))
    decreases |ops|
  {
    if ops != [] {
      StepKeepsInv(s, ops[0]);
      RunKeepsInv(Step(s, ops[0]), ops[1..]);
    }
  }

  lemma {:induction false} RunConcat(s: State, a: seq<Op>, b: seq<Op>)
    ensures Run(s, a + b) == Run(Run(s, a), b)
    decreases |a|
  {
    hide Step;
    if a == [] {
      assert a + b == b;
    } else {
      assert (a + b)[1..] == a[1..] + b;
      RunConcat(Step(s, a[0]), a[1..], b);
    }
  }

  const EMPTY := State([], {})

  /** Operation i of a run from the empty list returns the hash. */
  ghost predicate Returns(ops: seq<Op>, i: nat, hash: string)
    requires i < |ops|
  {
    var out := Returned(Run(EMPTY, ops[..i]), ops[i]);
    exists m :: 0 <= m < |out| && out[m].hash == hash
  }

  /** Over any run, a hash that comes out twice has been dropped in between. */
  lemma DroppedInBetween(ops: seq<Op>, i: nat, j: nat, hash: string)
    requires i < j < |ops| && Returns(ops, i, hash) && Returns(ops, j, hash)
    ensures exists k :: i < k < j && ops[k] == Drop(hash)
  {
    hide Step, Returned;
    var s := Run(EMPTY, ops[..i]);
    RunKeepsInv(EMPTY, ops[..i]);
    var m :| 0 <= m < |Returned(s, ops[i])| && Returned(s, ops[i])[m].hash == hash;
    ReturnedIsHandedOut(s, ops[i], m);
    StepKeepsInv(s, ops[i]);
    var rest := ops[i + 1..];
    RunConcat(EMPTY, ops[..i], [ops[i]]);
    assert ops[..i] + [ops[i]] == ops[..i + 1] && [ops[i]][1..] == [];
    assert Run(s, [ops[i]]) == Run(Step(s, ops[i]), []);
    RunConcat(EMPTY, ops[..i + 1], rest[..j - i - 1]);
    assert ops[..i + 1] + rest[..j - i - 1] == ops[..j] && rest[j - i - 1] == ops[j];
    if forall k | 0 <= k < j - i - 1 :: rest[k] != Drop(hash) {
      NeverTwiceWithoutDrop(Step(s, ops[i]), rest, hash, j - i - 1);
      assert false;
    }
    var k :| 0 <= k < j - i - 1 && rest[k] == Drop(hash);
    assert ops[i + 1 + k] == Drop(hash);
  }

  ghost predicate Waits(s: State, tx: Tx) {
    exists i :: 0 <= i < |s.fifo| && s.fifo[i] == tx
  }

  /** An operation leaves a waiting tx waiting, unless it returns the tx or drops its hash. */
  lemma StaysOrComesOut(s: State, op: Op, tx: Tx)
    requires Waits(s, tx) && op != Drop(tx.hash)
    ensures Waits(Step(s, op), tx) || tx in Returned(s, op)
  {
    var i :| 0 <= i < |s.fifo| && s.fifo[i] == tx;
    match op
    case Push(other) => assert Step(s, op).fifo[i] == tx;
    case Reap(maxBytes, maxGas) =>
      TakenIsBounded(s.fifo, 0, 0, maxBytes, maxGas);
      var n := |Returned(s, op)|;
      if i >= n { assert Step(s, op).fifo[i - n] == tx; }
      else { assert Returned(s, op)[i] == tx; }
    case Drop(hash) =>
      WithoutIsSubsequence(s.fifo, hash);
      assert tx in Without(s.fifo, hash);
  }

  /** A tx that waits has come out, or still waits, after any operations that do not drop it. */
  lemma {:induction false} WaitingIsNotLost(s: State, ops: seq<Op>, tx: Tx)
    requires Waits(s, tx) && forall i | 0 <= i < |ops| :: ops[i] != Drop(tx.hash)
    ensures Waits(Run(s, ops), tx) || exists k :: 0 <= k < |ops| && tx in Returned(Run(s, ops[..k]), ops[k])
    decreases |ops|
  {
    if ops != [] {
      hide Waits, Step, Returned;
      StaysOrComesOut(s, ops[0], tx);
      if tx in Returned(s, ops[0]) {
        assert ops[..0] == [] && Run(s, []) == s;
      } else {
        var s', rest := Step(s, ops[0]), ops[1..];
        WaitingIsNotLost(s', rest, tx);
        if !Waits(Run(s', rest), tx) {
          var k :| 0 <= k < |rest| && tx in Returned(Run(s', rest[..k]), rest[k]);
          assert ops[..k + 1][1..] == rest[..k] && Run(s, ops[..k + 1]) == Run(s', rest[..k]) && ops[k + 1] == rest[k];
        }
      }
    }
  }

  /** A pushed tx waits at the back, exactly if its hash was not known; a dropped hash is not known any more. */
  lemma PushedWaits(s: State, tx: Tx)
    ensures tx.hash !in s.guards ==> Step(s, Push(tx)).fifo == s.fifo + [tx] && Waits(Step(s, Push(tx)), tx)
    ensures tx.hash in s.guards ==> Step(s, Push(tx)) == s
    ensures var again := Step(Step(s, Drop(tx.hash)), Push(tx)); Waits(again, tx) && again.fifo[|again.fifo| - 1] == tx
  {
    assert (s.fifo + [tx])[|s.fifo|] == tx;
    var d := Step(s, Drop(tx.hash));
    assert (d.fifo + [tx])[|d.fifo|] == tx;
  }

  /** A reap without limits returns all that waits, oldest first, and leaves nothing. */
  lemma {:induction false} UnlimitedTakesAll(fifo: seq<Tx>, b: nat, g: nat)
    ensures Taken(fifo, b, g, 0, 0) == |fifo|
  {
    if fifo != [] { UnlimitedTakesAll(fifo[1..], Wrap64(b + |fifo[0].bytes|), Wrap64(g + fifo[0].gas)); }
  }

  /** Hence every pushed tx comes out with the next unlimited reap, unless it came out or was dropped before. */
  lemma PushedComesOut(s: State, tx: Tx, ops: seq<Op>)
    requires tx.hash !in s.guards && forall i | 0 <= i < |ops| :: ops[i] != Drop(tx.hash)
    ensures var pushed := Step(s, Push(tx));
            || tx in Returned(Run(pushed, ops), Reap(0, 0))
            || exists k :: 0 <= k < |ops| && tx in Returned(Run(pushed, ops[..k]), ops[k])
  {
    PushedWaits(s, tx);
    WaitingIsNotLost(Step(s, Push(tx)), ops, tx);
    UnlimitedTakesAll(Run(Step(s, Push(tx)), ops).fifo, 0, 0);
  }

  // ---------- What a reap returns ----------

  function SumBytes(fifo: seq<Tx>, k: nat): nat
    requires k <= |fifo|
  {
    if k == 0 then 0 else SumBytes(fifo, k - 1) + |fifo[k - 1].bytes|
  }

  function SumGas(fifo: seq<Tx>, k: nat): nat
    requires k <= |fifo|
  {
    if k == 0 then 0 else SumGas(fifo, k - 1) + fifo[k - 1].gas
  }

  /** The first k txs stay within both limits, 0 meaning no limit. */
  predicate Fits(fifo: seq<Tx>, k: nat, maxBytes: nat, maxGas: nat)
    requires k <= |fifo|
  {
    (maxBytes == 0 || SumBytes(fifo, k) <= maxBytes) && (maxGas == 0 || SumGas(fifo, k) <= maxGas)
  }

  /** k is the length of the longest prefix that fits. */
  ghost predicate IsLongest(fifo: seq<Tx>, k: nat, maxBytes: nat, maxGas: nat) {
    k <= |fifo| && Fits(fifo, k, maxBytes, maxGas) && forall j | k < j <= |fifo| :: !Fits(fifo, j, maxBytes, maxGas)
  }

  /** There is a longest prefix that fits, and only one. */
  lemma LongestExists(fifo: seq<Tx>, maxBytes: nat, maxGas: nat) returns (k: nat)
    ensures IsLongest(fifo, k, maxBytes, maxGas)
    ensures forall j | IsLongest(fifo, j, maxBytes, maxGas) :: j == k
  {
    k := |fifo|;
    while !Fits(fifo, k, maxBytes, maxGas)
      invariant k <= |fifo| && forall j | k < j <= |fifo| :: !Fits(fifo, j, maxBytes, maxGas)
      decreases k
    {
      k := k - 1;
    }
  }

  lemma Wrap64Absorbs(x: nat, y: nat)
    ensures Wrap64(Wrap64(x) + y) == Wrap64(x + y)
  {
    var q := x / UINT64_LIMIT;
    assert x == q * UINT64_LIMIT + x % UINT64_LIMIT;
  }

  /** The loop from its k-th tx on, its sums being the wrapped ones. */
  ghost function TakenFrom(fifo: seq<Tx>, k: nat, maxBytes: nat, maxGas: nat): nat
    requires k <= |fifo|
  {
    k + Taken(fifo[k..], Wrap64(SumBytes(fifo, k)), Wrap64(SumGas(fifo, k)), maxBytes, maxGas)
  }

  /** The test at the k-th tx sees the wrapped sums of the first k + 1. */
  predicate StopsAt(fifo: seq<Tx>, k: nat, maxBytes: nat, maxGas: nat)
    requires k < |fifo|
  {
    (maxBytes > 0 && Wrap64(SumBytes(fifo, k + 1)) > maxBytes) || (maxGas > 0 && Wrap64(SumGas(fifo, k + 1)) > maxGas)
  }

  lemma TakenStep(fifo: seq<Tx>, k: nat, maxBytes: nat, maxGas: nat)
    requires k < |fifo|
    ensures TakenFrom(fifo, k, maxBytes, maxGas) ==
            if StopsAt(fifo, k, maxBytes, maxGas) then k else TakenFrom(fifo, k + 1, maxBytes, maxGas)
  {
    hide Wrap64;
    Wrap64Absorbs(SumBytes(fifo, k), |fifo[k].bytes|);
    Wrap64Absorbs(SumGas(fifo, k), fifo[k].gas);
    assert fifo[k..][1..] == fifo[k + 1..];
    assert fifo[k..][0] == fifo[k];
  }

  /** While everything fits in a uint64 limit, no sum that counts has wrapped. */
  lemma FittingDoesNotStop(fifo: seq<Tx>, k: nat, maxBytes: nat, maxGas: nat)
    requires k < |fifo| && Fits(fifo, k + 1, maxBytes, maxGas)
    requires maxBytes < UINT64_LIMIT && maxGas < UINT64_LIMIT
    ensures !StopsAt(fifo, k, maxBytes, maxGas)
  {
    hide SumBytes, SumGas;
  }

  lemma {:induction false} SumsGrow(fifo: seq<Tx>, j: nat, k: nat)
    requires j <= k <= |fifo|
    ensures SumBytes(fifo, j) <= SumBytes(fifo, k) && SumGas(fifo, j) <= SumGas(fifo, k)
  {
    if j < k { SumsGrow(fifo, j, k - 1); }
  }

  lemma {:induction false} TakesWhatFits(fifo: seq<Tx>, j: nat, k: nat, maxBytes: nat, maxGas: nat)
    requires j <= k <= |fifo| && Fits(fifo, k, maxBytes, maxGas)
    requires maxBytes < UINT64_LIMIT && maxGas < UINT64_LIMIT
    ensures TakenFrom(fifo, j, maxBytes, maxGas) == TakenFrom(fifo, k, maxBytes, maxGas)
    decreases k - j
  {
    if j < k {
      SumsGrow(fifo, j + 1, k);
      FittingDoesNotStop(fifo, j, maxBytes, maxGas);
      TakenStep(fifo, j, maxBytes, maxGas);
      TakesWhatFits(fifo, j + 1, k, maxBytes, maxGas);
    }
  }

  /**
   A reap returns the longest oldest-first prefix within both limits exactly when the
   loop's test, whose sums wrap around at 2^64, stops at the first tx that does not fit.
   */
  lemma ReapIsLongestIff(fifo: seq<Tx>, k: nat, maxBytes: nat, maxGas: nat)
    requires maxBytes < UINT64_LIMIT && maxGas < UINT64_LIMIT
    requires IsLongest(fifo, k, maxBytes, maxGas)
    ensures Taken(fifo, 0, 0, maxBytes, maxGas) == k <==> (k == |fifo| || StopsAt(fifo, k, maxBytes, maxGas))
  {
    hide Wrap64;
    TakesWhatFits(fifo, 0, k, maxBytes, maxGas);
    Wrap64Once(0);
    assert fifo[0..] == fifo;
    if k < |fifo| {
      TakenStep(fifo, k, maxBytes, maxGas);
      TakenIsBounded(fifo[k + 1..], Wrap64(SumBytes(fifo, k + 1)), Wrap64(SumGas(fifo, k + 1)), maxBytes, maxGas);
    }
  }

  /** In particular whenever the waiting txs' bytes and gas add up to less than 2^64. */
  lemma ReapIsLongest(fifo: seq<Tx>, k: nat, maxBytes: nat, maxGas: nat)
    requires maxBytes < UINT64_LIMIT && maxGas < UINT64_LIMIT
    requires SumBytes(fifo, |fifo|) < UINT64_LIMIT && SumGas(fifo, |fifo|) < UINT64_LIMIT
    requires IsLongest(fifo, k, maxBytes, maxGas)
    ensures Taken(fifo, 0, 0, maxBytes, maxGas) == k
  {
    ReapIsLongestIff(fifo, k, maxBytes, maxGas);
    if k < |fifo| {
      SumsGrow(fifo, k + 1, |fifo|);
      Wrap64Once(SumBytes(fifo, k + 1));
      Wrap64Once(SumGas(fifo, k + 1));
      assert !Fits(fifo, k + 1, maxBytes, maxGas);
    }
  }

  /** A tx with a huge gas wraps the sum, and a reap with a gas limit returns it. */
  lemma HugeGasSlipsThrough(a: Tx, b: Tx)
    requires a.gas == 60 && b.gas == UINT64_LIMIT - 10
    ensures IsLongest([a, b], 1, 0, 100) && Taken([a, b], 0, 0, 0, 100) == 2
  {
    var fifo := [a, b];
    assert SumGas(fifo, 1) == 60 && SumGas(fifo, 2) == UINT64_LIMIT + 50;
    Wrap64Once(60);
    Wrap64Once(UINT64_LIMIT + 50);
    hide Wrap64;
    assert IsLongest(fifo, 1, 0, 100);
    TakesWhatFits(fifo, 0, 1, 0, 100);
    TakenStep(fifo, 1, 0, 100);
    Wrap64Once(0);
    assert fifo[0..] == fifo;
  }

  // ---------- The implementation ----------

  /** The txs in the slots, holes left out. */
  function Live(slots: seq<Option<Tx>>): seq<Tx> {
    if slots == [] then []
    else Live(slots[..|slots| - 1]) + (if slots[|slots| - 1].None? then [] else [slots[|slots| - 1].value])
  }

  lemma {:induction false} LiveOfConcat(a: seq<Option<Tx>>, b: seq<Option<Tx>>)
    ensures Live(a + b) == Live(a) + Live(b)
    decreases |b|
  {
    if b == [] {
      assert a + b == a;
    } else {
      var last := b[|b| - 1];
      var tail := if last.None? then [] else [last.value];
      assert (a + b)[..|a + b| - 1] == a + b[..|b| - 1];
      LiveOfConcat(a, b[..|b| - 1]);
      ConcatAssociates(Live(a), Live(b[..|b| - 1]), tail);
    }
  }

  lemma LiveOfOne(slot: Option<Tx>)
    ensures Live([slot]) == if slot.None? then [] else [slot.value]
  {
    assert [slot][..0] == [];
  }

  lemma {:induction false} LiveOfAll(txs: seq<Tx>)
    ensures Live(Filled(txs)) == txs
  {
    if txs != [] {
      LiveOfAll(txs[..|txs| - 1]);
      assert Filled(txs)[..|txs| - 1] == Filled(txs[..|txs| - 1]);
      assert txs == txs[..|txs| - 1] + [txs[|txs| - 1]];
    }
  }

  function Filled(txs: seq<Tx>): seq<Option<Tx>> {
    seq(|txs|, i requires 0 <= i < |txs| => Some(txs[i]))
  }

  /** The index and the slots agree: -1 marks a tx that was reaped. */
  ghost predicate Agree(slots: seq<Option<Tx>>, index: map<string, int>) {
    && (forall i | 0 <= i < |slots| && slots[i].Some? :: slots[i].value.hash in index && index[slots[i].value.hash] == i)
    && (forall h | h in index :: index[h] == -1 || PointsTo(slots, index[h], h))
  }

  predicate PointsTo(slots: seq<Option<Tx>>, i: int, hash: string) {
    0 <= i < |slots| && slots[i].Some? && slots[i].value.hash == hash
  }

  lemma {:induction false} LiveIsListed(slots: seq<Option<Tx>>, tx: Tx)
    ensures tx in Live(slots) <==> Some(tx) in slots
  {
    if slots != [] {
      LiveIsListed(slots[..|slots| - 1], tx);
      assert slots == slots[..|slots| - 1] + [slots[|slots| - 1]];
    }
  }

  /** Making a hole where the index points takes that tx out of the queue. */
  lemma {:induction false} HoleRemoves(slots: seq<Option<Tx>>, i: nat, hash: string)
    requires PointsTo(slots, i, hash)
    requires forall j | 0 <= j < |slots| && j != i :: slots[j].None? || slots[j].value.hash != hash
    ensures Live(slots[i := None]) == Without(Live(slots), hash)
  {
    assert Without([slots[i].value], hash) == [];
    hide Live, Without;
    var a, b := slots[..i], slots[i + 1..];
    assert slots == a + [slots[i]] + b && slots[i := None] == a + [None] + b;
    LiveOfConcat(a + [slots[i]], b);
    LiveOfConcat(a + [None], b);
    LiveOfConcat(a, [slots[i]]);
    LiveOfConcat(a, [None]);
    LiveOfOne(slots[i]);
    LiveOfOne(None);
    OthersStay(a, hash);
    OthersStay(b, hash);
    WithoutConcat(Live(a) + [slots[i].value], Live(b), hash);
    WithoutConcat(Live(a), [slots[i].value], hash);
    assert Live(a) + [] == Live(a);
  }

  lemma {:induction false} WithoutConcat(a: seq<Tx>, b: seq<Tx>, hash: string)
    ensures Without(a + b, hash) == Without(a, hash) + Without(b, hash)
  {
    if a == [] {
      assert a + b == b;
    } else {
      WithoutConcat(a[1..], b, hash);
      assert (a + b)[1..] == a[1..] + b;
      ConcatAssociates(if a[0].hash == hash then [] else [a[0]], Without(a[1..], hash), Without(b, hash));
    }
  }

  lemma {:induction false} OthersStay(slots: seq<Option<Tx>>, hash: string)
    requires forall j | 0 <= j < |slots| :: slots[j].None? || slots[j].value.hash != hash
    ensures Without(Live(slots), hash) == Live(slots)
  {
    if slots != [] {
      var last := slots[|slots| - 1];
      OthersStay(slots[..|slots| - 1], hash);
      var tail := if last.None? then [] else [last.value];
      WithoutConcat(Live(slots[..|slots| - 1]), tail, hash);
      assert Without(tail, hash) == tail;
    }
  }

  class ReapList {
    var txs: seq<Option<Tx>>
    var txIndex: map<string, int>

    ghost predicate Valid()
      reads this
    {
      Agree(txs, txIndex)
    }

    /** The queue and the guard set that this list stands for. */
    ghost function Abs(): State
      reads this
    {
      State(Live(txs), txIndex.Keys)
    }

    constructor ()
      ensures Valid() && Abs() == State([], {})
    {
      txs, txIndex := [], map[];
    }

    /** Pushes a tx at the back unless its hash is guarded. */
    method Push(tx: Tx)
      requires Valid()
      modifies this
      ensures Valid() && Abs() == Step(old(Abs()), Op.Push(tx))
    {
      if tx.hash in txIndex {
        return;
      }
      assert (txs + [Some(tx)])[..|txs|] == txs;
      txs := txs + [Some(tx)];
      txIndex := txIndex[tx.hash := |txs| - 1];
    }

    /** PushEVMTx; `encoded` is the encoder's answer.  An unencodable tx is an error unless it is guarded. */
    method PushEvmTx(hash: string, encoded: Option<seq<int>>, gas: nat) returns (ok: bool)
      requires Valid()
      modifies this
      ensures Valid() && (ok <==> hash in old(Abs()).guards || encoded.Some?)
      ensures Abs() == if encoded.None? then old(Abs()) else Step(old(Abs()), Op.Push(Tx(encoded.value, hash, gas)))
    {
      if hash in txIndex {
        return true;
      }
      if encoded.None? {
        return false;
      }
      Push(Tx(encoded.value, hash, gas));
      return true;
    }

    /** PushCosmosTx; `gas` is None if the tx is no fee tx, which is an error unless it is guarded. */
    method PushCosmosTx(encoded: Option<seq<int>>, cosmosHash: seq<int> -> string, gas: Option<nat>) returns (ok: bool)
      requires Valid()
      modifies this
      ensures Valid() && (ok <==> encoded.Some? && (cosmosHash(encoded.value) in old(Abs()).guards || gas.Some?))
      ensures Abs() == if encoded.None? || gas.None? then old(Abs())
                       else Step(old(Abs()), Op.Push(Tx(encoded.value, cosmosHash(encoded.value), gas.value)))
    {
      if encoded.None? {
        return false;
      }
      var hash := cosmosHash(encoded.value);
      if hash in txIndex {
        return true;
      }
      if gas.None? {
        return false;
      }
      Push(Tx(encoded.value, hash, gas.value));
      return true;
    }

    /** DropCosmosTx: a tx that cannot be encoded is ignored. */
    method DropCosmosTx(encoded: Option<seq<int>>, cosmosHash: seq<int> -> string)
      requires Valid()
      modifies this
      ensures Valid()
      ensures Abs() == if encoded.None? then old(Abs()) else Step(old(Abs()), Op.Drop(cosmosHash(encoded.value)))
    {
      if encoded.None? {
        return;
      }
      Drop(cosmosHash(encoded.value));
    }

    /** Removes a tx wherever it is: waiting, already reaped, or unknown. */
    method Drop(hash: string)
      requires Valid()
      modifies this
      ensures Valid() && Abs() == Step(old(Abs()), Op.Drop(hash))
    {
      ghost var slots := txs;
      if hash !in txIndex {
        OthersStay(txs, hash);
        return;
      }
      var idx := txIndex[hash];
      txIndex := txIndex - {hash};
      if idx < 0 || idx >= |txs| {
        OthersStay(txs, hash);
        return;
      }
      HoleRemoves(txs, idx, hash);
      txs := txs[idx := None];
    }

    /**
     Returns the oldest txs until a limit is reached and compacts the rest.  The two
     panics, on a tx missing from the index, are unreachable.
     */
    method Reap(maxBytes: nat, maxGas: nat) returns (result: seq<seq<int>>)
      requires Valid()
      modifies this
      ensures Valid() && Abs() == Step(old(Abs()), Op.Reap(maxBytes, maxGas))
      ensures var out := Returned(old(Abs()), Op.Reap(maxBytes, maxGas));
              |result| == |out| && forall i | 0 <= i < |out| :: result[i] == out[i].bytes
    {
      ghost var fifo := Live(txs);
      TakenIsBounded(fifo, 0, 0, maxBytes, maxGas);
      var nextStart;
      result, nextStart, txIndex := Scan(txs, txIndex, maxBytes, maxGas);
      SplitAt(txs, nextStart);
      assert fifo[Taken(fifo, 0, 0, maxBytes, maxGas)..] == Live(txs[nextStart..]);
      CompactFrom(nextStart, old(txIndex));
    }

    /** The part of Reap after the loop: drop the first `start` slots and all holes, and rebuild the index. */
    method CompactFrom(start: nat, ghost before: map<string, int>)
      requires start <= |txs| && Agree(txs, before) && Marked(txs, before, txIndex, start)
      modifies this
      ensures Valid() && txIndex.Keys == before.Keys && Live(txs) == Live(old(txs)[start..])
    {
      assert Live([]) == [] && txs[|txs|..] == [];
      hide Agree, Live, Filled, Rebuilt;
      ghost var slots, marked := txs, txIndex;
      var rest: seq<Tx> := [];
      if start < |txs| {
        rest := Compact(txs[start..]);
      }
      LiveOfAll(rest);
      txs := Filled(rest);
      assert slots[start..] == slots[start..|slots|];
      LiveIsPositioned(slots, before, start, |slots|);
      Reindex(rest);
      RebuiltAgrees(slots, before, marked, txIndex, start);
    }

    /** The loop that rebuilds the index. */
    method Reindex(rest: seq<Tx>)
      requires txs == Filled(rest) && forall i | 0 <= i < |rest| :: rest[i].hash in txIndex
      requires forall i, j | 0 <= i < j < |rest| :: rest[i].hash != rest[j].hash
      modifies this`txIndex
      ensures Rebuilt(rest, old(txIndex), txIndex, |rest|)
    {
      for i := 0 to |rest|
        invariant Rebuilt(rest, old(txIndex), txIndex, i)
      {
        assert rest[i].hash in txIndex;
        txIndex := txIndex[rest[i].hash := i];
      }
    }
  }

  /** The loop of Reap: collects txs and marks them in the index until a limit is reached. */
  method Scan(slots: seq<Option<Tx>>, before: map<string, int>, maxBytes: nat, maxGas: nat)
      returns (result: seq<seq<int>>, nextStart: nat, index: map<string, int>)
    requires Agree(slots, before)
    ensures nextStart <= |slots| && ScanResult(slots, before, nextStart, result, index, maxBytes, maxGas)
  {
    hide Scanned, Stops;
    var totalBytes: nat, totalGas: nat := 0, 0;
    result, nextStart, index := [], 0, before;
    ScanStarts(slots, before, maxBytes, maxGas);
    for i := 0 to |slots|
      invariant nextStart == i
      invariant Scanned(slots, before, i, result, totalBytes, totalGas, index, maxBytes, maxGas)
    {
      ScanStep(slots, before, i, result, totalBytes, totalGas, index, maxBytes, maxGas);
      if slots[i].None? {
        nextStart := i + 1;
        continue;
      }
      var tx := slots[i].value;
      if Stops(totalBytes, totalGas, tx, maxBytes, maxGas) {
        return;
      }
      result := result + [tx.bytes];
      totalBytes := Wrap64(totalBytes + |tx.bytes|);
      totalGas := Wrap64(totalGas + tx.gas);
      nextStart := i + 1;
      assert tx.hash in index;
      index := index[tx.hash := -1];
    }
    ScanEnds(slots, before, result, totalBytes, totalGas, index, maxBytes, maxGas);
  }

  /** The loop's variables before it looks at slot i. */
  ghost predicate Scanned(slots: seq<Option<Tx>>, before: map<string, int>, i: nat, result: seq<seq<int>>,
                          b: nat, g: nat, index: map<string, int>, maxBytes: nat, maxGas: nat)
    requires i <= |slots|
  {
    var fifo := Live(slots);
    && |result| == |Live(slots[..i])| <= |fifo|
    && (forall j | 0 <= j < |result| :: result[j] == fifo[j].bytes)
    && Taken(fifo, 0, 0, maxBytes, maxGas) == |result| + Taken(fifo[|result|..], b, g, maxBytes, maxGas)
    && Marked(slots, before, index, i)
  }

  ghost predicate ScanResult(slots: seq<Option<Tx>>, before: map<string, int>, i: nat, result: seq<seq<int>>,
                             index: map<string, int>, maxBytes: nat, maxGas: nat)
    requires i <= |slots|
  {
    var fifo := Live(slots);
    && |result| == Taken(fifo, 0, 0, maxBytes, maxGas) == |Live(slots[..i])| <= |fifo|
    && (forall j | 0 <= j < |result| :: result[j] == fifo[j].bytes)
    && Marked(slots, before, index, i)
  }

  lemma ScanStarts(slots: seq<Option<Tx>>, before: map<string, int>, maxBytes: nat, maxGas: nat)
    ensures Scanned(slots, before, 0, [], 0, 0, before, maxBytes, maxGas)
  {
    assert slots[..0] == [] && Live(slots)[0..] == Live(slots);
  }

  lemma ScanEnds(slots: seq<Option<Tx>>, before: map<string, int>, result: seq<seq<int>>, b: nat, g: nat,
                 index: map<string, int>, maxBytes: nat, maxGas: nat)
    requires Scanned(slots, before, |slots|, result, b, g, index, maxBytes, maxGas)
    ensures ScanResult(slots, before, |slots|, result, index, maxBytes, maxGas)
  {
    assert slots[..|slots|] == slots && Live(slots)[|Live(slots)|..] == [];
  }

  lemma ScanStep(slots: seq<Option<Tx>>, before: map<string, int>, i: nat, result: seq<seq<int>>,
                 b: nat, g: nat, index: map<string, int>, maxBytes: nat, maxGas: nat)
    requires i < |slots| && Agree(slots, before)
    requires Scanned(slots, before, i, result, b, g, index, maxBytes, maxGas)
    ensures slots[i].None? ==> Scanned(slots, before, i + 1, result, b, g, index, maxBytes, maxGas)
    ensures slots[i].Some? && Stops(b, g, slots[i].value, maxBytes, maxGas) ==>
              ScanResult(slots, before, i, result, index, maxBytes, maxGas)
    ensures slots[i].Some? && !Stops(b, g, slots[i].value, maxBytes, maxGas) ==>
              var tx := slots[i].value;
              && tx.hash in index
              && Scanned(slots, before, i + 1, result + [tx.bytes], Wrap64(b + |tx.bytes|), Wrap64(g + tx.gas),
                         index[tx.hash := -1], maxBytes, maxGas)
  {
    hide Live, Agree, Wrap64, Marked, Taken, Stops;
    LivePosition(slots, i);
    if slots[i].None? {
      MarkHole(slots, before, index, i);
    } else {
      TakenUnrolls(Live(slots), |result|, b, g, maxBytes, maxGas);
      MarkSlot(slots, before, index, i);
    }
  }

  /** slices.DeleteFunc of the holes */
  method Compact(slots: seq<Option<Tx>>) returns (r: seq<Tx>)
    ensures r == Live(slots)
  {
    r := [];
    for i := 0 to |slots|
      invariant r == Live(slots[..i])
    {
      assert slots[..i + 1][..i] == slots[..i];
      if slots[i].Some? {
        r := r + [slots[i].value];
      }
    }
    assert slots[..|slots|] == slots;
  }

  /** The index while it is being rebuilt for the first n of the remaining txs. */
  ghost predicate Rebuilt(rest: seq<Tx>, marked: map<string, int>, now: map<string, int>, n: nat)
    requires n <= |rest|
  {
    && now.Keys == marked.Keys
    && (forall i | 0 <= i < n :: rest[i].hash in now && now[rest[i].hash] == i)
    && (forall h | h in marked && (forall i | 0 <= i < n :: rest[i].hash != h) :: now[h] == marked[h])
  }

  /** The txs' positions in the index ascend from lo to below hi. */
  ghost predicate Positioned(txs: seq<Tx>, index: map<string, int>, lo: int, hi: int) {
    && (forall i | 0 <= i < |txs| :: txs[i].hash in index && lo <= index[txs[i].hash] < hi)
    && (forall i, j | 0 <= i < j < |txs| :: index[txs[i].hash] < index[txs[j].hash])
  }

  /** The remaining txs have distinct hashes, all in the index. */
  lemma {:induction false} LiveIsPositioned(slots: seq<Option<Tx>>, index: map<string, int>, lo: nat, hi: nat)
    requires lo <= hi <= |slots| && Agree(slots, index)
    ensures Positioned(Live(slots[lo..hi]), index, lo, hi)
  {
    if lo < hi {
      LiveIsPositioned(slots, index, lo, hi - 1);
      assert slots[lo..hi][..hi - 1 - lo] == slots[lo..hi - 1];
      var rest, last := Live(slots[lo..hi - 1]), slots[hi - 1];
      assert Live(slots[lo..hi]) == rest + if last.None? then [] else [last.value];
    }
  }

  lemma RebuiltAgrees(slots: seq<Option<Tx>>, before: map<string, int>, marked: map<string, int>,
                      now: map<string, int>, start: nat)
    requires start <= |slots| && Agree(slots, before) && Marked(slots, before, marked, start)
    requires var rest := Live(slots[start..]); Rebuilt(rest, marked, now, |rest|)
    ensures Agree(Filled(Live(slots[start..])), now)
  {
    var rest := Live(slots[start..]);
    forall h | h in before && start <= before[h] ensures exists i :: 0 <= i < |rest| && rest[i].hash == h {
      assert PointsTo(slots, before[h], h);
      assert slots[start..][before[h] - start] == slots[before[h]];
      LiveIsListed(slots[start..], slots[before[h]].value);
      var i :| 0 <= i < |rest| && rest[i] == slots[before[h]].value;
    }
  }

  lemma SplitAt(slots: seq<Option<Tx>>, n: nat)
    requires n <= |slots|
    ensures Live(slots) == Live(slots[..n]) + Live(slots[n..])
  {
    assert slots == slots[..n] + slots[n..];
    LiveOfConcat(slots[..n], slots[n..]);
  }

  /** The index while the slots before n are being reaped. */
  ghost predicate Marked(slots: seq<Option<Tx>>, before: map<string, int>, now: map<string, int>, n: nat) {
    && now.Keys == before.Keys
    && (forall h | h in before :: now[h] == if 0 <= before[h] < n then -1 else before[h])
  }

  lemma TakenUnrolls(fifo: seq<Tx>, n: nat, b: nat, g: nat, maxBytes: nat, maxGas: nat)
    requires n < |fifo|
    ensures Taken(fifo[n..], b, g, maxBytes, maxGas) ==
            if Stops(b, g, fifo[n], maxBytes, maxGas) then 0
            else 1 + Taken(fifo[n + 1..], Wrap64(b + |fifo[n].bytes|), Wrap64(g + fifo[n].gas), maxBytes, maxGas)
  {
    assert fifo[n..][0] == fifo[n] && fifo[n..][1..] == fifo[n + 1..];
  }

  lemma MarkHole(slots: seq<Option<Tx>>, before: map<string, int>, now: map<string, int>, i: nat)
    requires i < |slots| && slots[i].None? && Agree(slots, before) && Marked(slots, before, now, i)
    ensures Marked(slots, before, now, i + 1)
  {
    forall h | h in before ensures before[h] != i {
      assert before[h] == -1 || PointsTo(slots, before[h], h);
    }
  }

  lemma MarkSlot(slots: seq<Option<Tx>>, before: map<string, int>, now: map<string, int>, i: nat)
    requires i < |slots| && slots[i].Some? && Agree(slots, before) && Marked(slots, before, now, i)
    ensures slots[i].value.hash in now && Marked(slots, before, now[slots[i].value.hash := -1], i + 1)
  {
    forall h | h in before && before[h] == i ensures h == slots[i].value.hash {
      assert PointsTo(slots, before[h], h);
    }
  }

  lemma LivePosition(slots: seq<Option<Tx>>, i: nat)
    requires i < |slots|
    ensures |Live(slots[..i])| <= |Live(slots)|
    ensures |Live(slots[..i + 1])| == |Live(slots[..i])| + if slots[i].Some? then 1 else 0
    ensures slots[i].Some? ==> |Live(slots[..i])| < |Live(slots)| && Live(slots)[|Live(slots[..i])|] == slots[i].value
  {
    assert slots[..i + 1][..i] == slots[..i];
    assert slots == slots[..i] + slots[i..];
    LiveOfConcat(slots[..i], slots[i..]);
    assert slots[i..] == [slots[i]] + slots[i + 1..];
    LiveOfConcat([slots[i]], slots[i + 1..]);
    LiveOfOne(slots[i]);
  }
}
