/**
 The iterator that merges the EVM and the Cosmos stream by effective tip:
 mempool/iterator.go.  The Cosmos side is whatever iterator the caller supplies,
 given by the txs it will still yield; `converts` says which EVM txs can be turned
 into an SDK tx.
 */
module UnifiedIterator {
  import opened Prelude
  import Heap
  import opened QueueMerge
  import opened EvmOrdering
  import TxStore
  import CosmosOrdering

  type CosmosTx = TxStore.SdkTx
  type Queues = map<Address, seq<LazyTx>>

  datatype Config = Config(minerBaseFee: Option<nat>, bondDenom: string, baseFee: Option<nat>, converts: LazyTx -> bool)

  datatype Emitted = FromEvm(evm: LazyTx) | FromCosmos(cosmos: CosmosTx)

  datatype NextAction = NoAction | AdvanceTx | SkipAccount

  function Tip(c: Config, tx: CosmosTx): nat {
    CosmosOrdering.EffectiveTip(tx, c.bondDenom, c.baseFee)
  }

  function Fee(c: Config, tx: LazyTx): nat {
    EffectiveTip(tx, c.minerBaseFee)
  }

  /** shouldSelectEVMTx: EVM unless Cosmos has a strictly higher fee. */
  predicate SelectsEvm(evm: Option<(LazyTx, nat)>, cosmos: Option<(CosmosTx, nat)>) {
    if evm.None? then false
    else if cosmos.None? then true
    else if cosmos.value.1 == 0 then true
    else !(cosmos.value.1 > evm.value.1)
  }

  // ---------- Specification: a run of the merge ----------

  /** An EVM tx comes out, a Cosmos tx comes out, or a Cosmos tx stands in for an EVM tx that cannot be converted. */
  datatype Step =
    | Evm(from: Address, tx: LazyTx)
    | Cosmos(cosmos: CosmosTx)
    | Fallback(skipped: Address, failed: LazyTx, cosmos: CosmosTx)

  ghost predicate StepOk(c: Config, q: Queues, cs: seq<CosmosTx>, s: Step)
    requires Live(MinerPolicy(c.minerBaseFee), q)
  {
    var p := MinerPolicy(c.minerBaseFee);
    match s
    case Evm(from, tx) =>
      && Best(p, q, from) && tx == q[from][0] && c.converts(tx)
      && (cs != [] ==> Tip(c, cs[0]) <= Fee(c, tx))
    case Cosmos(tx) =>
      && cs != [] && tx == cs[0]
      && forall a | a in q :: Fee(c, q[a][0]) < Tip(c, tx)
    case Fallback(skipped, failed, tx) =>
      && Best(p, q, skipped) && failed == q[skipped][0] && !c.converts(failed)
      && cs != [] && tx == cs[0] && Tip(c, tx) <= Fee(c, failed)
  }

  function QueuesAfter(c: Config, q: Queues, s: Step): Queues
    requires s.Evm? ==> s.from in q && q[s.from] != []
  {
    match s
    case Evm(from, _) => Advance(MinerPolicy(c.minerBaseFee), q, from)
    case Cosmos(_) => q
    case Fallback(skipped, _, _) => q - {skipped}
  }

  function CosmosAfter(cs: seq<CosmosTx>, s: Step): seq<CosmosTx>
    requires !s.Evm? ==> cs != []
  {
    if s.Evm? then cs else cs[1..]
  }

  /** The iterator ends here: nothing left, or only EVM txs behind one that cannot be converted. */
  ghost predicate Ends(c: Config, q: Queues, cs: seq<CosmosTx>)
    requires Live(MinerPolicy(c.minerBaseFee), q)
  {
    cs == [] && (q == map[] || exists a :: Best(MinerPolicy(c.minerBaseFee), q, a) && !c.converts(q[a][0]))
  }

  /** The steps lead from (q, cs) to (q', cs'). */
  ghost predicate Runs(c: Config, q: Queues, cs: seq<CosmosTx>, steps: seq<Step>, q': Queues, cs': seq<CosmosTx>)
    requires Live(MinerPolicy(c.minerBaseFee), q)
    decreases |steps|
  {
    if steps == [] then q == q' && cs == cs' else
    && StepOk(c, q, cs, steps[0])
    && Runs(c, QueuesAfter(c, q, steps[0]), CosmosAfter(cs, steps[0]), steps[1..], q', cs')
  }

  lemma {:induction false} RunsOneMore(c: Config, q: Queues, cs: seq<CosmosTx>, steps: seq<Step>,
                                       q': Queues, cs': seq<CosmosTx>, s: Step)
    requires Live(MinerPolicy(c.minerBaseFee), q) && Runs(c, q, cs, steps, q', cs')
    requires Live(MinerPolicy(c.minerBaseFee), q') && StepOk(c, q', cs', s)
    ensures Runs(c, q, cs, steps + [s], QueuesAfter(c, q', s), CosmosAfter(cs', s))
    decreases |steps|
  {
    hide MinerPolicy, Fee, Tip;
    if steps == [] {
      assert ([] + [s])[1..] == [];
    } else {
      assert (steps + [s])[1..] == steps[1..] + [s];
      RunsOneMore(c, QueuesAfter(c, q, steps[0]), CosmosAfter(cs, steps[0]), steps[1..], q', cs', s);
    }
  }

  // ---------- What comes out ----------

  function EvmOf(steps: seq<Step>): seq<(Address, LazyTx)> {
    if steps == [] then []
    else (if steps[0].Evm? then [(steps[0].from, steps[0].tx)] else []) + EvmOf(steps[1..])
  }

  function CosmosOf(steps: seq<Step>): seq<CosmosTx> {
    if steps == [] then []
    else (if steps[0].Evm? then [] else [steps[0].cosmos]) + CosmosOf(steps[1..])
  }

  lemma {:induction false} RunsKeepLive(c: Config, q: Queues, cs: seq<CosmosTx>, steps: seq<Step>,
                                        q': Queues, cs': seq<CosmosTx>)
    requires Live(MinerPolicy(c.minerBaseFee), q) && Runs(c, q, cs, steps, q', cs')
    ensures Live(MinerPolicy(c.minerBaseFee), q')
    decreases |steps|
  {
    hide MinerPolicy, Fee, Tip;
    if steps != [] {
      RunsKeepLive(c, QueuesAfter(c, q, steps[0]), CosmosAfter(cs, steps[0]), steps[1..], q', cs');
    }
  }

  /** Every Cosmos tx comes out exactly once and in order, conversion failures or not. */
  lemma {:induction false} CosmosIsComplete(c: Config, q: Queues, cs: seq<CosmosTx>, steps: seq<Step>,
                                            q': Queues, cs': seq<CosmosTx>)
    requires Live(MinerPolicy(c.minerBaseFee), q) && Runs(c, q, cs, steps, q', cs')
    ensures CosmosOf(steps) + cs' == cs
    decreases |steps|
  {
    hide MinerPolicy, Fee, Tip;
    if steps != [] {
      CosmosIsComplete(c, QueuesAfter(c, q, steps[0]), CosmosAfter(cs, steps[0]), steps[1..], q', cs');
      var first := if steps[0].Evm? then [] else [steps[0].cosmos];
      ConcatAssociates(first, CosmosOf(steps[1..]), cs');
      assert first + CosmosAfter(cs, steps[0]) == cs;
    }
  }

  /** Every EVM tx that a drain would emit can be converted. */
  ghost predicate PayablesConvert(c: Config, q: Queues) {
    forall a, tx | tx in PayableOf(MinerPolicy(c.minerBaseFee), q, a) :: c.converts(tx)
  }

  /**
   At the end all of the Cosmos stream has come out, and all of the EVM side exactly if
   every EVM tx that a drain would emit can be converted.
   */
  lemma EverythingComesOutIff(c: Config, q: Queues, cs: seq<CosmosTx>, steps: seq<Step>, q': Queues, cs': seq<CosmosTx>)
    requires Live(MinerPolicy(c.minerBaseFee), q) && Runs(c, q, cs, steps, q', cs')
    ensures Live(MinerPolicy(c.minerBaseFee), q')
    ensures Ends(c, q', cs') ==>
              && CosmosOf(steps) == cs
              && (IsDrain(MinerPolicy(c.minerBaseFee), q, EvmOf(steps)) <==> PayablesConvert(c, q))
  {
    hide MinerPolicy, Runs, CosmosOf, EvmOf, DrainsTo, PayableOf;
    RunsKeepLive(c, q, cs, steps, q', cs');
    CosmosIsComplete(c, q, cs, steps, q', cs');
    if PayablesConvert(c, q) && Ends(c, q', cs') {
      EvmIsComplete(c, q, cs, steps, q', cs');
      if q' != map[] {
        var a :| Best(MinerPolicy(c.minerBaseFee), q', a) && !c.converts(q'[a][0]);
        HeadIsPayable(c, q', a);
        assert false;
      }
    }
    if IsDrain(MinerPolicy(c.minerBaseFee), q, EvmOf(steps)) {
      forall a, tx | tx in PayableOf(MinerPolicy(c.minerBaseFee), q, a) ensures c.converts(tx) {
        DrainEmitsPrefixes(MinerPolicy(c.minerBaseFee), q, EvmOf(steps), a);
        EvmIsPrefix(c, q, cs, steps, q', cs', a);
      }
    }
  }

  lemma HeadIsPayable(c: Config, q: Queues, a: Address)
    requires Live(MinerPolicy(c.minerBaseFee), q) && a in q
    ensures [q[a][0]] <= PayableOf(MinerPolicy(c.minerBaseFee), q, a)
    ensures q[a][0] in PayableOf(MinerPolicy(c.minerBaseFee), q, a)
  {
    AdvancePayable(MinerPolicy(c.minerBaseFee), q, a, a);
  }

  /** As long as every tx it meets can be converted, the EVM part of a run is part of a drain of the EVM queues. */
  lemma {:induction false} EvmIsComplete(c: Config, q: Queues, cs: seq<CosmosTx>, steps: seq<Step>,
                                         q': Queues, cs': seq<CosmosTx>)
    requires Live(MinerPolicy(c.minerBaseFee), q) && Runs(c, q, cs, steps, q', cs')
    requires PayablesConvert(c, q)
    ensures DrainsTo(MinerPolicy(c.minerBaseFee), q, EvmOf(steps), q') && PayablesConvert(c, q')
    decreases |steps|
  {
    hide MinerPolicy, Fee, Tip, PayableOf;
    if steps != [] {
      StepKeepsConvertible(c, q, cs, steps[0]);
      EvmIsComplete(c, QueuesAfter(c, q, steps[0]), CosmosAfter(cs, steps[0]), steps[1..], q', cs');
      if steps[0].Evm? {
        assert EvmOf(steps)[1..] == EvmOf(steps[1..]);
      } else {
        assert EvmOf(steps) == EvmOf(steps[1..]);
      }
    }
  }

  lemma StepKeepsConvertible(c: Config, q: Queues, cs: seq<CosmosTx>, s: Step)
    requires Live(MinerPolicy(c.minerBaseFee), q) && StepOk(c, q, cs, s) && PayablesConvert(c, q)
    ensures !s.Fallback? && PayablesConvert(c, QueuesAfter(c, q, s))
  {
    hide MinerPolicy, Fee, Tip, PayableOf;
    if s.Evm? {
      forall a, tx | tx in PayableOf(MinerPolicy(c.minerBaseFee), QueuesAfter(c, q, s), a) ensures c.converts(tx) {
        AdvancePayable(MinerPolicy(c.minerBaseFee), q, s.from, a);
        assert tx in PayableOf(MinerPolicy(c.minerBaseFee), q, a);
      }
    } else if s.Fallback? {
      HeadIsPayable(c, q, s.skipped);
    }
  }

  /**
   Two accounts, no Cosmos tx.  The better tx cannot be converted, so the iterator ends at
   once although the other one could have come out.
   */
  lemma FailedConversionEndsEarly(bondDenom: string, baseFee: Option<nat>)
    ensures var c := Config(None, bondDenom, baseFee, (tx: LazyTx) => tx.hash == "y");
            var q: Queues := map["a" := [LazyTx("x", 0, 5, 5)], "b" := [LazyTx("y", 0, 3, 3)]];
            && Live(MinerPolicy(None), q) && Runs(c, q, [], [], q, []) && Ends(c, q, [])
            && c.converts(q["b"][0]) && !IsDrain(MinerPolicy(None), q, EvmOf([]))
  {
    var c := Config(None, bondDenom, baseFee, (tx: LazyTx) => tx.hash == "y");
    var x, y := LazyTx("x", 0, 5, 5), LazyTx("y", 0, 3, 3);
    var q: Queues := map["a" := [x], "b" := [y]];
    assert "x"[0] != "y"[0];
    assert Best(MinerPolicy(None), q, "a") && !c.converts(q["a"][0]);
    assert "a" in q;
  }

  /** The tx that could not be converted for this account, if that happened. */
  function FailedOf(steps: seq<Step>, a: Address): seq<LazyTx> {
    if steps == [] then []
    else if steps[0].Fallback? && steps[0].skipped == a then [steps[0].failed]
    else FailedOf(steps[1..], a)
  }

  /**
   With conversion failures, an account's emitted txs are still a prefix of its payable
   txs, all convertible, and the tx right behind them is the one that failed.
   */
  lemma {:induction false} EvmIsPrefix(c: Config, q: Queues, cs: seq<CosmosTx>, steps: seq<Step>,
                                       q': Queues, cs': seq<CosmosTx>, a: Address)
    requires Live(MinerPolicy(c.minerBaseFee), q) && Runs(c, q, cs, steps, q', cs')
    ensures ForAccount(EvmOf(steps), a) + FailedOf(steps, a) <= PayableOf(MinerPolicy(c.minerBaseFee), q, a)
    ensures forall tx | tx in ForAccount(EvmOf(steps), a) :: c.converts(tx)
    ensures forall tx | tx in FailedOf(steps, a) :: !c.converts(tx)
    decreases |steps|
  {
    hide MinerPolicy, PayableOf, ForAccount, EvmOf, StepOk, QueuesAfter, CosmosAfter;
    if steps == [] {
      NothingForAccount(a);
    } else {
      var s, rest := steps[0], steps[1..];
      StepFacts(c, q, cs, s);
      var q1 := QueuesAfter(c, q, s);
      EvmIsPrefix(c, q1, CosmosAfter(cs, s), rest, q', cs', a);
      EvmOfStep(steps, a);
      if s.Fallback? && s.skipped == a {
        SkippedEmitsNothing(c, q1, CosmosAfter(cs, s), rest, q', cs', a);
        HeadIsPayable(c, q, a);
      } else {
        PayableAfter(c, q, s, a);
        var first := if s.Evm? && s.from == a then [s.tx] else [];
        ConcatAssociates(first, ForAccount(EvmOf(rest), a), FailedOf(rest, a));
      }
    }
  }

  lemma NothingForAccount(a: Address)
    ensures ForAccount(EvmOf([]), a) == []
  {
  }

  /** What a step's validity says about the account it concerns. */
  lemma StepFacts(c: Config, q: Queues, cs: seq<CosmosTx>, s: Step)
    requires Live(MinerPolicy(c.minerBaseFee), q) && StepOk(c, q, cs, s)
    ensures s.Evm? ==> s.from in q && q[s.from] != [] && s.tx == q[s.from][0] && c.converts(s.tx)
    ensures s.Fallback? ==> s.skipped in q && q[s.skipped] != [] && s.failed == q[s.skipped][0] && !c.converts(s.failed)
    ensures !s.Evm? ==> cs != []
    ensures Live(MinerPolicy(c.minerBaseFee), QueuesAfter(c, q, s))
    ensures s.Fallback? ==> s.skipped !in QueuesAfter(c, q, s)
  {
    hide MinerPolicy, Fee, Tip;
  }

  /** What a step other than skipping the account leaves for it to emit. */
  lemma PayableAfter(c: Config, q: Queues, s: Step, a: Address)
    requires Live(MinerPolicy(c.minerBaseFee), q) && (s.Fallback? ==> s.skipped != a)
    requires s.Evm? ==> s.from in q && s.tx == q[s.from][0]
    ensures var p := MinerPolicy(c.minerBaseFee);
            PayableOf(p, q, a) == (if s.Evm? && s.from == a then [s.tx] else []) + PayableOf(p, QueuesAfter(c, q, s), a)
  {
    if s.Evm? {
      AdvancePayable(MinerPolicy(c.minerBaseFee), q, s.from, a);
    }
  }

  lemma EvmOfStep(steps: seq<Step>, a: Address)
    requires steps != []
    ensures ForAccount(EvmOf(steps), a) ==
            (if steps[0].Evm? && steps[0].from == a then [steps[0].tx] else []) + ForAccount(EvmOf(steps[1..]), a)
  {
    if steps[0].Evm? {
      assert EvmOf(steps)[1..] == EvmOf(steps[1..]);
    } else {
      assert EvmOf(steps) == EvmOf(steps[1..]);
    }
  }

  lemma {:induction false} SkippedEmitsNothing(c: Config, q: Queues, cs: seq<CosmosTx>, steps: seq<Step>,
                                               q': Queues, cs': seq<CosmosTx>, a: Address)
    requires Live(MinerPolicy(c.minerBaseFee), q) && Runs(c, q, cs, steps, q', cs') && a !in q
    ensures ForAccount(EvmOf(steps), a) == []
    decreases |steps|
  {
    hide MinerPolicy, Fee, Tip;
    if steps != [] {
      EvmOfStep(steps, a);
      SkippedEmitsNothing(c, QueuesAfter(c, q, steps[0]), CosmosAfter(cs, steps[0]), steps[1..], q', cs', a);
    }
  }

  /** Where the run is after i steps. */
  ghost function StateAt(c: Config, q: Queues, cs: seq<CosmosTx>, steps: seq<Step>, i: nat): (Queues, seq<CosmosTx>)
    requires Live(MinerPolicy(c.minerBaseFee), q) && i <= |steps|
    requires exists q', cs' :: Runs(c, q, cs, steps, q', cs')
    decreases i
  {
    if i == 0 then (q, cs) else
    var q', cs' :| Runs(c, q, cs, steps, q', cs');
    assert Runs(c, QueuesAfter(c, q, steps[0]), CosmosAfter(cs, steps[0]), steps[1..], q', cs');
    StateAt(c, QueuesAfter(c, q, steps[0]), CosmosAfter(cs, steps[0]), steps[1..], i - 1)
  }

  /**
   Whatever comes out has a tip at least that of the other stream's head at that
   moment: an EVM tx ties with Cosmos, a Cosmos tx beats every EVM head strictly,
   unless it stands in for an EVM tx that could not be converted.
   */
  lemma {:induction false} EachStepPaysMost(c: Config, q: Queues, cs: seq<CosmosTx>, steps: seq<Step>,
                                            q': Queues, cs': seq<CosmosTx>, i: nat)
    requires Live(MinerPolicy(c.minerBaseFee), q) && Runs(c, q, cs, steps, q', cs') && i < |steps|
    ensures var (now, left) := StateAt(c, q, cs, steps, i);
            && Live(MinerPolicy(c.minerBaseFee), now)
            && (steps[i].Evm? ==>
                  && (left != [] ==> Tip(c, left[0]) <= Fee(c, steps[i].tx))
                  && forall a | a in now :: Fee(c, now[a][0]) <= Fee(c, steps[i].tx))
            && (steps[i].Cosmos? ==>
                  && left != [] && left[0] == steps[i].cosmos
                  && forall a | a in now :: Fee(c, now[a][0]) < Tip(c, steps[i].cosmos))
            && (steps[i].Fallback? ==> left != [] && left[0] == steps[i].cosmos && !c.converts(steps[i].failed))
    decreases i
  {
    if i > 0 {
      EachStepPaysMost(c, QueuesAfter(c, q, steps[0]), CosmosAfter(cs, steps[0]), steps[1..], q', cs', i - 1);
    } else if steps[0].Evm? {
      BestPaysMost(c, q, steps[0].from);
    }
  }

  lemma BestPaysMost(c: Config, q: Queues, k: Address)
    requires Live(MinerPolicy(c.minerBaseFee), q) && Best(MinerPolicy(c.minerBaseFee), q, k)
    ensures forall a | a in q :: Fee(c, q[a][0]) <= Fee(c, q[k][0])
  {
    var p := MinerPolicy(c.minerBaseFee);
    forall a | a in q ensures Fee(c, q[a][0]) <= Fee(c, q[k][0]) {
      assert !p.less(Head(p, q, a), Head(p, q, k));
    }
  }

  // ---------- The implementation ----------

  class EVMMempoolIterator {
    const evm: TransactionsByPriceAndNonce?
    var cosmos: seq<CosmosTx>           // what the Cosmos iterator will still yield
    var currentTx: Option<Emitted>
    var nextEvmAction: NextAction
    var nextCosmosAction: NextAction
    const config: Config

    ghost predicate Wired()
      reads this, evm
    {
      evm != null ==> evm.Valid() && evm.baseFee == config.minerBaseFee
    }

    ghost function EvmQueues(): (q: Queues)
      requires Wired()
      reads this, evm
      ensures Live(MinerPolicy(config.minerBaseFee), q)
    {
      if evm == null then map[] else evm.queues
    }

    function CosmosHead(): Option<Emitted>
      reads this
    {
      if cosmos == [] then None else Some(FromCosmos(cosmos[0]))
    }

    /** The step that the cached choice stands for, and the actions that will carry it out. */
    ghost predicate Chosen(s: Step)
      requires Wired()
      reads this, evm
    {
      && StepOk(config, EvmQueues(), cosmos, s)
      && (match s
          case Evm(from, tx) =>
            && evm != null && evm.heads != [] && evm.heads[0].key == from
            && currentTx == Some(FromEvm(tx)) && nextEvmAction == AdvanceTx && nextCosmosAction == NoAction
          case Cosmos(tx) =>
            currentTx == Some(FromCosmos(tx)) && nextEvmAction == NoAction && nextCosmosAction == AdvanceTx
          case Fallback(skipped, _, tx) =>
            && evm != null && evm.heads != [] && evm.heads[0].key == skipped
            && currentTx == Some(FromCosmos(tx)) && nextEvmAction == SkipAccount && nextCosmosAction == AdvanceTx)
    }

    /** The choice is resolved: a step is due, or the iterator has ended. */
    ghost predicate Valid()
      reads this, evm
    {
      && Wired()
      && (currentTx.None? ==> Ends(config, EvmQueues(), cosmos))
      && (currentTx.Some? ==> exists s :: Chosen(s))
    }

    constructor (evm: TransactionsByPriceAndNonce?, cosmos: seq<CosmosTx>, config: Config)
      requires evm != null ==> evm.Valid() && evm.baseFee == config.minerBaseFee
      ensures Valid() && this.evm == evm && this.cosmos == cosmos && this.config == config
    {
      this.evm, this.cosmos, this.config := evm, cosmos, config;
      currentTx, nextEvmAction, nextCosmosAction := None, NoAction, NoAction;
      new;
      ResolveCurrentTx();
    }

    method PeekEvm() returns (r: Option<(LazyTx, nat)>)
      requires Wired()
      ensures r.None? <==> EvmQueues() == map[]
      ensures r.Some? ==>
                && evm != null && evm.heads != []
                && Best(MinerPolicy(config.minerBaseFee), EvmQueues(), evm.heads[0].key)
                && r.value == (EvmQueues()[evm.heads[0].key][0], Fee(config, r.value.0))
    {
      if evm == null {
        return None;
      }
      r := evm.Peek();
    }

    function PeekCosmos(): Option<(CosmosTx, nat)>
      reads this
    {
      if cosmos == [] then None else Some((cosmos[0], Tip(config, cosmos[0])))
    }

    method ResolveCurrentTx()
      requires Wired() && nextEvmAction == NoAction && nextCosmosAction == NoAction
      modifies this
      ensures Valid() && cosmos == old(cosmos)
    {
      var evmTx := PeekEvm();
      var cosmosTx := PeekCosmos();
      if evmTx.None? && cosmosTx.None? {
        nextEvmAction, nextCosmosAction := NoAction, NoAction;
        currentTx := None;
        return;
      }
      ghost var q := EvmQueues();
      if SelectsEvm(evmTx, cosmosTx) {
        ghost var from := evm.heads[0].key;
        if config.converts(evmTx.value.0) {
          nextEvmAction := AdvanceTx;
          currentTx := Some(FromEvm(evmTx.value.0));
          assert Chosen(Evm(from, evmTx.value.0));
          return;
        }
        nextEvmAction := SkipAccount;
        nextCosmosAction := AdvanceTx;
        currentTx := CosmosHead();
        if cosmos != [] {
          assert Chosen(Fallback(from, evmTx.value.0, cosmos[0]));
        }
        return;
      }
      nextCosmosAction := AdvanceTx;
      currentTx := CosmosHead();
      if evmTx.Some? { BestPaysMost(config, q, evm.heads[0].key); }
      assert Chosen(Cosmos(cosmos[0]));
    }

    method HandleNextEvmAction()
      requires Wired() && (nextEvmAction != NoAction ==> evm != null && evm.heads != [])
      modifies this`nextEvmAction, evm
      ensures Wired() && nextEvmAction == NoAction
      ensures old(nextEvmAction) == NoAction ==> EvmQueues() == old(EvmQueues())
      ensures old(nextEvmAction) == AdvanceTx ==>
                EvmQueues() == Advance(MinerPolicy(config.minerBaseFee), old(EvmQueues()), old(evm.heads[0].key))
      ensures old(nextEvmAction) == SkipAccount ==> EvmQueues() == old(EvmQueues()) - {old(evm.heads[0].key)}
    {
      if nextEvmAction == AdvanceTx {
        if evm != null {
          evm.Shift();
        }
      } else if nextEvmAction == SkipAccount {
        if evm != null {
          evm.Pop();
        }
      }
      nextEvmAction := NoAction;
    }

    method HandleNextCosmosAction()
      modifies this`nextCosmosAction, this`cosmos
      ensures nextCosmosAction == NoAction
      ensures cosmos == if old(nextCosmosAction) == AdvanceTx && old(cosmos) != [] then old(cosmos)[1..] else old(cosmos)
    {
      if nextCosmosAction == AdvanceTx && cosmos != [] {
        cosmos := cosmos[1..];
      }
      nextCosmosAction := NoAction;
    }

    /** Carries out the chosen step and resolves the next one. */
    method Next(ghost s: Step) returns (more: bool)
      requires Valid() && currentTx.Some? && Chosen(s)
      modifies this, evm
      ensures Valid() && more == currentTx.Some?
      ensures EvmQueues() == QueuesAfter(config, old(EvmQueues()), s)
      ensures cosmos == CosmosAfter(old(cosmos), s)
    {
      hide EvmOrdering.MinerPolicy, QueueMerge.Represents, Heap.IsHeap, Best, Ends, Fee, Tip;
      HandleNextEvmAction();
      HandleNextCosmosAction();
      ResolveCurrentTx();
      more := currentTx.Some?;
    }
  }

  /** The txs that come out in these steps. */
  ghost predicate Yields(steps: seq<Step>, out: seq<Emitted>) {
    |out| == |steps| && forall i | 0 <= i < |out| ::
      out[i] == if steps[i].Evm? then FromEvm(steps[i].tx) else FromCosmos(steps[i].cosmos)
  }

  /** Everything the iterator yields, in order. */
  method Collect(it: EVMMempoolIterator) returns (out: seq<Emitted>, ghost steps: seq<Step>)
    requires it.Valid()
    modifies it, it.evm
    ensures it.Valid() && Ends(it.config, it.EvmQueues(), it.cosmos)
    ensures Runs(it.config, old(it.EvmQueues()), old(it.cosmos), steps, it.EvmQueues(), it.cosmos)
    ensures Yields(steps, out)
  {
    hide EvmOrdering.MinerPolicy, QueueMerge.Represents, Heap.IsHeap, StepOk, Ends, Best, Live, Fee, Tip;
    out, steps := [], [];
    while it.currentTx.Some?
      invariant it.Valid() && Yields(steps, out)
      invariant Runs(it.config, old(it.EvmQueues()), old(it.cosmos), steps, it.EvmQueues(), it.cosmos)
      decreases Pending(it.EvmQueues()), |it.cosmos|
    {
      hide Runs, QueuesAfter, CosmosAfter, Pending;
      ghost var s :| it.Chosen(s);
      out := out + [it.currentTx.value];
      RunsOneMore(it.config, old(it.EvmQueues()), old(it.cosmos), steps, it.EvmQueues(), it.cosmos, s);
      steps := steps + [s];
      StepShrinks(it.config, it.EvmQueues(), it.cosmos, s);
      var _ := it.Next(s);
    }
  }

  lemma StepShrinks(c: Config, q: Queues, cs: seq<CosmosTx>, s: Step)
    requires Live(MinerPolicy(c.minerBaseFee), q) && StepOk(c, q, cs, s)
    ensures Pending(QueuesAfter(c, q, s)) < Pending(q)
            || (Pending(QueuesAfter(c, q, s)) == Pending(q) && |CosmosAfter(cs, s)| < |cs|)
  {
    match s
    case Evm(from, _) => AdvanceShrinks(MinerPolicy(c.minerBaseFee), q, from);
    case Cosmos(_) =>
    case Fallback(skipped, _, _) =>
      assert (skipped, |q[skipped]| - 1) in Pending(q) && (skipped, |q[skipped]| - 1) !in Pending(q - {skipped});
  }
}
