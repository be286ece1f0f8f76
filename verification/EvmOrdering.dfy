/** Fee-ordered, nonce-honouring iteration over the EVM pool: mempool/miner/ordering.go. */
module EvmOrdering {
  import opened Prelude
  import opened Heap
  import opened QueueMerge

  type Address = string

  datatype LazyTx = LazyTx(hash: string, time: int, gasFeeCap: nat, gasTipCap: nat)

  type TxWithMinerFee = Entry<Address, LazyTx>

  /** The fee cap covers the base fee, if there is one. */
  predicate CoversBaseFee(tx: LazyTx, baseFee: Option<nat>) {
    baseFee.None? || baseFee.value <= tx.gasFeeCap
  }

  /** The Specification section of EIP-1559: min(tipCap, feeCap - baseFee). */
  function EffectiveTip(tx: LazyTx, baseFee: Option<nat>): nat {
    if baseFee.None? then tx.gasTipCap
    else if tx.gasFeeCap < baseFee.value then 0
    else if tx.gasTipCap < tx.gasFeeCap - baseFee.value then tx.gasTipCap
    else tx.gasFeeCap - baseFee.value
  }

  /** newTxWithMinerFee; the failure is ErrGasFeeCapTooLow. */
  function NewTxWithMinerFee(tx: LazyTx, from: Address, baseFee: Option<nat>): Option<TxWithMinerFee> {
    if baseFee.None? then Some(Entry(from, tx, tx.gasTipCap))
    else if tx.gasFeeCap < baseFee.value then None
    else
      var tip := tx.gasFeeCap - baseFee.value;
      Some(Entry(from, tx, if tip > tx.gasTipCap then tx.gasTipCap else tip))
  }

  /** txByPriceAndTime.Less: higher fee first, then the tx seen earlier. */
  predicate PriceLess(a: TxWithMinerFee, b: TxWithMinerFee) {
    if a.fee == b.fee then a.tx.time < b.tx.time else a.fee > b.fee
  }

  function MinerPolicy(baseFee: Option<nat>): Policy<Address, LazyTx> {
    Policy(tx => EffectiveTip(tx, baseFee), tx => CoversBaseFee(tx, baseFee), PriceLess)
  }

  /** The wrapper computes the effective tip, and fails exactly on the txs the policy does not admit. */
  lemma MinerFeeIsEffectiveTip(tx: LazyTx, from: Address, baseFee: Option<nat>)
    ensures var p := MinerPolicy(baseFee);
            && NewTxWithMinerFee(tx, from, baseFee) == (if p.payable(tx) then Some(Entry(from, tx, p.fee(tx))) else None)
            && p.payable(tx) == CoversBaseFee(tx, baseFee) && p.fee(tx) == EffectiveTip(tx, baseFee)
  {
  }

  /**
   A tx that covers the base fee tips at least t exactly if both its tip cap allows t and
   its fee cap pays t on top of the base fee; without a base fee it tips its tip cap.
   */
  lemma TipsAtLeastIff(tx: LazyTx, b: nat, t: nat)
    requires b <= tx.gasFeeCap
    ensures t <= EffectiveTip(tx, Some(b)) <==> t <= tx.gasTipCap && t + b <= tx.gasFeeCap
    ensures EffectiveTip(tx, None) == tx.gasTipCap
  {
  }

  lemma PriceLessIsOrder(baseFee: Option<nat>)
    ensures StrictWeakOrder(PriceLess) && MinerPolicy(baseFee).less == PriceLess
  {
  }

  /** The first loop of the constructor: one wrapped head per account that can pay, and what follows it. */
  method CollectHeads(pending: map<Address, seq<LazyTx>>, baseFee: Option<nat>)
      returns (hs: seq<TxWithMinerFee>, left: map<Address, seq<LazyTx>>)
    requires forall a | a in pending :: pending[a] != []
    ensures Represents(MinerPolicy(baseFee), multiset(hs), left, Start(MinerPolicy(baseFee), pending))
  {
    hide MinerPolicy, PriceLess, NewTxWithMinerFee;
    ghost var p := MinerPolicy(baseFee);
    ghost var seen: set<Address> := {};
    assert Represents(p, multiset([]), pending, StartOn(p, pending, seen));
    hide Represents, StartOn;
    left, hs := pending, [];
    var todo := pending.Keys;
    while todo != {}
      invariant todo + seen == pending.Keys && todo !! seen
      invariant forall a | a in todo :: a in left && left[a] == pending[a]
      invariant Represents(p, multiset(hs), left, StartOn(p, pending, seen))
      decreases todo
    {
      var from :| from in todo;
      var queue := left[from];
      MinerFeeIsEffectiveTip(queue[0], from, baseFee);
      StartOneMore(p, pending, seen, from);
      var wrapped := NewTxWithMinerFee(queue[0], from, baseFee);
      if wrapped.None? {
        ForgetRest(p, multiset(hs), left, StartOn(p, pending, seen), from);
        left := left - {from};
      } else {
        AddStarts(p, multiset(hs), left, StartOn(p, pending, seen), from, queue);
        assert multiset(hs + [wrapped.value]) == multiset(hs) + multiset{wrapped.value};
        hs := hs + [wrapped.value];
        left := left[from := queue[1..]];
      }
      todo, seen := todo - {from}, seen + {from};
    }
    assert seen == pending.Keys;
  }

  class TransactionsByPriceAndNonce {
    var txs: map<Address, seq<LazyTx>>   // what follows each account's head
    var heads: seq<TxWithMinerFee>                 // price heap of the account heads
    const baseFee: Option<nat>
    ghost var queues: map<Address, seq<LazyTx>>   // heads and followers together

    ghost predicate Valid()
      reads this
    {
      && Represents(MinerPolicy(baseFee), multiset(heads), txs, queues)
      && IsHeap(heads, PriceLess)
    }

    /** Accounts whose first tx cannot pay the base fee are dropped; an empty list would panic. */
    constructor (pending: map<Address, seq<LazyTx>>, baseFee: Option<nat>)
      requires forall a | a in pending :: pending[a] != []
      ensures Valid() && this.baseFee == baseFee && queues == Start(MinerPolicy(baseFee), pending)
    {
      var hs, left := CollectHeads(pending, baseFee);
      PriceLessIsOrder(baseFee);
      var heap := Heap.Backing(hs);
      Heap.Init(heap, PriceLess);
      this.txs, this.heads, this.baseFee, this.queues := left, heap[..], baseFee, Start(MinerPolicy(baseFee), pending);
    }

    /** The best head and its fee. */
    method Peek() returns (r: Option<(LazyTx, nat)>)
      requires Valid()
      ensures r.None? <==> queues == map[]
      ensures r.Some? ==> heads != [] && Best(MinerPolicy(baseFee), queues, heads[0].key)
                          && r.value == (queues[heads[0].key][0], EffectiveTip(r.value.0, baseFee))
    {
      if |heads| == 0 {
        assert queues == map[];
        return None;
      }
      PriceLessIsOrder(baseFee);
      RootIsBest(MinerPolicy(baseFee), heads, txs, queues);
      return Some((heads[0].tx, heads[0].fee));
    }

    /** Replaces the best head with the next payable tx of its account, if there is one. */
    method Shift()
      requires Valid() && heads != []
      modifies this
      ensures Valid()
      ensures Best(MinerPolicy(baseFee), old(queues), old(heads[0].key))
      ensures queues == Advance(MinerPolicy(baseFee), old(queues), old(heads[0].key))
    {
      hide MinerPolicy, PriceLess, NewTxWithMinerFee, Represents, IsHeap;
      ghost var p := MinerPolicy(baseFee);
      PriceLessIsOrder(baseFee);
      RootIsBest(p, heads, txs, queues);
      var acc := heads[0].key;
      if acc in txs && |txs[acc]| > 0 {
        var rest := txs[acc];
        MinerFeeIsEffectiveTip(rest[0], acc, baseFee);
        var wrapped := NewTxWithMinerFee(rest[0], acc, baseFee);
        if wrapped.Some? {
          heads, txs := ReplaceRoot(MinerPolicy(baseFee), heads, txs, wrapped.value, queues);
          queues := Advance(p, queues, acc);
          return;
        }
      }
      heads := DropRoot(MinerPolicy(baseFee), heads, txs, queues);
      queues := Advance(p, queues, acc);
    }

    /** Drops the best head together with the rest of its account. */
    method Pop()
      requires Valid() && heads != []
      modifies this
      ensures Valid()
      ensures Best(MinerPolicy(baseFee), old(queues), old(heads[0].key))
      ensures queues == old(queues) - {old(heads[0].key)}
    {
      hide MinerPolicy, PriceLess;
      PriceLessIsOrder(baseFee);
      RootIsBest(MinerPolicy(baseFee), heads, txs, queues);
      ghost var acc := heads[0].key;
      heads := DropRoot(MinerPolicy(baseFee), heads, txs, queues);
      queues := queues - {acc};
    }

    predicate Empty()
      requires Valid()
      reads this
      ensures Empty() <==> queues == map[]
    {
      assert heads == [] ==> queues == map[];
      assert heads != [] ==> heads[0] in multiset(heads);
      |heads| == 0
    }

    /** Peek and Shift until empty. */
    method Drain() returns (out: seq<(Address, LazyTx)>)
      requires Valid()
      modifies this
      ensures Valid() && queues == map[]
      ensures Live(MinerPolicy(baseFee), old(queues)) && IsDrain(MinerPolicy(baseFee), old(queues), out)
    {
      ghost var p := MinerPolicy(baseFee);
      out := [];
      while !Empty()
        invariant Valid() && DrainsTo(p, old(queues), out, queues)
        decreases Pending(queues)
      {
        var best := Peek();
        var from := heads[0].key;
        AdvanceShrinks(p, queues, from);
        DrainsOneMore(p, old(queues), out, queues, from);
        out := out + [(from, best.value.0)];
        Shift();
      }
    }
  }

  /**
   Draining the pending txs: every account's txs come out in nonce order, exactly
   the longest prefix whose fee caps cover the base fee.
   */
  lemma DrainIsPayablePrefixes(pending: map<Address, seq<LazyTx>>, baseFee: Option<nat>,
                               out: seq<(Address, LazyTx)>, a: Address)
    requires var p := MinerPolicy(baseFee); IsDrain(p, Start(p, pending), out)
    ensures var r := ForAccount(out, a);
            && (a !in pending ==> r == [])
            && (a in pending ==>
                  && r <= pending[a]
                  && (forall i | 0 <= i < |r| && baseFee.Some? :: baseFee.value <= pending[a][i].gasFeeCap)
                  && (|r| < |pending[a]| ==> baseFee.Some? && pending[a][|r|].gasFeeCap < baseFee.value))
  {
    var p := MinerPolicy(baseFee);
    DrainEmitsPrefixes(p, Start(p, pending), out, a);
    if a in pending {
      PayablePrefixIsLongest(p, pending[a]);
    }
  }

  /** Each tx that comes out pays the highest effective tip of all current heads, ties going to the earlier one. */
  lemma DrainMaximizesTip(pending: map<Address, seq<LazyTx>>, baseFee: Option<nat>,
                          out: seq<(Address, LazyTx)>, i: nat, a: Address)
    requires var p := MinerPolicy(baseFee); IsDrain(p, Start(p, pending), out)
    requires i < |out| && a in After(MinerPolicy(baseFee), Start(MinerPolicy(baseFee), pending), out, i)
    ensures var now := After(MinerPolicy(baseFee), Start(MinerPolicy(baseFee), pending), out, i);
            && now[a] != []
            && EffectiveTip(now[a][0], baseFee) <= EffectiveTip(out[i].1, baseFee)
            && (EffectiveTip(now[a][0], baseFee) == EffectiveTip(out[i].1, baseFee) ==>
                  out[i].1.time <= now[a][0].time)
  {
    var p := MinerPolicy(baseFee);
    DrainIsGreedy(p, Start(p, pending), out, i);
    var now := After(p, Start(p, pending), out, i);
    assert !p.less(Head(p, now, a), Head(p, now, out[i].0));
  }
}
