/** Fee-ordered iteration over the Cosmos store's buckets: mempool/cosmos_ordering.go. */
module CosmosOrdering {
  import opened Prelude
  import opened Strings
  import opened Heap
  import opened QueueMerge
  import opened TxStore

  const UINT256_LIMIT: nat := 0x1_0000_0000_0000_0000_0000_0000_0000_0000_0000_0000_0000_0000_0000_0000_0000_0000

  /** What the tx pays in the bond denom: the last matching coin. */
  function BondFee(coins: seq<Coin>, bondDenom: string): nat {
    if coins == [] then 0
    else if coins[|coins| - 1].denom == bondDenom then coins[|coins| - 1].amount
    else BondFee(coins[..|coins| - 1], bondDenom)
  }

  /** extractCosmosEffectiveTip: gas price above the base fee, and zero whenever there is none. */
  function EffectiveTip(tx: SdkTx, bondDenom: string, baseFee: Option<nat>): nat {
    if tx.fee.None? || tx.fee.value.gas == 0 then 0 else
    var gasPrice := BondFee(tx.fee.value.coins, bondDenom) / tx.fee.value.gas;
    if gasPrice >= UINT256_LIMIT then 0
    else if baseFee.None? then gasPrice
    else if gasPrice < baseFee.value then 0
    else gasPrice - baseFee.value
  }

  /** Without a base fee all of the gas price is tip. */
  function Floor(baseFee: Option<nat>): nat {
    if baseFee.None? then 0 else baseFee.value
  }

  /** extractCosmosEffectiveTip with its loop over the fee coins. */
  method ExtractEffectiveTip(tx: SdkTx, bondDenom: string, baseFee: Option<nat>) returns (tip: nat)
    ensures tip == EffectiveTip(tx, bondDenom, baseFee)
  {
    if tx.fee.None? {
      return 0;
    }
    var coins := tx.fee.value.coins;
    var bondFee := 0;
    for i := 0 to |coins|
      invariant bondFee == BondFee(coins[..i], bondDenom)
    {
      assert coins[..i + 1][..i] == coins[..i];
      if coins[i].denom == bondDenom {
        bondFee := coins[i].amount;
      }
    }
    assert coins[..|coins|] == coins;
    if tx.fee.value.gas == 0 {
      return 0;
    }
    var gasPrice := bondFee / tx.fee.value.gas;
    if gasPrice >= UINT256_LIMIT {
      return 0;
    }
    if baseFee.None? {
      return gasPrice;
    }
    if gasPrice < baseFee.value {
      return 0;
    }
    return gasPrice - baseFee.value;
  }

  /**
   A tx tips at least t > 0 exactly if its fee in the bond denom pays for all its gas the
   base fee and t on top; a gas price beyond 256 bits counts as no tip.
   */
  lemma TipsAtLeastIff(tx: SdkTx, bondDenom: string, baseFee: Option<nat>, t: nat)
    requires t > 0
    ensures t <= EffectiveTip(tx, bondDenom, baseFee) <==>
            && tx.fee.Some? && tx.fee.value.gas > 0
            && (t + Floor(baseFee)) * tx.fee.value.gas <= BondFee(tx.fee.value.coins, bondDenom)
            && BondFee(tx.fee.value.coins, bondDenom) < UINT256_LIMIT * tx.fee.value.gas
  {
    if tx.fee.Some? && tx.fee.value.gas > 0 {
      var fee, gas := BondFee(tx.fee.value.coins, bondDenom), tx.fee.value.gas;
      QuotientReaches(fee, gas, t + Floor(baseFee));
      QuotientReaches(fee, gas, UINT256_LIMIT);
    }
  }

  /** The bond fee is the amount of the last coin of that denom. */
  lemma {:induction false} BondFeeIsLast(coins: seq<Coin>, bondDenom: string, i: nat)
    requires i < |coins| && coins[i].denom == bondDenom
    requires forall j | i < j < |coins| :: coins[j].denom != bondDenom
    ensures BondFee(coins, bondDenom) == coins[i].amount
  {
    if i < |coins| - 1 { BondFeeIsLast(coins[..|coins| - 1], bondDenom, i); }
  }

  type TxWithPriority = Entry<string, StoredTx>

  /** cosmosTxByPriceAndNonce.Less: fee, then signer key, then the order within a bucket. */
  predicate CosmosLess(a: TxWithPriority, b: TxWithPriority) {
    if a.fee != b.fee then a.fee > b.fee
    else if a.key != b.key then Before(a.key, b.key)
    else Precedes(a.tx, b.tx)
  }

  function CosmosPolicy(bondDenom: string, baseFee: Option<nat>): Policy<string, StoredTx> {
    Policy((t: StoredTx) => EffectiveTip(t.tx, bondDenom, baseFee), (t: StoredTx) => true, CosmosLess)
  }

  lemma PolicyAt(t: StoredTx, bondDenom: string, baseFee: Option<nat>)
    ensures var p := CosmosPolicy(bondDenom, baseFee);
            p.payable(t) && p.fee(t) == EffectiveTip(t.tx, bondDenom, baseFee)
  {
  }

  lemma PrecedesIsWeakOrder(a: StoredTx, b: StoredTx, c: StoredTx)
    ensures !Precedes(a, a)
    ensures Precedes(a, b) && Precedes(b, c) ==> Precedes(a, c)
    ensures !Precedes(a, b) && !Precedes(b, c) ==> !Precedes(a, c)
  {
    PrecedesIsOrder(a, b, c);
    PrecedesIsOrder(a, c, b);
    PrecedesIsOrder(c, a, b);
    PrecedesIsOrder(b, c, a);
    BeforeIsTotal(a.txKey, b.txKey);
    BeforeIsTotal(b.txKey, c.txKey);
    BeforeIsTotal(a.txKey, c.txKey);
  }

  /** The comparator is a strict weak order, and never ties heads of different buckets. */
  lemma CosmosLessIsOrder(bondDenom: string, baseFee: Option<nat>)
    ensures StrictWeakOrder(CosmosLess)
    ensures CosmosPolicy(bondDenom, baseFee).less == CosmosLess && NoTies(CosmosPolicy(bondDenom, baseFee))
  {
    hide Before, Precedes;
    forall a: TxWithPriority, b: TxWithPriority, c: TxWithPriority
      ensures !CosmosLess(a, a)
      ensures CosmosLess(a, b) && CosmosLess(b, c) ==> CosmosLess(a, c)
      ensures !CosmosLess(a, b) && !CosmosLess(b, c) ==> !CosmosLess(a, c)
    {
      PrecedesIsWeakOrder(a.tx, b.tx, c.tx);
      BeforeIsTotal(a.key, b.key);
      BeforeIsTotal(b.key, c.key);
      BeforeIsTotal(a.key, c.key);
      if Before(a.key, b.key) && Before(b.key, c.key) { BeforeIsTransitive(a.key, b.key, c.key); }
      if Before(c.key, b.key) && Before(b.key, a.key) { BeforeIsTransitive(c.key, b.key, a.key); }
    }
    forall a: TxWithPriority, b: TxWithPriority | a.key != b.key ensures CosmosLess(a, b) || CosmosLess(b, a) {
      BeforeIsTotal(a.key, b.key);
    }
  }

  /** The first loop of the constructor: a head for every bucket that is not empty. */
  method CollectHeads(buckets: map<string, seq<StoredTx>>, bondDenom: string, baseFee: Option<nat>)
      returns (hs: seq<TxWithPriority>, left: map<string, seq<StoredTx>>)
    ensures var p := CosmosPolicy(bondDenom, baseFee); Represents(p, multiset(hs), left, Start(p, buckets))
  {
    ghost var p := CosmosPolicy(bondDenom, baseFee);
    hide CosmosPolicy, EffectiveTip;
    ghost var seen: set<string> := {};
    assert Represents(p, multiset([]), buckets, StartOn(p, buckets, seen));
    hide Represents, StartOn;
    left, hs := buckets, [];
    var todo := buckets.Keys;
    while todo != {}
      invariant todo + seen == buckets.Keys && todo !! seen
      invariant forall k | k in todo :: k in left && left[k] == buckets[k]
      invariant Represents(p, multiset(hs), left, StartOn(p, buckets, seen))
      decreases todo
    {
      var signerKey :| signerKey in todo;
      var bucket := left[signerKey];
      StartOneMore(p, buckets, seen, signerKey);
      if |bucket| == 0 {
        ForgetRest(p, multiset(hs), left, StartOn(p, buckets, seen), signerKey);
        left := left - {signerKey};
      } else {
        PolicyAt(bucket[0], bondDenom, baseFee);
        AddStarts(p, multiset(hs), left, StartOn(p, buckets, seen), signerKey, bucket);
        var tip := ExtractEffectiveTip(bucket[0].tx, bondDenom, baseFee);
        var e := Entry(signerKey, bucket[0], tip);
        assert multiset(hs + [e]) == multiset(hs) + multiset{e};
        hs := hs + [e];
        left := left[signerKey := bucket[1..]];
      }
      todo, seen := todo - {signerKey}, seen + {signerKey};
    }
    assert seen == buckets.Keys;
  }

  class CosmosTransactionsByPriceAndNonce {
    var txs: map<string, seq<StoredTx>>   // what follows each bucket's head
    var heads: seq<TxWithPriority>        // fee heap of the bucket heads
    const bondDenom: string
    const baseFee: Option<nat>
    ghost var queues: map<string, seq<StoredTx>>

    ghost predicate Valid()
      reads this
    {
      && Represents(CosmosPolicy(bondDenom, baseFee), multiset(heads), txs, queues)
      && IsHeap(heads, CosmosLess)
    }

    constructor (buckets: map<string, seq<StoredTx>>, bondDenom: string, baseFee: Option<nat>)
      ensures Valid() && this.bondDenom == bondDenom && this.baseFee == baseFee
      ensures queues == Start(CosmosPolicy(bondDenom, baseFee), buckets)
    {
      hide CosmosPolicy, Represents, CosmosLess;
      var hs, left := CollectHeads(buckets, bondDenom, baseFee);
      CosmosLessIsOrder(bondDenom, baseFee);
      var heap := Heap.Backing(hs);
      Heap.Init(heap, CosmosLess);
      this.txs, this.heads, this.bondDenom, this.baseFee := left, heap[..], bondDenom, baseFee;
      this.queues := Start(CosmosPolicy(bondDenom, baseFee), buckets);
    }

    /** The best head's tx, nil at the end. */
    method Tx() returns (r: Option<StoredTx>)
      requires Valid()
      ensures r.None? <==> queues == map[]
      ensures r.Some? ==> heads != [] && Best(CosmosPolicy(bondDenom, baseFee), queues, heads[0].key)
                          && r.value == queues[heads[0].key][0]
    {
      if |heads| == 0 {
        assert queues == map[];
        return None;
      }
      hide CosmosPolicy, CosmosLess;
      CosmosLessIsOrder(bondDenom, baseFee);
      RootIsBest(CosmosPolicy(bondDenom, baseFee), heads, txs, queues);
      return Some(heads[0].tx);
    }

    /** Uses up the best head; whether the iterator goes on. */
    method Next() returns (more: bool)
      requires Valid()
      modifies this
      ensures Valid() && more == (queues != map[])
      ensures old(heads) == [] ==> queues == old(queues) == map[]
      ensures old(heads) != [] ==>
                && Best(CosmosPolicy(bondDenom, baseFee), old(queues), old(heads[0].key))
                && queues == Advance(CosmosPolicy(bondDenom, baseFee), old(queues), old(heads[0].key))
    {
      hide CosmosPolicy, CosmosLess, Represents, IsHeap;
      EmptyTogether(CosmosPolicy(bondDenom, baseFee), heads, txs, queues);
      if |heads| == 0 {
        return false;
      }
      UseHead();
      EmptyTogether(CosmosPolicy(bondDenom, baseFee), heads, txs, queues);
      more := |heads| != 0;
    }

    /** The best head gives way to the next tx of its bucket, if there is one. */
    method UseHead()
      requires Valid() && heads != []
      modifies this
      ensures Valid()
      ensures Best(CosmosPolicy(bondDenom, baseFee), old(queues), old(heads[0].key))
      ensures queues == Advance(CosmosPolicy(bondDenom, baseFee), old(queues), old(heads[0].key))
    {
      hide CosmosPolicy, CosmosLess, EffectiveTip, Represents, IsHeap;
      ghost var p := CosmosPolicy(bondDenom, baseFee);
      CosmosLessIsOrder(bondDenom, baseFee);
      RootIsBest(p, heads, txs, queues);
      var signerKey := heads[0].key;
      if signerKey in txs && |txs[signerKey]| > 0 {
        var tx := txs[signerKey][0];
        PolicyAt(tx, bondDenom, baseFee);
        var tip := ExtractEffectiveTip(tx.tx, bondDenom, baseFee);
        var next := Entry(signerKey, tx, tip);
        heads, txs := ReplaceRoot(CosmosPolicy(bondDenom, baseFee), heads, txs, next, queues);
      } else {
        heads := DropRoot(CosmosPolicy(bondDenom, baseFee), heads, txs, queues);
      }
      queues := Advance(p, queues, signerKey);
    }
  }

  /** Building the iterator and running it to the end. */
  method Drain(buckets: map<string, seq<StoredTx>>, bondDenom: string, baseFee: Option<nat>)
      returns (out: seq<(string, StoredTx)>)
    ensures var p := CosmosPolicy(bondDenom, baseFee); IsDrain(p, Start(p, buckets), out)
  {
    ghost var p := CosmosPolicy(bondDenom, baseFee);
    var it := new CosmosTransactionsByPriceAndNonce(buckets, bondDenom, baseFee);
    out := [];
    var more := |it.heads| != 0;
    EmptyTogether(p, it.heads, it.txs, it.queues);
    while more
      invariant it.Valid() && it.bondDenom == bondDenom && it.baseFee == baseFee && fresh(it)
      invariant more == (it.queues != map[])
      invariant DrainsTo(p, Start(p, buckets), out, it.queues)
      decreases Pending(it.queues)
    {
      var tx := it.Tx();
      var key := it.heads[0].key;
      AdvanceShrinks(p, it.queues, key);
      DrainsOneMore(p, Start(p, buckets), out, it.queues, key);
      out := out + [(key, tx.value)];
      more := it.Next();
    }
  }

  /** A drain emits every bucket whole and in order: a permutation of the snapshot. */
  lemma DrainKeepsBuckets(buckets: map<string, seq<StoredTx>>, bondDenom: string, baseFee: Option<nat>,
                          out: seq<(string, StoredTx)>, k: string)
    requires var p := CosmosPolicy(bondDenom, baseFee); IsDrain(p, Start(p, buckets), out)
    ensures ForAccount(out, k) == if k in buckets then buckets[k] else []
  {
    var p := CosmosPolicy(bondDenom, baseFee);
    DrainEmitsPrefixes(p, Start(p, buckets), out, k);
    if k in buckets {
      PayablePrefixIsLongest(p, buckets[k]);
    }
  }

  /** Each tx that comes out has the highest effective tip of all current bucket heads, ties going to the lower signer key. */
  lemma DrainMaximizesTip(buckets: map<string, seq<StoredTx>>, bondDenom: string, baseFee: Option<nat>,
                          out: seq<(string, StoredTx)>, i: nat, k: string)
    requires var p := CosmosPolicy(bondDenom, baseFee); IsDrain(p, Start(p, buckets), out)
    requires var p := CosmosPolicy(bondDenom, baseFee); i < |out| && k in After(p, Start(p, buckets), out, i)
    ensures var p := CosmosPolicy(bondDenom, baseFee);
            var now := After(p, Start(p, buckets), out, i);
            && now[k] != []
            && var tip, best := EffectiveTip(now[k][0].tx, bondDenom, baseFee), EffectiveTip(out[i].1.tx, bondDenom, baseFee);
               tip <= best && (tip == best ==> out[i].0 == k || Before(out[i].0, k))
  {
    var p := CosmosPolicy(bondDenom, baseFee);
    DrainIsGreedy(p, Start(p, buckets), out, i);
    var now := After(p, Start(p, buckets), out, i);
    assert !p.less(Head(p, now, k), Head(p, now, out[i].0));
    BeforeIsTotal(out[i].0, k);
  }

  /** Whatever order the buckets are visited in, the same txs come out in the same order. */
  lemma DrainIsDeterministic(buckets: map<string, seq<StoredTx>>, bondDenom: string, baseFee: Option<nat>,
                             a: seq<(string, StoredTx)>, b: seq<(string, StoredTx)>)
    requires var p := CosmosPolicy(bondDenom, baseFee); IsDrain(p, Start(p, buckets), a) && IsDrain(p, Start(p, buckets), b)
    ensures a == b
  {
    CosmosLessIsOrder(bondDenom, baseFee);
    DrainIsUnique(CosmosPolicy(bondDenom, baseFee), Start(CosmosPolicy(bondDenom, baseFee), buckets), a, b);
  }
}
