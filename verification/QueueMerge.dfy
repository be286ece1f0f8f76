/**
 What draining per-account queues by priority means, apart from any heap: take
 the first tx of a queue whose head no other head beats, until nothing is left.
 */
module QueueMerge {
  import opened Prelude
  import opened Heap

  /** The head of one account's queue, with the fee it is ranked by. */
  datatype Entry<K, T> = Entry(key: K, tx: T, fee: nat)

  /** How heads are ranked, and which txs may become heads at all. */
  datatype Policy<!K, !T> = Policy(fee: T -> nat, payable: T -> bool, less: (Entry<K, T>, Entry<K, T>) -> bool)

  /** Non-empty queues with payable heads. */
  ghost predicate Live<K, T>(p: Policy<K, T>, q: map<K, seq<T>>) {
    forall k | k in q :: q[k] != [] && p.payable(q[k][0])
  }

  function Head<K, T>(p: Policy<K, T>, q: map<K, seq<T>>, k: K): Entry<K, T>
    requires k in q && q[k] != []
  {
    Entry(k, q[k][0], p.fee(q[k][0]))
  }

  /** No other head comes before k's. */
  ghost predicate Best<K, T>(p: Policy<K, T>, q: map<K, seq<T>>, k: K)
    requires Live(p, q)
  {
    k in q && forall j | j in q :: !p.less(Head(p, q, j), Head(p, q, k))
  }

  /** k's head is used up; an unpayable successor ends k's queue. */
  function Advance<K, T>(p: Policy<K, T>, q: map<K, seq<T>>, k: K): map<K, seq<T>>
    requires k in q && q[k] != []
  {
    var rest := q[k][1..];
    if rest != [] && p.payable(rest[0]) then q[k := rest] else q - {k}
  }

  /** The accounts among `from` that have a payable head to begin with. */
  function StartOn<K, T>(p: Policy<K, T>, txs: map<K, seq<T>>, from: set<K>): map<K, seq<T>> {
    map k | k in txs && k in from && txs[k] != [] && p.payable(txs[k][0]) :: txs[k]
  }

  function Start<K, T>(p: Policy<K, T>, txs: map<K, seq<T>>): map<K, seq<T>> {
    StartOn(p, txs, txs.Keys)
  }

  lemma StartOneMore<K, T>(p: Policy<K, T>, txs: map<K, seq<T>>, from: set<K>, k: K)
    requires k in txs && k !in from
    ensures k !in StartOn(p, txs, from)
    ensures StartOn(p, txs, from + {k}) ==
            if txs[k] != [] && p.payable(txs[k][0]) then StartOn(p, txs, from)[k := txs[k]] else StartOn(p, txs, from)
  {
  }

  /** Emitting `out` leads from the queues q to the queues r, always taking from a best one. */
  ghost predicate DrainsTo<K, T>(p: Policy<K, T>, q: map<K, seq<T>>, out: seq<(K, T)>, r: map<K, seq<T>>)
    requires Live(p, q)
    decreases |out|
  {
    if out == [] then q == r else
    && Best(p, q, out[0].0)
    && out[0].1 == q[out[0].0][0]
    && DrainsTo(p, Advance(p, q, out[0].0), out[1..], r)
  }

  /** `out` empties the queues. */
  ghost predicate IsDrain<K, T>(p: Policy<K, T>, q: map<K, seq<T>>, out: seq<(K, T)>)
    requires Live(p, q)
  {
    DrainsTo(p, q, out, map[])
  }

  lemma {:induction false} DrainsOneMore<K, T>(p: Policy<K, T>, q: map<K, seq<T>>, out: seq<(K, T)>,
                                               r: map<K, seq<T>>, k: K)
    requires Live(p, q) && DrainsTo(p, q, out, r) && Live(p, r) && Best(p, r, k)
    ensures DrainsTo(p, q, out + [(k, r[k][0])], Advance(p, r, k))
    decreases |out|
  {
    var more := out + [(k, r[k][0])];
    if out == [] {
      assert more[1..] == [];
    } else {
      assert more[1..] == out[1..] + [(k, r[k][0])];
      DrainsOneMore(p, Advance(p, q, out[0].0), out[1..], r, k);
    }
  }

  /** What is still queued, as positions from the end. */
  ghost function Pending<K, T>(q: map<K, seq<T>>): set<(K, nat)> {
    set k, n | k in q && 0 <= n < |q[k]| :: (k, n)
  }

  lemma AdvanceShrinks<K, T>(p: Policy<K, T>, q: map<K, seq<T>>, k: K)
    requires k in q && q[k] != []
    ensures Pending(Advance(p, q, k)) < Pending(q)
  {
    assert (k, |q[k]| - 1) in Pending(q) && (k, |q[k]| - 1) !in Pending(Advance(p, q, k));
  }

  // ---------- What a drain emits ----------

  /** The txs that `out` emits for account k, in order. */
  function ForAccount<K(==), T>(out: seq<(K, T)>, k: K): seq<T> {
    if out == [] then []
    else (if out[0].0 == k then [out[0].1] else []) + ForAccount(out[1..], k)
  }

  function PayablePrefix<K, T>(p: Policy<K, T>, txs: seq<T>): seq<T> {
    if txs == [] || !p.payable(txs[0]) then [] else [txs[0]] + PayablePrefix(p, txs[1..])
  }

  /** The longest prefix of payable txs: everything in it is payable and what follows is not. */
  lemma {:induction false} PayablePrefixIsLongest<K, T>(p: Policy<K, T>, txs: seq<T>)
    ensures var r := PayablePrefix(p, txs);
            && r <= txs && (forall i | 0 <= i < |r| :: p.payable(txs[i]))
            && (|r| < |txs| ==> !p.payable(txs[|r|]))
  {
    if txs != [] && p.payable(txs[0]) {
      PayablePrefixIsLongest(p, txs[1..]);
    }
  }

  function PayableOf<K, T>(p: Policy<K, T>, q: map<K, seq<T>>, k: K): seq<T> {
    if k in q then PayablePrefix(p, q[k]) else []
  }

  lemma AdvancePayable<K, T>(p: Policy<K, T>, q: map<K, seq<T>>, j: K, k: K)
    requires Live(p, q) && j in q
    ensures PayableOf(p, q, k) == (if j == k then [q[j][0]] else []) + PayableOf(p, Advance(p, q, j), k)
  {
    if j == k {
      assert PayablePrefix(p, q[k]) == [q[k][0]] + PayablePrefix(p, q[k][1..]);
    }
  }

  /** At any moment, what an account has emitted and what it will still emit make up its payable prefix. */
  lemma {:induction false} EmittedIsPrefix<K, T>(p: Policy<K, T>, q: map<K, seq<T>>, out: seq<(K, T)>,
                                                 r: map<K, seq<T>>, k: K)
    requires Live(p, q) && DrainsTo(p, q, out, r)
    ensures ForAccount(out, k) + PayableOf(p, r, k) == PayableOf(p, q, k)
    decreases |out|
  {
    if out != [] {
      var q' := Advance(p, q, out[0].0);
      EmittedIsPrefix(p, q', out[1..], r, k);
      var first := if out[0].0 == k then [out[0].1] else [];
      ConcatAssociates(first, ForAccount(out[1..], k), PayableOf(p, r, k));
      AdvancePayable(p, q, out[0].0, k);
    }
  }

  /** Draining to the end emits every account's txs in order, exactly up to the first unpayable one. */
  lemma DrainEmitsPrefixes<K, T>(p: Policy<K, T>, q: map<K, seq<T>>, out: seq<(K, T)>, k: K)
    requires Live(p, q) && IsDrain(p, q, out)
    ensures ForAccount(out, k) == PayableOf(p, q, k)
  {
    EmittedIsPrefix(p, q, out, map[], k);
  }

  /** The queues left after the first i emissions. */
  function After<K, T>(p: Policy<K, T>, q: map<K, seq<T>>, out: seq<(K, T)>, i: nat): map<K, seq<T>>
    requires i <= |out|
    decreases i
  {
    if i == 0 then q else
    if out[0].0 in q && q[out[0].0] != [] then After(p, Advance(p, q, out[0].0), out[1..], i - 1) else q
  }

  /** Each emitted tx is the head of its queue at that moment and no other head beats it. */
  lemma {:induction false} DrainIsGreedy<K, T>(p: Policy<K, T>, q: map<K, seq<T>>, out: seq<(K, T)>, i: nat)
    requires Live(p, q) && IsDrain(p, q, out) && i < |out|
    ensures var now := After(p, q, out, i);
            Live(p, now) && Best(p, now, out[i].0) && out[i].1 == now[out[i].0][0]
    decreases i
  {
    if i > 0 {
      DrainIsGreedy(p, Advance(p, q, out[0].0), out[1..], i - 1);
    }
  }

  /** Heads of different accounts never tie. */
  ghost predicate NoTies<K(!new), T(!new)>(p: Policy<K, T>) {
    forall a: Entry<K, T>, b: Entry<K, T> :: a.key != b.key ==> p.less(a, b) || p.less(b, a)
  }

  /** Without ties there is only one drain. */
  lemma {:induction false} DrainIsUnique<K(!new), T(!new)>(p: Policy<K, T>, q: map<K, seq<T>>,
                                                           a: seq<(K, T)>, b: seq<(K, T)>)
    requires Live(p, q) && NoTies(p) && IsDrain(p, q, a) && IsDrain(p, q, b)
    ensures a == b
    decreases |a|
  {
    if a == [] {
      assert b == [];
    } else {
      assert b != [];
      var j, k := a[0].0, b[0].0;
      assert !p.less(Head(p, q, k), Head(p, q, j)) && !p.less(Head(p, q, j), Head(p, q, k));
      assert Head(p, q, j).key == j && Head(p, q, k).key == k;
      DrainIsUnique(p, Advance(p, q, j), a[1..], b[1..]);
    }
  }

  // ---------- Heads and remainders as a representation of the queues ----------

  function Rest<K, T>(txs: map<K, seq<T>>, k: K): seq<T> {
    if k in txs then txs[k] else []
  }

  /** The heads are one entry per queue, and `txs` holds what follows each. */
  ghost predicate Represents<K(!new), T(!new)>(p: Policy<K, T>, heads: multiset<Entry<K, T>>, txs: map<K, seq<T>>,
                                               q: map<K, seq<T>>)
  {
    && Live(p, q)
    && (forall e | e in heads :: heads[e] == 1 && e.key in q && e == Head(p, q, e.key))
    && (forall k | k in q :: Head(p, q, k) in heads && q[k][1..] == Rest(txs, k))
  }

  lemma EmptyTogether<K(!new), T(!new)>(p: Policy<K, T>, heads: seq<Entry<K, T>>, txs: map<K, seq<T>>, q: map<K, seq<T>>)
    requires Represents(p, multiset(heads), txs, q)
    ensures heads == [] <==> q == map[]
  {
    if heads != [] {
      assert heads[0] in multiset(heads);
    }
  }

  /** The heap's root is a best head. */
  lemma RootIsBest<K(!new), T(!new)>(p: Policy<K, T>, heads: seq<Entry<K, T>>, txs: map<K, seq<T>>, q: map<K, seq<T>>)
    requires StrictWeakOrder(p.less) && IsHeap(heads, p.less) && heads != []
    requires Represents(p, multiset(heads), txs, q)
    ensures Live(p, q) && Best(p, q, heads[0].key) && heads[0] == Head(p, q, heads[0].key)
  {
    assert heads[0] in multiset(heads);
    forall j | j in q ensures !p.less(Head(p, q, j), heads[0]) {
      assert Head(p, q, j) in heads;
      var i :| 0 <= i < |heads| && heads[i] == Head(p, q, j);
      RootIsFirst(heads, p.less, i);
    }
  }

  /** Replacing a head by its successor advances its queue. */
  lemma ReplaceAdvances<K(!new), T(!new)>(p: Policy<K, T>, heads: multiset<Entry<K, T>>, txs: map<K, seq<T>>,
                                          q: map<K, seq<T>>, e: Entry<K, T>)
    requires Represents(p, heads, txs, q) && e in heads
    requires Rest(txs, e.key) != [] && p.payable(Rest(txs, e.key)[0])
    ensures var rest := Rest(txs, e.key);
            var e' := Entry(e.key, rest[0], p.fee(rest[0]));
            Represents(p, heads - multiset{e} + multiset{e'}, txs[e.key := rest[1..]], Advance(p, q, e.key))
  {
    var rest := Rest(txs, e.key);
    var e', q' := Entry(e.key, rest[0], p.fee(rest[0])), Advance(p, q, e.key);
    var heads' := heads - multiset{e} + multiset{e'};
    assert q' == q[e.key := rest];
    hide Advance, Rest;
    ReplacedHeads(p, heads, txs, q, e, e');
    forall x | x in heads' ensures heads'[x] == 1 && x.key in q' && x == Head(p, q', x.key) {
      assert x == e' || (x in heads && x.key != e.key);
    }
    forall k | k in q' ensures Head(p, q', k) in heads' && q'[k][1..] == Rest(txs[e.key := rest[1..]], k) {
      RestUpdated(txs, e.key, rest[1..], k);
      if k != e.key {
        assert Head(p, q, k) in heads;
      }
    }
  }

  lemma RestUpdated<K, T>(txs: map<K, seq<T>>, k: K, rest: seq<T>, j: K)
    ensures Rest(txs[k := rest], j) == if j == k then rest else Rest(txs, j)
  {
  }

  /** Exchanging one head leaves the other accounts' heads and no second one of its own. */
  lemma ReplacedHeads<K(!new), T(!new)>(p: Policy<K, T>, heads: multiset<Entry<K, T>>, txs: map<K, seq<T>>,
                                        q: map<K, seq<T>>, e: Entry<K, T>, e': Entry<K, T>)
    requires Represents(p, heads, txs, q) && e in heads && e'.key == e.key
    ensures var heads' := heads - multiset{e} + multiset{e'};
            && e' in heads' && (forall x | x in heads' :: heads'[x] == 1 && (x == e' || (x in heads && x.key != e.key)))
            && (forall x | x in heads && x.key != e.key :: x in heads')
  {
    hide Rest, Live;
    var heads' := heads - multiset{e} + multiset{e'};
    assert e' !in heads - multiset{e};
    forall x | x in heads' ensures heads'[x] == 1 && (x == e' || (x in heads && x.key != e.key)) {
      if x != e' {
        assert x in heads && x != e;
      }
    }
  }

  /** Dropping a head without a payable successor advances its queue; dropping any head removes its queue. */
  lemma DropRemoves<K(!new), T(!new)>(p: Policy<K, T>, heads: multiset<Entry<K, T>>, txs: map<K, seq<T>>,
                                      q: map<K, seq<T>>, e: Entry<K, T>)
    requires Represents(p, heads, txs, q) && e in heads
    ensures Represents(p, heads - multiset{e}, txs, q - {e.key})
    ensures Rest(txs, e.key) == [] || !p.payable(Rest(txs, e.key)[0]) ==> Advance(p, q, e.key) == q - {e.key}
  {
    var heads' := heads - multiset{e};
    forall x | x in heads' ensures x in heads && x != e && x.key != e.key {
    }
    forall k | k in q - {e.key} ensures Head(p, q, k) in heads' {
      assert Head(p, q, k) in heads;
    }
  }

  /** Adding a new account's first tx to the heads starts its queue. */
  lemma AddStarts<K(!new), T(!new)>(p: Policy<K, T>, heads: multiset<Entry<K, T>>, txs: map<K, seq<T>>,
                                    q: map<K, seq<T>>, k: K, queue: seq<T>)
    requires Represents(p, heads, txs, q) && k !in q && queue != [] && p.payable(queue[0])
    ensures Represents(p, heads + multiset{Entry(k, queue[0], p.fee(queue[0]))}, txs[k := queue[1..]], q[k := queue])
  {
    var e, q' := Entry(k, queue[0], p.fee(queue[0])), q[k := queue];
    var heads' := heads + multiset{e};
    forall x | x in heads' ensures heads'[x] == 1 && x.key in q' && x == Head(p, q', x.key) {
      if x != e {
        assert x in heads;
      }
    }
    forall j | j in q' ensures Head(p, q', j) in heads' && q'[j][1..] == Rest(txs[k := queue[1..]], j) {
      if j != k {
        assert Head(p, q, j) in heads;
      }
    }
  }

  /** What is kept for an account without a queue does not matter. */
  lemma ForgetRest<K(!new), T(!new)>(p: Policy<K, T>, heads: multiset<Entry<K, T>>, txs: map<K, seq<T>>,
                                     q: map<K, seq<T>>, k: K)
    requires Represents(p, heads, txs, q) && k !in q
    ensures Represents(p, heads, txs - {k}, q)
  {
    forall j | j in q ensures Rest(txs - {k}, j) == Rest(txs, j) {
    }
  }

  /** heads[0] = next, txs[key] = rest[1:], then heap.Fix(heads, 0). */
  method ReplaceRoot<K(!new, ==), T(!new)>(p: Policy<K, T>, heads: seq<Entry<K, T>>, txs: map<K, seq<T>>,
                                           next: Entry<K, T>, ghost q: map<K, seq<T>>)
      returns (heads': seq<Entry<K, T>>, txs': map<K, seq<T>>)
    requires StrictWeakOrder(p.less) && IsHeap(heads, p.less) && heads != []
    requires Represents(p, multiset(heads), txs, q)
    requires heads[0].key in txs && txs[heads[0].key] != [] && p.payable(txs[heads[0].key][0])
    requires var tx := txs[heads[0].key][0]; next == Entry(heads[0].key, tx, p.fee(tx))
    ensures IsHeap(heads', p.less) && heads[0].key in q
    ensures Represents(p, multiset(heads'), txs', Advance(p, q, heads[0].key))
  {
    assert heads[0] in multiset(heads);
    ReplaceAdvances(p, multiset(heads), txs, q, heads[0]);
    ReplacedIsFixable(heads, p.less, 0, next);
    assert multiset(heads[0 := next]) == multiset(heads) - multiset{heads[0]} + multiset{next};
    hide Represents, IsHeap, OrderedExceptAt, Advance, Rest;
    var heap := Backing(heads);
    heap[0] := next;
    assert heap[..] == heads[0 := next];
    txs' := txs[heads[0].key := txs[heads[0].key][1..]];
    Fix(heap, p.less, 0);
    heads' := heap[..];
  }

  /** heap.Pop(heads) */
  method DropRoot<K(!new), T(!new)>(p: Policy<K, T>, heads: seq<Entry<K, T>>, ghost txs: map<K, seq<T>>,
                                    ghost q: map<K, seq<T>>)
      returns (heads': seq<Entry<K, T>>)
    requires StrictWeakOrder(p.less) && IsHeap(heads, p.less) && heads != []
    requires Represents(p, multiset(heads), txs, q)
    ensures IsHeap(heads', p.less) && heads[0].key in q
    ensures Represents(p, multiset(heads'), txs, q - {heads[0].key})
    ensures var rest := Rest(txs, heads[0].key);
            rest == [] || !p.payable(rest[0]) ==> Advance(p, q, heads[0].key) == q - {heads[0].key}
  {
    assert heads[0] in multiset(heads);
    DropRemoves(p, multiset(heads), txs, q, heads[0]);
    var heap := Backing(heads);
    var _ := Pop(heap, p.less);
    heads' := heap[..heap.Length - 1];
  }
}
