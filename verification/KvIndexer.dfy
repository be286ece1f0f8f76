/** The key-value index of eth txs by hash and by (block, index): indexer/kv_indexer.go. */
module KvIndexer {
  import opened Prelude

  type byte = x: int | 0 <= x < 256
  type Key = seq<byte>
  type Hash = seq<byte>

  // ---------- Keys ----------

  /** x in w big-endian bytes */
  function BigEndian(x: nat, w: nat): Key {
    if w == 0 then [] else BigEndian(x / 256, w - 1) + [x % 256]
  }

  function FromBigEndian(k: Key): nat {
    if k == [] then 0 else 256 * FromBigEndian(k[..|k| - 1]) + k[|k| - 1]
  }

  function Pow256(w: nat): nat {
    if w == 0 then 1 else 256 * Pow256(w - 1)
  }

  lemma {:induction false} BigEndianReads(x: nat, w: nat)
    requires x < Pow256(w)
    ensures |BigEndian(x, w)| == w && FromBigEndian(BigEndian(x, w)) == x
  {
    if w > 0 {
      BigEndianReads(x / 256, w - 1);
      assert BigEndian(x, w)[..w - 1] == BigEndian(x / 256, w - 1);
    }
  }

  lemma Pow256Of8()
    ensures Pow256(8) == UINT64_LIMIT
  {
    assert Pow256(4) == 0x1_0000_0000;
  }

  /** The database's order of keys. */
  predicate KeyLess(a: Key, b: Key) {
    b != [] && (a == [] || a[0] < b[0] || (a[0] == b[0] && KeyLess(a[1..], b[1..])))
  }

  lemma {:induction false} KeyLessIsTransitive(a: Key, b: Key, c: Key)
    requires KeyLess(a, b) && KeyLess(b, c)
    ensures KeyLess(a, c)
  {
    if a != [] && a[0] == b[0] == c[0] {
      KeyLessIsTransitive(a[1..], b[1..], c[1..]);
    }
  }

  lemma {:induction false} KeyLessIsTotal(a: Key, b: Key)
    ensures a == b || KeyLess(a, b) || KeyLess(b, a)
    ensures !(KeyLess(a, b) && KeyLess(b, a)) && !KeyLess(a, a)
  {
    if a != [] {
      KeyLessIsTotal(a[1..], a[1..]);
      if b != [] {
        KeyLessIsTotal(a[1..], b[1..]);
        assert a == [a[0]] + a[1..] && b == [b[0]] + b[1..];
      }
    }
  }

  lemma {:induction false} KeyLessBehind(front: Key, x: Key, y: Key)
    requires KeyLess(x, y)
    ensures KeyLess(front + x, front + y)
  {
    if front == [] {
      assert front + x == x && front + y == y;
    } else {
      KeyLessBehind(front[1..], x, y);
      assert (front + x)[1..] == front[1..] + x && (front + y)[1..] == front[1..] + y;
    }
  }

  lemma {:induction false} KeyLessBefore(x: Key, y: Key, a: Key, b: Key)
    requires KeyLess(x, y) && |x| == |y|
    ensures KeyLess(x + a, y + b)
  {
    assert (x + a)[0] == x[0] && (y + b)[0] == y[0];
    if x[0] == y[0] {
      KeyLessBefore(x[1..], y[1..], a, b);
      assert (x + a)[1..] == x[1..] + a && (y + b)[1..] == y[1..] + b;
    }
  }

  /** Big-endian bytes sort as numbers. */
  lemma {:induction false} BigEndianKeepsOrder(x: nat, y: nat, w: nat)
    requires x < y < Pow256(w)
    ensures KeyLess(BigEndian(x, w), BigEndian(y, w))
  {
    BigEndianReads(x / 256, w - 1);
    BigEndianReads(y / 256, w - 1);
    if x / 256 < y / 256 {
      BigEndianKeepsOrder(x / 256, y / 256, w - 1);
      KeyLessBefore(BigEndian(x / 256, w - 1), BigEndian(y / 256, w - 1), [x % 256], [y % 256]);
    } else {
      KeyLessBehind(BigEndian(x / 256, w - 1), [x % 256], [y % 256]);
    }
  }

  predicate IsInt64(x: int) {
    -0x8000_0000_0000_0000 <= x < 0x8000_0000_0000_0000
  }

  predicate IsInt32(x: int) {
    -0x8000_0000 <= x < 0x8000_0000
  }

  /** uint64(x), which wraps a negative number around. */
  function AsUint64(x: int): nat
    requires IsInt64(x)
  {
    if x < 0 then x + UINT64_LIMIT else x
  }

  /** int64(x) */
  function AsInt64(x: nat): int {
    if x < INT64_LIMIT then x else x - UINT64_LIMIT
  }

  function TxHashKey(hash: Hash): Key {
    [1] + hash
  }

  function TxIndexKey(height: int, index: int): Key
    requires IsInt64(height) && IsInt32(index)
  {
    [2] + BigEndian(AsUint64(height), 8) + BigEndian(AsUint64(index), 8)
  }

  datatype Error = WrongKeyLength | NotFound

  /** parseBlockNumberFromKey */
  function HeightOf(key: Key): Result<int, Error> {
    if |key| != 17 then Err(WrongKeyLength) else Ok(AsInt64(FromBigEndian(key[1..9])))
  }

  lemma KeyParts(height: int, index: int)
    requires IsInt64(height) && IsInt32(index)
    ensures var key := TxIndexKey(height, index);
            |key| == 17 && key[0] == 2
            && key[1..9] == BigEndian(AsUint64(height), 8) && key[9..] == BigEndian(AsUint64(index), 8)
            && FromBigEndian(key[1..9]) == AsUint64(height) && FromBigEndian(key[9..]) == AsUint64(index)
  {
    Pow256Of8();
    BigEndianReads(AsUint64(height), 8);
    BigEndianReads(AsUint64(index), 8);
  }

  /** The height parses back from every key. */
  lemma HeightParsesBack(height: int, index: int)
    requires IsInt64(height) && IsInt32(index)
    ensures HeightOf(TxIndexKey(height, index)) == Ok(height)
  {
    KeyParts(height, index);
  }

  lemma TxIndexKeyIsInjective(h: int, i: int, h': int, i': int)
    requires IsInt64(h) && IsInt32(i) && IsInt64(h') && IsInt32(i')
    requires TxIndexKey(h, i) == TxIndexKey(h', i')
    ensures h == h' && i == i'
  {
    KeyParts(h, i);
    KeyParts(h', i');
  }

  /** The layout by example: a prefix, eight bytes of height and eight of index, and another prefix before a hash. */
  lemma KeyExample()
    ensures TxIndexKey(258, 3) == [2] + [0, 0, 0, 0, 0, 0, 1, 2] + [0, 0, 0, 0, 0, 0, 0, 3]
    ensures TxHashKey([9, 8]) == [1, 9, 8]
  {
    assert BigEndian(0, 2) == [0, 0] && BigEndian(0, 4) == [0, 0, 0, 0] && BigEndian(0, 6) == [0, 0, 0, 0, 0, 0];
    assert BigEndian(1, 7) == [0, 0, 0, 0, 0, 0, 1] && BigEndian(258, 8) == [0, 0, 0, 0, 0, 0, 1, 2];
    assert BigEndian(0, 7) == [0, 0, 0, 0, 0, 0, 0] && BigEndian(3, 8) == [0, 0, 0, 0, 0, 0, 0, 3];
  }

  /** Keys sort by height, then by index. */
  lemma TxIndexKeyKeepsOrder(h: int, i: int, h': int, i': int)
    requires 0 <= h && IsInt64(h) && 0 <= i && IsInt32(i) && 0 <= h' && IsInt64(h') && 0 <= i' && IsInt32(i')
    ensures KeyLess(TxIndexKey(h, i), TxIndexKey(h', i')) <==> h < h' || (h == h' && i < i')
  {
    IndexKeyLess(h, i, h', i');
    IndexKeyLess(h', i', h, i);
    KeyLessIsTotal(TxIndexKey(h, i), TxIndexKey(h', i'));
  }

  lemma IndexKeyLess(h: int, i: int, h': int, i': int)
    requires 0 <= h && IsInt64(h) && 0 <= i && IsInt32(i) && 0 <= h' && IsInt64(h') && 0 <= i' && IsInt32(i')
    ensures h < h' || (h == h' && i < i') ==> KeyLess(TxIndexKey(h, i), TxIndexKey(h', i'))
  {
    Pow256Of8();
    var a, b, c, d := BigEndian(h, 8), BigEndian(h', 8), BigEndian(i, 8), BigEndian(i', 8);
    BigEndianReads(h, 8);
    BigEndianReads(h', 8);
    if h < h' {
      BigEndianKeepsOrder(h, h', 8);
      KeyLessBehind([2], a, b);
      KeyLessBefore([2] + a, [2] + b, c, d);
    } else if h == h' && i < i' {
      BigEndianKeepsOrder(i, i', 8);
      KeyLessBehind([2] + a, c, d);
    }
  }

  // ---------- Indexing a block ----------

  datatype TxResult =
    TxResult(height: int, txIndex: nat, msgIndex: nat, ethTxIndex: nat, gasUsed: nat, failed: bool, cumulativeGasUsed: nat)

  datatype EthMsg = EthMsg(hash: Hash, gas: nat)
  datatype ParsedTx = ParsedTx(gasUsed: nat, failed: bool)

  datatype Code = CodeOk | ExpectedFailure | OtherFailure

  /** A tx of a block: its result code, what it decodes to, whether it is an eth tx, and its parsed events. */
  datatype BlockTx = BlockTx(code: Code, msgs: Option<seq<EthMsg>>, isEth: bool, events: Option<seq<ParsedTx>>)

  datatype Block = Block(height: int, txs: seq<BlockTx>)

  datatype Entry = Entry(hash: Hash, result: TxResult)

  /** The tx gets past the checks that skip whole txs. */
  predicate Relevant(tx: BlockTx) {
    !tx.code.OtherFailure? && tx.msgs.Some? && tx.isEth && tx.events.Some?
  }

  /** A message of a successful tx without an event is skipped. */
  predicate Counts(tx: BlockTx, m: nat) {
    tx.events.Some? && (!tx.code.CodeOk? || m < |tx.events.value|)
  }

  /** Failed txs are charged their gas limit. */
  function GasOf(tx: BlockTx, m: nat): nat
    requires Relevant(tx) && m < |tx.msgs.value| && Counts(tx, m)
  {
    if tx.code.CodeOk? then tx.events.value[m].gasUsed else tx.msgs.value[m].gas
  }

  function FailedOf(tx: BlockTx, m: nat): bool
    requires Relevant(tx) && Counts(tx, m)
  {
    !tx.code.CodeOk? || tx.events.value[m].failed
  }

  /** What the next counted message adds. */
  function NextEntry(height: int, tx: BlockTx, txIndex: nat, m: nat, index: nat, gas: nat): Entry
    requires Relevant(tx) && m < |tx.msgs.value| && Counts(tx, m)
  {
    Entry(tx.msgs.value[m].hash,
          TxResult(height, txIndex, m, index, GasOf(tx, m), FailedOf(tx, m), Wrap64(gas + GasOf(tx, m))))
  }

  /** The entries of the first m messages of a tx, numbered from `first`, and the gas used by then. */
  function MsgEntries(height: int, tx: BlockTx, txIndex: nat, m: nat, first: nat): (seq<Entry>, nat)
    requires Relevant(tx) && m <= |tx.msgs.value|
  {
    if m == 0 then ([], 0)
    else
      var (es, gas) := MsgEntries(height, tx, txIndex, m - 1, first);
      if !Counts(tx, m - 1) then (es, gas)
      else
        var e := NextEntry(height, tx, txIndex, m - 1, first + |es|, gas);
        (es + [e], e.result.cumulativeGasUsed)
  }

  /** The entries of the first n txs of a block. */
  function Entries(b: Block, n: nat): seq<Entry>
    requires n <= |b.txs|
  {
    if n == 0 then []
    else
      var es := Entries(b, n - 1);
      if !Relevant(b.txs[n - 1]) then es
      else es + MsgEntries(b.height, b.txs[n - 1], n - 1, |b.txs[n - 1].msgs.value|, |es|).0
  }

  function AllEntries(b: Block): seq<Entry> {
    Entries(b, |b.txs|)
  }

  ghost predicate Numbered(es: seq<Entry>, first: nat, height: int) {
    forall i | 0 <= i < |es| :: es[i].result.ethTxIndex == first + i && es[i].result.height == height
  }

  lemma {:induction false} MsgEntriesAreNumbered(height: int, tx: BlockTx, txIndex: nat, m: nat, first: nat)
    requires Relevant(tx) && m <= |tx.msgs.value|
    ensures Numbered(MsgEntries(height, tx, txIndex, m, first).0, first, height)
  {
    if m > 0 {
      MsgEntriesAreNumbered(height, tx, txIndex, m - 1, first);
    }
  }

  /** The eth indices of a block are gap-free, whatever txs and messages were skipped. */
  lemma {:induction false} EntriesAreNumbered(b: Block, n: nat)
    requires n <= |b.txs|
    ensures Numbered(Entries(b, n), 0, b.height)
  {
    if n > 0 {
      EntriesAreNumbered(b, n - 1);
      if Relevant(b.txs[n - 1]) {
        MsgEntriesAreNumbered(b.height, b.txs[n - 1], n - 1, |b.txs[n - 1].msgs.value|, |Entries(b, n - 1)|);
      }
    }
  }

  /** The entry tells the truth about the message it names. */
  ghost predicate Truthful(b: Block, e: Entry) {
    && e.result.txIndex < |b.txs|
    && var tx, m := b.txs[e.result.txIndex], e.result.msgIndex;
       && Relevant(tx) && m < |tx.msgs.value| && Counts(tx, m)
       && e.hash == tx.msgs.value[m].hash && e.result.gasUsed == GasOf(tx, m)
       && e.result.failed == FailedOf(tx, m)
  }

  /** Position order in the block: by tx, then by message. */
  predicate Earlier(a: TxResult, b: TxResult) {
    a.txIndex < b.txIndex || (a.txIndex == b.txIndex && a.msgIndex < b.msgIndex)
  }

  /** The gas used by the entries of the same tx, up to and including this one. */
  ghost predicate Accumulates(es: seq<Entry>, i: nat)
    requires i < |es|
  {
    var r := es[i].result;
    r.cumulativeGasUsed ==
    Wrap64(r.gasUsed + if i > 0 && es[i - 1].result.txIndex == r.txIndex then es[i - 1].result.cumulativeGasUsed else 0)
  }

  ghost predicate Faithful(b: Block, es: seq<Entry>) {
    InOrder(es) && forall i | 0 <= i < |es| :: Truthful(b, es[i]) && Accumulates(es, i)
  }

  ghost predicate InOrder(es: seq<Entry>) {
    forall i, j | 0 <= i < j < |es| :: Earlier(es[i].result, es[j].result)
  }

  ghost predicate Names(es: seq<Entry>, t: nat, m: nat) {
    exists i :: 0 <= i < |es| && es[i].result.txIndex == t && es[i].result.msgIndex == m
  }

  lemma FaithfulOneMore(b: Block, es: seq<Entry>, e: Entry)
    requires Faithful(b, es) && Truthful(b, e) && Accumulates(es + [e], |es|)
    requires forall i | 0 <= i < |es| :: Earlier(es[i].result, e.result)
    ensures Faithful(b, es + [e])
  {
    hide Truthful, Wrap64, Earlier;
    forall i | 0 <= i < |es| + 1 ensures Truthful(b, (es + [e])[i]) && Accumulates(es + [e], i) {
      if i < |es| { assert Accumulates(es, i); }
    }
  }

  /** Faithful entries of messages of tx t before m, and the gas they used. */
  ghost predicate FaithfulUpTo(b: Block, t: nat, m: nat, es: seq<Entry>, gas: nat) {
    && Faithful(b, es) && (forall i | 0 <= i < |es| :: es[i].result.txIndex == t && es[i].result.msgIndex < m)
    && gas == if es == [] then 0 else es[|es| - 1].result.cumulativeGasUsed
  }

  lemma NoneAreFaithful(b: Block, t: nat)
    ensures FaithfulUpTo(b, t, 0, [], 0)
  {
  }

  lemma NextIsFaithful(b: Block, t: nat, m: nat, es: seq<Entry>, gas: nat, index: nat)
    requires t < |b.txs| && Relevant(b.txs[t]) && m < |b.txs[t].msgs.value| && FaithfulUpTo(b, t, m, es, gas)
    ensures FaithfulUpTo(b, t, m + 1, es, gas)
    ensures Counts(b.txs[t], m) ==>
              var e := NextEntry(b.height, b.txs[t], t, m, index, gas);
              FaithfulUpTo(b, t, m + 1, es + [e], e.result.cumulativeGasUsed)
  {
    hide Wrap64, Faithful;
    if Counts(b.txs[t], m) {
      FaithfulOneMore(b, es, NextEntry(b.height, b.txs[t], t, m, index, gas));
    }
  }

  lemma {:induction false} MsgEntriesAreFaithful(b: Block, t: nat, m: nat, first: nat)
    requires t < |b.txs| && Relevant(b.txs[t]) && m <= |b.txs[t].msgs.value|
    ensures var (es, gas) := MsgEntries(b.height, b.txs[t], t, m, first); FaithfulUpTo(b, t, m, es, gas)
  {
    hide FaithfulUpTo, NextEntry, Counts, Relevant;
    if m == 0 {
      NoneAreFaithful(b, t);
    } else {
      MsgEntriesAreFaithful(b, t, m - 1, first);
      var (es, gas) := MsgEntries(b.height, b.txs[t], t, m - 1, first);
      NextIsFaithful(b, t, m - 1, es, gas, first + |es|);
    }
  }

  lemma {:induction false} CountedIsNamed(b: Block, t: nat, m: nat, first: nat, k: nat)
    requires t < |b.txs| && Relevant(b.txs[t]) && k < m <= |b.txs[t].msgs.value| && Counts(b.txs[t], k)
    ensures Names(MsgEntries(b.height, b.txs[t], t, m, first).0, t, k)
  {
    hide Wrap64;
    var before, es := MsgEntries(b.height, b.txs[t], t, m - 1, first).0, MsgEntries(b.height, b.txs[t], t, m, first).0;
    if k < m - 1 {
      CountedIsNamed(b, t, m - 1, first, k);
      NamesGrow(before, es, t, k);
    } else {
      assert es[|before|].result.txIndex == t && es[|before|].result.msgIndex == k;
    }
  }

  lemma NamesGrow(before: seq<Entry>, es: seq<Entry>, t: nat, m: nat)
    requires before <= es
    ensures Names(before, t, m) ==> Names(es, t, m)
  {
    if Names(before, t, m) {
      var i :| 0 <= i < |before| && before[i].result.txIndex == t && before[i].result.msgIndex == m;
      assert es[i] == before[i];
    }
  }

  /**
   The entries of a block are counted messages in order, with their own hash, gas and
   outcome and the running gas of their tx.
   */
  lemma {:induction false} EntriesAreFaithful(b: Block, n: nat)
    requires n <= |b.txs|
    ensures Faithful(b, Entries(b, n)) && forall i | 0 <= i < |Entries(b, n)| :: Entries(b, n)[i].result.txIndex < n
  {
    if n > 0 {
      hide MsgEntries, Counts, Faithful;
      EntriesAreFaithful(b, n - 1);
      var before := Entries(b, n - 1);
      if Relevant(b.txs[n - 1]) {
        MsgEntriesAreFaithful(b, n - 1, |b.txs[n - 1].msgs.value|, |before|);
        var more := MsgEntries(b.height, b.txs[n - 1], n - 1, |b.txs[n - 1].msgs.value|, |before|).0;
        AppendedAreFaithful(b, before, more, n - 1);
      }
    }
  }

  /** Every counted message has its entry. */
  lemma {:induction false} EveryMessageIsIndexed(b: Block, n: nat, t: nat, m: nat)
    requires t < n <= |b.txs| && Relevant(b.txs[t]) && m < |b.txs[t].msgs.value| && Counts(b.txs[t], m)
    ensures Names(Entries(b, n), t, m)
  {
    hide MsgEntries, Counts, Names;
    var before := Entries(b, n - 1);
    if t < n - 1 {
      EveryMessageIsIndexed(b, n - 1, t, m);
      NamesGrow(before, Entries(b, n), t, m);
    } else {
      var more := MsgEntries(b.height, b.txs[t], t, |b.txs[t].msgs.value|, |before|).0;
      CountedIsNamed(b, t, |b.txs[t].msgs.value|, |before|, m);
      NamesBehind(before, more, t, m);
    }
  }

  lemma NamesBehind(before: seq<Entry>, more: seq<Entry>, t: nat, m: nat)
    requires Names(more, t, m)
    ensures Names(before + more, t, m)
  {
    var i :| 0 <= i < |more| && more[i].result.txIndex == t && more[i].result.msgIndex == m;
    assert (before + more)[|before| + i] == more[i];
  }

  lemma AppendedAreFaithful(b: Block, before: seq<Entry>, more: seq<Entry>, t: nat)
    requires Faithful(b, before) && forall i | 0 <= i < |before| :: before[i].result.txIndex < t
    requires Faithful(b, more) && forall i | 0 <= i < |more| :: more[i].result.txIndex == t
    ensures Faithful(b, before + more)
  {
    hide Truthful, Accumulates, InOrder;
    AppendedInOrder(before, more, t);
    forall i | 0 <= i < |before + more| ensures Truthful(b, (before + more)[i]) && Accumulates(before + more, i) {
      AppendedAccumulates(before, more, t, i);
    }
  }

  lemma AppendedInOrder(before: seq<Entry>, more: seq<Entry>, t: nat)
    requires InOrder(before) && forall i | 0 <= i < |before| :: before[i].result.txIndex < t
    requires InOrder(more) && forall i | 0 <= i < |more| :: more[i].result.txIndex == t
    ensures InOrder(before + more)
  {
  }

  lemma AppendedAccumulates(before: seq<Entry>, more: seq<Entry>, t: nat, i: nat)
    requires i < |before + more| && forall j | 0 <= j < |before| :: before[j].result.txIndex < t
    requires forall j | 0 <= j < |more| :: more[j].result.txIndex == t
    requires if i < |before| then Accumulates(before, i) else Accumulates(more, i - |before|)
    ensures Accumulates(before + more, i)
  {
    hide Wrap64;
  }

  /**
   Message m of tx t is indexed exactly if the tx was not dropped for its code, decodes, is
   an eth tx and has readable events, and, when it succeeded, the message has an event.
   */
  lemma IndexedIff(b: Block, t: nat, m: nat)
    requires t < |b.txs|
    ensures Names(AllEntries(b), t, m) <==>
            var tx := b.txs[t];
            && tx.code != OtherFailure && tx.msgs.Some? && tx.isEth && tx.events.Some? && m < |tx.msgs.value|
            && (tx.code == CodeOk ==> m < |tx.events.value|)
  {
    EntriesAreFaithful(b, |b.txs|);
    if Names(AllEntries(b), t, m) {
      var i :| 0 <= i < |AllEntries(b)| && AllEntries(b)[i].result.txIndex == t && AllEntries(b)[i].result.msgIndex == m;
      assert Truthful(b, AllEntries(b)[i]);
    }
    if Relevant(b.txs[t]) && m < |b.txs[t].msgs.value| && Counts(b.txs[t], m) {
      EveryMessageIsIndexed(b, |b.txs|, t, m);
    }
  }

  /**
   What an entry says: the message's hash; for a tx that succeeded the gas and the outcome of
   the message's event, for one that failed as expected the gas limit and failure.
   */
  lemma EntrySays(b: Block, i: nat)
    requires i < |AllEntries(b)|
    ensures var e := AllEntries(b)[i];
            && e.result.txIndex < |b.txs| && e.result.height == b.height && e.result.ethTxIndex == i
            && var tx, m := b.txs[e.result.txIndex], e.result.msgIndex;
               && tx.msgs.Some? && m < |tx.msgs.value| && e.hash == tx.msgs.value[m].hash
               && (tx.code == CodeOk ==>
                     && tx.events.Some? && m < |tx.events.value|
                     && e.result.gasUsed == tx.events.value[m].gasUsed && e.result.failed == tx.events.value[m].failed)
               && (tx.code != CodeOk ==> e.result.gasUsed == tx.msgs.value[m].gas && e.result.failed)
  {
    EntriesAreFaithful(b, |b.txs|);
    EntriesAreNumbered(b, |b.txs|);
    assert Truthful(b, AllEntries(b)[i]);
  }

  datatype Value = HashValue(hash: Hash) | ResultValue(result: TxResult)

  type Database = map<Key, Value>

  /** Heights and indices that fit the key. */
  predicate Indexable(b: Block) {
    0 <= b.height < INT64_LIMIT && |AllEntries(b)| <= 0x8000_0000
  }

  predicate Storable(es: seq<Entry>) {
    forall i | 0 <= i < |es| :: 0 <= es[i].result.height < INT64_LIMIT && es[i].result.ethTxIndex < 0x8000_0000
  }

  /** saveTxResult for each entry in turn. */
  function Save(db: Database, es: seq<Entry>): Database
    requires Storable(es)
  {
    if es == [] then db
    else
      var e := es[|es| - 1];
      Save(db, es[..|es| - 1])[TxHashKey(e.hash) := ResultValue(e.result)]
                              [TxIndexKey(e.result.height, e.result.ethTxIndex) := HashValue(e.hash)]
  }

  lemma EntriesAreStorable(b: Block)
    requires Indexable(b)
    ensures Storable(AllEntries(b))
  {
    EntriesAreNumbered(b, |b.txs|);
  }

  function Index(db: Database, b: Block): Database
    requires Indexable(b)
  {
    EntriesAreStorable(b);
    Save(db, AllEntries(b))
  }

  function IndexAll(blocks: seq<Block>): Database
    requires forall i | 0 <= i < |blocks| :: Indexable(blocks[i])
  {
    if blocks == [] then map[] else Index(IndexAll(blocks[..|blocks| - 1]), blocks[|blocks| - 1])
  }

  /** The inner loop of IndexBlock, over the messages of one tx. */
  method IndexMsgs(height: int, tx: BlockTx, txIndex: nat, first: nat) returns (es: seq<Entry>)
    requires Relevant(tx)
    ensures es == MsgEntries(height, tx, txIndex, |tx.msgs.value|, first).0
  {
    es := [];
    var cumulativeGasUsed := 0;
    var ethTxIndex := first;
    for m := 0 to |tx.msgs.value|
      invariant (es, cumulativeGasUsed) == MsgEntries(height, tx, txIndex, m, first) && ethTxIndex == first + |es|
    {
      var msg := tx.msgs.value[m];
      var gasUsed, failed := msg.gas, true;
      if tx.code.CodeOk? {
        if m >= |tx.events.value| {
          continue;
        }
        gasUsed, failed := tx.events.value[m].gasUsed, tx.events.value[m].failed;
      }
      cumulativeGasUsed := Wrap64(cumulativeGasUsed + gasUsed);
      es := es + [Entry(msg.hash, TxResult(height, txIndex, m, ethTxIndex, gasUsed, failed, cumulativeGasUsed))];
      ethTxIndex := ethTxIndex + 1;
    }
  }

  /** IndexBlock: collects the batch and writes it. */
  method IndexBlock(db: Database, b: Block) returns (r: Database)
    requires Indexable(b)
    ensures r == Index(db, b)
  {
    var es: seq<Entry> := [];
    for t := 0 to |b.txs|
      invariant es == Entries(b, t)
    {
      var tx := b.txs[t];
      if tx.code.OtherFailure? {
        continue;
      }
      if tx.msgs.None? {
        continue;
      }
      if !tx.isEth {
        continue;
      }
      if tx.events.None? {
        continue;
      }
      var more := IndexMsgs(b.height, b.txs[t], t, |es|);
      es := es + more;
    }
    EntriesAreStorable(b);
    r := db;
    for i := 0 to |es|
      invariant r == Save(db, es[..i])
    {
      assert es[..i + 1][..i] == es[..i];
      r := r[TxHashKey(es[i].hash) := ResultValue(es[i].result)];
      r := r[TxIndexKey(es[i].result.height, es[i].result.ethTxIndex) := HashValue(es[i].hash)];
    }
    assert es[..|es|] == es;
  }

  // ---------- Lookups ----------

  function GetByTxHash(db: Database, hash: Hash): Result<TxResult, Error> {
    if TxHashKey(hash) in db && db[TxHashKey(hash)].ResultValue? then Ok(db[TxHashKey(hash)].result) else Err(NotFound)
  }

  function GetByBlockAndIndex(db: Database, height: int, index: int): Result<TxResult, Error>
    requires IsInt64(height) && IsInt32(index)
  {
    var key := TxIndexKey(height, index);
    if key in db && db[key].HashValue? then GetByTxHash(db, db[key].hash) else Err(NotFound)
  }

  lemma KeysDoNotClash(hash: Hash, height: int, index: int)
    requires IsInt64(height) && IsInt32(index)
    ensures TxHashKey(hash) != TxIndexKey(height, index)
  {
    KeyParts(height, index);
    assert TxHashKey(hash)[0] == 1;
  }

  lemma TxHashKeyIsInjective(a: Hash, b: Hash)
    requires TxHashKey(a) == TxHashKey(b)
    ensures a == b
  {
    assert TxHashKey(a)[1..] == a && TxHashKey(b)[1..] == b;
  }

  /** The last entry with this hash. */
  function LastWith(es: seq<Entry>, hash: Hash): (r: Option<nat>)
    ensures r.Some? ==> r.value < |es| && es[r.value].hash == hash && forall j | r.value < j < |es| :: es[j].hash != hash
    ensures r.None? ==> forall j | 0 <= j < |es| :: es[j].hash != hash
  {
    if es == [] then None
    else if es[|es| - 1].hash == hash then Some(|es| - 1)
    else LastWith(es[..|es| - 1], hash)
  }

  predicate IsAt(e: Entry, h: int, i: int) {
    e.result.height == h && e.result.ethTxIndex == i
  }

  /** The last entry for this height and index. */
  function LastAt(es: seq<Entry>, h: int, i: int): (r: Option<nat>)
    ensures r.Some? ==> r.value < |es| && IsAt(es[r.value], h, i) && forall j | r.value < j < |es| :: !IsAt(es[j], h, i)
    ensures r.None? ==> forall j | 0 <= j < |es| :: !IsAt(es[j], h, i)
  {
    if es == [] then None
    else if IsAt(es[|es| - 1], h, i) then Some(|es| - 1)
    else LastAt(es[..|es| - 1], h, i)
  }

  /** What saving does to an index key: the last entry for it wins. */
  lemma {:induction false} SavedIndexKey(db: Database, es: seq<Entry>, h: int, i: int)
    requires Storable(es) && IsInt64(h) && IsInt32(i)
    ensures var key, r, last := TxIndexKey(h, i), Save(db, es), LastAt(es, h, i);
            if last.Some? then key in r && r[key] == HashValue(es[last.value].hash)
            else (key in r <==> key in db) && (key in r ==> r[key] == db[key])
  {
    if es != [] {
      var e := es[|es| - 1];
      SavedIndexKey(db, es[..|es| - 1], h, i);
      KeysDoNotClash(e.hash, h, i);
      if TxIndexKey(h, i) == TxIndexKey(e.result.height, e.result.ethTxIndex) {
        TxIndexKeyIsInjective(h, i, e.result.height, e.result.ethTxIndex);
      }
    }
  }

  /** What saving does to a hash key: the last entry with the hash wins. */
  lemma {:induction false} SavedHashKey(db: Database, es: seq<Entry>, hash: Hash)
    requires Storable(es)
    ensures var key, r, last := TxHashKey(hash), Save(db, es), LastWith(es, hash);
            if last.Some? then key in r && r[key] == ResultValue(es[last.value].result)
            else (key in r <==> key in db) && (key in r ==> r[key] == db[key])
  {
    if es != [] {
      var e := es[|es| - 1];
      SavedHashKey(db, es[..|es| - 1], hash);
      KeysDoNotClash(hash, e.result.height, e.result.ethTxIndex);
      if TxHashKey(e.hash) == TxHashKey(hash) {
        TxHashKeyIsInjective(e.hash, hash);
      }
    }
  }

  // ---------- Over any sequence of indexed blocks ----------

  ghost predicate AllIndexable(blocks: seq<Block>) {
    forall p | 0 <= p < |blocks| :: Indexable(blocks[p])
  }

  /** All entries in the order in which they were saved. */
  function Log(blocks: seq<Block>): seq<Entry> {
    if blocks == [] then [] else Log(blocks[..|blocks| - 1]) + AllEntries(blocks[|blocks| - 1])
  }

  /** Indexing block by block is saving the log. */
  lemma {:induction false} IndexAllSavesLog(blocks: seq<Block>)
    requires AllIndexable(blocks)
    ensures Storable(Log(blocks)) && IndexAll(blocks) == Save(map[], Log(blocks))
  {
    if blocks != [] {
      hide AllEntries, Save, Indexable;
      var n := |blocks| - 1;
      IndexAllSavesLog(blocks[..n]);
      EntriesAreStorable(blocks[n]);
      SaveConcat(map[], Log(blocks[..n]), AllEntries(blocks[n]));
    } else {
      assert Save(map[], []) == map[];
    }
  }

  lemma {:induction false} SaveConcat(db: Database, a: seq<Entry>, b: seq<Entry>)
    requires Storable(a) && Storable(b)
    ensures Storable(a + b) && Save(Save(db, a), b) == Save(db, a + b)
  {
    hide TxHashKey, TxIndexKey;
    if b == [] {
      assert a + b == a;
    } else {
      SaveConcat(db, a, b[..|b| - 1]);
      assert (a + b)[..|a + b| - 1] == a + b[..|b| - 1];
    }
  }

  /** Where entry k of block p stands in the log. */
  function LogIndex(blocks: seq<Block>, p: nat, k: nat): nat
    requires p < |blocks|
  {
    |Log(blocks[..p])| + k
  }

  lemma {:induction false} LogAt(blocks: seq<Block>, p: nat, k: nat)
    requires p < |blocks| && k < |AllEntries(blocks[p])|
    ensures LogIndex(blocks, p, k) < |Log(blocks)| && Log(blocks)[LogIndex(blocks, p, k)] == AllEntries(blocks[p])[k]
    ensures IsAt(Log(blocks)[LogIndex(blocks, p, k)], blocks[p].height, k)
  {
    EntriesAreNumbered(blocks[p], |blocks[p].txs|);
    hide AllEntries;
    var n := |blocks| - 1;
    if p < n {
      assert blocks[..n][..p] == blocks[..p] && blocks[..n][p] == blocks[p];
      LogAt(blocks[..n], p, k);
    }
  }

  lemma {:induction false} FromLog(blocks: seq<Block>, j: nat) returns (p: nat, k: nat)
    requires j < |Log(blocks)|
    ensures p < |blocks| && k < |AllEntries(blocks[p])| && j == LogIndex(blocks, p, k)
  {
    hide AllEntries;
    var n := |blocks| - 1;
    if j >= |Log(blocks[..n])| {
      p, k := n, j - |Log(blocks[..n])|;
    } else {
      p, k := FromLog(blocks[..n], j);
      assert blocks[..n][..p] == blocks[..p] && blocks[..n][p] == blocks[p];
    }
  }

  /** Some block of this height has an eth tx with this index. */
  ghost predicate Has(blocks: seq<Block>, h: int, i: int) {
    exists p :: 0 <= p < |blocks| && blocks[p].height == h && 0 <= i < |AllEntries(blocks[p])|
  }

  lemma HasIffLogged(blocks: seq<Block>, h: int, i: int)
    ensures Has(blocks, h, i) <==> LastAt(Log(blocks), h, i).Some?
  {
    hide AllEntries, Log;
    if Has(blocks, h, i) {
      var p :| 0 <= p < |blocks| && blocks[p].height == h && 0 <= i < |AllEntries(blocks[p])|;
      LogAt(blocks, p, i);
    }
    if LastAt(Log(blocks), h, i).Some? {
      var p, k := FromLog(blocks, LastAt(Log(blocks), h, i).value);
      LogAt(blocks, p, k);
    }
  }

  /** The index keys in the database are exactly those of the indexed txs. */
  lemma IndexKeysAreExact(blocks: seq<Block>, h: int, i: int)
    requires AllIndexable(blocks) && IsInt64(h) && IsInt32(i)
    ensures TxIndexKey(h, i) in IndexAll(blocks) <==> Has(blocks, h, i)
  {
    hide TxIndexKey, Has, Log, Save, IndexAll;
    IndexAllSavesLog(blocks);
    SavedIndexKey(map[], Log(blocks), h, i);
    HasIffLogged(blocks, h, i);
  }

  /** After any run, looking up a hash gives the result saved last for it, and nothing else. */
  lemma HashLookupIsLatest(blocks: seq<Block>, hash: Hash)
    requires AllIndexable(blocks)
    ensures var log := Log(blocks);
            GetByTxHash(IndexAll(blocks), hash) ==
            match LastWith(log, hash) case None => Err(NotFound) case Some(j) => Ok(log[j].result)
  {
    hide TxHashKey, Log, Save, IndexAll;
    IndexAllSavesLog(blocks);
    SavedHashKey(map[], Log(blocks), hash);
  }

  /**
   After any run, blocks indexed twice included, looking up (height, k) finds the entry saved
   last for it exactly if no entry saved later has its hash, and finds nothing if there is none.
   */
  lemma LookupIsExactIff(blocks: seq<Block>, h: int, k: int)
    requires AllIndexable(blocks) && IsInt64(h) && IsInt32(k)
    ensures var log, found := Log(blocks), GetByBlockAndIndex(IndexAll(blocks), h, k);
            match LastAt(log, h, k)
            case None => found == Err(NotFound)
            case Some(j) =>
              && found == GetByTxHash(IndexAll(blocks), log[j].hash)
              && (found == Ok(log[j].result) <==> forall i | j < i < |log| :: log[i].hash != log[j].hash)
  {
    hide TxIndexKey, TxHashKey, Log, Save, IndexAll;
    IndexAllSavesLog(blocks);
    SavedIndexKey(map[], Log(blocks), h, k);
    var last := LastAt(Log(blocks), h, k);
    if last.Some? {
      HashLookupIsLatest(blocks, Log(blocks)[last.value].hash);
    }
  }

  /** Block p's k-th entry is the one saved last for it exactly if no later block of that height has so many. */
  lemma BlockEntryIsLastIff(blocks: seq<Block>, p: nat, k: nat)
    requires p < |blocks| && k < |AllEntries(blocks[p])|
    ensures LastAt(Log(blocks), blocks[p].height, k) == Some(LogIndex(blocks, p, k)) <==>
            forall q | p < q < |blocks| && blocks[q].height == blocks[p].height :: |AllEntries(blocks[q])| <= k
  {
    hide AllEntries, Log, LogIndex;
    LogAt(blocks, p, k);
    var last := LastAt(Log(blocks), blocks[p].height, k).value;
    var q, l := FromLog(blocks, last);
    LogAt(blocks, q, l);
    LaterInLog(blocks, p, k, q, l);
    forall r | p < r < |blocks| && blocks[r].height == blocks[p].height && k < |AllEntries(blocks[r])|
      ensures LogIndex(blocks, p, k) < last
    {
      LogAt(blocks, r, k);
      LaterInLog(blocks, p, k, r, k);
    }
  }

  /** Positions in the log follow blocks. */
  lemma LaterInLog(blocks: seq<Block>, p: nat, k: nat, q: nat, l: nat)
    requires p < |blocks| && k < |AllEntries(blocks[p])| && q < |blocks| && l < |AllEntries(blocks[q])|
    ensures p < q ==> LogIndex(blocks, p, k) < LogIndex(blocks, q, l)
    ensures q < p ==> LogIndex(blocks, q, l) < LogIndex(blocks, p, k)
  {
    hide AllEntries;
    if p < q { LogGrows(blocks, p, q); }
    if q < p { LogGrows(blocks, q, p); }
  }

  lemma {:induction false} LogGrows(blocks: seq<Block>, p: nat, q: nat)
    requires p < q <= |blocks|
    ensures |Log(blocks[..p])| + |AllEntries(blocks[p])| <= |Log(blocks[..q])|
    decreases q
  {
    hide AllEntries;
    assert blocks[..q][..q - 1] == blocks[..q - 1] && blocks[..q][q - 1] == blocks[q - 1];
    if p < q - 1 { LogGrows(blocks, p, q - 1); }
  }

  function OneTxBlock(height: nat): Block {
    Block(height, [BlockTx(CodeOk, Some([EthMsg([7], 21000)]), true, Some([ParsedTx(21000, false)]))])
  }

  /** The same tx in blocks 1 and 2: looking it up in block 1 finds the result of block 2. */
  lemma RepeatedHashHidesFirst()
    ensures var blocks := [OneTxBlock(1), OneTxBlock(2)];
            && AllIndexable(blocks) && |AllEntries(blocks[0])| == 1
            && GetByBlockAndIndex(IndexAll(blocks), 1, 0) != Ok(AllEntries(blocks[0])[0].result)
  {
    var blocks := [OneTxBlock(1), OneTxBlock(2)];
    OneEntry(1);
    OneEntry(2);
    hide AllEntries, OneTxBlock, Log, LogIndex;
    LookupIsExactIff(blocks, 1, 0);
    LogAt(blocks, 0, 0);
    LogAt(blocks, 1, 0);
    LaterInLog(blocks, 0, 0, 1, 0);
    BlockEntryIsLastIff(blocks, 0, 0);
  }

  lemma OneEntry(height: nat)
    ensures |AllEntries(OneTxBlock(height))| == 1 && AllEntries(OneTxBlock(height))[0].hash == [7]
    ensures OneTxBlock(height).height == height
  {
    var b := OneTxBlock(height);
    assert MsgEntries(height, b.txs[0], 0, 0, 0) == ([], 0);
    assert Entries(b, 0) == [];
  }

  // ---------- First and last block ----------

  predicate InRange(key: Key, lo: Key, hi: Key) {
    !KeyLess(key, lo) && KeyLess(key, hi)
  }

  /** Where an iterator over [lo, hi) starts: at the least key in the range, or the greatest if reversed. */
  method EdgeKey(db: Database, lo: Key, hi: Key, reverse: bool) returns (r: Option<Key>)
    ensures r.None? ==> forall k | k in db :: !InRange(k, lo, hi)
    ensures r.Some? ==> IsEdge(db, lo, hi, reverse, r.value)
  {
    r := None;
    var todo := db.Keys;
    ghost var seen: set<Key> := {};
    while todo != {}
      invariant todo + seen == db.Keys
      invariant r.None? ==> forall k | k in seen :: !InRange(k, lo, hi)
      invariant r.Some? ==> r.value in seen && InRange(r.value, lo, hi)
                            && forall k | k in seen && InRange(k, lo, hi) :: NotBeyond(k, r.value, reverse)
      decreases todo
    {
      hide InRange, KeyLess;
      var key :| key in todo;
      KeyLessIsTotal(key, key);
      if InRange(key, lo, hi) && (r.None? || (if reverse then KeyLess(r.value, key) else KeyLess(key, r.value))) {
        forall k | k in seen && InRange(k, lo, hi) ensures NotBeyond(k, key, reverse) {
          NotBeyondIsTransitive(k, r.value, key, reverse);
        }
        r := Some(key);
      } else if r.Some? {
        KeyLessIsTotal(key, r.value);
      }
      todo, seen := todo - {key}, seen + {key};
    }
  }

  predicate NotBeyond(k: Key, edge: Key, reverse: bool) {
    if reverse then !KeyLess(edge, k) else !KeyLess(k, edge)
  }

  lemma NotBeyondIsTransitive(k: Key, edge: Key, further: Key, reverse: bool)
    requires NotBeyond(k, edge, reverse)
    requires if reverse then KeyLess(edge, further) else KeyLess(further, edge)
    ensures NotBeyond(k, further, reverse)
  {
    hide KeyLess;
    KeyLessIsTotal(edge, k);
    KeyLessIsTotal(further, k);
    KeyLessIsTotal(further, edge);
    if reverse && KeyLess(further, k) { KeyLessIsTransitive(edge, further, k); }
    if !reverse && KeyLess(k, further) { KeyLessIsTransitive(k, further, edge); }
  }

  ghost predicate IsEdge(db: Database, lo: Key, hi: Key, reverse: bool, edge: Key) {
    edge in db && InRange(edge, lo, hi) && forall k | k in db && InRange(k, lo, hi) :: NotBeyond(k, edge, reverse)
  }

  /** LoadFirstBlock and, reversed, LoadLastBlock: -1 if no tx is indexed. */
  method LoadEdgeBlock(db: Database, reverse: bool) returns (r: Result<int, Error>)
    ensures (exists key :: IsEdge(db, [2], [3], reverse, key) && r == HeightOf(key))
            || (r == Ok(-1) && forall k | k in db :: !InRange(k, [2], [3]))
  {
    var key := EdgeKey(db, [2], [3], reverse);
    if key.None? {
      return Ok(-1);
    }
    return HeightOf(key.value);
  }

  lemma IndexRange(key: Key)
    ensures InRange(key, [2], [3]) <==> key != [] && key[0] == 2
  {
    var lo: Key, hi: Key := [2], [3];
    assert lo[1..] == [] && hi[1..] == [];
    assert key != [] ==> !KeyLess(key[1..], lo[1..]) && !KeyLess(key[1..], hi[1..]);
  }

  /** Every key of the database in the range of index keys is the index key of an indexed tx. */
  lemma KeysAreKnown(blocks: seq<Block>, key: Key)
    requires AllIndexable(blocks) && key in IndexAll(blocks) && key != [] && key[0] == 2
    ensures exists h, i :: Has(blocks, h, i) && 0 <= h && IsInt64(h) && 0 <= i && IsInt32(i) && key == TxIndexKey(h, i)
  {
    hide Log, Save, IndexAll, TxIndexKey, Has;
    IndexAllSavesLog(blocks);
    var j := SavedKeyIsOwn(Log(blocks), key);
    var r := Log(blocks)[j].result;
    assert IsAt(Log(blocks)[j], r.height, r.ethTxIndex);
    HasIffLogged(blocks, r.height, r.ethTxIndex);
  }

  lemma {:induction false} SavedKeyIsOwn(es: seq<Entry>, key: Key) returns (j: nat)
    requires Storable(es) && key in Save(map[], es) && key != [] && key[0] == 2
    ensures j < |es| && key == TxIndexKey(es[j].result.height, es[j].result.ethTxIndex)
  {
    var n := |es| - 1;
    assert TxHashKey(es[n].hash)[0] == 1;
    if key == TxIndexKey(es[n].result.height, es[n].result.ethTxIndex) {
      j := n;
    } else {
      j := SavedKeyIsOwn(es[..n], key);
    }
  }

  /**
   Over any sequence of indexed blocks, the first and the last indexed block are the true
   minimum and maximum of the heights that have an eth tx.
   */
  lemma EdgeIsExtreme(blocks: seq<Block>, reverse: bool, key: Key)
    requires AllIndexable(blocks) && IsEdge(IndexAll(blocks), [2], [3], reverse, key)
    ensures exists h, i :: HeightOf(key) == Ok(h) && Has(blocks, h, i)
              && forall h', i' | Has(blocks, h', i') :: if reverse then h' <= h else h <= h'
  {
    IndexRange(key);
    KeysAreKnown(blocks, key);
    var h, i :| Has(blocks, h, i) && 0 <= h && IsInt64(h) && 0 <= i && IsInt32(i) && key == TxIndexKey(h, i);
    HeightParsesBack(h, i);
    forall h', i' | Has(blocks, h', i') ensures if reverse then h' <= h else h <= h' {
      var p :| 0 <= p < |blocks| && blocks[p].height == h' && 0 <= i' < |AllEntries(blocks[p])|;
      assert Indexable(blocks[p]);
      IndexKeysAreExact(blocks, h', i');
      KeyParts(h', i');
      IndexRange(TxIndexKey(h', i'));
      assert NotBeyond(TxIndexKey(h', i'), key, reverse);
      TxIndexKeyKeepsOrder(h, i, h', i');
      TxIndexKeyKeepsOrder(h', i', h, i);
    }
  }

  /** Minus one means that nothing is indexed. */
  lemma NoEdgeNoTxs(blocks: seq<Block>, h: int, i: int)
    requires AllIndexable(blocks) && forall k | k in IndexAll(blocks) :: !InRange(k, [2], [3])
    ensures !Has(blocks, h, i)
  {
    if Has(blocks, h, i) {
      var p :| 0 <= p < |blocks| && blocks[p].height == h && 0 <= i < |AllEntries(blocks[p])|;
      assert Indexable(blocks[p]);
      IndexKeysAreExact(blocks, h, i);
      KeyParts(h, i);
      IndexRange(TxIndexKey(h, i));
    }
  }
}
