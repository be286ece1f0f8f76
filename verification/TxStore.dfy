/**
 The per-height store of rechecked Cosmos txs, mempool/tx_store.go: buckets of txs
 with the same signer set, kept in nonce order, with invalidation after a replacement.
 */
module TxStore {
  import opened Prelude
  import opened Strings

  predicate IsHex(s: string) {
    s != [] && forall i | 0 <= i < |s| :: '0' <= s[i] <= '9' || 'A' <= s[i] <= 'F'
  }

  /** An account is the upper-case hexadecimal form of an address. */
  type Account = s: string | IsHex(s) witness "0"
  type Nonce = n: nat | n < UINT64_LIMIT

  datatype SignerNonce = SignerNonce(account: Account, nonce: Nonce)
  datatype Coin = Coin(denom: string, amount: nat)
  datatype Fee = Fee(coins: seq<Coin>, gas: nat)

  /**
   A Cosmos tx: its signers with the nonces chosen for them (None if they cannot be
   extracted), and its fee (None if it is not a fee tx).
   */
  datatype SdkTx = SdkTx(id: nat, signers: Option<seq<SignerNonce>>, fee: Option<Fee>)

  datatype StoredTx = StoredTx(tx: SdkTx, nonceMap: map<string, nat>, nonceSum: nat, signerKey: string, txKey: string)

  datatype Bucket = Bucket(txs: seq<StoredTx>, signers: set<string>)

  const UNKEYED := "unkeyed"

  // ---------- Keys ----------

  function NonceMap(sigs: seq<SignerNonce>): map<string, nat> {
    if sigs == [] then map[]
    else NonceMap(sigs[..|sigs| - 1])[sigs[|sigs| - 1].account := sigs[|sigs| - 1].nonce]
  }

  function NoncesOf(tx: SdkTx): map<string, nat> {
    if tx.signers.None? then map[] else NonceMap(tx.signers.value)
  }

  /** "account/nonce", the nonce with twenty digits. */
  function KeyPart(account: string, nonce: nat): string {
    account + "/" + Padded(nonce, 20)
  }

  function KeyParts(accounts: seq<string>, nonces: map<string, nat>): seq<string>
    requires forall i | 0 <= i < |accounts| :: accounts[i] in nonces
  {
    seq(|accounts|, i requires 0 <= i < |accounts| => KeyPart(accounts[i], nonces[accounts[i]]))
  }

  function Total(accounts: seq<string>, nonces: map<string, nat>): nat
    requires forall i | 0 <= i < |accounts| :: accounts[i] in nonces
  {
    if accounts == [] then 0 else nonces[accounts[0]] + Total(accounts[1..], nonces)
  }

  ghost function SignerSetKey(nonces: map<string, nat>): string {
    Join(Sorted(nonces.Keys), '|')
  }

  ghost function TxKey(nonces: map<string, nat>): string {
    InKeys(nonces);
    Join(KeyParts(Sorted(nonces.Keys), nonces), '|')
  }

  /** The sum of the nonces, unbounded; the store keeps it modulo 2^64. */
  ghost function NonceTotal(nonces: map<string, nat>): nat {
    InKeys(nonces);
    Total(Sorted(nonces.Keys), nonces)
  }

  lemma InKeys(nonces: map<string, nat>)
    ensures forall i | 0 <= i < |Sorted(nonces.Keys)| :: Sorted(nonces.Keys)[i] in nonces
  {
    forall i | 0 <= i < |Sorted(nonces.Keys)| ensures Sorted(nonces.Keys)[i] in nonces {
      assert Sorted(nonces.Keys)[i] in Sorted(nonces.Keys);
    }
  }

  /** newCosmosTxWithMetadata: a tx without readable signers keeps empty keys. */
  ghost function Metadata(tx: SdkTx): StoredTx {
    var m := NoncesOf(tx);
    if m == map[] then StoredTx(tx, map[], 0, "", "")
    else StoredTx(tx, m, Wrap64(NonceTotal(m)), SignerSetKey(m), TxKey(m))
  }

  /** What the keys rely on: addresses are non-empty and free of the separator, nonces are uint64. */
  predicate GoodNonces(nonces: map<string, nat>) {
    forall a | a in nonces :: a != [] && '|' !in a && a != UNKEYED && nonces[a] < UINT64_LIMIT
  }

  lemma {:induction false} NonceMapIsGood(sigs: seq<SignerNonce>)
    ensures GoodNonces(NonceMap(sigs))
  {
    if sigs != [] {
      NonceMapIsGood(sigs[..|sigs| - 1]);
      HexIsGood(sigs[|sigs| - 1].account);
    }
  }

  /** An account that signs more than once counts with its last nonce; the accounts are the signers. */
  lemma {:induction false} NonceIsLast(sigs: seq<SignerNonce>, i: nat)
    requires i < |sigs| && forall j | i < j < |sigs| :: sigs[j].account != sigs[i].account
    ensures sigs[i].account in NonceMap(sigs) && NonceMap(sigs)[sigs[i].account] == sigs[i].nonce
    ensures forall a | a in NonceMap(sigs) :: exists j :: 0 <= j < |sigs| && sigs[j].account == a
  {
    var n := |sigs| - 1;
    if i < n {
      NonceIsLast(sigs[..n], i);
    }
    AccountsSign(sigs);
  }

  lemma {:induction false} AccountsSign(sigs: seq<SignerNonce>)
    ensures forall a | a in NonceMap(sigs) :: exists j :: 0 <= j < |sigs| && sigs[j].account == a
  {
    if sigs != [] {
      var n := |sigs| - 1;
      AccountsSign(sigs[..n]);
      forall a | a in NonceMap(sigs) ensures exists j :: 0 <= j < |sigs| && sigs[j].account == a {
        if a in NonceMap(sigs[..n]) {
          var j :| 0 <= j < n && sigs[..n][j].account == a;
          assert sigs[j].account == a;
        } else {
          assert sigs[n].account == a;
        }
      }
    }
  }

  lemma HexIsGood(a: Account)
    ensures a != [] && '|' !in a && a != UNKEYED
  {
    assert UNKEYED[0] == 'u';
  }

  /** Every tx has what the keys rely on. */
  lemma NoncesAreGood(tx: SdkTx)
    ensures GoodNonces(NoncesOf(tx))
  {
    if tx.signers.Some? { NonceMapIsGood(tx.signers.value); }
  }

  lemma Twenty()
    ensures UINT64_LIMIT <= Pow10(20)
  {
    assert Pow10(5) == 100000;
    assert Pow10(10) == 10000000000;
    assert Pow10(15) == 1000000000000000;
    assert Pow10(20) == 100000000000000000000;
  }

  lemma AccountsSeparable(nonces: map<string, nat>)
    requires GoodNonces(nonces)
    ensures Separable(Sorted(nonces.Keys), '|')
  {
    InKeys(nonces);
  }

  lemma PartsSeparable(nonces: map<string, nat>, accounts: seq<string>)
    requires GoodNonces(nonces) && forall i | 0 <= i < |accounts| :: accounts[i] in nonces
    ensures Separable(KeyParts(accounts, nonces), '|')
  {
    forall i | 0 <= i < |accounts| ensures KeyPart(accounts[i], nonces[accounts[i]]) != []
                                   ensures '|' !in KeyPart(accounts[i], nonces[accounts[i]])
    {
      Twenty();
      PaddedReads(nonces[accounts[i]], 20);
    }
  }

  lemma KeyPartIsInjective(a: string, m: nat, b: string, n: nat)
    requires m < UINT64_LIMIT && n < UINT64_LIMIT && KeyPart(a, m) == KeyPart(b, n)
    ensures a == b && m == n
  {
    Twenty();
    PaddedReads(m, 20);
    PaddedReads(n, 20);
    var s := KeyPart(a, m);
    assert s[..|s| - 21] == a && s[..|s| - 21] == b;
    assert s[|s| - 20..] == Padded(m, 20) && s[|s| - 20..] == Padded(n, 20);
  }

  /** The bucket key determines the signer set. */
  lemma SignerSetKeyIsInjective(m: map<string, nat>, n: map<string, nat>)
    requires GoodNonces(m) && GoodNonces(n) && SignerSetKey(m) == SignerSetKey(n)
    ensures m.Keys == n.Keys
  {
    AccountsSeparable(m);
    AccountsSeparable(n);
    JoinIsInjective(Sorted(m.Keys), Sorted(n.Keys), '|');
    forall k ensures k in m.Keys <==> k in n.Keys {
      assert k in Sorted(m.Keys) <==> k in m.Keys;
    }
  }

  /** The tx key determines every signer and nonce. */
  lemma TxKeyIsInjective(m: map<string, nat>, n: map<string, nat>)
    requires GoodNonces(m) && GoodNonces(n) && TxKey(m) == TxKey(n)
    ensures m == n
  {
    InKeys(m);
    InKeys(n);
    var a, b := Sorted(m.Keys), Sorted(n.Keys);
    var p, q := KeyParts(a, m), KeyParts(b, n);
    PartsSeparable(m, a);
    PartsSeparable(n, b);
    JoinIsInjective(p, q, '|');
    assert |a| == |b|;
    forall i | 0 <= i < |a| ensures a[i] == b[i] && m[a[i]] == n[a[i]] {
      assert p[i] == q[i];
      KeyPartIsInjective(a[i], m[a[i]], b[i], n[b[i]]);
    }
    assert a == b;
    SameLookups(m, n, a);
  }

  lemma SameLookups(m: map<string, nat>, n: map<string, nat>, a: seq<string>)
    requires Enumerates(a, m.Keys) && Enumerates(a, n.Keys)
    requires forall i | 0 <= i < |a| :: a[i] in m && a[i] in n && m[a[i]] == n[a[i]]
    ensures m == n
  {
    forall k | k in m ensures k in n && m[k] == n[k] {
      assert k in m.Keys;
      assert k in a;
    }
    forall k | k in n ensures k in m {
      assert k in n.Keys;
      assert k in a;
    }
  }

  function JoinRest(parts: seq<string>, sep: char): string
    requires parts != []
  {
    if |parts| == 1 then [] else [sep] + Join(parts[1..], sep)
  }

  lemma JoinStep(parts: seq<string>, sep: char)
    requires parts != []
    ensures Join(parts, sep) == parts[0] + JoinRest(parts, sep)
  {
  }

  // ---------- Order within a bucket ----------

  /** compareCosmosTxWithMetadata(a, b) < 0 */
  predicate Precedes(a: StoredTx, b: StoredTx) {
    a.nonceSum < b.nonceSum || (a.nonceSum == b.nonceSum && Before(a.txKey, b.txKey))
  }

  lemma PrecedesIsOrder(a: StoredTx, b: StoredTx, c: StoredTx)
    ensures !Precedes(a, a)
    ensures Precedes(a, b) && Precedes(b, c) ==> Precedes(a, c)
    ensures a.txKey != b.txKey ==> Precedes(a, b) || Precedes(b, a)
  {
    BeforeIsTotal(a.txKey, a.txKey);
    BeforeIsTotal(a.txKey, b.txKey);
    if Before(a.txKey, b.txKey) && Before(b.txKey, c.txKey) {
      BeforeIsTransitive(a.txKey, b.txKey, c.txKey);
    }
  }

  /** Different txs, a ordered before b. */
  predicate Follows(a: StoredTx, b: StoredTx) {
    a.txKey != b.txKey && Precedes(a, b)
  }

  ghost predicate InOrder(s: seq<StoredTx>) {
    forall i, j | 0 <= i < j < |s| :: Follows(s[i], s[j])
  }

  /** slices.SortFunc after an append, for a list whose other elements are in order already. */
  method SortAppended(s: seq<StoredTx>, t: StoredTx) returns (r: seq<StoredTx>)
    requires InOrder(s) && forall i | 0 <= i < |s| :: s[i].txKey != t.txKey
    ensures InOrder(r) && InsertedInto(s, t, r)
  {
    var i := 0;
    while i < |s| && Precedes(s[i], t)
      invariant 0 <= i <= |s| && forall j | 0 <= j < i :: Follows(s[j], t)
    {
      i := i + 1;
    }
    forall j | i <= j < |s| ensures Follows(t, s[j]) {
      PrecedesIsOrder(s[i], t, t);
      PrecedesIsOrder(t, s[i], s[j]);
      assert i < j ==> Follows(s[i], s[j]);
    }
    r := s[..i] + [t] + s[i..];
    hide Follows;
    assert InOrder(r);
  }

  /** Same signers, and no nonce higher. */
  ghost predicate LowerNonces(a: map<string, nat>, b: map<string, nat>) {
    a.Keys == b.Keys && a != b && forall k | k in a :: a[k] <= b[k]
  }

  lemma {:induction false} LowerTotals(accounts: seq<string>, a: map<string, nat>, b: map<string, nat>)
    requires forall i | 0 <= i < |accounts| :: accounts[i] in a && accounts[i] in b && a[accounts[i]] <= b[accounts[i]]
    ensures Total(accounts, a) <= Total(accounts, b)
    ensures (exists i :: 0 <= i < |accounts| && a[accounts[i]] != b[accounts[i]]) ==> Total(accounts, a) < Total(accounts, b)
  {
    if accounts != [] {
      LowerTotals(accounts[1..], a, b);
      if a[accounts[0]] == b[accounts[0]] && exists i :: 0 <= i < |accounts| && a[accounts[i]] != b[accounts[i]] {
        var i :| 0 <= i < |accounts| && a[accounts[i]] != b[accounts[i]];
        assert accounts[1..][i - 1] == accounts[i];
      }
    }
  }

  lemma LowerNoncesLowerTotal(a: map<string, nat>, b: map<string, nat>)
    requires LowerNonces(a, b)
    ensures NonceTotal(a) < NonceTotal(b)
  {
    var accounts := Sorted(a.Keys);
    InKeys(a);
    LowerTotals(accounts, a, b);
    var k :| k in a && a[k] != b[k];
    assert k in a.Keys;
    assert k in accounts;
  }

  lemma {:induction false} LowerNoncesLowerJoin(accounts: seq<string>, a: map<string, nat>, b: map<string, nat>)
    requires GoodNonces(a) && GoodNonces(b)
    requires forall i | 0 <= i < |accounts| :: accounts[i] in a && accounts[i] in b && a[accounts[i]] <= b[accounts[i]]
    requires exists i :: 0 <= i < |accounts| && a[accounts[i]] != b[accounts[i]]
    ensures Before(Join(KeyParts(accounts, a), '|'), Join(KeyParts(accounts, b), '|'))
  {
    hide Before, Padded;
    var p, q, k := KeyParts(accounts, a), KeyParts(accounts, b), accounts[0];
    JoinStep(p, '|');
    JoinStep(q, '|');
    assert p[1..] == KeyParts(accounts[1..], a) && q[1..] == KeyParts(accounts[1..], b);
    if a[k] < b[k] {
      Twenty();
      PaddedReads(a[k], 20);
      PaddedReads(b[k], 20);
      PaddedKeepsOrder(a[k], b[k], 20);
      BeforeInFrame(k + "/", Padded(a[k], 20), Padded(b[k], 20), JoinRest(p, '|'), JoinRest(q, '|'));
    } else {
      var i :| 0 <= i < |accounts| && a[accounts[i]] != b[accounts[i]];
      assert accounts[1..][i - 1] == accounts[i];
      LowerNoncesLowerJoin(accounts[1..], a, b);
      BeforeBehind(p[0] + "|", Join(p[1..], '|'), Join(q[1..], '|'));
    }
  }

  /** A tx with componentwise lower nonces has the earlier key. */
  lemma LowerNoncesLowerKey(a: map<string, nat>, b: map<string, nat>)
    requires LowerNonces(a, b) && GoodNonces(a) && GoodNonces(b)
    ensures Before(TxKey(a), TxKey(b))
  {
    var accounts := Sorted(a.Keys);
    InKeys(a);
    var k :| k in a && a[k] != b[k];
    assert k in a.Keys;
    assert k in accounts;
    var i :| 0 <= i < |accounts| && accounts[i] == k;
    LowerNoncesLowerJoin(accounts, a, b);
  }

  /**
   A tx with componentwise lower nonces is ordered first exactly when its stored sum,
   which wraps around at 2^64, is not the larger one; in particular whenever neither
   sum wraps.
   */
  lemma LowerNoncesComeFirst(a: SdkTx, b: SdkTx)
    requires LowerNonces(NoncesOf(a), NoncesOf(b))
    ensures Precedes(Metadata(a), Metadata(b)) <==>
            Wrap64(NonceTotal(NoncesOf(a))) <= Wrap64(NonceTotal(NoncesOf(b)))
    ensures NonceTotal(NoncesOf(b)) < UINT64_LIMIT ==> Precedes(Metadata(a), Metadata(b))
  {
    hide Wrap64, NoncesOf, NonceTotal, TxKey, SignerSetKey;
    NoncesAreGood(a);
    NoncesAreGood(b);
    LowerNoncesLowerTotal(NoncesOf(a), NoncesOf(b));
    LowerNoncesLowerKey(NoncesOf(a), NoncesOf(b));
    assert NoncesOf(a) != map[] && NoncesOf(b) != map[];
    BeforeIsTotal(TxKey(NoncesOf(a)), TxKey(NoncesOf(b)));
    if NonceTotal(NoncesOf(b)) < UINT64_LIMIT {
      Wrap64Once(NonceTotal(NoncesOf(a)));
      Wrap64Once(NonceTotal(NoncesOf(b)));
    }
  }

  /** With a sum that wraps, the tx with the lower nonces can come second. */
  lemma WrappedSumReversesOrder(a: SdkTx, b: SdkTx)
    requires a.signers == Some([SignerNonce("A", UINT64_LIMIT - 1), SignerNonce("B", 0)])
    requires b.signers == Some([SignerNonce("A", UINT64_LIMIT - 1), SignerNonce("B", 1)])
    ensures LowerNonces(NoncesOf(a), NoncesOf(b)) && !Precedes(Metadata(a), Metadata(b))
  {
    hide NonceMap, NonceTotal, GoodNonces, Metadata, Precedes, LowerNonces, Wrap64;
    TwoNonces(UINT64_LIMIT - 1, 0, a.signers.value);
    TwoNonces(UINT64_LIMIT - 1, 1, b.signers.value);
    LowerTwo(UINT64_LIMIT - 1, 0, 1);
    Wrap64Once(UINT64_LIMIT - 1);
    Wrap64Once(UINT64_LIMIT);
    LowerNoncesComeFirst(a, b);
  }

  lemma LowerTwo(x: nat, y: nat, z: nat)
    requires y < z
    ensures LowerNonces(map["A" := x, "B" := y], map["A" := x, "B" := z])
  {
    assert map["A" := x, "B" := y]["B"] != map["A" := x, "B" := z]["B"];
  }

  lemma TwoNonces(x: Nonce, y: Nonce, sigs: seq<SignerNonce>)
    requires sigs == [SignerNonce("A", x), SignerNonce("B", y)]
    ensures NonceMap(sigs) == map["A" := x, "B" := y] && NonceTotal(NonceMap(sigs)) == x + y
  {
    assert "A"[0] != "B"[0];
    assert sigs[..1] == [SignerNonce("A", x)] && sigs[..1][..0] == [];
    assert NonceMap(sigs[..1]) == map["A" := x];
    TwoNoncesTotal(x, y);
  }

  lemma TwoNoncesTotal(x: nat, y: nat)
    ensures NonceTotal(map["A" := x, "B" := y]) == x + y
  {
    var m := map["A" := x, "B" := y];
    var s := ["A", "B"];
    assert "A"[0] != "B"[0];
    assert m["A"] == x && m["B"] == y;
    assert Before("A", "B");
    assert Ascending(s) && Enumerates(s, m.Keys);
    SortedIsUnique(s, Sorted(m.Keys), m.Keys);
    assert s[1..] == ["B"] && s[1..][1..] == [];
    assert Total(s[1..], m) == y + Total(s[1..][1..], m);
    assert Total(s, m) == x + Total(s[1..], m);
  }

  // ---------- The store ----------

  function UnkeyedKey(n: nat): string {
    "unkeyed/" + Decimal(n)
  }

  lemma UnkeyedKeyIsInjective(m: nat, n: nat)
    requires UnkeyedKey(m) == UnkeyedKey(n)
    ensures m == n
  {
    assert UnkeyedKey(m)[8..] == Decimal(m) && UnkeyedKey(n)[8..] == Decimal(n);
    DecimalIsInjective(m, n);
  }

  /** What AddTx stores: a tx without readable signers gets the next unkeyed key. */
  ghost function Kept(tx: SdkTx, nextUnkeyed: nat): StoredTx {
    if NoncesOf(tx) == map[] then StoredTx(tx, map[], 0, UNKEYED, UnkeyedKey(nextUnkeyed)) else Metadata(tx)
  }

  ghost predicate WellKept(t: StoredTx, nextUnkeyed: nat) {
    if t.nonceMap == map[] then
      t.signerKey == UNKEYED && exists n | 0 <= n < nextUnkeyed :: t.txKey == UnkeyedKey(n)
    else
      GoodNonces(t.nonceMap) && t == Metadata(t.tx)
  }

  ghost predicate Belongs(t: StoredTx, key: string, signers: set<string>, nextUnkeyed: nat) {
    WellKept(t, nextUnkeyed) && t.signerKey == key && t.nonceMap.Keys == signers
  }

  /** Non-empty, of one signer set, duplicate-free and in order. */
  ghost predicate GoodBucket(key: string, b: Bucket, nextUnkeyed: nat) {
    && b.txs != []
    && (forall i | 0 <= i < |b.txs| :: Belongs(b.txs[i], key, b.signers, nextUnkeyed))
    && InOrder(b.txs)
  }

  function BucketTxs(store: map<string, Bucket>, key: string): seq<StoredTx> {
    if key in store then store[key].txs else []
  }

  /** A tx with the same keys is there already. */
  ghost predicate Holds(store: map<string, Bucket>, t: StoredTx) {
    exists i :: 0 <= i < |BucketTxs(store, t.signerKey)| && BucketTxs(store, t.signerKey)[i].txKey == t.txKey
  }

  lemma UnkeyedIsNoSignerSet(nonces: map<string, nat>)
    requires GoodNonces(nonces) && nonces != map[]
    ensures SignerSetKey(nonces) != UNKEYED
  {
    hide Sorted, Separable;
    AccountsSeparable(nonces);
    var accounts := Sorted(nonces.Keys);
    var k :| k in nonces.Keys;
    assert k in accounts;
    SeparatorTellsParts(accounts, '|');
    if |accounts| == 1 {
      assert accounts[0] in accounts;
      assert accounts[0] in nonces;
    } else {
      assert '|' in SignerSetKey(nonces);
      assert '|' !in UNKEYED;
    }
  }

  /** Txs kept under one bucket key have one signer set. */
  lemma SameBucketSameSigners(a: StoredTx, b: StoredTx, n: nat)
    requires WellKept(a, n) && WellKept(b, n) && a.signerKey == b.signerKey
    ensures a.nonceMap.Keys == b.nonceMap.Keys
  {
    if a.nonceMap != map[] { UnkeyedIsNoSignerSet(a.nonceMap); }
    if b.nonceMap != map[] { UnkeyedIsNoSignerSet(b.nonceMap); }
    if a.nonceMap != map[] && b.nonceMap != map[] {
      SignerSetKeyIsInjective(a.nonceMap, b.nonceMap);
    }
  }

  /** Inserting a tx with a new key at its place keeps a bucket good. */
  lemma InsertedIsGood(key: string, b: Bucket, t: StoredTx, i: nat, n: nat)
    requires b.txs != [] ==> GoodBucket(key, b, n)
    requires Belongs(t, key, b.signers, n) && i <= |b.txs|
    requires InOrder(b.txs[..i] + [t] + b.txs[i..])
    ensures GoodBucket(key, b.(txs := b.txs[..i] + [t] + b.txs[i..]), n)
  {
    hide Belongs, Follows;
    var r := b.txs[..i] + [t] + b.txs[i..];
    forall j | 0 <= j < |r| ensures Belongs(r[j], key, b.signers, n) {
      assert r[j] == if j < i then b.txs[j] else if j == i then t else b.txs[j - 1];
    }
  }

  // ---------- Invalidation ----------

  /** invalidatesCosmosTx: some signer is at or above its threshold. */
  predicate Invalidated(t: StoredTx, thresholds: map<string, nat>) {
    exists a | a in thresholds :: a in t.nonceMap && thresholds[a] <= t.nonceMap[a]
  }

  function Survivors(s: seq<StoredTx>, thresholds: map<string, nat>): seq<StoredTx> {
    if s == [] then []
    else Survivors(s[..|s| - 1], thresholds) + (if Invalidated(s[|s| - 1], thresholds) then [] else [s[|s| - 1]])
  }

  /** The whole store filtered, buckets left empty dropped. */
  function Filtered(store: map<string, Bucket>, thresholds: map<string, nat>): map<string, Bucket> {
    map k | k in store && Survivors(store[k].txs, thresholds) != []
      :: store[k].(txs := Survivors(store[k].txs, thresholds))
  }

  /** Every nonce of the tx that has a threshold lies below it. */
  predicate AllBelow(t: StoredTx, thresholds: map<string, nat>) {
    forall a | a in t.nonceMap && a in thresholds :: t.nonceMap[a] < thresholds[a]
  }

  lemma {:induction false} SurvivorsAreKept(s: seq<StoredTx>, thresholds: map<string, nat>)
    ensures forall t :: t in Survivors(s, thresholds) <==> t in s && AllBelow(t, thresholds)
  {
    if s != [] {
      var front, last := s[..|s| - 1], s[|s| - 1];
      SurvivorsAreKept(front, thresholds);
      assert s == front + [last];
    }
  }

  /** The ascending positions of those that survive. */
  ghost predicate Positions(s: seq<StoredTx>, kept: seq<StoredTx>, thresholds: map<string, nat>, at: seq<nat>) {
    && |at| == |kept| && (forall i | 0 <= i < |at| :: at[i] < |s| && kept[i] == s[at[i]])
    && (forall i, j | 0 <= i < j < |at| :: at[i] < at[j])
    && (forall p | 0 <= p < |s| && AllBelow(s[p], thresholds) :: p in at)
  }

  /** The survivors come in the order they had. */
  lemma {:induction false} SurvivorsInOrder(s: seq<StoredTx>, thresholds: map<string, nat>) returns (at: seq<nat>)
    ensures Positions(s, Survivors(s, thresholds), thresholds, at)
  {
    hide Invalidated, AllBelow, Positions;
    at := [];
    if s == [] {
      NoPositions(thresholds);
    } else {
      var n := |s| - 1;
      at := SurvivorsInOrder(s[..n], thresholds);
      SurvivesIff(s[n], thresholds);
      OneMorePosition(s[..n], Survivors(s[..n], thresholds), thresholds, at, s[n]);
      assert s[..n] + [s[n]] == s && Survivors(s[..n], thresholds) + [] == Survivors(s[..n], thresholds);
      if !Invalidated(s[n], thresholds) {
        at := at + [n];
      }
    }
  }

  lemma NoPositions(thresholds: map<string, nat>)
    ensures Positions([], [], thresholds, [])
  {
  }

  lemma OneMorePosition(s: seq<StoredTx>, kept: seq<StoredTx>, thresholds: map<string, nat>, at: seq<nat>, t: StoredTx)
    requires Positions(s, kept, thresholds, at)
    ensures Positions(s + [t], kept + [t], thresholds, at + [|s|])
    ensures !AllBelow(t, thresholds) ==> Positions(s + [t], kept, thresholds, at)
  {
    hide AllBelow;
    forall p | 0 <= p < |s + [t]| && AllBelow((s + [t])[p], thresholds) ensures p in at + [|s|] && (p < |s| ==> p in at) {
      if p < |s| { assert AllBelow(s[p], thresholds); } else { assert (at + [|s|])[|at|] == p; }
    }
  }

  lemma SurvivesIff(t: StoredTx, thresholds: map<string, nat>)
    ensures Invalidated(t, thresholds) <==> !AllBelow(t, thresholds)
  {
  }

  /** Filtering keeps a bucket good unless it empties it. */
  lemma {:induction false} SurvivorsStayGood(key: string, s: seq<StoredTx>, signers: set<string>, n: nat,
                                             thresholds: map<string, nat>)
    requires GoodBucket(key, Bucket(s, signers), n) && Survivors(s, thresholds) != []
    ensures GoodBucket(key, Bucket(Survivors(s, thresholds), signers), n)
    decreases |s|
  {
    hide Belongs, Follows, Invalidated;
    var front, last := s[..|s| - 1], s[|s| - 1];
    var r := Survivors(front, thresholds);
    if r != [] {
      SurvivorsStayGood(key, front, signers, n, thresholds);
      SurvivorsAreKept(front, thresholds);
      forall i | 0 <= i < |r| ensures Follows(r[i], last) {
        assert r[i] in r;
        var j :| 0 <= j < |front| && front[j] == r[i];
        assert Follows(s[j], s[|s| - 1]);
      }
    }
  }

  /** A bucket none of whose signers has a threshold is left as it is. */
  lemma {:induction false} SkippedBucketSurvives(s: seq<StoredTx>, thresholds: map<string, nat>)
    requires forall i | 0 <= i < |s| :: s[i].nonceMap.Keys !! thresholds.Keys
    ensures Survivors(s, thresholds) == s
  {
    if s != [] {
      SkippedBucketSurvives(s[..|s| - 1], thresholds);
      assert s[|s| - 1].nonceMap.Keys !! thresholds.Keys;
      assert s == s[..|s| - 1] + [s[|s| - 1]];
    }
  }

  /** newCosmosTxWithMetadata */
  method NewMetadata(tx: SdkTx) returns (t: StoredTx)
    ensures t == Metadata(tx)
  {
    var m := NoncesOf(tx);
    if m == map[] {
      return StoredTx(tx, map[], 0, "", "");
    }
    InKeys(m);
    var accounts := SortKeys(m.Keys);
    t := StoredTx(tx, m, Wrap64(Total(accounts, m)), Join(accounts, '|'), Join(KeyParts(accounts, m), '|'));
  }

  /** containsCosmosTx */
  method ContainsKey(s: seq<StoredTx>, txKey: string) returns (found: bool)
    ensures found <==> exists i :: 0 <= i < |s| && s[i].txKey == txKey
  {
    for i := 0 to |s|
      invariant forall j | 0 <= j < i :: s[j].txKey != txKey
    {
      if s[i].txKey == txKey {
        return true;
      }
    }
    return false;
  }

  /** Go's zero value. */
  const ZERO := StoredTx(SdkTx(0, None, None), map[], 0, "", "")

  /**
   The filtering loop over one bucket, in place: the survivors are moved to the front of the
   array they are read from, and the rest is cleared.
   */
  method FilterBucket(a: array<StoredTx>, thresholds: map<string, nat>) returns (next: nat, removed: nat)
    modifies a
    ensures next <= a.Length && a[..next] == Survivors(old(a[..]), thresholds) && removed == a.Length - next
    ensures forall k | next <= k < a.Length :: a[k] == ZERO
  {
    next, removed := 0, 0;
    ghost var s := a[..];
    for i := 0 to a.Length
      invariant next <= i && removed == i - next
      invariant a[..next] == Survivors(s[..i], thresholds)
      invariant forall j | i <= j < a.Length :: a[j] == s[j]
    {
      hide Invalidated;
      assert s[..i + 1][..i] == s[..i];
      if Invalidated(a[i], thresholds) {
        removed := removed + 1;
      } else {
        a[next] := a[i];
        next := next + 1;
      }
    }
    assert s[..a.Length] == s;
    Clear(a, next);
  }

  method Clear(a: array<StoredTx>, from: nat)
    requires from <= a.Length
    modifies a
    ensures a[..from] == old(a[..from]) && forall k | from <= k < a.Length :: a[k] == ZERO
  {
    for i := from to a.Length
      invariant a[..from] == old(a[..from]) && forall k | from <= k < i :: a[k] == ZERO
    {
      a[i] := ZERO;
    }
  }

  ghost predicate GoodStore(store: map<string, Bucket>, nextUnkeyed: nat) {
    forall k | k in store :: GoodBucket(k, store[k], nextUnkeyed)
  }

  /** Whether a threshold bears on a bucket at all, as bucketContainsAnySigner decides it. */
  predicate AnySigner(b: Bucket, thresholds: map<string, nat>) {
    exists a | a in thresholds :: a in b.signers
  }

  lemma NoSignerNoChange(key: string, b: Bucket, n: nat, thresholds: map<string, nat>)
    requires GoodBucket(key, b, n) && !AnySigner(b, thresholds)
    ensures Survivors(b.txs, thresholds) == b.txs
  {
    hide WellKept, InOrder, Survivors;
    forall i | 0 <= i < |b.txs| ensures b.txs[i].nonceMap.Keys !! thresholds.Keys {
      assert Belongs(b.txs[i], key, b.signers, n);
    }
    SkippedBucketSurvives(b.txs, thresholds);
  }

  lemma KeysAreNotEmpty(nonces: map<string, nat>)
    requires GoodNonces(nonces) && nonces != map[]
    ensures SignerSetKey(nonces) != "" && TxKey(nonces) != ""
  {
    var accounts := Sorted(nonces.Keys);
    var k :| k in nonces.Keys;
    assert k in accounts;
    InKeys(nonces);
    AccountsSeparable(nonces);
    PartsSeparable(nonces, accounts);
    SeparatorTellsParts(accounts, '|');
    SeparatorTellsParts(KeyParts(accounts, nonces), '|');
  }

  /** What AddTx leaves: the tx at its place in its bucket, everything else untouched. */
  ghost predicate Added(store: map<string, Bucket>, t: StoredTx, after: map<string, Bucket>) {
    && after.Keys == store.Keys + {t.signerKey}
    && (forall k | k in store && k != t.signerKey :: after[k] == store[k])
    && InsertedInto(BucketTxs(store, t.signerKey), t, after[t.signerKey].txs)
  }

  ghost predicate InsertedInto(was: seq<StoredTx>, t: StoredTx, s: seq<StoredTx>) {
    exists i :: 0 <= i <= |was| && s == was[..i] + [t] + was[i..]
  }

  lemma AddedIsGood(store: map<string, Bucket>, n: nat, t: StoredTx, b: Bucket)
    requires GoodStore(store, n) && WellKept(t, n)
    requires InOrder(b.txs) && InsertedInto(BucketTxs(store, t.signerKey), t, b.txs)
    requires b.signers == if t.signerKey in store then store[t.signerKey].signers else t.nonceMap.Keys
    ensures GoodStore(store[t.signerKey := b], n)
  {
    var was := Bucket(BucketTxs(store, t.signerKey), b.signers);
    assert Belongs(t, t.signerKey, b.signers, n) by {
      if t.signerKey in store {
        assert GoodBucket(t.signerKey, store[t.signerKey], n);
        assert Belongs(was.txs[0], t.signerKey, b.signers, n);
        SameBucketSameSigners(t, was.txs[0], n);
      }
    }
    hide Belongs, InOrder, WellKept;
    var i :| 0 <= i <= |was.txs| && b.txs == was.txs[..i] + [t] + was.txs[i..];
    InsertedIsGood(t.signerKey, was, t, i, n);
  }

  lemma MoreUnkeyedIsGood(store: map<string, Bucket>, m: nat, n: nat)
    requires GoodStore(store, m) && m <= n
    ensures GoodStore(store, n)
  {
    forall k | k in store ensures GoodBucket(k, store[k], n) {
      assert GoodBucket(k, store[k], m);
      forall i | 0 <= i < |store[k].txs| ensures Belongs(store[k].txs[i], k, store[k].signers, n) {
        assert Belongs(store[k].txs[i], k, store[k].signers, m);
      }
    }
  }

  lemma FilteredIsGood(store: map<string, Bucket>, n: nat, thresholds: map<string, nat>)
    requires GoodStore(store, n)
    ensures GoodStore(Filtered(store, thresholds), n)
  {
    forall k | k in Filtered(store, thresholds) ensures GoodBucket(k, Filtered(store, thresholds)[k], n) {
      SurvivorsStayGood(k, store[k].txs, store[k].signers, n, thresholds);
    }
  }

  lemma KeptIsWellKept(tx: SdkTx, n: nat)
    ensures WellKept(Kept(tx, n), n + 1)
  {
    NoncesAreGood(tx);
  }

  lemma KeyedIsWellKept(tx: SdkTx, n: nat)
    requires NoncesOf(tx) != map[]
    ensures WellKept(Kept(tx, n), n)
  {
    NoncesAreGood(tx);
  }

  /** A fresh unkeyed key, and only it, is never there already. */
  lemma UnkeyedIsNew(store: map<string, Bucket>, tx: SdkTx, n: nat)
    requires GoodStore(store, n) && NoncesOf(tx) == map[]
    ensures !Holds(store, Kept(tx, n))
  {
    var t := Kept(tx, n);
    forall i | 0 <= i < |BucketTxs(store, UNKEYED)| ensures BucketTxs(store, UNKEYED)[i].txKey != t.txKey {
      var x := store[UNKEYED].txs[i];
      assert Belongs(x, UNKEYED, store[UNKEYED].signers, n);
      if x.nonceMap != map[] {
        UnkeyedIsNoSignerSet(x.nonceMap);
      } else {
        var m :| 0 <= m < n && x.txKey == UnkeyedKey(m);
        if UnkeyedKey(m) == UnkeyedKey(n) { UnkeyedKeyIsInjective(m, n); }
      }
    }
  }

  /** The tx has readable signers and is in the store. */
  ghost predicate Stores(store: map<string, Bucket>, tx: SdkTx) {
    NoncesOf(tx) != map[] && Holds(store, Metadata(tx))
  }

  /** A keyed tx counts as stored exactly if some stored tx has the same signers and nonces. */
  lemma StoredIffSameNonces(store: map<string, Bucket>, n: nat, tx: SdkTx)
    requires GoodStore(store, n) && NoncesOf(tx) != map[]
    ensures Stores(store, tx) <==>
            exists k, i :: k in store && 0 <= i < |store[k].txs| && store[k].txs[i].nonceMap == NoncesOf(tx)
  {
    NoncesAreGood(tx);
    var t := Metadata(tx);
    hide SignerSetKey, TxKey, NonceTotal, NoncesOf;
    if Stores(store, tx) {
      var i :| 0 <= i < |store[t.signerKey].txs| && store[t.signerKey].txs[i].txKey == t.txKey;
      var x := store[t.signerKey].txs[i];
      assert Belongs(x, t.signerKey, store[t.signerKey].signers, n);
      UnkeyedIsNoSignerSet(t.nonceMap);
      TxKeyIsInjective(x.nonceMap, t.nonceMap);
    }
    if exists k, i :: k in store && 0 <= i < |store[k].txs| && store[k].txs[i].nonceMap == NoncesOf(tx) {
      var k, i :| k in store && 0 <= i < |store[k].txs| && store[k].txs[i].nonceMap == NoncesOf(tx);
      var x := store[k].txs[i];
      assert Belongs(x, k, store[k].signers, n);
      assert x.signerKey == t.signerKey == k && x.txKey == t.txKey;
      assert BucketTxs(store, t.signerKey)[i].txKey == t.txKey;
    }
  }

  /** The stored txs in these buckets that the thresholds invalidate. */
  ghost function InvalidIn(store: map<string, Bucket>, keys: set<string>, thresholds: map<string, nat>): set<StoredTx> {
    set k, t | k in keys && k in store && t in store[k].txs && Invalidated(t, thresholds) :: t
  }

  /** Bucket k has been filtered. */
  ghost predicate FilteredAt(store: map<string, Bucket>, now: map<string, Bucket>, thresholds: map<string, nat>, k: string)
    requires k in store
  {
    var s := Survivors(store[k].txs, thresholds);
    (k in now <==> s != []) && (k in now ==> now[k] == store[k].(txs := s))
  }

  lemma FilteredElsewhere(store: map<string, Bucket>, before: map<string, Bucket>, now: map<string, Bucket>,
                          thresholds: map<string, nat>, k: string)
    requires k in store && FilteredAt(store, before, thresholds, k)
    requires (k in before <==> k in now) && (k in now ==> now[k] == before[k])
    ensures FilteredAt(store, now, thresholds, k)
  {
  }

  lemma AllFiltered(store: map<string, Bucket>, now: map<string, Bucket>, thresholds: map<string, nat>)
    requires now.Keys <= store.Keys && forall k | k in store :: FilteredAt(store, now, thresholds, k)
    ensures now == Filtered(store, thresholds)
  {
    hide Survivors;
    forall k | k in store ensures k in now <==> k in Filtered(store, thresholds) {
      assert FilteredAt(store, now, thresholds, k);
    }
    forall k | k in now ensures now[k] == Filtered(store, thresholds)[k] {
      assert FilteredAt(store, now, thresholds, k);
    }
  }

  /** No remaining tx has one of these signers at its nonce or above. */
  ghost predicate NothingAtOrAbove(store: map<string, Bucket>, nonces: map<string, nat>) {
    forall k, i, a | k in store && 0 <= i < |store[k].txs| && a in nonces && a in store[k].txs[i].nonceMap ::
      store[k].txs[i].nonceMap[a] < nonces[a]
  }

  /** A stored tx all of whose nonces lie below stays in its bucket, at its place among those that stay. */
  lemma LowerStay(store: map<string, Bucket>, nonces: map<string, nat>, k: string) returns (at: seq<nat>)
    requires k in store
    ensures var r := Filtered(store, nonces);
            && (k in r <==> at != []) && (k in r ==> r[k].signers == store[k].signers && |at| == |r[k].txs|)
            && (k in r ==> forall i | 0 <= i < |at| :: at[i] < |store[k].txs| && r[k].txs[i] == store[k].txs[at[i]])
            && (forall i, j | 0 <= i < j < |at| :: at[i] < at[j])
            && forall p | 0 <= p < |store[k].txs| :: p in at <==>
                 forall a | a in store[k].txs[p].nonceMap && a in nonces :: store[k].txs[p].nonceMap[a] < nonces[a]
  {
    at := SurvivorsInOrder(store[k].txs, nonces);
    SurvivorsAreKept(store[k].txs, nonces);
    forall p | 0 <= p < |store[k].txs| ensures p in at <==> AllBelow(store[k].txs[p], nonces) {
      if p in at {
        var i :| 0 <= i < |at| && at[i] == p;
        assert store[k].txs[p] in Survivors(store[k].txs, nonces);
      }
    }
  }

  lemma FilteredHasNothing(store: map<string, Bucket>, nonces: map<string, nat>)
    ensures NothingAtOrAbove(Filtered(store, nonces), nonces)
  {
    var r := Filtered(store, nonces);
    forall k, i, a | k in r && 0 <= i < |r[k].txs| && a in nonces && a in r[k].txs[i].nonceMap
      ensures r[k].txs[i].nonceMap[a] < nonces[a]
    {
      SurvivorsAreKept(store[k].txs, nonces);
      assert r[k].txs[i] in Survivors(store[k].txs, nonces);
    }
  }

  lemma NoneInvalid(store: map<string, Bucket>, thresholds: map<string, nat>)
    ensures InvalidIn(store, {}, thresholds) == {}
  {
  }

  ghost function InvalidOf(s: seq<StoredTx>, thresholds: map<string, nat>): set<StoredTx> {
    set t | t in s && Invalidated(t, thresholds)
  }

  lemma {:induction false} DroppedAreCounted(s: seq<StoredTx>, thresholds: map<string, nat>)
    requires InOrder(s)
    ensures |s| - |Survivors(s, thresholds)| == |InvalidOf(s, thresholds)|
  {
    if s != [] {
      hide Invalidated;
      var front, last := s[..|s| - 1], s[|s| - 1];
      DroppedAreCounted(front, thresholds);
      assert s == front + [last];
      assert last !in front by {
        forall i | 0 <= i < |front| ensures front[i] != last { assert Follows(s[i], s[|s| - 1]); }
      }
      if Invalidated(last, thresholds) {
        assert InvalidOf(s, thresholds) == InvalidOf(front, thresholds) + {last};
      } else {
        assert InvalidOf(s, thresholds) == InvalidOf(front, thresholds);
      }
    }
  }

  /** Going through one more bucket drops exactly its invalid txs. */
  lemma InvalidOneMore(store: map<string, Bucket>, n: nat, seen: set<string>, thresholds: map<string, nat>, key: string)
    requires GoodStore(store, n) && key in store && key !in seen && seen <= store.Keys
    ensures |InvalidIn(store, seen + {key}, thresholds)| ==
            |InvalidIn(store, seen, thresholds)| + |store[key].txs| - |Survivors(store[key].txs, thresholds)|
  {
    assert GoodBucket(key, store[key], n);
    DroppedAreCounted(store[key].txs, thresholds);
    InvalidSplits(store, n, seen, thresholds, key);
    hide InvalidIn, InvalidOf, Survivors, GoodBucket;
  }

  lemma InvalidSplits(store: map<string, Bucket>, n: nat, seen: set<string>, thresholds: map<string, nat>, key: string)
    requires GoodStore(store, n) && key in store && key !in seen && seen <= store.Keys
    ensures InvalidIn(store, seen + {key}, thresholds) ==
            InvalidIn(store, seen, thresholds) + InvalidOf(store[key].txs, thresholds)
    ensures InvalidIn(store, seen, thresholds) !! InvalidOf(store[key].txs, thresholds)
  {
    hide Invalidated, GoodBucket;
    forall t | t in InvalidIn(store, seen, thresholds) ensures t.signerKey in seen {
      var k :| k in seen && t in store[k].txs;
      InItsBucket(store, n, k, t);
    }
    forall t | t in InvalidOf(store[key].txs, thresholds) ensures t.signerKey == key {
      InItsBucket(store, n, key, t);
    }
  }

  lemma InItsBucket(store: map<string, Bucket>, n: nat, k: string, t: StoredTx)
    requires GoodStore(store, n) && k in store && t in store[k].txs
    ensures t.signerKey == k
  {
    assert GoodBucket(k, store[k], n);
    var i :| 0 <= i < |store[k].txs| && store[k].txs[i] == t;
    assert Belongs(store[k].txs[i], k, store[k].signers, n);
  }

  /** A stored tx invalidates at least itself. */
  lemma StoredIsInvalid(store: map<string, Bucket>, n: nat, tx: SdkTx)
    requires GoodStore(store, n) && Stores(store, tx)
    ensures |InvalidIn(store, store.Keys, NoncesOf(tx))| > 0
  {
    NoncesAreGood(tx);
    var t := Metadata(tx);
    var b := store[t.signerKey];
    var i :| 0 <= i < |b.txs| && b.txs[i].txKey == t.txKey;
    assert GoodBucket(t.signerKey, b, n);
    assert Belongs(b.txs[i], t.signerKey, b.signers, n);
    UnkeyedIsNoSignerSet(t.nonceMap);
    TxKeyIsInjective(b.txs[i].nonceMap, t.nonceMap);
    var a :| a in t.nonceMap;
    assert Invalidated(b.txs[i], NoncesOf(tx)) by { assert a in b.txs[i].nonceMap; }
    assert b.txs[i] in InvalidIn(store, store.Keys, NoncesOf(tx));
  }

  lemma NotStoredIsNew(store: map<string, Bucket>, n: nat, tx: SdkTx)
    requires GoodStore(store, n)
    ensures !Stores(store, tx) ==> !Holds(store, Kept(tx, n))
  {
    if NoncesOf(tx) == map[] { UnkeyedIsNew(store, tx, n); }
  }

  class CosmosTxStore {
    var txs: map<string, Bucket>
    var nextUnkeyed: nat

    ghost predicate Valid()
      reads this
    {
      GoodStore(txs, nextUnkeyed)
    }

    constructor ()
      ensures Valid() && txs == map[]
    {
      txs, nextUnkeyed := map[], 0;
    }

    /** Adds a tx to the bucket of its signer set, at its place, unless it is there already. */
    method AddTx(tx: SdkTx)
      requires Valid()
      modifies this
      ensures Valid()
      ensures nextUnkeyed == old(nextUnkeyed) + if NoncesOf(tx) == map[] then 1 else 0
      ensures Holds(old(txs), Kept(tx, old(nextUnkeyed))) ==> txs == old(txs)
      ensures !Holds(old(txs), Kept(tx, old(nextUnkeyed))) ==> Added(old(txs), Kept(tx, old(nextUnkeyed)), txs)
    {
      hide GoodStore, WellKept, SignerSetKey, TxKey, NonceTotal;
      NoncesAreGood(tx);
      var t := NewMetadata(tx);
      if NoncesOf(tx) != map[] { KeysAreNotEmpty(NoncesOf(tx)); }
      KeptIsWellKept(tx, nextUnkeyed);
      MoreUnkeyedIsGood(txs, nextUnkeyed, nextUnkeyed + 1);
      if t.signerKey == "" {
        t := t.(signerKey := UNKEYED);
      }
      if t.txKey == "" {
        UnkeyedIsNew(txs, tx, nextUnkeyed);
        t := t.(txKey := UnkeyedKey(nextUnkeyed));
        nextUnkeyed := nextUnkeyed + 1;
      } else {
        KeyedIsWellKept(tx, nextUnkeyed);
      }
      Insert(t);
    }

    /** The part of AddTx after the keys are set. */
    method Insert(t: StoredTx)
      requires Valid() && WellKept(t, nextUnkeyed)
      modifies this`txs
      ensures Valid()
      ensures Holds(old(txs), t) ==> txs == old(txs)
      ensures !Holds(old(txs), t) ==> Added(old(txs), t, txs)
    {
      hide WellKept, Belongs;
      var bucket := if t.signerKey in txs then txs[t.signerKey] else Bucket([], t.nonceMap.Keys);
      assert bucket.txs == BucketTxs(txs, t.signerKey);
      assert InOrder(bucket.txs) by {
        if t.signerKey in txs { assert GoodBucket(t.signerKey, bucket, nextUnkeyed); }
      }
      var duplicate := ContainsKey(bucket.txs, t.txKey);
      if duplicate {
        return;
      }
      var sorted := SortAppended(bucket.txs, t);
      AddedIsGood(txs, nextUnkeyed, t, bucket.(txs := sorted));
      txs := txs[t.signerKey := bucket.(txs := sorted)];
    }

    /**
     Removes every stored tx that has one of the tx's signers at its nonce or above,
     provided the tx itself is stored, and returns how many.  Skipping the buckets
     without a common signer does not change what is filtered.
     */
    method InvalidateFrom(tx: SdkTx) returns (removed: nat)
      requires Valid()
      modifies this`txs
      ensures Valid()
      ensures !Stores(old(txs), tx) ==> removed == 0 && txs == old(txs)
      ensures Stores(old(txs), tx) ==>
                && txs == Filtered(old(txs), NoncesOf(tx))
                && removed == |InvalidIn(old(txs), old(txs).Keys, NoncesOf(tx))| > 0
    {
      hide GoodBucket, SignerSetKey, TxKey, NonceTotal;
      NoncesAreGood(tx);
      var t := NewMetadata(tx);
      if |t.nonceMap| == 0 || t.signerKey == "" || t.txKey == "" {
        if NoncesOf(tx) != map[] { KeysAreNotEmpty(NoncesOf(tx)); }
        return 0;
      }
      if t.signerKey !in txs {
        return 0;
      }
      var present := ContainsKey(txs[t.signerKey].txs, t.txKey);
      if !present {
        return 0;
      }
      assert t.nonceMap != map[] && BucketTxs(txs, t.signerKey) == txs[t.signerKey].txs;
      StoredIsInvalid(txs, nextUnkeyed, tx);
      FilteredIsGood(txs, nextUnkeyed, t.nonceMap);
      removed := FilterAll(t.nonceMap);
    }

    /** The loop of InvalidateFrom over the buckets, which come in any order. */
    method FilterAll(thresholds: map<string, nat>) returns (removed: nat)
      requires Valid()
      modifies this`txs
      ensures txs == Filtered(old(txs), thresholds)
      ensures removed == |InvalidIn(old(txs), old(txs).Keys, thresholds)|
    {
      hide GoodBucket, Survivors, InvalidIn, FilteredAt, Filtered;
      removed := 0;
      ghost var was, seen: set<string> := txs, {};
      var todo := txs.Keys;
      NoneInvalid(was, thresholds);
      while todo != {}
        invariant todo + seen == was.Keys && todo !! seen && txs.Keys <= was.Keys
        invariant forall k | k in todo :: k in txs && txs[k] == was[k]
        invariant forall k | k in seen :: FilteredAt(was, txs, thresholds, k)
        invariant removed == |InvalidIn(was, seen, thresholds)|
        decreases todo
      {
        var key :| key in todo;
        InvalidOneMore(was, nextUnkeyed, seen, thresholds, key);
        ghost var before := txs;
        var dropped := FilterOne(key, thresholds, was);
        forall k | k in seen ensures FilteredAt(was, txs, thresholds, k) {
          FilteredElsewhere(was, before, txs, thresholds, k);
        }
        removed := removed + dropped;
        todo, seen := todo - {key}, seen + {key};
      }
      assert seen == was.Keys;
      AllFiltered(was, txs, thresholds);
    }

    /** One bucket: skipped if no signer has a threshold, dropped if nothing survives. */
    method FilterOne(key: string, thresholds: map<string, nat>, ghost was: map<string, Bucket>) returns (dropped: nat)
      requires key in txs && key in was && txs[key] == was[key] && GoodBucket(key, txs[key], nextUnkeyed)
      modifies this`txs
      ensures FilteredAt(was, txs, thresholds, key)
      ensures dropped == |was[key].txs| - |Survivors(was[key].txs, thresholds)|
      ensures txs - {key} == old(txs) - {key} && txs.Keys <= old(txs).Keys
      ensures forall k | k != key && k in old(txs) :: k in txs && txs[k] == old(txs)[k]
    {
      hide WellKept, InOrder, Belongs, Survivors, Invalidated;
      var bucket := txs[key];
      if !AnySigner(bucket, thresholds) {
        NoSignerNoChange(key, bucket, nextUnkeyed, thresholds);
        return 0;
      }
      var backing := new StoredTx[|bucket.txs|](i requires 0 <= i < |bucket.txs| => bucket.txs[i]);
      assert backing[..] == bucket.txs;
      var next;
      next, dropped := FilterBucket(backing, thresholds);
      if next == 0 {
        txs := txs - {key};
      } else {
        txs := txs[key := bucket.(txs := backing[..next])];
      }
    }

    /** A live insert: a replacement only clears what depended on the old tx. */
    method MarkTxInserted(tx: SdkTx)
      requires Valid()
      modifies this
      ensures Valid()
      ensures Stores(old(txs), tx) ==> txs == Filtered(old(txs), NoncesOf(tx)) && NothingAtOrAbove(txs, NoncesOf(tx))
      ensures !Stores(old(txs), tx) ==> Added(old(txs), Kept(tx, old(nextUnkeyed)), txs)
    {
      hide GoodStore, SignerSetKey, TxKey, NonceTotal;
      NotStoredIsNew(txs, nextUnkeyed, tx);
      FilteredHasNothing(txs, NoncesOf(tx));
      var removed := InvalidateFrom(tx);
      if removed > 0 {
        return;
      }
      AddTx(tx);
    }
  }
}
