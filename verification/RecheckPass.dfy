/**
 One recheck of the Cosmos pool, runRecheck in mempool/recheck_pool.go: the txs
 are revalidated in selection order against the new block's state, and a failure
 takes down every later tx that needs one of the same signers at a higher sequence.
 */
module RecheckPass {
  import opened Prelude

  datatype SignerSequence = SignerSequence(account: string, sequence: nat)

  /** A pooled tx; `signers` is what extractSignerSequences yields, None its error. */
  datatype Tx = Tx(id: nat, signers: Option<seq<SignerSequence>>)

  /**
   RecheckCosmos on a branch of the state: whether the tx passed, and what the
   branch holds afterwards.  The code goes on using the same branch after a failure.
   */
  type Recheck<!C> = (C, Tx) -> (bool, C)

  /** Tx `later` needs a signer of `earlier` at a higher sequence. */
  predicate Shadows(earlier: Tx, later: Tx) {
    && earlier.signers.Some? && later.signers.Some?
    && exists a, b ::
         && 0 <= a < |earlier.signers.value| && 0 <= b < |later.signers.value|
         && earlier.signers.value[a].account == later.signers.value[b].account
         && earlier.signers.value[a].sequence < later.signers.value[b].sequence
  }

  // ---------- Specification: the pass without its bookkeeping map ----------

  /** What is known after the first n txs: positions failed on their own, removed, and kept (in order). */
  datatype Progress<C> = Progress(base: C, branch: C, failed: set<nat>, removed: set<nat>, kept: seq<nat>)

  ghost predicate Shadowed(txs: seq<Tx>, removed: set<nat>, i: nat)
    requires i < |txs|
  {
    exists j :: j in removed && j < i && Shadows(txs[j], txs[i])
  }

  ghost function Pass<C>(recheck: Recheck<C>, start: C, txs: seq<Tx>, n: nat): Progress<C>
    requires n <= |txs|
  {
    if n == 0 then Progress(start, start, {}, {}, []) else
    var p := Pass(recheck, start, txs, n - 1);
    var i := n - 1;
    if txs[i].signers.None? then p
    else if Shadowed(txs, p.removed, i) then p.(removed := p.removed + {i})
    else
      var (ok, c) := recheck(p.branch, txs[i]);
      if ok then p.(base := c, branch := c, kept := p.kept + [i])
      else p.(branch := c, failed := p.failed + {i}, removed := p.removed + {i})
  }

  /** Decisions are never revised. */
  lemma {:induction false} PassGrows<C>(recheck: Recheck<C>, start: C, txs: seq<Tx>, m: nat, n: nat)
    requires m <= n <= |txs|
    ensures var p, q := Pass(recheck, start, txs, m), Pass(recheck, start, txs, n);
            && p.removed <= q.removed && p.failed <= q.failed && p.kept <= q.kept
            && (forall i | i in q.removed :: i < n && (i < m ==> i in p.removed))
            && (forall i | i in q.failed :: i < n && (i < m ==> i in p.failed))
            && (forall i | i in q.kept :: i < n && (i < m ==> i in p.kept))
    decreases n
  {
    hide Shadowed;
    if m < n {
      PassGrows(recheck, start, txs, m, n - 1);
    } else if n > 0 {
      PassGrows(recheck, start, txs, m - 1, n - 1);
    }
  }

  // ---------- Which txs go ----------

  /** Positions increase and each tx shadows the next. */
  ghost predicate ShadowChain(txs: seq<Tx>, path: seq<nat>) {
    && (forall k | 0 <= k < |path| :: path[k] < |txs|)
    && (forall k | 0 < k < |path| :: path[k - 1] < path[k] && Shadows(txs[path[k - 1]], txs[path[k]]))
  }

  ghost predicate ChainFrom(txs: seq<Tx>, failed: set<nat>, i: nat, path: seq<nat>) {
    ShadowChain(txs, path) && path != [] && path[0] in failed && path[|path| - 1] == i
  }

  lemma {:induction false} RemovedHasChain<C>(recheck: Recheck<C>, start: C, txs: seq<Tx>, n: nat, i: nat)
      returns (path: seq<nat>)
    requires n <= |txs| && i in Pass(recheck, start, txs, n).removed
    ensures ChainFrom(txs, Pass(recheck, start, txs, n).failed, i, path)
    decreases n
  {
    hide ChainFrom, Shadows;
    var p, q := Pass(recheck, start, txs, n), Pass(recheck, start, txs, n - 1);
    if i in q.removed {
      path := RemovedHasChain(recheck, start, txs, n - 1, i);
      ChainKeeps(txs, q.failed, p.failed, i, path);
    } else if i in p.failed {
      path := [i];
      ChainStarts(txs, p.failed, i);
    } else {
      var j :| j in q.removed && j < i && Shadows(txs[j], txs[i]);
      path := RemovedHasChain(recheck, start, txs, n - 1, j);
      ChainKeeps(txs, q.failed, p.failed, j, path);
      ChainGrows(txs, p.failed, j, i, path);
      path := path + [i];
    }
  }

  lemma ChainStarts(txs: seq<Tx>, failed: set<nat>, i: nat)
    requires i in failed && i < |txs|
    ensures ChainFrom(txs, failed, i, [i])
  {
  }

  lemma ChainKeeps(txs: seq<Tx>, failed: set<nat>, more: set<nat>, i: nat, path: seq<nat>)
    requires ChainFrom(txs, failed, i, path) && failed <= more
    ensures ChainFrom(txs, more, i, path)
  {
  }

  lemma ChainGrows(txs: seq<Tx>, failed: set<nat>, j: nat, i: nat, path: seq<nat>)
    requires ChainFrom(txs, failed, j, path) && j < i < |txs| && Shadows(txs[j], txs[i])
    ensures ChainFrom(txs, failed, i, path + [i])
  {
    hide Shadows;
  }

  lemma {:induction false} ChainIsRemoved<C>(recheck: Recheck<C>, start: C, txs: seq<Tx>, path: seq<nat>)
    requires ShadowChain(txs, path) && path != []
    requires path[0] in Pass(recheck, start, txs, |txs|).failed
    ensures path[|path| - 1] in Pass(recheck, start, txs, |txs|).removed
    decreases |path|
  {
    hide Shadows, Pass;
    var k := |path| - 1;
    if k == 0 {
      FailedIsRemoved(recheck, start, txs, |txs|);
    } else {
      ChainIsRemoved(recheck, start, txs, path[..k]);
      ShadowedIsRemoved(recheck, start, txs, path[k - 1], path[k]);
    }
  }

  lemma ShadowedIsRemoved<C>(recheck: Recheck<C>, start: C, txs: seq<Tx>, j: nat, i: nat)
    requires j < i < |txs| && Shadows(txs[j], txs[i]) && j in Pass(recheck, start, txs, |txs|).removed
    ensures i in Pass(recheck, start, txs, |txs|).removed
  {
    assert txs[i].signers.Some?;
    hide Shadows;
    PassGrows(recheck, start, txs, i, |txs|);
    PassGrows(recheck, start, txs, i + 1, |txs|);
    assert Shadowed(txs, Pass(recheck, start, txs, i).removed, i);
  }

  lemma {:induction false} FailedIsRemoved<C>(recheck: Recheck<C>, start: C, txs: seq<Tx>, n: nat)
    requires n <= |txs|
    ensures Pass(recheck, start, txs, n).failed <= Pass(recheck, start, txs, n).removed
  {
    if n > 0 { FailedIsRemoved(recheck, start, txs, n - 1); }
  }

  /**
   The removed txs are exactly those at the end of a chain that begins with a tx
   failing its own recheck, each link needing a signer of the one before at a
   higher sequence, across any number of multi-signer txs.
   */
  lemma RemovedExactlyByChains<C>(recheck: Recheck<C>, start: C, txs: seq<Tx>, i: nat)
    ensures var p := Pass(recheck, start, txs, |txs|);
            i in p.removed <==> exists path :: ChainFrom(txs, p.failed, i, path)
  {
    var p := Pass(recheck, start, txs, |txs|);
    if i in p.removed {
      var path := RemovedHasChain(recheck, start, txs, |txs|, i);
    }
    if exists path :: ChainFrom(txs, p.failed, i, path) {
      var path :| ChainFrom(txs, p.failed, i, path);
      ChainIsRemoved(recheck, start, txs, path);
    }
  }

  /** Each position is kept, removed, or its signers could not be read; never two of these. */
  lemma {:induction false} EveryTxHasOneFate<C>(recheck: Recheck<C>, start: C, txs: seq<Tx>, n: nat, i: nat)
    requires i < n <= |txs|
    ensures var p := Pass(recheck, start, txs, n);
            && (txs[i].signers.None? ==> i !in p.kept && i !in p.removed)
            && (txs[i].signers.Some? ==> (i in p.kept <==> i !in p.removed))
    decreases n
  {
    hide Shadowed;
    PassGrows(recheck, start, txs, n - 1, n);
    PassGrows(recheck, start, txs, n - 1, n - 1);
    if i < n - 1 {
      EveryTxHasOneFate(recheck, start, txs, n - 1, i);
    }
  }

  /**
   A tx is spared by the removed ones unless it needs one of their signers at a strictly
   higher sequence: then only its own recheck decides.
   */
  lemma OnlyHigherSequencesFall<C>(recheck: Recheck<C>, start: C, txs: seq<Tx>, i: nat)
    requires i < |txs| && txs[i].signers.Some?
    requires forall j, a, b | j in Pass(recheck, start, txs, |txs|).removed && j < i && j < |txs| && txs[j].signers.Some?
                              && 0 <= a < |txs[j].signers.value| && 0 <= b < |txs[i].signers.value|
                              && txs[j].signers.value[a].account == txs[i].signers.value[b].account ::
               txs[i].signers.value[b].sequence <= txs[j].signers.value[a].sequence
    ensures var p := Pass(recheck, start, txs, |txs|);
            i in p.removed <==> !recheck(Pass(recheck, start, txs, i).branch, txs[i]).0
  {
    PassGrows(recheck, start, txs, i, |txs|);
    PassGrows(recheck, start, txs, i + 1, |txs|);
    PassGrows(recheck, start, txs, i, i);
    forall j | j in Pass(recheck, start, txs, i).removed && j < i ensures !Shadows(txs[j], txs[i]) {
    }
    assert !Shadowed(txs, Pass(recheck, start, txs, i).removed, i);
  }

  /** One removed earlier tx with a signer at a strictly lower sequence is enough. */
  lemma HigherSequenceFalls<C>(recheck: Recheck<C>, start: C, txs: seq<Tx>, i: nat, j: nat, a: nat, b: nat)
    requires j < i < |txs| && j in Pass(recheck, start, txs, |txs|).removed
    requires txs[i].signers.Some? && txs[j].signers.Some? && a < |txs[j].signers.value| && b < |txs[i].signers.value|
    requires txs[j].signers.value[a].account == txs[i].signers.value[b].account
    requires txs[j].signers.value[a].sequence < txs[i].signers.value[b].sequence
    ensures i in Pass(recheck, start, txs, |txs|).removed
  {
    assert Shadows(txs[j], txs[i]);
    ShadowedIsRemoved(recheck, start, txs, j, i);
  }

  // ---------- Which txs stay ----------

  /** The txs at these positions pass one after another starting from c; the state they end in. */
  ghost function Replay<C>(recheck: Recheck<C>, c: C, txs: seq<Tx>, picks: seq<nat>): Option<C>
    requires forall k | 0 <= k < |picks| :: picks[k] < |txs|
  {
    if picks == [] then Some(c) else
    match Replay(recheck, c, txs, picks[..|picks| - 1])
    case None => None
    case Some(d) =>
      var (ok, e) := recheck(d, txs[picks[|picks| - 1]]);
      if ok then Some(e) else None
  }

  /** The kept txs succeed one after another from the new block's state and end in the state the rechecker holds. */
  ghost predicate KeptReplays<C>(recheck: Recheck<C>, start: C, txs: seq<Tx>, n: nat)
    requires n <= |txs|
  {
    var p := Pass(recheck, start, txs, n);
    && (forall k | 0 <= k < |p.kept| :: p.kept[k] < |txs|)
    && Replay(recheck, start, txs, p.kept) == Some(p.base)
  }

  /** What the branch c holds after these txs, if they all fail in turn. */
  ghost function AfterFailures<C>(recheck: Recheck<C>, c: C, fails: seq<Tx>): Option<C> {
    if fails == [] then Some(c) else
    match AfterFailures(recheck, c, fails[..|fails| - 1])
    case None => None
    case Some(d) =>
      var (ok, e) := recheck(d, fails[|fails| - 1]);
      if ok then None else Some(e)
  }

  /** Txs that the pass rechecks one by one: their signers are known and none shadows a later one. */
  ghost predicate Unrelated(txs: seq<Tx>) {
    && (forall i | 0 <= i < |txs| :: txs[i].signers.Some?)
    && (forall i, j | 0 <= i < j < |txs| :: !Shadows(txs[i], txs[j]))
  }

  /** Whatever passes on a branch that unrelated failures have left behind passes, to the same effect, without them. */
  ghost predicate FailuresAreHarmless<C(!new)>(recheck: Recheck<C>) {
    forall c, fails, t | Unrelated(fails + [t]) && AfterFailures(recheck, c, fails).Some? ::
      var d := AfterFailures(recheck, c, fails).value;
      recheck(d, t).0 ==> recheck(c, t) == recheck(d, t)
  }

  /** In particular it is enough that a failing recheck leaves its branch as it was. */
  lemma CleanFailuresAreHarmless<C(!new)>(recheck: Recheck<C>)
    requires forall c, t :: !recheck(c, t).0 ==> recheck(c, t).1 == c
    ensures FailuresAreHarmless(recheck)
  {
    forall c, fails | AfterFailures(recheck, c, fails).Some? ensures AfterFailures(recheck, c, fails).value == c {
      CleanFailuresStay(recheck, c, fails);
    }
  }

  lemma {:induction false} CleanFailuresStay<C(!new)>(recheck: Recheck<C>, c: C, fails: seq<Tx>)
    requires (forall c, t :: !recheck(c, t).0 ==> recheck(c, t).1 == c) && AfterFailures(recheck, c, fails).Some?
    ensures AfterFailures(recheck, c, fails).value == c
  {
    if fails != [] { CleanFailuresStay(recheck, c, fails[..|fails| - 1]); }
  }

  /** The failures since the last success, which the branch still carries. */
  ghost predicate Carries<C>(recheck: Recheck<C>, p: Progress<C>, txs: seq<Tx>, tail: seq<nat>) {
    && (forall k | 0 <= k < |tail| :: tail[k] < |txs| && tail[k] in p.removed)
    && Unrelated(At(txs, tail)) && AfterFailures(recheck, p.base, At(txs, tail)) == Some(p.branch)
  }

  lemma NothingReplays<C>(recheck: Recheck<C>, start: C, txs: seq<Tx>)
    ensures KeptReplays(recheck, start, txs, 0) && Carries(recheck, Pass(recheck, start, txs, 0), txs, [])
  {
    NoneUnrelated(txs);
  }

  lemma {:induction false} HarmlessReplays<C(!new)>(recheck: Recheck<C>, start: C, txs: seq<Tx>, n: nat)
      returns (tail: seq<nat>)
    requires n <= |txs| && FailuresAreHarmless(recheck)
    ensures KeptReplays(recheck, start, txs, n) && Carries(recheck, Pass(recheck, start, txs, n), txs, tail)
  {
    hide FailuresAreHarmless, KeptReplays, Carries, Shadowed;
    if n == 0 {
      NothingReplays(recheck, start, txs);
      tail := [];
      return;
    }
    tail := HarmlessReplays(recheck, start, txs, n - 1);
    var q, i := Pass(recheck, start, txs, n - 1), n - 1;
    PassGrows(recheck, start, txs, n - 1, n - 1);
    if txs[i].signers.None? || Shadowed(txs, q.removed, i) {
      SkippedReplays(recheck, start, txs, n, tail);
    } else if recheck(q.branch, txs[i]).0 {
      PassedReplays(recheck, start, txs, n, tail);
      tail := [];
    } else {
      FailedReplays(recheck, start, txs, n, tail);
      tail := tail + [i];
    }
  }

  lemma SkippedReplays<C>(recheck: Recheck<C>, start: C, txs: seq<Tx>, n: nat, tail: seq<nat>)
    requires 0 < n <= |txs| && KeptReplays(recheck, start, txs, n - 1)
    requires Carries(recheck, Pass(recheck, start, txs, n - 1), txs, tail)
    requires txs[n - 1].signers.None? || Shadowed(txs, Pass(recheck, start, txs, n - 1).removed, n - 1)
    ensures KeptReplays(recheck, start, txs, n) && Carries(recheck, Pass(recheck, start, txs, n), txs, tail)
  {
    hide Replay, AfterFailures, Unrelated, Shadowed;
  }

  lemma PassedReplays<C(!new)>(recheck: Recheck<C>, start: C, txs: seq<Tx>, n: nat, tail: seq<nat>)
    requires 0 < n <= |txs| && FailuresAreHarmless(recheck) && KeptReplays(recheck, start, txs, n - 1)
    requires var q := Pass(recheck, start, txs, n - 1);
             && (forall k | k in q.removed :: k < n - 1) && Carries(recheck, q, txs, tail)
             && txs[n - 1].signers.Some? && !Shadowed(txs, q.removed, n - 1) && recheck(q.branch, txs[n - 1]).0
    ensures KeptReplays(recheck, start, txs, n) && Carries(recheck, Pass(recheck, start, txs, n), txs, [])
  {
    var p, q := Pass(recheck, start, txs, n), Pass(recheck, start, txs, n - 1);
    OneMoreUnrelated(txs, q.removed, tail, n - 1);
    hide Shadowed, Unrelated;
    assert recheck(q.base, txs[n - 1]) == recheck(q.branch, txs[n - 1]);
    assert p.kept[..|p.kept| - 1] == q.kept;
    NoneUnrelated(txs);
  }

  lemma NoneUnrelated(txs: seq<Tx>)
    ensures At(txs, []) == [] && Unrelated(At(txs, []))
  {
  }

  lemma FailedReplays<C>(recheck: Recheck<C>, start: C, txs: seq<Tx>, n: nat, tail: seq<nat>)
    requires 0 < n <= |txs| && KeptReplays(recheck, start, txs, n - 1)
    requires var q := Pass(recheck, start, txs, n - 1);
             && (forall k | k in q.removed :: k < n - 1) && Carries(recheck, q, txs, tail)
             && txs[n - 1].signers.Some? && !Shadowed(txs, q.removed, n - 1) && !recheck(q.branch, txs[n - 1]).0
    ensures KeptReplays(recheck, start, txs, n)
    ensures Carries(recheck, Pass(recheck, start, txs, n), txs, tail + [n - 1])
  {
    hide Replay, Shadowed, Unrelated;
    OneMoreUnrelated(txs, Pass(recheck, start, txs, n - 1).removed, tail, n - 1);
    assert At(txs, tail + [n - 1]) == At(txs, tail) + [txs[n - 1]];
    assert At(txs, tail + [n - 1])[..|tail|] == At(txs, tail);
  }

  lemma OneMoreUnrelated(txs: seq<Tx>, removed: set<nat>, tail: seq<nat>, i: nat)
    requires i < |txs| && txs[i].signers.Some? && !Shadowed(txs, removed, i)
    requires (forall k | 0 <= k < |tail| :: tail[k] < i && tail[k] in removed) && Unrelated(At(txs, tail))
    ensures Unrelated(At(txs, tail) + [txs[i]])
  {
  }

  /** Txs that fail in turn are all removed, and the branch carries all of them. */
  lemma {:induction false} PassOfFailures<C>(recheck: Recheck<C>, c: C, txs: seq<Tx>, n: nat)
    requires n <= |txs| && Unrelated(txs) && AfterFailures(recheck, c, txs[..n]).Some?
    ensures var p := Pass(recheck, c, txs, n);
            && p.base == c && p.kept == [] && p.branch == AfterFailures(recheck, c, txs[..n]).value
            && forall i | i in p.removed :: i < n
  {
    if n > 0 {
      assert txs[..n][..n - 1] == txs[..n - 1];
      PassOfFailures(recheck, c, txs, n - 1);
    }
  }

  lemma ReplayShowsNoHarm<C(!new)>(recheck: Recheck<C>, c: C, fails: seq<Tx>, t: Tx)
    requires Unrelated(fails + [t]) && AfterFailures(recheck, c, fails).Some?
    requires recheck(AfterFailures(recheck, c, fails).value, t).0 && KeptReplays(recheck, c, fails + [t], |fails| + 1)
    ensures recheck(c, t) == recheck(AfterFailures(recheck, c, fails).value, t)
  {
    var txs, n := fails + [t], |fails|;
    assert txs[..n] == fails && txs[n] == t;
    PassOfFailures(recheck, c, txs, n);
    assert !Shadowed(txs, Pass(recheck, c, txs, n).removed, n);
    var p := Pass(recheck, c, txs, n + 1);
    assert p.kept == [n] && p.kept[..0] == [];
    assert Replay(recheck, c, txs, []) == Some(c);
  }

  /**
   The kept txs replay from the new block's state, for every state and every pool,
   exactly if failures are harmless.
   */
  lemma KeptReplayIff<C(!new)>(recheck: Recheck<C>)
    ensures FailuresAreHarmless(recheck) <==> forall start, txs :: KeptReplays(recheck, start, txs, |txs|)
  {
    if FailuresAreHarmless(recheck) {
      forall start, txs ensures KeptReplays(recheck, start, txs, |txs|) {
        var tail := HarmlessReplays(recheck, start, txs, |txs|);
      }
    }
    if forall start, txs :: KeptReplays(recheck, start, txs, |txs|) {
      forall c, fails, t | Unrelated(fails + [t]) && AfterFailures(recheck, c, fails).Some?
        ensures var d := AfterFailures(recheck, c, fails).value; recheck(d, t).0 ==> recheck(c, t) == recheck(d, t)
      {
        assert KeptReplays(recheck, c, fails + [t], |fails + [t]|);
        if recheck(AfterFailures(recheck, c, fails).value, t).0 { ReplayShowsNoHarm(recheck, c, fails, t); }
      }
    }
  }

  /** Accepts a tx only on a branch that an earlier failure has dirtied. */
  function Dirtying(c: bool, t: Tx): (bool, bool) {
    (c, true)
  }

  /** With harmful failures the kept txs need not succeed from the new block's state. */
  lemma DirtyBranchBreaksReplay()
    ensures var txs := [Tx(0, Some([SignerSequence("a", 0)])), Tx(1, Some([SignerSequence("b", 0)]))];
            var p := Pass(Dirtying, false, txs, 2);
            p.kept == [1] && Replay(Dirtying, false, txs, p.kept) == None
  {
    var txs := [Tx(0, Some([SignerSequence("a", 0)])), Tx(1, Some([SignerSequence("b", 0)]))];
    var p1 := Pass(Dirtying, false, txs, 1);
    assert p1 == Progress(false, true, {0}, {0}, []);
    assert "a"[0] != "b"[0];
    assert !Shadows(txs[0], txs[1]);
    var p2 := Pass(Dirtying, false, txs, 2);
    assert p2.kept == [1];
    assert Replay(Dirtying, false, txs, []) == Some(false);
    assert p2.kept[..0] == [];
  }

  // ---------- The implementation ----------

  /** failedAtSequence: for each account of a removed tx, the lowest sequence removed. */
  ghost predicate LowestRemoved(failedAt: map<string, nat>, txs: seq<Tx>, removed: set<nat>) {
    && (forall j | j in removed :: j < |txs| && txs[j].signers.Some? &&
          forall a | 0 <= a < |txs[j].signers.value| :: CoveredBy(failedAt, txs[j].signers.value[a]))
    && (forall account | account in failedAt ::
          exists j, a :: j in removed && j < |txs| && txs[j].signers.Some? && 0 <= a < |txs[j].signers.value|
            && txs[j].signers.value[a] == SignerSequence(account, failedAt[account]))
  }

  predicate CoveredBy(failedAt: map<string, nat>, sig: SignerSequence) {
    sig.account in failedAt && failedAt[sig.account] <= sig.sequence
  }

  predicate HitBy(failedAt: map<string, nat>, sig: SignerSequence) {
    sig.account in failedAt && failedAt[sig.account] < sig.sequence
  }

  /** Looking signers up in the map is the same as searching all removed txs. */
  lemma MapFindsShadow(failedAt: map<string, nat>, txs: seq<Tx>, removed: set<nat>, i: nat)
    requires LowestRemoved(failedAt, txs, removed)
    requires i < |txs| && txs[i].signers.Some? && forall j | j in removed :: j < i
    ensures Shadowed(txs, removed, i) <==> exists sig :: sig in txs[i].signers.value && HitBy(failedAt, sig)
  {
    hide LowestRemoved, HitBy, Shadows;
    if exists sig :: sig in txs[i].signers.value && HitBy(failedAt, sig) {
      var sig :| sig in txs[i].signers.value && HitBy(failedAt, sig);
      var j := HitHasShadow(failedAt, txs, removed, i, sig);
    }
    if Shadowed(txs, removed, i) {
      var j :| j in removed && j < i && Shadows(txs[j], txs[i]);
      var sig := ShadowHasHit(failedAt, txs, removed, i, j);
    }
  }

  lemma HitHasShadow(failedAt: map<string, nat>, txs: seq<Tx>, removed: set<nat>, i: nat, sig: SignerSequence)
      returns (j: nat)
    requires LowestRemoved(failedAt, txs, removed) && i < |txs| && txs[i].signers.Some?
    requires sig in txs[i].signers.value && HitBy(failedAt, sig)
    ensures j in removed && j < |txs| && Shadows(txs[j], txs[i])
  {
    var b :| 0 <= b < |txs[i].signers.value| && txs[i].signers.value[b] == sig;
    var k, a :| k in removed && k < |txs| && txs[k].signers.Some? && 0 <= a < |txs[k].signers.value|
                && txs[k].signers.value[a] == SignerSequence(sig.account, failedAt[sig.account]);
    j := k;
  }

  lemma ShadowHasHit(failedAt: map<string, nat>, txs: seq<Tx>, removed: set<nat>, i: nat, j: nat)
      returns (sig: SignerSequence)
    requires LowestRemoved(failedAt, txs, removed) && i < |txs| && j in removed && j < |txs| && Shadows(txs[j], txs[i])
    ensures sig in txs[i].signers.value && HitBy(failedAt, sig)
  {
    var a, b :| 0 <= a < |txs[j].signers.value| && 0 <= b < |txs[i].signers.value|
                && txs[j].signers.value[a].account == txs[i].signers.value[b].account
                && txs[j].signers.value[a].sequence < txs[i].signers.value[b].sequence;
    assert CoveredBy(failedAt, txs[j].signers.value[a]);
    sig := txs[i].signers.value[b];
  }

  /** The lookup loop over a tx's signers. */
  method AnyHit(failedAt: map<string, nat>, sigs: seq<SignerSequence>) returns (hit: bool)
    ensures hit <==> exists sig :: sig in sigs && HitBy(failedAt, sig)
  {
    hit := false;
    for b := 0 to |sigs|
      invariant forall k | 0 <= k < b :: !HitBy(failedAt, sigs[k])
    {
      if HitBy(failedAt, sigs[b]) {
        return true;
      }
    }
  }

  /** The loop that lowers the map to a removed tx's sequences. */
  method NoteFailure(failedAt: map<string, nat>, txs: seq<Tx>, ghost removed: set<nat>, i: nat)
      returns (r: map<string, nat>)
    requires LowestRemoved(failedAt, txs, removed) && i < |txs| && txs[i].signers.Some?
    ensures LowestRemoved(r, txs, removed + {i})
  {
    r := failedAt;
    var sigs := txs[i].signers.value;
    for b := 0 to |sigs|
      invariant forall k | 0 <= k < b :: CoveredBy(r, sigs[k])
      invariant forall sig | CoveredBy(failedAt, sig) :: CoveredBy(r, sig)
      invariant forall account | account in r ::
                  || (account in failedAt && r[account] == failedAt[account])
                  || (exists a :: 0 <= a < |sigs| && sigs[a] == SignerSequence(account, r[account]))
    {
      ghost var before := r;
      if sigs[b].account !in r || r[sigs[b].account] > sigs[b].sequence {
        r := r[sigs[b].account := sigs[b].sequence];
        assert sigs[b] == SignerSequence(sigs[b].account, r[sigs[b].account]);
      }
      assert forall sig | CoveredBy(before, sig) :: CoveredBy(r, sig);
    }
  }

  /** The pool without the given txs. */
  function Without(pool: seq<Tx>, gone: set<Tx>): seq<Tx> {
    if pool == [] then []
    else (if pool[0] in gone then [] else [pool[0]]) + Without(pool[1..], gone)
  }

  lemma {:induction false} WithoutTwice(pool: seq<Tx>, gone: set<Tx>, more: set<Tx>)
    ensures Without(Without(pool, gone), more) == Without(pool, gone + more)
  {
    if pool != [] {
      WithoutTwice(pool[1..], gone, more);
      var rest := Without(pool[1..], gone);
      if pool[0] !in gone {
        assert ([pool[0]] + rest)[1..] == rest;
      } else {
        assert [] + rest == rest;
      }
    }
  }

  lemma {:induction false} WithoutNone(pool: seq<Tx>)
    ensures Without(pool, {}) == pool
  {
    if pool != [] { WithoutNone(pool[1..]); }
  }

  ghost function At(txs: seq<Tx>, picks: seq<nat>): seq<Tx>
    requires forall k | 0 <= k < |picks| :: picks[k] < |txs|
  {
    seq(|picks|, k requires 0 <= k < |picks| => txs[picks[k]])
  }

  datatype Outcome = NoContext | Cancelled(after: nat) | Completed

  /** How many txs a run looked at, out of `all`. */
  function Checked(outcome: Outcome, all: nat): nat {
    if outcome.Cancelled? then outcome.after else all
  }

  /** The removed txs that the pool lets go. */
  ghost function Gone(txs: seq<Tx>, removed: set<nat>, removable: Tx -> bool): set<Tx> {
    set i | 0 <= i < |txs| && i in removed && removable(txs[i]) :: txs[i]
  }

  /** The variables of the scan. */
  datatype Scan<C> =
    Scan(base: C, branch: C, rechecked: seq<Tx>, failedAt: map<string, nat>, removeTxs: seq<Tx>)

  /** `listed` holds exactly the txs at the removed positions. */
  ghost predicate Lists(listed: seq<Tx>, txs: seq<Tx>, removed: set<nat>) {
    && (forall k | 0 <= k < |listed| :: exists i :: i in removed && i < |txs| && txs[i] == listed[k])
    && (forall i | i in removed :: i < |txs| && txs[i] in listed)
  }

  ghost predicate Tracks<C>(s: Scan<C>, p: Progress<C>, txs: seq<Tx>, n: nat) {
    && s.base == p.base && s.branch == p.branch
    && (forall k | 0 <= k < |p.kept| :: p.kept[k] < |txs|)
    && s.rechecked == At(txs, p.kept)
    && (forall i | i in p.removed :: i < n)
    && LowestRemoved(s.failedAt, txs, p.removed)
    && Lists(s.removeTxs, txs, p.removed)
  }

  lemma SkippedTracks<C>(recheck: Recheck<C>, start: C, txs: seq<Tx>, n: nat, s: Scan<C>)
    requires n < |txs| && Tracks(s, Pass(recheck, start, txs, n), txs, n) && txs[n].signers.None?
    ensures Tracks(s, Pass(recheck, start, txs, n + 1), txs, n + 1)
  {
    hide LowestRemoved, Lists, Shadowed;
  }

  lemma KeptTracks<C>(recheck: Recheck<C>, start: C, txs: seq<Tx>, n: nat, s: Scan<C>)
    requires n < |txs| && Tracks(s, Pass(recheck, start, txs, n), txs, n) && txs[n].signers.Some?
    requires !Shadowed(txs, Pass(recheck, start, txs, n).removed, n) && recheck(s.branch, txs[n]).0
    ensures var c := recheck(s.branch, txs[n]).1;
            Tracks(s.(base := c, branch := c, rechecked := s.rechecked + [txs[n]]), Pass(recheck, start, txs, n + 1), txs, n + 1)
  {
    hide LowestRemoved, Lists, Shadowed;
  }

  lemma RemovedTracks<C>(recheck: Recheck<C>, start: C, txs: seq<Tx>, n: nat, s: Scan<C>, failedAt: map<string, nat>)
    requires n < |txs| && Tracks(s, Pass(recheck, start, txs, n), txs, n) && txs[n].signers.Some?
    requires var p := Pass(recheck, start, txs, n);
             && (Shadowed(txs, p.removed, n) || !recheck(s.branch, txs[n]).0)
             && LowestRemoved(failedAt, txs, p.removed + {n})
    ensures var c := if Shadowed(txs, Pass(recheck, start, txs, n).removed, n) then s.branch else recheck(s.branch, txs[n]).1;
            Tracks(s.(branch := c, removeTxs := s.removeTxs + [txs[n]], failedAt := failedAt),
                   Pass(recheck, start, txs, n + 1), txs, n + 1)
  {
    hide LowestRemoved, Lists, Shadowed, At;
    ListsGrow(s.removeTxs, txs, Pass(recheck, start, txs, n).removed, n);
  }

  /** One turn of the scan, for the n-th tx of the selection order. */
  method CheckTx<C>(recheck: Recheck<C>, txs: seq<Tx>, n: nat, s: Scan<C>, ghost start: C) returns (r: Scan<C>)
    requires n < |txs| && Tracks(s, Pass(recheck, start, txs, n), txs, n)
    ensures Tracks(r, Pass(recheck, start, txs, n + 1), txs, n + 1)
  {
    hide Pass, LowestRemoved, Lists, Shadowed, HitBy;
    ghost var p := Pass(recheck, start, txs, n);
    var txn := txs[n];
    if txn.signers.None? {
      SkippedTracks(recheck, start, txs, n, s);
      return s;
    }
    MapFindsShadow(s.failedAt, txs, p.removed, n);
    var invalid := AnyHit(s.failedAt, txn.signers.value);
    r := s;
    if !invalid {
      var (ok, c) := recheck(s.branch, txn);
      if ok {
        KeptTracks(recheck, start, txs, n, s);
        return s.(base := c, branch := c, rechecked := s.rechecked + [txn]);
      }
      r := s.(branch := c);
    }
    var failedAt := NoteFailure(s.failedAt, txs, p.removed, n);
    RemovedTracks(recheck, start, txs, n, s, failedAt);
    r := r.(removeTxs := s.removeTxs + [txn], failedAt := failedAt);
  }

  /** The scan over the whole selection, which stops at the first look that finds it cancelled. */
  method ScanPool<C>(recheck: Recheck<C>, start: C, txs: seq<Tx>, cancelled: nat -> bool)
      returns (s: Scan<C>, looked: nat)
    ensures looked <= |txs| && (looked < |txs| ==> cancelled(looked))
    ensures forall k | 0 <= k < looked :: !cancelled(k)
    ensures Tracks(s, Pass(recheck, start, txs, looked), txs, looked)
  {
    s := Scan(start, start, [], map[], []);
    for n := 0 to |txs|
      invariant forall k | 0 <= k < n :: !cancelled(k)
      invariant Tracks(s, Pass(recheck, start, txs, n), txs, n)
    {
      if cancelled(n) {
        return s, n;
      }
      s := CheckTx(recheck, txs, n, s, start);
    }
    looked := |txs|;
  }

  class RecheckMempool<C(!new)> {
    var pool: seq<Tx>         // the wrapped pool, in selection order
    var base: C               // the rechecker's committed state
    var rechecked: seq<Tx>    // the txs marked valid at the current height

    constructor (pool: seq<Tx>, base: C)
      ensures this.pool == pool && this.base == base && rechecked == []
    {
      this.pool, this.base, this.rechecked := pool, base, [];
    }

    /**
     runRecheck.  `latest` is GetLatestContext's answer, `cancelled(k)` the answer
     to the k-th look at the cancellation channel, and `removable` says which
     removals the pool grants.  An uncancelled run drops exactly the removed txs the
     pool lets go; a run that exits early drops nothing.
     */
    method RunRecheck(recheck: Recheck<C>, latest: Option<C>, cancelled: nat -> bool, removable: Tx -> bool)
        returns (outcome: Outcome)
      modifies this
      ensures latest.None? ==> outcome == NoContext && pool == old(pool) && base == old(base) && rechecked == []
      ensures latest.Some? ==> outcome != NoContext && Checked(outcome, |old(pool)|) <= |old(pool)|
      ensures outcome.Cancelled? ==> cancelled(outcome.after)
      ensures latest.Some? ==>
                forall k | 0 <= k < Checked(outcome, |old(pool)| + 1) :: !cancelled(k)
      ensures latest.Some? ==>
                var p := Pass(recheck, latest.value, old(pool), Checked(outcome, |old(pool)|));
                && base == p.base
                && (forall k | 0 <= k < |p.kept| :: p.kept[k] < |old(pool)|)
                && rechecked == At(old(pool), p.kept)
      ensures outcome.Cancelled? ==> pool == old(pool)
      ensures outcome.Completed? ==>
                var removed := Pass(recheck, latest.value, old(pool), |old(pool)|).removed;
                pool == Without(old(pool), Gone(old(pool), removed, removable))
    {
      hide Pass, LowestRemoved, Lists;
      rechecked := [];
      if latest.None? {
        return NoContext;
      }
      base := latest.value;
      var s, looked := ScanPool(recheck, base, pool, cancelled);
      base, rechecked := s.base, s.rechecked;
      if cancelled(looked) {
        return Cancelled(looked);
      }
      ListsAsSet(s.removeTxs, pool, Pass(recheck, latest.value, pool, |pool|).removed, removable);
      RemoveAll(s.removeTxs, removable);
      return Completed;
    }

    /** The removal loop: a removal the pool refuses is skipped. */
    method RemoveAll(removeTxs: seq<Tx>, removable: Tx -> bool)
      modifies this`pool
      ensures pool == Without(old(pool), set k | 0 <= k < |removeTxs| && removable(removeTxs[k]) :: removeTxs[k])
    {
      WithoutNone(pool);
      ghost var gone: set<Tx> := {};
      for m := 0 to |removeTxs|
        invariant gone == set k | 0 <= k < m && removable(removeTxs[k]) :: removeTxs[k]
        invariant pool == Without(old(pool), gone)
      {
        if removable(removeTxs[m]) {
          WithoutTwice(old(pool), gone, {removeTxs[m]});
          pool := Without(pool, {removeTxs[m]});
          gone := gone + {removeTxs[m]};
        }
      }
    }
  }

  lemma ListsGrow(listed: seq<Tx>, txs: seq<Tx>, removed: set<nat>, n: nat)
    requires Lists(listed, txs, removed) && n < |txs|
    ensures Lists(listed + [txs[n]], txs, removed + {n})
  {
    var more := listed + [txs[n]];
    assert more[|listed|] == txs[n];
    forall k | 0 <= k < |more| ensures exists i :: i in removed + {n} && i < |txs| && txs[i] == more[k] {
      if k < |listed| {
        var i :| i in removed && i < |txs| && txs[i] == listed[k];
        assert i in removed + {n};
      }
    }
  }

  lemma ListsAsSet(listed: seq<Tx>, txs: seq<Tx>, removed: set<nat>, removable: Tx -> bool)
    requires Lists(listed, txs, removed)
    ensures (set k | 0 <= k < |listed| && removable(listed[k]) :: listed[k])
            == Gone(txs, removed, removable)
  {
    forall i | i in removed && removable(txs[i])
      ensures exists k :: 0 <= k < |listed| && removable(listed[k]) && listed[k] == txs[i]
    {
      var k :| 0 <= k < |listed| && listed[k] == txs[i];
    }
  }
}
