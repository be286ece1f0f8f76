/**
 The reset loop of the pool aggregator, mempool/txpool/txpool.go: chain heads and
 sync requests come in, and at most one reset of the subpools runs at a time.
 */
module TxPoolLoop {
  import opened Prelude

  /** A header is known by its identity, a sync caller by the number of its request. */
  type Header = nat
  type Waiter = nat

  /** A reset goroutine; `started` is the time of its start. */
  datatype Reset = Reset(oldHead: Header, newHead: Header, started: nat)

  /** The head of `for`, blocked in `select`, or returned. */
  datatype Pc = Top | Wait | Stopped

  datatype State = State(
    // the loop's variables
    pc: Pc,
    oldHead: Header,
    newHead: Header,
    resetBusy: bool,
    resetForced: bool,
    resetWaiter: Option<Waiter>,
    // the world around it, and what has happened so far
    inFlight: seq<Reset>,
    clock: nat,
    requested: seq<nat>,               // requested[w]: when waiter w registered
    finished: seq<(Reset, nat)>,       // resets that are done, with their times
    succeeded: map<Waiter, nat>,       // waiters told nil, with the times
    failed: set<Waiter>,               // waiters told that the pool is gone
    overwritten: set<Waiter>)          // waiters replaced by a later request

  datatype Action =
    | Begin                    // top of the loop: start a reset if one is needed and none runs
    | NewHead(head: Header)    // a chain head event
    | ResetDone                // the running reset reports
    | Sync                     // a caller asks for a forced reset
    | Quit                     // the pool is closed

  function Init(head: Header): State {
    State(Top, head, head, false, false, None, [], 0, [], [], map[], {}, {})
  }

  predicate Enabled(s: State, a: Action) {
    match a
    case Begin => s.pc == Top
    case ResetDone => s.pc == Wait && s.inFlight != []
    case _ => s.pc == Wait
  }

  predicate Needed(s: State) {
    s.newHead != s.oldHead || s.resetForced
  }

  function Step(s0: State, a: Action): State
    requires Enabled(s0, a)
  {
    var s := s0.(clock := s0.clock + 1);
    match a
    case Begin =>
      if Needed(s) && !s.resetBusy then
        s.(pc := Wait, resetBusy := true, resetForced := false,
           inFlight := s.inFlight + [Reset(s.oldHead, s.newHead, s0.clock)])
      else
        s.(pc := Wait)
    case NewHead(head) =>
      s.(pc := Top, newHead := head)
    case ResetDone =>
      var r := s.inFlight[0];
      var t := s.(pc := Top, oldHead := r.newHead, resetBusy := false, inFlight := s.inFlight[1..],
                  finished := s.finished + [(r, s0.clock)]);
      if s.resetWaiter.Some? && !s.resetForced then
        t.(succeeded := s.succeeded[s.resetWaiter.value := s0.clock], resetWaiter := None)
      else t
    case Sync =>
      var w := |s.requested|;
      s.(pc := Top, resetForced := true, resetWaiter := Some(w), requested := s.requested + [s0.clock],
         overwritten := if s.resetWaiter.Some? then s.overwritten + {s.resetWaiter.value} else s.overwritten)
    case Quit =>
      if s.resetWaiter.Some? then
        s.(pc := Stopped, failed := s.failed + {s.resetWaiter.value}, resetWaiter := None)
      else s.(pc := Stopped)
  }

  predicate ValidRun(s: State, acts: seq<Action>)
    decreases |acts|
  {
    acts == [] || (Enabled(s, acts[0]) && ValidRun(Step(s, acts[0]), acts[1..]))
  }

  function Exec(s: State, acts: seq<Action>): State
    requires ValidRun(s, acts)
    decreases |acts|
  {
    if acts == [] then s else Exec(Step(s, acts[0]), acts[1..])
  }

  // ---------- What every step keeps ----------

  ghost predicate OneReset(s: State) {
    && |s.inFlight| <= 1
    && (s.resetBusy <==> s.inFlight != [])
    && (forall i | 0 <= i < |s.inFlight| :: s.inFlight[i].started < s.clock)
    && (s.pc == Wait ==> s.resetBusy || !Needed(s))
  }

  /** The waiter still has its reset to come: pending, or running and started after the request. */
  ghost predicate WaiterIsServed(s: State) {
    && (forall w | 0 <= w < |s.requested| :: s.requested[w] < s.clock)
    && (s.resetWaiter.Some? ==>
          && s.resetWaiter.value < |s.requested|
          && (s.resetForced || (s.inFlight != [] && s.requested[s.resetWaiter.value] < s.inFlight[0].started)))
    && (s.resetForced && s.pc != Stopped ==> s.resetWaiter.Some?)
  }

  /** A reset that started after the request had finished by the time the waiter was told. */
  ghost predicate Justified(s: State, w: Waiter) {
    && w < |s.requested| && w in s.succeeded
    && exists i :: 0 <= i < |s.finished| && s.requested[w] < s.finished[i].0.started && s.finished[i].1 <= s.succeeded[w]
  }

  /** Every request is waiting, answered or overwritten, and only one of these. */
  ghost predicate EveryoneAccounted(s: State) {
    && (forall w | w in s.succeeded :: Justified(s, w))
    && (forall w | 0 <= w < |s.requested| ::
          s.resetWaiter == Some(w) || w in s.succeeded || w in s.failed || w in s.overwritten)
    && (forall w | w in s.failed || w in s.overwritten || w in s.succeeded :: w < |s.requested| && s.resetWaiter != Some(w))
    && s.failed !! s.overwritten && s.failed !! s.succeeded.Keys && s.overwritten !! s.succeeded.Keys
    && (s.pc == Stopped ==> s.resetWaiter.None?)
    && (s.pc != Stopped ==> s.failed == {})
  }

  ghost predicate Inv(s: State) {
    OneReset(s) && WaiterIsServed(s) && EveryoneAccounted(s)
  }

  lemma StillJustified(s: State, s': State, w: Waiter)
    requires Justified(s, w) && s.requested <= s'.requested && s.finished <= s'.finished
    requires w in s'.succeeded && s'.succeeded[w] == s.succeeded[w]
    ensures Justified(s', w)
  {
    var i :| 0 <= i < |s.finished| && s.requested[w] < s.finished[i].0.started && s.finished[i].1 <= s.succeeded[w];
    assert s'.finished[i] == s.finished[i];
  }

  lemma StepKeepsAccounts(s: State, a: Action)
    requires Inv(s) && Enabled(s, a)
    ensures EveryoneAccounted(Step(s, a))
  {
    hide Justified;
    var s' := Step(s, a);
    forall w | w in s'.succeeded ensures Justified(s', w) {
      if w in s.succeeded {
        assert s.resetWaiter != Some(w);
        StillJustified(s, s', w);
      } else {
        NewlyJustified(s, w);
      }
    }
  }

  lemma NewlyJustified(s: State, w: Waiter)
    requires WaiterIsServed(s) && OneReset(s) && Enabled(s, ResetDone)
    requires s.resetWaiter == Some(w) && !s.resetForced
    ensures Justified(Step(s, ResetDone), w)
  {
    var s' := Step(s, ResetDone);
    assert s'.finished[|s.finished|] == (s.inFlight[0], s.clock);
  }

  lemma StepKeepsInv(s: State, a: Action)
    requires Inv(s) && Enabled(s, a)
    ensures Inv(Step(s, a))
  {
    StepKeepsAccounts(s, a);
    hide EveryoneAccounted;
  }

  lemma {:induction false} RunKeepsInv(s: State, acts: seq<Action>)
    requires Inv(s) && ValidRun(s, acts)
    ensures Inv(Exec(s, acts))
    decreases |acts|
  {
    if acts != [] {
      StepKeepsInv(s, acts[0]);
      RunKeepsInv(Step(s, acts[0]), acts[1..]);
    }
  }

  // ---------- Over every run ----------

  /**
   At most one reset is outstanding, and whenever the loop waits, either a reset is
   running or the pool has caught up with the newest head and nothing is forced.
   */
  lemma LoopIsSafe(head: Header, acts: seq<Action>)
    requires ValidRun(Init(head), acts)
    ensures var s := Exec(Init(head), acts);
            && |s.inFlight| <= 1
            && (s.pc == Wait ==> s.inFlight != [] || (s.newHead == s.oldHead && !s.resetForced))
  {
    RunKeepsInv(Init(head), acts);
  }

  /** A waiter is told success only once a reset that started after its request has finished. */
  lemma SuccessIsJustified(head: Header, acts: seq<Action>, w: Waiter)
    requires ValidRun(Init(head), acts) && w in Exec(Init(head), acts).succeeded
    ensures var s := Exec(Init(head), acts);
            && w < |s.requested|
            && exists i :: 0 <= i < |s.finished| && s.requested[w] < s.finished[i].0.started
                           && s.finished[i].1 <= s.succeeded[w]
  {
    RunKeepsInv(Init(head), acts);
    assert Justified(Exec(Init(head), acts), w);
  }

  /**
   When the loop has stopped, a waiter has got an answer exactly if no later request
   took its place: a second sync before the first is answered leaves the first hanging.
   */
  lemma AnsweredUnlessOverwritten(head: Header, acts: seq<Action>, w: Waiter)
    requires ValidRun(Init(head), acts) && Exec(Init(head), acts).pc == Stopped && w < |Exec(Init(head), acts).requested|
    ensures var s := Exec(Init(head), acts); w in s.succeeded || w in s.failed <==> w !in s.overwritten
  {
    RunKeepsInv(Init(head), acts);
  }

  lemma {:induction false} OverwrittenForGood(s: State, acts: seq<Action>, w: Waiter)
    requires Inv(s) && ValidRun(s, acts) && w in s.overwritten
    ensures w in Exec(s, acts).overwritten
    decreases |acts|
  {
    if acts != [] {
      StepKeepsInv(s, acts[0]);
      OverwrittenForGood(Step(s, acts[0]), acts[1..], w);
    }
  }

  /** A waiter that a second sync finds registered never gets an answer, whatever follows. */
  lemma SecondSyncHangsTheFirst(head: Header, acts: seq<Action>, more: seq<Action>, w: Waiter)
    requires ValidRun(Init(head), acts)
    requires var s := Exec(Init(head), acts);
             Enabled(s, Sync) && s.resetWaiter == Some(w) && ValidRun(Step(s, Sync), more)
    ensures var s := Exec(Step(Exec(Init(head), acts), Sync), more); w !in s.succeeded && w !in s.failed
  {
    RunKeepsInv(Init(head), acts);
    var s := Step(Exec(Init(head), acts), Sync);
    StepKeepsInv(Exec(Init(head), acts), Sync);
    OverwrittenForGood(s, more, w);
    RunKeepsInv(s, more);
  }

  /** The shortest way there: sync is called twice. */
  lemma SyncTwice()
    ensures ValidRun(Init(0), [Begin, Sync, Begin, Sync])
    ensures Exec(Init(0), [Begin, Sync, Begin, Sync]).overwritten == {0}
  {
    var s1 := Step(Init(0), Begin);
    var s2 := Step(s1, Sync);
    var s3 := Step(s2, Begin);
    assert [Begin, Sync, Begin, Sync][1..] == [Sync, Begin, Sync];
    assert [Sync, Begin, Sync][1..] == [Begin, Sync];
    assert [Begin, Sync][1..] == [Sync] && [Sync][1..] == [];
    assert ValidRun(s3, [Sync]) && Exec(s3, [Sync]) == Step(s3, Sync);
    assert ValidRun(s2, [Begin, Sync]) && Exec(s2, [Begin, Sync]) == Exec(s3, [Sync]);
    assert ValidRun(s1, [Sync, Begin, Sync]) && Exec(s1, [Sync, Begin, Sync]) == Exec(s2, [Begin, Sync]);
  }

  /** The head of the last head event, or the one the loop began with. */
  function LastHead(head: Header, acts: seq<Action>): Header
    decreases |acts|
  {
    if acts == [] then head else LastHead(if acts[0].NewHead? then acts[0].head else head, acts[1..])
  }

  lemma {:induction false} NewHeadIsLast(s: State, acts: seq<Action>)
    requires ValidRun(s, acts)
    ensures Exec(s, acts).newHead == LastHead(s.newHead, acts)
    decreases |acts|
  {
    if acts != [] { NewHeadIsLast(Step(s, acts[0]), acts[1..]); }
  }

  /** Where the first i finished resets have led. */
  function HeadBefore(head: Header, finished: seq<(Reset, nat)>, i: nat): Header
    requires i <= |finished|
  {
    if i == 0 then head else finished[i - 1].0.newHead
  }

  /** The resets done so far lead from head to head without a gap, and a running one goes on from there. */
  ghost predicate Chained(head: Header, s: State) {
    && (forall i | 0 <= i < |s.finished| :: s.finished[i].0.oldHead == HeadBefore(head, s.finished, i))
    && s.oldHead == HeadBefore(head, s.finished, |s.finished|)
    && (s.inFlight != [] ==> s.inFlight[0].oldHead == s.oldHead)
  }

  lemma {:induction false} RunKeepsChain(head: Header, s: State, acts: seq<Action>)
    requires Inv(s) && Chained(head, s) && ValidRun(s, acts)
    ensures Chained(head, Exec(s, acts))
    decreases |acts|
  {
    if acts != [] {
      hide WaiterIsServed, EveryoneAccounted, Chained;
      StepKeepsInv(s, acts[0]);
      StepKeepsChain(head, s, acts[0]);
      RunKeepsChain(head, Step(s, acts[0]), acts[1..]);
    }
  }

  lemma StepKeepsChain(head: Header, s: State, a: Action)
    requires OneReset(s) && Chained(head, s) && Enabled(s, a)
    ensures Chained(head, Step(s, a))
  {
    var s' := Step(s, a);
    if a.ResetDone? {
      forall i | 0 <= i < |s'.finished| ensures s'.finished[i].0.oldHead == HeadBefore(head, s'.finished, i) {
        if i < |s.finished| {
          assert s.finished[i].0.oldHead == HeadBefore(head, s.finished, i);
        }
      }
    }
  }

  /**
   The loop follows the head events: its newest head is the last one announced, the resets
   it runs lead from head to head beginning with the initial one, and a reset that starts
   goes from where the last one ended to the last head announced.
   */
  lemma ResetsFollowHeads(head: Header, acts: seq<Action>)
    requires ValidRun(Init(head), acts)
    ensures var s := Exec(Init(head), acts);
            && s.newHead == LastHead(head, acts) && Chained(head, s)
            && (Enabled(s, Begin) ==>
                  var s' := Step(s, Begin);
                  s'.inFlight == s.inFlight || s'.inFlight == [Reset(s.oldHead, LastHead(head, acts), s.clock)])
  {
    NewHeadIsLast(Init(head), acts);
    RunKeepsChain(head, Init(head), acts);
    RunKeepsInv(Init(head), acts);
  }

  // ---------- Progress ----------

  predicate Internal(a: Action) {
    a.Begin? || a.ResetDone?
  }

  /** The head the loop will be at once the running reset is done. */
  function Target(s: State): Header {
    if s.inFlight != [] then s.inFlight[0].newHead else s.oldHead
  }

  function Work(s: State): nat {
    (if s.newHead != Target(s) || s.resetForced then 4 else 0) + 2 * |s.inFlight| + (if s.pc == Top then 1 else 0)
  }

  /**
   Without new events the loop catches up: each of its own steps leaves less to do, and
   when none is left the pool is at the newest head and nobody waits.
   */
  lemma LoopCatchesUp(head: Header, acts: seq<Action>)
    requires ValidRun(Init(head), acts) && Exec(Init(head), acts).pc != Stopped
    ensures var s := Exec(Init(head), acts);
            && (forall a | Internal(a) && Enabled(s, a) :: Work(Step(s, a)) < Work(s))
            && ((forall a | Internal(a) :: !Enabled(s, a)) ==>
                  s.newHead == s.oldHead && !s.resetForced && s.resetWaiter.None?)
  {
    RunKeepsInv(Init(head), acts);
    var s := Exec(Init(head), acts);
    hide EveryoneAccounted;
    if forall a | Internal(a) :: !Enabled(s, a) {
      assert Internal(Begin) && Internal(ResetDone);
      assert !Enabled(s, Begin) && !Enabled(s, ResetDone);
    }
  }

  // ---------- The loop itself ----------

  lemma {:induction false} ExecAppend(s: State, acts: seq<Action>, a: Action)
    requires ValidRun(s, acts) && Enabled(Exec(s, acts), a)
    ensures ValidRun(s, acts + [a]) && Exec(s, acts + [a]) == Step(Exec(s, acts), a)
    decreases |acts|
  {
    hide Step;
    if acts == [] {
      assert acts + [a] == [a];
    } else {
      assert (acts + [a])[1..] == acts[1..] + [a];
      ExecAppend(Step(s, acts[0]), acts[1..], a);
    }
  }

  lemma {:induction false} ValidRunPrefix(s: State, acts: seq<Action>, n: nat)
    requires ValidRun(s, acts) && n < |acts|
    ensures ValidRun(s, acts[..n]) && Enabled(Exec(s, acts[..n]), acts[n])
    decreases |acts|
  {
    if n > 0 {
      assert acts[..n][1..] == acts[1..][..n - 1];
      ValidRunPrefix(Step(s, acts[0]), acts[1..], n - 1);
    }
  }

  /**
   TxPool.loop with its own variables, driven by a schedule of the events it selects.
   `resetBusy` is the channel's only slot.  Taking the busy marker back never blocks, and
   only one reset is ever spawned at a time.
   */
  method Loop(head: Header, schedule: seq<Action>) returns (final: State)
    requires ValidRun(Init(head), schedule)
    ensures final == Exec(Init(head), schedule)
  {
    hide EveryoneAccounted, WaiterIsServed;
    var oldHead, newHead, resetBusy, resetForced, resetWaiter: Option<Waiter> := head, head, false, false, None;
    var pc, resets: seq<Reset>, clock: nat := Top, [], 0;
    var requested: seq<nat>, finished: seq<(Reset, nat)>, succeeded: map<Waiter, nat> := [], [], map[];
    var failed: set<Waiter>, overwritten: set<Waiter> := {}, {};
    for n := 0 to |schedule|
      invariant ValidRun(Init(head), schedule[..n])
      invariant State(pc, oldHead, newHead, resetBusy, resetForced, resetWaiter, resets, clock, requested,
                      finished, succeeded, failed, overwritten) == Exec(Init(head), schedule[..n])
    {
      ValidRunPrefix(Init(head), schedule, n);
      RunKeepsInv(Init(head), schedule[..n]);
      ExecAppend(Init(head), schedule[..n], schedule[n]);
      assert schedule[..n + 1] == schedule[..n] + [schedule[n]];
      match schedule[n] {
        case Begin =>
          if newHead != oldHead || resetForced {
            if !resetBusy {
              assert resets == [];
              resetBusy := true;
              resets := resets + [Reset(oldHead, newHead, clock)];
              resetForced := false;
            }
          }
          pc := Wait;
        case NewHead(h) =>
          newHead := h;
          pc := Top;
        case ResetDone =>
          var reset := resets[0];
          resets, finished := resets[1..], finished + [(reset, clock)];
          oldHead := reset.newHead;
          assert resetBusy;
          resetBusy := false;
          if resetWaiter != None && !resetForced {
            succeeded := succeeded[resetWaiter.value := clock];
            resetWaiter := None;
          }
          pc := Top;
        case Sync =>
          if resetWaiter != None {
            overwritten := overwritten + {resetWaiter.value};
          }
          resetForced := true;
          resetWaiter := Some(|requested|);
          requested := requested + [clock];
          pc := Top;
        case Quit =>
          if resetWaiter != None {
            failed := failed + {resetWaiter.value};
            resetWaiter := None;
          }
          pc := Stopped;
      }
      clock := clock + 1;
    }
    assert schedule[..|schedule|] == schedule;
    final := State(pc, oldHead, newHead, resetBusy, resetForced, resetWaiter, resets, clock, requested,
                   finished, succeeded, failed, overwritten);
  }
}

/** How TxPool.Add splits a batch over the subpools and puts the errors back in order. */
module TxPoolAdd {

  /** A subpool: which txs it accepts, and the error it gives for each tx of a batch. */
  datatype SubPool<!T, !E> = SubPool(filter: T -> bool, add: seq<T> -> seq<E>)

  /** The first subpool from j on that accepts the tx, or the number of subpools. */
  function FirstFrom<T, E>(pools: seq<SubPool<T, E>>, tx: T, j: nat): (r: nat)
    requires j <= |pools|
    ensures j <= r <= |pools| && (r < |pools| ==> pools[r].filter(tx))
    ensures forall k | j <= k < r :: !pools[k].filter(tx)
    decreases |pools| - j
  {
    if j == |pools| || pools[j].filter(tx) then j else FirstFrom(pools, tx, j + 1)
  }

  function First<T, E>(pools: seq<SubPool<T, E>>, tx: T): nat {
    FirstFrom(pools, tx, 0)
  }

  /** The txs that go to subpool j, in their original order. */
  function Share<T, E>(pools: seq<SubPool<T, E>>, txs: seq<T>, j: nat): seq<T> {
    if txs == [] then []
    else
      var n := |txs| - 1;
      Share(pools, txs[..n], j) + if First(pools, txs[n]) == j then [txs[n]] else []
  }

  /** The position of tx i within its subpool's share. */
  function Rank<T, E>(pools: seq<SubPool<T, E>>, txs: seq<T>, i: nat): nat
    requires i < |txs|
  {
    |Share(pools, txs[..i], First(pools, txs[i]))|
  }

  lemma {:induction false} ShareExtends<T, E>(pools: seq<SubPool<T, E>>, txs: seq<T>, i: nat, j: nat)
    requires i <= |txs|
    ensures Share(pools, txs[..i], j) <= Share(pools, txs, j)
    decreases |txs|
  {
    if i == |txs| {
      assert txs[..i] == txs;
    } else {
      var n := |txs| - 1;
      ShareExtends(pools, txs[..n], i, j);
      assert txs[..n][..i] == txs[..i];
    }
  }

  /** Tx i is at its rank in the share of the first subpool that accepts it. */
  lemma RankFindsTx<T, E>(pools: seq<SubPool<T, E>>, txs: seq<T>, i: nat)
    requires i < |txs|
    ensures var share := Share(pools, txs, First(pools, txs[i]));
            Rank(pools, txs, i) < |share| && share[Rank(pools, txs, i)] == txs[i]
  {
    ShareExtends(pools, txs, i + 1, First(pools, txs[i]));
    assert txs[..i + 1][..i] == txs[..i];
  }

  /** Different txs of one subpool have different ranks, so no error is used twice. */
  lemma RankIsInjective<T, E>(pools: seq<SubPool<T, E>>, txs: seq<T>, i: nat, k: nat)
    requires i < k < |txs| && First(pools, txs[i]) == First(pools, txs[k])
    ensures Rank(pools, txs, i) < Rank(pools, txs, k)
  {
    var j := First(pools, txs[i]);
    ShareExtends(pools, txs[..k], i + 1, j);
    assert txs[..k][..i + 1] == txs[..i + 1] && txs[..i + 1][..i] == txs[..i];
  }

  /** What Add answers for tx i: its subpool's error for it, or that no subpool supports it. */
  ghost function Answer<T(!new), E>(pools: seq<SubPool<T, E>>, txs: seq<T>, unsupported: T -> E, i: nat): E
    requires i < |txs| && OneErrorEach(pools)
  {
    var j := First(pools, txs[i]);
    RankFindsTx(pools, txs, i);
    if j == |pools| then unsupported(txs[i]) else
    assert |pools[j].add(Share(pools, txs, j))| == |Share(pools, txs, j)|;
    pools[j].add(Share(pools, txs, j))[Rank(pools, txs, i)]
  }

  ghost predicate OneErrorEach<T(!new), E>(pools: seq<SubPool<T, E>>) {
    forall j, batch | 0 <= j < |pools| :: |pools[j].add(batch)| == |batch|
  }

  /** TxPool.Add: split, add, and piece the errors back together. */
  method Add<T(!new), E>(pools: seq<SubPool<T, E>>, txs: seq<T>, unsupported: T -> E) returns (errs: seq<E>)
    requires OneErrorEach(pools)
    ensures |errs| == |txs| && forall i | 0 <= i < |txs| :: errs[i] == Answer(pools, txs, unsupported, i)
  {
    var txsets, splits := Split(pools, txs);
    var errsets: seq<seq<E>> := [];
    for j := 0 to |pools|
      invariant |errsets| == j && forall k | 0 <= k < j :: errsets[k] == pools[k].add(txsets[k])
    {
      errsets := errsets + [pools[j].add(txsets[j])];
    }
    errs := [];
    for i := 0 to |txs|
      invariant |errs| == i && |errsets| == |pools|
      invariant forall k | 0 <= k < i :: errs[k] == Answer(pools, txs, unsupported, k)
      invariant forall j | 0 <= j < |pools| :: Consumed(pools, txs, i, j, errsets[j])
    {
      hide Consumed, Share;
      var split := splits[i];
      StepConsumes(pools, txs, unsupported, i, errsets);
      if split == -1 {
        errs := errs + [unsupported(txs[i])];
      } else {
        errs := errs + [errsets[split][0]];
        errsets := errsets[split := errsets[split][1..]];
      }
    }
  }

  /** What is left of subpool j's errors after the first i txs have taken theirs. */
  ghost predicate Consumed<T(!new), E>(pools: seq<SubPool<T, E>>, txs: seq<T>, i: nat, j: nat, left: seq<E>)
    requires i <= |txs| && j < |pools|
  {
    var all := pools[j].add(Share(pools, txs, j));
    |Share(pools, txs[..i], j)| <= |all| && left == all[|Share(pools, txs[..i], j)|..]
  }

  lemma StepConsumes<T(!new), E>(pools: seq<SubPool<T, E>>, txs: seq<T>, unsupported: T -> E, i: nat, errsets: seq<seq<E>>)
    requires i < |txs| && OneErrorEach(pools) && |errsets| == |pools|
    requires forall j | 0 <= j < |pools| :: Consumed(pools, txs, i, j, errsets[j])
    ensures var f := First(pools, txs[i]);
            && (f < |pools| ==> errsets[f] != [] && errsets[f][0] == Answer(pools, txs, unsupported, i))
            && forall j | 0 <= j < |pools| ::
                 Consumed(pools, txs, i + 1, j, if j == f then errsets[j][1..] else errsets[j])
  {
    var f := First(pools, txs[i]);
    assert txs[..i + 1][..i] == txs[..i];
    RankFindsTx(pools, txs, i);
    if f < |pools| {
      assert Consumed(pools, txs, i, f, errsets[f]);
      assert |pools[f].add(Share(pools, txs, f))| == |Share(pools, txs, f)|;
    }
    forall j | 0 <= j < |pools|
      ensures j == f ==> errsets[j] != []
      ensures Consumed(pools, txs, i + 1, j, if j == f then errsets[j][1..] else errsets[j])
    {
      assert Consumed(pools, txs, i, j, errsets[j]);
    }
  }

  /** The first loop of Add: every tx to the first subpool that accepts it; -1 if there is none. */
  method Split<T, E>(pools: seq<SubPool<T, E>>, txs: seq<T>) returns (txsets: seq<seq<T>>, splits: seq<int>)
    ensures |txsets| == |pools| && forall j | 0 <= j < |pools| :: txsets[j] == Share(pools, txs, j)
    ensures |splits| == |txs| && forall i | 0 <= i < |txs| ::
              splits[i] == if First(pools, txs[i]) == |pools| then -1 else First(pools, txs[i])
  {
    txsets, splits := seq(|pools|, _ => []), [];
    for i := 0 to |txs|
      invariant |txsets| == |pools| && forall j | 0 <= j < |pools| :: txsets[j] == Share(pools, txs[..i], j)
      invariant |splits| == i && forall k | 0 <= k < i ::
                  splits[k] == if First(pools, txs[k]) == |pools| then -1 else First(pools, txs[k])
    {
      assert txs[..i + 1][..i] == txs[..i];
      var split := -1;
      var j := 0;
      while j < |pools|
        invariant 0 <= j <= |pools| && split == -1 && First(pools, txs[i]) == FirstFrom(pools, txs[i], j)
      {
        if pools[j].filter(txs[i]) {
          txsets := txsets[j := txsets[j] + [txs[i]]];
          split := j;
          break;
        }
        j := j + 1;
      }
      splits := splits + [split];
    }
    assert txs[..|txs|] == txs;
  }
}
