/**
 The event loop of mempool/recheck_pool.go: one background recheck at a time,
 requests that arrive meanwhile coalesced into the next run, done channels
 handed to the callers, and shutdown.

 A channel is a number.  `closed` holds the channels closed so far; closing one
 of them again, which panics in Go, sets `panicked`, and so does launching a run
 with no request to read the head from.
 */
module RecheckScheduler {
  import opened Prelude

  type Chan = nat

  /** A recheck request; `id` is its position among all requests the loop received. */
  datatype Request = Request(id: nat, newHead: int)

  /** A background `runRecheck(done, newHead, cancelled)` that was started. */
  datatype Run = Run(done: Chan, req: Request, cancel: Chan)

  /** Where the loop is: the head of `for`, blocked in `select`, blocked on the last run, gone. */
  datatype Pc = Top | Select | Draining | Exited

  datatype State = State(
    // the loop's variables
    pc: Pc,
    curDone: Option<Chan>,
    nextDone: Chan,
    launchNextRun: bool,
    recheckReq: Option<Request>,
    cancelCh: Option<Chan>,
    // the world around it
    nextChan: Chan,
    closed: set<Chan>,
    panicked: bool,
    inFlight: seq<Run>,
    shutdown: bool,
    // what has happened so far: handed[i] is the channel that answered requests[i]
    requests: seq<Request>,
    handed: seq<Chan>,
    launched: seq<Run>)

  datatype Action =
    | Launch               // top of the loop: start a run if one is due
    | Trigger(head: int)   // select receives a request and answers with nextDone
    | RunEnds              // the background run returns, closing its done channel
    | ObserveDone          // select sees curDone closed
    | Close                // some caller closes the shutdown channel (once)
    | ObserveShutdown      // select sees the shutdown channel closed
    | FinishDrain          // curDone is closed or absent: close nextDone and return
    | LateTrigger          // a trigger after the loop has gone

  function Init(): State {
    State(Top, None, 0, false, None, None, 1, {}, false, [], false, [], [], [])
  }

  predicate Enabled(s: State, a: Action) {
    match a
    case Launch => s.pc == Top
    case Trigger(_) => s.pc == Select
    case RunEnds => s.inFlight != []
    case ObserveDone => s.pc == Select && s.curDone.Some? && s.curDone.value in s.closed
    case Close => true
    case ObserveShutdown => s.pc == Select && s.shutdown
    case FinishDrain => s.pc == Draining && (s.curDone.Some? ==> s.curDone.value in s.closed)
    case LateTrigger => s.pc == Exited
  }

  /** Go's close. */
  function Closing(s: State, c: Chan): State {
    s.(closed := s.closed + {c}, panicked := s.panicked || c in s.closed)
  }

  function Step(s: State, a: Action): State
    requires Enabled(s, a)
  {
    match a
    case Launch =>
      if s.curDone.None? && s.launchNextRun then
        if s.recheckReq.None? then s.(panicked := true) else
        var run := Run(s.nextDone, s.recheckReq.value, s.nextChan);
        s.(pc := Select, cancelCh := Some(s.nextChan), curDone := Some(s.nextDone), nextDone := s.nextChan + 1,
           nextChan := s.nextChan + 2, launchNextRun := false, recheckReq := None,
           inFlight := s.inFlight + [run], launched := s.launched + [run])
      else
        s.(pc := Select)
    case Trigger(head) =>
      var req := Request(|s.requests|, head);
      var t := if s.curDone.Some? && s.cancelCh.Some? then Closing(s, s.cancelCh.value).(cancelCh := None) else s;
      t.(pc := Top, recheckReq := Some(req), launchNextRun := true,
         requests := s.requests + [req], handed := s.handed + [s.nextDone])
    case RunEnds =>
      Closing(s, s.inFlight[0].done).(inFlight := s.inFlight[1..])
    case ObserveDone =>
      s.(pc := Top, curDone := None, cancelCh := None)
    case Close =>
      s.(shutdown := true)
    case ObserveShutdown =>
      var t := if s.curDone.Some? && s.cancelCh.Some? then Closing(s, s.cancelCh.value) else s;
      t.(pc := Draining)
    case FinishDrain =>
      Closing(s, s.nextDone).(pc := Exited)
    case LateTrigger =>
      Closing(s, s.nextChan).(nextChan := s.nextChan + 1)
  }

  predicate ValidRun(s: State, acts: seq<Action>)
    decreases |acts|
  {
    acts == [] || (Enabled(s, acts[0]) && ValidRun(Step(s, acts[0]), acts[1..]))
  }

  function Exec(s: State, acts: seq<Action>): State
    requires ValidRun(s, acts)
    decreases |acts|
  {
    if acts == [] then s else Exec(Step(s, acts[0]), acts[1..])
  }

  // ---------- What every step keeps ----------

  /** Every channel in sight has been made already. */
  ghost predicate Allocated(s: State) {
    && s.nextDone < s.nextChan
    && (forall c | c in s.closed :: c < s.nextChan)
    && (forall k | 0 <= k < |s.launched| :: s.launched[k].done < s.nextChan && s.launched[k].cancel < s.nextChan)
  }

  /** The channel for the next run is open, and no run has been given it. */
  ghost predicate NextIsFresh(s: State) {
    && (s.pc != Exited ==> s.nextDone !in s.closed)
    && (forall k | 0 <= k < |s.launched| ::
          s.launched[k].done != s.nextDone && s.launched[k].cancel != s.nextDone)
  }

  /** Only the newest run can be in flight, and it is so exactly while its done channel is open. */
  ghost predicate OneInFlight(s: State) {
    && |s.inFlight| <= 1
    && (s.curDone.None? ==> s.inFlight == [])
    && (s.curDone.Some? ==> s.launched != [] && s.curDone.value == s.launched[|s.launched| - 1].done)
    && (s.inFlight != [] ==> s.launched != [] && s.inFlight[0] == s.launched[|s.launched| - 1])
    && (forall k | 0 <= k < |s.launched| ::
          s.launched[k].done in s.closed <==> !(k == |s.launched| - 1 && s.inFlight != []))
  }

  /** The newest run is cancelled exactly when a newer request is waiting or the loop is shutting down. */
  ghost predicate CancelTracksRequests(s: State) {
    && (s.curDone.Some? ==> s.launched != [])
    && (s.curDone.Some? && (s.pc == Top || s.pc == Select) ==>
          var cancel := s.launched[|s.launched| - 1].cancel;
          && (s.cancelCh.Some? <==> !s.launchNextRun)
          && (s.cancelCh.Some? ==> s.cancelCh.value == cancel)
          && (cancel in s.closed <==> s.launchNextRun))
    && (s.curDone.Some? && (s.pc == Draining || s.pc == Exited) ==>
          s.launched[|s.launched| - 1].cancel in s.closed)
    && (s.curDone.None? ==> s.cancelCh.None?)
    && (forall k, j | 0 <= k < |s.launched| && 0 <= j < |s.launched| :: s.launched[k].cancel != s.launched[j].done)
  }

  /** A launch is due exactly when a request waits, it is the latest one, and the loop never waits idly with one due. */
  ghost predicate PendingIsLatest(s: State) {
    && (s.launchNextRun <==> s.recheckReq.Some?)
    && (s.launchNextRun ==> s.requests != [] && s.recheckReq.value == s.requests[|s.requests| - 1])
    && (forall i | 0 <= i < |s.requests| :: s.requests[i].id == i)
    && (s.pc == Select && s.launchNextRun ==> s.curDone.Some?)
  }

  /** Run k was started for request i or a later one and owns the channel handed out for i. */
  ghost predicate Serves(s: State, k: nat, i: nat)
    requires i < |s.handed| && k < |s.launched|
  {
    s.launched[k].done == s.handed[i] && i <= s.launched[k].req.id
  }

  /** Trigger i has its run. */
  ghost predicate Served(s: State, i: nat)
    requires i < |s.handed|
  {
    exists k :: 0 <= k < |s.launched| && Serves(s, k, i)
  }

  ghost predicate Answered(s: State) {
    && |s.handed| == |s.requests|
    && (forall k | 0 <= k < |s.launched| :: s.launched[k].req in s.requests)
    && (forall i | 0 <= i < |s.handed| ::
          (s.handed[i] == s.nextDone && s.launchNextRun) || Served(s, i))
  }

  ghost predicate Channels(s: State) {
    && Allocated(s) && !s.panicked && NextIsFresh(s) && OneInFlight(s)
    && CancelTracksRequests(s) && PendingIsLatest(s)
    && (s.pc == Draining || s.pc == Exited ==> s.shutdown)
    && (s.pc == Exited ==> s.inFlight == [] && s.nextDone in s.closed)
  }

  ghost predicate Inv(s: State) {
    Channels(s) && Answered(s)
  }

  lemma LaunchKeepsChannels(s: State)
    requires Channels(s) && Enabled(s, Launch)
    ensures Channels(Step(s, Launch))
  {
    hide CancelTracksRequests, OneInFlight;
    LaunchKeepsOneInFlight(s);
    LaunchKeepsCancel(s);
  }

  lemma LaunchKeepsOneInFlight(s: State)
    requires Channels(s) && Enabled(s, Launch)
    ensures OneInFlight(Step(s, Launch)) && !Step(s, Launch).panicked
  {
    hide CancelTracksRequests;
  }

  lemma LaunchKeepsCancel(s: State)
    requires Channels(s) && Enabled(s, Launch)
    ensures CancelTracksRequests(Step(s, Launch))
  {
    hide OneInFlight;
  }

  lemma TriggerKeepsChannels(s: State, head: int)
    requires Channels(s) && Enabled(s, Trigger(head))
    ensures Channels(Step(s, Trigger(head)))
  {
  }

  lemma ShutdownKeepsChannels(s: State)
    requires Channels(s)
    ensures Enabled(s, ObserveShutdown) ==> Channels(Step(s, ObserveShutdown))
  {
  }

  lemma ExitKeepsChannels(s: State)
    requires Channels(s)
    ensures Enabled(s, FinishDrain) ==> Channels(Step(s, FinishDrain))
    ensures Enabled(s, LateTrigger) ==> Channels(Step(s, LateTrigger))
  {
  }

  lemma StepKeepsChannels(s: State, a: Action)
    requires Channels(s) && Enabled(s, a)
    ensures Channels(Step(s, a))
  {
    match a
    case Launch => LaunchKeepsChannels(s);
    case Trigger(head) => TriggerKeepsChannels(s, head);
    case RunEnds =>
    case ObserveDone =>
    case Close =>
    case ObserveShutdown => ShutdownKeepsChannels(s);
    case _ => ExitKeepsChannels(s);
  }

  /** A trigger that is being served stays served by the same run. */
  lemma StillServed(s: State, s': State, i: nat)
    requires i < |s.handed| && s.handed <= s'.handed && s.launched <= s'.launched
    requires Served(s, i)
    ensures Served(s', i)
  {
    var k :| 0 <= k < |s.launched| && Serves(s, k, i);
    assert Serves(s', k, i);
  }

  lemma StepKeepsAnswered(s: State, a: Action)
    requires Inv(s) && Enabled(s, a)
    ensures Answered(Step(s, a))
  {
    hide OneInFlight, CancelTracksRequests, Allocated, NextIsFresh;
    var s' := Step(s, a);
    forall i | 0 <= i < |s'.handed| && !(s'.handed[i] == s'.nextDone && s'.launchNextRun)
      ensures Served(s', i)
    {
      if s.handed[i] == s.nextDone && s.launchNextRun {
        assert Serves(s', |s.launched|, i);
      } else {
        StillServed(s, s', i);
      }
    }
  }

  lemma StepKeepsInv(s: State, a: Action)
    requires Inv(s) && Enabled(s, a)
    ensures Inv(Step(s, a))
  {
    StepKeepsChannels(s, a);
    StepKeepsAnswered(s, a);
  }

  lemma {:induction false} RunKeepsInv(s: State, acts: seq<Action>)
    requires Inv(s) && ValidRun(s, acts)
    ensures Inv(Exec(s, acts))
    decreases |acts|
  {
    if acts != [] {
      StepKeepsInv(s, acts[0]);
      RunKeepsInv(Step(s, acts[0]), acts[1..]);
    }
  }

  // ---------- Safety over every interleaving ----------

  /**
   In every interleaving: at most one recheck is in flight, no channel is closed
   twice, every channel handed out is closed or belongs to the current or the
   next run, and once the loop has gone all of them are closed.
   */
  lemma SafetyOfEveryRun(acts: seq<Action>)
    requires ValidRun(Init(), acts)
    ensures var s := Exec(Init(), acts);
            && |s.inFlight| <= 1
            && !s.panicked
            && |s.handed| == |s.requests|
            && (forall c | c in s.handed :: c in s.closed || s.curDone == Some(c) || c == s.nextDone)
            && (s.pc == Exited ==> s.inFlight == [] && forall c | c in s.handed :: c in s.closed)
  {
    RunKeepsInv(Init(), acts);
  }

  /**
   Coalescing is exact.  A due launch uses the latest request.  A handed-out
   channel is closed only once a run started for that request or a later one has
   ended, unless the loop itself closed it on its way out.  A run in flight has
   been told to stop exactly when a newer request came in or the loop drains.
   */
  lemma CoalescingIsExact(acts: seq<Action>)
    requires ValidRun(Init(), acts)
    ensures var s := Exec(Init(), acts);
            && (s.launchNextRun ==> s.requests != [] && s.recheckReq == Some(s.requests[|s.requests| - 1]))
            && |s.handed| == |s.requests|
            && (forall i | 0 <= i < |s.handed| && s.handed[i] in s.closed ::
                  || (s.pc == Exited && s.handed[i] == s.nextDone)
                  || (exists k :: 0 <= k < |s.launched| && Serves(s, k, i) && s.launched[k] !in s.inFlight))
            && (forall r | r in s.inFlight ::
                  r.cancel in s.closed <==> (s.launchNextRun || s.pc == Draining))
  {
    RunKeepsInv(Init(), acts);
    var s := Exec(Init(), acts);
    forall i | 0 <= i < |s.handed| && s.handed[i] in s.closed && !(s.pc == Exited && s.handed[i] == s.nextDone)
      ensures exists k :: 0 <= k < |s.launched| && Serves(s, k, i) && s.launched[k] !in s.inFlight
    {
      var k :| 0 <= k < |s.launched| && Serves(s, k, i);
    }
  }

  /** The run a launch starts is for the newest request, and it owns every channel handed out since the last launch. */
  lemma LaunchServesAllWaiting(acts: seq<Action>)
    requires ValidRun(Init(), acts) && Enabled(Exec(Init(), acts), Launch)
    ensures var s := Exec(Init(), acts);
            var s' := Step(s, Launch);
            s.curDone.None? && s.launchNextRun ==>
              && s.requests != []
              && s'.inFlight == [Run(s.nextDone, s.requests[|s.requests| - 1], s.nextChan)]
              && s'.cancelCh == Some(s.nextChan) && s.nextChan !in s'.closed
              && forall c | c in s.handed && c !in s.closed :: c == s'.inFlight[0].done
  {
    RunKeepsInv(Init(), acts);
  }

  /** The heads that the triggers the loop received came with, in order. */
  function TriggerHeads(acts: seq<Action>): seq<int>
    decreases |acts|
  {
    if acts == [] then [] else (if acts[0].Trigger? then [acts[0].head] else []) + TriggerHeads(acts[1..])
  }

  function HeadsOf(requests: seq<Request>): seq<int> {
    seq(|requests|, i requires 0 <= i < |requests| => requests[i].newHead)
  }

  /** The requests of a run are its triggers, each with its own head. */
  lemma {:induction false} RequestsAreTriggers(s: State, acts: seq<Action>)
    requires ValidRun(s, acts)
    ensures HeadsOf(Exec(s, acts).requests) == HeadsOf(s.requests) + TriggerHeads(acts)
    decreases |acts|
  {
    if acts != [] {
      var s' := Step(s, acts[0]);
      RequestsAreTriggers(s', acts[1..]);
      var first := if acts[0].Trigger? then [acts[0].head] else [];
      assert HeadsOf(s'.requests) == HeadsOf(s.requests) + first;
      hide Step;
      ConcatAssociates(HeadsOf(s.requests), first, TriggerHeads(acts[1..]));
    }
  }

  /** A launch that starts a run gives it the head of the last trigger before it. */
  lemma LaunchUsesLastHead(acts: seq<Action>)
    requires ValidRun(Init(), acts) && Enabled(Exec(Init(), acts), Launch)
    ensures var s := Exec(Init(), acts);
            var s' := Step(s, Launch);
            var heads := TriggerHeads(acts);
            s'.launched == s.launched
            || (heads != [] && |s'.inFlight| == 1 && s'.launched == s.launched + s'.inFlight
                && s'.inFlight[0].req.newHead == heads[|heads| - 1])
  {
    hide TriggerHeads, Exec, ValidRun;
    LaunchServesAllWaiting(acts);
    RequestsAreTriggers(Init(), acts);
    var s := Exec(Init(), acts);
    assert HeadsOf(Init().requests) == [];
    assert s.requests != [] ==> HeadsOf(s.requests)[|s.requests| - 1] == s.requests[|s.requests| - 1].newHead;
  }

  /** A trigger that comes after the loop has gone gets a channel of its own, already closed. */
  lemma LateTriggerIsAnswered(acts: seq<Action>)
    requires ValidRun(Init(), acts) && Enabled(Exec(Init(), acts), LateTrigger)
    ensures var s := Exec(Init(), acts);
            var s' := Step(s, LateTrigger);
            && s'.closed == s.closed + {s.nextChan} && s.nextChan !in s.closed && s.nextChan !in s.handed
            && !s'.panicked && s'.inFlight == [] && s'.handed == s.handed
  {
    RunKeepsInv(Init(), acts);
    var s := Exec(Init(), acts);
    forall i | 0 <= i < |s.handed| ensures s.handed[i] < s.nextChan {
      if !(s.handed[i] == s.nextDone && s.launchNextRun) {
        var k :| 0 <= k < |s.launched| && Serves(s, k, i);
      }
    }
  }

  // ---------- Progress ----------

  /** The steps that need no new caller. */
  predicate Internal(a: Action) {
    a.Launch? || a.RunEnds? || a.ObserveDone? || a.ObserveShutdown? || a.FinishDrain?
  }

  function Work(s: State): nat {
    (if s.launchNextRun then 6 else 0) + (if s.curDone.Some? then 3 else 0) + |s.inFlight|
    + (match s.pc case Top => 3 case Select => 2 case Draining => 1 case Exited => 0)
  }

  lemma InternalStepShrinksWork(s: State, a: Action)
    requires PendingIsLatest(s) && Internal(a) && Enabled(s, a)
    ensures Work(Step(s, a)) < Work(s)
  {
  }

  lemma QuiescentIsAnswered(s: State)
    requires Inv(s)
    requires !Enabled(s, Launch) && !Enabled(s, RunEnds) && !Enabled(s, ObserveDone) && !Enabled(s, FinishDrain)
    ensures forall c | c in s.handed :: c in s.closed
  {
    forall i | 0 <= i < |s.handed| ensures s.handed[i] in s.closed {
      if Served(s, i) {
        var k :| 0 <= k < |s.launched| && Serves(s, k, i);
      }
    }
  }

  /**
   No trigger waits for ever: in every reachable state each internal step leaves
   less work, and a state in which none is possible has every handed-out channel closed.
   */
  lemma EveryTriggerIsAnswered(acts: seq<Action>)
    requires ValidRun(Init(), acts)
    ensures var s := Exec(Init(), acts);
            && (forall a | Internal(a) && Enabled(s, a) :: Work(Step(s, a)) < Work(s))
            && ((forall a | Internal(a) :: !Enabled(s, a)) ==> forall c | c in s.handed :: c in s.closed)
  {
    RunKeepsInv(Init(), acts);
    var s := Exec(Init(), acts);
    forall a | Internal(a) && Enabled(s, a) ensures Work(Step(s, a)) < Work(s) {
      InternalStepShrinksWork(s, a);
    }
    if forall a | Internal(a) :: !Enabled(s, a) {
      assert Internal(Launch) && Internal(RunEnds) && Internal(ObserveDone) && Internal(FinishDrain);
      QuiescentIsAnswered(s);
    }
  }

  // ---------- The loop itself ----------

  lemma {:induction false} ExecAppend(s: State, acts: seq<Action>, a: Action)
    requires ValidRun(s, acts) && Enabled(Exec(s, acts), a)
    ensures ValidRun(s, acts + [a]) && Exec(s, acts + [a]) == Step(Exec(s, acts), a)
    decreases |acts|
  {
    if acts == [] {
      assert acts + [a] == [a];
    } else {
      assert (acts + [a])[1..] == acts[1..] + [a];
      ExecAppend(Step(s, acts[0]), acts[1..], a);
    }
  }

  lemma {:induction false} ValidRunPrefix(s: State, acts: seq<Action>, n: nat)
    requires ValidRun(s, acts) && n < |acts|
    ensures ValidRun(s, acts[..n]) && Enabled(Exec(s, acts[..n]), acts[n])
    decreases |acts|
  {
    if n > 0 {
      assert acts[..n][1..] == acts[1..][..n - 1];
      ValidRunPrefix(Step(s, acts[0]), acts[1..], n - 1);
    }
  }

  /**
   scheduleRecheckLoop with its own variables, driven by a schedule that says
   which ready case `select` takes and when the background run returns.  Every
   `close` is preceded by the check that Go would panic on, and a launch by the
   nil check on the request.
   */
  method ScheduleRecheckLoop(schedule: seq<Action>) returns (final: State)
    requires ValidRun(Init(), schedule)
    ensures final == Exec(Init(), schedule)
  {
    hide Answered;
    var curDone: Option<Chan>, nextDone: Chan, nextChan: Chan := None, 0, 1;
    var launchNextRun, recheckReq: Option<Request>, cancelCh: Option<Chan> := false, None, None;
    var pc, closed: set<Chan>, inFlight: seq<Run>, shutdown := Top, {}, [], false;
    var requests: seq<Request>, handed: seq<Chan>, launched: seq<Run> := [], [], [];
    for n := 0 to |schedule|
      invariant ValidRun(Init(), schedule[..n])
      invariant State(pc, curDone, nextDone, launchNextRun, recheckReq, cancelCh, nextChan, closed,
                      false, inFlight, shutdown, requests, handed, launched) == Exec(Init(), schedule[..n])
    {
      ValidRunPrefix(Init(), schedule, n);
      RunKeepsInv(Init(), schedule[..n]);
      ExecAppend(Init(), schedule[..n], schedule[n]);
      assert schedule[..n + 1] == schedule[..n] + [schedule[n]];
      match schedule[n] {
        case Launch =>
          if curDone == None && launchNextRun {
            assert recheckReq != None;
            cancelCh := Some(nextChan);
            var run := Run(nextDone, recheckReq.value, nextChan);
            inFlight, launched := inFlight + [run], launched + [run];
            curDone, nextDone := Some(nextDone), nextChan + 1;
            nextChan := nextChan + 2;
            launchNextRun := false;
            recheckReq := None;
          }
          pc := Select;
        case Trigger(head) =>
          var req := Request(|requests|, head);
          if curDone != None && cancelCh != None {
            assert cancelCh.value !in closed;
            closed := closed + {cancelCh.value};
            cancelCh := None;
          }
          recheckReq := Some(req);
          launchNextRun := true;
          requests, handed := requests + [req], handed + [nextDone];
          pc := Top;
        case RunEnds =>
          assert inFlight[0].done !in closed;
          closed := closed + {inFlight[0].done};
          inFlight := inFlight[1..];
        case ObserveDone =>
          curDone := None;
          cancelCh := None;
          pc := Top;
        case Close =>
          shutdown := true;
        case ObserveShutdown =>
          if curDone != None {
            if cancelCh != None {
              assert cancelCh.value !in closed;
              closed := closed + {cancelCh.value};
            }
          }
          pc := Draining;
        case FinishDrain =>
          assert nextDone !in closed;
          closed := closed + {nextDone};
          pc := Exited;
        case LateTrigger =>
          closed := closed + {nextChan};
          nextChan := nextChan + 1;
      }
    }
    assert schedule[..|schedule|] == schedule;
    final := State(pc, curDone, nextDone, launchNextRun, recheckReq, cancelCh, nextChan, closed,
                   false, inFlight, shutdown, requests, handed, launched);
  }
}
