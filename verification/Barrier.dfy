/** The join/leave barrier with bounded parallelism. Every public method is one
    critical section under the scheduler lock; blocking afterwards is left to the
    caller, who waits exactly while its state is WAITING. */
module Barriers {
  import opened BarrierState

  class Barrier {
    const parallelThreads: nat
    const threadList: array<Info>
    const runList: array<nat>
    const draw: nat -> seq<nat>  // the random numbers of each phase's shuffle
    var runListSize: nat
    var curThreadIdx: nat
    var runningThreads: nat
    var leftThreads: nat
    var phaseCount: nat
    ghost var log: Log

    ghost function Run(): seq<nat>
      reads this, runList
      requires runListSize <= runList.Length
    {
      runList[..runListSize]
    }

    /** The bookkeeping is right, also in the middle of a call. */
    ghost predicate Consistent()
      reads this, runList, threadList
    {
      && runList.Length == threadList.Length && runListSize <= runList.Length
      && Ok(threadList[..], Run(), curThreadIdx, runningThreads, leftThreads, parallelThreads, log)
      && phaseCount == PhaseEnds(log)
    }

    ghost predicate Valid()
      reads this, runList, threadList
    {
      Consistent() && Progress(threadList[..], parallelThreads)
    }

    /** lastIdx starts out as whatever the allocator left there. */
    constructor (maxThreads: nat, parallel: nat, junk: nat -> nat, draw: nat -> seq<nat>)
      ensures Valid() && fresh(threadList) && fresh(runList)
      ensures threadList.Length == maxThreads && parallelThreads == parallel && this.draw == draw && log == []
      ensures runListSize == 0 && curThreadIdx == 0
      ensures forall t: nat | t < maxThreads :: threadList[t] == Info(OFFLINE, 0, junk(t))
    {
      parallelThreads := parallel;
      this.draw := draw;
      threadList := new Info[maxThreads](i requires i >= 0 => Info(OFFLINE, 0, junk(i)));
      runList := new nat[maxThreads](i => 0);
      runListSize, curThreadIdx, runningThreads, leftThreads, phaseCount := 0, 0, 0, 0, 0;
      log := [];
      new;
      assert Those(threadList[..], RUNNING) == {} && Those(threadList[..], LEFT) == {};
      assert Those(threadList[..], WAITING) == {};
      PhaseEndsSnoc([], Woke(0));
    }

    /** One turn of the scan: wake the next thread if it waits, else pass it by. */
    method ScanOne()
      requires Consistent() && runningThreads < parallelThreads && curThreadIdx < runListSize
      modifies this`curThreadIdx, this`runningThreads, this`log, threadList
      ensures Consistent() && curThreadIdx == old(curThreadIdx) + 1
      ensures var t := runList[old(curThreadIdx)];
        t < threadList.Length &&
        if old(threadList[t].state) == WAITING then
          && threadList[..] == old(threadList[..])[t := WakeInfo(old(curThreadIdx))]
          && log == old(log) + [Woke(t)] && runningThreads == old(runningThreads) + 1
        else threadList[..] == old(threadList[..]) && log == old(log) && runningThreads == old(runningThreads)
    {
      ghost var ts, run := threadList[..], Run();
      var idx := curThreadIdx;
      curThreadIdx := curThreadIdx + 1;
      var wtid := runList[idx];
      assert wtid == run[idx];
      if threadList[wtid].state == WAITING {
        WakeOk(ts, run, idx, runningThreads, leftThreads, parallelThreads, log);
        Appended(log, Woke(wtid), wtid);
        assert threadList[wtid].futexWord == 1;  // the compare-and-swap succeeds
        threadList[wtid] := WakeInfo(idx);
        runningThreads := runningThreads + 1;
        log := log + [Woke(wtid)];
        assert threadList[..] == ts[wtid := WakeInfo(idx)];
      } else {
        SkipOk(ts, run, idx, runningThreads, leftThreads, parallelThreads, log);
      }
    }

    /** Nothing has happened to the threads but wakes. */
    ghost predicate OnlyWoken(before: seq<Info>, after: seq<Info>) {
      |after| == |before| &&
      forall t: nat | t < |before| :: after[t] == before[t] || (before[t].state == WAITING && after[t].state == RUNNING)
    }

    ghost predicate OnlyWakes(before: Log, after: Log) {
      before <= after && PhaseEnds(after) == PhaseEnds(before) && forall k | |before| <= k < |after| :: after[k].Woke?
    }

    /** Wakes waiting threads in list order while there is room. */
    method CheckRunList()
      requires Consistent()
      modifies this`curThreadIdx, this`runningThreads, this`log, threadList
      ensures Consistent()
      ensures runningThreads == parallelThreads || curThreadIdx == runListSize
      ensures runningThreads >= old(runningThreads) && curThreadIdx >= old(curThreadIdx)
      ensures OnlyWakes(old(log), log) && OnlyWoken(old(threadList[..]), threadList[..])
      ensures forall i | old(curThreadIdx) <= i < curThreadIdx && old(threadList[runList[i]].state) == WAITING ::
        threadList[runList[i]].state == RUNNING
      ensures forall t: nat | t < threadList.Length && !AheadOfScan(Run(), old(curThreadIdx), t) ::
        threadList[t] == old(threadList[t])
    {
      while runningThreads < parallelThreads && curThreadIdx < runListSize
        invariant Consistent() && curThreadIdx >= old(curThreadIdx) && runningThreads >= old(runningThreads)
        invariant OnlyWakes(old(log), log) && OnlyWoken(old(threadList[..]), threadList[..])
        invariant forall i | old(curThreadIdx) <= i < curThreadIdx && old(threadList[runList[i]].state) == WAITING ::
          threadList[runList[i]].state == RUNNING
        invariant forall t: nat | t < threadList.Length && !AheadOfScan(Run(), old(curThreadIdx), t) ::
          threadList[t] == old(threadList[t])
        decreases runListSize - curThreadIdx
      {
        ghost var ts, logged := threadList[..], log;
        Appended(log, Woke(runList[curThreadIdx]), 0);
        assert AheadOfScan(Run(), old(curThreadIdx), Run()[curThreadIdx]);
        ScanOne();
        assert OnlyWoken(ts, threadList[..]) && OnlyWakes(logged, log);
      }
    }

    /** Takes the thread at place idx off the first size entries of the list by
        moving the last one there. */
    method MoveLast(idx: nat, size: nat)
      requires idx < size <= runList.Length && forall i: nat | i < size :: runList[i] < threadList.Length
      modifies threadList, runList
      ensures threadList[..] == DropInfos(old(threadList[..]), old(runList[..size]), idx)
      ensures runList[..size - 1] == Dropped(old(runList[..size]), idx)
      ensures forall i: nat | i < idx :: runList[i] == old(runList[i])
    {
      ghost var ts, run := threadList[..], runList[..size];
      var wtid, stid := runList[idx], runList[size - 1];
      assert wtid == run[idx] && stid == run[size - 1];
      threadList[wtid] := threadList[wtid].(state := OFFLINE);
      runList[idx] := stid;
      threadList[stid] := threadList[stid].(lastIdx := idx);
      assert threadList[..] == DropInfos(ts, run, idx);
      assert runList[..size - 1] == Dropped(run, idx);
    }

    /** One pass over the list that takes the threads that LEFT off it. */
    method Cleanup()
      requires Consistent() && curThreadIdx == 0 && runningThreads == 0
      modifies this`runListSize, this`leftThreads, threadList, runList
      ensures Consistent() && leftThreads == 0
      ensures old(runListSize) - runListSize == old(leftThreads)
      ensures Run() == Cleaned(old(Run()), old(Those(threadList[..], LEFT)), 0)
      ensures forall t: nat | t < threadList.Length ::
        threadList[t].state == if old(threadList[t].state) == LEFT then OFFLINE else old(threadList[t].state)
    {
      var idx, newSize := 0, runListSize;
      ghost var before, run, left := threadList[..], Run(), leftThreads;
      while idx < newSize
        invariant 0 <= idx <= newSize <= runListSize == old(runListSize) && leftThreads == old(leftThreads)
        invariant CleanTo(before, threadList[..], runList[..newSize], left, parallelThreads, log, idx)
        invariant Cleaned(runList[..newSize], Those(before, LEFT), idx) == Cleaned(run, Those(before, LEFT), 0)
        invariant runListSize - newSize == leftThreads - left
        decreases newSize - idx, left
      {
        ghost var ts, r := threadList[..], runList[..newSize];
        var wtid := runList[idx];
        assert wtid == r[idx];
        CleanStep(before, ts, r, left, parallelThreads, log, idx);
        if threadList[wtid].state == LEFT {
          MoveLast(idx, newSize);
          newSize := newSize - 1;
          left := left - 1;
          assert threadList[..] == DropInfos(ts, r, idx) && runList[..newSize] == Dropped(r, idx);
        } else {
          idx := idx + 1;
        }
      }
      NoneLeft(threadList[..], runList[..newSize], left, parallelThreads, log);
      leftThreads := 0;
      runListSize := newSize;
    }

    lemma NoneLeft(ts: seq<Info>, run: seq<nat>, left: nat, par: nat, log: Log)
      requires Ok(ts, run, 0, 0, left, par, log)
      requires forall i | 0 <= i < |run| :: ts[run[i]].state != LEFT
      ensures left == 0 && forall t: nat | t < |ts| :: ts[t].state != LEFT
    {
      forall t: nat | t < |ts| ensures ts[t].state != LEFT { assert ThreadOk(ts, run, log, t); }
      assert Those(ts, LEFT) == {};
    }

    /** A Fisher-Yates shuffle. */
    method Shuffle(d: seq<nat>)
      requires Consistent() && curThreadIdx == 0 && 0 < runListSize
      modifies threadList, runList
      ensures Consistent() && Run() == Shuffled(old(Run()), runListSize - 1, d)
      ensures forall t: nat | t < threadList.Length :: threadList[t].state == old(threadList[t].state)
    {
      var i := runListSize - 1;
      ghost var all := Shuffled(Run(), i, d);
      while i > 0
        invariant 0 <= i < runListSize && Consistent()
        invariant Shuffled(Run(), i, d) == all
        invariant forall t: nat | t < threadList.Length :: threadList[t].state == old(threadList[t].state)
      {
        ShuffledStep(Run(), i, d);
        Exchange(i, Drawn(d, i));
        i := i - 1;
      }
    }

    /** Two threads of the list exchange places. */
    method Exchange(i: nat, j: nat)
      requires Consistent() && curThreadIdx == 0 && i < runListSize && j < runListSize
      modifies threadList, runList
      ensures Consistent() && Run() == Swapped(old(Run()), i, j)
      ensures forall t: nat | t < threadList.Length :: threadList[t].state == old(threadList[t].state)
    {
      ghost var ts, run := threadList[..], Run();
      var itid := runList[i];
      var jtid := runList[j];
      assert itid == run[i] && jtid == run[j];
      ShuffleOk(ts, run, runningThreads, leftThreads, parallelThreads, log, i, j);
      runList[i] := jtid;
      runList[j] := itid;
      threadList[itid] := threadList[itid].(lastIdx := j);
      threadList[jtid] := threadList[jtid].(lastIdx := i);
      assert threadList[..] == SwapInfos(ts, run, i, j);
      assert Run() == Swapped(run, i, j);
    }

    /** The list is shuffled when not all of its threads can run at once. */
    method Reorder()
      requires Consistent() && curThreadIdx == 0
      modifies threadList, runList
      ensures Consistent() && Run() == Order(parallelThreads, old(Run()), draw(phaseCount))
      ensures forall t: nat | t < threadList.Length :: threadList[t].state == old(threadList[t].state)
    {
      if parallelThreads < runListSize {
        Shuffle(draw(phaseCount));
      }
    }

    /** Between two phases: in a cleanup exactly the threads that LEFT go offline and
        come off the list, and the list is shuffled when not all of the threads on
        it can run at once. */
    method Rearrange(cleanup: bool)
      requires Consistent() && curThreadIdx == 0 && runningThreads == 0 && 0 < runListSize
      modifies this`runListSize, this`leftThreads, threadList, runList
      ensures Consistent() && leftThreads == (if cleanup then 0 else old(leftThreads))
      ensures forall t: nat | t < threadList.Length ::
        threadList[t].state == if cleanup && old(threadList[t].state) == LEFT then OFFLINE else old(threadList[t].state)
      ensures forall t: nat | t < threadList.Length ::
        t in Run() <==> t in old(Run()) && !(cleanup && old(threadList[t].state) == LEFT)
      ensures Run() == Order(parallelThreads, Kept(old(Run()), old(threadList[..]), cleanup), draw(phaseCount))
    {
      ghost var ts, run, left := threadList[..], Run(), leftThreads;
      if cleanup {
        Cleanup();
      }
      Reorder();
      StillListed(ts, run, left, threadList[..], Run(), leftThreads, parallelThreads, log, cleanup);
    }

    lemma StillListed(ts: seq<Info>, run: seq<nat>, left: nat, ts': seq<Info>, run': seq<nat>, left': nat,
                      par: nat, log: Log, cleanup: bool)
      requires Ok(ts, run, 0, 0, left, par, log) && Ok(ts', run', 0, 0, left', par, log) && |ts'| == |ts|
      requires forall t: nat | t < |ts| :: ts'[t].state == if cleanup && ts[t].state == LEFT then OFFLINE else ts[t].state
      ensures forall t: nat | t < |ts| :: t in run' <==> t in run && !(cleanup && ts[t].state == LEFT)
    {
      Listed(ts, run, 0, 0, left, par, log);
      Listed(ts', run', 0, 0, left', par, log);
    }

    /** A phase has ended, and it is one of those that clean up: the first and then
        every 32nd. */
    ghost predicate Swept(before: Log, after: Log) {
      PhaseEnds(before) < PhaseEnds(after) && PhaseEnds(before) % 32 == 0
    }

    /** What the barrier itself does to a thread: it wakes a waiting one, and puts
        one that LEFT offline in a cleanup and only then. */
    ghost predicate Stepped(before: State, after: State, swept: bool) {
      match before
      case LEFT => after == if swept then OFFLINE else LEFT
      case WAITING => after == WAITING || after == RUNNING
      case _ => after == before
    }

    /** Ends the phase if the list is exhausted, nobody runs and somebody waits. */
    method CheckEndPhase() returns (ended: bool)
      requires Consistent()
      modifies this`curThreadIdx, this`runListSize, this`leftThreads, this`phaseCount, this`log, threadList, runList
      ensures Consistent()
      ensures ended <==> old(curThreadIdx == runListSize && runningThreads == 0 && leftThreads != runListSize)
      ensures phaseCount == old(phaseCount) + if ended then 1 else 0
      ensures ended ==>
        && curThreadIdx == 0 && log == old(log + [PhaseEnd(Run())])
        && Ahead(threadList[..], Run(), 0)
      ensures !ended ==>
        && log == old(log) && curThreadIdx == old(curThreadIdx) && runListSize == old(runListSize)
        && threadList[..] == old(threadList[..]) && runList[..] == old(runList[..])
        && (runningThreads == 0 && curThreadIdx == runListSize ==> Those(threadList[..], WAITING) == {})
      ensures var swept := ended && old(phaseCount) % 32 == 0;
        && (forall t: nat | t < threadList.Length ::
              threadList[t].state == if swept && old(threadList[t].state) == LEFT then OFFLINE else old(threadList[t].state))
        && (forall t: nat | t < threadList.Length ::
              t in Run() <==> t in old(Run()) && !(swept && old(threadList[t].state) == LEFT))
        && leftThreads == (if swept then 0 else old(leftThreads))
        && (ended ==> Run() == Order(parallelThreads, Kept(old(Run()), old(threadList[..]), swept), draw(phaseCount)))
    {
      ended := false;
      if curThreadIdx == runListSize && runningThreads == 0 {
        if leftThreads == runListSize {
          AllLeft(threadList[..], Run(), curThreadIdx, parallelThreads, log);
          return;
        }
        ended := true;
        ghost var w := SomeoneWaits(threadList[..], Run(), curThreadIdx, leftThreads, parallelThreads, log);
        PhaseEndOk(threadList[..], Run(), leftThreads, parallelThreads, log);
        Appended(log, PhaseEnd(Run()), w);
        log := log + [PhaseEnd(Run())];  // the scheduler's callback runs here
        curThreadIdx := 0;
        var cleanup := phaseCount % 32 == 0;
        phaseCount := phaseCount + 1;
        Rearrange(cleanup);
        WaiterListed(threadList[..], Run(), curThreadIdx, runningThreads, leftThreads, parallelThreads, log, w);
      }
    }

    lemma Listed(ts: seq<Info>, run: seq<nat>, cur: nat, running: nat, left: nat, par: nat, log: Log)
      requires Ok(ts, run, cur, running, left, par, log)
      ensures forall t: nat | t < |ts| :: t in run <==> ts[t].state != OFFLINE
    {
      forall t: nat | t < |ts| ensures t in run <==> ts[t].state != OFFLINE { assert ThreadOk(ts, run, log, t); }
    }

    lemma WaiterListed(ts: seq<Info>, run: seq<nat>, cur: nat, running: nat, left: nat, par: nat, log: Log, w: nat)
      requires Ok(ts, run, cur, running, left, par, log) && w < |ts| && ts[w].state == WAITING
      ensures exists i :: 0 <= i < |run| && run[i] == w
    {
      assert ThreadOk(ts, run, log, w);
    }

    lemma AllLeft(ts: seq<Info>, run: seq<nat>, cur: nat, par: nat, log: Log)
      requires Ok(ts, run, cur, 0, |run|, par, log)
      ensures Those(ts, WAITING) == {}
    {
      var lefts, waits := Those(ts, LEFT), Those(ts, WAITING);
      forall u | u in lefts + waits ensures u in run { assert ThreadOk(ts, run, log, u); }
      ElementCount(run, lefts + waits);
      assert lefts !! waits;
      assert |lefts + waits| == |lefts| + |waits|;
    }

    /** Wakes threads of this phase, ends it if that is due, and wakes threads of
        the next one. Nobody is left waiting with nobody running. */
    method TryWakeNext() returns (ended: bool)
      requires Consistent()
      modifies this`curThreadIdx, this`runningThreads, this`runListSize, this`leftThreads, this`phaseCount, this`log
      modifies threadList, runList
      ensures Valid()
      ensures old(log) <= log && PhaseEnds(log) == old(PhaseEnds(log)) + if ended then 1 else 0
      ensures forall k | |old(log)| <= k < |log| :: log[k].Woke? || (ended && log[k].PhaseEnd?)
      ensures !ended ==>
        Run() == old(Run()) && OnlyWoken(old(threadList[..]), threadList[..])
      ensures parallelThreads > 0 ==>
        (ended <==> && old(runningThreads) == 0 && !Ahead(old(threadList[..]), old(Run()), old(curThreadIdx))
                    && Those(old(threadList[..]), WAITING) != {})
      ensures Ahead(old(threadList[..]), old(Run()), old(curThreadIdx)) ==> !ended
      ensures forall t: nat | t < threadList.Length ::
        Stepped(old(threadList[t].state), threadList[t].state, Swept(old(log), log))
    {
      ended := ScanAndCheck();
      WakeAfterCheck(ended);
    }

    /** The first scan, and the end of the phase if that is due. */
    method ScanAndCheck() returns (ended: bool)
      requires Consistent()
      modifies this`curThreadIdx, this`runningThreads, this`runListSize, this`leftThreads, this`phaseCount, this`log
      modifies threadList, runList
      ensures Consistent()
      ensures old(log) <= log && PhaseEnds(log) == old(PhaseEnds(log)) + if ended then 1 else 0
      ensures forall k | |old(log)| <= k < |log| :: log[k].Woke? || (ended && log[k].PhaseEnd?)
      ensures !ended ==>
        && Run() == old(Run()) && OnlyWoken(old(threadList[..]), threadList[..])
        && (runningThreads == parallelThreads || curThreadIdx == runListSize)
        && (runningThreads == 0 && curThreadIdx == runListSize ==> Those(threadList[..], WAITING) == {})
      ensures ended ==> Ahead(threadList[..], Run(), curThreadIdx)
      ensures parallelThreads > 0 ==>
        (ended <==> && old(runningThreads) == 0 && !Ahead(old(threadList[..]), old(Run()), old(curThreadIdx))
                    && Those(old(threadList[..]), WAITING) != {})
      ensures Ahead(old(threadList[..]), old(Run()), old(curThreadIdx)) ==> !ended
      ensures forall t: nat | t < threadList.Length ::
        Stepped(old(threadList[t].state), threadList[t].state, Swept(old(log), log))
    {
      ghost var ts, cur, running, logged := threadList[..], curThreadIdx, runningThreads, log;
      CheckRunList();
      PhaseOver(ts, threadList[..], Run(), cur, curThreadIdx, running, runningThreads, old(leftThreads), leftThreads,
                parallelThreads, logged, log);
      Appended(log, PhaseEnd(Run()), 0);
      ended := CheckEndPhase();
    }

    /** A scan that finds nobody waiting changes nothing. */
    lemma QuietScan(before: seq<Info>, after: seq<Info>, run: seq<nat>, cur: nat)
      requires OnlyWoken(before, after) && !Ahead(before, run, cur)
      requires forall t: nat | t < |before| && !AheadOfScan(run, cur, t) :: after[t] == before[t]
      ensures after == before
    {
    }

    /** Whether the phase is over can be told before the scan. */
    lemma PhaseOver(ts: seq<Info>, ts': seq<Info>, run: seq<nat>, cur: nat, cur': nat, running: nat, running': nat,
                    left: nat, left': nat, par: nat, log: Log, log': Log)
      requires Ok(ts, run, cur, running, left, par, log) && Ok(ts', run, cur', running', left', par, log')
      requires OnlyWoken(ts, ts') && running <= running' && cur <= cur' && (running' == par || cur' == |run|)
      requires forall t: nat | t < |ts| && !AheadOfScan(run, cur, t) :: ts'[t] == ts[t]
      requires forall i | cur <= i < cur' && ts[run[i]].state == WAITING :: ts'[run[i]].state == RUNNING
      ensures par > 0 ==>
        (cur' == |run| && running' == 0 && left' != |run| <==>
         running == 0 && !Ahead(ts, run, cur) && Those(ts, WAITING) != {})
      ensures Ahead(ts, run, cur) ==> cur' < |run| || running' > 0
    {
      if !Ahead(ts, run, cur) { QuietScan(ts, ts', run, cur); }
      if cur' == |run| && running' == 0 {
        RunningCounted(ts', run, cur', running', left', par, log');
        if left' == |run| {
          AllLeft(ts', run, cur', par, log');
        } else {
          var w := SomeoneWaits(ts', run, cur', left', par, log');
          assert w in Those(ts, WAITING);
        }
      }
    }

    method WakeAfterCheck(ended: bool)
      requires Consistent()
      requires ended ==> Ahead(threadList[..], Run(), curThreadIdx)
      requires !ended && runningThreads == 0 && curThreadIdx == runListSize ==> Those(threadList[..], WAITING) == {}
      requires !ended ==> runningThreads == parallelThreads || curThreadIdx == runListSize
      modifies this`curThreadIdx, this`runningThreads, this`log, threadList
      ensures Valid()
      ensures OnlyWakes(old(log), log) && OnlyWoken(old(threadList[..]), threadList[..])
    {
      ghost var ts := threadList[..];
      CheckRunList();
      RunningCounted(threadList[..], Run(), curThreadIdx, runningThreads, leftThreads, parallelThreads, log);
      if runningThreads == 0 && parallelThreads > 0 && !ended {
        forall t | t in Those(threadList[..], WAITING) ensures t in Those(ts, WAITING) {}
      }
    }

    /** A thread that the scan has not reached yet is waiting. */
    ghost predicate Ahead(ts: seq<Info>, run: seq<nat>, cur: nat) {
      exists i :: cur <= i < |run| && run[i] < |ts| && ts[run[i]].state == WAITING
    }

    lemma RunningCounted(ts: seq<Info>, run: seq<nat>, cur: nat, running: nat, left: nat, par: nat, log: Log)
      requires Ok(ts, run, cur, running, left, par, log)
      ensures running > 0 ==> Those(ts, RUNNING) != {}
      ensures forall t: nat | t < |ts| && ts[t].state == RUNNING :: running > 0
    {
      forall t: nat | t < |ts| && ts[t].state == RUNNING ensures running > 0 { CountPositive(ts, t); }
    }

    /** A thread from OFFLINE goes to the end of the list. */
    method Enter(tid: nat)
      requires Consistent() && tid < threadList.Length && threadList[tid].state == OFFLINE
      modifies this`runListSize, this`log, threadList, runList
      ensures Consistent() && AheadOfScan(Run(), curThreadIdx, tid)
      ensures Run() == old(Run()) + [tid] && log == old(log) + [Entered(tid)]
      ensures threadList[..] == old(threadList[..])[tid := Info(WAITING, 1, old(threadList[tid].lastIdx))]
    {
      ghost var ts, run := threadList[..], Run();
      EnterOk(ts, run, curThreadIdx, runningThreads, leftThreads, parallelThreads, log, tid);
      PhaseEndsSnoc(log, Entered(tid));
      runList[runListSize] := tid;
      runListSize := runListSize + 1;
      threadList[tid] := Info(WAITING, 1, threadList[tid].lastIdx);
      log := log + [Entered(tid)];
      assert Run() == run + [tid] && Run()[|run|] == tid;
      assert threadList[..] == ts[tid := Info(WAITING, 1, ts[tid].lastIdx)];
    }

    /** A thread that left is still on the list. If the scan has passed it, it
        changes places with the last thread the scan has passed. */
    method Rejoin(tid: nat)
      requires Consistent() && tid < threadList.Length && threadList[tid].state == LEFT
      requires Rejoinable(threadList[..], Run(), curThreadIdx, tid)
      modifies this`leftThreads, this`curThreadIdx, this`log, threadList, runList
      ensures Consistent() && AheadOfScan(Run(), curThreadIdx, tid)
      ensures Run() == old(RejoinRun(threadList[..], Run(), curThreadIdx, tid))
      ensures curThreadIdx == old(RejoinCur(threadList[..], curThreadIdx, tid))
      ensures threadList[..] == old(RejoinInfos(threadList[..], Run(), curThreadIdx, tid))
      ensures log == old(log) + [Rejoined(tid)]
    {
      ghost var ts, run := threadList[..], Run();
      RejoinSound(ts, run, curThreadIdx, runningThreads, leftThreads, parallelThreads, log, tid);
      leftThreads := leftThreads - 1;
      RejoinAhead(ts, run, curThreadIdx, tid);
      Appended(log, Rejoined(tid), tid);
      BringBack(tid);
      log := log + [Rejoined(tid)];
    }

    lemma RejoinAhead(ts: seq<Info>, run: seq<nat>, cur: nat, t: nat)
      requires t < |ts| && cur <= |run| && Rejoinable(ts, run, cur, t)
      ensures AheadOfScan(RejoinRun(ts, run, cur, t), RejoinCur(ts, cur, t), t)
    {
      if ts[t].lastIdx < cur { assert RejoinRun(ts, run, cur, t)[cur - 1] == t; }
    }

    /** The exchange of places, back pointers included. */
    method BringBack(tid: nat)
      requires tid < threadList.Length && curThreadIdx <= runListSize <= runList.Length
      requires forall i | 0 <= i < runListSize :: Run()[i] < threadList.Length
      requires threadList[tid].lastIdx < curThreadIdx ==> Run()[threadList[tid].lastIdx] == tid
      modifies this`curThreadIdx, threadList, runList
      ensures Run() == old(RejoinRun(threadList[..], Run(), curThreadIdx, tid))
      ensures curThreadIdx == old(RejoinCur(threadList[..], curThreadIdx, tid))
      ensures threadList[..] == old(RejoinInfos(threadList[..], Run(), curThreadIdx, tid))
    {
      ghost var ts, run := threadList[..], Run();
      var lastIdx := threadList[tid].lastIdx;
      if curThreadIdx > lastIdx {
        curThreadIdx := curThreadIdx - 1;
        assert runList[lastIdx] == run[lastIdx] == tid;  // the source's assertion
        var otherTid := runList[curThreadIdx];
        assert otherTid == run[curThreadIdx];
        runList[lastIdx] := otherTid;
        runList[curThreadIdx] := tid;
        threadList[otherTid] := threadList[otherTid].(lastIdx := lastIdx);
        threadList[tid] := threadList[tid].(lastIdx := curThreadIdx);
      }
      threadList[tid] := Info(WAITING, 1, threadList[tid].lastIdx);
      assert Run() == RejoinRun(ts, run, old(curThreadIdx), tid);
      assert threadList[..] == RejoinInfos(ts, run, old(curThreadIdx), tid);
    }

    /** Puts a joining thread where the scan will still find it. */
    method Enlist(tid: nat)
      requires Consistent() && tid < threadList.Length
      requires threadList[tid].state == OFFLINE
            || (threadList[tid].state == LEFT && Rejoinable(threadList[..], Run(), curThreadIdx, tid))
      modifies this`runListSize, this`leftThreads, this`curThreadIdx, this`log, threadList, runList
      ensures Consistent() && Ahead(threadList[..], Run(), curThreadIdx)
      ensures threadList[tid].state == WAITING
      ensures log == old(log) + [if old(threadList[tid].state) == OFFLINE then Entered(tid) else Rejoined(tid)]
      ensures forall t: nat | t < threadList.Length && t != tid :: threadList[t].state == old(threadList[t].state)
      ensures old(threadList[tid].state) == OFFLINE ==>
        && Run() == old(Run()) + [tid]
        && threadList[..] == old(threadList[..])[tid := Info(WAITING, 1, old(threadList[tid].lastIdx))]
      ensures old(threadList[tid].state) == LEFT ==>
        && Run() == old(RejoinRun(threadList[..], Run(), curThreadIdx, tid))
        && curThreadIdx == old(RejoinCur(threadList[..], curThreadIdx, tid))
        && threadList[..] == old(RejoinInfos(threadList[..], Run(), curThreadIdx, tid))
    {
      if threadList[tid].state == OFFLINE { Enter(tid); } else { Rejoin(tid); }
    }

    /** Joins the barrier; cannot end a phase. The caller then waits iff blocked. A
        rejoining thread must be rejoinable: WokenRejoins says when it surely is. */
    method Join(tid: nat) returns (blocked: bool)
      requires Valid() && tid < threadList.Length
      requires threadList[tid].state == OFFLINE
            || (threadList[tid].state == LEFT && Rejoinable(threadList[..], Run(), curThreadIdx, tid))
      modifies this, threadList, runList
      ensures Valid()
      ensures threadList[tid].state == if blocked then WAITING else RUNNING
      ensures old(log) < log && (log[|old(log)|] == Entered(tid) || log[|old(log)|] == Rejoined(tid))
      ensures forall k | |old(log)| < k < |log| :: log[k].Woke?
      ensures forall t: nat | t < threadList.Length && t != tid ::
        Stepped(old(threadList[t].state), threadList[t].state, false)
      ensures old(threadList[tid].state) == OFFLINE ==>
        && Run() == old(Run()) + [tid]
        && (blocked ==> threadList[tid].lastIdx == old(threadList[tid].lastIdx))
        && (forall t: nat | t < threadList.Length && t != tid && old(threadList[t].state) != WAITING ::
              threadList[t] == old(threadList[t]))
    {
      Enlist(tid);
      var ended := TryWakeNext();
      blocked := threadList[tid].state == WAITING;
    }

    /** One thread runs, and no thread waits for the scan to reach it. */
    ghost predicate LastOne()
      reads this, runList, threadList
      requires Consistent()
    {
      runningThreads == 1 && !Ahead(threadList[..], Run(), curThreadIdx)
    }

    /** A running thread is behind the scan, so nothing ahead of it changes when
        the thread stops. */
    lemma StoppedAhead(ts: seq<Info>, run: seq<nat>, cur: nat, running: nat, left: nat, par: nat, log: Log, t: nat, x: Info)
      requires Ok(ts, run, cur, running, left, par, log) && t < |ts| && ts[t].state == RUNNING
      ensures Ahead(ts[t := x], run, cur) <==> Ahead(ts, run, cur)
    {
      var ts' := ts[t := x];
      forall i: nat | cur <= i < |run| ensures run[i] != t { assert PlaceOk(ts, run, cur, log, i); }
      assert forall i | cur <= i < |run| :: ts'[run[i]] == ts[run[i]];
    }

    /** A running or a waiting thread leaves. */
    method Leave(tid: nat)
      requires Valid() && tid < threadList.Length
      requires threadList[tid].state == RUNNING || threadList[tid].state == WAITING
      modifies this, threadList, runList
      ensures Valid()
      ensures old(log) < log && log[|old(log)|] == Departed(tid)
      ensures forall k | |old(log)| < k < |log| :: log[k].Woke? || log[k].PhaseEnd?
      ensures threadList[tid].state == if Swept(old(log), log) then OFFLINE else LEFT
      ensures PhaseEnds(log) == old(PhaseEnds(log)) +
        if old(threadList[tid].state == RUNNING && LastOne() && Those(threadList[..], WAITING) != {}) then 1 else 0
      ensures forall t: nat | t < threadList.Length && t != tid ::
        Stepped(old(threadList[t].state), threadList[t].state, Swept(old(log), log))
      ensures old(threadList[tid].state) == WAITING ==>
        && threadList[..] == old(threadList[..])[tid := old(threadList[tid]).(state := LEFT)]
        && Run() == old(Run()) && curThreadIdx == old(curThreadIdx)
    {
      if threadList[tid].state == RUNNING {
        LeaveRunning(tid);
      } else {
        Appended(log, Departed(tid), tid);
        StillProgress(threadList[..], tid, parallelThreads);
        Depart(tid);
      }
    }

    /** A running thread leaves, which can end the phase. */
    method LeaveRunning(tid: nat)
      requires Valid() && tid < threadList.Length && threadList[tid].state == RUNNING
      modifies this, threadList, runList
      ensures Valid()
      ensures old(log) < log && log[|old(log)|] == Departed(tid)
      ensures forall k | |old(log)| < k < |log| :: log[k].Woke? || log[k].PhaseEnd?
      ensures threadList[tid].state == if Swept(old(log), log) then OFFLINE else LEFT
      ensures PhaseEnds(log) == old(PhaseEnds(log)) +
        if old(LastOne() && Those(threadList[..], WAITING) != {}) then 1 else 0
      ensures forall t: nat | t < threadList.Length && t != tid ::
        Stepped(old(threadList[t].state), threadList[t].state, Swept(old(log), log))
    {
      ghost var ts := threadList[..];
      StoppedAhead(ts, Run(), curThreadIdx, runningThreads, leftThreads, parallelThreads, log, tid, ts[tid].(state := LEFT));
      Appended(log, Departed(tid), tid);
      Depart(tid);
      assert Those(threadList[..], WAITING) == Those(ts, WAITING);
      var ended := TryWakeNext();
    }

    /** The departure itself. */
    method Depart(tid: nat)
      requires Consistent() && tid < threadList.Length
      requires threadList[tid].state == RUNNING || threadList[tid].state == WAITING
      modifies this`leftThreads, this`runningThreads, this`log, threadList
      ensures Consistent() && log == old(log) + [Departed(tid)]
      ensures threadList[..] == old(threadList[..])[tid := old(threadList[tid]).(state := LEFT)]
      ensures old(threadList[tid].state) == RUNNING ==> runningThreads == old(runningThreads) - 1
    {
      ghost var ts := threadList[..];
      DepartOk(ts, Run(), curThreadIdx, runningThreads, leftThreads, parallelThreads, log, tid);
      Appended(log, Departed(tid), tid);
      if threadList[tid].state == RUNNING {
        threadList[tid] := threadList[tid].(state := LEFT);
        leftThreads := leftThreads + 1;
        runningThreads := runningThreads - 1;
      } else {
        threadList[tid] := threadList[tid].(state := LEFT);
        leftThreads := leftThreads + 1;
      }
      log := log + [Departed(tid)];
      assert threadList[..] == ts[tid := ts[tid].(state := LEFT)];
    }

    lemma DepartOk(ts: seq<Info>, run: seq<nat>, cur: nat, running: nat, left: nat, par: nat, log: Log, t: nat)
      requires Ok(ts, run, cur, running, left, par, log)
      requires t < |ts| && (ts[t].state == RUNNING || ts[t].state == WAITING)
      ensures ts[t].state == RUNNING ==> running > 0
      ensures Ok(ts[t := ts[t].(state := LEFT)], run, cur, if ts[t].state == RUNNING then running - 1 else running,
                 left + 1, par, log + [Departed(t)])
    {
      if ts[t].state == RUNNING {
        StopOk(ts, run, cur, running, left, par, log, t, true);
      } else {
        LeaveWaitingOk(ts, run, cur, running, left, par, log, t);
      }
    }

    lemma StillProgress(ts: seq<Info>, t: nat, par: nat)
      requires t < |ts| && ts[t].state == WAITING && Progress(ts, par)
      ensures Progress(ts[t := ts[t].(state := LEFT)], par)
    {
      var ts' := ts[t := ts[t].(state := LEFT)];
      assert Those(ts', RUNNING) == Those(ts, RUNNING) && Those(ts', WAITING) <= Those(ts, WAITING);
    }

    /** A running thread waits for the phase to end. */
    method Sync(tid: nat) returns (blocked: bool)
      requires Valid() && tid < threadList.Length && threadList[tid].state == RUNNING
      modifies this, threadList, runList
      ensures Valid()
      ensures threadList[tid].state == if blocked then WAITING else RUNNING
      ensures old(log) < log && log[|old(log)|] == Synced(tid)
      ensures forall k | |old(log)| < k < |log| :: log[k].Woke? || log[k].PhaseEnd?
      ensures PhaseEnds(log) == old(PhaseEnds(log)) + if old(LastOne()) then 1 else 0
      ensures forall t: nat | t < threadList.Length && t != tid ::
        Stepped(old(threadList[t].state), threadList[t].state, Swept(old(log), log))
    {
      ghost var ts := threadList[..];
      StopOk(ts, Run(), curThreadIdx, runningThreads, leftThreads, parallelThreads, log, tid, false);
      StoppedAhead(ts, Run(), curThreadIdx, runningThreads, leftThreads, parallelThreads, log, tid, Info(WAITING, 1, ts[tid].lastIdx));
      threadList[tid] := Info(WAITING, 1, threadList[tid].lastIdx);
      runningThreads := runningThreads - 1;
      log := log + [Synced(tid)];
      assert threadList[..] == ts[tid := Info(WAITING, 1, ts[tid].lastIdx)];
      Appended(old(log), Synced(tid), tid);
      assert tid in Those(threadList[..], WAITING);
      var ended := TryWakeNext();
      blocked := threadList[tid].state == WAITING;
    }
  }

  /** The only thread on the list cannot be left waiting. */
  lemma FirstRuns(ts: seq<Info>, cur: nat, running: nat, left: nat, log: Log)
    requires |ts| == 2 && Ok(ts, [0], cur, running, left, 1, log) && Progress(ts, 1)
    requires (ts[0].state == WAITING || ts[0].state == RUNNING) && ts[1].state == OFFLINE
    ensures ts[0].state == RUNNING
  {
    assert ts[0].state == WAITING ==> 0 in Those(ts, WAITING);
    if Those(ts, RUNNING) != {} {
      var t :| t in Those(ts, RUNNING);
      assert t == 0;
    }
  }

  lemma TwoRunning(ts: seq<Info>)
    requires |ts| == 2 && ts[0].state == RUNNING && ts[1].state == RUNNING
    ensures Count(ts, RUNNING) == 2
  {
    assert Those(ts, RUNNING) == {0, 1};
  }

  /** There is no room for the second, whose back pointer is stale. */
  lemma SecondWaits(ts: seq<Info>, cur: nat, running: nat, left: nat, log: Log)
    requires |ts| == 2 && Ok(ts, [0, 1], cur, running, left, 1, log)
    requires ts[0].state == RUNNING && (ts[1].state == WAITING ==> ts[1].lastIdx == 0)
    ensures ts[1].state != RUNNING && (ts[1].state == WAITING ==> cur == 1)
  {
    var run := [0, 1];
    assert run[0] == 0 && run[1] == 1;
    assert PlaceOk(ts, run, cur, log, 0) && PlaceOk(ts, run, cur, log, 1) && ThreadOk(ts, run, log, 1);
    if ts[1].state == RUNNING { TwoRunning(ts); }
  }

  /** With room for one, thread 0 joins and runs. */
  method OneRuns() returns (b: Barrier)
    ensures b.Valid() && fresh(b) && fresh(b.threadList) && fresh(b.runList)
    ensures b.threadList.Length == 2 && b.parallelThreads == 1 && b.Run() == [0]
    ensures b.threadList[0].state == RUNNING && b.threadList[1] == Info(OFFLINE, 0, 0)
  {
    b := new Barrier(2, 1, _ => 0, _ => []);
    var blocked := b.Join(0);
    assert b.Run() == [0];
    FirstRuns(b.threadList[..], b.curThreadIdx, b.runningThreads, b.leftThreads, b.log);
  }

  /** The failing run: thread 1 joins too, from OFFLINE, and leaves before it is
      ever woken. Its back pointer, still 0, names thread 0; the assertion in the
      rejoin fails, and without it the list would hold thread 1 twice and thread 0
      no more. */
  method StaleRejoin() returns (b: Barrier, blocked: bool)
    ensures b.Valid() && blocked && b.threadList.Length == 2
    ensures b.threadList[1].state == LEFT && !Rejoinable(b.threadList[..], b.Run(), b.curThreadIdx, 1)
    ensures RejoinRun(b.threadList[..], b.Run(), b.curThreadIdx, 1) == [1, 1]
  {
    b := OneRuns();
    blocked := b.Join(1);
    assert b.Run() == [0, 1];
    SecondWaits(b.threadList[..], b.curThreadIdx, b.runningThreads, b.leftThreads, b.log);
    b.Leave(1);
  }
}
