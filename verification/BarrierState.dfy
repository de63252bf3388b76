/** The bookkeeping of the join/leave barrier on values: its invariant, the
    history it is judged by, and why each primitive update keeps them. */
module BarrierState {
  import opened Sequences

  datatype State = OFFLINE | WAITING | RUNNING | LEFT

  datatype Info = Info(state: State, futexWord: nat, lastIdx: nat)

  // -------------------------------------------------------------- history

  /** Entered is a join from OFFLINE, Rejoined one from LEFT; PhaseEnd records
      the run list at the time of the end-of-phase callback. */
  datatype Event =
    | Entered(t: nat) | Rejoined(t: nat) | Woke(t: nat) | Synced(t: nat) | Departed(t: nat)
    | PhaseEnd(run: seq<nat>)

  type Log = seq<Event>

  /** t has been woken in this phase and has not left since. */
  ghost predicate RanNow(log: Log, t: nat) {
    if log == [] then false
    else match log[|log| - 1]
      case Woke(u) => u == t || RanNow(log[..|log| - 1], t)
      case Departed(u) => u != t && RanNow(log[..|log| - 1], t)
      case PhaseEnd(_) => false
      case _ => RanNow(log[..|log| - 1], t)
  }

  /** The last thing t did is to sync, and that was in this phase. */
  ghost predicate SyncedNow(log: Log, t: nat) {
    if log == [] then false
    else match log[|log| - 1]
      case PhaseEnd(_) => false
      case Synced(u) => u == t || SyncedNow(log[..|log| - 1], t)
      case e => e.t != t && SyncedNow(log[..|log| - 1], t)
  }

  /** The last thing t did is to leave. */
  ghost predicate LeftNow(log: Log, t: nat) {
    if log == [] then false
    else match log[|log| - 1]
      case PhaseEnd(_) => LeftNow(log[..|log| - 1], t)
      case Departed(u) => u == t || LeftNow(log[..|log| - 1], t)
      case e => e.t != t && LeftNow(log[..|log| - 1], t)
  }

  /** t has been woken since it last came from OFFLINE. */
  ghost predicate EverWoken(log: Log, t: nat) {
    if log == [] then false
    else match log[|log| - 1]
      case Woke(u) => u == t || EverWoken(log[..|log| - 1], t)
      case Entered(u) => u != t && EverWoken(log[..|log| - 1], t)
      case _ => EverWoken(log[..|log| - 1], t)
  }

  /** A wake is the thread's first in this phase unless it left in between; a
      phase ends only once every thread on the run list has synced in it or
      left, and not if all of them left. */
  ghost predicate EventOk(log: Log, e: Event) {
    match e
    case Woke(t) => !RanNow(log, t)
    case PhaseEnd(run) =>
      && (forall t | t in run :: SyncedNow(log, t) || LeftNow(log, t))
      && (exists t :: t in run && SyncedNow(log, t))
    case _ => true
  }

  ghost predicate SafeAt(log: Log, n: nat)
    requires n < |log|
  {
    EventOk(log[..n], log[n])
  }

  ghost predicate SafeLog(log: Log) {
    forall n: nat {:trigger SafeAt(log, n)} | n < |log| :: SafeAt(log, n)
  }

  ghost function Ends(log: Log): set<nat> {
    set k: nat | k < |log| && log[k].PhaseEnd?
  }

  /** How many phases have ended. */
  ghost function PhaseEnds(log: Log): nat {
    |Ends(log)|
  }

  lemma PhaseEndsSnoc(log: Log, e: Event)
    ensures PhaseEnds([]) == 0
    ensures PhaseEnds(log + [e]) == PhaseEnds(log) + if e.PhaseEnd? then 1 else 0
  {
    assert Ends([]) == {};
    assert Ends(log + [e]) == if e.PhaseEnd? then Ends(log) + {|log|} else Ends(log);
  }

  lemma Appended(log: Log, e: Event, t: nat)
    ensures RanNow(log + [e], t) == match e
      case Woke(u) => u == t || RanNow(log, t)
      case Departed(u) => u != t && RanNow(log, t)
      case PhaseEnd(_) => false
      case _ => RanNow(log, t)
    ensures SyncedNow(log + [e], t) == match e
      case PhaseEnd(_) => false
      case Synced(u) => u == t || SyncedNow(log, t)
      case _ => e.t != t && SyncedNow(log, t)
    ensures LeftNow(log + [e], t) == match e
      case PhaseEnd(_) => LeftNow(log, t)
      case Departed(u) => u == t || LeftNow(log, t)
      case _ => e.t != t && LeftNow(log, t)
    ensures EverWoken(log + [e], t) == match e
      case Woke(u) => u == t || EverWoken(log, t)
      case Entered(u) => u != t && EverWoken(log, t)
      case _ => EverWoken(log, t)
    ensures SafeLog(log) && EventOk(log, e) ==> SafeLog(log + [e])
    ensures PhaseEnds(log + [e]) == PhaseEnds(log) + if e.PhaseEnd? then 1 else 0
  {
    assert (log + [e])[..|log + [e]| - 1] == log;
    PhaseEndsSnoc(log, e);
    if SafeLog(log) && EventOk(log, e) { SafeSnoc(log, e); }
  }

  lemma SafeSnoc(log: Log, e: Event)
    requires SafeLog(log) && EventOk(log, e)
    ensures SafeLog(log + [e])
  {
    forall n: nat | n < |log| + 1 ensures SafeAt(log + [e], n) {
      assert (log + [e])[..n] == log[..n];
      if n < |log| { assert SafeAt(log, n); } else { assert log[..n] == log; }
    }
  }

  lemma {:induction false} StillRan(log: Log, t: nat, i: nat)
    requires i < |log| && log[i] == Woke(t)
    requires forall k | i < k < |log| :: log[k] != Departed(t) && !log[k].PhaseEnd?
    ensures RanNow(log, t)
  {
    if i < |log| - 1 { StillRan(log[..|log| - 1], t, i); }
  }

  /** Between two wakes of a thread it left, or the phase ended. */
  lemma WokenOncePerPhase(log: Log, t: nat, i: nat, j: nat)
    requires SafeLog(log) && i < j < |log| && log[i] == log[j] == Woke(t)
    ensures exists k :: i < k < j && (log[k] == Departed(t) || log[k].PhaseEnd?)
  {
    assert SafeAt(log, j);
    if forall k | i < k < j :: log[k] != Departed(t) && !log[k].PhaseEnd? {
      StillRan(log[..j], t, i);
    }
  }

  // ------------------------------------------------------------- invariant

  ghost function Those(ts: seq<Info>, st: State): set<nat> {
    set t: nat | t < |ts| && ts[t].state == st
  }

  ghost function Count(ts: seq<Info>, st: State): nat {
    |Those(ts, st)|
  }

  /** lastIdx points back at the thread's place in the run list. */
  ghost predicate IdxOk(ts: seq<Info>, run: seq<nat>, t: nat)
    requires t < |ts|
  {
    ts[t].lastIdx < |run| && run[ts[t].lastIdx] == t
  }

  /** What is known about the thread at place i of the run list. */
  ghost predicate PlaceOk(ts: seq<Info>, run: seq<nat>, cur: nat, log: Log, i: nat)
    requires i < |run| && run[i] < |ts|
  {
    var t := run[i];
    if i < cur then ts[t].state == WAITING ==> SyncedNow(log, t)
    else ts[t].state != RUNNING && !RanNow(log, t)
  }

  ghost predicate ThreadOk(ts: seq<Info>, run: seq<nat>, log: Log, t: nat)
    requires t < |ts|
  {
    && (ts[t].state != OFFLINE <==> t in run)
    && (ts[t].state == WAITING ==> ts[t].futexWord == 1)
    && (ts[t].state == RUNNING || SyncedNow(log, t) ==> EverWoken(log, t))
    && (ts[t].state != OFFLINE && EverWoken(log, t) ==> IdxOk(ts, run, t))
    && (ts[t].state == LEFT ==> LeftNow(log, t))
    && (ts[t].state == LEFT || ts[t].state == OFFLINE ==> !RanNow(log, t))
  }

  ghost predicate Ok(ts: seq<Info>, run: seq<nat>, cur: nat, running: nat, left: nat, par: nat, log: Log) {
    && cur <= |run| && Distinct(run) && (forall i | 0 <= i < |run| :: run[i] < |ts|)
    && running == Count(ts, RUNNING) <= par && left == Count(ts, LEFT)
    && SafeLog(log)
    && (forall i: nat {:trigger PlaceOk(ts, run, cur, log, i)} | i < |run| :: PlaceOk(ts, run, cur, log, i))
    && (forall t: nat {:trigger ThreadOk(ts, run, log, t)} | t < |ts| :: ThreadOk(ts, run, log, t))
  }

  /** Nobody waits for ever: with a waiting thread there is a running one. */
  ghost predicate Progress(ts: seq<Info>, par: nat) {
    par > 0 && Those(ts, WAITING) != {} ==> Those(ts, RUNNING) != {}
  }

  lemma CountUpdate(ts: seq<Info>, t: nat, x: Info, st: State)
    requires t < |ts|
    ensures Count(ts[t := x], st)
         == Count(ts, st) - (if ts[t].state == st then 1 else 0) + (if x.state == st then 1 else 0)
  {
    ThoseExcept(ts, t, x, st);
    SizeWithout(Those(ts, st), t);
    SizeWithout(Those(ts[t := x], st), t);
  }

  lemma ThoseExcept(ts: seq<Info>, t: nat, x: Info, st: State)
    requires t < |ts|
    ensures Those(ts, st) - {t} == Those(ts[t := x], st) - {t}
  {
  }

  lemma SizeWithout(a: set<nat>, t: nat)
    ensures |a| == |a - {t}| + if t in a then 1 else 0
  {
    if t !in a { assert a - {t} == a; }
  }

  lemma CountPositive(ts: seq<Info>, t: nat)
    requires t < |ts|
    ensures t in Those(ts, ts[t].state) && Count(ts, ts[t].state) > 0
  {
    assert t in Those(ts, ts[t].state);
  }

  lemma CountZero(ts: seq<Info>, st: State)
    requires Count(ts, st) == 0
    ensures forall t: nat | t < |ts| :: ts[t].state != st
  {
    forall t: nat | t < |ts| ensures ts[t].state != st {
      if ts[t].state == st { CountPositive(ts, t); }
    }
  }

  lemma {:induction false} DistinctSize(s: seq<nat>, bound: set<nat>)
    requires Distinct(s) && forall i | 0 <= i < |s| :: s[i] in bound
    ensures |s| <= |bound|
    ensures |s| == |bound| ==> forall x | x in bound :: x in s
    decreases |s|
  {
    if s != [] {
      var n := |s| - 1;
      DistinctPrefix(s);
      DistinctSize(s[..n], bound - {s[n]});
      if |s| == |bound| {
        forall x | x in bound ensures x in s {
          if x != s[n] { assert x in s[..n]; }
        }
      }
    }
  }

  function Below(n: nat): (r: set<nat>)
    ensures |r| == n && forall x: nat :: x in r <==> x < n
  {
    if n == 0 then {} else Below(n - 1) + {n - 1}
  }

  // ------------------------------------------------------ primitive updates

  function WakeInfo(idx: nat): Info {
    Info(RUNNING, 0, idx)
  }

  lemma WakeOk(ts: seq<Info>, run: seq<nat>, cur: nat, running: nat, left: nat, par: nat, log: Log)
    requires Ok(ts, run, cur, running, left, par, log)
    requires cur < |run| && running < par && ts[run[cur]].state == WAITING
    ensures ts[run[cur]].futexWord == 1
    ensures Ok(ts[run[cur] := WakeInfo(cur)], run, cur + 1, running + 1, left, par, log + [Woke(run[cur])])
  {
    var t, e := run[cur], Woke(run[cur]);
    var ts', cur', log' := ts[t := WakeInfo(cur)], cur + 1, log + [e];
    assert PlaceOk(ts, run, cur, log, cur) && ThreadOk(ts, run, log, t);
    CountUpdate(ts, t, WakeInfo(cur), RUNNING);
    CountUpdate(ts, t, WakeInfo(cur), LEFT);
    Appended(log, e, t);
    forall i: nat | i < |run| ensures PlaceOk(ts', run, cur', log', i) {
      assert PlaceOk(ts, run, cur, log, i);
      Appended(log, e, run[i]);
      if i != cur { DistinctAt(run, i, cur); }
    }
    forall u: nat | u < |ts| ensures ThreadOk(ts', run, log', u) {
      assert ThreadOk(ts, run, log, u);
      Appended(log, e, u);
    }
  }

  lemma SkipOk(ts: seq<Info>, run: seq<nat>, cur: nat, running: nat, left: nat, par: nat, log: Log)
    requires Ok(ts, run, cur, running, left, par, log)
    requires cur < |run| && ts[run[cur]].state != WAITING
    ensures Ok(ts, run, cur + 1, running, left, par, log)
  {
    var cur' := cur + 1;
    forall i | 0 <= i < |run| ensures PlaceOk(ts, run, cur', log, i) {
      assert PlaceOk(ts, run, cur, log, i);
    }
  }

  /** A running thread stops: it waits for the phase to end, or leaves. */
  lemma StopOk(ts: seq<Info>, run: seq<nat>, cur: nat, running: nat, left: nat, par: nat, log: Log, t: nat, leaves: bool)
    requires Ok(ts, run, cur, running, left, par, log)
    requires t < |ts| && ts[t].state == RUNNING
    ensures running > 0
    ensures var x := if leaves then ts[t].(state := LEFT) else Info(WAITING, 1, ts[t].lastIdx);
      Ok(ts[t := x], run, cur, running - 1, if leaves then left + 1 else left, par,
         log + [if leaves then Departed(t) else Synced(t)])
  {
    var e := if leaves then Departed(t) else Synced(t);
    var x := if leaves then ts[t].(state := LEFT) else Info(WAITING, 1, ts[t].lastIdx);
    var ts', log' := ts[t := x], log + [e];
    CountPositive(ts, t);
    CountUpdate(ts, t, x, RUNNING);
    CountUpdate(ts, t, x, LEFT);
    Appended(log, e, t);
    forall i | 0 <= i < |run| ensures PlaceOk(ts', run, cur, log', i) {
      assert PlaceOk(ts, run, cur, log, i);
      Appended(log, e, run[i]);
    }
    forall u: nat | u < |ts| ensures ThreadOk(ts', run, log', u) {
      assert ThreadOk(ts, run, log, u);
      Appended(log, e, u);
    }
  }

  /** A waiting thread leaves. */
  lemma LeaveWaitingOk(ts: seq<Info>, run: seq<nat>, cur: nat, running: nat, left: nat, par: nat, log: Log, t: nat)
    requires Ok(ts, run, cur, running, left, par, log)
    requires t < |ts| && ts[t].state == WAITING
    ensures Ok(ts[t := ts[t].(state := LEFT)], run, cur, running, left + 1, par, log + [Departed(t)])
  {
    var x := ts[t].(state := LEFT);
    var ts', log' := ts[t := x], log + [Departed(t)];
    CountUpdate(ts, t, x, RUNNING);
    CountUpdate(ts, t, x, LEFT);
    Appended(log, Departed(t), t);
    forall i | 0 <= i < |run| ensures PlaceOk(ts', run, cur, log', i) {
      assert PlaceOk(ts, run, cur, log, i);
      Appended(log, Departed(t), run[i]);
    }
    forall u: nat | u < |ts| ensures ThreadOk(ts', run, log', u) {
      assert ThreadOk(ts, run, log, u);
      Appended(log, Departed(t), u);
    }
  }

  lemma EnterThreads(ts: seq<Info>, run: seq<nat>, cur: nat, running: nat, left: nat, par: nat, log: Log, t: nat)
    requires Ok(ts, run, cur, running, left, par, log)
    requires t < |ts| && ts[t].state == OFFLINE
    ensures var ts', run', log' := ts[t := Info(WAITING, 1, ts[t].lastIdx)], run + [t], log + [Entered(t)];
      && (forall i | 0 <= i < |run'| :: PlaceOk(ts', run', cur, log', i))
      && (forall u: nat | u < |ts| :: ThreadOk(ts', run', log', u))
  {
    var ts', run', log' := ts[t := Info(WAITING, 1, ts[t].lastIdx)], run + [t], log + [Entered(t)];
    assert ThreadOk(ts, run, log, t);
    forall i | 0 <= i < |run'| ensures PlaceOk(ts', run', cur, log', i) {
      if i < |run| { assert PlaceOk(ts, run, cur, log, i); }
      Appended(log, Entered(t), run'[i]);
    }
    forall u: nat | u < |ts| ensures ThreadOk(ts', run', log', u) {
      assert ThreadOk(ts, run, log, u);
      Appended(log, Entered(t), u);
      if u == t { assert run'[|run|] == t; }
    }
  }

  /** Joining from OFFLINE: the thread goes to the end of the list. */
  lemma EnterOk(ts: seq<Info>, run: seq<nat>, cur: nat, running: nat, left: nat, par: nat, log: Log, t: nat)
    requires Ok(ts, run, cur, running, left, par, log)
    requires t < |ts| && ts[t].state == OFFLINE
    ensures |run| < |ts|
    ensures Ok(ts[t := Info(WAITING, 1, ts[t].lastIdx)], run + [t], cur, running, left, par, log + [Entered(t)])
  {
    var x := Info(WAITING, 1, ts[t].lastIdx);
    assert ThreadOk(ts, run, log, t);
    DistinctSize(run, Below(|ts|) - {t});
    DistinctSnoc(run, t);
    CountUpdate(ts, t, x, RUNNING);
    CountUpdate(ts, t, x, LEFT);
    Appended(log, Entered(t), t);
    EnterThreads(ts, run, cur, running, left, par, log, t);
  }

  /** The scan has not reached t. */
  ghost predicate AheadOfScan(run: seq<nat>, cur: nat, t: nat) {
    exists i :: cur <= i < |run| && run[i] == t
  }

  /** Joining again while still on the list, ahead of the scan. */
  lemma RejoinOk(ts: seq<Info>, run: seq<nat>, cur: nat, running: nat, left: nat, par: nat, log: Log, t: nat)
    requires Ok(ts, run, cur, running, left, par, log)
    requires t < |ts| && ts[t].state == LEFT && AheadOfScan(run, cur, t)
    ensures left > 0
    ensures Ok(ts[t := Info(WAITING, 1, ts[t].lastIdx)], run, cur, running, left - 1, par, log + [Rejoined(t)])
  {
    var x := Info(WAITING, 1, ts[t].lastIdx);
    var ts', log' := ts[t := x], log + [Rejoined(t)];
    CountPositive(ts, t);
    CountUpdate(ts, t, x, RUNNING);
    CountUpdate(ts, t, x, LEFT);
    Appended(log, Rejoined(t), t);
    var k: nat :| cur <= k < |run| && run[k] == t;
    forall i: nat | i < |run| ensures PlaceOk(ts', run, cur, log', i) {
      assert PlaceOk(ts, run, cur, log, i);
      Appended(log, Rejoined(t), run[i]);
      if i != k { DistinctAt(run, i, k); }
    }
    forall u: nat | u < |ts| ensures ThreadOk(ts', run, log', u) {
      assert ThreadOk(ts, run, log, u);
      Appended(log, Rejoined(t), u);
    }
  }

  /** Two threads exchange places i and j, back pointers included. */
  function SwapInfos(ts: seq<Info>, run: seq<nat>, i: nat, j: nat): seq<Info>
    requires i < |run| && j < |run| && run[i] < |ts| && run[j] < |ts|
  {
    var ts1 := ts[run[i] := ts[run[i]].(lastIdx := j)];
    ts1[run[j] := ts1[run[j]].(lastIdx := i)]
  }

  function Swapped(run: seq<nat>, i: nat, j: nat): seq<nat>
    requires i < |run| && j < |run|
  {
    run[i := run[j]][j := run[i]]
  }

  /** A thread that left after running this phase and comes back is put where
      the scan will look next; the thread it displaces stays behind the scan. */
  lemma BringBackOk(ts: seq<Info>, run: seq<nat>, cur: nat, running: nat, left: nat, par: nat, log: Log, t: nat)
    requires Ok(ts, run, cur, running, left, par, log)
    requires t < |ts| && ts[t].state == LEFT && ts[t].lastIdx < cur && run[ts[t].lastIdx] == t
    ensures Ok(SwapInfos(ts, run, ts[t].lastIdx, cur - 1), Swapped(run, ts[t].lastIdx, cur - 1), cur - 1, running, left, par, log)
  {
    assert ThreadOk(ts, run, log, t);
    var i0, j0 := ts[t].lastIdx, cur - 1;
    var ts', run' := SwapInfos(ts, run, i0, j0), Swapped(run, i0, j0);
    SameStates(ts, run, i0, j0);
    SwapIn(run, i0, j0);
    forall i | 0 <= i < |run'| ensures PlaceOk(ts', run', j0, log, i) {
      assert PlaceOk(ts, run, cur, log, if i == i0 then j0 else if i == j0 then i0 else i);
    }
    forall u: nat | u < |ts| ensures ThreadOk(ts', run', log, u) {
      assert ThreadOk(ts, run, log, u);
    }
  }

  lemma SwapIn(run: seq<nat>, i: nat, j: nat)
    requires i < |run| && j < |run|
    ensures forall x :: x in Swapped(run, i, j) <==> x in run
    ensures Distinct(run) ==> Distinct(Swapped(run, i, j))
  {
    var r := Swapped(run, i, j);
    forall x | x in run ensures x in r {
      var k :| 0 <= k < |run| && run[k] == x;
      assert r[if k == i then j else if k == j then i else k] == x;
    }
    if Distinct(run) {
      forall k: nat, l: nat | k < l < |r| ensures Differ(r, k, l) {
        DistinctAt(run, if k == i then j else if k == j then i else k, if l == i then j else if l == j then i else l);
      }
    }
  }

  lemma SameStates(ts: seq<Info>, run: seq<nat>, i: nat, j: nat)
    requires i < |run| && j < |run| && run[i] < |ts| && run[j] < |ts|
    ensures var ts' := SwapInfos(ts, run, i, j);
      && |ts'| == |ts|
      && (forall u: nat | u < |ts| :: ts'[u].state == ts[u].state && ts'[u].futexWord == ts[u].futexWord)
      && Those(ts', RUNNING) == Those(ts, RUNNING) && Those(ts', LEFT) == Those(ts, LEFT)
      && Those(ts', WAITING) == Those(ts, WAITING)
  {
  }

  // --------------------------------------------------------------- rejoins

  /** What a rejoin relies on: a back pointer behind the scan names the thread,
      and one that is not finds the thread ahead of the scan. */
  ghost predicate Rejoinable(ts: seq<Info>, run: seq<nat>, cur: nat, t: nat)
    requires t < |ts| && cur <= |run|
  {
    if ts[t].lastIdx < cur then run[ts[t].lastIdx] == t else AheadOfScan(run, cur, t)
  }

  /** The run list, the scan and the threads after the code's rejoin of t,
      whatever its back pointer says. */
  function RejoinRun(ts: seq<Info>, run: seq<nat>, cur: nat, t: nat): seq<nat>
    requires t < |ts| && cur <= |run|
  {
    var i := ts[t].lastIdx;
    if i < cur then run[i := run[cur - 1]][cur - 1 := t] else run
  }

  function RejoinCur(ts: seq<Info>, cur: nat, t: nat): nat
    requires t < |ts|
  {
    if ts[t].lastIdx < cur then cur - 1 else cur
  }

  function RejoinInfos(ts: seq<Info>, run: seq<nat>, cur: nat, t: nat): seq<Info>
    requires t < |ts| && cur <= |run| && forall i | 0 <= i < |run| :: run[i] < |ts|
  {
    var i := ts[t].lastIdx;
    if i < cur then
      var o := run[cur - 1];
      ts[o := ts[o].(lastIdx := i)][t := Info(WAITING, 1, cur - 1)]
    else ts[t := Info(WAITING, 1, i)]
  }

  /** The list survives a rejoin exactly when the code's assertion on the back
      pointer holds. */
  lemma RejoinDistinctIff(ts: seq<Info>, run: seq<nat>, cur: nat, t: nat)
    requires t < |ts| && cur <= |run| && Distinct(run) && t in run
    ensures Distinct(RejoinRun(ts, run, cur, t)) <==> ts[t].lastIdx >= cur || run[ts[t].lastIdx] == t
  {
    var i, r := ts[t].lastIdx, RejoinRun(ts, run, cur, t);
    if i < cur {
      if run[i] == t {
        SwapIn(run, i, cur - 1);
        assert r == Swapped(run, i, cur - 1);
      } else {
        var p :| 0 <= p < |run| && run[p] == t;
        var q := if p == cur - 1 then i else p;
        assert r[cur - 1] == t && r[q] == t;
        if Distinct(r) { DistinctAt(r, cur - 1, q); }
      }
    }
  }

  /** All the bookkeeping survives a rejoin exactly when it is rejoinable. */
  lemma RejoinIff(ts: seq<Info>, run: seq<nat>, cur: nat, running: nat, left: nat, par: nat, log: Log, t: nat)
    requires Ok(ts, run, cur, running, left, par, log) && t < |ts| && ts[t].state == LEFT
    ensures left > 0
    ensures Rejoinable(ts, run, cur, t) <==>
      Ok(RejoinInfos(ts, run, cur, t), RejoinRun(ts, run, cur, t), RejoinCur(ts, cur, t), running, left - 1, par, log + [Rejoined(t)])
  {
    var ts', run', cur', log' := RejoinInfos(ts, run, cur, t), RejoinRun(ts, run, cur, t), RejoinCur(ts, cur, t), log + [Rejoined(t)];
    assert ThreadOk(ts, run, log, t);
    CountPositive(ts, t);
    RejoinDistinctIff(ts, run, cur, t);
    if Rejoinable(ts, run, cur, t) {
      RejoinSound(ts, run, cur, running, left, par, log, t);
    } else if Ok(ts', run', cur', running, left - 1, par, log') {
      var p :| 0 <= p < |run| && run[p] == t;
      assert PlaceOk(ts', run', cur', log', p);
      Appended(log, Rejoined(t), t);
    }
  }

  lemma RejoinSound(ts: seq<Info>, run: seq<nat>, cur: nat, running: nat, left: nat, par: nat, log: Log, t: nat)
    requires Ok(ts, run, cur, running, left, par, log) && t < |ts| && ts[t].state == LEFT && Rejoinable(ts, run, cur, t)
    ensures left > 0
    ensures Ok(RejoinInfos(ts, run, cur, t), RejoinRun(ts, run, cur, t), RejoinCur(ts, cur, t), running, left - 1, par, log + [Rejoined(t)])
  {
    if ts[t].lastIdx < cur {
      var i, j := ts[t].lastIdx, cur - 1;
      var ts1, run1 := SwapInfos(ts, run, i, j), Swapped(run, i, j);
      BringBackOk(ts, run, cur, running, left, par, log, t);
      if i != j { DistinctAt(run, i, j); }
      assert run1[j] == t;
      RejoinOk(ts1, run1, j, running, left, par, log, t);
      assert RejoinRun(ts, run, cur, t) == run1;
      assert RejoinInfos(ts, run, cur, t) == ts1[t := Info(WAITING, 1, ts1[t].lastIdx)];
    } else {
      RejoinOk(ts, run, cur, running, left, par, log, t);
    }
  }

  /** A waiting thread that leaves and comes straight back: the bookkeeping
      survives exactly when its back pointer is ahead of the scan or right. */
  lemma LeaveRejoinIff(ts: seq<Info>, run: seq<nat>, cur: nat, running: nat, left: nat, par: nat, log: Log, t: nat)
    requires Ok(ts, run, cur, running, left, par, log) && t < |ts| && ts[t].state == WAITING
    ensures var ts1, log1 := ts[t := ts[t].(state := LEFT)], log + [Departed(t)];
      && Ok(ts1, run, cur, running, left + 1, par, log1)
      && (cur <= ts[t].lastIdx || run[ts[t].lastIdx] == t <==>
          Ok(RejoinInfos(ts1, run, cur, t), RejoinRun(ts1, run, cur, t), RejoinCur(ts1, cur, t), running, left, par, log1 + [Rejoined(t)]))
  {
    var ts1, log1 := ts[t := ts[t].(state := LEFT)], log + [Departed(t)];
    LeaveWaitingOk(ts, run, cur, running, left, par, log, t);
    RejoinIff(ts1, run, cur, running, left + 1, par, log1, t);
    assert ThreadOk(ts, run, log, t);
    var p :| 0 <= p < |run| && run[p] == t;
    assert PlaceOk(ts, run, cur, log, p);
  }

  /** A thread that has been woken since it came from OFFLINE can always rejoin. */
  lemma WokenRejoins(ts: seq<Info>, run: seq<nat>, cur: nat, running: nat, left: nat, par: nat, log: Log, t: nat)
    requires Ok(ts, run, cur, running, left, par, log)
    requires t < |ts| && ts[t].state != OFFLINE && EverWoken(log, t)
    ensures Rejoinable(ts, run, cur, t)
  {
    assert ThreadOk(ts, run, log, t);
  }

  /** And it stays so whatever happens, until it comes from OFFLINE again. */
  lemma {:induction false} WokenStays(log: Log, more: Log, t: nat)
    requires EverWoken(log, t) && Entered(t) !in more
    ensures EverWoken(log + more, t)
    decreases |more|
  {
    if more == [] {
      assert log + more == log;
    } else {
      var n := |more| - 1;
      WokenStays(log, more[..n], t);
      Appended(log + more[..n], more[n], t);
      assert log + more == (log + more[..n]) + [more[n]];
    }
  }

  /** Shuffling between phases. */
  lemma ShuffleOk(ts: seq<Info>, run: seq<nat>, running: nat, left: nat, par: nat, log: Log, i0: nat, j0: nat)
    requires Ok(ts, run, 0, running, left, par, log) && i0 < |run| && j0 < |run|
    ensures Ok(SwapInfos(ts, run, i0, j0), Swapped(run, i0, j0), 0, running, left, par, log)
  {
    var ts', run' := SwapInfos(ts, run, i0, j0), Swapped(run, i0, j0);
    SameStates(ts, run, i0, j0);
    SwapIn(run, i0, j0);
    forall i | 0 <= i < |run'| ensures PlaceOk(ts', run', 0, log, i) {
      assert PlaceOk(ts, run, 0, log, if i == i0 then j0 else if i == j0 then i0 else i);
    }
    forall u: nat | u < |ts| ensures ThreadOk(ts', run', log, u) {
      assert ThreadOk(ts, run, log, u);
    }
  }

  /** The number drawn for place i, from 0 to i. */
  function Drawn(d: seq<nat>, i: nat): (j: nat)
    ensures j <= i
  {
    if i < |d| && d[i] <= i then d[i] else 0
  }

  /** The shuffle from place i down. */
  function Shuffled(run: seq<nat>, i: nat, d: seq<nat>): (r: seq<nat>)
    ensures |r| == |run|
    decreases i
  {
    if i == 0 || i >= |run| then run else Shuffled(Swapped(run, i, Drawn(d, i)), i - 1, d)
  }

  lemma ShuffledStep(run: seq<nat>, i: nat, d: seq<nat>)
    requires 0 < i < |run|
    ensures Shuffled(run, i, d) == Shuffled(Swapped(run, i, Drawn(d, i)), i - 1, d)
  {
  }

  lemma {:induction false} ShuffledSame(run: seq<nat>, i: nat, d: seq<nat>, e: seq<nat>)
    requires i < |d| && i < |e| && d[..i + 1] == e[..i + 1]
    ensures Shuffled(run, i, d) == Shuffled(run, i, e)
    decreases i
  {
    if 0 < i < |run| {
      assert d[i] == d[..i + 1][i] == e[..i + 1][i] == e[i];
      assert d[..i] == d[..i + 1][..i] == e[..i + 1][..i] == e[..i];
      ShuffledSame(Swapped(run, i, Drawn(d, i)), i - 1, d, e);
    }
  }

  ghost predicate SameMembers(run: seq<nat>, q: seq<nat>) {
    |q| == |run| && Distinct(run) && Distinct(q) && forall x :: x in q <==> x in run
  }

  lemma SwapSettles(run: seq<nat>, q: seq<nat>, i: nat) returns (j: nat)
    requires SameMembers(run, q) && i < |run| && forall k | i < k < |run| :: q[k] == run[k]
    ensures j <= i && run[j] == q[i] && SameMembers(Swapped(run, i, j), q)
    ensures forall k | i <= k < |run| :: q[k] == Swapped(run, i, j)[k]
  {
    assert q[i] in run;
    j :| j < |run| && run[j] == q[i];
    if i < j { DistinctAt(q, i, j); }
    SwapIn(run, i, j);
  }

  lemma {:induction false} ShuffleReaches(run: seq<nat>, q: seq<nat>, i: nat) returns (d: seq<nat>)
    requires SameMembers(run, q) && (i < |run| || i == 0) && forall k | i < k < |run| :: q[k] == run[k]
    ensures |d| == i + 1 && Shuffled(run, i, d) == q
    decreases i
  {
    d := [0];
    if 0 < i < |run| {
      var j := SwapSettles(run, q, i);
      var e := ShuffleReaches(Swapped(run, i, j), q, i - 1);
      d := e + [j];
      ShuffledSame(Swapped(run, i, j), i - 1, d, e);
      assert Drawn(d, i) == j;
    } else if run != [] {
      LastSettled(run, q);
    }
  }

  /** The order of a list for the next phase: shuffled if not all of its threads can
      run at once. */
  function Order(par: nat, run: seq<nat>, d: seq<nat>): seq<nat> {
    if par < |run| then Shuffled(run, |run| - 1, d) else run
  }

  /** Nobody's place is decided beforehand: with too many threads to run at once the
      draws can bring about any order, and otherwise they change nothing. */
  lemma AnyOrder(par: nat, run: seq<nat>, q: seq<nat>) returns (d: seq<nat>)
    requires SameMembers(run, q)
    ensures par < |run| ==> Order(par, run, d) == q
    ensures par >= |run| ==> forall e :: Order(par, run, e) == run
  {
    d := ShuffleReaches(run, q, if run == [] then 0 else |run| - 1);
  }

  lemma LastSettled(run: seq<nat>, q: seq<nat>)
    requires SameMembers(run, q) && run != [] && forall k | 0 < k < |run| :: q[k] == run[k]
    ensures run == q
  {
    assert q[0] in run;
    var j: nat :| j < |run| && run[j] == q[0];
    if 0 < j { DistinctAt(q, 0, j); }
  }

  // ------------------------------------------------------------- phase end

  lemma {:induction false} ElementCount(s: seq<nat>, bound: set<nat>)
    requires forall x | x in bound :: x in s
    ensures |bound| <= |s|
    decreases |s|
  {
    if s != [] {
      var n := |s| - 1;
      forall x | x in bound - {s[n]} ensures x in s[..n] {
        var k :| 0 <= k < |s| && s[k] == x;
        assert s[..n][k] == x;
      }
      ElementCount(s[..n], bound - {s[n]});
    }
  }

  /** If not everybody on the list left, somebody is waiting. */
  lemma SomeoneWaits(ts: seq<Info>, run: seq<nat>, cur: nat, left: nat, par: nat, log: Log) returns (t: nat)
    requires Ok(ts, run, cur, 0, left, par, log) && left != |run|
    ensures t in run && t < |ts| && ts[t].state == WAITING
  {
    var lefts := Those(ts, LEFT);
    forall u | u in lefts ensures u in run { assert ThreadOk(ts, run, log, u); }
    ElementCount(run, lefts);
    if forall i | 0 <= i < |run| :: run[i] in lefts { DistinctSize(run, lefts); }
    var i :| 0 <= i < |run| && run[i] !in lefts;
    t := run[i];
    CountZero(ts, RUNNING);
    assert ThreadOk(ts, run, log, t);
  }

  /** The callback's moment: everyone has synced or left, and the list rewinds. */
  lemma PhaseEndOk(ts: seq<Info>, run: seq<nat>, left: nat, par: nat, log: Log)
    requires Ok(ts, run, |run|, 0, left, par, log) && left != |run|
    ensures EventOk(log, PhaseEnd(run))
    ensures Ok(ts, run, 0, 0, left, par, log + [PhaseEnd(run)])
  {
    var log' := log + [PhaseEnd(run)];
    CountZero(ts, RUNNING);
    var w := SomeoneWaits(ts, run, |run|, left, par, log);
    forall i | 0 <= i < |run| ensures SyncedNow(log, run[i]) || LeftNow(log, run[i])
      ensures ts[run[i]].state == WAITING ==> SyncedNow(log, run[i])
      ensures PlaceOk(ts, run, 0, log', i)
    {
      assert PlaceOk(ts, run, |run|, log, i) && ThreadOk(ts, run, log, run[i]);
      Appended(log, PhaseEnd(run), run[i]);
    }
    Appended(log, PhaseEnd(run), w);
    forall u: nat | u < |ts| ensures ThreadOk(ts, run, log', u) {
      assert ThreadOk(ts, run, log, u);
      Appended(log, PhaseEnd(run), u);
    }
  }

  /** The cleanup pass drops the thread at place i by moving the last one there. */
  function DropInfos(ts: seq<Info>, run: seq<nat>, i: nat): seq<Info>
    requires i < |run| && run[i] < |ts| && run[|run| - 1] < |ts|
  {
    var ts1 := ts[run[i] := ts[run[i]].(state := OFFLINE)];
    ts1[run[|run| - 1] := ts1[run[|run| - 1]].(lastIdx := i)]
  }

  function Dropped(run: seq<nat>, i: nat): seq<nat>
    requires i < |run|
  {
    run[i := run[|run| - 1]][..|run| - 1]
  }

  /** The list after the cleanup pass from place i on, with left the threads that
      LEFT. */
  ghost function Cleaned(run: seq<nat>, left: set<nat>, i: nat): (r: seq<nat>)
    ensures |r| <= |run|
    decreases |run|, |run| - i
  {
    if i >= |run| then run
    else if run[i] in left then Cleaned(Dropped(run, i), left, i)
    else Cleaned(run, left, i + 1)
  }

  /** Nothing has happened to the threads but that some that LEFT went offline. */
  ghost predicate OnlyDropped(before: seq<Info>, after: seq<Info>) {
    && |after| == |before|
    && forall t: nat | t < |before| ::
         after[t].state == before[t].state || (before[t].state == LEFT && after[t].state == OFFLINE)
  }

  /** The cleanup pass has reached place i of what remains of the list. */
  ghost predicate CleanTo(before: seq<Info>, ts: seq<Info>, run: seq<nat>, left: nat, par: nat, log: Log, i: nat) {
    && Ok(ts, run, 0, 0, left, par, log) && OnlyDropped(before, ts) && i <= |run|
    && forall k | 0 <= k < i :: ts[run[k]].state != LEFT
  }

  lemma CleanStep(before: seq<Info>, ts: seq<Info>, run: seq<nat>, left: nat, par: nat, log: Log, i: nat)
    requires CleanTo(before, ts, run, left, par, log, i) && i < |run|
    ensures var gone := Those(before, LEFT);
      if ts[run[i]].state == LEFT then
        && left > 0 && CleanTo(before, DropInfos(ts, run, i), Dropped(run, i), left - 1, par, log, i)
        && Cleaned(run, gone, i) == Cleaned(Dropped(run, i), gone, i)
      else CleanTo(before, ts, run, left, par, log, i + 1) && Cleaned(run, gone, i) == Cleaned(run, gone, i + 1)
  {
    assert ThreadOk(ts, run, log, run[i]);
    if ts[run[i]].state == LEFT { DropOk(ts, run, left, par, log, i); }
  }

  /** The list as it enters the next phase, before it is shuffled. */
  ghost function Kept(run: seq<nat>, ts: seq<Info>, cleanup: bool): seq<nat> {
    if cleanup then Cleaned(run, Those(ts, LEFT), 0) else run
  }

  lemma DropOk(ts: seq<Info>, run: seq<nat>, left: nat, par: nat, log: Log, i0: nat)
    requires Ok(ts, run, 0, 0, left, par, log)
    requires i0 < |run| && ts[run[i0]].state == LEFT
    ensures left > 0
    ensures Ok(DropInfos(ts, run, i0), Dropped(run, i0), 0, 0, left - 1, par, log)
  {
    var t, n := run[i0], |run| - 1;
    var ts1 := ts[t := ts[t].(state := OFFLINE)];
    var ts', run' := DropInfos(ts, run, i0), Dropped(run, i0);
    CountPositive(ts, t);
    CountUpdate(ts, t, ts[t].(state := OFFLINE), RUNNING);
    CountUpdate(ts, t, ts[t].(state := OFFLINE), LEFT);
    CountUpdate(ts1, run[n], ts'[run[n]], RUNNING);
    CountUpdate(ts1, run[n], ts'[run[n]], LEFT);
    DroppedIn(run, i0);
    forall i | 0 <= i < |run'| ensures PlaceOk(ts', run', 0, log, i) {
      assert PlaceOk(ts, run, 0, log, if i == i0 then n else i);
    }
    forall u: nat | u < |ts| ensures ThreadOk(ts', run', log, u) {
      assert ThreadOk(ts, run, log, u);
    }
  }

  lemma DroppedIn(run: seq<nat>, i0: nat)
    requires i0 < |run| && Distinct(run)
    ensures Distinct(Dropped(run, i0))
    ensures forall x :: x in Dropped(run, i0) <==> x in run && x != run[i0]
  {
    var r, n := Dropped(run, i0), |run| - 1;
    forall x | x in run && x != run[i0] ensures x in r {
      var k :| 0 <= k < |run| && run[k] == x;
      assert r[if k == n then i0 else k] == x;
    }
    forall k: nat | k < |run| && k != i0 ensures run[k] != run[i0] { DistinctAt(run, k, i0); }
    forall k: nat, l: nat | k < l < |r| ensures Differ(r, k, l) {
      DistinctAt(run, if k == i0 then n else k, if l == i0 then n else l);
    }
  }
}
