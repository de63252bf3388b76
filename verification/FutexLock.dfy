/** The futex lock as atomic steps of any number of threads on one lock word. */
module FutexLock {

  /** futex_lock, futex_lock_nospin and futex_trylock_nospin_timeout. */
  datatype Kind = Spinning | NoSpin | Timed

  function Tries(kind: Kind): (n: nat)
    ensures n > 0
  {
    if kind == Spinning then 5 else 1
  }

  /** Where a thread is: trying to swap 0 for 1, about to exchange for the first
      time, about to wait, asleep in the kernel, about to exchange again, in the
      critical section, or part way through a contended unlock. */
  datatype Pc =
    | Idle
    | Try(kind: Kind, left: nat)
    | FirstXchg(kind: Kind)
    | Wait(kind: Kind)
    | Asleep(kind: Kind)
    | SecondXchg(kind: Kind)
    | Critical
    | OwesStore
    | OwesWake

  /** byCas: the last acquisition was a compare-and-swap; gaveUp: since then, a
      timed attempt has given up. */
  datatype State = State(word: nat, pcs: seq<Pc>, byCas: bool, gaveUp: bool)

  datatype Step =
    | Begin(t: nat, kind: Kind)
    | TryCas(t: nat)
    | Exchange(t: nat)
    | Sleep(t: nat)
    | Rouse(t: nat)
    | ExchangeAgain(t: nat)
    | Unlock(t: nat)
    | Store(t: nat)
    | Wake(t: nat, u: nat)

  predicate Enabled(s: State, a: Step) {
    a.t < |s.pcs| &&
      var pc := s.pcs[a.t];
      match a
      case Begin(_, _) => pc.Idle?
      case TryCas(_) => pc.Try?
      case Exchange(_) => pc.FirstXchg?
      case Sleep(_) => pc.Wait?
      case Rouse(_) => pc.Asleep?            // a timeout, a signal, a spurious return
      case ExchangeAgain(_) => pc.SecondXchg?
      case Unlock(_) => pc.Critical?
      case Store(_) => pc.OwesStore?
      case Wake(_, u) => pc.OwesWake? && u < |s.pcs| && (s.pcs[u].Asleep? || forall v | 0 <= v < |s.pcs| :: !s.pcs[v].Asleep?)
  }

  function Goto(s: State, t: nat, pc: Pc): State
    requires t < |s.pcs|
  {
    s.(pcs := s.pcs[t := pc])
  }

  function Next(s: State, a: Step): State
    requires Enabled(s, a)
  {
    var pc := s.pcs[a.t];
    match a
    case Begin(t, kind) => Goto(s, t, Try(kind, Tries(kind)))
    case TryCas(t) =>
      if s.word == 0 then Goto(s, t, Critical).(word := 1, byCas := true, gaveUp := false)
      else Goto(s, t, if pc.left > 1 then Try(pc.kind, pc.left - 1) else FirstXchg(pc.kind))
    case Exchange(t) =>
      if s.word == 0 then Goto(s, t, Critical).(word := 2, byCas := false, gaveUp := false)
      else Goto(s, t, Wait(pc.kind)).(word := 2)
    case Sleep(t) => Goto(s, t, if s.word == 2 then Asleep(pc.kind) else SecondXchg(pc.kind))
    case Rouse(t) => Goto(s, t, SecondXchg(pc.kind))
    case ExchangeAgain(t) =>
      if s.word == 0 then Goto(s, t, Critical).(word := 2, byCas := false, gaveUp := false)
      else if pc.kind == Timed then Goto(s, t, Idle).(word := 2, gaveUp := true)
      else Goto(s, t, Try(pc.kind, Tries(pc.kind))).(word := 2)
    case Unlock(t) =>
      if s.word != 1 then Goto(s, t, OwesStore).(word := if s.word == 0 then 0xFFFF_FFFF else s.word - 1)
      else Goto(s, t, Idle).(word := 0)
    case Store(t) => Goto(s, t, OwesWake).(word := 0)
    case Wake(t, u) =>
      if s.pcs[u].Asleep? then Goto(Goto(s, t, Idle), u, SecondXchg(s.pcs[u].kind)) else Goto(s, t, Idle)
  }

  predicate Init(s: State) {
    s.word == 0 && forall t | 0 <= t < |s.pcs| :: s.pcs[t].Idle?
  }

  /** The states after each step of a run. */
  ghost predicate Reachable(s0: State, s: State, steps: seq<Step>)
    decreases |steps|
  {
    if steps == [] then s == s0
    else Enabled(s0, steps[0]) && Reachable(Next(s0, steps[0]), s, steps[1..])
  }

  // --------------------------------------------------------------- invariant

  predicate Holds(pc: Pc) {
    pc.Critical? || pc.OwesStore?
  }

  /** A thread that has exchanged the word, or may still have to. */
  predicate Queued(pc: Pc) {
    pc.Try? || pc.FirstXchg? || pc.Wait? || pc.Asleep? || pc.SecondXchg?
  }

  /** h is the one thread that holds the lock, -1 when it is free; then and only
      then the word is 0. */
  ghost predicate HeldBy(s: State, h: int) {
    && -1 <= h < |s.pcs|
    && (forall t | 0 <= t < |s.pcs| :: Holds(s.pcs[t]) <==> t == h)
    && s.word <= 2 && (s.word == 0 <==> h == -1)
  }

  /** What will wake a sleeper: a contended holder, an unfinished unlock, or a
      woken thread that has yet to exchange. */
  predicate Rescues(s: State, pc: Pc) {
    (pc.Critical? && s.word == 2) || pc.OwesStore? || pc.OwesWake? || pc.SecondXchg?
  }

  ghost predicate SomeRescuer(s: State) {
    exists u :: 0 <= u < |s.pcs| && Rescues(s, s.pcs[u])
  }

  ghost predicate SomeAsleep(s: State) {
    exists u :: 0 <= u < |s.pcs| && s.pcs[u].Asleep?
  }

  ghost predicate SomeQueued(s: State) {
    exists u :: 0 <= u < |s.pcs| && Queued(s.pcs[u])
  }

  /** A word of 2 over a holder that swapped in 1 was put there by a thread that
      still queues. */
  ghost predicate MarkOk(s: State, h: int)
    requires HeldBy(s, h)
  {
    h >= 0 && s.pcs[h].Critical? && s.byCas && !s.gaveUp && s.word == 2 ==> SomeQueued(s)
  }

  /** A holder that came by its exchange, or past which a timed attempt has given
      up, has 2 in the word. */
  ghost predicate LeftoverOk(s: State, h: int)
    requires HeldBy(s, h)
  {
    h >= 0 && s.pcs[h].Critical? && (!s.byCas || s.gaveUp) ==> s.word == 2
  }

  ghost predicate Inv(s: State, h: int) {
    HeldBy(s, h) && (SomeAsleep(s) ==> SomeRescuer(s)) && MarkOk(s, h) && LeftoverOk(s, h)
  }

  /** The holder after a step. */
  function Holder(s: State, h: int, a: Step): int
    requires Enabled(s, a)
  {
    match a
    case TryCas(t) => if s.word == 0 then t else h
    case Exchange(t) => if s.word == 0 then t else h
    case ExchangeAgain(t) => if s.word == 0 then t else h
    case Unlock(_) => if s.word == 1 then -1 else h
    case Store(_) => -1
    case _ => h
  }

  lemma StepExcludes(s: State, h: int, a: Step)
    requires HeldBy(s, h) && Enabled(s, a)
    ensures HeldBy(Next(s, a), Holder(s, h, a))
  {
    var s' := Next(s, a);
    assert Holds(s.pcs[a.t]) <==> a.t == h;
    forall t | 0 <= t < |s'.pcs| ensures Holds(s'.pcs[t]) <==> t == Holder(s, h, a) {
      assert t != a.t ==> (Holds(s'.pcs[t]) <==> Holds(s.pcs[t]));
    }
  }

  lemma StepRescues(s: State, h: int, a: Step)
    requires Inv(s, h) && Enabled(s, a) && SomeAsleep(Next(s, a))
    ensures SomeRescuer(Next(s, a))
  {
    var s' := Next(s, a);
    if (a.ExchangeAgain? && s.word == 0) || a.Store? || (a.Unlock? && s.word != 1) {
      assert Rescues(s', s'.pcs[a.t]);
    } else if a.Rouse? {
      assert Rescues(s', s'.pcs[a.t]);
    } else if a.Sleep? && s.word == 2 {
      assert s'.pcs[h] == s.pcs[h] && Rescues(s', s'.pcs[h]);
    } else {
      var t :| 0 <= t < |s.pcs| && s'.pcs[t].Asleep?;
      assert s.pcs[t].Asleep?;
      if a.Wake? {
        assert Rescues(s', s'.pcs[a.u]);
      } else if a.ExchangeAgain? {
        assert Rescues(s', s'.pcs[h]);
      } else {
        var u :| 0 <= u < |s.pcs| && Rescues(s, s.pcs[u]);
        assert Rescues(s', s'.pcs[u]);
      }
    }
  }

  lemma StepMark(s: State, h: int, a: Step)
    requires Inv(s, h) && Enabled(s, a) && HeldBy(Next(s, a), Holder(s, h, a))
    ensures MarkOk(Next(s, a), Holder(s, h, a))
  {
    var s', h' := Next(s, a), Holder(s, h, a);
    if h' >= 0 && s'.pcs[h'].Critical? && s'.byCas && !s'.gaveUp && s'.word == 2 {
      assert h' == h && s.pcs[h].Critical?;
      if a.Exchange? || a.ExchangeAgain? {
        assert Queued(s'.pcs[a.t]);
      } else {
        var u :| 0 <= u < |s.pcs| && Queued(s.pcs[u]);
        assert Queued(s'.pcs[u]);
      }
    }
  }

  lemma StepLeftover(s: State, h: int, a: Step)
    requires Inv(s, h) && Enabled(s, a) && HeldBy(Next(s, a), Holder(s, h, a))
    ensures LeftoverOk(Next(s, a), Holder(s, h, a))
  {
    var s', h' := Next(s, a), Holder(s, h, a);
    if h' >= 0 && s'.pcs[h'].Critical? && h' == h { assert s.pcs[h].Critical?; }
  }

  lemma StepKeeps(s: State, h: int, a: Step)
    requires Inv(s, h) && Enabled(s, a)
    ensures Inv(Next(s, a), Holder(s, h, a))
  {
    StepExcludes(s, h, a);
    if SomeAsleep(Next(s, a)) { StepRescues(s, h, a); }
    StepMark(s, h, a);
    StepLeftover(s, h, a);
  }

  lemma {:induction false} RunKeeps(s0: State, h0: int, s: State, steps: seq<Step>) returns (h: int)
    requires Inv(s0, h0) && Reachable(s0, s, steps)
    ensures Inv(s, h)
    decreases |steps|
  {
    h := h0;
    if steps != [] {
      StepKeeps(s0, h0, steps[0]);
      h := RunKeeps(Next(s0, steps[0]), Holder(s0, h0, steps[0]), s, steps[1..]);
    }
  }

  // ---------------------------------------------------------------- theorems

  /** At most one thread is in the critical section or in the middle of leaving
      it, the word is 0 exactly when there is none, and it never wraps around. */
  lemma MutualExclusion(s0: State, s: State, steps: seq<Step>)
    requires Init(s0) && Reachable(s0, s, steps)
    ensures forall t, u | 0 <= t < u < |s.pcs| :: !(Holds(s.pcs[t]) && Holds(s.pcs[u]))
    ensures s.word == 0 <==> forall t | 0 <= t < |s.pcs| :: !Holds(s.pcs[t])
    ensures s.word <= 2
  {
    var h := RunKeeps(s0, -1, s, steps);
    if h >= 0 { assert Holds(s.pcs[h]); }
  }

  /** No sleeper is forgotten. */
  lemma NoLostWakeup(s0: State, s: State, steps: seq<Step>)
    requires Init(s0) && Reachable(s0, s, steps) && SomeAsleep(s)
    ensures exists u :: (0 <= u < |s.pcs| &&
      ((s.pcs[u].Critical? && s.word == 2) || s.pcs[u].OwesStore? || s.pcs[u].OwesWake? || s.pcs[u].SecondXchg?))
  {
    var h := RunKeeps(s0, -1, s, steps);
    var u :| 0 <= u < |s.pcs| && Rescues(s, s.pcs[u]);
  }

  /** With a sleeper and no other thread left to act on the lock, a contended
      unlock always reaches the kernel and wakes one. */
  lemma UnlockWakes(s0: State, s: State, steps: seq<Step>, t: nat)
    requires Init(s0) && Reachable(s0, s, steps) && SomeAsleep(s) && Enabled(s, Unlock(t))
    requires forall u | 0 <= u < |s.pcs| && u != t :: s.pcs[u].Idle? || s.pcs[u].Asleep?
    ensures var s1 := Next(s, Unlock(t));
      && s1.pcs[t].OwesStore?
      && var s2 := Next(s1, Store(t));
        && s2.word == 0 && s2.pcs[t].OwesWake?
        && forall u: nat | Enabled(s2, Wake(t, u)) :: s2.pcs[u].Asleep? && Next(s2, Wake(t, u)).pcs[u].SecondXchg?
  {
    NoLostWakeup(s0, s, steps);
    var v :| 0 <= v < |s.pcs| && s.pcs[v].Asleep?;
    var s2 := Next(Next(s, Unlock(t)), Store(t));
    assert s2.pcs[v].Asleep?;
  }

  /** futex_haswaiters promises no false positives. With the lock held and nobody
      queued, the query is wrong exactly when the holder got the lock by its
      exchange or a timed attempt has given up since it did. */
  lemma HasWaitersWrongIff(s0: State, s: State, steps: seq<Step>, t: nat)
    requires Init(s0) && Reachable(s0, s, steps)
    requires t < |s.pcs| && s.pcs[t].Critical?
    requires forall u | 0 <= u < |s.pcs| :: !Queued(s.pcs[u])
    ensures s.word == 2 <==> !s.byCas || s.gaveUp
  {
    var h := RunKeeps(s0, -1, s, steps);
    assert Holds(s.pcs[t]) <==> t == h;
  }

  /** So a holder that swapped 0 for 1, with no timed attempt given up since, may
      trust the query. */
  lemma HasWaitersSound(s0: State, s: State, steps: seq<Step>, t: nat)
    requires Init(s0) && Reachable(s0, s, steps)
    requires t < |s.pcs| && s.pcs[t].Critical? && s.byCas && !s.gaveUp && s.word == 2
    ensures exists u :: 0 <= u < |s.pcs| && Queued(s.pcs[u])
  {
    if forall u | 0 <= u < |s.pcs| :: !Queued(s.pcs[u]) { HasWaitersWrongIff(s0, s, steps, t); }
  }

  lemma {:induction false} Snoc(s0: State, s: State, steps: seq<Step>, a: Step)
    requires Reachable(s0, s, steps) && Enabled(s, a)
    ensures Reachable(s0, Next(s, a), steps + [a])
    decreases |steps|
  {
    if steps == [] {
      assert Reachable(Next(s0, a), Next(s0, a), []);
      assert [a][1..] == [];
    } else {
      Snoc(Next(s0, steps[0]), s, steps[1..], a);
      assert (steps + [a])[1..] == steps[1..] + [a];
    }
  }

  /** Without that the promise fails: a thread that gets the lock by its exchange
      leaves 2 in the word with nobody behind it. */
  lemma HasWaitersFalsePositive(s0: State) returns (s: State, steps: seq<Step>)
    requires Init(s0) && |s0.pcs| == 2
    ensures Reachable(s0, s, steps) && s.word == 2 && !s.byCas
    ensures s.pcs == [Idle, Critical]
  {
    steps := [];
    s := s0;
    var all := [Begin(0, NoSpin), TryCas(0), Begin(1, NoSpin), TryCas(1), Exchange(1), Unlock(0), Store(0), Sleep(1), Wake(0, 0), ExchangeAgain(1)];
    for i := 0 to |all|
      invariant steps == all[..i] && Reachable(s0, s, steps) && |s.pcs| == 2
      invariant i == 0 ==> s == s0
      invariant i == 1 ==> s.word == 0 && s.pcs == [Try(NoSpin, 1), Idle]
      invariant i == 2 ==> s.word == 1 && s.pcs == [Critical, Idle]
      invariant i == 3 ==> s.word == 1 && s.pcs == [Critical, Try(NoSpin, 1)]
      invariant i == 4 ==> s.word == 1 && s.pcs == [Critical, FirstXchg(NoSpin)]
      invariant i == 5 ==> s.word == 2 && s.pcs == [Critical, Wait(NoSpin)]
      invariant i == 6 ==> s.word == 1 && s.pcs == [OwesStore, Wait(NoSpin)]
      invariant i == 7 ==> s.word == 0 && s.pcs == [OwesWake, Wait(NoSpin)]
      invariant i == 8 ==> s.word == 0 && s.pcs == [OwesWake, SecondXchg(NoSpin)]
      invariant i == 9 ==> s.word == 0 && s.pcs == [Idle, SecondXchg(NoSpin)]
      invariant i == 10 ==> s.word == 2 && s.pcs == [Idle, Critical] && !s.byCas
    {
      Snoc(s0, s, steps, all[i]);
      steps := steps + [all[i]];
      s := Next(s, all[i]);
    }
  }

  /** And a timed attempt that gives up leaves its 2 behind as well. */
  lemma HasWaitersAfterTimeout(s0: State) returns (s: State, steps: seq<Step>)
    requires Init(s0) && |s0.pcs| == 2
    ensures Reachable(s0, s, steps) && s.word == 2 && s.byCas && s.gaveUp
    ensures s.pcs == [Critical, Idle]
  {
    steps := [];
    s := s0;
    var all := [Begin(0, NoSpin), TryCas(0), Begin(1, Timed), TryCas(1), Exchange(1), Sleep(1), Rouse(1), ExchangeAgain(1)];
    for i := 0 to |all|
      invariant steps == all[..i] && Reachable(s0, s, steps) && |s.pcs| == 2
      invariant i == 0 ==> s == s0
      invariant i == 1 ==> s.word == 0 && s.pcs == [Try(NoSpin, 1), Idle]
      invariant i == 2 ==> s.word == 1 && s.pcs == [Critical, Idle]
      invariant i == 3 ==> s.word == 1 && s.pcs == [Critical, Try(Timed, 1)]
      invariant i == 4 ==> s.word == 1 && s.pcs == [Critical, FirstXchg(Timed)]
      invariant i == 5 ==> s.word == 2 && s.pcs == [Critical, Wait(Timed)]
      invariant i == 6 ==> s.word == 2 && s.pcs == [Critical, Asleep(Timed)]
      invariant i == 7 ==> s.word == 2 && s.pcs == [Critical, SecondXchg(Timed)]
      invariant i == 8 ==> s.word == 2 && s.pcs == [Critical, Idle] && s.gaveUp
      invariant i >= 2 ==> s.byCas
    {
      Snoc(s0, s, steps, all[i]);
      steps := steps + [all[i]];
      s := Next(s, all[i]);
    }
  }

  // ------------------------------------------------------------- what a lock call returns

  /** What one step, of any thread, does to a thread in a lock call: it stays in
      it, or gets the lock by its own step on a word of 0, or is a timed attempt
      whose last exchange found the lock taken. */
  lemma QueuedStep(s: State, a: Step, t: nat)
    requires Enabled(s, a) && t < |s.pcs| && Queued(s.pcs[t])
    ensures var p, q := s.pcs[t], Next(s, a).pcs[t];
      || (Queued(q) && q.kind == p.kind)
      || (q.Critical? && a.t == t && s.word == 0)
      || (q.Idle? && p == SecondXchg(Timed) && a == ExchangeAgain(t) && s.word != 0)
  {
  }

  /** The kind of the last lock call of t, if t has not unlocked since. */
  datatype Call = NoCall | Called(kind: Kind)

  ghost function LastCall(steps: seq<Step>, t: nat): Call {
    if steps == [] then NoCall
    else match steps[|steps| - 1]
      case Begin(u, kind) => if u == t then Called(kind) else LastCall(steps[..|steps| - 1], t)
      case Unlock(u) => if u == t then NoCall else LastCall(steps[..|steps| - 1], t)
      case _ => LastCall(steps[..|steps| - 1], t)
  }

  /** Where a thread can be, by its calls alone. */
  ghost predicate CallOk(call: Call, pc: Pc) {
    match call
    case NoCall => pc.Idle? || pc.OwesStore? || pc.OwesWake?
    case Called(kind) => pc.Critical? || (Queued(pc) && pc.kind == kind) || (pc.Idle? && kind == Timed)
  }

  lemma {:induction false} RunSnoc(s0: State, s: State, steps: seq<Step>) returns (m: State)
    requires Reachable(s0, s, steps) && steps != []
    ensures var n := |steps| - 1;
      |m.pcs| == |s0.pcs| && Reachable(s0, m, steps[..n]) && Enabled(m, steps[n]) && s == Next(m, steps[n])
    decreases |steps|
  {
    var n := |steps| - 1;
    if n == 0 {
      m := s0;
    } else {
      m := RunSnoc(Next(s0, steps[0]), s, steps[1..]);
      assert steps[1..][..n - 1] == steps[..n][1..];
    }
  }

  /** futex_lock and futex_lock_nospin come back only with the lock: from its call
      to its unlock a thread is in the call, with the kind it asked for, or holds
      the lock. Only a timed call can also have come back without it. */
  lemma {:induction false} ReturnsWithLock(s0: State, s: State, steps: seq<Step>, t: nat)
    requires Init(s0) && Reachable(s0, s, steps) && t < |s0.pcs|
    ensures |s.pcs| == |s0.pcs| && CallOk(LastCall(steps, t), s.pcs[t])
    decreases |steps|
  {
    if steps != [] {
      var n := |steps| - 1;
      var m := RunSnoc(s0, s, steps);
      ReturnsWithLock(s0, m, steps[..n], t);
      if Queued(m.pcs[t]) { QueuedStep(m, steps[n], t); }
    }
  }

  /** On a free lock a thread in the call gets it by at most two steps of its own: by
      its swap with a word of 1, and once it has turned to exchanging with a word of
      2, for others may be waiting. */
  lemma FreeLockTaken(s: State, t: nat) returns (steps: seq<Step>, s': State)
    requires t < |s.pcs| && s.word == 0 && Queued(s.pcs[t]) && !s.pcs[t].Asleep?
    ensures |steps| <= 2 && (forall a | a in steps :: a.t == t)
    ensures Reachable(s, s', steps) && s'.pcs == s.pcs[t := Critical] && s'.word == if s.pcs[t].Try? then 1 else 2
  {
    var pc := s.pcs[t];
    steps := match pc
      case Try(_, _) => [TryCas(t)]
      case FirstXchg(_) => [Exchange(t)]
      case SecondXchg(_) => [ExchangeAgain(t)]
      case _ => [Sleep(t), ExchangeAgain(t)];
    var s1 := Next(s, steps[0]);
    s' := if pc.Wait? then Next(s1, steps[1]) else s1;
    assert Reachable(s', s', []);
    if pc.Wait? {
      assert steps[1..] == [ExchangeAgain(t)] && steps[1..][1..] == [];
      assert Reachable(s1, s', steps[1..]);
    } else {
      assert steps[1..] == [];
    }
  }

  lemma Cons(s0: State, a: Step, s: State, rest: seq<Step>)
    requires Enabled(s0, a) && Reachable(Next(s0, a), s, rest)
    ensures Reachable(s0, s, [a] + rest)
  {
    assert ([a] + rest)[1..] == rest;
  }

  function Attempts(t: nat, n: nat): (steps: seq<Step>)
    ensures |steps| == n && forall a | a in steps :: a == TryCas(t)
  {
    if n == 0 then [] else [TryCas(t)] + Attempts(t, n - 1)
  }

  /** The steps of a call that finds the lock taken all along: five attempts if it
      spins and one if not, the exchange, the sleep. */
  function Patience(t: nat, kind: Kind): seq<Step> {
    [Begin(t, kind)] + (Attempts(t, if kind == Spinning then 5 else 1) + ([Exchange(t)] + [Sleep(t)]))
  }

  lemma {:induction false} AttemptsFail(s: State, t: nat, kind: Kind, left: nat, s': State, rest: seq<Step>)
    requires t < |s.pcs| && s.word > 0 && left > 0 && s.pcs[t] == Try(kind, left)
    requires Reachable(Goto(s, t, FirstXchg(kind)), s', rest)
    ensures Reachable(s, s', Attempts(t, left) + rest)
    decreases left
  {
    var s1 := Next(s, TryCas(t));
    if left > 1 {
      assert Goto(s1, t, FirstXchg(kind)) == Goto(s, t, FirstXchg(kind));
      AttemptsFail(s1, t, kind, left - 1, s', rest);
    } else {
      assert Attempts(t, 0) + rest == rest;
    }
    Cons(s, TryCas(t), s', Attempts(t, left - 1) + rest);
    assert Attempts(t, left) + rest == [TryCas(t)] + (Attempts(t, left - 1) + rest);
  }

  /** It ends up asleep on a word of 2, and no other thread has moved. */
  lemma TakenLockSleeps(s: State, t: nat, kind: Kind)
    requires t < |s.pcs| && s.pcs[t].Idle? && s.word > 0
    ensures Reachable(s, Goto(s, t, Asleep(kind)).(word := 2), Patience(t, kind))
  {
    var s1 := Next(s, Begin(t, kind));
    var s2 := Goto(s1, t, FirstXchg(kind));
    var s3 := Next(s2, Exchange(t));
    var s4 := Next(s3, Sleep(t));
    assert s4 == Goto(s, t, Asleep(kind)).(word := 2);
    assert [Sleep(t)] + [] == [Sleep(t)];
    Cons(s3, Sleep(t), s4, []);
    Cons(s2, Exchange(t), s4, [Sleep(t)]);
    AttemptsFail(s1, t, kind, Tries(kind), s4, [Exchange(t)] + [Sleep(t)]);
    Cons(s, Begin(t, kind), s4, Attempts(t, Tries(kind)) + ([Exchange(t)] + [Sleep(t)]));
  }

  lemma TwoSteps(s: State, a: Step, b: Step)
    requires Enabled(s, a) && Enabled(Next(s, a), b)
    ensures Reachable(s, Next(Next(s, a), b), [a, b])
  {
    var s2 := Next(Next(s, a), b);
    assert [b] + [] == [b] && [a] + [b] == [a, b];
    Cons(Next(s, a), b, s2, []);
    Cons(s, a, s2, [b]);
  }

  /** One that is roused to find the lock still taken starts its call afresh, or
      gives up if it is timed. */
  lemma RousedForNothing(s: State, t: nat)
    requires t < |s.pcs| && s.pcs[t].Asleep? && s.word > 0
    ensures var steps, idle := [Rouse(t), ExchangeAgain(t)], Goto(s, t, Idle).(word := 2);
      if s.pcs[t].kind == Timed then Reachable(s, idle.(gaveUp := true), steps)
      else Reachable(s, Next(idle, Begin(t, s.pcs[t].kind)), steps)
  {
    TwoSteps(s, Rouse(t), ExchangeAgain(t));
    var s2 := Next(Next(s, Rouse(t)), ExchangeAgain(t));
    assert s.pcs[t].kind == Timed ==> s2 == Goto(s, t, Idle).(word := 2, gaveUp := true);
    assert s.pcs[t].kind != Timed ==> s2 == Next(Goto(s, t, Idle).(word := 2), Begin(t, s.pcs[t].kind));
  }

  /** Without contention a call is a swap and an unlock a decrement; with it the
      unlock frees the lock before it turns to the sleepers. */
  lemma Uncontended(s0: State, s: State, steps: seq<Step>, t: nat, kind: Kind)
    requires Init(s0) && Reachable(s0, s, steps) && t < |s.pcs|
    ensures s.pcs[t].Idle? && s.word == 0 ==>
      Reachable(s, s.(word := 1, pcs := s.pcs[t := Critical], byCas := true, gaveUp := false), [Begin(t, kind), TryCas(t)])
    ensures s.pcs[t].Critical? && s.word == 1 ==> Reachable(s, s.(word := 0, pcs := s.pcs[t := Idle]), [Unlock(t)])
    ensures s.pcs[t].Critical? && s.word != 1 ==> Reachable(s, s.(word := 0, pcs := s.pcs[t := OwesWake]), [Unlock(t), Store(t)])
  {
    if s.pcs[t].Idle? && s.word == 0 {
      TwoSteps(s, Begin(t, kind), TryCas(t));
      assert Next(Next(s, Begin(t, kind)), TryCas(t)) == s.(word := 1, pcs := s.pcs[t := Critical], byCas := true, gaveUp := false);
    } else if s.pcs[t].Critical? && s.word == 1 {
      assert [Unlock(t)] + [] == [Unlock(t)];
      Cons(s, Unlock(t), Next(s, Unlock(t)), []);
    } else if s.pcs[t].Critical? {
      TwoSteps(s, Unlock(t), Store(t));
      assert Next(Next(s, Unlock(t)), Store(t)) == s.(word := 0, pcs := s.pcs[t := OwesWake]);
    }
  }

  /** Sleepers need no timeout, signal or spurious return: while there is one, some
      thread that is awake can take a step towards waking it. */
  lemma AwakeCanStep(s0: State, s: State, steps: seq<Step>) returns (a: Step)
    requires Init(s0) && Reachable(s0, s, steps) && SomeAsleep(s)
    ensures Enabled(s, a) && (a.Unlock? || a.Store? || a.Wake? || a.ExchangeAgain?)
    ensures !s.pcs[a.t].Idle? && !s.pcs[a.t].Asleep?
  {
    NoLostWakeup(s0, s, steps);
    var u :| 0 <= u < |s.pcs| &&
      ((s.pcs[u].Critical? && s.word == 2) || s.pcs[u].OwesStore? || s.pcs[u].OwesWake? || s.pcs[u].SecondXchg?);
    var v :| 0 <= v < |s.pcs| && s.pcs[v].Asleep?;
    a := if s.pcs[u].Critical? then Unlock(u) else if s.pcs[u].OwesStore? then Store(u)
         else if s.pcs[u].OwesWake? then Wake(u, v) else ExchangeAgain(u);
  }
}
