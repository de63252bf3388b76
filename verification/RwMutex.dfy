/** The reader-writer mutex with atomic downgrade, as steps of any number of
    threads over two plain mutexes (rb, wq) and the reader count. */
module RwMutex {

  datatype Pc =
    | Idle
    | RdWaitRb    // rdLock: blocked on rb
    | RdAdd       // has rb, about to count itself
    | RdWaitWq    // counted as first reader, blocked on wq
    | RdDone      // about to release rb
    | Reading
    | RdOpen      // rdUnlock: was the last reader, about to unlock wq
    | WrWaitRb    // wrLock: blocked on rb
    | WrWaitWq    // has rb, blocked on wq
    | WrDone      // about to release rb
    | Writing
    | DgUnlock    // downgrade: counted itself behind a waiting reader, about to unlock wq

  datatype Op = RdLock | RdUnlock | WrLock | WrUnlock | Downgrade | Go

  /** Thread t starts an operation, or goes on with the one it is in. */
  datatype Step = Step(t: nat, op: Op)

  /** rb: the thread that holds rb, or -1; wq: whether wq is locked. */
  datatype State = State(rb: int, wq: bool, readers: int, pcs: seq<Pc>)

  predicate Enabled(s: State, a: Step) {
    a.t < |s.pcs| &&
      match (s.pcs[a.t], a.op)
      case (Idle, RdLock) => true
      case (Idle, WrLock) => true
      case (Reading, RdUnlock) => true
      case (Writing, WrUnlock) => true
      case (Writing, Downgrade) => true
      case (RdWaitRb, Go) => s.rb == -1
      case (WrWaitRb, Go) => s.rb == -1
      case (RdWaitWq, Go) => !s.wq
      case (WrWaitWq, Go) => !s.wq
      case (RdAdd, Go) => true
      case (RdDone, Go) => true
      case (RdOpen, Go) => true
      case (WrDone, Go) => true
      case (DgUnlock, Go) => true
      case _ => false
  }

  function Next(s: State, a: Step): State
    requires Enabled(s, a)
  {
    var t := a.t;
    match s.pcs[t]
    case Idle => s.(pcs := s.pcs[t := if a.op == RdLock then RdWaitRb else WrWaitRb])
    case RdWaitRb => s.(rb := t, pcs := s.pcs[t := RdAdd])
    case RdAdd => s.(readers := s.readers + 1, pcs := s.pcs[t := if s.readers == 0 then RdWaitWq else RdDone])
    case RdWaitWq => s.(wq := true, pcs := s.pcs[t := RdDone])
    case RdDone => s.(rb := -1, pcs := s.pcs[t := Reading])
    case Reading => s.(readers := s.readers - 1, pcs := s.pcs[t := if s.readers == 1 then RdOpen else Idle])
    case RdOpen => s.(wq := false, pcs := s.pcs[t := Idle])
    case WrWaitRb => s.(rb := t, pcs := s.pcs[t := WrWaitWq])
    case WrWaitWq => s.(wq := true, pcs := s.pcs[t := WrDone])
    case WrDone => s.(rb := -1, pcs := s.pcs[t := Writing])
    case Writing =>
      if a.op == WrUnlock then s.(wq := false, pcs := s.pcs[t := Idle])
      else s.(readers := s.readers + 1, pcs := s.pcs[t := if s.readers == 0 then Reading else DgUnlock])
    case DgUnlock => s.(wq := false, pcs := s.pcs[t := Reading])
  }

  predicate Init(s: State) {
    s.rb == -1 && !s.wq && s.readers == 0 && forall t | 0 <= t < |s.pcs| :: s.pcs[t].Idle?
  }

  ghost predicate Reachable(s0: State, s: State, steps: seq<Step>)
    decreases |steps|
  {
    if steps == [] then s == s0
    else Enabled(s0, steps[0]) && Reachable(Next(s0, steps[0]), s, steps[1..])
  }

  // --------------------------------------------------------------- invariant

  predicate InRb(pc: Pc) {
    pc.RdAdd? || pc.RdWaitWq? || pc.RdDone? || pc.WrWaitWq? || pc.WrDone?
  }

  /** The thread itself, not the group of readers, holds wq. */
  predicate HoldsWq(pc: Pc) {
    pc.WrDone? || pc.Writing? || pc.DgUnlock? || pc.RdOpen?
  }

  predicate Active(pc: Pc) {
    pc.RdDone? || pc.Reading?
  }

  function ActiveReaders(pcs: seq<Pc>): nat {
    if pcs == [] then 0
    else ActiveReaders(pcs[..|pcs| - 1]) + if Active(pcs[|pcs| - 1]) then 1 else 0
  }

  lemma {:induction false} ActiveUpdate(pcs: seq<Pc>, t: nat, pc: Pc)
    requires t < |pcs|
    ensures ActiveReaders(pcs[t := pc]) + (if Active(pcs[t]) then 1 else 0) == ActiveReaders(pcs) + if Active(pc) then 1 else 0
  {
    var n := |pcs| - 1;
    if t < n {
      ActiveUpdate(pcs[..n], t, pc);
      assert pcs[t := pc][..n] == pcs[..n][t := pc];
    } else {
      assert pcs[t := pc][..n] == pcs[..n];
    }
  }

  lemma {:induction false} ActiveCount(pcs: seq<Pc>)
    ensures ActiveReaders(pcs) == 0 <==> forall t | 0 <= t < |pcs| :: !Active(pcs[t])
  {
    if pcs != [] { ActiveCount(pcs[..|pcs| - 1]); }
  }

  /** A reader has counted itself first and waits for wq. */
  predicate ReaderWaits(s: State) {
    0 <= s.rb < |s.pcs| && s.pcs[s.rb].RdWaitWq?
  }

  /** h is the thread that holds wq on its own, or -1. With a reader waiting for
      wq at most one other reader, just downgraded, is active; with none waiting
      the active readers hold wq together. */
  ghost predicate Inv(s: State, h: int) {
    RbOk(s) && WqOk(s, h) && CountOk(s, h, ActiveReaders(s.pcs))
  }

  ghost predicate RbOk(s: State) {
    -1 <= s.rb < |s.pcs| && forall t | 0 <= t < |s.pcs| :: InRb(s.pcs[t]) <==> t == s.rb
  }

  ghost predicate WqOk(s: State, h: int) {
    -1 <= h < |s.pcs| && forall t | 0 <= t < |s.pcs| :: HoldsWq(s.pcs[t]) <==> t == h
  }

  ghost predicate CountOk(s: State, h: int, n: nat)
    requires -1 <= h < |s.pcs|
  {
    && (h >= 0 ==> s.wq && n == 0)
    && (h >= 0 && s.pcs[h].DgUnlock? ==> ReaderWaits(s))
    && (h < 0 && ReaderWaits(s) ==> !s.wq && n <= 1)
    && (h < 0 && !ReaderWaits(s) ==> (s.wq <==> n > 0))
    && s.readers == n + (if ReaderWaits(s) then 1 else 0) + (if h >= 0 && s.pcs[h].DgUnlock? then 1 else 0)
  }

  function Holder(s: State, h: int, a: Step): int
    requires Enabled(s, a)
  {
    match s.pcs[a.t]
    case Reading => if s.readers == 1 then a.t else h
    case RdOpen => -1
    case WrWaitWq => a.t
    case Writing => if a.op == WrUnlock || s.readers == 0 then -1 else h
    case DgUnlock => -1
    case _ => h
  }

  lemma RbStep(s: State, a: Step)
    requires RbOk(s) && Enabled(s, a)
    ensures RbOk(Next(s, a))
  {
    var s' := Next(s, a);
    assert InRb(s.pcs[a.t]) <==> a.t == s.rb;
    forall t | 0 <= t < |s'.pcs| ensures InRb(s'.pcs[t]) <==> t == s'.rb {
      assert t != a.t ==> (InRb(s'.pcs[t]) <==> t == s.rb);
    }
  }

  lemma WqStep(s: State, h: int, a: Step)
    requires Inv(s, h) && Enabled(s, a)
    ensures WqOk(Next(s, a), Holder(s, h, a))
  {
    var s' := Next(s, a);
    assert HoldsWq(s.pcs[a.t]) <==> a.t == h;
    if Active(s.pcs[a.t]) { ActiveCount(s.pcs); }
    forall t | 0 <= t < |s'.pcs| ensures HoldsWq(s'.pcs[t]) <==> t == Holder(s, h, a) {
      assert t != a.t ==> (HoldsWq(s'.pcs[t]) <==> t == h);
    }
  }

  lemma CountStep(s: State, h: int, a: Step)
    requires Inv(s, h) && Enabled(s, a) && WqOk(Next(s, a), Holder(s, h, a))
    ensures CountOk(Next(s, a), Holder(s, h, a), ActiveReaders(Next(s, a).pcs))
  {
    ActiveUpdate(s.pcs, a.t, Next(s, a).pcs[a.t]);
    assert InRb(s.pcs[a.t]) <==> a.t == s.rb;
    assert HoldsWq(s.pcs[a.t]) <==> a.t == h;
    if Active(s.pcs[a.t]) { ActiveCount(s.pcs); }
  }

  lemma StepKeeps(s: State, h: int, a: Step)
    requires Inv(s, h) && Enabled(s, a)
    ensures Inv(Next(s, a), Holder(s, h, a))
  {
    RbStep(s, a);
    WqStep(s, h, a);
    CountStep(s, h, a);
  }

  lemma {:induction false} RunKeeps(s0: State, h0: int, s: State, steps: seq<Step>) returns (h: int)
    requires Inv(s0, h0) && Reachable(s0, s, steps)
    ensures Inv(s, h)
    decreases |steps|
  {
    h := h0;
    if steps != [] {
      StepKeeps(s0, h0, steps[0]);
      h := RunKeeps(Next(s0, steps[0]), Holder(s0, h0, steps[0]), s, steps[1..]);
    }
  }

  lemma InitInv(s: State)
    requires Init(s)
    ensures Inv(s, -1)
  {
    ActiveCount(s.pcs);
  }

  // ---------------------------------------------------------------- theorems

  lemma WriterAlone(s0: State, s: State, steps: seq<Step>, t: nat, u: nat)
    requires Init(s0) && Reachable(s0, s, steps)
    requires t < |s.pcs| && u < |s.pcs| && t != u && s.pcs[t].Writing?
    ensures !s.pcs[u].Writing? && !s.pcs[u].Reading?
  {
    InitInv(s0);
    var h := RunKeeps(s0, -1, s, steps);
    ActiveCount(s.pcs);
    assert HoldsWq(s.pcs[t]) <==> t == h;
    assert HoldsWq(s.pcs[u]) <==> u == h;
  }

  /** The operation a thread started last. */
  datatype Call = NoCall | Called(op: Op)

  ghost function LastCall(steps: seq<Step>, t: nat): Call {
    if steps == [] then NoCall
    else
      var a := steps[|steps| - 1];
      if a.t == t && a.op != Go then Called(a.op) else LastCall(steps[..|steps| - 1], t)
  }

  /** The thread is in no operation: what it called has come back. */
  predicate Returned(pc: Pc) {
    pc.Idle? || pc.Reading? || pc.Writing?
  }

  /** A wrLock has come back, with no wrUnlock or downgrade called since. */
  ghost predicate HasWrite(s: State, steps: seq<Step>, t: nat) {
    t < |s.pcs| && Returned(s.pcs[t]) && LastCall(steps, t) == Called(WrLock)
  }

  /** A rdLock or a downgrade has come back, with no rdUnlock called since. */
  ghost predicate HasRead(s: State, steps: seq<Step>, t: nat) {
    t < |s.pcs| && Returned(s.pcs[t]) && LastCall(steps, t) in {Called(RdLock), Called(Downgrade)}
  }

  predicate CallOk(call: Call, pc: Pc) {
    match call
    case NoCall => pc.Idle?
    case Called(op) =>
      match op
      case RdLock => pc.RdWaitRb? || pc.RdAdd? || pc.RdWaitWq? || pc.RdDone? || pc.Reading?
      case RdUnlock => pc.RdOpen? || pc.Idle?
      case WrLock => pc.WrWaitRb? || pc.WrWaitWq? || pc.WrDone? || pc.Writing?
      case WrUnlock => pc.Idle?
      case Downgrade => pc.DgUnlock? || pc.Reading?
      case Go => false
  }

  lemma {:induction false} RunSnoc(s0: State, s: State, steps: seq<Step>) returns (m: State)
    requires Reachable(s0, s, steps) && steps != []
    ensures var n := |steps| - 1;
      |m.pcs| == |s0.pcs| && Reachable(s0, m, steps[..n]) && Enabled(m, steps[n]) && s == Next(m, steps[n])
    decreases |steps|
  {
    var n := |steps| - 1;
    if n == 0 {
      m := s0;
    } else {
      m := RunSnoc(Next(s0, steps[0]), s, steps[1..]);
      assert steps[1..][..n - 1] == steps[..n][1..];
    }
  }

  lemma {:induction false} RunCalls(s0: State, s: State, steps: seq<Step>, t: nat)
    requires Init(s0) && Reachable(s0, s, steps) && t < |s0.pcs|
    ensures |s.pcs| == |s0.pcs| && CallOk(LastCall(steps, t), s.pcs[t])
    decreases |steps|
  {
    if steps != [] {
      var n := |steps| - 1;
      var m := RunSnoc(s0, s, steps);
      RunCalls(s0, m, steps[..n], t);
    }
  }

  /** An operation that has come back has done what it was called for. */
  lemma CallsMean(s0: State, s: State, steps: seq<Step>, t: nat)
    requires Init(s0) && Reachable(s0, s, steps) && t < |s.pcs|
    ensures s.pcs[t].Writing? <==> HasWrite(s, steps, t)
    ensures s.pcs[t].Reading? <==> HasRead(s, steps, t)
  {
    SameSize(s0, s, steps);
    RunCalls(s0, s, steps, t);
  }

  lemma {:induction false} SameSize(s0: State, s: State, steps: seq<Step>)
    requires Reachable(s0, s, steps)
    ensures |s.pcs| == |s0.pcs|
    decreases |steps|
  {
    if steps != [] { SameSize(Next(s0, steps[0]), s, steps[1..]); }
  }

  /** Never a writer together with a reader or another writer, by the calls they
      made: a wrLock that has come back keeps out every other thread's. */
  lemma Exclusion(s0: State, s: State, steps: seq<Step>, t: nat, u: nat)
    requires Init(s0) && Reachable(s0, s, steps) && t != u && HasWrite(s, steps, t)
    ensures !HasWrite(s, steps, u) && !HasRead(s, steps, u)
  {
    if u < |s.pcs| {
      CallsMean(s0, s, steps, t);
      CallsMean(s0, s, steps, u);
      WriterAlone(s0, s, steps, t, u);
    }
  }

  lemma Cons(s0: State, a: Step, s: State, rest: seq<Step>)
    requires Enabled(s0, a) && Reachable(Next(s0, a), s, rest)
    ensures Reachable(s0, s, [a] + rest)
  {
    assert ([a] + rest)[1..] == rest;
  }

  function Goes(t: nat, n: nat): seq<Step> {
    if n == 0 then [] else [Step(t, Go)] + Goes(t, n - 1)
  }

  /** Readers share: with a reader in and rb free, another rdLock comes back by
      three steps of its own. */
  lemma ReadersShare(s0: State, s: State, steps: seq<Step>, t: nat, u: nat)
    requires Init(s0) && Reachable(s0, s, steps)
    requires t < |s.pcs| && u < |s.pcs| && s.pcs[t].Reading? && s.pcs[u].Idle? && s.rb == -1
    ensures Reachable(s, s.(readers := s.readers + 1, pcs := s.pcs[u := Reading]), [Step(u, RdLock)] + Goes(u, 3))
  {
    InitInv(s0);
    var h := RunKeeps(s0, -1, s, steps);
    ActiveCount(s.pcs);
    var s1 := Next(s, Step(u, RdLock));
    var s2 := Next(s1, Step(u, Go));
    var s3 := Next(s2, Step(u, Go));
    var s4 := Next(s3, Step(u, Go));
    assert s4 == s.(readers := s.readers + 1, pcs := s.pcs[u := Reading]);
    Cons(s3, Step(u, Go), s4, Goes(u, 0));
    Cons(s2, Step(u, Go), s4, Goes(u, 1));
    Cons(s1, Step(u, Go), s4, Goes(u, 2));
    Cons(s, Step(u, RdLock), s4, Goes(u, 3));
  }

  /** With the mutex free, a wrLock comes back by three steps of its own, and a
      rdLock by four. */
  lemma FreeMutexTaken(s0: State, s: State, steps: seq<Step>, u: nat)
    requires Init(s0) && Reachable(s0, s, steps)
    requires u < |s.pcs| && s.pcs[u].Idle? && s.rb == -1 && !s.wq
    ensures Reachable(s, s.(wq := true, pcs := s.pcs[u := Writing]), [Step(u, WrLock)] + Goes(u, 3))
    ensures Reachable(s, s.(wq := true, readers := 1, pcs := s.pcs[u := Reading]), [Step(u, RdLock)] + Goes(u, 4))
  {
    InitInv(s0);
    var h := RunKeeps(s0, -1, s, steps);
    FreeMutexWritten(s, u);
    var s1 := Next(s, Step(u, RdLock));
    var s2 := Next(s1, Step(u, Go));
    var s3 := Next(s2, Step(u, Go));
    var s4 := Next(s3, Step(u, Go));
    var s5 := Next(s4, Step(u, Go));
    assert s5 == s.(wq := true, readers := 1, pcs := s.pcs[u := Reading]);
    Cons(s4, Step(u, Go), s5, Goes(u, 0));
    Cons(s3, Step(u, Go), s5, Goes(u, 1));
    Cons(s2, Step(u, Go), s5, Goes(u, 2));
    Cons(s1, Step(u, Go), s5, Goes(u, 3));
    Cons(s, Step(u, RdLock), s5, Goes(u, 4));
  }

  lemma FreeMutexWritten(s: State, u: nat)
    requires u < |s.pcs| && s.pcs[u].Idle? && s.rb == -1 && !s.wq
    ensures Reachable(s, s.(wq := true, pcs := s.pcs[u := Writing]), [Step(u, WrLock)] + Goes(u, 3))
  {
    var s1 := Next(s, Step(u, WrLock));
    var s2 := Next(s1, Step(u, Go));
    var s3 := Next(s2, Step(u, Go));
    var s4 := Next(s3, Step(u, Go));
    assert s4 == s.(wq := true, pcs := s.pcs[u := Writing]);
    Cons(s3, Step(u, Go), s4, Goes(u, 0));
    Cons(s2, Step(u, Go), s4, Goes(u, 1));
    Cons(s1, Step(u, Go), s4, Goes(u, 2));
    Cons(s, Step(u, WrLock), s4, Goes(u, 3));
  }

  /** And what has been locked can be given back, or a writer become a reader: by one
      step, or two if wq must be unlocked as well. */
  lemma ReleasesComplete(s0: State, s: State, steps: seq<Step>, t: nat)
    requires Init(s0) && Reachable(s0, s, steps) && t < |s.pcs|
    ensures s.pcs[t].Writing? ==> Reachable(s, s.(wq := false, pcs := s.pcs[t := Idle]), [Step(t, WrUnlock)])
    ensures s.pcs[t].Writing? ==>
      && 0 <= s.readers <= 1
      && Reachable(s, s.(wq := s.readers == 0, readers := s.readers + 1, pcs := s.pcs[t := Reading]),
                   [Step(t, Downgrade)] + Goes(t, s.readers))
    ensures s.pcs[t].Reading? ==>
      && s.readers >= 1
      && Reachable(s, s.(wq := s.wq && s.readers > 1, readers := s.readers - 1, pcs := s.pcs[t := Idle]),
                   [Step(t, RdUnlock)] + Goes(t, if s.readers == 1 then 1 else 0))
  {
    if s.pcs[t].Writing? {
      DowngradeSeesOne(s0, s, steps, t);
      assert [Step(t, WrUnlock)] + [] == [Step(t, WrUnlock)];
      Cons(s, Step(t, WrUnlock), Next(s, Step(t, WrUnlock)), []);
      DowngradeReturns(s0, s, steps, t);
    } else if s.pcs[t].Reading? {
      UnlockCounts(s0, s, steps, t);
      var s1 := Next(s, Step(t, RdUnlock));
      if s.readers == 1 {
        var s2 := Next(s1, Step(t, Go));
        assert s2 == s.(wq := false, readers := 0, pcs := s.pcs[t := Idle]);
        Cons(s1, Step(t, Go), s2, Goes(t, 0));
        Cons(s, Step(t, RdUnlock), s2, Goes(t, 1));
      } else {
        Cons(s, Step(t, RdUnlock), s1, Goes(t, 0));
      }
    }
  }

  lemma DowngradeReturns(s0: State, s: State, steps: seq<Step>, t: nat)
    requires Init(s0) && Reachable(s0, s, steps) && t < |s.pcs| && s.pcs[t].Writing? && 0 <= s.readers <= 1
    ensures Reachable(s, s.(wq := s.readers == 0, readers := s.readers + 1, pcs := s.pcs[t := Reading]),
                      [Step(t, Downgrade)] + Goes(t, s.readers))
  {
    InitInv(s0);
    var h := RunKeeps(s0, -1, s, steps);
    assert HoldsWq(s.pcs[t]) <==> t == h;
    var s1 := Next(s, Step(t, Downgrade));
    if s.readers == 0 {
      assert s1 == s.(wq := true, readers := 1, pcs := s.pcs[t := Reading]);
      Cons(s, Step(t, Downgrade), s1, Goes(t, 0));
    } else {
      var s2 := Next(s1, Step(t, Go));
      assert s2 == s.(wq := false, readers := 2, pcs := s.pcs[t := Reading]);
      Cons(s1, Step(t, Go), s2, Goes(t, 0));
      Cons(s, Step(t, Downgrade), s2, Goes(t, 1));
    }
  }

  /** Readers do not overtake a writer that waits for them to leave: while it does,
      nobody starts to read but a thread that was writing and downgrades. */
  lemma WriterNotOvertaken(s0: State, s: State, steps: seq<Step>, w: nat, a: Step, u: nat)
    requires Init(s0) && Reachable(s0, s, steps) && Enabled(s, a)
    requires w < |s.pcs| && u < |s.pcs| && s.pcs[w].WrWaitWq?
    requires !s.pcs[u].Reading? && Next(s, a).pcs[u].Reading?
    ensures a == Step(u, Downgrade)
  {
    InitInv(s0);
    var h := RunKeeps(s0, -1, s, steps);
    assert InRb(s.pcs[w]) <==> w == s.rb;
    assert InRb(s.pcs[u]) <==> u == s.rb;
    assert HoldsWq(s.pcs[u]) <==> u == h;
  }

  /** A downgrade finds at most one counted reader, and only a reader that is
      still waiting for wq. */
  lemma DowngradeSeesOne(s0: State, s: State, steps: seq<Step>, t: nat)
    requires Init(s0) && Reachable(s0, s, steps) && Enabled(s, Step(t, Downgrade))
    ensures 0 <= s.readers <= 1
    ensures s.readers == 1 <==> exists u :: 0 <= u < |s.pcs| && s.pcs[u].RdWaitWq?
  {
    InitInv(s0);
    var h := RunKeeps(s0, -1, s, steps);
    assert HoldsWq(s.pcs[t]) <==> t == h;
    forall u | 0 <= u < |s.pcs| && s.pcs[u].RdWaitWq? ensures u == s.rb { assert InRb(s.pcs[u]); }
  }

  /** Thread t does not start an rdUnlock. */
  ghost predicate KeepsReading(steps: seq<Step>, t: nat) {
    forall i | 0 <= i < |steps| :: steps[i] != Step(t, RdUnlock)
  }

  lemma {:induction false} StaysReader(s0: State, s: State, steps: seq<Step>, t: nat)
    requires Reachable(s0, s, steps) && KeepsReading(steps, t)
    requires t < |s0.pcs| && (s0.pcs[t].DgUnlock? || s0.pcs[t].Reading?)
    ensures t < |s.pcs| && (s.pcs[t].DgUnlock? || s.pcs[t].Reading?)
    decreases |steps|
  {
    if steps != [] {
      assert steps[0] != Step(t, RdUnlock);
      forall i | 0 <= i < |steps[1..]| ensures steps[1..][i] != Step(t, RdUnlock) { assert steps[1..][i] == steps[i + 1]; }
      StaysReader(Next(s0, steps[0]), s, steps[1..], t);
    }
  }

  /** Between a downgrade and the thread's rdUnlock no writer gets in. */
  lemma DowngradeIsAtomic(s0: State, s1: State, before: seq<Step>, s2: State, after: seq<Step>, t: nat)
    requires Init(s0) && Reachable(s0, s1, before) && Enabled(s1, Step(t, Downgrade))
    requires Reachable(Next(s1, Step(t, Downgrade)), s2, after) && KeepsReading(after, t)
    ensures forall u | 0 <= u < |s2.pcs| :: !s2.pcs[u].Writing? && !s2.pcs[u].WrDone?
  {
    InitInv(s0);
    var h := RunKeeps(s0, -1, s1, before);
    StepKeeps(s1, h, Step(t, Downgrade));
    var s1' := Next(s1, Step(t, Downgrade));
    var h2 := RunKeeps(s1', Holder(s1, h, Step(t, Downgrade)), s2, after);
    StaysReader(s1', s2, after, t);
    ActiveCount(s2.pcs);
    assert HoldsWq(s2.pcs[t]) <==> t == h2;
    forall u | 0 <= u < |s2.pcs| ensures !s2.pcs[u].Writing? && !s2.pcs[u].WrDone? {
      assert HoldsWq(s2.pcs[u]) <==> u == h2;
    }
  }

  /** The count never goes below zero, and the last reader to leave finds 1. */
  lemma UnlockCounts(s0: State, s: State, steps: seq<Step>, t: nat)
    requires Init(s0) && Reachable(s0, s, steps) && Enabled(s, Step(t, RdUnlock))
    ensures s.readers >= 1
    ensures s.readers == 1 ==> s.wq && forall u | 0 <= u < |s.pcs| && u != t :: !Active(s.pcs[u]) && !s.pcs[u].RdWaitWq?
  {
    InitInv(s0);
    var h := RunKeeps(s0, -1, s, steps);
    ActiveCount(s.pcs);
    ActiveUpdate(s.pcs, t, Idle);
    ActiveCount(s.pcs[t := Idle]);
    if s.readers == 1 {
      forall u | 0 <= u < |s.pcs| && u != t ensures !Active(s.pcs[u]) && !s.pcs[u].RdWaitWq? {
        assert s.pcs[t := Idle][u] == s.pcs[u];
        assert InRb(s.pcs[u]) <==> u == s.rb;
      }
    }
  }

  /** Nothing is stuck unless some thread is inside its critical section. */
  lemma NoDeadlock(s0: State, s: State, steps: seq<Step>, t: nat) returns (a: Step)
    requires Init(s0) && Reachable(s0, s, steps)
    requires t < |s.pcs| && !s.pcs[t].Idle?
    requires forall u | 0 <= u < |s.pcs| :: !s.pcs[u].Reading? && !s.pcs[u].Writing?
    ensures Enabled(s, a) && a.op == Go
  {
    InitInv(s0);
    var h := RunKeeps(s0, -1, s, steps);
    ActiveCount(s.pcs);
    a := Step(t, Go);
    if !Enabled(s, a) {
      a := Step(if s.rb >= 0 && !s.pcs[s.rb].RdWaitWq? && !s.pcs[s.rb].WrWaitWq? then s.rb else if h >= 0 then h else s.rb, Go);
      assert s.rb >= 0 ==> InRb(s.pcs[s.rb]);
      assert h >= 0 ==> HoldsWq(s.pcs[h]);
    }
  }
}
