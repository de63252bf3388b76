/** The coherence locks cannot deadlock. Any number of threads run accesses,
    evictions and invalidations over a tree of caches; a thread's state is the
    path it has climbed and the chain of invalidations it has sent down, which
    together determine the locks it holds and the one it waits for. */
module LockOrder {

  type Path = seq<nat>

  /** A cache's top lock, its bottom lock, and a terminal cache's filter lock. */
  datatype Lock = Tcc(x: Path) | Bcc(x: Path) | Filter(x: Path)

  datatype MaybeLock = Nothing | Just(l: Lock)

  /** Where an invalidation stands at the cache it has reached. */
  datatype Stage = WantBcc | HasBcc | WantFilter | HasFilter

  /** Where an access stands at the cache it has climbed to. */
  datatype Pc =
    | TccWait                       // child lock dropped, top lock wanted
    | BccWait                       // top lock held, bottom lock wanted
    | Inside                        // both held
    | Relock                        // endAccess: the child's lock wanted again
    | Inval(z: Path, stage: Stage)  // both held, an invalidation is at z

  datatype Thread =
    | Outside
    | FilterWait(leaf: Path)
    | FilterHeld(leaf: Path)
    | At(leaf: Path, x: Path, pc: Pc)
    | Leaving(leaf: Path)

  ghost predicate Valid(t: Thread) {
    t.At? ==>
      && t.x <= t.leaf
      && (t.pc == TccWait ==> t.x != t.leaf)
      && (t.pc.Inval? ==> t.x < t.pc.z)
  }

  /** Top locks of the non-terminal caches on the way from the leaf, down to depth k. */
  function Tccs(leaf: Path, k: nat): set<Lock> {
    set j: nat | k <= j < |leaf| :: Tcc(leaf[..j])
  }

  function Bccs(z: Path, i: nat, j: nat): set<Lock>
    requires j <= |z| + 1
  {
    set k: nat | i <= k < j :: Bcc(z[..k])
  }

  function Holds(t: Thread): set<Lock> {
    match t
    case Outside | FilterWait(_) => {}
    case FilterHeld(leaf) => {Filter(leaf)}
    case Leaving(leaf) => {Filter(leaf)}
    case At(leaf, x, pc) =>
      match pc
      case TccWait => Tccs(leaf, |x| + 1)
      case BccWait => Tccs(leaf, |x|)
      case Inside | Relock => Tccs(leaf, |x|) + {Bcc(x)}
      case Inval(z, stage) =>
        Tccs(leaf, |x|)
        + Bccs(z, |x|, if stage == WantBcc then |z| else |z| + 1)
        + if stage == HasFilter then {Filter(z)} else {}
  }

  function Wants(t: Thread): MaybeLock {
    match t
    case FilterWait(leaf) => Just(Filter(leaf))
    case At(leaf, x, TccWait) => Just(Tcc(x))
    case At(leaf, x, BccWait) => Just(Bcc(x))
    case At(leaf, x, Relock) =>
      if |x| < |leaf| then Just(Bcc(leaf[..|x| + 1])) else Just(Filter(leaf))
    case At(leaf, x, Inval(z, WantBcc)) => Just(Bcc(z))
    case At(leaf, x, Inval(z, WantFilter)) => Just(Filter(z))
    case _ => Nothing
  }

  /** Top locks rise towards the root, then bottom locks towards the leaves, and
      a cache's filter lock lies above its bottom lock. */
  function Rank(l: Lock): int {
    match l
    case Tcc(x) => -1 - |x|
    case Bcc(x) => |x|
    case Filter(x) => |x| + 1
  }

  // ------------------------------------------------------------------ steps

  /** The state after the wanted lock is granted. */
  function Acquired(t: Thread): Thread
    requires Wants(t).Just?
  {
    match t
    case FilterWait(leaf) => FilterHeld(leaf)
    case At(leaf, x, TccWait) => At(leaf, x, BccWait)
    case At(leaf, x, BccWait) => At(leaf, x, Inside)
    case At(leaf, x, Relock) =>
      // hand over hand: own locks are dropped once the child's is held
      if |x| < |leaf| then At(leaf, leaf[..|x| + 1], Inside) else Leaving(leaf)
    case At(leaf, x, Inval(z, WantBcc)) => At(leaf, x, Inval(z, HasBcc))
    case At(leaf, x, Inval(z, WantFilter)) => At(leaf, x, Inval(z, HasFilter))
  }

  /** An invalidation has returned from z to the cache above it. */
  function Returned(leaf: Path, x: Path, z: Path): Thread
    requires x < z
  {
    if |z| == |x| + 1 then At(leaf, x, Inside) else At(leaf, x, Inval(z[..|z| - 1], HasBcc))
  }

  /** Moves of a thread that wait for no lock; several may be possible. */
  ghost predicate Moves(t: Thread, u: Thread) {
    match t
    case Outside => u.FilterWait?                                   // a filter miss
    case FilterHeld(leaf) => u == At(leaf, leaf, BccWait)           // startAccess at the L1
    case Leaving(leaf) => u == Outside
    case At(leaf, x, Inside) =>
      || (x != [] && u == At(leaf, x[..|x| - 1], TccWait))          // miss or eviction: go up
      || (exists c: nat :: u == At(leaf, x, Inval(x + [c], WantBcc)))  // invalidate a child
      || u == At(leaf, x, Relock)                                   // endAccess
    case At(leaf, x, Inval(z, HasBcc)) =>
      || (exists c: nat :: u == At(leaf, x, Inval(z + [c], WantBcc)))
      || u == At(leaf, x, Inval(z, WantFilter))                     // FilterCache::invalidate
      || (x < z && u == Returned(leaf, x, z))
    case At(leaf, x, Inval(z, HasFilter)) => x < z && u == Returned(leaf, x, z)
    case _ => false
  }

  type Sys = map<nat, Thread>

  ghost predicate Free(s: Sys, l: Lock) {
    forall i | i in s :: l !in Holds(s[i])
  }

  /** Thread i takes one step. */
  ghost predicate Next(s: Sys, i: nat, s': Sys) {
    && i in s && s'.Keys == s.Keys
    && (forall j | j in s && j != i :: s'[j] == s[j])
    && if Wants(s[i]).Just? then Free(s, Wants(s[i]).l) && s'[i] == Acquired(s[i])
       else Moves(s[i], s'[i])
  }

  ghost predicate Init(s: Sys) {
    forall i | i in s :: s[i] == Outside
  }

  /** s is reached from an idle system by n steps of any threads. */
  ghost predicate Reachable(s: Sys, n: nat)
    decreases n
  {
    if n == 0 then Init(s) else exists r, i :: Reachable(r, n - 1) && Next(r, i, s)
  }

  // ----------------------------------------------------------------- proofs

  lemma StepValid(t: Thread, u: Thread)
    requires Valid(t)
    requires if Wants(t).Just? then u == Acquired(t) else Moves(t, u)
    ensures Valid(u)
  {
  }

  /** A thread waits only for a lock ranked above every lock it holds. */
  lemma WaitsUpward(t: Thread, h: Lock)
    requires Valid(t) && Wants(t).Just? && h in Holds(t)
    ensures Rank(h) < Rank(Wants(t).l)
  {
  }

  lemma MoreTccs(leaf: Path, k: nat)
    requires k < |leaf|
    ensures Tccs(leaf, k) == Tccs(leaf, k + 1) + {Tcc(leaf[..k])}
  {
  }

  lemma MoreBccs(z: Path, i: nat, j: nat)
    requires i <= j <= |z|
    ensures Bccs(z, i, j + 1) == Bccs(z, i, j) + {Bcc(z[..j])}
  {
  }

  /** Sending an invalidation from z to a child leaves the chain above it alone. */
  lemma SameChain(z: Path, c: nat, i: nat)
    requires i <= |z|
    ensures Bccs(z + [c], i, |z| + 1) == Bccs(z, i, |z| + 1)
  {
    forall k: nat | k <= |z| ensures (z + [c])[..k] == z[..k] {}
  }

  /** A step adds no lock other than the one that was waited for. */
  lemma StepHolds(t: Thread, u: Thread)
    requires Valid(t)
    requires if Wants(t).Just? then u == Acquired(t) else Moves(t, u)
    ensures Holds(u) <= Holds(t) + (if Wants(t).Just? then {Wants(t).l} else {})
    ensures Wants(t).Just? ==> Wants(t).l in Holds(u)
  {
    if t.At? {
      if |t.x| < |t.leaf| { MoreTccs(t.leaf, |t.x|); }
      match t.pc
      case TccWait | BccWait | Relock => assert t.x == t.leaf[..|t.x|];
      case Inside =>
        if u.At? && u.pc.Inval? {
          assert u.pc.z[..|t.x|] == t.x;
          MoreBccs(u.pc.z, |t.x|, |t.x|);
          assert Bccs(u.pc.z, |t.x|, |t.x|) == {};
        }
      case Inval(z, stage) =>
        assert z[..|z|] == z;
        MoreBccs(z, |t.x|, |z|);
        InvalHolds(t, u);
    }
  }

  lemma InvalHolds(t: Thread, u: Thread)
    requires Valid(t) && t.At? && t.pc.Inval?
    requires if Wants(t).Just? then u == Acquired(t) else Moves(t, u)
    ensures Holds(u) <= Holds(t) + (if Wants(t).Just? then {Wants(t).l} else {})
  {
    var x, z := t.x, t.pc.z;
    MoreBccs(z, |x|, |z|);
    assert z[..|z|] == z;
    if Wants(t) == Nothing && u == Returned(t.leaf, x, z) {
      if |z| == |x| + 1 {
        assert z[..|x|] == x;
        assert Bcc(x) in Holds(t);
      } else {
        SameChain(z[..|z| - 1], z[|z| - 1], |x|);
        assert z[..|z| - 1] + [z[|z| - 1]] == z;
      }
    } else if Wants(t) == Nothing && u.pc.z != z {
      SameChain(z, u.pc.z[|z|], |x|);
    }
  }

  ghost predicate Good(s: Sys) {
    && (forall i | i in s :: Valid(s[i]))
    && (forall i, j | i in s && j in s && i != j :: Holds(s[i]) !! Holds(s[j]))
  }

  lemma NextGood(s: Sys, i: nat, s': Sys)
    requires Good(s) && Next(s, i, s')
    ensures Good(s')
  {
    StepValid(s[i], s'[i]);
    StepHolds(s[i], s'[i]);
  }

  ghost predicate CanStep(s: Sys, i: nat) {
    i in s && (Wants(s[i]).Just? ==> Free(s, Wants(s[i]).l)) && s[i] != Outside
  }

  /** The waiting thread whose wanted lock is ranked highest. */
  lemma {:induction false} TopWaiter(s: Sys, waiting: set<nat>) returns (i: nat)
    requires waiting != {} && forall j | j in waiting :: j in s && Wants(s[j]).Just?
    ensures i in waiting
    ensures forall j | j in waiting :: Rank(Wants(s[j]).l) <= Rank(Wants(s[i]).l)
    decreases waiting
  {
    var j :| j in waiting;
    i := j;
    if waiting - {j} != {} {
      var k := TopWaiter(s, waiting - {j});
      if Rank(Wants(s[j]).l) < Rank(Wants(s[k]).l) { i := k; }
    }
  }

  /** If any thread is inside the hierarchy, one of them can take a step: the
      thread that holds the highest wanted lock waits for nothing. */
  lemma SomeThreadCanStep(s: Sys)
    requires Good(s) && exists i :: i in s && s[i] != Outside
    ensures exists i :: CanStep(s, i)
  {
    var a :| a in s && s[a] != Outside;
    var waiting := set j | j in s && Wants(s[j]).Just?;
    if a !in waiting {
      assert CanStep(s, a);
    } else {
      var i := TopWaiter(s, waiting);
      var l := Wants(s[i]).l;
      if Free(s, l) {
        assert CanStep(s, i);
      } else {
        var u :| u in s && l in Holds(s[u]);
        if u in waiting { WaitsUpward(s[u], l); }
        assert u !in waiting && CanStep(s, u);
      }
    }
  }

  /** Whoever can step has a successor state. */
  lemma CanStepHasNext(s: Sys, i: nat) returns (s': Sys)
    requires Good(s) && CanStep(s, i)
    ensures Next(s, i, s')
  {
    var t := s[i];
    var u: Thread;
    if Wants(t).Just? {
      u := Acquired(t);
    } else {
      match t {
        case FilterHeld(leaf) => u := At(leaf, leaf, BccWait);
        case Leaving(leaf) => u := Outside;
        case At(leaf, x, pc) =>
          u := if pc == Inside then At(leaf, x, Relock) else Returned(leaf, x, pc.z);
      }
    }
    s' := s[i := u];
  }

  lemma {:induction false} ReachableGood(s: Sys, n: nat)
    requires Reachable(s, n)
    ensures Good(s)
    decreases n
  {
    if n > 0 {
      var r, i :| Reachable(r, n - 1) && Next(r, i, s);
      ReachableGood(r, n - 1);
      NextGood(r, i, s);
    }
  }

  /** In every reachable state no lock has two holders, every waiting thread
      waits above what it holds, and unless all threads are outside, one steps. */
  lemma NoDeadlock(s: Sys, n: nat)
    requires Reachable(s, n)
    ensures forall i, j | i in s && j in s && i != j :: Holds(s[i]) !! Holds(s[j])
    ensures forall i, h | i in s && Wants(s[i]).Just? && h in Holds(s[i]) ::
      Rank(h) < Rank(Wants(s[i]).l)
    ensures (exists i :: i in s && s[i] != Outside) ==> exists i, s' :: CanStep(s, i) && Next(s, i, s')
  {
    ReachableGood(s, n);
    forall i, h | i in s && Wants(s[i]).Just? && h in Holds(s[i])
      ensures Rank(h) < Rank(Wants(s[i]).l)
    {
      WaitsUpward(s[i], h);
    }
    if exists i :: i in s && s[i] != Outside {
      SomeThreadCanStep(s);
      var i :| CanStep(s, i);
      var s' := CanStepHasNext(s, i);
    }
  }

  /** t has climbed into or past the non-terminal cache y: it is at work there or waits above it. */
  predicate Climbed(t: Thread, y: Path) {
    t.At? && t.x <= t.leaf && y < t.leaf && (|t.x| < |y| || (t.x == y && t.pc != TccWait))
  }

  /** t may change the state of y's line: its access is there with both locks, or
      its invalidation has got in. */
  predicate AtLine(t: Thread, y: Path) {
    t.At? &&
      match t.pc
      case Inside | Relock => t.x == y
      case Inval(z, stage) => t.x <= y && (y < z || (y == z && stage != WantBcc))
      case _ => false
  }

  lemma ClimbedHolds(t: Thread, y: Path)
    requires Climbed(t, y)
    ensures Tcc(y) in Holds(t)
  {
    assert y == t.leaf[..|y|] && t.x == t.leaf[..|t.x|];
  }

  lemma AtLineHolds(t: Thread, y: Path)
    requires Valid(t) && AtLine(t, y)
    ensures Bcc(y) in Holds(t)
  {
    if t.pc.Inval? { assert y == t.pc.z[..|y|] && t.pc.z == t.pc.z[..|t.pc.z|]; }
  }

  /** What the locks are for: in every reachable state at most one access has
      climbed into a cache, and at most one access or invalidation is at its line. */
  lemma CacheExclusive(s: Sys, n: nat, i: nat, j: nat, y: Path)
    requires Reachable(s, n) && i in s && j in s && i != j
    ensures !(Climbed(s[i], y) && Climbed(s[j], y))
    ensures !(AtLine(s[i], y) && AtLine(s[j], y))
  {
    ReachableGood(s, n);
    if Climbed(s[i], y) && Climbed(s[j], y) { ClimbedHolds(s[i], y); ClimbedHolds(s[j], y); }
    if AtLine(s[i], y) && AtLine(s[j], y) { AtLineHolds(s[i], y); AtLineHolds(s[j], y); }
  }
}
