/** What the protocol promises in every state that any run can reach. */
module CoherenceTheorems {
  import opened Mesi
  import opened Coherence
  import opened CoherenceInv
  import opened CoherenceRuns

  // ----------------------------------------------------------------- races

  /** The requests a controller issues for a line in state st. */
  predicate Issuable(ty: Access, st: State) {
    match ty
    case GETS => st == I
    case GETX => st == I || st == S
    case PUTS => st == S || st == E
    case PUTX => st == M
  }

  /** A run of invalidations that the child may suffer before its request is
      served; each is legal for the state it finds. */
  ghost predicate Invalidated(st: State, st': State, ts: seq<Inval>)
    decreases ts
  {
    if ts == [] then st == st'
    else match ts[0]
      case INV => st != I && Invalidated(I, st', ts[1..])
      case INVX => Exclusive(st) && Invalidated(S, st', ts[1..])
      case FWD => st == S && Invalidated(S, st', ts[1..])
  }

  lemma {:induction false} InvalidatedIsDowngrade(st: State, st': State, ts: seq<Inval>)
    requires Invalidated(st, st', ts)
    ensures st' == st || st' == I || (st' == S && Exclusive(st))
    decreases ts
  {
    if ts != [] {
      InvalidatedIsDowngrade(
        match ts[0] case INV => I case INVX => S case FWD => S, st', ts[1..]);
    }
  }

  /** Race resolution is complete: whatever invalidations intervene, the check
      never panics, a put of a lost line is dropped, and any other request goes
      ahead as one the child could issue in the state it now has. */
  lemma RaceResolved(ty: Access, st: State, st': State, ts: seq<Inval>)
    requires Issuable(ty, st) && Invalidated(st, st', ts)
    ensures match CheckRace(ty, st', st)
      case Panicked => false
      case Skip => IsPut(ty) && st' == I
      case Proceed(ty') =>
        Issuable(ty', st') && (IsPut(ty') <==> IsPut(ty)) && (!IsPut(ty) ==> ty' == ty)
  {
    InvalidatedIsDowngrade(st, st', ts);
  }

  // ------------------------------------------------- links stay in the tree

  /** Directories and requests name only children that exist. */
  ghost predicate Linked(s: Sys) {
    forall x, c: nat {:trigger Names(s.nodes[x], c)} | x in s.nodes && Names(s.nodes[x], c) :: x + [c] in s.nodes
  }

  ghost predicate Names(n: Node, c: nat) {
    c in n.dir.sharers || Serving(n.act, c)
  }

  lemma LocalStepLinks(s: Sys, e: Step, x: Path, c: nat)
    requires Enabled(s, e) && Asserts(s, e) && x in s.nodes
    requires e.CoreStart? || e.Insert? || e.BccAccess? || e.CoreDone? || e.EvictStart? || e.EvictDone? || e.MemAccess?
    requires Names(Apply(s, e).nodes[x], c)
    ensures Names(s.nodes[x], c)
  {
  }

  lemma EdgeStepLinks(s: Sys, e: Step, x: Path, c: nat)
    requires Enabled(s, e) && Asserts(s, e) && x in s.nodes
    requires e.Put? || e.GetS? || e.GetX? || e.SweepDone? || e.InvStart? || e.InvDone?
    requires Names(Apply(s, e).nodes[x], c)
    ensures Names(s.nodes[x], c)
  {
  }

  lemma LinkedStep(s: Sys, e: Step)
    requires Linked(s) && Enabled(s, e) && Asserts(s, e)
    ensures Linked(Apply(s, e)) && Apply(s, e).nodes.Keys == s.nodes.Keys
  {
    var t := Apply(s, e);
    assert t.nodes.Keys == s.nodes.Keys;
    forall x, c: nat | x in t.nodes && Names(t.nodes[x], c) ensures x + [c] in t.nodes {
      if e.Arrive? {
        ParentDiffers(e.y);
        if x != Parent(e.y) || c != Last(e.y) { assert Names(s.nodes[x], c); }
      } else if e.Put? || e.GetS? || e.GetX? || e.SweepDone? || e.InvStart? || e.InvDone? {
        EdgeStepLinks(s, e, x, c);
      } else {
        LocalStepLinks(s, e, x, c);
      }
    }
  }

  // ----------------------------------------------------------- no deadlock

  function Deeper(s: Sys, x: Path): set<Path> {
    set y | y in s.nodes && |y| > |x|
  }

  lemma ChildIsDeeper(s: Sys, x: Path, c: nat)
    requires x + [c] in s.nodes
    ensures Parent(x + [c]) == x && Last(x + [c]) == c
    ensures Deeper(s, x + [c]) < Deeper(s, x)
  {
    assert x + [c] in Deeper(s, x) && x + [c] !in Deeper(s, x + [c]);
  }

  /** Steps that finish work already begun. */
  predicate Finishing(e: Step) {
    !e.CoreStart? && !e.EvictStart?
  }

  /** A cache whose bottom lock is held can move, or someone below it can. */
  lemma {:induction false} HeldMoves(s: Sys, x: Path) returns (e: Step)
    requires Inv(s) && Linked(s) && x in s.nodes
    requires s.nodes[x].down.Held? || Locked(s.nodes[x].act)
    ensures Enabled(s, e) && Finishing(e)
    decreases Deeper(s, x)
  {
    var n := s.nodes[x];
    assert NodeOk(n);
    if Sending(n).Held? && !SweptOut(n, Sending(n).t) {
      assert n.dir.sharers != {} by { if |n.dir.sharers| == 0 { Empty(n.dir.sharers); } }
      var c :| c in n.dir.sharers;
      assert Names(n, c);
      ChildIsDeeper(s, x, c);
      var y := x + [c];
      if s.nodes[y].down.Held? || Locked(s.nodes[y].act) {
        e := HeldMoves(s, y);
      } else {
        e := InvStart(y);
      }
    } else if n.down.Held? {
      e := InvDone(x);
      assert x != [];
    } else {
      e := OwnMove(s, x);
    }
  }

  /** The next move of an access that holds both locks and waits for nobody. */
  lemma OwnMove(s: Sys, x: Path) returns (e: Step)
    requires Inv(s) && Linked(s) && x in s.nodes
    requires Locked(s.nodes[x].act)
    requires Sending(s.nodes[x]).Held? ==> SweptOut(s.nodes[x], Sending(s.nodes[x]).t)
    ensures Enabled(s, e) && Finishing(e)
  {
    var n := s.nodes[x];
    assert NodeOk(n);
    match n.act
    case Serve(r) => e := BccAccess(x);
    case Evict => e := EvictDone(x);
    case Dir(r) =>
      match r.who {
        case Core => e := CoreDone(x);
        case Child(c) =>
          assert Names(n, c);
          ChildIsDeeper(s, x, c);
          e := if IsPut(r.ty) then Put(x + [c]) else if r.ty == GETS then GetS(x + [c], false) else GetX(x + [c]);
      }
    case Sweep(r) =>
      assert Names(n, r.who.c);
      ChildIsDeeper(s, x, r.who.c);
      e := SweepDone(x + [r.who.c]);
  }

  /** A request on its way up moves, or the access above it does. */
  lemma {:induction false} WaiterMoves(s: Sys, x: Path) returns (e: Step)
    requires Inv(s) && Linked(s) && x in s.nodes && s.nodes[x].act != Idle
    ensures Enabled(s, e) && Finishing(e)
    decreases |x|
  {
    var n := s.nodes[x];
    if n.down.Held? || Locked(n.act) {
      e := HeldMoves(s, x);
    } else if n.act.Alloc? {
      e := Insert(x, false, 0);
    } else if x == [] {
      e := MemAccess(false);
    } else {
      var p := s.nodes[Parent(x)];
      if p.down.Held? {
        e := HeldMoves(s, Parent(x));
      } else if p.act == Idle {
        e := Arrive(x);
      } else {
        e := WaiterMoves(s, Parent(x));
      }
    }
  }

  ghost predicate Busy(s: Sys) {
    exists x :: x in s.nodes && (s.nodes[x].act != Idle || s.nodes[x].down.Held?)
  }

  /** Unless every cache is at rest, some access or invalidation can go on. */
  lemma NoDeadlock(s: Sys) returns (e: Step)
    requires Inv(s) && Linked(s) && Busy(s)
    ensures Enabled(s, e) && Finishing(e)
  {
    var x :| x in s.nodes && (s.nodes[x].act != Idle || s.nodes[x].down.Held?);
    if s.nodes[x].down.Held? { e := HeldMoves(s, x); } else { e := WaiterMoves(s, x); }
  }

  // -------------------------------------------------- data and directories

  /** Every valid copy a core can read holds the last value any core stored. */
  ghost predicate CoresSeeLastStore(s: Sys) {
    forall x | x in s.nodes && s.nodes[x].terminal && s.nodes[x].st != I ::
      s.nodes[x].ver == s.latest
  }

  /** The last stored value is in memory, or in a copy that is marked dirty or
      whose writeback has already been reported. */
  ghost predicate LastStoreKept(s: Sys) {
    s.mem == s.latest
    || exists x :: x in s.nodes && s.nodes[x].ver == s.latest && (s.nodes[x].st == M || s.nodes[x].wb)
  }

  /** From a valid copy, follow the exclusive chain down to an up-to-date one. */
  lemma {:induction false} UpToDateBelow(s: Sys, x: Path) returns (y: Path)
    requires Inv(s) && Linked(s) && x in s.nodes && s.nodes[x].st != I
    ensures y in s.nodes && s.nodes[y].st != I && s.nodes[y].ver == s.latest
    decreases Deeper(s, x)
  {
    var n := s.nodes[x];
    assert NodeOk(n) && Fresh(n, s.latest);
    if n.dir.IsExclusive() && n.dir.sharers != {} {
      var c :| c in n.dir.sharers;
      assert Names(n, c);
      ChildIsDeeper(s, x, c);
      assert EdgeOk(s.nodes[Parent(x + [c])], c, s.nodes[x + [c]]);
      y := UpToDateBelow(s, x + [c]);
    } else {
      y := x;
    }
  }

  /** A clean up-to-date copy has an up-to-date parent, up to memory. */
  lemma {:induction false} UpToDateAbove(s: Sys, y: Path)
    requires Inv(s) && y in s.nodes && s.nodes[y].st != I && s.nodes[y].ver == s.latest
    ensures LastStoreKept(s)
    decreases |y|
  {
    if Clean(s.nodes[y]) && y != [] {
      assert EdgeOk(s.nodes[Parent(y)], Last(y), s.nodes[y]);
      AncestorsHoldLine(s, y, |y| - 1);
      UpToDateAbove(s, Parent(y));
    }
  }

  lemma DirtyDataKept(s: Sys)
    requires Inv(s) && Linked(s)
    ensures LastStoreKept(s)
  {
    if s.nodes[[]].st != I {
      var y := UpToDateBelow(s, []);
      UpToDateAbove(s, y);
    }
  }

  /** What a directory says about a cache that is not in the middle of anything. */
  ghost predicate DirectoryExact(s: Sys, x: Path)
    requires x in s.nodes
  {
    var n := s.nodes[x];
    && n.dir.numSharers == |n.dir.sharers|
    && (forall c: nat :: c in n.dir.sharers <==> x + [c] in s.nodes && s.nodes[x + [c]].st != I)
    && (n.dir.IsExclusive() <==>
          exists c: nat :: n.dir.sharers == {c} && x + [c] in s.nodes && Exclusive(s.nodes[x + [c]].st))
    && (n.dir.IsExclusive() ==> Exclusive(n.st))
  }

  lemma DirectoryExactAtRest(s: Sys, x: Path)
    requires Inv(s) && Linked(s) && x in s.nodes
    requires !Locked(s.nodes[x].act) && s.nodes[x].down == Open
    ensures DirectoryExact(s, x)
  {
    var n := s.nodes[x];
    assert NodeOk(n);
    forall c: nat ensures c in n.dir.sharers <==> x + [c] in s.nodes && s.nodes[x + [c]].st != I {
      assert Names(n, c) || c !in n.dir.sharers;
      if x + [c] in s.nodes {
        ChildIsDeeper(s, x, c);
        assert EdgeOk(n, c, s.nodes[x + [c]]);
      }
    }
    if n.dir.IsExclusive() {
      assert n.dir.sharers != {};
      var c :| c in n.dir.sharers;
      forall d | d in n.dir.sharers ensures d == c { Sole(n.dir.sharers, c, d); }
      assert n.dir.sharers == {c};
      assert Names(n, c);
      ChildIsDeeper(s, x, c);
      assert EdgeOk(n, c, s.nodes[x + [c]]);
    }
    forall c: nat | n.dir.sharers == {c} && x + [c] in s.nodes && Exclusive(s.nodes[x + [c]].st)
      ensures n.dir.IsExclusive()
    {
      ChildIsDeeper(s, x, c);
      assert EdgeOk(n, c, s.nodes[x + [c]]);
    }
  }

  predicate OnEdge(e: Step) {
    e.Arrive? || e.Put? || e.GetS? || e.GetX? || e.SweepDone? || e.InvStart? || e.InvDone?
  }

  ghost predicate GetsDirty(n: Node, n': Node) {
    n.st != M && !n.wb && (n'.st == M || n'.wb)
  }

  predicate MayGetDirty(s: Sys, e: Step, x: Path)
    requires Enabled(s, e) && x in s.nodes
  {
    || (e == BccAccess(x) && (s.nodes[x].act.r.ty == GETX || s.nodes[x].act.r.ty == PUTX))
    || (e.MemAccess? && x == [] && s.nodes[x].act.Up? && s.nodes[x].act.ty == GETX)
    || (e.SweepDone? && e.y == x && s.nodes[Parent(x)].act.r.ty == GETX)
    || (e.InvDone? && Parent(e.y) == x && (s.nodes[e.y].wb || s.nodes[e.y].st == M))
  }

  lemma DirtyOwn(s: Sys, e: Step, x: Path)
    requires Enabled(s, e) && Asserts(s, e) && x in s.nodes && !OnEdge(e)
    requires GetsDirty(s.nodes[x], Apply(s, e).nodes[x])
    ensures MayGetDirty(s, e, x)
  {
  }

  lemma DirtyEdge(s: Sys, e: Step, x: Path)
    requires Enabled(s, e) && Asserts(s, e) && x in s.nodes && OnEdge(e) && NodeOk(s.nodes[Parent(e.y)])
    requires GetsDirty(s.nodes[x], Apply(s, e).nodes[x])
    ensures MayGetDirty(s, e, x)
  {
    ParentDiffers(e.y);
  }

  /** A line, or the writeback flag of its sweep, says dirty only for a reason: the
      cache was granted or given the right to write, or took a child's dirty data. */
  lemma DirtyCause(s: Sys, e: Step, x: Path)
    requires Inv(s) && Enabled(s, e) && Asserts(s, e) && x in s.nodes
    requires GetsDirty(s.nodes[x], Apply(s, e).nodes[x])
    ensures MayGetDirty(s, e, x)
  {
    if OnEdge(e) { DirtyEdge(s, e, x); } else { DirtyOwn(s, e, x); }
  }

  ghost predicate Loses(n: Node, n': Node) {
    n.st != I && (n'.st == I || (Exclusive(n.st) && n'.st == S))
  }

  predicate MayLose(s: Sys, e: Step, x: Path)
    requires Enabled(s, e) && Asserts(s, e) && x in s.nodes
  {
    || (e.InvDone? && e.y == x && (Apply(s, e).nodes[x].st == I <==> s.nodes[x].down.t == INV))
    || (((e.Put? && e.y == x) || (e.MemAccess? && x == [])) && s.nodes[x].act.EvictUp?)
  }

  lemma LossOwn(s: Sys, e: Step, x: Path)
    requires Enabled(s, e) && Asserts(s, e) && x in s.nodes && !OnEdge(e) && NodeOk(s.nodes[x])
    requires Loses(s.nodes[x], Apply(s, e).nodes[x])
    ensures MayLose(s, e, x)
  {
  }

  lemma LossEdge(s: Sys, e: Step, x: Path)
    requires Enabled(s, e) && Asserts(s, e) && x in s.nodes && OnEdge(e) && NodeOk(s.nodes[x])
    requires Loses(s.nodes[x], Apply(s, e).nodes[x])
    ensures MayLose(s, e, x)
  {
    ParentDiffers(e.y);
  }

  /** And a valid copy is lost, or an exclusive one shared, only by an invalidation
      or downgrade from above or at the end of the cache's own eviction. */
  lemma LossCause(s: Sys, e: Step, x: Path)
    requires Inv(s) && Enabled(s, e) && Asserts(s, e) && x in s.nodes
    requires Loses(s.nodes[x], Apply(s, e).nodes[x])
    ensures MayLose(s, e, x)
  {
    if OnEdge(e) { LossEdge(s, e, x); } else { LossOwn(s, e, x); }
  }

  /** Memory answers a get with the last value stored, a GETX with M, and a GETS with
      a copy that a store may follow without asking again exactly when NOEXCL is
      not set; after a put it holds the last value itself. */
  lemma MemoryAnswer(s: Sys, noexcl: bool, who: Who)
    requires Inv(s) && Enabled(s, MemAccess(noexcl))
    ensures var n, s' := s.nodes[[]], Apply(s, MemAccess(noexcl));
      var n' := s'.nodes[[]];
      && (n.act.Up? ==>
            && n'.st != I && n'.ver == s.latest && s'.mem == s.mem && (n.act.ty == GETX ==> n'.st == M)
            && (n.act.ty == GETS ==> n'.st != M && (BccNode(n'.(act := Serve(Req(who, GETX)))).act.Up? <==> noexcl)))
      && (n.act.EvictUp? ==> n'.st == I && !n'.resident && s'.mem == s.latest)
  {
    assert NodeOk(s.nodes[[]]);
  }

  /** A get is answered with E exactly when the parent owns the line and no
      sibling holds it, and is held up for a downgrade exactly when a sibling
      owns it; otherwise it gets S. */
  lemma GetSAnswer(s: Sys, y: Path, noexcl: bool)
    requires Inv(s) && Linked(s) && Enabled(s, GetS(y, noexcl)) && Asserts(s, GetS(y, noexcl))
    ensures var p, n' := s.nodes[Parent(y)], Apply(s, GetS(y, noexcl)).nodes[y];
      && (n'.st == E <==> Exclusive(p.st) && !noexcl && NoneBelow(s, Parent(y)))
      && (n'.st == I <==> exists c: nat :: Parent(y) + [c] in s.nodes && Exclusive(s.nodes[Parent(y) + [c]].st))
      && n'.st != M
  {
    var p, c := s.nodes[Parent(y)], Last(y);
    DirectoryCounts(s, Parent(y));
    GetSFits(p, c, s.nodes[y], noexcl, s.latest);
    ParentDiffers(y);
  }

  ghost predicate NoneBelow(s: Sys, x: Path) {
    forall c: nat :: x + [c] in s.nodes ==> s.nodes[x + [c]].st == I
  }

  lemma DirectoryCounts(s: Sys, x: Path)
    requires Inv(s) && Linked(s) && x in s.nodes && s.nodes[x].act.Dir?
    ensures s.nodes[x].dir.IsEmpty() <==> NoneBelow(s, x)
    ensures s.nodes[x].dir.IsExclusive() <==>
      exists c: nat :: x + [c] in s.nodes && Exclusive(s.nodes[x + [c]].st)
  {
    var n := s.nodes[x];
    assert NodeOk(n);
    forall c: nat | x + [c] in s.nodes ensures EdgeOk(n, c, s.nodes[x + [c]]) {
      ChildIsDeeper(s, x, c);
      assert EdgeOk(s.nodes[Parent(x + [c])], Last(x + [c]), s.nodes[x + [c]]);
    }
    forall c | c in n.dir.sharers ensures x + [c] in s.nodes { assert Names(n, c); }
    if n.dir.sharers == {} {
      assert n.dir.IsEmpty();
    } else {
      var c :| c in n.dir.sharers;
      assert s.nodes[x + [c]].st != I && n.dir.numSharers == |n.dir.sharers| >= 1;
    }
  }

  /** When a store permission is granted, no other child still holds the line. */
  lemma GetXAnswer(s: Sys, y: Path, z: Path)
    requires Inv(s) && Enabled(s, SweepDone(y)) && Asserts(s, SweepDone(y))
    requires s.nodes[Parent(y)].act.r.ty == GETX
    requires z in s.nodes && z != [] && z != y && Parent(z) == Parent(y)
    ensures Apply(s, SweepDone(y)).nodes[y].st == M && Apply(s, SweepDone(y)).nodes[z].st == I
  {
    if Last(z) == Last(y) { SameParent(z, y); }
    ParentDiffers(y);
    ParentDiffers(z);
    assert EdgeOk(s.nodes[Parent(z)], Last(z), s.nodes[z]);
  }

  // ------------------------------------------------------------------ runs

  /** A hierarchy with every cache empty. */
  ghost predicate Init(s: Sys) {
    && Tree(s) && s.mem == s.latest
    && forall x | x in s.nodes ::
         s.nodes[x] == Node(s.nodes[x].terminal, false, I, Entry({}, 0, false), 0, Idle, Open, 0, false)
  }

  datatype Outcome = Running(s: Sys) | NotARun | Aborted

  /** Take one more step; Aborted means that it failed an assertion of the source. */
  ghost function Next(o: Outcome, e: Step): Outcome {
    if !o.Running? then o
    else if !Enabled(o.s, e) then NotARun
    else if !Asserts(o.s, e) then Aborted
    else Running(Apply(o.s, e))
  }

  /** Carry out a sequence of steps. */
  ghost function Exec(s: Sys, es: seq<Step>): Outcome {
    if es == [] then Running(s) else Next(Exec(s, es[..|es| - 1]), es[|es| - 1])
  }

  /** In every reachable state of every hierarchy: no assertion has failed, there
      is a single writer or many readers, cores read the last store, the last
      store is not lost, directories are exact, and somebody can go on. */
  lemma {:induction false} EveryRunIsCoherent(s: Sys, es: seq<Step>)
    requires Init(s)
    ensures !Exec(s, es).Aborted?
    ensures Exec(s, es).Running? ==>
      var t := Exec(s, es).s;
      && Inv(t) && Linked(t) && t.nodes.Keys == s.nodes.Keys
      && SingleWriter(t) && CoresSeeLastStore(t) && LastStoreKept(t)
      && (forall x | x in t.nodes && !Locked(t.nodes[x].act) && t.nodes[x].down == Open :: DirectoryExact(t, x))
      && (Busy(t) ==> exists e :: Enabled(t, e) && Finishing(e))
    decreases es
  {
    if es != [] {
      var o := Exec(s, es[..|es| - 1]);
      var e := es[|es| - 1];
      EveryRunIsCoherent(s, es[..|es| - 1]);
      if o.Running? && Enabled(o.s, e) {
        StepKeeps(o.s, e);
        LinkedStep(o.s, e);
      }
    }
    if Exec(s, es).Running? { InvariantGuarantees(Exec(s, es).s); }
  }

  lemma InvariantGuarantees(t: Sys)
    requires Inv(t) && Linked(t)
    ensures SingleWriter(t) && CoresSeeLastStore(t) && LastStoreKept(t)
    ensures forall x | x in t.nodes && !Locked(t.nodes[x].act) && t.nodes[x].down == Open :: DirectoryExact(t, x)
    ensures Busy(t) ==> exists e :: Enabled(t, e) && Finishing(e)
  {
    InvImpliesSingleWriter(t);
    DirtyDataKept(t);
    forall x | x in t.nodes && !Locked(t.nodes[x].act) && t.nodes[x].down == Open
      ensures DirectoryExact(t, x)
    {
      DirectoryExactAtRest(t, x);
    }
    forall x | x in t.nodes && t.nodes[x].terminal && t.nodes[x].st != I
      ensures t.nodes[x].ver == t.latest
    {
      assert NodeOk(t.nodes[x]) && Fresh(t.nodes[x], t.latest);
    }
    if Busy(t) { var e := NoDeadlock(t); }
  }
}
