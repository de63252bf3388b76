/** Work that has begun comes to an end: every step but the start of an access or
    an eviction uses up some of a measure of the hierarchy. */
module CoherenceProgress {
  import opened Mesi
  import opened Coherence
  import opened CoherenceInv
  import opened CoherenceRuns
  import opened CoherenceTheorems

  /** What the access that owns a cache at depth d has ahead of it; served says
      that the parent is at work on its request. A request that is not may cost a
      whole access at each of the d caches above. */
  function Rank(a: Act, d: nat, served: bool): nat {
    var above := if served then 0 else 16 * d;
    match a
    case Idle => 0
    case EvictUp(_, _) => 1 + above
    case Evict => 2 + 16 * d
    case Sweep(_) => 6
    case Dir(_) => 12
    case Up(_, _, _) => 13 + above
    case Serve(_) => 14 + 16 * d
    case Alloc(_) => 15 + 16 * d
  }

  /** With the invalidations that the directory and the lock still admit. */
  ghost function NodeWork(n: Node, d: nat, served: bool): nat {
    Rank(n.act, d, served) + 2 * |n.dir.sharers| + (if n.dir.IsExclusive() then 2 else 0) + (if n.down == Open then 1 else 0)
  }

  ghost predicate Served(s: Sys, x: Path) {
    x != [] && Parent(x) in s.nodes && Serving(s.nodes[Parent(x)].act, Last(x))
  }

  ghost function WorkAt(s: Sys, x: Path): nat {
    if x in s.nodes then NodeWork(s.nodes[x], |x|, Served(s, x)) else 0
  }

  ghost function Pick(xs: set<Path>): (x: Path)
    requires xs != {}
    ensures x in xs
  {
    var x :| x in xs; x
  }

  ghost function Sum(s: Sys, xs: set<Path>): nat {
    if xs == {} then 0 else WorkAt(s, Pick(xs)) + Sum(s, xs - {Pick(xs)})
  }

  ghost function Work(s: Sys): nat {
    Sum(s, s.nodes.Keys)
  }

  lemma {:induction false} SumSplit(s: Sys, xs: set<Path>, x: Path)
    requires x in xs
    ensures Sum(s, xs) == WorkAt(s, x) + Sum(s, xs - {x})
  {
    var z := Pick(xs);
    if z != x {
      SumSplit(s, xs - {z}, x);
      SumSplit(s, xs - {x}, z);
      assert xs - {z} - {x} == xs - {x} - {z};
    }
  }

  lemma {:induction false} SumSame(s: Sys, t: Sys, xs: set<Path>)
    requires forall x | x in xs :: WorkAt(s, x) == WorkAt(t, x)
    ensures Sum(s, xs) == Sum(t, xs)
  {
    if xs != {} { SumSame(s, t, xs - {Pick(xs)}); }
  }

  /** The same child, if any, is being served. */
  ghost predicate SameServing(a: Act, b: Act) {
    forall c: nat :: Serving(a, c) <==> Serving(b, c)
  }

  ghost predicate OthersServed(a: Act, b: Act, c: nat) {
    forall d: nat | d != c :: Serving(a, d) <==> Serving(b, d)
  }

  ghost predicate Less1(n: Node, n': Node, d: nat, served: bool) {
    SameServing(n.act, n'.act) && NodeWork(n', d, served) < NodeWork(n, d, served)
  }

  lemma LocalWork(s: Sys, x: Path, n: Node, t: Sys)
    requires x in s.nodes && t.nodes == s.nodes[x := n] && Less1(s.nodes[x], n, |x|, Served(s, x))
    ensures Work(t) < Work(s)
  {
    assert t.nodes.Keys == s.nodes.Keys;
    forall z | z in s.nodes.Keys - {x} ensures WorkAt(t, z) == WorkAt(s, z) {
      assert z != x;
    }
    if x != [] { ParentDiffers(x); }
    SumSplit(s, s.nodes.Keys, x);
    SumSplit(t, s.nodes.Keys, x);
    SumSame(s, t, s.nodes.Keys - {x});
  }

  lemma EdgeFrame(s: Sys, y: Path, p: Node, n: Node, z: Path)
    requires y in s.nodes && y != [] && Parent(y) in s.nodes && z in s.nodes && z != y && z != Parent(y)
    requires SameServing(s.nodes[y].act, n.act) && OthersServed(s.nodes[Parent(y)].act, p.act, Last(y))
    ensures WorkAt(Set2(s, y, (p, n)), z) == WorkAt(s, z)
  {
    if z != [] && Parent(z) == Parent(y) && Last(z) == Last(y) { SameParent(z, y); }
  }

  /** What a step on an edge does to the work of its two caches; the parent is at
      depth d. */
  ghost predicate Less(p: Node, c: nat, n: Node, p': Node, n': Node, d: nat, served: bool) {
    && SameServing(n.act, n'.act) && OthersServed(p.act, p'.act, c)
    && NodeWork(p', d, served) + NodeWork(n', d + 1, Serving(p'.act, c))
       < NodeWork(p, d, served) + NodeWork(n, d + 1, Serving(p.act, c))
  }

  lemma EdgeWork(s: Sys, y: Path, p: Node, n: Node)
    requires y in s.nodes && y != [] && Parent(y) in s.nodes
    requires Less(s.nodes[Parent(y)], Last(y), s.nodes[y], p, n, |y| - 1, Served(s, Parent(y)))
    ensures Work(Set2(s, y, (p, n))) < Work(s)
  {
    var x, t, xs := Parent(y), Set2(s, y, (p, n)), s.nodes.Keys;
    ParentDiffers(y);
    if x != [] { ParentDiffers(x); }
    assert t.nodes.Keys == xs;
    forall z | z in xs - {y} - {x} ensures WorkAt(t, z) == WorkAt(s, z) { EdgeFrame(s, y, p, n, z); }
    SumSplit(s, xs, y);
    SumSplit(t, xs, y);
    SumSplit(s, xs - {y}, x);
    SumSplit(t, xs - {y}, x);
    SumSame(s, t, xs - {y} - {x});
  }

  // ------------------------------------------------------- steps, one by one

  lemma InsertLess(n: Node, stale: bool, junk: int, d: nat, served: bool)
    requires NodeOk(n) && n.act.Alloc? && n.down == Open
    ensures Less1(n, n.(resident := true, st := I, ver := junk, act := Serve(n.act.r), dir := n.dir.(exclusive := stale)), d, served)
  {
  }

  lemma BccLess(n: Node, d: nat, served: bool)
    requires NodeOk(n) && n.act.Serve?
    ensures Less1(n, BccNode(n), d, served)
  {
  }

  lemma EvictDoneLess(n: Node, d: nat, served: bool)
    requires NodeOk(n) && n.act == Evict
    ensures Less1(n, EvictDoneNode(n), d, served)
  {
  }

  /** The steps of a cache on its own. */
  lemma OwnStepWorks(s: Sys, e: Step)
    requires Inv(s) && Enabled(s, e) && Asserts(s, e)
    requires e.Insert? || e.BccAccess? || e.CoreDone? || e.EvictDone?
    ensures Work(Apply(s, e)) < Work(s)
  {
    var n, n', d, served := s.nodes[e.x], Apply(s, e).nodes[e.x], |e.x|, Served(s, e.x);
    assert NodeOk(n);
    assert Less1(n, n', d, served) by {
      match e
      case Insert(x, stale, junk) => InsertLess(n, stale, junk, d, served);
      case BccAccess(x) => BccLess(n, d, served);
      case CoreDone(x) =>
      case EvictDone(x) => EvictDoneLess(n, d, served);
    }
    assert Apply(s, e).nodes == s.nodes[e.x := n'];
    LocalWork(s, e.x, n', Apply(s, e));
  }

  lemma MemoryWorks(s: Sys, noexcl: bool)
    requires Inv(s) && Enabled(s, MemAccess(noexcl))
    ensures Work(Apply(s, MemAccess(noexcl))) < Work(s)
  {
    LocalWork(s, [], MemNode(s.nodes[[]], s.mem, noexcl), Apply(s, MemAccess(noexcl)));
  }

  /** A request on its way has paid for the access it starts above. */
  lemma ArriveWorks(s: Sys, y: Path)
    requires Inv(s) && Enabled(s, Arrive(y)) && Asserts(s, Arrive(y))
    ensures Work(Apply(s, Arrive(y))) < Work(s)
  {
    var n, p, c := s.nodes[y], s.nodes[Parent(y)], Last(y);
    match CheckRace(n.act.ty, n.st, n.act.initial) {
      case Proceed(ty) =>
        var r := Req(Child(c), ty);
        var p' := p.(act := if p.resident then Serve(r) else Alloc(r));
        ParentDiffers(y);
        EdgeWork(s, y, p', n);
        ParentOnly(s, y, p');
      case Skip =>
        LocalWork(s, y, Gone(n), Apply(s, Arrive(y)));
    }
  }

  /** A new sharer is paid for by the access that adds it. */
  lemma AddedOne(cs: set<nat>, c: nat)
    ensures |cs + {c}| <= |cs| + 1
  {
    if c in cs { assert cs + {c} == cs; }
  }

  lemma DroppedOne(cs: set<nat>, c: nat)
    ensures |cs - {c}| == |cs| - if c in cs then 1 else 0
  {
    if c !in cs { assert cs - {c} == cs; }
  }

  lemma PutLess(p: Node, c: nat, n: Node, d: nat, served: bool)
    requires NodeOk(p) && p.act.Dir? && Serving(p.act, c) && n.act.EvictUp?
    ensures Less(p, c, n, PutNodes(p, c, n).0, PutNodes(p, c, n).1, d, served)
  {
    DroppedOne(p.dir.sharers, c);
  }

  /** The parent's end of a grant. */
  lemma AddLess(p: Node, p': Node, c: nat, d: nat, served: bool)
    requires (p.act.Dir? || p.act.Sweep?) && Serving(p.act, c) && p'.act == Idle && p'.down == p.down
    requires p'.dir.sharers == p.dir.sharers + {c}
    ensures OthersServed(p.act, p'.act, c) && NodeWork(p', d, served) < NodeWork(p, d, served)
  {
    AddedOne(p.dir.sharers, c);
  }

  /** The child's. */
  lemma GrantedLess(n: Node, st: State, ver: int, d: nat)
    requires n.act.Up?
    ensures SameServing(n.act, Granted(n, st, ver).act) && NodeWork(Granted(n, st, ver), d, false) < NodeWork(n, d, true)
  {
  }

  lemma GetSLess(p: Node, c: nat, n: Node, noexcl: bool, d: nat, served: bool)
    requires p.act.Dir? && Serving(p.act, c) && n.act.Up?
    ensures Less(p, c, n, GetSNodes(p, c, n, noexcl).0, GetSNodes(p, c, n, noexcl).1, d, served)
  {
    var (p', n') := GetSNodes(p, c, n, noexcl);
    if p'.act == Idle {
      assert p'.dir.sharers == p.dir.sharers + {c};
      AddLess(p, p', c, d, served);
      GrantedLess(n, n'.st, n'.ver, d + 1);
    }
  }

  lemma GetXLess(p: Node, c: nat, n: Node, d: nat, served: bool)
    requires NodeOk(p) && p.act.Dir? && Serving(p.act, c) && n.act.Up?
    ensures Less(p, c, n, GetXNode(p, c), n, d, served)
  {
    DroppedOne(p.dir.sharers, c);
  }

  lemma SweepDoneLess(p: Node, c: nat, n: Node, d: nat, served: bool)
    requires p.act.Sweep? && Serving(p.act, c) && n.act.Up?
    ensures Less(p, c, n, SweepDoneNodes(p, c, n).0, SweepDoneNodes(p, c, n).1, d, served)
  {
    var (p', n') := SweepDoneNodes(p, c, n);
    AddLess(p, p', c, d, served);
    GrantedLess(n, n'.st, n'.ver, d + 1);
  }

  lemma PutWorks(s: Sys, y: Path)
    requires Inv(s) && Enabled(s, Put(y)) && Asserts(s, Put(y))
    ensures Work(Apply(s, Put(y))) < Work(s)
  {
    var n, p, c := s.nodes[y], s.nodes[Parent(y)], Last(y);
    assert NodeOk(p);
    PutLess(p, c, n, |y| - 1, Served(s, Parent(y)));
    EdgeWork(s, y, PutNodes(p, c, n).0, PutNodes(p, c, n).1);
  }

  lemma GetSWorks(s: Sys, y: Path, noexcl: bool)
    requires Inv(s) && Enabled(s, GetS(y, noexcl)) && Asserts(s, GetS(y, noexcl))
    ensures Work(Apply(s, GetS(y, noexcl))) < Work(s)
  {
    var n, p, c := s.nodes[y], s.nodes[Parent(y)], Last(y);
    GetSLess(p, c, n, noexcl, |y| - 1, Served(s, Parent(y)));
    EdgeWork(s, y, GetSNodes(p, c, n, noexcl).0, GetSNodes(p, c, n, noexcl).1);
  }

  lemma GetXWorks(s: Sys, y: Path)
    requires Inv(s) && Enabled(s, GetX(y)) && Asserts(s, GetX(y))
    ensures Work(Apply(s, GetX(y))) < Work(s)
  {
    var n, p, c := s.nodes[y], s.nodes[Parent(y)], Last(y);
    assert NodeOk(p);
    GetXLess(p, c, n, |y| - 1, Served(s, Parent(y)));
    EdgeWork(s, y, GetXNode(p, c), n);
    ParentOnly(s, y, GetXNode(p, c));
  }

  lemma SweepDoneWorks(s: Sys, y: Path)
    requires Inv(s) && Enabled(s, SweepDone(y)) && Asserts(s, SweepDone(y))
    ensures Work(Apply(s, SweepDone(y))) < Work(s)
  {
    var n, p, c := s.nodes[y], s.nodes[Parent(y)], Last(y);
    SweepDoneLess(p, c, n, |y| - 1, Served(s, Parent(y)));
    EdgeWork(s, y, SweepDoneNodes(p, c, n).0, SweepDoneNodes(p, c, n).1);
  }

  /** An invalidation uses up the lock, then a sharer or the exclusive child. */
  lemma InvalWorks(s: Sys, e: Step)
    requires Inv(s) && Enabled(s, e) && Asserts(s, e) && (e.InvStart? || e.InvDone?)
    ensures Work(Apply(s, e)) < Work(s)
  {
    var n, p, c := s.nodes[e.y], s.nodes[Parent(e.y)], Last(e.y);
    DroppedOne(p.dir.sharers, c);
    assert EdgeOk(p, c, n);
    match e
    case InvStart(y) => LocalWork(s, y, Apply(s, e).nodes[y], Apply(s, e));
    case InvDone(y) =>
      ParentDiffers(y);
      EdgeWork(s, y, InvDoneNodes(p, c, n).0, InvDoneNodes(p, c, n).1);
  }

  lemma StepWorks(s: Sys, e: Step)
    requires Inv(s) && Enabled(s, e) && Asserts(s, e) && Finishing(e)
    ensures Work(Apply(s, e)) < Work(s)
  {
    if e.Insert? || e.BccAccess? || e.CoreDone? || e.EvictDone? { OwnStepWorks(s, e); }
    else if e.MemAccess? { MemoryWorks(s, e.noexcl); }
    else if e.Arrive? { ArriveWorks(s, e.y); }
    else if e.Put? { PutWorks(s, e.y); }
    else if e.GetS? { GetSWorks(s, e.y, e.noexcl); }
    else if e.GetX? { GetXWorks(s, e.y); }
    else if e.SweepDone? { SweepDoneWorks(s, e.y); }
    else { InvalWorks(s, e); }
  }

  // ------------------------------------------------------------------ runs

  /** However the steps are chosen, no more of them than the work there is can be
      taken before a new access or eviction begins. */
  lemma {:induction false} FinishingEnds(s: Sys, es: seq<Step>)
    requires Inv(s) && Linked(s) && Exec(s, es).Running? && forall e | e in es :: Finishing(e)
    ensures Inv(Exec(s, es).s) && Linked(Exec(s, es).s)
    ensures Work(Exec(s, es).s) + |es| <= Work(s)
    decreases |es|
  {
    if es != [] {
      var rest, e := es[..|es| - 1], es[|es| - 1];
      FinishingEnds(s, rest);
      StepKeeps(Exec(s, rest).s, e);
      LinkedStep(Exec(s, rest).s, e);
      StepWorks(Exec(s, rest).s, e);
    }
  }

  /** And a run of them that cannot be continued has finished every access and
      invalidation; there is always such a run. */
  lemma {:induction false} AllFinish(s: Sys) returns (es: seq<Step>)
    requires Inv(s) && Linked(s)
    ensures (forall e | e in es :: Finishing(e)) && Exec(s, es).Running? && !Busy(Exec(s, es).s)
    decreases Work(s)
  {
    if Busy(s) {
      var e := NoDeadlock(s);
      StepKeeps(s, e);
      LinkedStep(s, e);
      StepWorks(s, e);
      var rest := AllFinish(Apply(s, e));
      es := [e] + rest;
      ExecCons(s, e, rest);
    } else {
      es := [];
    }
  }

  lemma {:induction false} ExecCons(s: Sys, e: Step, es: seq<Step>)
    requires Enabled(s, e) && Asserts(s, e)
    ensures Exec(s, [e] + es) == Exec(Apply(s, e), es)
    decreases |es|
  {
    var all, k := [e] + es, |es|;
    assert all[..k] == if k == 0 then [] else [e] + es[..k - 1];
    if k == 0 {
      assert Exec(s, []) == Running(s) && Exec(s, all) == Next(Running(s), e);
    } else {
      ExecCons(s, e, es[..k - 1]);
    }
  }

  // ------------------------------------------------- what an access comes to

  /** Cache x is at work on its core's request. */
  ghost predicate Working(s: Sys, x: Path, ty: Access) {
    x in s.nodes &&
      var a := s.nodes[x].act;
      (a.Alloc? || a.Serve? || a.Up? || a.Dir? || a.Sweep?) && a.r == Req(Core, ty)
  }

  lemma WorkingOwn(s: Sys, e: Step, x: Path, ty: Access)
    requires Enabled(s, e) && Asserts(s, e) && Finishing(e) && Working(s, x, ty) && e != CoreDone(x) && !OnEdge(e)
    ensures Working(Apply(s, e), x, ty)
  {
  }

  lemma WorkingEdge(s: Sys, e: Step, x: Path, ty: Access)
    requires Enabled(s, e) && Asserts(s, e) && Working(s, x, ty) && OnEdge(e)
    ensures Working(Apply(s, e), x, ty)
  {
    ParentDiffers(e.y);
  }

  /** Only its own completion ends it. */
  lemma WorkingStep(s: Sys, e: Step, x: Path, ty: Access)
    requires Enabled(s, e) && Asserts(s, e) && Finishing(e) && Working(s, x, ty) && e != CoreDone(x)
    ensures Working(Apply(s, e), x, ty)
  {
    if OnEdge(e) { WorkingEdge(s, e, x, ty); } else { WorkingOwn(s, e, x, ty); }
  }

  /** Cache x is getting rid of its line. */
  ghost predicate Evicting(s: Sys, x: Path) {
    x in s.nodes && (s.nodes[x].act == Evict || s.nodes[x].act.EvictUp?)
  }

  /** Only with the line gone. */
  lemma EvictingStep(s: Sys, e: Step, x: Path)
    requires Enabled(s, e) && Asserts(s, e) && Finishing(e) && Evicting(s, x)
    ensures Evicting(Apply(s, e), x) || (!Apply(s, e).nodes[x].resident && Apply(s, e).nodes[x].st == I)
  {
    if OnEdge(e) { ParentDiffers(e.y); }
  }

  /** The core's access is over: the core can read its copy, which holds the last
      value stored, or has just stored a new one. */
  ghost predicate Completed(s: Sys, t: Sys, x: Path, ty: Access)
    requires x in t.nodes
  {
    var n := t.nodes[x];
    && t.latest == s.latest + (if ty == GETX then 1 else 0)
    && n.act == Idle && n.ver == t.latest && n.st != I && (ty == GETX ==> n.st == M)
  }

  lemma DoneCompletes(s: Sys, x: Path, ty: Access)
    requires Inv(s) && Working(s, x, ty) && Enabled(s, CoreDone(x)) && Asserts(s, CoreDone(x))
    ensures Completed(s, Apply(s, CoreDone(x)), x, ty)
  {
    assert NodeOk(s.nodes[x]) && Fresh(s.nodes[x], s.latest);
  }

  /** A run that finishes an access contains its completion. */
  lemma {:induction false} RunCompletes(s: Sys, es: seq<Step>, x: Path, ty: Access) returns (k: nat)
    requires Exec(s, es).Running? && forall e | e in es :: Finishing(e)
    requires Working(s, x, ty) && !Working(Exec(s, es).s, x, ty)
    ensures k < |es| && es[k] == CoreDone(x) && Exec(s, es[..k]).Running? && Working(Exec(s, es[..k]).s, x, ty)
    ensures Enabled(Exec(s, es[..k]).s, es[k]) && Asserts(Exec(s, es[..k]).s, es[k])
    decreases |es|
  {
    var n := |es| - 1;
    var m := Exec(s, es[..n]).s;
    if Working(m, x, ty) {
      k := n;
      if es[n] != CoreDone(x) { WorkingStep(m, es[n], x, ty); }
    } else {
      k := RunCompletes(s, es[..n], x, ty);
      assert es[..n][..k] == es[..k];
    }
  }

  lemma CompletesAt(s: Sys, es: seq<Step>, x: Path, ty: Access, k: nat)
    requires Inv(s) && Linked(s) && k < |es| && es[k] == CoreDone(x) && forall e | e in es :: Finishing(e)
    requires Exec(s, es[..k]).Running? && Working(Exec(s, es[..k]).s, x, ty)
    requires Enabled(Exec(s, es[..k]).s, es[k]) && Asserts(Exec(s, es[..k]).s, es[k])
    ensures Exec(s, es[..k + 1]) == Running(Apply(Exec(s, es[..k]).s, es[k]))
    ensures Completed(Exec(s, es[..k]).s, Exec(s, es[..k + 1]).s, x, ty)
  {
    FinishingEnds(s, es[..k]);
    assert es[..k + 1][..k] == es[..k];
    DoneCompletes(Exec(s, es[..k]).s, x, ty);
  }

  lemma {:induction false} RunEvicts(s: Sys, es: seq<Step>, x: Path) returns (k: nat)
    requires Exec(s, es).Running? && forall e | e in es :: Finishing(e)
    requires Evicting(s, x) && !Evicting(Exec(s, es).s, x)
    ensures k <= |es| && Exec(s, es[..k]).Running?
    ensures var t := Exec(s, es[..k]).s; x in t.nodes && !t.nodes[x].resident && t.nodes[x].st == I
    decreases |es|
  {
    var n := |es| - 1;
    var m := Exec(s, es[..n]).s;
    if Evicting(m, x) {
      k := n + 1;
      assert es[..n + 1] == es;
      EvictingStep(m, es[n], x);
    } else {
      k := RunEvicts(s, es[..n], x);
      assert es[..n][..k] == es[..k];
    }
  }

  /** A core may begin an access whenever its cache is at rest, and the access then
      comes to its end in some run, as it does in every run that leaves no work. */
  lemma AccessCompletes(s: Sys, x: Path, ty: Access) returns (es: seq<Step>, k: nat)
    requires Inv(s) && Linked(s) && x in s.nodes && s.nodes[x].terminal && (ty == GETS || ty == GETX)
    requires s.nodes[x].act == Idle && s.nodes[x].down == Open
    ensures Enabled(s, CoreStart(x, ty)) && Asserts(s, CoreStart(x, ty))
    ensures k < |es| && Exec(Apply(s, CoreStart(x, ty)), es[..k]).Running? && Exec(Apply(s, CoreStart(x, ty)), es[..k + 1]).Running?
    ensures var t, u := Exec(Apply(s, CoreStart(x, ty)), es[..k]).s, Exec(Apply(s, CoreStart(x, ty)), es[..k + 1]).s;
      x in u.nodes && Completed(t, u, x, ty)
  {
    StepKeeps(s, CoreStart(x, ty));
    LinkedStep(s, CoreStart(x, ty));
    var s1 := Apply(s, CoreStart(x, ty));
    es := AllFinish(s1);
    k := RunCompletes(s1, es, x, ty);
    CompletesAt(s1, es, x, ty, k);
  }

  /** And a cache at rest may evict its line, down to an empty slot. */
  lemma EvictionCompletes(s: Sys, x: Path) returns (es: seq<Step>)
    requires Inv(s) && Linked(s) && x in s.nodes && s.nodes[x].resident
    requires s.nodes[x].act == Idle && s.nodes[x].down == Open
    ensures Enabled(s, EvictStart(x)) && Asserts(s, EvictStart(x)) && Exec(Apply(s, EvictStart(x)), es).Running?
    ensures var t := Exec(Apply(s, EvictStart(x)), es).s; x in t.nodes && !t.nodes[x].resident && t.nodes[x].st == I
  {
    StepKeeps(s, EvictStart(x));
    LinkedStep(s, EvictStart(x));
    var s1 := Apply(s, EvictStart(x));
    var all := AllFinish(s1);
    var k := RunEvicts(s1, all, x);
    es := all[..k];
  }
}
