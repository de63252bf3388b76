/** The protocol's guarantees over whole runs: single writer or many readers
    over the tree, no stale read and no lost write, an exact directory, and no
    assertion of the controllers ever failing. */
module CoherenceRuns {
  import opened Mesi
  import opened Coherence
  import opened CoherenceInv

  // ------------------------------------------------------ paths and ancestry

  lemma PrefixIn(s: Sys, x: Path, k: nat)
    requires Tree(s) && x in s.nodes && k <= |x|
    ensures x[..k] in s.nodes
    decreases |x|
  {
    if k < |x| {
      PrefixIn(s, Parent(x), k);
      assert Parent(x)[..k] == x[..k];
    } else {
      assert x[..k] == x;
    }
  }

  /** Inclusion: every ancestor of a cache that holds the line holds it too. */
  lemma {:induction false} AncestorsHoldLine(s: Sys, x: Path, k: nat)
    requires Inv(s) && x in s.nodes && k <= |x| && s.nodes[x].st != I
    ensures x[..k] in s.nodes && s.nodes[x[..k]].st != I && s.nodes[x[..k]].resident
    decreases |x|
  {
    if k < |x| {
      assert EdgeOk(s.nodes[Parent(x)], Last(x), s.nodes[x]);
      AncestorsHoldLine(s, Parent(x), k);
      assert Parent(x)[..k] == x[..k];
    } else {
      assert x[..k] == x;
    }
  }

  /** Every ancestor of an owner is an owner, and its directory lists only the
      child that leads to the owner. */
  lemma {:induction false} AncestorsOwn(s: Sys, x: Path, k: nat)
    requires Inv(s) && x in s.nodes && k < |x| && Exclusive(s.nodes[x].st)
    ensures x[..k] in s.nodes && Exclusive(s.nodes[x[..k]].st)
    ensures s.nodes[x[..k]].dir.IsExclusive() && s.nodes[x[..k]].dir.sharers == {x[k]}
    decreases |x|
  {
    var p := s.nodes[Parent(x)];
    assert EdgeOk(p, Last(x), s.nodes[x]);
    if k < |x| - 1 {
      AncestorsOwn(s, Parent(x), k);
      assert Parent(x)[..k] == x[..k];
    } else {
      assert x[..k] == Parent(x);
      forall d | d in p.dir.sharers ensures d == Last(x) { Sole(p.dir.sharers, Last(x), d); }
    }
  }

  lemma FirstDifference(x: Path, y: Path) returns (k: nat)
    requires !(x <= y) && !(y <= x)
    ensures k < |x| && k < |y| && x[..k] == y[..k] && x[k] != y[k]
  {
    k := 0;
    while k < |x| && k < |y| && x[k] == y[k]
      invariant k <= |x| && k <= |y| && x[..k] == y[..k]
      invariant (k == |x| ==> x <= y) && (k == |y| ==> y <= x)
    {
      k := k + 1;
    }
  }

  ghost predicate SingleWriter(s: Sys) {
    forall x, y | x in s.nodes && y in s.nodes && Exclusive(s.nodes[x].st) && !(x <= y) && !(y <= x) ::
      s.nodes[y].st == I
  }

  /** Off the path to an owner, at the first cache that differs, nothing is held. */
  lemma ColdSibling(s: Sys, x: Path, y: Path, k: nat)
    requires Inv(s) && x in s.nodes && y in s.nodes && Exclusive(s.nodes[x].st)
    requires k < |x| && k < |y| && x[..k] == y[..k] && x[k] != y[k]
    ensures y[..k + 1] in s.nodes && s.nodes[y[..k + 1]].st == I
  {
    AncestorsOwn(s, x, k);
    PrefixIn(s, y, k + 1);
    var z := y[..k + 1];
    assert Parent(z) == y[..k] && Last(z) == y[k];
    assert EdgeOk(s.nodes[Parent(z)], Last(z), s.nodes[z]);
    assert NodeOk(s.nodes[Parent(z)]);
  }

  lemma InvImpliesSingleWriter(s: Sys)
    requires Inv(s)
    ensures SingleWriter(s)
  {
    forall x, y | x in s.nodes && y in s.nodes && Exclusive(s.nodes[x].st) && !(x <= y) && !(y <= x)
      ensures s.nodes[y].st == I
    {
      var k := FirstDifference(x, y);
      ColdSibling(s, x, y, k);
      if s.nodes[y].st != I { AncestorsHoldLine(s, y, k + 1); }
    }
  }

  // ----------------------------------------------------- every step, any run

  /** A step that changes one cache and relies on nothing around it. */
  lemma LocalKeeps(s: Sys, x: Path, n: Node)
    requires Inv(s) && x in s.nodes && Fits1(s.nodes[x], n, s.latest)
    ensures Inv(Set1(s, x, n))
  {
    AboveLinks(s, x, n);
    Update1(s, x, n, s.mem);
    assert Set1(s, x, n).(mem := s.mem) == Set1(s, x, n);
  }

  /** What is left of a step on an edge once the two caches fit. */
  lemma EdgeKeeps(s: Sys, y: Path, p: Node, n: Node)
    requires Inv(s) && y in s.nodes && y != []
    requires Fits(s.nodes[Parent(y)], Last(y), s.nodes[y], p, n, s.latest)
    ensures Inv(Set2(s, y, (p, n)))
  {
    Update2(s, y, p, n);
  }

  lemma {:induction false} NothingBelowTerminal(s: Sys, x: Path, y: Path)
    requires Tree(s) && x in s.nodes && y in s.nodes && s.nodes[x].terminal && x <= y
    ensures y == x
    decreases |y|
  {
    if |y| > |x| { NothingBelowTerminal(s, x, Parent(y)); }
  }

  lemma StoreFresh(s: Sys, x: Path, y: Path)
    requires Inv(s) && SingleWriter(s) && x in s.nodes && y in s.nodes && y != x
    requires s.nodes[x].st == M && s.nodes[x].terminal
    ensures Fresh(s.nodes[y], s.latest + 1)
  {
    if y <= x {
      AncestorsOwn(s, x, |y|);
      assert x[..|y|] == y;
    } else if x <= y {
      NothingBelowTerminal(s, x, y);
    }
  }

  function Stored(s: Sys, x: Path): Sys
    requires x in s.nodes
  {
    Set1(s, x, s.nodes[x].(ver := s.latest + 1)).(latest := s.latest + 1)
  }

  lemma StoreEdge(s: Sys, x: Path, y: Path)
    requires Inv(s) && x in s.nodes && s.nodes[x].st == M && s.nodes[x].terminal
    requires y in s.nodes && y != []
    ensures EdgeOk(Stored(s, x).nodes[Parent(y)], Last(y), Stored(s, x).nodes[y])
  {
    ParentDiffers(y);
    assert EdgeOk(s.nodes[Parent(y)], Last(y), s.nodes[y]);
    assert Parent(y) != x;
  }

  lemma StoreNode(s: Sys, x: Path, y: Path)
    requires Inv(s) && SingleWriter(s) && x in s.nodes && y in s.nodes
    requires s.nodes[x].st == M && s.nodes[x].terminal
    ensures NodeOk(Stored(s, x).nodes[y]) && Fresh(Stored(s, x).nodes[y], s.latest + 1)
  {
    assert NodeOk(s.nodes[y]);
    if y != x { StoreFresh(s, x, y); }
  }

  lemma StoreTree(s: Sys, x: Path)
    requires Inv(s) && x in s.nodes
    requires s.nodes[x].st == M && s.nodes[x].terminal
    ensures Tree(Stored(s, x)) && TopOk(s.mem, s.latest + 1, Stored(s, x).nodes[[]])
  {
    assert Exclusive(s.nodes[[]].st) by {
      if x != [] { AncestorsOwn(s, x, 0); assert x[..0] == []; }
    }
  }

  lemma StoreNodes(s: Sys, x: Path)
    requires Inv(s) && SingleWriter(s) && x in s.nodes
    requires s.nodes[x].st == M && s.nodes[x].terminal
    ensures NodesOk(Stored(s, x))
  {
    forall y | y in s.nodes
      ensures NodeOk(Stored(s, x).nodes[y]) && Fresh(Stored(s, x).nodes[y], s.latest + 1)
    {
      StoreNode(s, x, y);
    }
  }

  lemma StoreEdges(s: Sys, x: Path)
    requires Inv(s) && x in s.nodes
    requires s.nodes[x].st == M && s.nodes[x].terminal && Tree(Stored(s, x))
    ensures EdgesOk(Stored(s, x))
  {
    forall y | y in s.nodes && y != []
      ensures EdgeOk(Stored(s, x).nodes[Parent(y)], Last(y), Stored(s, x).nodes[y])
    {
      StoreEdge(s, x, y);
    }
  }

  /** Storing a new value in the only up-to-date copy keeps every edge, because
      every other valid copy belongs to an ancestor that knows it is stale. */
  lemma StoreKeeps(s: Sys, x: Path)
    requires Inv(s) && x in s.nodes && s.nodes[x].st == M && s.nodes[x].terminal
    ensures Inv(Stored(s, x))
  {
    InvImpliesSingleWriter(s);
    StoreTree(s, x);
    StoreNodes(s, x);
    StoreEdges(s, x);
  }

  lemma CoreDoneKeeps(s: Sys, x: Path)
    requires Inv(s) && Enabled(s, CoreDone(x))
    ensures Asserts(s, CoreDone(x)) && Inv(Apply(s, CoreDone(x)))
  {
    CoreDoneFits(s.nodes[x], s.latest);
    var s0 := Set1(s, x, s.nodes[x].(act := Idle));
    LocalKeeps(s, x, s.nodes[x].(act := Idle));
    if s.nodes[x].act.r.ty == GETX {
      StoreKeeps(s0, x);
      assert Apply(s, CoreDone(x)) == Stored(s0, x);
    }
  }

  lemma EvictDoneKeeps(s: Sys, x: Path)
    requires Inv(s) && Enabled(s, EvictDone(x))
    ensures Asserts(s, EvictDone(x)) && Inv(Apply(s, EvictDone(x)))
  {
    EvictDoneFits(s.nodes[x], s.latest);
    if x != [] { assert EdgeOk(s.nodes[Parent(x)], Last(x), s.nodes[x]); }
    Update1(s, x, EvictDoneNode(s.nodes[x]), s.mem);
    assert Apply(s, EvictDone(x)) == Set1(s, x, EvictDoneNode(s.nodes[x])).(mem := s.mem);
  }

  lemma MemAccessKeeps(s: Sys, noexcl: bool)
    requires Inv(s) && Enabled(s, MemAccess(noexcl))
    ensures Inv(Apply(s, MemAccess(noexcl)))
  {
    var n := s.nodes[[]];
    MemFits(n, s.mem, s.latest, noexcl);
    Update1(s, [], MemNode(n, s.mem, noexcl), Apply(s, MemAccess(noexcl)).mem);
  }

  lemma ArriveKeeps(s: Sys, y: Path)
    requires Inv(s) && Enabled(s, Arrive(y))
    ensures Asserts(s, Arrive(y)) && Inv(Apply(s, Arrive(y)))
  {
    var n, p, c := s.nodes[y], s.nodes[Parent(y)], Last(y);
    assert Near(p, c, n, s.latest);
    ArriveFits(p, c, n, s.latest);
    match CheckRace(n.act.ty, n.st, n.act.initial) {
      case Skip =>
        Update1(s, y, Gone(n), s.mem);
        assert Apply(s, Arrive(y)) == Set1(s, y, Gone(n)).(mem := s.mem);
      case Proceed(ty) =>
        var r := Req(Child(c), ty);
        var p' := p.(act := if p.resident then Serve(r) else Alloc(r));
        EdgeKeeps(s, y, p', n);
        ParentOnly(s, y, p');
    }
  }

  lemma ParentOnly(s: Sys, y: Path, p: Node)
    requires y in s.nodes && y != [] && Parent(y) in s.nodes
    ensures Set2(s, y, (p, s.nodes[y])) == Set1(s, Parent(y), p)
  {
    ParentDiffers(y);
  }

  lemma PutKeeps(s: Sys, y: Path)
    requires Inv(s) && Enabled(s, Put(y))
    ensures Asserts(s, Put(y)) && Inv(Apply(s, Put(y)))
  {
    var n, p, c := s.nodes[y], s.nodes[Parent(y)], Last(y);
    PutFits(p, c, n, s.latest);
    EdgeKeeps(s, y, PutNodes(p, c, n).0, PutNodes(p, c, n).1);
  }

  lemma GetSKeeps(s: Sys, y: Path, noexcl: bool)
    requires Inv(s) && Enabled(s, GetS(y, noexcl))
    ensures Asserts(s, GetS(y, noexcl)) && Inv(Apply(s, GetS(y, noexcl)))
  {
    var n, p, c := s.nodes[y], s.nodes[Parent(y)], Last(y);
    GetSFits(p, c, n, noexcl, s.latest);
    EdgeKeeps(s, y, GetSNodes(p, c, n, noexcl).0, GetSNodes(p, c, n, noexcl).1);
  }

  lemma GetXKeeps(s: Sys, y: Path)
    requires Inv(s) && Enabled(s, GetX(y))
    ensures Asserts(s, GetX(y)) && Inv(Apply(s, GetX(y)))
  {
    var n, p, c := s.nodes[y], s.nodes[Parent(y)], Last(y);
    GetXFits(p, c, n, s.latest);
    EdgeKeeps(s, y, GetXNode(p, c), n);
    ParentOnly(s, y, GetXNode(p, c));
  }

  lemma SweepDoneKeeps(s: Sys, y: Path)
    requires Inv(s) && Enabled(s, SweepDone(y))
    ensures Asserts(s, SweepDone(y)) && Inv(Apply(s, SweepDone(y)))
  {
    var n, p, c := s.nodes[y], s.nodes[Parent(y)], Last(y);
    SweepDoneFits(p, c, n, s.latest);
    EdgeKeeps(s, y, SweepDoneNodes(p, c, n).0, SweepDoneNodes(p, c, n).1);
  }

  lemma InvStartKeeps(s: Sys, y: Path)
    requires Inv(s) && Enabled(s, InvStart(y))
    ensures Asserts(s, InvStart(y)) && Inv(Apply(s, InvStart(y)))
  {
    var n, p := s.nodes[y], s.nodes[Parent(y)];
    InvStartFits(p, Last(y), n, s.latest);
    var n' := n.(down := Sending(p), sent := 0, wb := false);
    Update1(s, y, n', s.mem);
    assert Apply(s, InvStart(y)) == Set1(s, y, n').(mem := s.mem);
  }

  lemma InvDoneKeeps(s: Sys, y: Path)
    requires Inv(s) && Enabled(s, InvDone(y))
    ensures Asserts(s, InvDone(y)) && Inv(Apply(s, InvDone(y)))
  {
    var n, p, c := s.nodes[y], s.nodes[Parent(y)], Last(y);
    InvDoneFits(p, c, n, s.latest);
    EdgeKeeps(s, y, InvDoneNodes(p, c, n).0, InvDoneNodes(p, c, n).1);
  }

  lemma OwnStepKeeps(s: Sys, e: Step)
    requires Inv(s) && Enabled(s, e)
    requires e.CoreStart? || e.Insert? || e.BccAccess? || e.EvictStart?
    ensures Asserts(s, e) && Inv(Apply(s, e))
  {
    match e
    case CoreStart(x, ty) =>
      CoreStartFits(s.nodes[x], ty, s.latest);
      LocalKeeps(s, x, Apply(s, e).nodes[x]);
    case Insert(x, stale, junk) =>
      InsertFits(s.nodes[x], stale, junk, s.latest);
      LocalKeeps(s, x, Apply(s, e).nodes[x]);
    case BccAccess(x) =>
      BccFits(s.nodes[x], s.latest);
      LocalKeeps(s, x, BccNode(s.nodes[x]));
    case EvictStart(x) =>
      EvictStartFits(s.nodes[x], s.latest);
      LocalKeeps(s, x, Apply(s, e).nodes[x]);
  }

  lemma EdgeStepKeeps(s: Sys, e: Step)
    requires Inv(s) && Enabled(s, e)
    requires e.Put? || e.GetS? || e.GetX? || e.SweepDone? || e.InvStart? || e.InvDone?
    ensures Asserts(s, e) && Inv(Apply(s, e))
  {
    match e
    case Put(y) => PutKeeps(s, y);
    case GetS(y, noexcl) => GetSKeeps(s, y, noexcl);
    case GetX(y) => GetXKeeps(s, y);
    case SweepDone(y) => SweepDoneKeeps(s, y);
    case InvStart(y) => InvStartKeeps(s, y);
    case InvDone(y) => InvDoneKeeps(s, y);
  }

  /** No step trips an assertion or a panic of the source, and every step keeps
      the invariant. */
  lemma StepKeeps(s: Sys, e: Step)
    requires Inv(s) && Enabled(s, e)
    ensures Asserts(s, e) && Inv(Apply(s, e))
  {
    if e.CoreStart? || e.Insert? || e.BccAccess? || e.EvictStart? { OwnStepKeeps(s, e); }
    else if e.CoreDone? { CoreDoneKeeps(s, e.x); }
    else if e.EvictDone? { EvictDoneKeeps(s, e.x); }
    else if e.MemAccess? { MemAccessKeeps(s, e.noexcl); }
    else if e.Arrive? { ArriveKeeps(s, e.y); }
    else { EdgeStepKeeps(s, e); }
  }
}
