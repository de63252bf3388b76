/** The inductive invariant of the protocol and its preservation by every step.
    Everything is stated on single caches and on parent-child edges, so a step
    is checked on the two caches it changes and a frame for the edges around. */
module CoherenceInv {
  import opened Mesi
  import opened Coherence

  // ------------------------------------------------------------ invariant

  /** What the phase of a cache says about its own state. */
  ghost predicate ActOk(n: Node) {
    match n.act
    case Idle => true
    case Alloc(r) => !n.resident && !IsPut(r.ty)
    case Serve(r) =>
      n.resident && (r.ty == PUTS ==> n.st != I) && (r.ty == PUTX ==> Exclusive(n.st))
    case Up(r, ty, initial) =>
      && n.resident && ty == r.ty && !IsPut(ty)
      && (ty == GETS ==> initial == I && n.st == I)
      && (ty == GETX ==> (initial == S || initial == I) && (n.st == I || (initial == S && n.st == S)))
    case Dir(r) =>
      n.resident && n.st != I && (r.ty == GETX || r.ty == PUTX ==> n.st == M)
    case Sweep(r) =>
      && n.resident && !IsPut(r.ty) && Exclusive(n.st) && r.who.Child?
      && (r.ty == GETX ==> n.st == M && r.who.c !in n.dir.sharers)
    case Evict => n.resident
    case EvictUp(ty, initial) =>
      && n.resident && n.dir.sharers == {} && n.dir.numSharers == 0
      && ((ty == PUTS && initial == S && (n.st == S || n.st == I))
          || (ty == PUTS && initial == E && n.st != M)
          || (ty == PUTX && initial == M && n.st != E))
  }

  ghost predicate NodeOk(n: Node) {
    && ActOk(n)
    && (n.st != I ==> n.resident)
    && (n.dir.sharers != {} ==> n.st != I)
    && (n.dir.IsExclusive() ==> Exclusive(n.st))
    && (n.dir.numSharers >= 2 ==> !n.dir.exclusive)
    && n.dir.numSharers == |n.dir.sharers| + (if Sending(n) == Held(INV) then n.sent else 0)
    && n.sent >= 0
    && (n.down.Held? ==>
          !Locked(n.act) && !n.act.Alloc? && n.st != I
          && n.down.t != FWD && (n.down.t == INVX ==> Exclusive(n.st)))
    && (n.wb && Sending(n).Held? ==> Exclusive(n.st))
    && (Sending(n) == Open ==> !n.wb)
    && (n.terminal ==> n.dir.sharers == {} && n.dir.numSharers == 0)
    && (n.act != Idle && n.act != Evict && !n.act.EvictUp? ==>
          (n.terminal <==> n.act.r.who == Core) && (n.terminal ==> !IsPut(n.act.r.ty)))
  }

  /** A copy that no descendant may have overtaken holds the last stored value. */
  ghost predicate Fresh(n: Node, latest: int) {
    n.st != I && (!n.dir.IsExclusive() || n.dir.sharers == {}) ==> n.ver == latest
  }

  ghost predicate Clean(n: Node) {
    n.st != I && n.st != M && !n.wb
  }

  /** A parent that serves child c's request agrees with the child about it. */
  ghost predicate ServeOk(p: Node, c: nat, n: Node) {
    Serving(p.act, c) ==>
      match p.act.r.ty
      case GETS => n.act.Up? && n.act.ty == GETS && n.st == I
      case GETX => n.act.Up? && n.act.ty == GETX && (n.st == I || n.st == S)
      case PUTS => n.act.EvictUp? && (n.st == S || n.st == E) && (p.act.Serve? || p.act.Dir?)
      case PUTX => n.act.EvictUp? && n.st == M && (p.act.Serve? || p.act.Dir?)
  }

  ghost predicate EdgeOk(p: Node, c: nat, n: Node) {
    && (c in p.dir.sharers ==> n.st != I)
    && (n.st != I ==>
          || c in p.dir.sharers
          || (p.act == Sweep(Req(Child(c), GETX)) && n.st == S && !p.dir.exclusive))
    && (Exclusive(n.st) ==> p.dir.IsExclusive() && c in p.dir.sharers)
    && (p.dir.IsExclusive() && c in p.dir.sharers ==> Exclusive(n.st))
    && (n.down.Held? ==>
          && n.down == Sending(p) && c in p.dir.sharers
          && (n.down.t == INVX ==> p.dir.IsExclusive()))
    && (Clean(n) ==> n.ver == p.ver)
    && ServeOk(p, c, n)
  }

  /** The last-level cache against memory, which keeps no directory. */
  ghost predicate TopOk(mem: int, latest: int, n: Node) {
    && n.down == Open
    && (n.st == I ==> mem == latest)
    && (Clean(n) ==> n.ver == mem)
    && (n.act.EvictUp? ==> n.st == n.act.initial)
  }

  ghost predicate Tree(s: Sys) {
    && [] in s.nodes
    && forall x {:trigger Parent(x)} | x in s.nodes && x != [] ::
         Parent(x) in s.nodes && !s.nodes[Parent(x)].terminal
  }

  ghost predicate NodesOk(s: Sys) {
    forall x | x in s.nodes :: NodeOk(s.nodes[x]) && Fresh(s.nodes[x], s.latest)
  }

  ghost predicate EdgesOk(s: Sys)
    requires Tree(s)
  {
    forall x {:trigger Parent(x)} | x in s.nodes && x != [] :: EdgeOk(s.nodes[Parent(x)], Last(x), s.nodes[x])
  }

  ghost predicate Inv(s: Sys) {
    Tree(s) && NodesOk(s) && EdgesOk(s) && TopOk(s.mem, s.latest, s.nodes[[]])
  }

  // --------------------------------------------------------------- frames

  /** Replacing parent p by p' keeps every edge to a child, except child c. */
  ghost predicate BelowBut(p: Node, p': Node, c: int) {
    forall d: nat, y: Node :: d != c && EdgeOk(p, d, y) ==> EdgeOk(p', d, y)
  }

  /** Replacing n by n' keeps the edge to its parent, whatever the parent is. */
  ghost predicate Above(n: Node, n': Node) {
    && (forall g: Node, k: nat :: EdgeOk(g, k, n) ==> EdgeOk(g, k, n'))
    && (forall mem, latest :: TopOk(mem, latest, n) ==> TopOk(mem, latest, n'))
  }

  /** The link of a changed cache to what is above it, in the old state. */
  ghost predicate UpLink(s: Sys, x: Path, n: Node, mem: int)
    requires Tree(s) && x in s.nodes
  {
    if x == [] then TopOk(mem, s.latest, n)
    else mem == s.mem && EdgeOk(s.nodes[Parent(x)], Last(x), n)
  }

  lemma AboveLinks(s: Sys, x: Path, n: Node)
    requires Inv(s) && x in s.nodes && Above(s.nodes[x], n)
    ensures UpLink(s, x, n, s.mem)
  {
  }

  lemma ParentDiffers(x: Path)
    requires x != []
    ensures Parent(x) != x && |Parent(x)| + 1 == |x|
    ensures Parent(x) + [Last(x)] == x
  {
  }

  lemma SameParent(x: Path, y: Path)
    requires x != [] && y != [] && Parent(x) == Parent(y) && Last(x) == Last(y)
    ensures x == y
  {
    ParentDiffers(x);
    ParentDiffers(y);
  }

  /** An edge after one cache has changed. */
  lemma Update1Edge(s: Sys, x: Path, n: Node, mem: int, y: Path)
    requires Inv(s) && x in s.nodes && n.terminal == s.nodes[x].terminal
    requires UpLink(s, x, n, mem) && BelowBut(s.nodes[x], n, -1)
    requires y in s.nodes && y != []
    ensures var t := Set1(s, x, n);
      Parent(y) in t.nodes && !t.nodes[Parent(y)].terminal && EdgeOk(t.nodes[Parent(y)], Last(y), t.nodes[y])
  {
    ParentDiffers(y);
    assert EdgeOk(s.nodes[Parent(y)], Last(y), s.nodes[y]);
  }

  /** One cache changes, possibly memory with it. */
  lemma Update1(s: Sys, x: Path, n: Node, mem: int)
    requires Inv(s) && x in s.nodes && n.terminal == s.nodes[x].terminal
    requires NodeOk(n) && Fresh(n, s.latest)
    requires UpLink(s, x, n, mem) && BelowBut(s.nodes[x], n, -1)
    ensures Inv(Set1(s, x, n).(mem := mem))
  {
    var t := Set1(s, x, n).(mem := mem);
    assert t.nodes.Keys == s.nodes.Keys;
    forall y | y in t.nodes && y != []
      ensures Parent(y) in t.nodes && !t.nodes[Parent(y)].terminal
      ensures EdgeOk(t.nodes[Parent(y)], Last(y), t.nodes[y])
    {
      Update1Edge(s, x, n, mem, y);
    }
  }

  /** An edge after a child and its parent have changed together. */
  lemma Update2Edge(s: Sys, y: Path, p: Node, n: Node, z: Path)
    requires Inv(s) && y in s.nodes && y != [] && z in s.nodes && z != []
    requires p.terminal == s.nodes[Parent(y)].terminal && n.terminal == s.nodes[y].terminal
    requires EdgeOk(p, Last(y), n)
    requires Above(s.nodes[Parent(y)], p) && BelowBut(s.nodes[Parent(y)], p, Last(y))
    requires BelowBut(s.nodes[y], n, -1)
    ensures var t := Set2(s, y, (p, n));
      Parent(z) in t.nodes && !t.nodes[Parent(z)].terminal && EdgeOk(t.nodes[Parent(z)], Last(z), t.nodes[z])
  {
    ParentDiffers(y);
    ParentDiffers(z);
    assert EdgeOk(s.nodes[Parent(z)], Last(z), s.nodes[z]);
    if Parent(z) == Parent(y) && z != y {
      if Last(z) == Last(y) { SameParent(z, y); }
    }
  }

  lemma Update2Edges(s: Sys, y: Path, p: Node, n: Node)
    requires Inv(s) && y in s.nodes && y != []
    requires p.terminal == s.nodes[Parent(y)].terminal && n.terminal == s.nodes[y].terminal
    requires EdgeOk(p, Last(y), n)
    requires Above(s.nodes[Parent(y)], p) && BelowBut(s.nodes[Parent(y)], p, Last(y))
    requires BelowBut(s.nodes[y], n, -1)
    ensures Tree(Set2(s, y, (p, n))) && EdgesOk(Set2(s, y, (p, n)))
  {
    var t := Set2(s, y, (p, n));
    assert t.nodes.Keys == s.nodes.Keys;
    forall z | z in t.nodes && z != []
      ensures Parent(z) in t.nodes && !t.nodes[Parent(z)].terminal
      ensures EdgeOk(t.nodes[Parent(z)], Last(z), t.nodes[z])
    {
      Update2Edge(s, y, p, n, z);
    }
  }

  /** A child and its parent change together. */
  lemma Update2(s: Sys, y: Path, p: Node, n: Node)
    requires Inv(s) && y in s.nodes && y != []
    requires p.terminal == s.nodes[Parent(y)].terminal && n.terminal == s.nodes[y].terminal
    requires NodeOk(p) && Fresh(p, s.latest) && NodeOk(n) && Fresh(n, s.latest)
    requires EdgeOk(p, Last(y), n)
    requires Above(s.nodes[Parent(y)], p) && BelowBut(s.nodes[Parent(y)], p, Last(y))
    requires BelowBut(s.nodes[y], n, -1)
    ensures Inv(Set2(s, y, (p, n)))
  {
    Update2Edges(s, y, p, n);
    AboveLinks(s, Parent(y), p);
  }

  // ------------------------------------------------------- steps, one by one

  /** A set with one element holds nothing else. */
  lemma Sole(ss: set<nat>, c: nat, d: nat)
    requires c in ss && d in ss && |ss| <= 1
    ensures c == d
  {
    if c != d {
      assert |ss - {c}| >= 1 by { assert d in ss - {c}; }
    }
  }

  lemma Empty(ss: set<nat>)
    requires |ss| == 0
    ensures ss == {}
  {
  }

  /** The caches and the edge a two-cache step looks at. */
  ghost predicate Near(p: Node, c: nat, n: Node, latest: int) {
    NodeOk(p) && Fresh(p, latest) && NodeOk(n) && Fresh(n, latest) && EdgeOk(p, c, n) && !p.terminal
  }

  /** What a two-cache step must re-establish. */
  ghost predicate Fits(p: Node, c: nat, n: Node, p': Node, n': Node, latest: int) {
    && NodeOk(p') && Fresh(p', latest) && NodeOk(n') && Fresh(n', latest)
    && EdgeOk(p', c, n')
    && p'.terminal == p.terminal && n'.terminal == n.terminal
    && Above(p, p') && BelowBut(p, p', c) && BelowBut(n, n', -1)
  }

  lemma BccFits(n: Node, latest: int)
    requires NodeOk(n) && Fresh(n, latest) && n.act.Serve?
    ensures n.resident && Fits1(n, BccNode(n), latest)
    ensures n.act.r.ty == PUTS ==> n.st != I
    ensures n.act.r.ty == PUTX ==> Exclusive(n.st)
  {
  }

  lemma PutFits(p: Node, c: nat, n: Node, latest: int)
    requires Near(p, c, n, latest) && p.act.Dir? && Serving(p.act, c) && IsPut(p.act.r.ty)
    ensures n.act.EvictUp? && c in p.dir.sharers && (p.act.r.ty == PUTX ==> p.dir.IsExclusive())
    ensures var (p', n') := PutNodes(p, c, n); Fits(p, c, n, p', n', latest)
  {
    var (p', n') := PutNodes(p, c, n);
    forall d: nat, y: Node | d != c && EdgeOk(p, d, y) ensures EdgeOk(p', d, y) {
      if d in p.dir.sharers && p.dir.numSharers == 1 { Sole(p.dir.sharers, c, d); }
    }
  }

  lemma GetSFits(p: Node, c: nat, n: Node, noexcl: bool, latest: int)
    requires Near(p, c, n, latest) && p.act.Dir? && Serving(p.act, c) && p.act.r.ty == GETS
    ensures n.act.Up? && c !in p.dir.sharers
    ensures var (p', n') := GetSNodes(p, c, n, noexcl); Fits(p, c, n, p', n', latest)
  {
    if p.dir.IsEmpty() { Empty(p.dir.sharers); }
  }

  lemma GetXFits(p: Node, c: nat, n: Node, latest: int)
    requires Near(p, c, n, latest) && p.act.Dir? && Serving(p.act, c) && p.act.r.ty == GETX
    ensures n.act.Up? && Exclusive(p.st) && (c in p.dir.sharers ==> !p.dir.IsExclusive())
    ensures var p' := GetXNode(p, c);
      && NodeOk(p') && Fresh(p', latest) && EdgeOk(p', c, n)
      && Above(p, p') && BelowBut(p, p', c)
  {
  }

  lemma SweepDoneFits(p: Node, c: nat, n: Node, latest: int)
    requires Near(p, c, n, latest) && p.act.Sweep? && Serving(p.act, c)
    requires SweptOut(p, if p.act.r.ty == GETS then INVX else INV)
    ensures n.act.Up? && c !in p.dir.sharers
    ensures p.act.r.ty == GETX ==> p.sent == p.dir.numSharers
    ensures p.wb ==> Exclusive(p.st)
    ensures var (p', n') := SweepDoneNodes(p, c, n); Fits(p, c, n, p', n', latest)
  {
  }

  lemma InvStartFits(p: Node, c: nat, n: Node, latest: int)
    requires Near(p, c, n, latest) && Sending(p).Held? && c in p.dir.sharers
    requires !SweptOut(p, Sending(p).t) && n.down == Open && !Locked(n.act)
    ensures n.resident
    ensures var n' := n.(down := Sending(p), sent := 0, wb := false);
      && NodeOk(n') && Fresh(n', latest) && EdgeOk(p, c, n') && BelowBut(n, n', -1)
  {
  }

  /** The other children do not notice that an invalidation is done. */
  lemma InvDoneSiblings(p: Node, c: nat, n: Node)
    requires NodeOk(p) && NodeOk(n) && EdgeOk(p, c, n) && n.down.Held?
    ensures BelowBut(p, InvDoneNodes(p, c, n).0, c)
  {
    var p' := InvDoneNodes(p, c, n).0;
    forall d: nat, y: Node | d != c && EdgeOk(p, d, y) ensures EdgeOk(p', d, y) {
      if d in p.dir.sharers && p.dir.numSharers == 1 { Sole(p.dir.sharers, c, d); }
    }
  }

  lemma InvDoneChild(p: Node, c: nat, n: Node, latest: int)
    requires NodeOk(n) && Fresh(n, latest) && n.down.Held? && SweptOut(n, n.down.t)
    ensures var n' := InvDoneNodes(p, c, n).1; NodeOk(n') && Fresh(n', latest) && BelowBut(n, n', -1)
  {
  }

  lemma InvDoneFits(p: Node, c: nat, n: Node, latest: int)
    requires Near(p, c, n, latest) && n.down.Held? && SweptOut(n, n.down.t)
    ensures n.st != I
    ensures n.down.t == INV ==> n.sent == n.dir.numSharers
    ensures n.down.t == INVX ==> Exclusive(n.st) && p.dir.exclusive && p.dir.numSharers == 1
    ensures var (p', n') := InvDoneNodes(p, c, n); Fits(p, c, n, p', n', latest)
  {
    InvDoneSiblings(p, c, n);
    InvDoneChild(p, c, n, latest);
  }

  lemma EvictDoneFits(n: Node, latest: int)
    requires NodeOk(n) && Fresh(n, latest) && n.act == Evict && SweptOut(n, INV)
    ensures n.sent == n.dir.numSharers && (n.wb ==> Exclusive(n.st))
    ensures var n' := EvictDoneNode(n);
      NodeOk(n') && Fresh(n', latest) && n'.terminal == n.terminal && BelowBut(n, n', -1)
    ensures forall g, k: nat :: EdgeOk(g, k, n) ==> EdgeOk(g, k, EvictDoneNode(n))
    ensures forall mem :: TopOk(mem, latest, n) ==> TopOk(mem, latest, EvictDoneNode(n))
  {
  }

  lemma MemFits(n: Node, mem: int, latest: int, noexcl: bool)
    requires NodeOk(n) && Fresh(n, latest) && TopOk(mem, latest, n)
    requires n.act.Up? || n.act.EvictUp?
    ensures var n' := MemNode(n, mem, noexcl);
      && NodeOk(n') && Fresh(n', latest) && n'.terminal == n.terminal && BelowBut(n, n', -1)
      && TopOk(if n.act.EvictUp? && n.act.ty == PUTX then n.ver else mem, latest, n')
  {
  }

  lemma ArriveFits(p: Node, c: nat, n: Node, latest: int)
    requires Near(p, c, n, latest) && (n.act.Up? || n.act.EvictUp?)
    requires p.act == Idle && p.down == Open
    ensures match CheckRace(n.act.ty, n.st, n.act.initial)
      case Panicked => false
      case Skip =>
        var n' := Gone(n);
        && n.act.EvictUp? && NodeOk(n') && Fresh(n', latest) && EdgeOk(p, c, n') && BelowBut(n, n', -1)
      case Proceed(ty) =>
        && (IsPut(ty) ==> p.resident && p.st != I)
        && var r := Req(Child(c), ty);
           var p' := p.(act := if p.resident then Serve(r) else Alloc(r));
           && NodeOk(p') && Fresh(p', latest) && EdgeOk(p', c, n)
           && Above(p, p') && BelowBut(p, p', c)
  {
  }

  /** One cache changes and its link upward is kept whatever is above. */
  ghost predicate Fits1(n: Node, n': Node, latest: int) {
    NodeOk(n') && Fresh(n', latest) && n'.terminal == n.terminal && Above(n, n') && BelowBut(n, n', -1)
  }

  lemma CoreStartFits(n: Node, ty: Access, latest: int)
    requires NodeOk(n) && Fresh(n, latest) && n.terminal && n.act == Idle && n.down == Open && !IsPut(ty)
    ensures var r := Req(Core, ty);
      Fits1(n, n.(act := if n.resident then Serve(r) else Alloc(r)), latest)
  {
  }

  lemma InsertFits(n: Node, stale: bool, junk: int, latest: int)
    requires NodeOk(n) && Fresh(n, latest) && n.act.Alloc? && n.down == Open
    ensures Fits1(n, n.(resident := true, st := I, ver := junk, act := Serve(n.act.r),
                        dir := n.dir.(exclusive := stale)), latest)
  {
  }

  lemma EvictStartFits(n: Node, latest: int)
    requires NodeOk(n) && Fresh(n, latest) && n.resident && n.act == Idle && n.down == Open
    ensures Fits1(n, n.(act := Evict, sent := 0, wb := false), latest)
  {
  }

  lemma CoreDoneFits(n: Node, latest: int)
    requires NodeOk(n) && Fresh(n, latest) && n.act.Dir? && n.act.r.who == Core
    ensures n.terminal && (n.act.r.ty == GETS || n.act.r.ty == GETX)
    ensures n.st != I && (n.act.r.ty == GETX ==> n.st == M) && Fits1(n, n.(act := Idle), latest)
  {
  }
}
