/** The hierarchical MESI protocol for one cache line, as a state machine over a
    tree of caches of any depth and fan-out.

    A cache is named by its path from the last-level cache []. Each cache keeps
    the phase of the access that holds its top lock (act) and the invalidation
    that holds its bottom lock from above (down). A cache drops its bottom lock
    while its own request travels up, so invalidations interleave there. The
    value ver is a ghost of the line's data; memory holds mem, and latest is the
    last value stored by any core. */
module Coherence {
  import opened Mesi

  type Path = seq<nat>

  datatype Who = Core | Child(c: nat)

  datatype Req = Req(who: Who, ty: Access)

  /** Phases of the access that owns a cache's top lock. */
  datatype Act =
    | Idle
    | Alloc(r: Req)                           // line absent, a victim is being evicted
    | Serve(r: Req)                           // both locks held, race resolved
    | Up(r: Req, ty: Access, initial: State)  // own request in flight, bottom lock dropped
    | Dir(r: Req)                             // permissions obtained, directory next
    | Sweep(r: Req)                           // directory is invalidating other children
    | Evict                                   // invalidating all children of a victim
    | EvictUp(ty: Access, initial: State)     // own PUT in flight, bottom lock dropped

  datatype Down = Open | Held(t: Inval)

  datatype Node = Node(
    terminal: bool, resident: bool, st: State, dir: Entry, ver: int,
    act: Act, down: Down, sent: int, wb: bool)

  datatype Sys = Sys(nodes: map<Path, Node>, mem: int, latest: int)

  function Parent(x: Path): Path
    requires x != []
  {
    x[..|x| - 1]
  }

  function Last(x: Path): nat
    requires x != []
  {
    x[|x| - 1]
  }

  predicate Serving(a: Act, c: nat) {
    (a.Alloc? || a.Serve? || a.Up? || a.Dir? || a.Sweep?) && a.r.who == Child(c)
  }

  /** The access phases that hold the bottom lock. */
  predicate Locked(a: Act) {
    a.Serve? || a.Dir? || a.Sweep? || a.Evict?
  }

  /** The kind of invalidation a cache is sending to its children, if any. */
  function Sending(n: Node): Down {
    if n.down.Held? then n.down
    else match n.act
      case Sweep(r) => if r.ty == GETS then Held(INVX) else Held(INV)
      case Evict => Held(INV)
      case _ => Open
  }

  /** sendInvalidates has visited every child it has to. */
  predicate SweptOut(n: Node, t: Inval) {
    if t == INVX then !n.dir.IsExclusive() else n.dir.sharers == {}
  }

  // ---------------------------------------------------------------- steps

  datatype Step =
    | CoreStart(x: Path, ty: Access)
    | Insert(x: Path, stale: bool, junk: int)
    | BccAccess(x: Path)
    | CoreDone(x: Path)
    | EvictStart(x: Path)
    | EvictDone(x: Path)
    | MemAccess(noexcl: bool)
    | Arrive(y: Path)
    | Put(y: Path)
    | GetS(y: Path, noexcl: bool)
    | GetX(y: Path)
    | SweepDone(y: Path)
    | InvStart(y: Path)
    | InvDone(y: Path)

  /** A put has finished: the child's line is gone and its array slot is free. */
  function Gone(n: Node): Node {
    n.(st := I, act := Idle, resident := false)
  }

  /** A get has finished: the child holds the line in state st and resumes. */
  function Granted(n: Node, st: State, ver: int): Node
    requires n.act.Up?
  {
    n.(st := st, ver := ver, act := Dir(n.act.r))
  }

  function BccNode(n: Node): Node
    requires n.act.Serve?
  {
    match n.act.r.ty
    case PUTS => n.(act := Dir(n.act.r))
    case PUTX => n.(st := M, act := Dir(n.act.r))
    case GETS =>
      if n.st == I then n.(act := Up(n.act.r, GETS, n.st)) else n.(act := Dir(n.act.r))
    case GETX =>
      if n.st == I || n.st == S then n.(act := Up(n.act.r, GETX, n.st))
      else n.(st := M, act := Dir(n.act.r))
  }

  function EvictDoneNode(n: Node): Node {
    var st := if n.wb then M else n.st;
    var m := n.(st := st, wb := false, dir := n.dir.(numSharers := 0));
    match st
    case I => Gone(m)
    case S | E => m.(act := EvictUp(PUTS, st))
    case M => m.(act := EvictUp(PUTX, st))
  }

  function MemNode(n: Node, mem: int, noexcl: bool): Node {
    match n.act
    case Up(r, ty, _) => Granted(n, if ty == GETX then M else if noexcl then S else E, mem)
    case EvictUp(_, _) => Gone(n)
    case _ => n
  }

  function PutNodes(p: Node, c: nat, n: Node): (Node, Node)
    requires p.act.Dir?
  {
    (p.(dir := p.dir.Drop(c), act := Idle, ver := if p.act.r.ty == PUTX then n.ver else p.ver),
     Gone(n))
  }

  function GetSNodes(p: Node, c: nat, n: Node, noexcl: bool): (Node, Node)
    requires p.act.Dir? && n.act.Up?
  {
    if p.dir.IsEmpty() && Exclusive(p.st) && !noexcl then
      (p.(dir := Entry(p.dir.sharers + {c}, 1, true), act := Idle), Granted(n, E, p.ver))
    else if p.dir.IsExclusive() then
      (p.(act := Sweep(p.act.r), sent := 0, wb := false), n)
    else
      (p.(dir := p.dir.Add(c, false), act := Idle), Granted(n, S, p.ver))
  }

  function GetXNode(p: Node, c: nat): Node
    requires p.act.Dir?
  {
    p.(dir := if c in p.dir.sharers then p.dir.Drop(c) else p.dir,
       act := Sweep(p.act.r), sent := 0, wb := false)
  }

  function SweepDoneNodes(p: Node, c: nat, n: Node): (Node, Node)
    requires p.act.Sweep? && n.act.Up?
  {
    var st := if p.wb then M else p.st;
    if p.act.r.ty == GETS then
      (p.(dir := p.dir.Add(c, false), act := Idle, wb := false, st := st), Granted(n, S, p.ver))
    else
      (p.(dir := p.dir.(numSharers := 0).Add(c, true), act := Idle, wb := false, st := st),
       Granted(n, M, p.ver))
  }

  function InvDoneNodes(p: Node, c: nat, n: Node): (Node, Node)
    requires n.down.Held?
  {
    var dirty := n.wb || n.st == M;
    var p0 := p.(wb := p.wb || dirty, ver := if dirty then n.ver else p.ver);
    if n.down.t == INVX then
      (p0.(dir := p.dir.(exclusive := false)), n.(st := S, down := Open, wb := false))
    else
      (p0.(dir := p.dir.(sharers := p.dir.sharers - {c}), sent := p.sent + 1),
       n.(st := I, down := Open, wb := false, dir := n.dir.(numSharers := 0)))
  }

  /** Which steps the locks and the control flow permit. No protocol fact is
      used here: everything the source asserts is in Asserts. */
  predicate Enabled(s: Sys, e: Step) {
    match e
    case CoreStart(x, ty) =>
      x in s.nodes && s.nodes[x].terminal && s.nodes[x].act == Idle && s.nodes[x].down == Open
      && !IsPut(ty)
    case Insert(x, _, _) => x in s.nodes && s.nodes[x].act.Alloc? && s.nodes[x].down == Open
    case BccAccess(x) => x in s.nodes && s.nodes[x].act.Serve?
    case CoreDone(x) => x in s.nodes && s.nodes[x].act.Dir? && s.nodes[x].act.r.who == Core
    case EvictStart(x) =>
      x in s.nodes && s.nodes[x].resident && s.nodes[x].act == Idle && s.nodes[x].down == Open
    case EvictDone(x) =>
      x in s.nodes && s.nodes[x].act == Evict && SweptOut(s.nodes[x], INV)
    case MemAccess(_) =>
      [] in s.nodes && (s.nodes[[]].act.Up? || s.nodes[[]].act.EvictUp?)
    case _ =>
      && e.y in s.nodes && e.y != [] && Parent(e.y) in s.nodes
      && var n, p, c := s.nodes[e.y], s.nodes[Parent(e.y)], Last(e.y);
      match e
      case Arrive(_) => (n.act.Up? || n.act.EvictUp?) && p.act == Idle && p.down == Open
      case Put(_) => p.act.Dir? && Serving(p.act, c) && IsPut(p.act.r.ty)
      case GetS(_, _) => p.act.Dir? && Serving(p.act, c) && p.act.r.ty == GETS
      case GetX(_) => p.act.Dir? && Serving(p.act, c) && p.act.r.ty == GETX
      case SweepDone(_) =>
        p.act.Sweep? && Serving(p.act, c) && SweptOut(p, if p.act.r.ty == GETS then INVX else INV)
      case InvStart(_) =>
        && Sending(p).Held? && c in p.dir.sharers && !SweptOut(p, Sending(p).t)
        && n.down == Open && !Locked(n.act)
      case InvDone(_) => n.down.Held? && SweptOut(n, n.down.t)
      case _ => true
  }

  /** Every assertion and panic of the source that the step passes through. */
  predicate Asserts(s: Sys, e: Step)
    requires Enabled(s, e)
  {
    match e
    case BccAccess(x) =>
      var n := s.nodes[x];
      && n.resident
      && (n.act.r.ty == PUTS ==> n.st != I)
      && (n.act.r.ty == PUTX ==> Exclusive(n.st))
    case CoreDone(x) =>
      var n := s.nodes[x];
      (n.act.r.ty == GETS && n.st != I) || (n.act.r.ty == GETX && n.st == M)
    case EvictDone(x) =>
      var n := s.nodes[x];
      n.sent == n.dir.numSharers && (n.wb ==> Exclusive(n.st))
    case Arrive(y) =>
      var n, p := s.nodes[y], s.nodes[Parent(y)];
      (match CheckRace(n.act.ty, n.st, n.act.initial)
       case Panicked => false
       case Skip => n.act.EvictUp?
       case Proceed(ty) => IsPut(ty) ==> p.resident && p.st != I)
    case Put(y) =>
      var n, p, c := s.nodes[y], s.nodes[Parent(y)], Last(y);
      n.act.EvictUp? && c in p.dir.sharers && (p.act.r.ty == PUTX ==> p.dir.IsExclusive())
    case GetS(y, noexcl) =>
      var n, p, c := s.nodes[y], s.nodes[Parent(y)], Last(y);
      n.act.Up? && c !in p.dir.sharers
    case GetX(y) =>
      var n, p, c := s.nodes[y], s.nodes[Parent(y)], Last(y);
      n.act.Up? && Exclusive(p.st) && (c in p.dir.sharers ==> !p.dir.IsExclusive())
    case SweepDone(y) =>
      var n, p, c := s.nodes[y], s.nodes[Parent(y)], Last(y);
      && n.act.Up? && c !in p.dir.sharers
      && (p.act.r.ty == GETX ==> p.sent == p.dir.numSharers)
      && (p.wb ==> Exclusive(p.st))
    case InvStart(y) => s.nodes[y].resident
    case InvDone(y) =>
      var n, p := s.nodes[y], s.nodes[Parent(y)];
      && n.st != I
      && (n.down.t == INV ==> n.sent == n.dir.numSharers)
      && (n.down.t == INVX ==> Exclusive(n.st) && p.dir.exclusive && p.dir.numSharers == 1)
    case _ => true
  }

  function Set1(s: Sys, x: Path, n: Node): Sys {
    s.(nodes := s.nodes[x := n])
  }

  function Set2(s: Sys, y: Path, pn: (Node, Node)): Sys
    requires y != []
  {
    s.(nodes := s.nodes[Parent(y) := pn.0][y := pn.1])
  }

  function Apply(s: Sys, e: Step): Sys
    requires Enabled(s, e) && Asserts(s, e)
  {
    match e
    case CoreStart(x, ty) =>
      var n, r := s.nodes[x], Req(Core, ty);
      Set1(s, x, n.(act := if n.resident then Serve(r) else Alloc(r)))
    case Insert(x, stale, junk) =>
      var n := s.nodes[x];
      Set1(s, x, n.(resident := true, st := I, ver := junk, act := Serve(n.act.r),
                    dir := n.dir.(exclusive := stale)))
    case BccAccess(x) => Set1(s, x, BccNode(s.nodes[x]))
    case CoreDone(x) =>
      var n := s.nodes[x];
      if n.act.r.ty == GETX then
        Set1(s, x, n.(act := Idle, ver := s.latest + 1)).(latest := s.latest + 1)
      else Set1(s, x, n.(act := Idle))
    case EvictStart(x) => Set1(s, x, s.nodes[x].(act := Evict, sent := 0, wb := false))
    case EvictDone(x) => Set1(s, x, EvictDoneNode(s.nodes[x]))
    case MemAccess(noexcl) =>
      var n := s.nodes[[]];
      Set1(s, [], MemNode(n, s.mem, noexcl)).(
        mem := if n.act.EvictUp? && n.act.ty == PUTX then n.ver else s.mem)
    case Arrive(y) =>
      var n, p := s.nodes[y], s.nodes[Parent(y)];
      (match CheckRace(n.act.ty, n.st, n.act.initial)
       case Proceed(ty) =>
         var r := Req(Child(Last(y)), ty);
         Set1(s, Parent(y), p.(act := if p.resident then Serve(r) else Alloc(r)))
       case _ => Set1(s, y, Gone(n)))
    case Put(y) => Set2(s, y, PutNodes(s.nodes[Parent(y)], Last(y), s.nodes[y]))
    case GetS(y, noexcl) =>
      Set2(s, y, GetSNodes(s.nodes[Parent(y)], Last(y), s.nodes[y], noexcl))
    case GetX(y) => Set1(s, Parent(y), GetXNode(s.nodes[Parent(y)], Last(y)))
    case SweepDone(y) =>
      Set2(s, y, SweepDoneNodes(s.nodes[Parent(y)], Last(y), s.nodes[y]))
    case InvStart(y) =>
      Set1(s, y, s.nodes[y].(down := Sending(s.nodes[Parent(y)]), sent := 0, wb := false))
    case InvDone(y) => Set2(s, y, InvDoneNodes(s.nodes[Parent(y)], Last(y), s.nodes[y]))
  }
}
