/** The two halves of a cache's coherence controller, updating their arrays in
    place, against the steps of the protocol model. */
module Controllers {
  import opened Mesi
  import opened Coherence

  /** The request a bottom controller sends to its parent, if any. */
  datatype Sent = Nothing | Asked(ty: Access, initial: State)

  function AsSent(a: Act): Sent {
    match a
    case Up(_, ty, initial) => Asked(ty, initial)
    case EvictUp(ty, initial) => Asked(ty, initial)
    case _ => Nothing
  }

  /** How an access at the parent ends: at memory, with a put taken or skipped, or
      with a get granted at once or after a sweep. p is the parent's node, where
      this cache is child c. */
  datatype Reply = FromMemory(noexcl: bool) | PutTaken(p: Node, c: nat) | PutSkipped
                 | Granting(p: Node, c: nat, noexcl: bool) | AfterSweep(p: Node, c: nat)

  /** The reply is to the request that n has in flight. */
  predicate Replies(a: Reply, n: Node) {
    match a
    case FromMemory(_) => n.act.Up? || n.act.EvictUp?
    case PutTaken(p, c) => n.act.EvictUp? && p.act.Dir? && p.act.r.who == Child(c)
    case PutSkipped => n.act.EvictUp? && CheckRace(n.act.ty, n.st, n.act.initial).Skip?
    case Granting(p, c, noexcl) =>
      n.act.Up? && p.act == Dir(Req(Child(c), GETS)) && n.act.ty == GETS && GetSNodes(p, c, n, noexcl).0.act == Idle
    case AfterSweep(p, c) => n.act.Up? && p.act == Sweep(Req(Child(c), n.act.ty))
  }

  /** The state that the protocol's step leaves this cache's line in. */
  function Replied(a: Reply, n: Node): State
    requires Replies(a, n)
  {
    match a
    case FromMemory(noexcl) => MemNode(n, 0, noexcl).st
    case PutTaken(p, c) => PutNodes(p, c, n).1.st
    case PutSkipped => Gone(n).st
    case Granting(p, c, noexcl) => GetSNodes(p, c, n, noexcl).1.st
    case AfterSweep(p, c) => SweepDoneNodes(p, c, n).1.st
  }

  /** States of this cache's lines. answer is the state that the parent's access
      writes into the line's; n is the cache's node as the method finds it, and up
      the node when the parent replied, as invalidations may come in between. */
  class MESIBottomCC {
    const states: array<State>

    constructor (numLines: nat)
      ensures fresh(states) && states.Length == numLines
      ensures forall i: nat | i < numLines :: states[i] == I
    {
      states := new State[numLines](_ => I);
    }

    /** The end of an eviction: n is the cache's node once its children are gone. */
    method ProcessEviction(lineId: nat, lowerLevelWriteback: bool, answer: State, ghost n: Node, ghost up: Node, ghost a: Reply)
        returns (sent: Sent)
      requires lineId < states.Length && n.st == states[lineId] && n.wb == lowerLevelWriteback
      requires lowerLevelWriteback ==> Exclusive(states[lineId])
      requires EvictDoneNode(n).act.EvictUp? ==> up.act == EvictDoneNode(n).act && Replies(a, up) && answer == Replied(a, up)
      modifies states
      ensures sent == AsSent(EvictDoneNode(n).act)
      ensures sent.Asked? ==> sent.initial == EvictDoneNode(n).st && (sent.ty == PUTX <==> n.wb || n.st == M)
      ensures states[..] == old(states[..])[lineId := I]
    {
      if lowerLevelWriteback { states[lineId] := M; }
      sent := Nothing;
      match states[lineId] {
        case I =>
        case S | E => sent := Asked(PUTS, states[lineId]); states[lineId] := answer;
        case M => sent := Asked(PUTX, states[lineId]); states[lineId] := answer;
      }
      assert states[lineId] == I;
    }

    /** Get the permissions that an access needs. */
    method ProcessAccess(lineId: nat, ty: Access, answer: State, ghost n: Node, ghost up: Node, ghost a: Reply) returns (sent: Sent)
      requires lineId < states.Length && n.st == states[lineId] && n.act.Serve? && n.act.r.ty == ty
      requires ty == PUTS ==> states[lineId] != I
      requires ty == PUTX ==> Exclusive(states[lineId])
      requires BccNode(n).act.Up? ==> up.act == BccNode(n).act && Replies(a, up) && answer == Replied(a, up)
      modifies states
      ensures sent == AsSent(BccNode(n).act)
      ensures states[..] == old(states[..])[lineId := if sent.Asked? then answer else BccNode(n).st]
      ensures ty == GETS ==> states[lineId] != I
      ensures ty == GETX || ty == PUTX ==> states[lineId] == M
    {
      sent := Nothing;
      match ty {
        case PUTS =>
        case PUTX =>
          if states[lineId] == E { states[lineId] := M; }
        case GETS =>
          if states[lineId] == I {
            sent := Asked(GETS, states[lineId]);
            states[lineId] := answer;
          }
        case GETX =>
          if states[lineId] == I || states[lineId] == S {
            sent := Asked(GETX, states[lineId]);
            states[lineId] := answer;
          } else if states[lineId] == E {
            states[lineId] := M;
          }
      }
    }

    /** A child wrote back while the directory was at work. */
    method ProcessWritebackOnAccess(lineId: nat)
      requires lineId < states.Length && Exclusive(states[lineId])
      modifies states
      ensures states[..] == old(states[..])[lineId := M]
    {
      if states[lineId] == E { states[lineId] := M; }
    }

    /** The end of an invalidation from above; p and n are the parent's node and
        this cache's. wb is the parent's writeback flag. */
    method ProcessInval(lineId: nat, ty: Inval, wb: bool, ghost p: Node, ghost n: Node) returns (wb': bool)
      requires lineId < states.Length && n.st == states[lineId] && n.down == Held(ty) && states[lineId] != I
      requires ty == INVX ==> Exclusive(states[lineId])
      requires ty == FWD ==> states[lineId] == S
      requires wb == (p.wb || n.wb)
      modifies states
      ensures wb' == if ty == FWD then wb else InvDoneNodes(p, 0, n).0.wb
      ensures states[..] == if ty == FWD then old(states[..]) else old(states[..])[lineId := InvDoneNodes(p, 0, n).1.st]
    {
      wb' := wb;
      match ty {
        case INVX =>
          if states[lineId] == M { wb' := true; }
          states[lineId] := S;
        case INV =>
          if states[lineId] == M { wb' := true; }
          states[lineId] := I;
        case FWD =>
      }
    }
  }

  /** What one finished invalidation does to the sender's directory entry. */
  function AfterInval(e: Entry, c: nat, t: Inval): Entry {
    if t == INVX then e.(exclusive := false) else e.(sharers := e.sharers - {c})
  }

  lemma InvalStep(p: Node, c: nat, n: Node)
    requires n.down.Held?
    ensures InvDoneNodes(p, c, n).0.dir == AfterInval(p.dir, c, n.down.t)
  {
  }

  /** The entry after the children in cs, in that order, have been invalidated. */
  function Swept(e: Entry, cs: seq<nat>, t: Inval): Entry {
    if cs == [] then e else AfterInval(Swept(e, cs[..|cs| - 1], t), cs[|cs| - 1], t)
  }

  /** The sender after the protocol's InvDone steps for children cs, whose nodes
      are ns, one after the other. */
  function AfterInvals(p: Node, cs: seq<nat>, ns: seq<Node>): Node
    requires |cs| == |ns| && forall n | n in ns :: n.down.Held?
  {
    if cs == [] then p
    else InvDoneNodes(AfterInvals(p, cs[..|cs| - 1], ns[..|ns| - 1]), cs[|cs| - 1], ns[|ns| - 1]).0
  }

  /** Sweeping in one go is what those steps add up to: the same entry, and a
      writeback iff some child was dirty. */
  lemma {:induction false} SweptIsInvals(p: Node, cs: seq<nat>, ns: seq<Node>, t: Inval)
    requires |cs| == |ns| && forall n | n in ns :: n.down == Held(t)
    ensures AfterInvals(p, cs, ns).dir == Swept(p.dir, cs, t)
    ensures AfterInvals(p, cs, ns).wb <==> p.wb || exists n :: n in ns && (n.wb || n.st == M)
    decreases |cs|
  {
    if cs != [] {
      var k := |cs| - 1;
      assert ns == ns[..k] + [ns[k]];
      SweptIsInvals(p, cs[..k], ns[..k], t);
      InvalStep(AfterInvals(p, cs[..k], ns[..k]), cs[k], ns[k]);
    }
  }

  lemma {:induction false} SweptInv(e: Entry, cs: seq<nat>)
    ensures Swept(e, cs, INV) == e.(sharers := set c | c in e.sharers && c !in cs)
  {
    if cs == [] {
      assert (set c | c in e.sharers && c !in cs) == e.sharers;
    } else {
      var rest, last := cs[..|cs| - 1], cs[|cs| - 1];
      SweptInv(e, rest);
      assert cs == rest + [last];
    }
  }

  lemma {:induction false} SweptInvx(e: Entry, cs: seq<nat>)
    ensures Swept(e, cs, INVX) == if cs == [] then e else e.(exclusive := false)
  {
    if cs != [] { SweptInvx(e, cs[..|cs| - 1]); }
  }

  /** The members of a set below n, in ascending order. */
  function Below(cs: set<nat>, n: nat): seq<nat> {
    if n == 0 then []
    else if n - 1 in cs then Below(cs, n - 1) + [n - 1]
    else Below(cs, n - 1)
  }

  lemma {:induction false} BelowMembers(cs: set<nat>, n: nat)
    ensures forall c :: c in Below(cs, n) <==> c in cs && c < n
    ensures |Below(cs, n)| == |set c | c in cs && c < n|
  {
    if n > 0 {
      BelowMembers(cs, n - 1);
      var t, u := set c | c in cs && c < n - 1, set c | c in cs && c < n;
      if n - 1 in cs { assert u == t + {n - 1}; } else { assert u == t; }
    }
  }

  lemma {:induction false} BelowAscends(cs: set<nat>, n: nat, i: nat, j: nat)
    requires i < j < |Below(cs, n)|
    ensures Below(cs, n)[i] < Below(cs, n)[j]
  {
    var b := Below(cs, n - 1);
    if j < |b| {
      BelowAscends(cs, n - 1, i, j);
    } else {
      BelowMembers(cs, n - 1);
      assert b[i] in b;
    }
  }

  /** Sweeping visits every sharer once and leaves none. */
  lemma SweepsAll(e: Entry, n: nat)
    requires forall c | c in e.sharers :: c < n
    ensures |Below(e.sharers, n)| == |e.sharers|
    ensures forall c :: c in Below(e.sharers, n) <==> c in e.sharers
    ensures Swept(e, Below(e.sharers, n), INV) == e.(sharers := {})
    ensures Swept(e, Below(e.sharers, n), INVX) == if e.sharers == {} then e else e.(exclusive := false)
  {
    var cs := Below(e.sharers, n);
    BelowMembers(e.sharers, n);
    SweptInv(e, cs);
    SweptInvx(e, cs);
    assert (set c | c in e.sharers && c < n) == e.sharers;
    assert (set c | c in e.sharers && c !in cs) == {};
    if cs == [] { assert |e.sharers| == 0; }
  }

  function SomeDirty(cs: seq<nat>, dirty: nat -> bool): (b: bool)
    ensures b <==> exists c :: c in cs && dirty(c)
  {
    cs != [] && (dirty(cs[|cs| - 1]) || SomeDirty(cs[..|cs| - 1], dirty))
  }

  /** The children that an invalidation is sent to, in turn. */
  function Targets(e: Entry, ty: Inval, n: nat): seq<nat> {
    if ty == INVX && !e.IsExclusive() then [] else Below(e.sharers, n)
  }

  /** The protocol's answer to a GETS once the children in sent have been swept. */
  function AnswerGetS(p: Node, c: nat, n: Node, noexcl: bool, sent: seq<nat>, wb: bool): (Node, Node)
    requires p.act.Dir? && n.act.Up?
  {
    var (p1, n1) := GetSNodes(p, c, n, noexcl);
    if p1.act.Sweep? then SweepDoneNodes(p1.(dir := Swept(p1.dir, sent, INVX), wb := wb), c, n1) else (p1, n1)
  }

  function AnswerGetX(p: Node, c: nat, n: Node, sent: seq<nat>, wb: bool): (Node, Node)
    requires p.act.Dir? && n.act.Up?
  {
    var p1 := GetXNode(p, c);
    SweepDoneNodes(p1.(dir := Swept(p1.dir, sent, INV), wb := wb), c, n)
  }

  lemma GetSMeets(p: Node, c: nat, n: Node, noexcl: bool, wb: bool, num: nat)
    requires p.act == Dir(Req(Child(c), GETS)) && n.act.Up?
    requires p.dir.numSharers == |p.dir.sharers| && forall d | d in p.dir.sharers :: d < num
    ensures var p1 := GetSNodes(p, c, n, noexcl).0; var sent := if p1.act.Sweep? then Below(p.dir.sharers, num) else [];
      var (p2, n2) := AnswerGetS(p, c, n, noexcl, sent, wb);
      && (p1.act.Sweep? <==> p.dir.IsExclusive())
      && p2.dir == (if p.dir.IsEmpty() && Exclusive(p.st) && !noexcl then Entry({c}, 1, true) else Entry(p.dir.sharers + {c}, |p.dir.sharers| + 1, false))
      && n2.st == if p.dir.IsEmpty() && Exclusive(p.st) && !noexcl then E else S
  {
    if p.dir.IsEmpty() {
      assert p.dir.sharers + {c} == {c};
    } else if p.dir.IsExclusive() {
      SweepsAll(p.dir, num);
    }
  }

  lemma GetXMeets(p: Node, c: nat, n: Node, wb: bool, num: nat)
    requires p.act == Dir(Req(Child(c), GETX)) && n.act.Up?
    requires forall d | d in p.dir.sharers :: d < num
    ensures var (p2, n2) := AnswerGetX(p, c, n, Below(p.dir.sharers - {c}, num), wb);
      p2.dir == Entry({c}, 1, true) && n2.st == M
  {
    assert c !in p.dir.sharers ==> p.dir.sharers - {c} == p.dir.sharers;
    SweepsAll(GetXNode(p, c).dir, num);
  }

  function Downgraded(e: Entry): Entry {
    if e.IsExclusive() then e.(exclusive := false) else e
  }

  /** Directory entries; dirty says which children report a writeback when they
      are invalidated. */
  class MESITopCC {
    const entries: array<Entry>
    const numChildren: nat

    ghost predicate Valid()
      reads this, entries
    {
      forall i: nat {:trigger EntryOk(entries[i])} | i < entries.Length :: EntryOk(entries[i])
    }

    ghost predicate EntryOk(e: Entry) {
      e.numSharers == |e.sharers| && forall c | c in e.sharers :: c < numChildren
    }

    constructor (numLines: nat, numChildren: nat)
      ensures Valid() && fresh(entries) && entries.Length == numLines && this.numChildren == numChildren
      ensures forall i: nat | i < numLines :: entries[i] == Entry({}, 0, false)
    {
      entries := new Entry[numLines](_ => Entry({}, 0, false));
      this.numChildren := numChildren;
    }

    /** The loop over the children: those that hold the line are told, and for an
        INV their sharer bits cleared. */
    method Visit(lineId: nat, ty: Inval, wb: bool, dirty: nat -> bool) returns (wb': bool, sent: seq<nat>)
      requires lineId < entries.Length
      modifies entries
      ensures sent == Below(old(entries[lineId]).sharers, numChildren) && wb' == (wb || SomeDirty(sent, dirty))
      ensures entries[..] == old(entries[..])[lineId := if ty == INV then Swept(old(entries[lineId]), sent, INV) else old(entries[lineId])]
    {
      ghost var e := entries[lineId];
      wb', sent := wb, [];
      var c := 0;
      while c < numChildren
        invariant c <= numChildren && sent == Below(e.sharers, c)
        invariant wb' == (wb || SomeDirty(sent, dirty))
        invariant entries[lineId] == if ty == INV then Swept(e, sent, INV) else e
        invariant forall i: nat | i < entries.Length && i != lineId :: entries[i] == old(entries[i])
      {
        assert c in entries[lineId].sharers <==> c in e.sharers by { BelowMembers(e.sharers, c); SweptInv(e, sent); }
        if c in entries[lineId].sharers {
          wb' := wb' || dirty(c);
          if ty == INV { entries[lineId] := entries[lineId].(sharers := entries[lineId].sharers - {c}); }
          sent := sent + [c];
          assert sent[..|sent| - 1] == Below(e.sharers, c);
        }
        c := c + 1;
      }
    }

    /** Invalidate or downgrade the children that hold the line, in turn. */
    method SendInvalidates(lineId: nat, ty: Inval, wb: bool, dirty: nat -> bool) returns (wb': bool, sent: seq<nat>)
      requires Valid() && lineId < entries.Length && ty != FWD
      modifies entries
      ensures Valid() && var e := old(entries[lineId]);
        && sent == Targets(e, ty, numChildren) && wb' == (wb || SomeDirty(sent, dirty))
        && entries[..] == old(entries[..])[lineId := if ty == INV then Entry({}, 0, e.exclusive) else Downgraded(e)]
    {
      wb', sent := wb, [];
      var e := entries[lineId];
      assert EntryOk(e);
      SweepsAll(e, numChildren);
      if ty == INVX && !e.IsExclusive() { return; }
      if !e.IsEmpty() {
        wb', sent := Visit(lineId, ty, wb, dirty);
        assert |sent| == e.numSharers;
        if ty == INV {
          entries[lineId] := entries[lineId].(numSharers := 0);
        } else {
          assert e.exclusive && e.numSharers == 1;
          entries[lineId] := entries[lineId].(exclusive := false);
        }
      }
      assert entries[lineId] == if ty == INV then Entry({}, 0, e.exclusive) else Downgraded(e);
    }

    /** All children of an evicted line are invalidated: the state in which the
        protocol's EvictDone finds the directory. */
    method ProcessEviction(lineId: nat, dirty: nat -> bool) returns (wb: bool, sent: seq<nat>)
      requires Valid() && lineId < entries.Length
      modifies entries
      ensures Valid() && sent == Targets(old(entries[lineId]), INV, numChildren) && wb == SomeDirty(sent, dirty)
      ensures entries[..] == old(entries[..])[lineId := Swept(old(entries[lineId]), sent, INV).(numSharers := 0)]
    {
      ghost var e := entries[lineId];
      assert EntryOk(e);
      SweepsAll(e, numChildren);
      wb, sent := SendInvalidates(lineId, INV, false, dirty);
    }

    /** An invalidation from above goes on to the children, a forward does not. */
    method ProcessInval(lineId: nat, ty: Inval, wb: bool, dirty: nat -> bool) returns (wb': bool, sent: seq<nat>)
      requires Valid() && lineId < entries.Length
      modifies entries
      ensures Valid() && wb' == (wb || SomeDirty(sent, dirty))
      ensures sent == if ty == FWD then [] else Targets(old(entries[lineId]), ty, numChildren)
      ensures ty == FWD ==> entries[..] == old(entries[..])
      ensures ty == INV ==> entries[..] == old(entries[..])[lineId := Entry({}, 0, old(entries[lineId]).exclusive)]
      ensures ty == INVX ==> !entries[lineId].IsExclusive() && entries[lineId].sharers == old(entries[lineId]).sharers
    {
      if ty == FWD { return wb, []; }
      assert EntryOk(entries[lineId]);
      SweepsAll(entries[lineId], numChildren);
      wb', sent := SendInvalidates(lineId, ty, wb, dirty);
    }

    /** A put takes the child off the directory; with the keep-exclusive flag a
        writeback only cleans the child's line, which stays its exclusive one. */
    method ProcessPut(lineId: nat, ty: Access, childId: nat, keepExcl: bool, ghost p: Node, ghost n: Node) returns (childState: State)
      requires Valid() && lineId < entries.Length && IsPut(ty)
      requires childId in entries[lineId].sharers && (ty == PUTX ==> entries[lineId].IsExclusive())
      requires p.act == Dir(Req(Child(childId), ty)) && p.dir == entries[lineId] && (ty == PUTX && keepExcl ==> n.st == M)
      modifies entries
      ensures Valid()
      ensures if ty == PUTX && keepExcl then childState == E && entries[..] == old(entries[..])
              else childState == PutNodes(p, childId, n).1.st && entries[..] == old(entries[..])[lineId := PutNodes(p, childId, n).0.dir]
    {
      if ty == PUTX && keepExcl { return E; }
      assert EntryOk(entries[lineId]);
      entries[lineId] := entries[lineId].Drop(childId);
      childState := I;
    }

    /** The grant of a read: exclusive to the only child if this cache may, else
        shared, with the exclusive child downgraded first. */
    method GrantRead(lineId: nat, childId: nat, haveExclusive: bool, noexcl: bool, dirty: nat -> bool)
        returns (childState: State, wb: bool, sent: seq<nat>)
      requires Valid() && lineId < entries.Length && childId < numChildren && childId !in entries[lineId].sharers
      modifies entries
      ensures Valid() && wb == SomeDirty(sent, dirty)
      ensures var e := old(entries[lineId]); var excl := e.IsEmpty() && haveExclusive && !noexcl;
        && sent == (if !excl && e.IsExclusive() then Below(e.sharers, numChildren) else [])
        && childState == (if excl then E else S)
        && entries[..] == old(entries[..])[lineId := Entry(e.sharers + {childId}, e.numSharers + 1, excl)]
    {
      assert EntryOk(entries[lineId]);
      wb, sent := false, [];
      if entries[lineId].IsEmpty() && haveExclusive && !noexcl {
        entries[lineId] := Entry(entries[lineId].sharers + {childId}, 1, true);
        childState := E;
      } else {
        if entries[lineId].IsExclusive() { wb, sent := SendInvalidates(lineId, INVX, false, dirty); }
        assert !entries[lineId].IsExclusive();
        entries[lineId] := entries[lineId].Add(childId, false);
        childState := S;
      }
    }

    /** A get for sharing. Either the protocol answers at once, or it sweeps the
        exclusive child first and answers then. */
    method ProcessGetS(lineId: nat, childId: nat, haveExclusive: bool, noexcl: bool, dirty: nat -> bool, ghost p: Node, ghost n: Node)
        returns (childState: State, wb: bool, sent: seq<nat>)
      requires Valid() && lineId < entries.Length && childId < numChildren && childId !in entries[lineId].sharers
      requires p.act == Dir(Req(Child(childId), GETS)) && p.dir == entries[lineId] && haveExclusive == Exclusive(p.st) && n.act.Up?
      modifies entries
      ensures Valid() && wb == SomeDirty(sent, dirty)
      ensures sent == if GetSNodes(p, childId, n, noexcl).0.act.Sweep? then Below(p.dir.sharers, numChildren) else []
      ensures entries[..] == old(entries[..])[lineId := AnswerGetS(p, childId, n, noexcl, sent, wb).0.dir]
      ensures childState == AnswerGetS(p, childId, n, noexcl, sent, wb).1.st
    {
      assert EntryOk(entries[lineId]);
      childState, wb, sent := GrantRead(lineId, childId, haveExclusive, noexcl, dirty);
      GetSMeets(p, childId, n, noexcl, wb, numChildren);
    }

    lemma Others(e: Entry, c: nat)
      requires EntryOk(e)
      ensures var e' := if c in e.sharers then e.Drop(c) else e; EntryOk(e') && e'.sharers == e.sharers - {c}
    {
    }

    /** An upgrading child comes off the directory first. */
    method DropChild(lineId: nat, childId: nat)
      requires Valid() && lineId < entries.Length
      modifies entries
      ensures Valid() && entries[lineId].sharers == old(entries[lineId]).sharers - {childId}
      ensures forall i: nat | i < entries.Length && i != lineId :: entries[i] == old(entries[i])
    {
      assert EntryOk(entries[lineId]);
      Others(entries[lineId], childId);
      if childId in entries[lineId].sharers {
        entries[lineId] := entries[lineId].Drop(childId);
      }
    }

    /** The grant of a write: all other copies go, and the child is the exclusive one. */
    method GrantWrite(lineId: nat, childId: nat, dirty: nat -> bool) returns (childState: State, wb: bool, sent: seq<nat>)
      requires Valid() && lineId < entries.Length && childId < numChildren
      requires childId in entries[lineId].sharers ==> !entries[lineId].IsExclusive()
      modifies entries
      ensures Valid() && wb == SomeDirty(sent, dirty) && childState == M
      ensures sent == Below(old(entries[lineId]).sharers - {childId}, numChildren)
      ensures entries[..] == old(entries[..])[lineId := Entry({childId}, 1, true)]
    {
      DropChild(lineId, childId);
      wb, sent := SendInvalidates(lineId, INV, false, dirty);
      entries[lineId] := entries[lineId].Add(childId, true);
      assert entries[lineId].numSharers == 1;  // the source's assertion
      assert entries[lineId].sharers == {childId};
      assert entries[..] == old(entries[..])[lineId := Entry({childId}, 1, true)];
      childState := M;
    }

    /** A get for writing meets the protocol's answer after its sweep. */
    method ProcessGetX(lineId: nat, childId: nat, dirty: nat -> bool, ghost p: Node, ghost n: Node)
        returns (childState: State, wb: bool, sent: seq<nat>)
      requires Valid() && lineId < entries.Length && childId < numChildren
      requires childId in entries[lineId].sharers ==> !entries[lineId].IsExclusive()
      requires p.act == Dir(Req(Child(childId), GETX)) && p.dir == entries[lineId] && Exclusive(p.st) && n.act.Up?
      modifies entries
      ensures Valid() && wb == SomeDirty(sent, dirty)
      ensures sent == Below(p.dir.sharers - {childId}, numChildren)
      ensures entries[..] == old(entries[..])[lineId := AnswerGetX(p, childId, n, sent, wb).0.dir]
      ensures childState == AnswerGetX(p, childId, n, sent, wb).1.st
    {
      assert EntryOk(entries[lineId]);
      childState, wb, sent := GrantWrite(lineId, childId, dirty);
      GetXMeets(p, childId, n, wb, numChildren);
    }
  }
}
