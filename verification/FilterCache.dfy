/** The L0 filter in front of a set-associative L1: skipping filtered accesses
    leaves the L1 exactly as if each had been sent to it. */
module FilterCaches {
  import opened Mesi

  /** A tag and its coherence state; a set lists its ways by recency. */
  datatype Line = Line(addr: nat, state: State)

  type Ways = seq<Line>

  /** The way that holds an address, or -1. */
  function Find(s: Ways, p: nat): (i: int)
    ensures -1 <= i < |s|
    ensures i >= 0 ==> s[i].addr == p
    ensures forall j | 0 <= j < (if i >= 0 then i else |s|) :: s[j].addr != p
  {
    if s == [] then -1
    else if s[0].addr == p then 0
    else
      var i := Find(s[1..], p);
      if i < 0 then -1 else i + 1
  }

  /** The state after an access; exclusive says what the parent grants a GETS. */
  function Granted(state: State, load: bool, exclusive: bool): State {
    if !load then M
    else if state == I then (if exclusive then E else S)
    else state
  }

  /** An L1 access to a set: the line comes first, in place of a victim on a miss.
      pick is any replacement policy on the recency-ordered ways. */
  function Accessed(s: Ways, p: nat, load: bool, exclusive: bool, pick: Ways -> nat): (s': Ways)
    ensures |s'| == |s|
  {
    if s == [] then []
    else
      var i := Find(s, p);
      var k := if i >= 0 then i else pick(s) % |s|;
      [Line(p, Granted(if i >= 0 then s[i].state else I, load, exclusive))] + s[..k] + s[k + 1..]
  }

  /** An invalidation (INV), or a downgrade to shared (INVX), of a line if present. */
  function Invalidated(s: Ways, p: nat, inv: bool): (s': Ways)
    ensures |s'| == |s|
  {
    var i := Find(s, p);
    if i < 0 then s
    else s[i := Line(p, if inv then I else if s[i].state in {E, M} then S else s[i].state)]
  }

  // ----------------------------------------------- what the L1 does, place by place

  ghost predicate Present(s: Ways, p: nat) {
    exists j :: 0 <= j < |s| && s[j].addr == p
  }

  /** k is the first place of address p. */
  ghost predicate FirstAt(s: Ways, p: nat, k: nat) {
    k < |s| && s[k].addr == p && forall j | 0 <= j < k :: s[j].addr != p
  }

  /** An access takes one place out of the recency order, the line's own on a hit
      and the policy's victim on a miss, and puts the line first; all other lines
      stay as they were and in order. A store leaves the line in M, a load of a
      valid line leaves its state alone, and any other load gets what the parent
      grants. */
  lemma AccessMoves(s: Ways, p: nat, load: bool, exclusive: bool, pick: Ways -> nat) returns (k: nat)
    requires s != []
    ensures if Present(s, p) then FirstAt(s, p, k) else k == pick(s) % |s|
    ensures var s' := Accessed(s, p, load, exclusive, pick);
      && s'[0].addr == p && s'[1..] == s[..k] + s[k + 1..]
      && (!load ==> s'[0].state == M)
      && (load && Present(s, p) && s[k].state != I ==> s'[0].state == s[k].state)
      && (load && !(Present(s, p) && s[k].state != I) ==> s'[0].state == if exclusive then E else S)
  {
    var i := Find(s, p);
    k := if i >= 0 then i else pick(s) % |s|;
  }

  /** An invalidation changes the first line of the address and no other: INV to I,
      INVX to S if it was exclusive. */
  lemma InvalidationAt(s: Ways, p: nat, inv: bool, j: nat)
    requires j < |s|
    ensures var s' := Invalidated(s, p, inv);
      if FirstAt(s, p, j) && (inv || Exclusive(s[j].state)) then s'[j] == Line(p, if inv then I else S) else s'[j] == s[j]
  {
  }

  ghost predicate Behind(s: Ways, i: nat, j: nat)
    requires i < j < |s|
  {
    s[i].addr == s[j].addr ==> s[j].state == I
  }

  /** A set holds no two valid copies of an address, and a stale one only behind. */
  ghost predicate OneCopy(s: Ways) {
    forall i: nat, j: nat {:trigger Behind(s, i, j)} | i < j < |s| :: Behind(s, i, j)
  }

  lemma AccessKeepsOneCopy(s: Ways, p: nat, load: bool, exclusive: bool, pick: Ways -> nat)
    requires OneCopy(s)
    ensures OneCopy(Accessed(s, p, load, exclusive, pick))
  {
    if s != [] {
      var k := AccessMoves(s, p, load, exclusive, pick);
      var s' := Accessed(s, p, load, exclusive, pick);
      forall i: nat, j: nat | i < j < |s'| ensures Behind(s', i, j) {
        var j0 := if j - 1 < k then j - 1 else j;
        assert s'[j] == s'[1..][j - 1] == s[j0];
        if i > 0 {
          var i0 := if i - 1 < k then i - 1 else i;
          assert s'[i] == s'[1..][i - 1] == s[i0] && Behind(s, i0, j0);
        } else if s[j0].addr == p {
          assert Behind(s, k, j0);
        }
      }
    }
  }

  lemma InvalidationKeepsOneCopy(s: Ways, p: nat, inv: bool)
    requires OneCopy(s)
    ensures OneCopy(Invalidated(s, p, inv))
    ensures forall l | l in Invalidated(s, p, inv) && l.addr == p :: !Exclusive(l.state) && (inv ==> l.state == I)
  {
    var s' := Invalidated(s, p, inv);
    forall i: nat, j: nat | i < j < |s'| ensures Behind(s', i, j) {
      InvalidationAt(s, p, inv, i);
      InvalidationAt(s, p, inv, j);
      assert Behind(s, i, j);
    }
    forall l | l in s' && l.addr == p ensures !Exclusive(l.state) && (inv ==> l.state == I) {
      var j: nat :| j < |s'| && s'[j] == l;
      InvalidationAt(s, p, inv, j);
      if !FirstAt(s, p, j) {
        var i: nat :| i < j && s[i].addr == p;
        assert Behind(s, i, j);
      }
    }
  }

  /** The line is the most recent of its set, and valid for a load or modified for
      a store. */
  predicate Repeats(s: Ways, p: nat, load: bool) {
    s != [] && s[0].addr == p && if load then s[0].state != I else s[0].state == M
  }

  /** Those are the accesses that change nothing. */
  lemma RepeatedAccess(s: Ways, p: nat, load: bool, exclusive: bool, pick: Ways -> nat)
    requires s != []
    ensures Accessed(s, p, load, exclusive, pick) == s <==> Repeats(s, p, load)
  {
    var s' := Accessed(s, p, load, exclusive, pick);
    assert s == [s[0]] + s[1..];
    assert s'[0].addr == p && (s[0].addr == p ==> s'[0].state == Granted(s[0].state, load, exclusive));
  }

  lemma Times(n: nat, a: int, b: int)
    requires a <= b
    ensures a * n <= b * n
  {
  }

  lemma Remainder(q: nat, r: nat, n: nat)
    requires r < n
    ensures (q * n + r) % n == r
  {
    var d, e := (q * n + r) / n, (q * n + r) % n;
    assert q * n + r == d * n + e;
    if q < d { Times(n, q + 1, d); } else if d < q { Times(n, d + 1, q); }
  }

  class FilterCache {
    const numSets: nat
    const procMask: nat
    const pick: Ways -> nat
    const rdAddr: array<int>
    const wrAddr: array<int>
    /** The L1 behind the filter. */
    const sets: array<Ways>

    /** The mask's bits lie above those of any line address of the process. */
    function Phys(v: nat): nat {
      v + procMask
    }

    /** A filtered address is the most recent line of its set and readable, and
        writable too if filtered for stores. 0 is an empty filter entry. */
    ghost predicate EntryOk(rd: int, wr: int, s: Ways, i: nat)
      requires numSets > 0
    {
      && s != [] && rd >= -1 && wr >= -1
      && (rd > 0 ==> rd % numSets == i && s[0].addr == Phys(rd) && s[0].state != I)
      && (wr > 0 ==> wr == rd && s[0].state == M)
    }

    ghost predicate Valid()
      reads this, rdAddr, wrAddr, sets
    {
      && rdAddr != wrAddr && numSets > 0 && procMask % numSets == 0
      && rdAddr.Length == numSets && wrAddr.Length == numSets && sets.Length == numSets
      && forall i: nat | i < numSets :: EntryOk(rdAddr[i], wrAddr[i], sets[i], i)
    }

    constructor (numSets: nat, ways: nat, procMask: nat, pick: Ways -> nat)
      requires numSets > 0 && ways > 0 && procMask % numSets == 0
      ensures Valid() && this.numSets == numSets && this.procMask == procMask && this.pick == pick
      ensures fresh(rdAddr) && fresh(wrAddr) && fresh(sets)
      ensures forall i: nat | i < numSets :: rdAddr[i] == 0 && sets[i] == seq(ways, _ => Line(0, I))
    {
      this.numSets, this.procMask, this.pick := numSets, procMask, pick;
      rdAddr := new int[numSets](_ => 0);
      wrAddr := new int[numSets](_ => 0);
      sets := new Ways[numSets](_ => seq(ways, _ => Line(0, I)));
    }

    lemma SameSet(v: nat)
      requires numSets > 0 && procMask % numSets == 0
      ensures Phys(v) % numSets == v % numSets
    {
      var q := procMask / numSets;
      assert Phys(v) == (v / numSets + q) * numSets + v % numSets;
      Remainder(v / numSets + q, v % numSets, numSets);
    }

    /** A filter miss: access the L1, then filter the address. */
    method Replace(v: nat, isLoad: bool, exclusive: bool)
      requires Valid()
      modifies rdAddr, wrAddr, sets
      ensures Valid()
      ensures sets[..] == old(sets[..])[v % numSets := Accessed(old(sets[v % numSets]), Phys(v), isLoad, exclusive, pick)]
      ensures rdAddr[..] == old(rdAddr[..])[v % numSets := v]
      ensures wrAddr[..] == old(wrAddr[..])[v % numSets := if isLoad then -1 else v]
    {
      SameSet(v);
      var idx := v % numSets;
      sets[Phys(v) % numSets] := Accessed(sets[idx], Phys(v), isLoad, exclusive, pick);
      wrAddr[idx] := if isLoad then -1 else v;
      rdAddr[idx] := v;
    }

    /** A load. A hit leaves the L1 as if it had seen the load exactly when the line
        is the most recent of its set and valid, and so is any line but 0. */
    method Load(v: nat, exclusive: bool) returns (hit: bool)
      requires Valid()
      modifies rdAddr, wrAddr, sets
      ensures Valid() && hit == (old(rdAddr[v % numSets]) == v) && rdAddr[v % numSets] == v
      ensures hit ==> sets[..] == old(sets[..]) && rdAddr[..] == old(rdAddr[..]) && wrAddr[..] == old(wrAddr[..])
      ensures hit && v != 0 ==> Repeats(old(sets[v % numSets]), Phys(v), true)
      ensures sets[..] == old(sets[..])[v % numSets := Accessed(old(sets[v % numSets]), Phys(v), true, exclusive, pick)]
         <==> !hit || Repeats(old(sets[v % numSets]), Phys(v), true)
    {
      var idx := v % numSets;
      if v == rdAddr[idx] {
        assert EntryOk(rdAddr[idx], wrAddr[idx], sets[idx], idx);
        RepeatedAccess(sets[idx], Phys(v), true, exclusive, pick);
        assert sets[..] == sets[..][idx := sets[idx]];
        return true;
      }
      Replace(v, true, exclusive);
      return false;
    }

    /** A store, likewise. */
    method Store(v: nat, exclusive: bool) returns (hit: bool)
      requires Valid()
      modifies rdAddr, wrAddr, sets
      ensures Valid() && hit == (old(wrAddr[v % numSets]) == v) && wrAddr[v % numSets] == v
      ensures hit ==> sets[..] == old(sets[..]) && rdAddr[..] == old(rdAddr[..]) && wrAddr[..] == old(wrAddr[..])
      ensures hit && v != 0 ==> Repeats(old(sets[v % numSets]), Phys(v), false)
      ensures sets[..] == old(sets[..])[v % numSets := Accessed(old(sets[v % numSets]), Phys(v), false, exclusive, pick)]
         <==> !hit || Repeats(old(sets[v % numSets]), Phys(v), false)
    {
      var idx := v % numSets;
      if v == wrAddr[idx] {
        assert EntryOk(rdAddr[idx], wrAddr[idx], sets[idx], idx);
        RepeatedAccess(sets[idx], Phys(v), false, exclusive, pick);
        assert sets[..] == sets[..][idx := sets[idx]];
        return true;
      }
      Replace(v, false, exclusive);
      return false;
    }

    /** An invalidation or downgrade from the parent reaches the L1 untouched by
        the filter, which forgets the line. */
    method Invalidate(p: nat, inv: bool)
      requires Valid()
      modifies rdAddr, wrAddr, sets
      ensures Valid()
      ensures sets[..] == old(sets[..])[p % numSets := Invalidated(old(sets[p % numSets]), p, inv)]
      ensures forall v: nat | v != 0 && Phys(v) == p :: rdAddr[v % numSets] != v && wrAddr[v % numSets] != v
    {
      var idx := p % numSets;
      assert EntryOk(rdAddr[idx], wrAddr[idx], sets[idx], idx);
      if rdAddr[idx] >= 0 && Phys(rdAddr[idx]) == p {
        wrAddr[idx] := -1;
        rdAddr[idx] := -1;
      }
      sets[idx] := Invalidated(sets[idx], p, inv);
      forall v: nat | v != 0 && Phys(v) == p ensures rdAddr[v % numSets] != v && wrAddr[v % numSets] != v { SameSet(v); }
    }

    /** A context switch empties the filter and nothing else. */
    method ContextSwitch()
      requires Valid()
      modifies rdAddr, wrAddr
      ensures Valid() && forall i: nat | i < numSets :: rdAddr[i] == 0 && wrAddr[i] == 0
    {
      var i := 0;
      while i < numSets
        invariant i <= numSets
        invariant forall j: nat | j < i :: rdAddr[j] == 0 && wrAddr[j] == 0
        invariant forall j: nat | j < numSets :: EntryOk(rdAddr[j], wrAddr[j], sets[j], j)
      {
        rdAddr[i], wrAddr[i] := 0, 0;
        i := i + 1;
      }
    }
  }

  // -------------------------------------------------------------- any trace

  /** What the core and the parent send; virtual addresses for the core. */
  datatype Op =
    | LoadOp(v: nat, exclusive: bool)
    | StoreOp(v: nat, exclusive: bool)
    | InvalOp(p: nat, inv: bool)
    | SwitchOp

  predicate NonZero(op: Op) {
    (op.LoadOp? || op.StoreOp?) ==> op.v != 0
  }

  /** An empty filter entry takes line address 0 for its own, while the L1 has to
      do something. */
  ghost predicate FalseHit(f: FilterCache, op: Op)
    requires f.Valid()
    reads f, f.rdAddr, f.wrAddr, f.sets
  {
    match op
    case LoadOp(v, _) => v == 0 == f.rdAddr[v % f.numSets] && !Repeats(f.sets[v % f.numSets], f.Phys(v), true)
    case StoreOp(v, _) => v == 0 == f.wrAddr[v % f.numSets] && !Repeats(f.sets[v % f.numSets], f.Phys(v), false)
    case _ => false
  }

  /** One access or invalidation that reaches the L1 sets. */
  function DirectStep(sets: seq<Ways>, op: Op, mask: nat, pick: Ways -> nat): (sets': seq<Ways>)
    requires sets != []
    ensures |sets'| == |sets|
  {
    var n := |sets|;
    match op
    case LoadOp(v, exclusive) => sets[v % n := Accessed(sets[v % n], v + mask, true, exclusive, pick)]
    case StoreOp(v, exclusive) => sets[v % n := Accessed(sets[v % n], v + mask, false, exclusive, pick)]
    case InvalOp(p, inv) => sets[p % n := Invalidated(sets[p % n], p, inv)]
    case SwitchOp => sets
  }

  /** The L1 sets after a trace in which every access reaches them. */
  function Direct(sets: seq<Ways>, ops: seq<Op>, mask: nat, pick: Ways -> nat): (sets': seq<Ways>)
    requires sets != []
    ensures |sets'| == |sets|
  {
    if ops == [] then sets
    else DirectStep(Direct(sets, ops[..|ops| - 1], mask, pick), ops[|ops| - 1], mask, pick)
  }

  ghost predicate OneCopies(sets: seq<Ways>) {
    forall i: nat | i < |sets| :: OneCopy(sets[i])
  }

  /** No set holds a copy of the line that the parent has just taken away. */
  ghost predicate Revoked(sets: seq<Ways>, op: Op)
    requires sets != []
  {
    op.InvalOp? ==>
      forall l | l in sets[op.p % |sets|] && l.addr == op.p :: !Exclusive(l.state) && (op.inv ==> l.state == I)
  }

  lemma StepOneCopies(sets: seq<Ways>, op: Op, mask: nat, pick: Ways -> nat)
    requires sets != [] && OneCopies(sets)
    ensures OneCopies(DirectStep(sets, op, mask, pick)) && Revoked(DirectStep(sets, op, mask, pick), op)
  {
    match op {
      case LoadOp(v, exclusive) =>
        AccessKeepsOneCopy(sets[v % |sets|], v + mask, true, exclusive, pick);
      case StoreOp(v, exclusive) =>
        AccessKeepsOneCopy(sets[v % |sets|], v + mask, false, exclusive, pick);
      case InvalOp(p, inv) =>
        InvalidationKeepsOneCopy(sets[p % |sets|], p, inv);
      case SwitchOp =>
    }
  }

  /** No trace makes the L1 hold two valid copies of an address, and after an
      invalidation the line is not held. */
  lemma {:induction false} DirectOneCopy(sets: seq<Ways>, ops: seq<Op>, mask: nat, pick: Ways -> nat)
    requires sets != [] && OneCopies(sets)
    ensures OneCopies(Direct(sets, ops, mask, pick))
    ensures ops != [] ==> Revoked(Direct(sets, ops, mask, pick), ops[|ops| - 1])
  {
    if ops != [] {
      DirectOneCopy(sets, ops[..|ops| - 1], mask, pick);
      StepOneCopies(Direct(sets, ops[..|ops| - 1], mask, pick), ops[|ops| - 1], mask, pick);
    }
  }

  /** The L1 ends up as if it had seen the operation, except on a false hit. */
  method Perform(f: FilterCache, op: Op)
    requires f.Valid()
    modifies f.rdAddr, f.wrAddr, f.sets
    ensures f.Valid()
    ensures f.sets[..] == DirectStep(old(f.sets[..]), op, f.procMask, f.pick) <==> !old(FalseHit(f, op))
  {
    match op {
      case LoadOp(v, exclusive) => var hit := f.Load(v, exclusive);
      case StoreOp(v, exclusive) => var hit := f.Store(v, exclusive);
      case InvalOp(p, inv) => f.Invalidate(p, inv);
      case SwitchOp => f.ContextSwitch();
    }
  }

  /** Any trace without false hits, run through the filter, leaves the L1 with the
      lines, states and recency order of the unfiltered trace; a trace over
      non-zero line addresses has none. */
  method RunTrace(f: FilterCache, ops: seq<Op>) returns (ghost exact: bool)
    requires f.Valid()
    modifies f.rdAddr, f.wrAddr, f.sets
    ensures f.Valid()
    ensures exact ==> f.sets[..] == Direct(old(f.sets[..]), ops, f.procMask, f.pick)
    ensures (forall op | op in ops :: NonZero(op)) ==> exact
  {
    ghost var start := f.sets[..];
    var k := 0;
    exact := true;
    while k < |ops|
      invariant k <= |ops| && f.Valid()
      invariant exact ==> f.sets[..] == Direct(start, ops[..k], f.procMask, f.pick)
      invariant exact || exists op :: op in ops && !NonZero(op)
    {
      assert ops[k] in ops && ops[..k + 1][..k] == ops[..k];
      exact := exact && !FalseHit(f, ops[k]);
      Perform(f, ops[k]);
      k := k + 1;
    }
    assert ops[..k] == ops;
  }

  /** Line address 0 is the empty filter entry: right after a context switch an
      access to it always hits, which is right exactly when it repeats the last
      one to its set. */
  method ZeroAfterSwitch(f: FilterCache, load: bool, exclusive: bool) returns (hit: bool)
    requires f.Valid()
    modifies f.rdAddr, f.wrAddr, f.sets
    ensures f.Valid() && hit
    ensures f.sets[..] == old(f.sets[..])[0 := Accessed(old(f.sets[0]), f.procMask, load, exclusive, f.pick)]
       <==> Repeats(old(f.sets[0]), f.procMask, load)
  {
    f.ContextSwitch();
    if load { hit := f.Load(0, exclusive); } else { hit := f.Store(0, exclusive); }
  }

  /** So the first load of line 0 hits although the L1 holds nothing. */
  method AddressZeroHits() returns (hit: bool, present: bool)
    ensures hit && !present
  {
    var f := new FilterCache(1, 1, 0, _ => 0);
    assert f.rdAddr[0] == 0 && f.sets[..][0] == [Line(0, I)];
    hit := f.Load(0, true);
    assert f.sets[0] == f.sets[..][0];
    present := f.sets[0][0].state != I;
  }
}
