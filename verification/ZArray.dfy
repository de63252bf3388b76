/** The zcache array: a map from addresses to line ids kept in a table of
    positions, where a replacement moves lines along a chain of positions. */
module ZArrays {
  import opened Sequences
  import opened ZWalk
  import opened ZCandidates

  // ---------------------------------------------------- the map it stands for

  ghost function IndexOf(s: seq<nat>, a: nat): (i: nat)
    requires a in s
    ensures i < |s| && s[i] == a
  {
    var i :| 0 <= i < |s| && s[i] == a;
    i
  }

  /** The resident addresses and their line ids; address 0 marks a free line. */
  ghost function Contents(lines: seq<nat>): map<nat, nat> {
    map a | a in lines && a != 0 :: IndexOf(lines, a)
  }

  lemma ContentsAt(lines: seq<nat>, i: nat)
    requires Unique(lines) && i < |lines| && lines[i] != 0
    ensures lines[i] in Contents(lines) && Contents(lines)[lines[i]] == i
  {
    assert Apart(lines, i, IndexOf(lines, lines[i]));
  }

  /** Overwriting one line replaces its address in the map and nothing else. */
  lemma ContentsReplaced(lines: seq<nat>, victim: nat, addr: nat)
    requires Unique(lines) && victim < |lines| && addr != 0 && addr !in lines
    ensures Unique(lines[victim := addr])
    ensures Contents(lines[victim := addr]) == (Contents(lines) - {lines[victim]})[addr := victim]
  {
    var after := lines[victim := addr];
    assert after[victim] == addr;
    forall i: nat, j: nat | i < |after| && j < |after| ensures Apart(after, i, j) {
      if i != victim && j != victim { assert Apart(lines, i, j); }
    }
    ContentsAt(after, victim);
    forall a | a in Contents(lines) - {lines[victim]}
      ensures a in Contents(after) && Contents(after)[a] == Contents(lines)[a]
    {
      assert after[IndexOf(lines, a)] == a;
      ContentsAt(after, IndexOf(lines, a));
    }
    forall a | a in Contents(after) && a != addr ensures a in Contents(lines) - {lines[victim]} {
      assert lines[IndexOf(after, a)] == a && Apart(lines, IndexOf(after, a), victim);
    }
    assert Contents(after).Keys == ((Contents(lines) - {lines[victim]})[addr := victim]).Keys;
  }

  // --------------------------------------------------------------- relocation

  ghost predicate Moved(look: seq<nat>, look': seq<nat>, ps: seq<nat>, i: nat)
    requires i + 1 < |ps| && ps[i] < |look'| && ps[i + 1] < |look|
  {
    look'[ps[i]] == look[ps[i + 1]]
  }

  /** Every position of the chain takes the next one's line, and the last one
      takes the first one's. */
  ghost predicate Shifted(look: seq<nat>, look': seq<nat>, ps: seq<nat>)
    requires ps != [] && forall i | 0 <= i < |ps| :: ps[i] < |look|
  {
    && |look'| == |look|
    && (forall i: nat {:trigger Moved(look, look', ps, i)} | i + 1 < |ps| :: Moved(look, look', ps, i))
    && look'[ps[|ps| - 1]] == look[ps[0]]
    && (forall p: nat | p < |look| && p !in ps :: look'[p] == look[p])
  }

  /** Where the line now at p was before the shift. */
  ghost function Source(ps: seq<nat>, p: nat): nat {
    if p !in ps then p
    else
      var i := IndexOf(ps, p);
      if i + 1 < |ps| then ps[i + 1] else ps[0]
  }

  lemma SourceInjective(ps: seq<nat>, p: nat, q: nat)
    requires Distinct(ps) && Source(ps, p) == Source(ps, q)
    ensures p == q
  {
    if p in ps && q in ps {
      var i, j := IndexOf(ps, p), IndexOf(ps, q);
      var k, l := if i + 1 < |ps| then i + 1 else 0, if j + 1 < |ps| then j + 1 else 0;
      if k != l { DistinctAt(ps, k, l); }
    }
  }

  lemma SourceOnto(ps: seq<nat>, q: nat) returns (p: nat)
    requires Distinct(ps)
    ensures Source(ps, p) == q && (p in ps <==> q in ps)
  {
    if q in ps {
      var i := IndexOf(ps, q);
      var k := if i == 0 then |ps| - 1 else i - 1;
      p := ps[k];
      if IndexOf(ps, p) != k { DistinctAt(ps, IndexOf(ps, p), k); }
    } else {
      p := q;
    }
  }

  lemma ShiftedBySource(look: seq<nat>, look': seq<nat>, ps: seq<nat>, p: nat)
    requires ps != [] && (forall i | 0 <= i < |ps| :: ps[i] < |look|)
    requires Shifted(look, look', ps) && Distinct(ps) && p < |look|
    ensures Source(ps, p) < |look| && look'[p] == look[Source(ps, p)]
  {
    if p in ps {
      var i := IndexOf(ps, p);
      if i + 1 < |ps| { assert Moved(look, look', ps, i); }
    }
  }

  lemma ShiftKeepsPerm(look: seq<nat>, look': seq<nat>, ps: seq<nat>)
    requires ps != [] && (forall i | 0 <= i < |ps| :: ps[i] < |look|)
    requires Shifted(look, look', ps) && Distinct(ps) && Perm(look)
    ensures Perm(look')
  {
    forall p: nat | p < |look'| ensures look'[p] < |look'| { ShiftedBySource(look, look', ps, p); }
    forall p: nat, q: nat | p < q < |look'| ensures Differ(look', p, q) {
      ShiftedBySource(look, look', ps, p);
      ShiftedBySource(look, look', ps, q);
      if Source(ps, p) == Source(ps, q) { SourceInjective(ps, p, q); }
      DistinctAt(look, Source(ps, p), Source(ps, q));
    }
    forall i: nat | i < |look'| ensures i in look' {
      var q := IndexOf(look, i);
      var p := SourceOnto(ps, q);
      if p !in ps { assert p == q; }
      ShiftedBySource(look, look', ps, p);
      assert look'[p] == i;
    }
  }

  lemma ShiftKeepsPlaced(g: Geometry, look: seq<nat>, lines: seq<nat>, addr: nat, victim: nat, ps: seq<nat>, look': seq<nat>)
    requires Consistent(g, look, lines) && Relocates(g, look, lines, addr, victim, ps)
    requires Shifted(look, look', ps) && Perm(look') && victim < |lines|
    ensures Placed(g, look', lines[victim := addr])
  {
    var after := lines[victim := addr];
    forall p: nat | p < |look'| && after[look'[p]] != 0 ensures g.Hashes(p, after[look'[p]]) {
      if p in ps {
        var i := IndexOf(ps, p);
        if i + 1 < |ps| {
          assert Moved(look, look', ps, i) && MayTake(g, look, lines, ps, i);
          DistinctAt(ps, i + 1, 0);
          DistinctAt(look, ps[i + 1], ps[0]);
        }
      } else {
        assert look'[p] == look[p] && ps[0] in ps;
        DistinctAt(look, p, ps[0]);
      }
    }
  }

  // ---------------------------------------------------------------- the array

  datatype Found = Panicked | Miss | Hit(id: nat)

  /** The first candidate that shows line id. */
  ghost function FirstIndex(cs: seq<WalkInfo>, id: nat): (i: nat)
    requires exists i :: 0 <= i < |cs| && cs[i].lineId == id
    ensures i < |cs| && cs[i].lineId == id && First(cs, i)
  {
    if cs[0].lineId == id then 0
    else
      assert exists i :: 0 <= i < |cs[1..]| && cs[1..][i].lineId == id by {
        var i :| 0 <= i < |cs| && cs[i].lineId == id;
        assert cs[1..][i - 1].lineId == id;
      }
      var i := FirstIndex(cs[1..], id);
      assert forall j | 0 <= j < i + 1 :: cs[j].lineId != id by {
        forall j | 0 <= j < i + 1 ensures cs[j].lineId != id {
          if j > 0 { assert cs[j] == cs[1..][j - 1]; }
        }
      }
      1 + i
  }

  lemma FreshConsistent(g: Geometry, look: seq<nat>, lines: seq<nat>)
    requires g.Valid() && |look| == |lines| == g.ways * g.numSets
    requires forall i: nat | i < |look| :: look[i] == i && lines[i] == 0
    ensures Consistent(g, look, lines) && Contents(lines) == map[]
  {
    forall i: nat | i < |look| ensures i in look { assert look[i] == i; }
  }

  /** A resident address is found at one of the positions it hashes to. */
  lemma ResidentAtWay(g: Geometry, look: seq<nat>, lines: seq<nat>, addr: nat) returns (w: nat)
    requires Consistent(g, look, lines) && addr in Contents(lines)
    ensures w < g.ways && g.Pos(w, addr) < |look| && lines[look[g.Pos(w, addr)]] == addr
  {
    var p := IndexOf(look, IndexOf(lines, addr));
    assert g.Hashes(p, lines[look[p]]);
    w :| w < g.ways && p == g.Pos(w, addr);
  }

  lemma NotAtAnyWay(g: Geometry, look: seq<nat>, lines: seq<nat>, addr: nat)
    requires Consistent(g, look, lines)
    requires forall v: nat | v < g.ways :: g.Pos(v, addr) < |look| && lines[look[g.Pos(v, addr)]] != addr
    ensures addr !in Contents(lines)
  {
    if addr in Contents(lines) { var w := ResidentAtWay(g, look, lines, addr); }
  }

  lemma PostinsertKeeps(g: Geometry, look: seq<nat>, lines: seq<nat>, addr: nat, victim: nat, ps: seq<nat>, look': seq<nat>)
    requires Consistent(g, look, lines) && Relocates(g, look, lines, addr, victim, ps)
    requires victim < |lines| && addr != 0 && addr !in Contents(lines) && Shifted(look, look', ps)
    ensures Consistent(g, look', lines[victim := addr])
    ensures Contents(lines[victim := addr]) == (Contents(lines) - {lines[victim]})[addr := victim]
  {
    ShiftKeepsPerm(look, look', ps);
    ShiftKeepsPlaced(g, look, lines, addr, victim, ps, look');
    ContentsReplaced(lines, victim, addr);
  }

  /** The in-place shift along the first n entries of swaps. */
  method ShiftLines(look: array<nat>, swaps: array<nat>, n: nat, victim: nat)
    requires look != swaps && 0 < n <= swaps.Length && Distinct(swaps[..n])
    requires forall i | 0 <= i < n :: swaps[i] < look.Length
    requires look[swaps[0]] == victim
    modifies look
    ensures Shifted(old(look[..]), look[..], swaps[..n])
  {
    ghost var was, ps := look[..], swaps[..n];
    var i := 0;
    while i < n - 1
      invariant 0 <= i < n && swaps[..n] == ps
      invariant forall j: nat {:trigger Moved(was, look[..], ps, j)} | j < i :: Moved(was, look[..], ps, j)
      invariant forall j | i <= j < n :: look[ps[j]] == was[ps[j]]
      invariant forall p: nat | p < |was| && p !in ps :: look[p] == was[p]
    {
      ghost var before := look[..];
      assert swaps[i] == ps[i] && swaps[i + 1] == ps[i + 1];
      look[swaps[i]] := look[swaps[i + 1]];
      forall j: nat | j < n && j != i ensures look[ps[j]] == before[ps[j]] { DistinctAt(ps, j, i); }
      forall j: nat | j < i + 1 ensures Moved(was, look[..], ps, j) {
        if j < i { assert Moved(was, before, ps, j); }
      }
      i := i + 1;
    }
    ghost var before := look[..];
    look[swaps[n - 1]] := victim;
    forall j: nat | j + 1 < n ensures Moved(was, look[..], ps, j) {
      assert Moved(was, before, ps, j);
      DistinctAt(ps, j, n - 1);
    }
  }

  /** Breadth-first walk from the seeds: the source's loops, which write every
      child and only count it when it is not the line being expanded. */
  method FillSeeds(g: Geometry, look: array<nat>, lines: array<nat>, addr: nat, cs: array<WalkInfo>)
    returns (allValid: bool)
    requires g.Valid() && look.Length == lines.Length == g.ways * g.numSets && g.ways <= cs.Length
    requires forall p | 0 <= p < look.Length :: look[p] < lines.Length
    modifies cs
    ensures cs[..g.ways] == Seeds(g, look[..], addr, g.ways)
    ensures allValid == AllValid(lines[..], cs[..g.ways])
  {
    allValid := true;
    var w := 0;
    while w < g.ways
      invariant 0 <= w <= g.ways
      invariant cs[..w] == Seeds(g, look[..], addr, w)
      invariant allValid == AllValid(lines[..], cs[..w])
    {
      PosInRange(g, w, addr);
      var pos := g.Pos(w, addr);
      var lineId := look[pos];
      cs[w] := WalkInfo(pos, lineId, -1);
      allValid := allValid && lines[lineId] != 0;
      assert cs[..w + 1] == cs[..w] + [cs[w]];
      w := w + 1;
    }
  }

  lemma AllValidSnoc(lines: seq<nat>, cs: seq<WalkInfo>, c: WalkInfo)
    ensures AllValid(lines, cs + [c]) <==> AllValid(lines, cs) && c.lineId < |lines| && lines[c.lineId] != 0
  {
    assert (cs + [c])[|cs|] == c;
    assert forall i | 0 <= i < |cs| :: (cs + [c])[i] == cs[i];
  }

  method ExpandOne(g: Geometry, look: array<nat>, lines: array<nat>, cs: array<WalkInfo>, num: nat, f: nat, valid: bool)
    returns (num': nat, allValid: bool)
    requires g.Valid() && look.Length == lines.Length == g.ways * g.numSets
    requires forall p | 0 <= p < look.Length :: look[p] < lines.Length
    requires f < num && num + g.ways <= cs.Length
    requires valid && AllValid(lines[..], cs[..num])
    modifies cs
    ensures var id := old(cs[f]).lineId;
      && id < lines.Length && num <= num' <= num + g.ways
      && cs[..num'] == old(cs[..num]) + Children(g, look[..], lines[id], id, f, g.ways)
    ensures allValid == AllValid(lines[..], cs[..num'])
  {
    ghost var cs0, lk, ls := cs[..num], look[..], lines[..];
    assert cs0[f] == cs[f];
    var fringeId := cs[f].lineId;
    var fringeAddr := lines[fringeId];
    num', allValid := num, valid;
    var w := 0;
    while w < g.ways
      invariant 0 <= w <= g.ways && num <= num' <= num + w && look[..] == lk && lines[..] == ls
      invariant cs[..num'] == cs0 + Children(g, lk, fringeAddr, fringeId, f, w)
      invariant allValid == AllValid(ls, cs[..num'])
    {
      PosInRange(g, w, fringeAddr);
      var pos := g.Pos(w, fringeAddr);
      var lineId := look[pos];
      ghost var before := cs[..num'];
      cs[num'] := WalkInfo(pos, lineId, f);
      allValid := allValid && lines[lineId] != 0;
      ghost var c, ch := WalkInfo(pos, lineId, f), Children(g, lk, fringeAddr, fringeId, f, w);
      if lineId != fringeId {
        num' := num' + 1;
        assert cs[..num'] == before + [c] == cs0 + (ch + [c]);
        AllValidSnoc(ls, before, c);
      } else {
        assert cs[..num'] == before && cs0[f].lineId == lineId;
      }
      w := w + 1;
    }
  }

  lemma GrowStep(g: Geometry, look: seq<nat>, lines: seq<nat>, addr: nat, cs: seq<WalkInfo>, f: nat, cands: nat)
    requires Consistent(g, look, lines) && WalkOk(g, look, lines, addr, cs, f)
    requires |cs| < cands && AllValid(lines, cs)
    ensures var cs' := cs + Children(g, look, lines[cs[f].lineId], cs[f].lineId, f, g.ways);
      && |cs| < |cs'| < |cs| + g.ways && WalkOk(g, look, lines, addr, cs', f + 1)
      && Grow(g, look, lines, addr, cs', f + 1, cands) == Grow(g, look, lines, addr, cs, f, cands)
  {
    ExpandOk(g, look, lines, addr, cs, f);
  }

  /** One turn of the walk's outer loop, against the walk it implements. */
  method GrowOne(g: Geometry, look: array<nat>, lines: array<nat>, ghost addr: nat, cs: array<WalkInfo>, num: nat, f: nat, cands: nat)
    returns (num': nat, allValid: bool)
    requires Consistent(g, look[..], lines[..]) && num <= cs.Length
    requires WalkOk(g, look[..], lines[..], addr, cs[..num], f)
    requires num < cands && AllValid(lines[..], cs[..num]) && cs.Length == cands + g.ways
    modifies cs
    ensures num < num' < cands + g.ways
    ensures WalkOk(g, look[..], lines[..], addr, cs[..num'], f + 1)
    ensures Grow(g, look[..], lines[..], addr, cs[..num'], f + 1, cands)
         == Grow(g, look[..], lines[..], addr, old(cs[..num]), f, cands)
    ensures allValid == AllValid(lines[..], cs[..num'])
  {
    GrowStep(g, look[..], lines[..], addr, cs[..num], f, cands);
    assert cs[..num][f] == cs[f];
    assert forall p | 0 <= p < look.Length :: look[p] == look[..][p];
    num', allValid := ExpandOne(g, look, lines, cs, num, f, true);
  }

  /** The walk's outer loop, from the seeds. */
  method GrowAll(g: Geometry, look: array<nat>, lines: array<nat>, ghost addr: nat, cs: array<WalkInfo>, valid: bool, cands: nat)
    returns (num: nat)
    requires Consistent(g, look[..], lines[..]) && g.ways <= cands && cs.Length == cands + g.ways
    requires WalkOk(g, look[..], lines[..], addr, cs[..g.ways], 0) && valid == AllValid(lines[..], cs[..g.ways])
    modifies cs
    ensures g.ways <= num < cands + g.ways
    ensures cs[..num] == Grow(g, look[..], lines[..], addr, old(cs[..g.ways]), 0, cands)
  {
    ghost var lk, ls, seeds := look[..], lines[..], cs[..g.ways];
    var allValid, fringeStart := valid, 0;
    num := g.ways;
    while num < cands && allValid
      invariant g.ways <= num < cands + g.ways
      invariant WalkOk(g, lk, ls, addr, cs[..num], fringeStart)
      invariant allValid == AllValid(ls, cs[..num])
      invariant Grow(g, lk, ls, addr, cs[..num], fringeStart, cands) == Grow(g, lk, ls, addr, seeds, 0, cands)
      decreases cands - num
    {
      num, allValid := GrowOne(g, look, lines, addr, cs, num, fringeStart, cands);
      fringeStart := fringeStart + 1;
    }
  }

  /** Cutting a walk off after the candidates in use changes no chain. */
  lemma {:induction false} ChainPrefix(cs: seq<WalkInfo>, n: nat, idx: int)
    requires idx < n <= |cs|
    ensures Chain(cs[..n], idx) == Chain(cs, idx)
    decreases idx + 1
  {
    if idx >= 0 && cs[idx].parentIdx < idx { ChainPrefix(cs, n, cs[idx].parentIdx); }
  }

  lemma FirstIndexUnique(cs: seq<WalkInfo>, i: nat)
    requires i < |cs| && First(cs, i)
    ensures FirstIndex(cs, cs[i].lineId) == i
  {
  }

  lemma FirstPrefix(r: seq<WalkInfo>, n: nat, i: nat)
    requires i < n <= |r| && First(r[..n], i)
    ensures First(r, i) && r[..n][i] == r[i]
  {
    assert forall j | 0 <= j <= i :: r[j] == r[..n][j];
  }

  /** The chain of a candidate among the first n of a walk. */
  lemma CutRelocates(g: Geometry, look: seq<nat>, lines: seq<nat>, addr: nat, r: seq<WalkInfo>, f: nat, n: nat, i: nat)
    requires Consistent(g, look, lines) && WalkOk(g, look, lines, addr, r, f)
    requires i < n <= |r| && First(r[..n], i)
    ensures Relocates(g, look, lines, addr, r[..n][i].lineId, Chain(r[..n], i))
    ensures (|Chain(r[..n], i)| - 1) * g.ways <= i
  {
    FirstPrefix(r, n, i);
    ChainPrefix(r, n, i);
    ChainRelocates(g, look, lines, addr, r, f, i);
    ChainShort(g, look, lines, addr, r, f, i);
  }

  /** The candidates are the first n of a finished walk. */
  lemma FinishedWalk(g: Geometry, look: seq<nat>, lines: seq<nat>, addr: nat, cands: nat) returns (r: seq<WalkInfo>, f: nat, n: nat)
    requires Consistent(g, look, lines) && g.ways <= cands
    ensures WalkOk(g, look, lines, addr, r, f) && n <= |r| && n <= cands
    ensures Candidates(g, look, lines, addr, cands) == r[..n]
  {
    SeedsOk(g, look, lines, addr);
    var seeds := Seeds(g, look, addr, g.ways);
    f := GrowOk(g, look, lines, addr, seeds, 0, cands);
    r := Grow(g, look, lines, addr, seeds, 0, cands);
    n := |Candidates(g, look, lines, addr, cands)|;
  }

  /** What a replacement choice amounts to: the chain of any candidate is a
      relocation that fits the swap array. */
  lemma ChoiceRelocates(g: Geometry, look: seq<nat>, lines: seq<nat>, addr: nat, cands: nat, i: nat)
    requires Consistent(g, look, lines) && g.ways <= cands
    requires i < |Candidates(g, look, lines, addr, cands)| && First(Candidates(g, look, lines, addr, cands), i)
    ensures var cs := Candidates(g, look, lines, addr, cands);
      && |cs| <= cands && Relocates(g, look, lines, addr, cs[i].lineId, Chain(cs, i))
      && |Chain(cs, i)| <= cands / g.ways + 1
  {
    var r, f, n := FinishedWalk(g, look, lines, addr, cands);
    CutRelocates(g, look, lines, addr, r, f, n, i);
    QuotientBound(|Chain(r[..n], i)| - 1, g.ways, cands);
  }

  /** Parents come before their children. */
  lemma CandidatesPrecede(g: Geometry, look: seq<nat>, lines: seq<nat>, addr: nat, cands: nat)
    requires Consistent(g, look, lines) && g.ways <= cands
    ensures var cs := Candidates(g, look, lines, addr, cands); forall j | 0 <= j < |cs| :: cs[j].parentIdx < j
  {
    var r, f, n := FinishedWalk(g, look, lines, addr, cands);
    ParentsPrecede(g, look, lines, addr, r, f);
  }

  lemma ParentsPrecede(g: Geometry, look: seq<nat>, lines: seq<nat>, addr: nat, cs: seq<WalkInfo>, f: nat)
    requires g.Valid() && WalkOk(g, look, lines, addr, cs, f)
    ensures forall i | 0 <= i < |cs| :: cs[i].parentIdx < i
  {
    forall i | 0 <= i < |cs| ensures cs[i].parentIdx < i {
      if g.ways <= i { assert Reached(g, look, lines, cs, f, i); }
    }
  }

  lemma QuotientBound(n: nat, d: nat, m: nat)
    requires d > 0 && n * d <= m
    ensures n <= m / d
  {
    if m / d < n { TimesMono(m / d + 1, n, d); }
  }

  /** Follows parent links from idx and writes the positions it passes. */
  method RecordChain(candidates: array<WalkInfo>, num: nat, minIdx: nat, swaps: array<nat>) returns (n: nat)
    requires minIdx < num <= candidates.Length
    requires forall i | 0 <= i < num :: candidates[i].parentIdx < i
    requires |Chain(candidates[..num], minIdx)| <= swaps.Length
    modifies swaps
    ensures n <= swaps.Length && swaps[..n] == Chain(candidates[..num], minIdx)
  {
    ghost var cs := candidates[..num];
    n := 0;
    var idx: int := minIdx;
    while idx >= 0
      invariant idx < num && n <= swaps.Length
      invariant swaps[..n] + Chain(cs, idx) == Chain(cs, minIdx)
      decreases idx
    {
      assert candidates[idx] == cs[idx];
      ghost var done, rest := swaps[..n], Chain(cs, cs[idx].parentIdx);
      assert done + Chain(cs, idx) == done + [cs[idx].pos] + rest;
      swaps[n] := candidates[idx].pos;
      assert swaps[..n + 1] == done + [cs[idx].pos];
      n := n + 1;
      idx := candidates[idx].parentIdx;
    }
    assert Chain(cs, idx) == [];
  }

  /** The first candidate that shows the same line as the picked one. */
  method MinIdx(candidates: array<WalkInfo>, num: nat, picked: nat) returns (minIdx: nat)
    requires picked < num <= candidates.Length
    ensures minIdx <= picked && candidates[..num][minIdx].lineId == candidates[..num][picked].lineId
    ensures First(candidates[..num], minIdx)
  {
    minIdx := 0;
    while candidates[minIdx].lineId != candidates[picked].lineId
      invariant 0 <= minIdx <= picked
      invariant forall j | 0 <= j < minIdx :: candidates[j].lineId != candidates[picked].lineId
      decreases picked - minIdx
    {
      minIdx := minIdx + 1;
    }
  }

  class ZArray {
    const g: Geometry
    const cands: nat
    const lines: array<nat>        // line id -> address
    const lookupArray: array<nat>  // position -> line id
    const swapArray: array<nat>
    var swapArrayLen: nat
    var lastCandIdx: nat

    ghost predicate Valid()
      reads this, lines, lookupArray, swapArray
    {
      && lines != lookupArray && lines != swapArray && lookupArray != swapArray
      && Consistent(g, lookupArray[..], lines[..])
      && g.ways <= cands && swapArray.Length == cands / g.ways + 2
      && swapArrayLen <= swapArray.Length
    }

    /** preinsert has chosen victim for addr and recorded how to get there. */
    ghost predicate Pending(addr: nat, victim: nat)
      reads this, lines, lookupArray, swapArray
      requires Valid()
    {
      victim < lines.Length
      && Relocates(g, lookupArray[..], lines[..], addr, victim, swapArray[..swapArrayLen])
    }

    constructor (numLines: nat, ways: nat, candidates: nat, hash: (nat, nat) -> nat)
      requires ways > 1 && candidates >= ways && numLines > 0 && numLines % ways == 0
      ensures Valid() && Contents(lines[..]) == map[]
      ensures fresh(lines) && fresh(lookupArray) && fresh(swapArray)
      ensures g == Geometry(ways, numLines / ways, hash) && cands == candidates
    {
      g := Geometry(ways, numLines / ways, hash);
      cands := candidates;
      lookupArray := new nat[numLines](i => i);
      lines := new nat[numLines](i => 0);
      swapArray := new nat[candidates / ways + 2](i => 0);
      swapArrayLen := 0;
      lastCandIdx := 0;
      new;
      assert ways * (numLines / ways) == numLines;
      assert numLines / ways > 0;
      FreshConsistent(g, lookupArray[..], lines[..]);
    }

    /** A read-only query of the map; address 0 is a panic in the source. */
    method Lookup(addr: nat) returns (r: Found)
      requires Valid()
      ensures r == if addr == 0 then Panicked
                   else if addr in Contents(lines[..]) then Hit(Contents(lines[..])[addr])
                   else Miss
    {
      if addr == 0 { return Panicked; }
      ghost var look, ls := lookupArray[..], lines[..];
      var w := 0;
      while w < g.ways
        invariant 0 <= w <= g.ways
        invariant forall v: nat | v < w :: g.Pos(v, addr) < |look| && ls[look[g.Pos(v, addr)]] != addr
      {
        PosInRange(g, w, addr);
        var lineId := lookupArray[g.Pos(w, addr)];
        if lines[lineId] == addr {
          ContentsAt(ls, lineId);
          return Hit(lineId);
        }
        w := w + 1;
      }
      NotAtAnyWay(g, look, ls, addr);
      return Miss;
    }

    /** Walks the candidates of addr, takes the one the policy picked, and records
        the chain of positions from its first appearance back to a seed. */
    method Preinsert(addr: nat, pick: nat) returns (victim: nat, wbAddr: nat)
      requires Valid()
      modifies this`swapArrayLen, this`lastCandIdx, swapArray
      ensures Valid() && Pending(addr, victim) && wbAddr == lines[victim]
      ensures swapArrayLen <= cands / g.ways + 1
      ensures var cs := Candidates(g, lookupArray[..], lines[..], addr, cands);
        && Offered(g, lookupArray[..], lines[..], addr, cs, cands)
        && cs != [] && victim == cs[pick % |cs|].lineId && lastCandIdx < |cs|
        && lastCandIdx == FirstIndex(cs, victim)
        && swapArray[..swapArrayLen] == Chain(cs, lastCandIdx)
    {
      ghost var look, ls := lookupArray[..], lines[..];
      var candidates := new WalkInfo[cands + g.ways](i => WalkInfo(0, 0, -1));
      var num := WalkAll(addr, candidates);
      ghost var cs := candidates[..num];
      victim := candidates[pick % num].lineId;
      assert victim == cs[pick % num].lineId;
      var minIdx := MinIdx(candidates, num, pick % num);
      FirstIndexUnique(cs, minIdx);
      ChoiceRelocates(g, look, ls, addr, cands, minIdx);
      CandidatesPrecede(g, look, ls, addr, cands);
      lastCandIdx := minIdx;
      assert forall j | 0 <= j < num :: candidates[j] == cs[j];
      swapArrayLen := RecordChain(candidates, num, minIdx, swapArray);
      wbAddr := lines[victim];
    }

    /** All candidates of addr, at most cands of them. */
    method WalkAll(addr: nat, candidates: array<WalkInfo>) returns (num: nat)
      requires Valid() && candidates.Length == cands + g.ways
      modifies candidates
      ensures lines[..] == old(lines[..]) && lookupArray[..] == old(lookupArray[..])
      ensures 0 < num <= cands
      ensures candidates[..num] == Candidates(g, lookupArray[..], lines[..], addr, cands)
      ensures Offered(g, lookupArray[..], lines[..], addr, candidates[..num], cands)
      ensures num < cands ==> HasFree(lines[..], candidates[..num])
    {
      assert forall p | 0 <= p < lookupArray.Length :: lookupArray[p] == lookupArray[..][p];
      var allValid := FillSeeds(g, lookupArray, lines, addr, candidates);
      SeedsOk(g, lookupArray[..], lines[..], addr);
      num := GrowAll(g, lookupArray, lines, addr, candidates, allValid, cands);
      if num > cands {
        assert candidates[..num][..cands] == candidates[..cands];
        num := cands;
      }
      CandidatesOffered(g, lookupArray[..], lines[..], addr, cands);
    }

    /** The swaps happen in the lookup table; only the victim's address changes. */
    method Postinsert(addr: nat, victim: nat)
      requires Valid() && Pending(addr, victim)
      requires addr != 0 && addr !in Contents(lines[..])
      modifies lines, lookupArray
      ensures Valid()
      ensures Contents(lines[..]) == (old(Contents(lines[..])) - {old(lines[victim])})[addr := victim]
      ensures Shifted(old(lookupArray[..]), lookupArray[..], swapArray[..swapArrayLen])
    {
      ghost var look, ls := lookupArray[..], lines[..];
      PendingShape(addr, victim);
      ShiftLines(lookupArray, swapArray, swapArrayLen, victim);
      lines[victim] := addr;
      PostinsertKeeps(g, look, ls, addr, victim, swapArray[..swapArrayLen], lookupArray[..]);
      assert lines[..] == ls[victim := addr];
    }

    /** What a cache access does with the array: a hit changes nothing; a miss
        replaces one candidate of the walk and leaves every other line id alone. */
    method Install(addr: nat, pick: nat) returns (r: Found, ghost victim: nat)
      requires Valid()
      modifies this`swapArrayLen, this`lastCandIdx, swapArray, lines, lookupArray
      ensures Valid() && victim < lines.Length
      ensures r.Panicked? <==> addr == 0
      ensures r.Panicked? || r.Hit?
      ensures var before := old(Contents(lines[..]));
        Contents(lines[..]) ==
          if addr == 0 || addr in before then before
          else (before - {old(lines[..])[victim]})[addr := victim]
      ensures r.Hit? ==> r.id == Contents(lines[..])[addr]
      ensures addr != 0 && addr !in old(Contents(lines[..])) ==>
        var cs := old(Candidates(g, lookupArray[..], lines[..], addr, cands));
        && cs != [] && victim == cs[pick % |cs|].lineId
        && old(Offered(g, lookupArray[..], lines[..], addr, Candidates(g, lookupArray[..], lines[..], addr, cands), cands))
    {
      victim := 0;
      PositiveSize();
      r := Lookup(addr);
      if r.Miss? {
        var id, wb := Preinsert(addr, pick);
        Postinsert(addr, id);
        victim := id;
        r := Hit(id);
      }
    }

    lemma PositiveSize()
      requires Valid()
      ensures lines.Length > 0
    {
      PosInRange(g, 0, 0);
    }

    lemma PendingShape(addr: nat, victim: nat)
      requires Valid() && Pending(addr, victim)
      ensures swapArrayLen > 0 && Distinct(swapArray[..swapArrayLen])
      ensures forall i | 0 <= i < swapArrayLen :: swapArray[i] < lookupArray.Length
      ensures lookupArray[swapArray[0]] == victim
    {
      var ps := swapArray[..swapArrayLen];
      assert forall i | 0 <= i < swapArrayLen :: swapArray[i] == ps[i];
    }
  }
}
