/** The replacement walk of a zcache, on values: which candidates it visits, and
    why the chain from a victim back to a seed never repeats a line. */
module ZWalk {
  import opened Sequences

  /** ways hash functions, each into its own row of numSets positions. */
  datatype Geometry = Geometry(ways: nat, numSets: nat, hash: (nat, nat) -> nat) {
    predicate Valid() {
      ways > 1 && numSets > 0
    }

    function Pos(w: nat, addr: nat): nat
      requires Valid()
    {
      w * numSets + hash(w, addr) % numSets
    }

    /** addr may be stored at position p. */
    ghost predicate Hashes(p: nat, addr: nat)
      requires Valid()
    {
      exists w: nat :: w < ways && p == Pos(w, addr)
    }
  }

  lemma TimesMono(a: nat, b: nat, d: nat)
    requires a <= b
    ensures a * d <= b * d
  {
  }

  lemma PosInRange(g: Geometry, w: nat, addr: nat)
    requires g.Valid() && w < g.ways
    ensures g.Pos(w, addr) < g.ways * g.numSets
  {
    TimesMono(w + 1, g.ways, g.numSets);
    assert (w + 1) * g.numSets == w * g.numSets + g.numSets;
  }

  /** Row w of the array, at the set that w's hash function gives. */
  lemma PosIs(g: Geometry, w: nat, addr: nat)
    requires g.Valid()
    ensures g.Pos(w, addr) / g.numSets == w && g.Pos(w, addr) % g.numSets == g.hash(w, addr) % g.numSets
  {
    var h, n := g.hash(w, addr) % g.numSets, g.numSets;
    var q := (w * n + h) / n;
    assert q * n <= w * n + h < q * n + n;
    if q < w { TimesMono(q + 1, w, n); }
    if w < q { TimesMono(w + 1, q, n); }
  }

  lemma RowsOrdered(g: Geometry, v: nat, w: nat, a: nat, b: nat)
    requires g.Valid() && v < w
    ensures g.Pos(v, a) < g.Pos(w, b)
  {
    TimesMono(v + 1, w, g.numSets);
    assert (v + 1) * g.numSets == v * g.numSets + g.numSets;
  }

  /** look is a permutation of line ids. */
  ghost predicate Perm(look: seq<nat>) {
    && (forall p | 0 <= p < |look| :: look[p] < |look|)
    && Distinct(look)
    && (forall i: nat | i < |look| :: i in look)
  }

  /** Every stored line sits at a position its address hashes to. */
  ghost predicate Placed(g: Geometry, look: seq<nat>, lines: seq<nat>)
    requires g.Valid() && Perm(look) && |lines| == |look|
  {
    forall p: nat | p < |look| && lines[look[p]] != 0 :: g.Hashes(p, lines[look[p]])
  }

  ghost predicate Apart(lines: seq<nat>, i: nat, j: nat)
    requires i < |lines| && j < |lines|
  {
    i != j && lines[i] != 0 ==> lines[i] != lines[j]
  }

  ghost predicate Unique(lines: seq<nat>) {
    forall i: nat, j: nat {:trigger Apart(lines, i, j)} | i < |lines| && j < |lines| :: Apart(lines, i, j)
  }

  ghost predicate Consistent(g: Geometry, look: seq<nat>, lines: seq<nat>) {
    && g.Valid() && |look| == |lines| == g.ways * g.numSets
    && Perm(look) && Placed(g, look, lines) && Unique(lines)
  }

  // ------------------------------------------------------------- the walk

  datatype WalkInfo = WalkInfo(pos: nat, lineId: nat, parentIdx: int)

  function Seeds(g: Geometry, look: seq<nat>, addr: nat, n: nat): (s: seq<WalkInfo>)
    requires g.Valid() && |look| == g.ways * g.numSets && n <= g.ways
    ensures |s| == n
    ensures forall i: nat | i < n :: g.Pos(i, addr) < |look| && s[i] == WalkInfo(g.Pos(i, addr), look[g.Pos(i, addr)], -1)
  {
    if n == 0 then []
    else
      PosInRange(g, n - 1, addr);
      Seeds(g, look, addr, n - 1) + [WalkInfo(g.Pos(n - 1, addr), look[g.Pos(n - 1, addr)], -1)]
  }

  /** The children of candidate f through the first n ways: every other position
      its address hashes to. */
  function Children(g: Geometry, look: seq<nat>, addr: nat, fringeId: nat, f: nat, n: nat): (s: seq<WalkInfo>)
    requires g.Valid() && |look| == g.ways * g.numSets && n <= g.ways
    ensures |s| <= n
  {
    if n == 0 then []
    else
      PosInRange(g, n - 1, addr);
      var pos := g.Pos(n - 1, addr);
      Children(g, look, addr, fringeId, f, n - 1)
      + if look[pos] != fringeId then [WalkInfo(pos, look[pos], f)] else []
  }

  predicate AllValid(lines: seq<nat>, cs: seq<WalkInfo>) {
    forall i | 0 <= i < |cs| :: 0 < |lines| && cs[i].lineId < |lines| && lines[cs[i].lineId] != 0
  }

  /** Candidate k is a child of candidate p at position q. */
  ghost predicate HasChild(cs: seq<WalkInfo>, p: int, q: nat) {
    exists k :: 0 <= k < |cs| && cs[k].parentIdx == p && cs[k].pos == q
  }

  /** Candidate i was reached from an earlier candidate whose line may move there. */
  ghost predicate Reached(g: Geometry, look: seq<nat>, lines: seq<nat>, cs: seq<WalkInfo>, f: nat, i: nat)
    requires g.Valid() && i < |cs|
  {
    var p := cs[i].parentIdx;
    && 0 <= p < f && p + g.ways <= i && cs[p].lineId < |lines|
    && lines[cs[p].lineId] != 0 && g.Hashes(cs[i].pos, lines[cs[p].lineId])
    && cs[i].lineId != cs[p].lineId
  }

  /** Candidate p was expanded through way w. */
  ghost predicate ExpandedBy(g: Geometry, look: seq<nat>, lines: seq<nat>, cs: seq<WalkInfo>, p: nat, w: nat)
    requires g.Valid() && p < |cs|
  {
    && cs[p].lineId < |lines|
    && var q := g.Pos(w, lines[cs[p].lineId]);
       q < |look| && (look[q] != cs[p].lineId ==> HasChild(cs, p, q))
  }

  ghost predicate EntryOk(look: seq<nat>, c: WalkInfo) {
    c.pos < |look| && c.lineId == look[c.pos] < |look|
  }

  /** Candidates are expanded in turn. */
  ghost predicate InTurn(cs: seq<WalkInfo>, i: nat, j: nat)
    requires i < j < |cs|
  {
    cs[i].parentIdx <= cs[j].parentIdx
  }

  /** What a walk that has expanded its first f candidates looks like. */
  ghost predicate WalkOk(g: Geometry, look: seq<nat>, lines: seq<nat>, addr: nat, cs: seq<WalkInfo>, f: nat)
    requires g.Valid()
  {
    && |look| == |lines| == g.ways * g.numSets
    && |cs| == g.ways + f * (g.ways - 1) && f + g.ways <= |cs|
    && (forall i: nat {:trigger EntryOk(look, cs[i])} | i < |cs| :: EntryOk(look, cs[i]))
    && (forall i: nat | i < g.ways :: cs[i].parentIdx == -1 && cs[i].pos == g.Pos(i, addr))
    && (forall i {:trigger Reached(g, look, lines, cs, f, i)} | g.ways <= i < |cs| :: Reached(g, look, lines, cs, f, i))
    && (forall i: nat, j: nat {:trigger InTurn(cs, i, j)} | g.ways <= i < j < |cs| :: InTurn(cs, i, j))
    && (forall p: nat, w: nat | p < f && w < g.ways :: ExpandedBy(g, look, lines, cs, p, w))
  }

  ghost predicate ChildOf(g: Geometry, look: seq<nat>, addr: nat, fringeId: nat, f: nat, c: WalkInfo)
    requires g.Valid()
  {
    c.parentIdx == f && c.pos < |look| && c.lineId == look[c.pos] != fringeId && g.Hashes(c.pos, addr)
  }

  lemma {:induction false} ChildrenAreChildren(g: Geometry, look: seq<nat>, addr: nat, fringeId: nat, f: nat, n: nat)
    requires g.Valid() && |look| == g.ways * g.numSets && n <= g.ways
    ensures forall c | c in Children(g, look, addr, fringeId, f, n) :: ChildOf(g, look, addr, fringeId, f, c)
  {
    if n > 0 {
      ChildrenAreChildren(g, look, addr, fringeId, f, n - 1);
      PosInRange(g, n - 1, addr);
    }
  }

  /** A stored line skips exactly one way when it is expanded: its own. */
  lemma {:induction false} ChildrenCount(g: Geometry, look: seq<nat>, addr: nat, fringeId: nat, f: nat, n: nat, own: nat)
    requires g.Valid() && |look| == g.ways * g.numSets && Perm(look) && n <= g.ways
    requires own < g.ways && g.Pos(own, addr) < |look| && look[g.Pos(own, addr)] == fringeId
    ensures |Children(g, look, addr, fringeId, f, n)| == (if own < n then n - 1 else n)
  {
    if n > 0 {
      ChildrenCount(g, look, addr, fringeId, f, n - 1, own);
      PosInRange(g, n - 1, addr);
      if n - 1 < own { RowsOrdered(g, n - 1, own, addr, addr); }
      if own < n - 1 { RowsOrdered(g, own, n - 1, addr, addr); }
      if own != n - 1 { DistinctAt(look, g.Pos(n - 1, addr), g.Pos(own, addr)); }
    }
  }

  lemma {:induction false} ChildrenComplete(g: Geometry, look: seq<nat>, addr: nat, fringeId: nat, f: nat, n: nat, w: nat)
    requires g.Valid() && |look| == g.ways * g.numSets && w < n <= g.ways
    ensures g.Pos(w, addr) < |look|
    ensures look[g.Pos(w, addr)] != fringeId ==>
      HasChild(Children(g, look, addr, fringeId, f, n), f, g.Pos(w, addr))
  {
    PosInRange(g, w, addr);
    var s := Children(g, look, addr, fringeId, f, n);
    if look[g.Pos(w, addr)] != fringeId {
      if w < n - 1 {
        ChildrenComplete(g, look, addr, fringeId, f, n - 1, w);
        var r := Children(g, look, addr, fringeId, f, n - 1);
        HasChildAppend(r, s[|r|..], f, g.Pos(w, addr));
        assert s == r + s[|r|..];
      } else {
        assert s[|s| - 1].parentIdx == f && s[|s| - 1].pos == g.Pos(w, addr);
      }
    }
  }

  lemma HasChildAppend(r: seq<WalkInfo>, t: seq<WalkInfo>, p: int, q: nat)
    requires HasChild(r, p, q)
    ensures HasChild(r + t, p, q)
  {
    var k :| 0 <= k < |r| && r[k].parentIdx == p && r[k].pos == q;
    assert (r + t)[k] == r[k];
  }

  lemma SeedsOk(g: Geometry, look: seq<nat>, lines: seq<nat>, addr: nat)
    requires Consistent(g, look, lines)
    ensures WalkOk(g, look, lines, addr, Seeds(g, look, addr, g.ways), 0)
  {
  }

  /** Each expanded candidate adds exactly ways - 1 candidates. */
  lemma ExpandAdds(g: Geometry, look: seq<nat>, lines: seq<nat>, addr: nat, cs: seq<WalkInfo>, f: nat)
    requires Consistent(g, look, lines) && WalkOk(g, look, lines, addr, cs, f) && AllValid(lines, cs)
    ensures |Children(g, look, lines[cs[f].lineId], cs[f].lineId, f, g.ways)| == g.ways - 1
  {
    var a := lines[cs[f].lineId];
    assert EntryOk(look, cs[f]) && lines[look[cs[f].pos]] != 0;
    assert g.Hashes(cs[f].pos, a);
    var own: nat :| own < g.ways && cs[f].pos == g.Pos(own, a);
    ChildrenCount(g, look, a, cs[f].lineId, f, g.ways, own);
  }

  lemma ExpandComplete(g: Geometry, look: seq<nat>, lines: seq<nat>, addr: nat, cs: seq<WalkInfo>, f: nat, p: nat, w: nat)
    requires Consistent(g, look, lines) && WalkOk(g, look, lines, addr, cs, f) && AllValid(lines, cs)
    requires p < f + 1 && w < g.ways
    ensures var ds := cs + Children(g, look, lines[cs[f].lineId], cs[f].lineId, f, g.ways);
      ExpandedBy(g, look, lines, ds, p, w)
  {
    var ch := Children(g, look, lines[cs[f].lineId], cs[f].lineId, f, g.ways);
    var ds := cs + ch;
    assert ds[p] == cs[p];
    var q := g.Pos(w, lines[cs[p].lineId]);
    PosInRange(g, w, lines[cs[p].lineId]);
    if look[q] != cs[p].lineId {
      if p < f {
        assert ExpandedBy(g, look, lines, cs, p, w);
        HasChildAppend(cs, ch, p, q);
      } else {
        ChildrenComplete(g, look, lines[cs[f].lineId], cs[f].lineId, f, g.ways, w);
        var k :| 0 <= k < |ch| && ch[k].parentIdx == f && ch[k].pos == q;
        assert ds[|cs| + k] == ch[k];
      }
    }
  }

  lemma ExpandReached(g: Geometry, look: seq<nat>, lines: seq<nat>, addr: nat, cs: seq<WalkInfo>, f: nat, i: nat)
    requires Consistent(g, look, lines) && WalkOk(g, look, lines, addr, cs, f) && AllValid(lines, cs)
    requires i < |cs + Children(g, look, lines[cs[f].lineId], cs[f].lineId, f, g.ways)|
    ensures var ds := cs + Children(g, look, lines[cs[f].lineId], cs[f].lineId, f, g.ways);
      && EntryOk(look, ds[i])
      && (g.ways <= i ==> Reached(g, look, lines, ds, f + 1, i))
      && (|cs| <= i ==> ds[i].parentIdx == f)
  {
    var ch := Children(g, look, lines[cs[f].lineId], cs[f].lineId, f, g.ways);
    var ds := cs + ch;
    if i < |cs| {
      assert ds[i] == cs[i] && EntryOk(look, cs[i]);
      if g.ways <= i {
        assert Reached(g, look, lines, cs, f, i);
        assert ds[cs[i].parentIdx] == cs[cs[i].parentIdx];
      }
    } else {
      ChildrenAreChildren(g, look, lines[cs[f].lineId], cs[f].lineId, f, g.ways);
      assert ds[i] == ch[i - |cs|] && ds[f] == cs[f];
      assert ChildOf(g, look, lines[cs[f].lineId], cs[f].lineId, f, ds[i]);
    }
  }

  lemma ExpandOrdered(g: Geometry, look: seq<nat>, lines: seq<nat>, addr: nat, cs: seq<WalkInfo>, f: nat)
    requires Consistent(g, look, lines) && WalkOk(g, look, lines, addr, cs, f) && AllValid(lines, cs)
    ensures var ds := cs + Children(g, look, lines[cs[f].lineId], cs[f].lineId, f, g.ways);
      forall i: nat, j: nat {:trigger InTurn(ds, i, j)} | g.ways <= i < j < |ds| :: InTurn(ds, i, j)
  {
    var ds := cs + Children(g, look, lines[cs[f].lineId], cs[f].lineId, f, g.ways);
    forall i: nat, j: nat | g.ways <= i < j < |ds| ensures InTurn(ds, i, j) {
      ExpandReached(g, look, lines, addr, cs, f, i);
      ExpandReached(g, look, lines, addr, cs, f, j);
      if j < |cs| { assert ds[i] == cs[i] && ds[j] == cs[j] && InTurn(cs, i, j); }
    }
  }

  lemma ExpandEntries(g: Geometry, look: seq<nat>, lines: seq<nat>, addr: nat, cs: seq<WalkInfo>, f: nat, e: nat)
    requires Consistent(g, look, lines) && WalkOk(g, look, lines, addr, cs, f) && AllValid(lines, cs)
    requires e == f + 1
    ensures var ds := cs + Children(g, look, lines[cs[f].lineId], cs[f].lineId, f, g.ways);
      && (forall i: nat {:trigger EntryOk(look, ds[i])} | i < |ds| :: EntryOk(look, ds[i]))
      && (forall i {:trigger Reached(g, look, lines, ds, e, i)} | g.ways <= i < |ds| :: Reached(g, look, lines, ds, e, i))
  {
    var ds := cs + Children(g, look, lines[cs[f].lineId], cs[f].lineId, f, g.ways);
    forall i: nat | i < |ds|
      ensures EntryOk(look, ds[i]) && (g.ways <= i ==> Reached(g, look, lines, ds, e, i))
    {
      ExpandReached(g, look, lines, addr, cs, f, i);
    }
  }

  lemma ExpandAllWays(g: Geometry, look: seq<nat>, lines: seq<nat>, addr: nat, cs: seq<WalkInfo>, f: nat)
    requires Consistent(g, look, lines) && WalkOk(g, look, lines, addr, cs, f) && AllValid(lines, cs)
    ensures var ds := cs + Children(g, look, lines[cs[f].lineId], cs[f].lineId, f, g.ways);
      forall p: nat, w: nat | p < f + 1 && w < g.ways :: ExpandedBy(g, look, lines, ds, p, w)
  {
    var ds := cs + Children(g, look, lines[cs[f].lineId], cs[f].lineId, f, g.ways);
    forall p: nat, w: nat | p < f + 1 && w < g.ways ensures ExpandedBy(g, look, lines, ds, p, w) {
      ExpandComplete(g, look, lines, addr, cs, f, p, w);
    }
  }

  lemma ExpandOk(g: Geometry, look: seq<nat>, lines: seq<nat>, addr: nat, cs: seq<WalkInfo>, f: nat)
    requires Consistent(g, look, lines) && WalkOk(g, look, lines, addr, cs, f) && AllValid(lines, cs)
    ensures var ch := Children(g, look, lines[cs[f].lineId], cs[f].lineId, f, g.ways);
      |ch| == g.ways - 1 && WalkOk(g, look, lines, addr, cs + ch, f + 1)
  {
    ExpandAdds(g, look, lines, addr, cs, f);
    ExpandOrdered(g, look, lines, addr, cs, f);
    ExpandEntries(g, look, lines, addr, cs, f, f + 1);
    ExpandAllWays(g, look, lines, addr, cs, f);
    assert (f + 1) * (g.ways - 1) == f * (g.ways - 1) + (g.ways - 1);
  }

  /** The rest of the breadth-first walk, stopping once there are enough
      candidates or one of them holds no line. */
  function Grow(g: Geometry, look: seq<nat>, lines: seq<nat>, addr: nat, cs: seq<WalkInfo>, f: nat, cands: nat): (r: seq<WalkInfo>)
    requires Consistent(g, look, lines) && WalkOk(g, look, lines, addr, cs, f)
    decreases cands - |cs|
  {
    if |cs| < cands && AllValid(lines, cs) then
      ExpandOk(g, look, lines, addr, cs, f);
      Grow(g, look, lines, addr, cs + Children(g, look, lines[cs[f].lineId], cs[f].lineId, f, g.ways), f + 1, cands)
    else cs
  }

  /** The candidates a replacement may choose from. */
  function Candidates(g: Geometry, look: seq<nat>, lines: seq<nat>, addr: nat, cands: nat): (r: seq<WalkInfo>)
    requires Consistent(g, look, lines)
  {
    SeedsOk(g, look, lines, addr);
    var r := Grow(g, look, lines, addr, Seeds(g, look, addr, g.ways), 0, cands);
    if |r| > cands then r[..cands] else r
  }

  lemma {:induction false} GrowOk(g: Geometry, look: seq<nat>, lines: seq<nat>, addr: nat, cs: seq<WalkInfo>, f: nat, cands: nat)
    returns (e: nat)
    requires Consistent(g, look, lines) && WalkOk(g, look, lines, addr, cs, f) && g.ways <= cands
    requires |cs| < cands + g.ways
    ensures var r := Grow(g, look, lines, addr, cs, f, cands);
      && WalkOk(g, look, lines, addr, r, e)
      && |r| < cands + g.ways && (|r| >= cands || !AllValid(lines, r))
    decreases cands - |cs|
  {
    if |cs| < cands && AllValid(lines, cs) {
      ExpandOk(g, look, lines, addr, cs, f);
      e := GrowOk(g, look, lines, addr, cs + Children(g, look, lines[cs[f].lineId], cs[f].lineId, f, g.ways), f + 1, cands);
    } else {
      e := f;
    }
  }

  // ------------------------------------------------------------- the chain

  /** The positions from candidate idx back to its seed. */
  function Chain(cs: seq<WalkInfo>, idx: int): (ps: seq<nat>)
    requires idx < |cs|
    decreases idx + 1
  {
    if idx < 0 then []
    else if cs[idx].parentIdx < idx then [cs[idx].pos] + Chain(cs, cs[idx].parentIdx)
    else [cs[idx].pos]
  }

  /** The candidate is the first of its line. */
  ghost predicate First(cs: seq<WalkInfo>, i: int)
    requires i < |cs|
  {
    forall j | 0 <= j < i :: cs[j].lineId != cs[i].lineId
  }

  /** A line that is walked into again has its children repeated too. */
  lemma RepeatedChild(g: Geometry, look: seq<nat>, lines: seq<nat>, addr: nat, cs: seq<WalkInfo>, f: nat, i: nat, j: nat)
    returns (k: nat)
    requires Consistent(g, look, lines) && WalkOk(g, look, lines, addr, cs, f)
    requires g.ways <= i < |cs| && j < cs[i].parentIdx < |cs| && cs[j].lineId == cs[cs[i].parentIdx].lineId
    ensures k < i && cs[k].lineId == cs[i].lineId
  {
    assert Reached(g, look, lines, cs, f, i);
    var w: nat :| w < g.ways && cs[i].pos == g.Pos(w, lines[cs[j].lineId]);
    assert EntryOk(look, cs[i]);
    assert ExpandedBy(g, look, lines, cs, j, w);
    k :| 0 <= k < |cs| && cs[k].parentIdx == j && cs[k].pos == cs[i].pos;
    assert EntryOk(look, cs[k]) && (i < k ==> InTurn(cs, i, k));
  }

  /** So the parent of a first occurrence is a first occurrence. */
  lemma ParentOfFirst(g: Geometry, look: seq<nat>, lines: seq<nat>, addr: nat, cs: seq<WalkInfo>, f: nat, i: nat)
    requires Consistent(g, look, lines) && WalkOk(g, look, lines, addr, cs, f)
    requires g.ways <= i < |cs| && First(cs, i)
    ensures 0 <= cs[i].parentIdx < |cs| && First(cs, cs[i].parentIdx)
  {
    var p := cs[i].parentIdx;
    assert Reached(g, look, lines, cs, f, i);
    forall j: nat | j < p ensures cs[j].lineId != cs[p].lineId {
      if cs[j].lineId == cs[p].lineId {
        var k := RepeatedChild(g, look, lines, addr, cs, f, i, j);
      }
    }
  }

  /** Position number i of the chain may take the line of the next one. */
  ghost predicate MayTake(g: Geometry, look: seq<nat>, lines: seq<nat>, ps: seq<nat>, i: nat)
    requires g.Valid() && i + 1 < |ps|
  {
    ps[i + 1] < |look| && look[ps[i + 1]] < |lines| && lines[look[ps[i + 1]]] != 0 && g.Hashes(ps[i], lines[look[ps[i + 1]]])
  }

  /** A relocation: each position of the chain may take the line of the next one,
      the last may take addr, and the first gives up the victim. */
  ghost predicate Relocates(g: Geometry, look: seq<nat>, lines: seq<nat>, addr: nat, victim: nat, ps: seq<nat>)
    requires g.Valid()
  {
    && ps != [] && |look| == |lines| && Distinct(ps)
    && (forall i | 0 <= i < |ps| :: ps[i] < |look| && look[ps[i]] < |lines|)
    && look[ps[0]] == victim
    && (forall i: nat {:trigger MayTake(g, look, lines, ps, i)} | i + 1 < |ps| :: MayTake(g, look, lines, ps, i))
    && g.Hashes(ps[|ps| - 1], addr)
  }

  lemma RelocatesCons(g: Geometry, look: seq<nat>, lines: seq<nat>, addr: nat, pos: nat, qs: seq<nat>)
    requires g.Valid() && qs != [] && qs[0] < |look| && Relocates(g, look, lines, addr, look[qs[0]], qs)
    requires pos < |look| && look[pos] < |lines| && pos !in qs
    requires lines[look[qs[0]]] != 0 && g.Hashes(pos, lines[look[qs[0]]])
    ensures Relocates(g, look, lines, addr, look[pos], [pos] + qs)
  {
    var ps := [pos] + qs;
    assert forall i | 0 < i < |ps| :: ps[i] == qs[i - 1];
    forall i: nat | i + 1 < |ps| ensures MayTake(g, look, lines, ps, i) {
      if i > 0 { assert MayTake(g, look, lines, qs, i - 1); }
    }
    DistinctCons(pos, qs);
  }

  lemma {:induction false} ChainPositions(cs: seq<WalkInfo>, idx: nat, q: nat)
    requires idx < |cs| && q in Chain(cs, idx)
    ensures exists k :: 0 <= k <= idx && q == cs[k].pos
    decreases idx
  {
    if q != cs[idx].pos {
      assert cs[idx].parentIdx >= 0;
      ChainPositions(cs, cs[idx].parentIdx, q);
    }
  }

  /** Every step back along the chain skips at least ways candidates. */
  lemma {:induction false} ChainShort(g: Geometry, look: seq<nat>, lines: seq<nat>, addr: nat, cs: seq<WalkInfo>, f: nat, idx: nat)
    requires g.Valid() && WalkOk(g, look, lines, addr, cs, f) && idx < |cs|
    ensures Chain(cs, idx) != [] && (|Chain(cs, idx)| - 1) * g.ways <= idx
    decreases idx
  {
    if g.ways <= idx {
      assert Reached(g, look, lines, cs, f, idx);
      ChainShort(g, look, lines, addr, cs, f, cs[idx].parentIdx);
      var n := |Chain(cs, cs[idx].parentIdx)|;
      assert n * g.ways == (n - 1) * g.ways + g.ways;
    } else {
      assert Chain(cs, -1) == [];
    }
  }

  /** From the first candidate of a line, the chain is a relocation. */
  lemma {:induction false} ChainRelocates(g: Geometry, look: seq<nat>, lines: seq<nat>, addr: nat, cs: seq<WalkInfo>, f: nat, idx: nat)
    requires Consistent(g, look, lines) && WalkOk(g, look, lines, addr, cs, f)
    requires idx < |cs| && First(cs, idx)
    ensures Relocates(g, look, lines, addr, cs[idx].lineId, Chain(cs, idx))
    decreases idx
  {
    assert EntryOk(look, cs[idx]);
    if idx < g.ways {
      assert Chain(cs, -1) == [] && Chain(cs, idx) == [cs[idx].pos];
      assert g.Hashes(cs[idx].pos, addr);
    } else {
      var p := cs[idx].parentIdx;
      ParentOfFirst(g, look, lines, addr, cs, f, idx);
      ChainLink(g, look, lines, addr, cs, f, idx);
      ChainRelocates(g, look, lines, addr, cs, f, p);
      RelocatesCons(g, look, lines, addr, cs[idx].pos, Chain(cs, p));
    }
  }

  lemma ChainLink(g: Geometry, look: seq<nat>, lines: seq<nat>, addr: nat, cs: seq<WalkInfo>, f: nat, idx: nat)
    requires g.Valid() && WalkOk(g, look, lines, addr, cs, f)
    requires g.ways <= idx < |cs| && First(cs, idx)
    ensures var p := cs[idx].parentIdx;
      && 0 <= p < idx && Chain(cs, idx) == [cs[idx].pos] + Chain(cs, p)
      && Chain(cs, p) != [] && Chain(cs, p)[0] == cs[p].pos
      && cs[p].pos < |look| && look[cs[p].pos] == cs[p].lineId < |lines|
      && cs[idx].pos !in Chain(cs, p)
      && lines[cs[p].lineId] != 0 && g.Hashes(cs[idx].pos, lines[cs[p].lineId])
  {
    var p := cs[idx].parentIdx;
    assert Reached(g, look, lines, cs, f, idx);
    assert EntryOk(look, cs[p]) && EntryOk(look, cs[idx]);
    forall k | 0 <= k <= p ensures cs[k].pos != cs[idx].pos { assert EntryOk(look, cs[k]); }
    if cs[idx].pos in Chain(cs, p) { ChainPositions(cs, p, cs[idx].pos); }
  }
}
