/** What a zcache replacement may choose from, said of the candidates alone and
    not of the walk that finds them: the seeds, then the other positions of each
    candidate's address in turn, up to the limit or a free line. */
module ZCandidates {
  import opened ZWalk

  /** The place of the first child of candidate f. */
  function Base(g: Geometry, f: nat): (b: nat)
    requires g.Valid()
    ensures f < b
  {
    TimesMono(1, g.ways - 1, f);
    g.ways + f * (g.ways - 1)
  }

  lemma BaseNext(g: Geometry, f: nat)
    requires g.Valid()
    ensures Base(g, f + 1) == Base(g, f) + g.ways - 1
  {
    assert (f + 1) * (g.ways - 1) == f * (g.ways - 1) + (g.ways - 1);
  }

  lemma BaseMono(g: Geometry, p: nat, f: nat)
    requires g.Valid() && p <= f
    ensures Base(g, p) <= Base(g, f)
  {
    TimesMono(p, f, g.ways - 1);
  }

  ghost predicate SeedAt(g: Geometry, look: seq<nat>, addr: nat, cs: seq<WalkInfo>, w: nat)
    requires g.Valid() && w < |cs|
  {
    var q := g.Pos(w, addr);
    q < |look| && cs[w] == WalkInfo(q, look[q], -1)
  }

  /** The place of the child through way w of a line that is stored at way own. */
  function Place(g: Geometry, f: nat, own: nat, w: nat): nat
    requires g.Valid() && w != own
  {
    Base(g, f) + if w < own then w else w - 1
  }

  ghost predicate ChildAt(g: Geometry, look: seq<nat>, a: nat, cs: seq<WalkInfo>, f: nat, own: nat, w: nat)
    requires g.Valid() && w != own
  {
    var k, q := Place(g, f, own, w), g.Pos(w, a);
    k < |cs| ==> q < |look| && cs[k] == WalkInfo(q, look[q], f)
  }

  /** Candidate f stands at its address's position for way own, and the positions
      for all other ways follow way by way, as far as there are candidates. */
  ghost predicate Fans(g: Geometry, look: seq<nat>, lines: seq<nat>, cs: seq<WalkInfo>, f: nat, own: nat)
    requires g.Valid() && f < |cs| && cs[f].lineId < |lines|
  {
    var a := lines[cs[f].lineId];
    && own < g.ways && cs[f].pos == g.Pos(own, a)
    && forall w: nat {:trigger ChildAt(g, look, a, cs, f, own, w)} | w < g.ways && w != own ::
         ChildAt(g, look, a, cs, f, own, w)
  }

  /** Candidate f was expanded: no candidate before its children was free. */
  ghost predicate Expanded(g: Geometry, look: seq<nat>, lines: seq<nat>, cs: seq<WalkInfo>, f: nat)
    requires g.Valid() && Base(g, f) <= |cs|
  {
    && (forall i: nat | i < Base(g, f) :: cs[i].lineId < |lines| && lines[cs[i].lineId] != 0)
    && exists own: nat :: Fans(g, look, lines, cs, f, own)
  }

  ghost predicate HasFree(lines: seq<nat>, cs: seq<WalkInfo>) {
    exists i :: 0 <= i < |cs| && cs[i].lineId < |lines| && lines[cs[i].lineId] == 0
  }

  /** The candidates offered for addr. */
  ghost predicate Offered(g: Geometry, look: seq<nat>, lines: seq<nat>, addr: nat, cs: seq<WalkInfo>, cands: nat)
    requires g.Valid()
  {
    && g.ways <= |cs| <= cands
    && (forall w: nat {:trigger SeedAt(g, look, addr, cs, w)} | w < g.ways :: SeedAt(g, look, addr, cs, w))
    && (forall f: nat {:trigger Expanded(g, look, lines, cs, f)} | Base(g, f) < |cs| :: Expanded(g, look, lines, cs, f))
    && (|cs| < cands ==> HasFree(lines, cs) && exists e: nat :: |cs| == Base(g, e))
  }

  // ------------------------------------------------- the walk finds just these

  /** A walk that has expanded its first f candidates. */
  ghost predicate Laid(g: Geometry, look: seq<nat>, lines: seq<nat>, addr: nat, cs: seq<WalkInfo>, f: nat)
    requires g.Valid()
  {
    && |cs| == Base(g, f)
    && (forall w: nat {:trigger SeedAt(g, look, addr, cs, w)} | w < g.ways :: SeedAt(g, look, addr, cs, w))
    && (forall p: nat {:trigger Expanded(g, look, lines, cs, p)} | p < f && Base(g, p) <= |cs| :: Expanded(g, look, lines, cs, p))
  }

  lemma {:induction false} ChildrenAt(g: Geometry, look: seq<nat>, a: nat, id: nat, f: nat, n: nat, own: nat, w: nat)
    requires g.Valid() && |look| == g.ways * g.numSets && Perm(look) && w < n <= g.ways && w != own
    requires own < g.ways && g.Pos(own, a) < |look| && look[g.Pos(own, a)] == id
    ensures var ch, k, q := Children(g, look, a, id, f, n), if w < own then w else w - 1, g.Pos(w, a);
      k < |ch| && q < |look| && ch[k] == WalkInfo(q, look[q], f)
  {
    PosInRange(g, n - 1, a);
    ChildrenCount(g, look, a, id, f, n - 1, own);
    ChildrenCount(g, look, a, id, f, n, own);
    if w < n - 1 { ChildrenAt(g, look, a, id, f, n - 1, own, w); }
  }

  /** The children that one expansion appends are laid out way by way. */
  lemma ExpandFans(g: Geometry, look: seq<nat>, lines: seq<nat>, addr: nat, cs: seq<WalkInfo>, f: nat)
    requires Consistent(g, look, lines) && WalkOk(g, look, lines, addr, cs, f) && AllValid(lines, cs) && |cs| == Base(g, f)
    ensures var ds := cs + Children(g, look, lines[cs[f].lineId], cs[f].lineId, f, g.ways);
      Expanded(g, look, lines, ds, f)
  {
    var a, id := lines[cs[f].lineId], cs[f].lineId;
    var ch := Children(g, look, a, id, f, g.ways);
    var ds := cs + ch;
    assert EntryOk(look, cs[f]) && lines[look[cs[f].pos]] != 0;
    assert g.Hashes(cs[f].pos, a);
    var own: nat :| own < g.ways && cs[f].pos == g.Pos(own, a);
    assert forall i: nat | i < |cs| :: ds[i] == cs[i];
    forall w: nat | w < g.ways && w != own ensures ChildAt(g, look, a, ds, f, own, w) {
      ChildrenAt(g, look, a, id, f, g.ways, own, w);
      var k := if w < own then w else w - 1;
      assert ds[|cs| + k] == ch[k];
    }
    assert Fans(g, look, lines, ds, f, own);
  }

  /** Later candidates do not disturb an expansion, nor does a cut. */
  lemma ExpandedPrefix(g: Geometry, look: seq<nat>, lines: seq<nat>, cs: seq<WalkInfo>, ds: seq<WalkInfo>, p: nat)
    requires g.Valid() && Base(g, p) <= |cs| && Base(g, p) <= |ds|
    requires (cs <= ds && Base(g, p + 1) <= |cs|) || ds <= cs
    requires Expanded(g, look, lines, cs, p)
    ensures Expanded(g, look, lines, ds, p)
  {
    BaseNext(g, p);
    var own: nat :| Fans(g, look, lines, cs, p, own);
    var a := lines[cs[p].lineId];
    forall w: nat | w < g.ways && w != own ensures ChildAt(g, look, a, ds, p, own, w) {
      assert ChildAt(g, look, a, cs, p, own, w);
    }
    assert Fans(g, look, lines, ds, p, own);
  }

  lemma LaidNext(g: Geometry, look: seq<nat>, lines: seq<nat>, addr: nat, cs: seq<WalkInfo>, f: nat)
    requires Consistent(g, look, lines) && WalkOk(g, look, lines, addr, cs, f) && AllValid(lines, cs)
    requires Laid(g, look, lines, addr, cs, f)
    ensures var ds := cs + Children(g, look, lines[cs[f].lineId], cs[f].lineId, f, g.ways);
      Laid(g, look, lines, addr, ds, f + 1)
  {
    var ds := cs + Children(g, look, lines[cs[f].lineId], cs[f].lineId, f, g.ways);
    ExpandAdds(g, look, lines, addr, cs, f);
    BaseNext(g, f);
    forall w: nat | w < g.ways ensures SeedAt(g, look, addr, ds, w) { assert SeedAt(g, look, addr, cs, w); }
    forall p: nat | p < f + 1 && Base(g, p) <= |ds| ensures Expanded(g, look, lines, ds, p) {
      if p < f {
        BaseMono(g, p, f);
        BaseMono(g, p + 1, f);
        assert Expanded(g, look, lines, cs, p);
        ExpandedPrefix(g, look, lines, cs, ds, p);
      } else {
        ExpandFans(g, look, lines, addr, cs, f);
      }
    }
  }

  lemma {:induction false} GrowLaid(g: Geometry, look: seq<nat>, lines: seq<nat>, addr: nat, cs: seq<WalkInfo>, f: nat, cands: nat)
    returns (e: nat)
    requires Consistent(g, look, lines) && WalkOk(g, look, lines, addr, cs, f) && Laid(g, look, lines, addr, cs, f)
    ensures var r := Grow(g, look, lines, addr, cs, f, cands);
      Laid(g, look, lines, addr, r, e) && (|r| >= cands || HasFree(lines, r))
    decreases cands - |cs|
  {
    if |cs| < cands && AllValid(lines, cs) {
      ExpandOk(g, look, lines, addr, cs, f);
      LaidNext(g, look, lines, addr, cs, f);
      var ds := cs + Children(g, look, lines[cs[f].lineId], cs[f].lineId, f, g.ways);
      e := GrowLaid(g, look, lines, addr, ds, f + 1, cands);
    } else {
      e := f;
      if |cs| < cands {
        var i :| 0 <= i < |cs| && !(0 < |lines| && cs[i].lineId < |lines| && lines[cs[i].lineId] != 0);
        assert EntryOk(look, cs[i]);
      }
    }
  }

  lemma LaidOffered(g: Geometry, look: seq<nat>, lines: seq<nat>, addr: nat, r: seq<WalkInfo>, e: nat, cands: nat)
    requires g.Valid() && Laid(g, look, lines, addr, r, e) && g.ways <= cands && (|r| >= cands || HasFree(lines, r))
    ensures Offered(g, look, lines, addr, if |r| > cands then r[..cands] else r, cands)
  {
    var cs := if |r| > cands then r[..cands] else r;
    BaseMono(g, 0, e);
    forall w: nat | w < g.ways ensures SeedAt(g, look, addr, cs, w) { assert SeedAt(g, look, addr, r, w); }
    forall f: nat | Base(g, f) < |cs| ensures Expanded(g, look, lines, cs, f) {
      if e <= f { BaseMono(g, e, f); }
      assert Expanded(g, look, lines, r, f);
      ExpandedPrefix(g, look, lines, r, cs, f);
    }
  }

  /** The walk offers what it should. */
  lemma CandidatesOffered(g: Geometry, look: seq<nat>, lines: seq<nat>, addr: nat, cands: nat)
    requires Consistent(g, look, lines) && g.ways <= cands
    ensures Offered(g, look, lines, addr, Candidates(g, look, lines, addr, cands), cands)
  {
    SeedsOk(g, look, lines, addr);
    var s := Seeds(g, look, addr, g.ways);
    forall w: nat | w < g.ways ensures SeedAt(g, look, addr, s, w) { }
    var e := GrowLaid(g, look, lines, addr, s, 0, cands);
    LaidOffered(g, look, lines, addr, Grow(g, look, lines, addr, s, 0, cands), e, cands);
  }

  // --------------------------------------------------- and nothing else will do

  /** Every place past the seeds is one child's. */
  lemma {:induction false} PlaceOf(g: Geometry, i: nat, f: nat) returns (p: nat)
    requires g.Valid() && g.ways <= i < Base(g, f)
    ensures p < f && Base(g, p) <= i < Base(g, p + 1)
    decreases f
  {
    BaseNext(g, f - 1);
    if Base(g, f - 1) <= i { p := f - 1; } else { p := PlaceOf(g, i, f - 1); }
  }

  /** Which way a child's place stands for. */
  lemma SlotOf(g: Geometry, p: nat, own: nat, i: nat) returns (w: nat)
    requires g.Valid() && own < g.ways && Base(g, p) <= i < Base(g, p + 1)
    ensures w < g.ways && w != own && Place(g, p, own, w) == i
  {
    BaseNext(g, p);
    w := i - Base(g, p);
    if own <= w { w := w + 1; }
  }

  lemma OwnUnique(g: Geometry, a: nat, v: nat, w: nat)
    requires g.Valid() && g.Pos(v, a) == g.Pos(w, a)
    ensures v == w
  {
    if v < w { RowsOrdered(g, v, w, a, a); }
    if w < v { RowsOrdered(g, w, v, a, a); }
  }

  /** Two offers agree wherever both have a candidate. */
  lemma {:induction false} OfferedAgree(g: Geometry, look: seq<nat>, lines: seq<nat>, addr: nat,
                                        cs: seq<WalkInfo>, ds: seq<WalkInfo>, cands: nat, i: nat)
    requires g.Valid() && Offered(g, look, lines, addr, cs, cands) && Offered(g, look, lines, addr, ds, cands)
    requires i < |cs| && i < |ds|
    ensures cs[i] == ds[i]
  {
    if i < g.ways {
      assert SeedAt(g, look, addr, cs, i) && SeedAt(g, look, addr, ds, i);
    } else {
      var p := PlaceOf(g, i, i);
      OfferedAgree(g, look, lines, addr, cs, ds, cands, p);
      assert Expanded(g, look, lines, cs, p) && Expanded(g, look, lines, ds, p);
      var own: nat :| Fans(g, look, lines, cs, p, own);
      var own': nat :| Fans(g, look, lines, ds, p, own');
      var a := lines[cs[p].lineId];
      OwnUnique(g, a, own, own');
      var w := SlotOf(g, p, own, i);
      assert ChildAt(g, look, a, cs, p, own, w) && ChildAt(g, look, a, ds, p, own, w);
    }
  }

  lemma OfferedLength(g: Geometry, look: seq<nat>, lines: seq<nat>, addr: nat, cs: seq<WalkInfo>, ds: seq<WalkInfo>, cands: nat)
    requires g.Valid() && Offered(g, look, lines, addr, cs, cands) && Offered(g, look, lines, addr, ds, cands)
    ensures |ds| <= |cs|
  {
    if |cs| < |ds| {
      var i :| 0 <= i < |cs| && cs[i].lineId < |lines| && lines[cs[i].lineId] == 0;
      var e: nat :| |cs| == Base(g, e);
      assert Expanded(g, look, lines, ds, e);
      OfferedAgree(g, look, lines, addr, cs, ds, cands, i);
    }
  }

  /** The description leaves nothing open: one list of candidates meets it, the
      walk's. */
  lemma OfferedIff(g: Geometry, look: seq<nat>, lines: seq<nat>, addr: nat, cs: seq<WalkInfo>, cands: nat)
    requires Consistent(g, look, lines) && g.ways <= cands
    ensures Offered(g, look, lines, addr, cs, cands) <==> cs == Candidates(g, look, lines, addr, cands)
  {
    var r := Candidates(g, look, lines, addr, cands);
    CandidatesOffered(g, look, lines, addr, cands);
    if Offered(g, look, lines, addr, cs, cands) {
      OfferedLength(g, look, lines, addr, cs, r, cands);
      OfferedLength(g, look, lines, addr, r, cs, cands);
      forall i | 0 <= i < |cs| ensures cs[i] == r[i] { OfferedAgree(g, look, lines, addr, cs, r, cands, i); }
    }
  }
}
