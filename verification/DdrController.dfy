/** The DDR controller: accepts requests, schedules them FR-FCFS, refreshes. */
module DdrControllers {
  import opened DdrTiming
  import opened DdrSlack
  import opened DdrMemories
  import DdrQueue

  /** Every accepted request is in exactly one place: the read queue, the write
      queue, the overflow, or among the served. */
  ghost predicate Accounted(rq: seq<nat>, wq: seq<nat>, ov: seq<nat>, served: seq<nat>, n: nat) {
    forall id: nat {:trigger Places(rq, wq, ov, served, id)} :: Places(rq, wq, ov, served, id) == if id < n then 1 else 0
  }

  /** In how many places a request is. */
  ghost function Places(rq: seq<nat>, wq: seq<nat>, ov: seq<nat>, served: seq<nat>, id: nat): nat {
    multiset(rq)[id] + multiset(wq)[id] + multiset(ov)[id] + multiset(served)[id]
  }

  lemma Removed(q: seq<nat>, i: nat)
    requires i < |q|
    ensures multiset(q[..i] + q[i + 1..]) == multiset(q) - multiset{q[i]} && q[i] in multiset(q)
  {
    assert q == q[..i] + [q[i]] + q[i + 1..];
  }

  /** No request is in two places. */
  lemma Apart(rq: seq<nat>, wq: seq<nat>, ov: seq<nat>, served: seq<nat>, n: nat, id: nat)
    requires Accounted(rq, wq, ov, served, n)
    ensures id < n <==> id in rq || id in wq || id in ov || id in served
    ensures id in rq ==> id !in wq && id !in ov && id !in served
    ensures id in wq ==> id !in ov && id !in served
    ensures id in ov ==> id !in served
  {
    assert Places(rq, wq, ov, served, id) == if id < n then 1 else 0;
    assert (id in rq <==> multiset(rq)[id] > 0) && (id in wq <==> multiset(wq)[id] > 0);
    assert (id in ov <==> multiset(ov)[id] > 0) && (id in served <==> multiset(served)[id] > 0);
  }

  lemma AppendCount(s: seq<nat>, x: nat)
    ensures multiset(s + [x]) == multiset(s) + multiset{x}
  {
  }

  ghost predicate Known(reqs: Requests, id: nat, banks: nat) {
    id in reqs && reqs[id].bank < banks
  }

  /** Both sides in order, and every request accounted for. */
  ghost predicate Books(a: Side, b: Side, reqs: Requests, ov: seq<nat>, served: seq<nat>, n: nat) {
    && a.Valid(reqs) && b.Valid(reqs) && |a.lists| == |b.lists|
    && (forall id {:trigger Known(reqs, id, |a.lists|)} | id in ov :: Known(reqs, id, |a.lists|))
    && Accounted(a.queue, b.queue, ov, served, n)
  }

  lemma Flip(a: Side, b: Side, reqs: Requests, ov: seq<nat>, served: seq<nat>, n: nat)
    requires Books(a, b, reqs, ov, served, n)
    ensures Books(b, a, reqs, ov, served, n)
  {
    forall id: nat ensures Places(b.queue, a.queue, ov, served, id) == if id < n then 1 else 0 {
      assert Places(a.queue, b.queue, ov, served, id) == if id < n then 1 else 0;
    }
  }

  lemma DequeueCount(q: seq<nat>, q': seq<nat>, ov: seq<nat>, served: seq<nat>, n: nat, i: nat)
    requires Accounted(q, q', ov, served, n) && i < |q|
    ensures Accounted(q[..i] + q[i + 1..], q', ov, served + [q[i]], n)
  {
    Removed(q, i);
    AppendCount(served, q[i]);
    var r, s := q[..i] + q[i + 1..], served + [q[i]];
    forall id: nat ensures Places(r, q', ov, s, id) == if id < n then 1 else 0 {
      assert Places(q, q', ov, served, id) == if id < n then 1 else 0;
    }
  }

  /** Request i of side a has been served; a' is the side without it. */
  lemma DequeueOk(a: Side, b: Side, reqs: Requests, ov: seq<nat>, served: seq<nat>, n: nat, i: nat, a': Side)
    requires Books(a, b, reqs, ov, served, n) && i < |a.queue| && a'.Valid(reqs - {a.queue[i]})
    requires a'.queue == a.queue[..i] + a.queue[i + 1..] && |a'.lists| == |a.lists|
    ensures Books(a', b, reqs - {a.queue[i]}, ov, served + [a.queue[i]], n)
  {
    DequeueCount(a.queue, b.queue, ov, served, n, i);
    Apart(a.queue, b.queue, ov, served, n, a.queue[i]);
    forall x | x in b.queue ensures x in reqs && x != a.queue[i] { b.KnownIds(reqs, x); }
    b.Others(reqs, reqs - {a.queue[i]});
    var reqs', m := reqs - {a.queue[i]}, |a'.lists|;
    forall id | id in ov ensures Known(reqs', id, m) { assert Known(reqs, id, m); }
  }

  lemma EnqueueCount(q: seq<nat>, q': seq<nat>, ov: seq<nat>, served: seq<nat>, n: nat, id: nat, ov': seq<nat>, n': nat)
    requires Accounted(q, q', ov, served, n)
    requires (id == n && n' == n + 1 && ov' == ov) || (ov == [id] + ov' && n' == n)
    ensures Accounted(q + [id], q', ov', served, n')
  {
    AppendCount(q, id);
    assert ov == [id] + ov' ==> multiset(ov) == multiset{id} + multiset(ov');
    var r := q + [id];
    forall x: nat ensures Places(r, q', ov', served, x) == if x < n' then 1 else 0 {
      assert Places(q, q', ov, served, x) == if x < n then 1 else 0;
    }
  }

  /** A request, new (id n) or from the head of the overflow, has entered side a;
      a' is the side with it. */
  lemma EnqueueOk(a: Side, b: Side, reqs: Requests, ov: seq<nat>, served: seq<nat>, n: nat, id: nat, r: Request,
                  a': Side, ov': seq<nat>, n': nat)
    requires Books(a, b, reqs, ov, served, n) && r.bank < |a.lists|
    requires (id == n && n' == n + 1 && ov' == ov) || (ov == [id] + ov' && n' == n)
    requires a'.Valid(reqs[id := r]) && a'.queue == a.queue + [id] && |a'.lists| == |a.lists|
    ensures Books(a', b, reqs[id := r], ov', served, n')
  {
    EnqueueCount(a.queue, b.queue, ov, served, n, id, ov', n');
    Apart(a.queue, b.queue, ov, served, n, id);
    forall x | x in b.queue ensures x in reqs && x != id { b.KnownIds(reqs, x); }
    b.Others(reqs, reqs[id := r]);
    var reqs', m := reqs[id := r], |a'.lists|;
    forall x | x in ov' ensures Known(reqs', x, m) { assert x in ov && Known(reqs, x, m); }
  }

  /** The same for either queue. */
  lemma EnteredOk(w: bool, rd: Side, wr: Side, reqs: Requests, ov: seq<nat>, served: seq<nat>, n: nat, id: nat, r: Request,
                  s: Side, ov': seq<nat>)
    requires Books(rd, wr, reqs, ov, served, n) && r.bank < |rd.lists|
    requires (id == n && ov' == ov) || (id != n && ov == [id] + ov')
    requires var q := if w then wr else rd; s.Valid(reqs[id := r]) && s.queue == q.queue + [id] && |s.lists| == |q.lists|
    ensures Books(if w then rd else s, if w then s else wr, reqs[id := r], ov', served, if id == n then n + 1 else n)
  {
    var n' := if id == n then n + 1 else n;
    if w {
      Flip(rd, wr, reqs, ov, served, n);
      EnqueueOk(wr, rd, reqs, ov, served, n, id, r, s, ov', n');
      Flip(s, rd, reqs[id := r], ov', served, n');
    } else {
      EnqueueOk(rd, wr, reqs, ov, served, n, id, r, s, ov', n');
    }
  }

  /** A new request has gone to the overflow. */
  lemma SpillOk(a: Side, b: Side, reqs: Requests, ov: seq<nat>, served: seq<nat>, n: nat, r: Request)
    requires Books(a, b, reqs, ov, served, n) && r.bank < |a.lists|
    ensures Books(a, b, reqs[n := r], ov + [n], served, n + 1)
  {
    Apart(a.queue, b.queue, ov, served, n, n);
    forall x | x in a.queue ensures x in reqs { a.KnownIds(reqs, x); }
    forall x | x in b.queue ensures x in reqs { b.KnownIds(reqs, x); }
    a.Others(reqs, reqs[n := r]);
    b.Others(reqs, reqs[n := r]);
    SpillCount(a.queue, b.queue, ov, served, n);
    var reqs', m, ov' := reqs[n := r], |a.lists|, ov + [n];
    forall x | x in ov' ensures Known(reqs', x, m) { assert x in ov ==> Known(reqs, x, m); }
  }

  lemma SpillCount(q: seq<nat>, q': seq<nat>, ov: seq<nat>, served: seq<nat>, n: nat)
    requires Accounted(q, q', ov, served, n)
    ensures Accounted(q, q', ov + [n], served, n + 1)
  {
    AppendCount(ov, n);
    var ov', n' := ov + [n], n + 1;
    forall x: nat ensures Places(q, q', ov', served, x) == if x < n' then 1 else 0 {
      assert Places(q, q', ov, served, x) == if x < n then 1 else 0;
    }
  }

  /** The request waits for the write queue (w) or the read queue: writes have one
      of their own if they are deferred. */
  ghost predicate OfKind(reqs: Requests, id: nat, deferred: bool, w: bool) {
    id in reqs && (w <==> deferred && reqs[id].write)
  }

  ghost predicate AllOfKind(q: seq<nat>, reqs: Requests, deferred: bool, w: bool) {
    forall id {:trigger OfKind(reqs, id, deferred, w)} | id in q :: OfKind(reqs, id, deferred, w)
  }

  lemma KindAdded(q: seq<nat>, reqs: Requests, deferred: bool, w: bool, id: nat, r: Request)
    requires AllOfKind(q, reqs, deferred, w) && (w <==> deferred && r.write)
    ensures AllOfKind(q + [id], reqs[id := r], deferred, w)
  {
    var reqs' := reqs[id := r];
    forall x | x in q + [id] ensures OfKind(reqs', x, deferred, w) { assert x != id ==> OfKind(reqs, x, deferred, w); }
  }

  lemma KindKept(q: seq<nat>, q': seq<nat>, reqs: Requests, reqs': Requests, deferred: bool, w: bool)
    requires AllOfKind(q, reqs, deferred, w) && forall x | x in q' :: x in q
    requires forall x | x in q' && x in reqs :: x in reqs' && reqs'[x] == reqs[x]
    ensures AllOfKind(q', reqs', deferred, w)
  {
    forall x | x in q' ensures OfKind(reqs', x, deferred, w) { assert OfKind(reqs, x, deferred, w); }
  }

  function Earlier(a: Cycle, c: nat): (r: Cycle)
    ensures r.At? && r.c <= c && (a.At? ==> r.c <= a.c) && (r == a || r == At(c))
  {
    if a.Never? || c < a.c then At(c) else a
  }

  predicate Later(a: Cycle, c: nat) {
    a.Never? || a.c > c
  }

  /** enqueue's rule for the next tick: bound is when the bus could next be looked
      at, ready when the new request could issue. */
  function EnqueueRule(next: Cycle, bound: nat, ready: nat): Cycle {
    var soonest := if Later(next, bound) then Max(bound, ready) else bound;
    if Later(next, soonest) then At(soonest) else next
  }

  /** tick's rule, in which the readiness lands in the cycle to be improved. */
  function TickRule(next: Cycle, bound: nat, ready: nat): Cycle {
    var next1 := if Later(next, bound) then At(Max(bound, ready)) else next;
    if Later(next1, bound) then At(bound) else next1
  }

  /** So enqueue waits until the request is ready, and tick never does. */
  lemma WakeRules(next: Cycle, bound: nat, ready: nat)
    ensures EnqueueRule(next, bound, ready) == Earlier(next, Max(bound, ready))
    ensures TickRule(next, bound, ready) == Earlier(next, bound)
  {
  }

  /** tick's rule is never late, and agrees with enqueue's exactly when a tick is
      due by the bound anyway or the request is ready by then. */
  lemma TickRuleIff(next: Cycle, bound: nat, ready: nat)
    ensures TickRule(next, bound, ready).c <= EnqueueRule(next, bound, ready).c
    ensures TickRule(next, bound, ready) == EnqueueRule(next, bound, ready)
       <==> (next.At? && next.c <= bound) || ready <= bound
  {
    WakeRules(next, bound, ready);
  }

  /** The column command for a request may issue at c: the data bus is free, the
      bus turnaround is over and, on a row miss, the row has opened. */
  predicate CanIssue(p: Params, minRespCycle: nat, lastCmdWasWrite: bool, write: bool, cur: nat, ready: nat, c: nat) {
    && cur <= c && minRespCycle <= c + p.tCL && ready <= c
    && (lastCmdWasWrite && !write ==> minRespCycle + p.tWTR <= c)
  }

  ghost predicate Earliest(p: Params, minRespCycle: nat, lastCmdWasWrite: bool, write: bool, cur: nat, ready: nat, cmd: nat) {
    && CanIssue(p, minRespCycle, lastCmdWasWrite, write, cur, ready, cmd)
    && forall c: nat | CanIssue(p, minRespCycle, lastCmdWasWrite, write, cur, ready, c) :: cmd <= c
  }

  /** Where a request's row delay ends: at once when it hits the open row. */
  /** The bank may be precharged as soon as it could before, its row has been open
      for tRAS and its last column command has recovered, and no later. */
  ghost predicate PreBound(p: Params, k: Bank, k': Bank, write: bool) {
    var row, col := k'.lastActCycle + p.tRAS, k'.lastCmdCycle + p.Recovery(write);
    && k'.minPreCycle >= k.minPreCycle && k'.minPreCycle >= row && k'.minPreCycle >= col
    && (k'.minPreCycle == k.minPreCycle || k'.minPreCycle == row || k'.minPreCycle == col)
  }

  function RowReady(p: Params, k: Bank, r: Request, faw: nat): nat {
    if RowHit(k, r) then 0 else ActCycle(p, k, r, faw) + p.tRCD
  }

  function ActOf(p: Params, k: Bank, r: Request, faw: nat): nat {
    if RowHit(k, r) then k.lastActCycle else ActCycle(p, k, r, faw)
  }

  /** The commands for a request, decided on at cur, come no later than they have to. */
  ghost predicate Prompt(p: Params, tr: Trace, k: Bank, r: Request, cur: nat, faw: nat, cmd: nat) {
    var act := ActOf(p, k, r, faw);
    && ColPrompt(p, tr, Col(r.bank, r.row, r.write, cmd), cur, if RowHit(k, r) then cur else act + p.tRCD)
    && (!RowHit(k, r) ==> ActPrompt(p, tr, Act(r.bank, r.row, act), r.arrival, k.open, faw))
  }

  /** Whether the request behind the front one continues its row hits. */
  predicate MoreHits(l: seq<DdrQueue.Req>) {
    |l| > 1 && l[1].hits != 0
  }

  class DDRMemory {
    const p: Params
    const queueDepth: nat
    const rowHitLimit: nat
    const deferredWrites: bool
    const closedPage: bool
    const banks: array<Bank>
    var rd: Side
    var wr: Side
    var reqs: Requests
    var overflow: seq<nat>
    var nextId: nat
    var minRespCycle: nat
    var lastCmdWasWrite: bool
    var nextSchedCycle: Cycle
    ghost var trace: Trace
    ghost var served: seq<nat>

    ghost function Chan(): Channel
      reads this`minRespCycle, this`lastCmdWasWrite, banks
    {
      Channel(banks[..], minRespCycle, lastCmdWasWrite)
    }

    ghost predicate Queued()
      reads this`rd, this`wr, this`reqs, this`overflow, this`served, this`nextId
    {
      && banks.Length > 0 && queueDepth > 0 && |rd.lists| == banks.Length
      && |rd.queue| <= queueDepth && |wr.queue| <= queueDepth
      && AllOfKind(rd.queue, reqs, deferredWrites, false) && AllOfKind(wr.queue, reqs, deferredWrites, true)
      && Books(rd, wr, reqs, overflow, served, nextId)
    }

    ghost predicate Valid()
      reads this`rd, this`wr, this`reqs, this`overflow, this`served, this`nextId,
            this`minRespCycle, this`lastCmdWasWrite, this`trace, banks
    {
      Queued() && ChannelOk(p, Chan(), trace) && Exact(p, Chan(), trace)
    }

    /** With anything waiting, a tick is due. */
    ghost predicate Awake()
      reads this`nextSchedCycle, this`overflow, this`rd, this`wr
    {
      nextSchedCycle.Never? ==> rd.queue == [] && wr.queue == [] && overflow == []
    }

    constructor (p: Params, banks: nat, depth: nat, limit: nat, deferred: bool, closed: bool)
      requires p.Valid() && banks > 0 && depth > 0
      ensures Valid() && Awake() && fresh(this.banks) && nextSchedCycle == Never
      ensures nextId == 0 && trace == [] && served == [] && rd.queue == [] && wr.queue == [] && overflow == []
      ensures this.p == p && queueDepth == depth && deferredWrites == deferred && this.banks.Length == banks
      ensures this.banks[0] == Bank(0, false, 0, 0, 0, 0) && minRespCycle == p.tCL + p.tBL + 1 && !lastCmdWasWrite
    {
      this.p, queueDepth, rowHitLimit, deferredWrites, closedPage := p, depth, limit, deferred, closed;
      rd, wr := Side([], seq(banks, _ => [])), Side([], seq(banks, _ => []));
      this.banks := new Bank[banks](_ => Bank(0, false, 0, 0, 0, 0));
      reqs, overflow, nextId := map[], [], 0;
      minRespCycle, lastCmdWasWrite, nextSchedCycle := p.tCL + p.tBL + 1, false, Never;
      trace, served := [], [];
    }

    /** The command times for a request, and its bank afterwards. */
    method Issue(k: Bank, r: Request, cur: nat, faw: nat, hits: nat, more: bool) returns (k': Bank, cmd: nat)
      requires p.Valid() && minRespCycle > p.tCL + p.tBL
      ensures Earliest(p, minRespCycle, lastCmdWasWrite, r.write, cur, RowReady(p, k, r, faw), cmd)
      ensures k'.lastActCycle == ActOf(p, k, r, faw) && k'.lastCmdCycle == cmd && k'.curRowHits == hits
      ensures k'.openRow == r.row && k'.open == !(closedPage && !more)
      ensures PreBound(p, k, k', r.write)
    {
      var minCmdCycle := Max(cur, minRespCycle - p.tCL);
      if lastCmdWasWrite && !r.write { minCmdCycle := Max(minCmdCycle, minRespCycle + p.tWTR); }
      k' := k;
      if !RowHit(k, r) {
        var preCycle := if k.open then Max(r.arrival, k.minPreCycle) else k.minPreCycle;
        var actCycle := ActCycle(p, k, r, faw);
        k' := k.(open := true, openRow := r.row, lastActCycle := actCycle,
                 minPreCycle := if k.open then preCycle + p.tRAS else k.minPreCycle);
        minCmdCycle := Max(minCmdCycle, actCycle + p.tRCD);
      }
      cmd := Max(minCmdCycle, minRespCycle - p.tCL);
      var resp := cmd + p.tCL + p.tBL;
      if closedPage && !more { k' := k'.(open := false); }
      k' := k'.(minPreCycle := Max(k'.minPreCycle, Max(k'.lastActCycle + p.tRAS, if r.write then resp + p.tWR else cmd + p.tRTP)),
                lastCmdCycle := cmd, curRowHits := hits);
    }

    /** The write queue (w) or the read queue. */
    function Of(w: bool): Side
      reads this`rd, this`wr
    {
      if w then wr else rd
    }

    lemma KindsLeft(q: seq<nat>, q': seq<nat>, i: nat, w: bool)
      requires AllOfKind(q, reqs, deferredWrites, w) && AllOfKind(q', reqs, deferredWrites, !w)
      requires i < |q| && q[i] !in q[..i] + q[i + 1..] && q[i] !in q'
      ensures AllOfKind(q[..i] + q[i + 1..], reqs - {q[i]}, deferredWrites, w)
      ensures AllOfKind(q', reqs - {q[i]}, deferredWrites, !w)
    {
      KindKept(q, q[..i] + q[i + 1..], reqs, reqs - {q[i]}, deferredWrites, w);
      KindKept(q', q', reqs, reqs - {q[i]}, deferredWrites, !w);
    }

    /** Take request i of a side's arrival queue off both its lists. */
    method Dequeue(w: bool, i: nat)
      requires Queued() && i < |Of(w).queue| && Of(w).Front(reqs, i)
      modifies this`rd, this`wr, this`reqs, this`served
      ensures Queued() && Of(!w) == old(Of(!w)) && Of(w).queue == old(Of(w).queue[..i] + Of(w).queue[i + 1..])
      ensures served == old(served) + [old(Of(w).queue[i])] && reqs == old(reqs) - {old(Of(w).queue[i])}
    {
      var id := Of(w).queue[i];
      Apart(rd.queue, wr.queue, overflow, served, nextId, id);
      var s, head := Of(w).Remove(reqs, i);
      if w {
        Flip(rd, wr, reqs, overflow, served, nextId);
        DequeueOk(wr, rd, reqs, overflow, served, nextId, i, s);
        Flip(s, rd, reqs - {id}, overflow, served + [id], nextId);
        KindsLeft(wr.queue, rd.queue, i, true);
        wr := s;
      } else {
        DequeueOk(rd, wr, reqs, overflow, served, nextId, i, s);
        KindsLeft(rd.queue, wr.queue, i, false);
        rd := s;
      }
      reqs, served := reqs - {id}, served + [id];
    }

    /** The earliest cycle is one that some constraint dictates. */
    lemma IssuePrompt(ch: Channel, tr: Trace, r: Request, cur: nat, faw: nat, cmd: nat)
      requires ChannelOk(p, ch, tr) && Exact(p, ch, tr) && r.bank < |ch.banks|
      requires Earliest(p, ch.minRespCycle, ch.lastCmdWasWrite, r.write, cur, RowReady(p, ch.banks[r.bank], r, faw), cmd)
      ensures Prompt(p, tr, ch.banks[r.bank], r, cur, faw, cmd)
    {
      var k := ch.banks[r.bank];
      var act, ready := ActOf(p, k, r, faw), RowReady(p, k, r, faw);
      if cmd > 0 { assert !CanIssue(p, ch.minRespCycle, ch.lastCmdWasWrite, r.write, cur, ready, cmd - 1); }
      ColIsPrompt(p, ch, tr, Col(r.bank, r.row, r.write, cmd), cur, if RowHit(k, r) then cur else act + p.tRCD);
      assert BankExact(p, ch, tr, r.bank);
      if !RowHit(k, r) { ActIsPrompt(p, ch, tr, Act(r.bank, r.row, act), r.arrival, faw); }
    }

    /** What issuing does to the channel's bounds, on values; k' is the bank after it. */
    lemma IssueKeeps(ch: Channel, tr: Trace, r: Request, cur: nat, faw: nat, cmd: nat, k': Bank)
      requires ChannelOk(p, ch, tr) && Exact(p, ch, tr) && r.bank < |ch.banks|
      requires Earliest(p, ch.minRespCycle, ch.lastCmdWasWrite, r.write, cur, RowReady(p, ch.banks[r.bank], r, faw), cmd)
      requires k'.lastActCycle == ActOf(p, ch.banks[r.bank], r, faw) && k'.lastCmdCycle == cmd && k'.openRow == r.row
      requires PreBound(p, ch.banks[r.bank], k', r.write)
      ensures ch.banks[r.bank].lastCmdCycle < cmd && Prompt(p, tr, ch.banks[r.bank], r, cur, faw, cmd)
      ensures var ch' := Channel(ch.banks[r.bank := k'], cmd + p.tCL + p.tBL, r.write);
        var tr' := Issued(tr, r.bank, r.row, r.write, !RowHit(ch.banks[r.bank], r), k'.lastActCycle, cmd);
        ChannelOk(p, ch', tr') && Exact(p, ch', tr')
    {
      var miss := !RowHit(ch.banks[r.bank], r);
      IssuePrompt(ch, tr, r, cur, faw, cmd);
      IssueOk(p, ch, tr, r.bank, r.row, r.write, miss, k'.lastActCycle, cmd, k');
      IssueExact(p, ch, tr, r.bank, r.row, r.write, miss, k'.lastActCycle, cmd, k');
    }

    /** Issue the commands for a request. */
    method Command(r: Request, cur: nat, faw: nat, hits: nat, more: bool) returns (cmd: nat)
      requires ChannelOk(p, Chan(), trace) && Exact(p, Chan(), trace) && r.bank < banks.Length
      modifies this`minRespCycle, this`lastCmdWasWrite, this`trace, banks
      ensures ChannelOk(p, Chan(), trace) && Exact(p, Chan(), trace)
      ensures Prompt(p, old(trace), old(banks[r.bank]), r, cur, faw, cmd)
      ensures var k := old(banks[r.bank]);
        && Earliest(p, old(minRespCycle), old(lastCmdWasWrite), r.write, cur, RowReady(p, k, r, faw), cmd)
        && trace == Issued(old(trace), r.bank, r.row, r.write, !RowHit(k, r), ActOf(p, k, r, faw), cmd)
        && k.lastCmdCycle < cmd && minRespCycle == cmd + p.tCL + p.tBL && lastCmdWasWrite == r.write
        && banks[r.bank].open == !(closedPage && !more) && banks[r.bank].curRowHits == hits && banks[r.bank].openRow == r.row
        && banks[r.bank].lastCmdCycle == cmd && banks[r.bank].lastActCycle == ActOf(p, k, r, faw)
        && PreBound(p, k, banks[r.bank], r.write)
        && banks[..] == old(banks[..])[r.bank := banks[r.bank]]
    {
      var k := banks[r.bank];
      var k', c := Issue(k, r, cur, faw, hits, more);
      cmd := c;
      IssueKeeps(Chan(), trace, r, cur, faw, cmd, k');
      ghost var ch' := Channel(banks[..][r.bank := k'], cmd + p.tCL + p.tBL, r.write);
      banks[r.bank] := k';
      minRespCycle, lastCmdWasWrite := cmd + p.tCL + p.tBL, r.write;
      trace := Issued(trace, r.bank, r.row, r.write, !RowHit(k, r), k'.lastActCycle, cmd);
      assert Chan() == ch';
    }

    /** Issue request i of a side's arrival queue, which heads its bank's list. */
    method Serve(w: bool, i: nat, cur: nat, faw: nat -> nat) returns (r: Request, cmd: nat)
      requires Valid() && i < |Of(w).queue| && Of(w).Front(reqs, i)
      modifies this`rd, this`wr, this`reqs, this`served, this`minRespCycle, this`lastCmdWasWrite, this`trace, banks
      ensures Valid() && r == old(reqs[Of(w).queue[i]]) && r.bank < banks.Length
      ensures Of(!w) == old(Of(!w)) && Of(w).queue == old(Of(w).queue[..i] + Of(w).queue[i + 1..])
      ensures served == old(served) + [old(Of(w).queue[i])] && reqs == old(reqs) - {old(Of(w).queue[i])}
      ensures var k, l := old(banks[r.bank]), old(Of(w).lists)[r.bank];
        && l != []
        && Earliest(p, old(minRespCycle), old(lastCmdWasWrite), r.write, cur, RowReady(p, k, r, faw(r.bank)), cmd)
        && trace == Issued(old(trace), r.bank, r.row, r.write, !RowHit(k, r), ActOf(p, k, r, faw(r.bank)), cmd)
        && Prompt(p, old(trace), k, r, cur, faw(r.bank), cmd)
        && k.lastCmdCycle < cmd && minRespCycle == cmd + p.tCL + p.tBL
        && banks[r.bank].curRowHits == l[0].hits && banks[r.bank].openRow == r.row == l[0].row
        && banks[r.bank].lastCmdCycle == cmd && banks[r.bank].lastActCycle == ActOf(p, k, r, faw(r.bank))
        && PreBound(p, k, banks[r.bank], r.write)
        && (banks[r.bank].open <==> !closedPage || (|l| > 1 && l[1].row == r.row && l[1].hits == l[0].hits + 1))
      ensures w ==> r.write && deferredWrites
      ensures !w ==> !r.write || !deferredWrites
      ensures forall b: nat | b < banks.Length && b != r.bank :: banks[b] == old(banks[b])
    {
      r := reqs[Of(w).queue[i]];
      assert OfKind(reqs, Of(w).queue[i], deferredWrites, w);
      var l := Of(w).lists[r.bank];
      assert ListOk(Of(w).queue, l, reqs, r.bank) && l[0] in l && ItemOk(Of(w).queue, l[0], reqs, r.bank);
      assert |l| > 1 && l[1].hits > 0 ==> l[0].row == l[1].row && l[1].hits == l[0].hits + 1;
      cmd := Command(r, cur, faw(r.bank), l[0].hits, MoreHits(l));
      Dequeue(w, i);
    }

    /** Writes go first when there are no reads, or when they pile up; once
        writing, the controller goes on until they are down to a quarter. */
    predicate WritesFirst()
      reads this`lastCmdWasWrite, this`rd, this`wr
    {
      rd.queue == [] || |wr.queue| > 3 * queueDepth / 4 || (lastCmdWasWrite && |wr.queue| > queueDepth / 4)
    }

    /** That is: writes wait while they fill at most a quarter of their queue, go
        first from three quarters on, and in between the controller goes on with what
        it did last. The queue it chooses is never the empty one of the two. */
    lemma QueueChoice()
      ensures rd.queue != [] && 4 * |wr.queue| <= queueDepth ==> !WritesFirst()
      ensures rd.queue != [] && queueDepth < 4 * |wr.queue| <= 3 * queueDepth ==> WritesFirst() == lastCmdWasWrite
      ensures rd.queue == [] || 3 * queueDepth < 4 * |wr.queue| ==> WritesFirst()
      ensures Chosen().queue == [] ==> rd.queue == [] && wr.queue == []
    {
    }

    ghost function Chosen(): Side
      reads this`lastCmdWasWrite, this`rd, this`wr
    {
      Of(WritesFirst())
    }

    ghost predicate Ready(i: nat, cur: nat, faw: nat -> nat)
      reads this`reqs, this`lastCmdWasWrite, this`rd, this`wr, banks
    {
      var side := Chosen();
      i < |side.queue| && side.Front(reqs, i) && ReadyAt(p, reqs, banks[..], side.queue[i], faw) <= cur
    }

    ghost predicate FirstReady(i: nat, cur: nat, faw: nat -> nat)
      reads this`reqs, this`lastCmdWasWrite, this`rd, this`wr, banks
    {
      Ready(i, cur, faw) && forall j: nat | j < i :: !Ready(j, cur, faw)
    }

    /** Nothing can issue yet, as the data bus is taken too far ahead. */
    ghost predicate BusTaken(cur: nat)
      reads this`minRespCycle
    {
      cur + p.tCL < minRespCycle
    }

    /** The data bus is taken too far ahead, or no front request is ready. */
    ghost predicate NothingReady(cur: nat, faw: nat -> nat)
      reads this`reqs, this`minRespCycle, this`lastCmdWasWrite, this`rd, this`wr, banks
    {
      BusTaken(cur) || forall j: nat :: !Ready(j, cur, faw)
    }

    /** When to look again after a decision not to issue: when the data bus frees
        up, or when the first front request of the chosen queue becomes ready. */
    ghost predicate LookAgain(next: Cycle, cur: nat, faw: nat -> nat)
      reads this`reqs, this`minRespCycle, this`lastCmdWasWrite, this`rd, this`wr, banks
    {
      next.At? && next.c > cur &&
        if BusTaken(cur) then next.c + p.tCL == minRespCycle
        else
          && (exists j: nat :: Ready(j, next.c, faw))
          && (forall j: nat, c: nat | Ready(j, c, faw) :: next.c <= c)
    }

    /** The decision itself: the place of the first ready request in the chosen
        queue, or -1 and when to look again. */
    method Pick(cur: nat, faw: nat -> nat) returns (i: int, next: Cycle)
      requires Valid()
      ensures if i < 0 then NothingReady(cur, faw) else !NothingReady(cur, faw) && FirstReady(i, cur, faw)
      ensures i < 0 ==> if rd.queue == [] && wr.queue == [] then next.Never? else LookAgain(next, cur, faw)
    {
      i, next := -1, Never;
      if rd.queue == [] && wr.queue == [] { return; }
      if cur + p.tCL < minRespCycle {
        next := At(minRespCycle - p.tCL);
        return;
      }
      var side := Of(WritesFirst());
      var n, soonest := side.FindReady(p, reqs, banks, cur, faw);
      if n < |side.queue| {
        i := n;
        assert Ready(n, cur, faw);
      } else {
        next := soonest;
        ghost var j: nat :| j < |side.queue| && side.Front(reqs, j) && ReadyAt(p, reqs, banks[..], side.queue[j], faw) == next.c;
        assert Ready(j, next.c, faw);
      }
    }

    /** One scheduling step: serve the picked request, or say when to try again. */
    method TrySchedule(cur: nat, faw: nat -> nat) returns (next: Cycle, picked: int)
      requires Valid()
      modifies this`rd, this`wr, this`reqs, this`served, this`minRespCycle, this`lastCmdWasWrite, this`trace, banks
      ensures Valid()
      ensures next.At? ==> next.c > cur
      ensures next.Never? <==> rd.queue == [] && wr.queue == []
      ensures picked < 0 <==> old(NothingReady(cur, faw))
      ensures picked < 0 ==> unchanged(this, banks) && (next.Never? || old(LookAgain(next, cur, faw)))
      ensures picked >= 0 && next.At? ==> next.c + p.tCL == minRespCycle
      ensures picked >= 0 ==>
        && old(FirstReady(picked, cur, faw)) && minRespCycle >= cur + p.tCL + p.tBL
        && served == old(served) + [old(Chosen().queue[picked])]
        && var w := old(WritesFirst());
          Of(!w) == (if w then old(rd) else old(wr))
          && Of(w).queue == old(Chosen().queue[..picked] + Chosen().queue[picked + 1..])
    {
      picked, next := Pick(cur, faw);
      if picked >= 0 {
        assert old(!NothingReady(cur, faw) && FirstReady(picked, cur, faw));
        var r, cmd := Serve(WritesFirst(), picked, cur, faw);
        next := if rd.queue == [] && wr.queue == [] then Never else At(minRespCycle - p.tCL);
      }
    }

    /** Which queue a request belongs to. */
    predicate IsWrite(r: Request) {
      deferredWrites && r.write
    }

    /** DDRMemory::queue: a new request (id nextId), or the oldest overflowing
        one, enters its side. head says whether it heads its bank's list. */
    method Accept(id: nat, r: Request) returns (head: bool)
      requires Queued() && r.bank < banks.Length && |Of(IsWrite(r)).queue| < queueDepth
      requires id == nextId || (overflow != [] && overflow[0] == id)
      modifies this`rd, this`wr, this`reqs, this`overflow, this`nextId
      ensures Queued() && reqs == old(reqs)[id := r]
      ensures Of(!IsWrite(r)) == old(Of(!IsWrite(r))) && Of(IsWrite(r)).queue == old(Of(IsWrite(r)).queue) + [id]
      ensures var k := banks[r.bank];
        Of(IsWrite(r)) == old(Of(IsWrite(r))).With(id, r, DdrQueue.BankView(k.open, k.openRow, k.curRowHits), rowHitLimit)
      ensures head <==> Of(IsWrite(r)).IsFirst(r, id)
      ensures old(Of(IsWrite(r)).queue) == [] ==> head
      ensures if id == old(nextId) then nextId == id + 1 && overflow == old(overflow) else nextId == old(nextId) && overflow == old(overflow[1..])
    {
      var w, k := IsWrite(r), banks[r.bank];
      Apart(rd.queue, wr.queue, overflow, served, nextId, id);
      var s := Of(w).Add(reqs, id, r, DdrQueue.BankView(k.open, k.openRow, k.curRowHits), rowHitLimit);
      ghost var ov' := if id == nextId then overflow else overflow[1..];
      EnteredOk(w, rd, wr, reqs, overflow, served, nextId, id, r, s, ov');
      KindAdded(Of(w).queue, reqs, deferredWrites, w, id, r);
      KindKept(Of(!w).queue, Of(!w).queue, reqs, reqs[id := r], deferredWrites, !w);
      if w { wr := s; } else { rd := s; }
      reqs := reqs[id := r];
      if id == nextId { nextId := nextId + 1; } else { overflow := overflow[1..]; }
      head := s.IsFirst(r, id);
    }

    /** The earliest cycle at which the data bus is worth looking at. */
    function Bound(cur: nat): nat
      requires minRespCycle > p.tCL + p.tBL
      reads this`minRespCycle
    {
      Max(cur, minRespCycle - p.tCL - p.tBL)
    }

    /** When a request that now heads its bank's list could be looked at. */
    function LookAt(r: Request, cur: nat, faw: nat -> nat): nat
      requires r.bank < banks.Length && minRespCycle > p.tCL + p.tBL
      reads this`minRespCycle, banks
    {
      Max(Bound(cur), MinCmdCycle(p, banks[r.bank], r, faw(r.bank)))
    }

    /** Those are the first cycles, from now on, at which data could be on the bus at
        the end of a column access and its burst, and at which also the bank takes
        the command. */
    lemma LookAtIs(r: Request, cur: nat, faw: nat -> nat, c: nat)
      requires r.bank < banks.Length && minRespCycle > p.tCL + p.tBL
      ensures c >= Bound(cur) <==> c >= cur && c + p.tCL + p.tBL >= minRespCycle
      ensures c >= LookAt(r, cur, faw) <==>
        c >= cur && c + p.tCL + p.tBL >= minRespCycle && BankTakes(p, banks[r.bank], r, faw(r.bank), c)
    {
      MinCmdCycleIs(p, banks[r.bank], r, faw(r.bank), c);
    }

    /** A request arrives: it is queued, or kept in the overflow while a queue is
        full. If it now heads its bank's list, the next tick comes early enough. */
    method Enqueue(bank: nat, row: nat, write: bool, cur: nat, faw: nat -> nat) returns (queued: bool)
      requires Valid() && Awake() && bank < banks.Length
      modifies this`rd, this`wr, this`reqs, this`overflow, this`nextId, this`nextSchedCycle
      ensures Valid() && Awake()
      ensures nextId == old(nextId) + 1 && reqs == old(reqs)[old(nextId) := Request(bank, row, write, cur)]
      ensures queued <==> old(|rd.queue| < queueDepth && |wr.queue| < queueDepth)
      ensures var r := Request(bank, row, write, cur); var w := IsWrite(r);
        && Of(!w) == old(Of(!w))
        && (if queued then overflow == old(overflow) && Of(w).queue == old(Of(w).queue) + [old(nextId)]
            else overflow == old(overflow) + [old(nextId)] && Of(w) == old(Of(w)))
        && nextSchedCycle == if queued && Of(w).IsFirst(r, old(nextId))
                             then Earlier(old(nextSchedCycle), LookAt(r, cur, faw)) else old(nextSchedCycle)
    {
      var id, r := nextId, Request(bank, row, write, cur);
      queued := |rd.queue| < queueDepth && |wr.queue| < queueDepth;
      if queued {
        var head := Accept(id, r);
        if head {
          var ready := MinCmdCycle(p, banks[bank], r, faw(bank));
          WakeRules(nextSchedCycle, Bound(cur), ready);
          nextSchedCycle := EnqueueRule(nextSchedCycle, Bound(cur), ready);
        }
      } else {
        SpillOk(rd, wr, reqs, overflow, served, nextId, r);
        Apart(rd.queue, wr.queue, overflow, served, nextId, id);
        KindKept(rd.queue, rd.queue, reqs, reqs[id := r], deferredWrites, false);
        KindKept(wr.queue, wr.queue, reqs, reqs[id := r], deferredWrites, true);
        overflow, reqs, nextId := overflow + [id], reqs[id := r], id + 1;
      }
    }

    /** The second half of a tick: with room in both queues the oldest overflowing
        request moves in, with the current cycle as its arrival, and may bring the
        next tick forward. head says that one did and heads its bank's list. */
    method MoveIn(next: Cycle, cur: nat, faw: nat -> nat) returns (moved: bool, head: bool)
      requires Valid() && (next.Never? <==> rd.queue == [] && wr.queue == [])
      modifies this`rd, this`wr, this`reqs, this`overflow, this`nextId, this`nextSchedCycle
      ensures Valid() && Awake() && nextId == old(nextId)
      ensures nextSchedCycle == if head then Earlier(next, Bound(cur)) else next
      ensures moved <==> old(|rd.queue| < queueDepth && |wr.queue| < queueDepth && overflow != [])
      ensures overflow == (if moved then old(overflow[1..]) else old(overflow))
      ensures !moved ==> rd == old(rd) && wr == old(wr) && reqs == old(reqs) && !head
      ensures moved ==> old(overflow[0] in reqs)
      ensures moved ==>
        var id := old(overflow[0]);
        var r := old(reqs)[id].(arrival := cur);
        var w := IsWrite(r);
        && r.bank < |Of(w).lists| && reqs == old(reqs)[id := r]
        && Of(!w) == old(Of(!w)) && Of(w).queue == old(Of(w).queue) + [id]
        && (head <==> Of(w).IsFirst(r, id))
    {
      ghost var ch := Chan();
      nextSchedCycle, moved, head := next, |rd.queue| < queueDepth && |wr.queue| < queueDepth && overflow != [], false;
      if moved {
        var id := overflow[0];
        assert id in overflow && Known(reqs, id, banks.Length);
        var r := reqs[id].(arrival := cur);
        Apart(rd.queue, wr.queue, overflow, served, nextId, id);
        head := Accept(id, r);
        if head {
          var ready := MinCmdCycle(p, banks[r.bank], r, faw(r.bank));
          WakeRules(next, Bound(cur), ready);
          nextSchedCycle := TickRule(next, Bound(cur), ready);
        }
      }
      assert Chan() == ch;
    }

    /** The scheduled tick: one scheduling step, which asks for a tick at next, then
        at most one request moves in from the overflow. If it did and heads its
        bank's list, the next tick comes when the bus is worth looking at; right
        after a request has been served, that tick finds the bus taken. */
    method Tick(cur: nat, faw: nat -> nat) returns (picked: int, next: Cycle, moved: bool, head: bool)
      requires Valid() && nextSchedCycle == At(cur)
      modifies this`rd, this`wr, this`reqs, this`overflow, this`nextId, this`served, this`minRespCycle, this`lastCmdWasWrite,
               this`trace, this`nextSchedCycle, banks
      ensures Valid() && Awake()
      ensures nextId == old(nextId) && (moved ==> old(overflow) != [])
      ensures overflow == if moved then old(overflow[1..]) else old(overflow)
      ensures picked < 0 <==> old(NothingReady(cur, faw))
      ensures picked < 0 ==> served == old(served) && trace == old(trace) && (next.Never? || old(LookAgain(next, cur, faw)))
      ensures picked >= 0 ==> old(FirstReady(picked, cur, faw)) && served == old(served) + [old(Chosen().queue[picked])]
      ensures picked >= 0 && next.At? ==> next.c + p.tCL == minRespCycle
      ensures picked >= 0 && old(|rd.queue| + |wr.queue|) == 1 ==> next.Never?
      ensures next.At? ==> next.c > cur
      ensures nextSchedCycle == if head then Earlier(next, Bound(cur)) else next
      ensures head ==> moved
      ensures picked >= 0 && head ==> BusTaken(nextSchedCycle.c)
      ensures picked < 0 && !moved ==>
        unchanged(this`rd, this`wr, this`reqs, this`minRespCycle, this`lastCmdWasWrite, banks)
    {
      next, picked := TrySchedule(cur, faw);
      moved, head := MoveIn(next, cur, faw);
    }

    /** When every bank may be precharged. */
    method RefreshStart(cur: nat) returns (start: nat)
      ensures start >= cur
      ensures forall b: nat | b < banks.Length :: banks[b].minPreCycle <= start && banks[b].lastCmdCycle <= start
      ensures start == cur || exists b: nat | b < banks.Length :: start == banks[b].minPreCycle || start == banks[b].lastCmdCycle
    {
      start := cur;
      var b := 0;
      while b < banks.Length
        invariant b <= banks.Length && start >= cur
        invariant forall c: nat | c < b :: banks[c].minPreCycle <= start && banks[c].lastCmdCycle <= start
        invariant start == cur || exists c: nat | c < b :: start == banks[c].minPreCycle || start == banks[c].lastCmdCycle
      {
        start := Max(start, Max(banks[b].minPreCycle, banks[b].lastCmdCycle));
        b := b + 1;
      }
    }

    /** Close every bank and keep its next ACT out until tRFC after start. */
    method CloseAll(start: nat, ghost tr: Trace)
      requires p.Valid()
      modifies this`trace, banks
      ensures trace == tr && Refreshed(p, old(Chan()), start, Chan())
    {
      trace := tr;
      var b := 0;
      while b < banks.Length
        invariant b <= banks.Length && trace == tr
        invariant forall c: nat | c < b :: banks[c] == old(banks[c]).(minPreCycle := start + p.tRFC - p.tRP, open := false)
        invariant forall c: nat | b <= c < banks.Length :: banks[c] == old(banks[c])
      {
        banks[b] := banks[b].(minPreCycle := start + p.tRFC - p.tRP, open := false);
        b := b + 1;
      }
    }

    /** Refresh: every bank closes and stays closed until it is done. */
    method Refresh(cur: nat) returns (start: nat)
      requires Valid()
      modifies this`trace, banks
      ensures Valid() && start >= cur
      ensures trace == old(trace) + [DdrTiming.Refresh(start, start + p.tRFC)]
      ensures forall b: nat | b < banks.Length :: banks[b].minPreCycle + p.tRP == start + p.tRFC && !banks[b].open
      ensures forall b: nat | b < banks.Length :: banks[b].lastCmdCycle == old(banks[b].lastCmdCycle)
      ensures start == cur || exists b: nat | b < banks.Length :: start == old(banks[b].minPreCycle) || start == old(banks[b].lastCmdCycle)
      ensures forall b: nat | b < banks.Length :: old(banks[b].minPreCycle) <= start && old(banks[b].lastCmdCycle) <= start
    {
      start := RefreshStart(cur);
      CloseAll(start, trace + [DdrTiming.Refresh(start, start + p.tRFC)]);
      RefreshOk(p, old(Chan()), old(trace), start, Chan());
      RefreshExact(p, old(Chan()), old(trace), start, Chan());
    }
  }

  function NoWindow(b: nat): nat {
    0
  }

  lemma ReadyAtTwo(p: Params)
    requires p == Params(1, 1, 1, 1, 1, 1, 1, 1, 1, 1, 1)
    ensures MinCmdCycle(p, Bank(0, false, 0, 0, 0, 0), Request(0, 0, false, 1), 0) == 2
  {
  }

  /** A controller with one bank and room for one request gets two reads of different
      rows at cycle 1; the second overflows. */
  method TwoReads() returns (m: DDRMemory)
    ensures fresh(m) && fresh(m.banks) && m.Valid()
    ensures m.nextSchedCycle == At(2) && !m.NothingReady(2, NoWindow)
    ensures m.Chosen().queue == [0] && |m.rd.queue| + |m.wr.queue| == 1 && m.served == [] && m.nextId == 2
  {
    m := new DDRMemory(Params(1, 1, 1, 1, 1, 1, 1, 1, 1, 1, 1), 1, 1, 0, false, false);
    ReadyAtTwo(m.p);
    var q0 := m.Enqueue(0, 0, false, 1, NoWindow);
    var q1 := m.Enqueue(0, 1, false, 1, NoWindow);
    ghost var j := m.rd.SomeFront(m.reqs);
    assert m.Ready(j, 2, NoWindow);
  }

  /** Once the first is served at cycle 2 the second moves in, and the tick scheduled
      next finds the bus taken. */
  method WastedTick() returns (m: DDRMemory, due: nat)
    ensures m.Valid() && m.served == [0] && m.nextId == 2
    ensures m.nextSchedCycle == At(due) && m.BusTaken(due)
  {
    m := TwoReads();
    var picked, next, moved, head := m.Tick(2, NoWindow);
    Apart(m.rd.queue, m.wr.queue, m.overflow, m.served, m.nextId, 1);
    due := m.nextSchedCycle.c;
  }
}
