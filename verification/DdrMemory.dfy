/** The DDR controller: request lists, the scheduling scan, column timing and
    refresh, with the command trace it produces. */
module DdrMemories {
  import opened Sequences
  import opened DdrTiming
  import DdrQueue

  datatype Request = Request(bank: nat, row: nat, write: bool, arrival: nat)

  type Requests = map<nat, Request>

  /** A memory cycle, or never (the source's -1). */
  datatype Cycle = Never | At(c: nat)

  function Max(a: nat, b: nat): (m: nat)
    ensures m >= a && m >= b && (m == a || m == b)
  {
    if a > b then a else b
  }

  function Min(a: Cycle, b: nat): Cycle {
    if a.Never? || b < a.c then At(b) else a
  }

  function RowHit(k: Bank, r: Request): bool {
    r.row == k.openRow && k.open
  }

  /** The cycle of the ACT that a row miss needs; faw is the earliest cycle the
      rank's activation window allows. */
  function ActCycle(p: Params, k: Bank, r: Request, faw: nat): nat {
    var preCycle := if k.open then Max(r.arrival, k.minPreCycle) else k.minPreCycle;
    Max(Max(r.arrival, Max(preCycle + p.tRP, k.lastActCycle + p.tRRD)), faw + p.tFAW)
  }

  /** findMinCmdCycle: when the request's bank could take its column command. */
  function MinCmdCycle(p: Params, k: Bank, r: Request, faw: nat): nat {
    if RowHit(k, r) then Max(r.arrival, k.lastCmdCycle + 1) else ActCycle(p, k, r, faw) + p.tRCD
  }

  /** The bank could take the column command at c: after the last one if the row is
      open, else long enough after some ACT, which comes after some precharge. */
  ghost predicate BankTakes(p: Params, k: Bank, r: Request, faw: nat, c: nat) {
    c >= r.arrival &&
    if k.open && k.openRow == r.row then c > k.lastCmdCycle
    else exists pre: nat, act: nat {:trigger ActAt(p, k, r, faw, pre, act)} :: ActAt(p, k, r, faw, pre, act) && c >= act + p.tRCD
  }

  /** pre and act are allowed by the bank, its rank's activation window and the
      request, which nobody knew of before it arrived. */
  predicate ActAt(p: Params, k: Bank, r: Request, faw: nat, pre: nat, act: nat) {
    && pre >= k.minPreCycle && (k.open ==> pre >= r.arrival)
    && act >= pre + p.tRP && act >= r.arrival && act >= k.lastActCycle + p.tRRD && act >= faw + p.tFAW
  }

  /** MinCmdCycle is the first such cycle. */
  lemma MinCmdCycleIs(p: Params, k: Bank, r: Request, faw: nat, c: nat)
    ensures BankTakes(p, k, r, faw, c) <==> c >= MinCmdCycle(p, k, r, faw)
  {
    if !RowHit(k, r) {
      var pre := if k.open then Max(r.arrival, k.minPreCycle) else k.minPreCycle;
      assert ActAt(p, k, r, faw, pre, ActCycle(p, k, r, faw));
    }
  }

  /** When a queued request could take its column command. */
  ghost function ReadyAt(p: Params, reqs: Requests, banks: seq<Bank>, id: nat, faw: nat -> nat): nat {
    if id in reqs && reqs[id].bank < |banks| then MinCmdCycle(p, banks[reqs[id].bank], reqs[id], faw(reqs[id].bank)) else 0
  }

  // ------------------------------------------------------- one request queue

  ghost predicate Listed(l: seq<DdrQueue.Req>, id: nat) {
    exists x :: x in l && x.id == id
  }

  ghost predicate OtherId(l: seq<DdrQueue.Req>, i: nat, j: nat)
    requires i < j < |l|
  {
    l[i].id != l[j].id
  }

  ghost predicate DistinctIds(l: seq<DdrQueue.Req>) {
    forall i: nat, j: nat {:trigger OtherId(l, i, j)} | i < j < |l| :: OtherId(l, i, j)
  }

  /** A bank's list holds queued requests for that bank, each once. */
  ghost predicate ListOk(queue: seq<nat>, l: seq<DdrQueue.Req>, reqs: Requests, b: nat) {
    && DistinctIds(l) && DdrQueue.Chained(l)
    && forall x {:trigger ItemOk(queue, x, reqs, b)} | x in l :: ItemOk(queue, x, reqs, b)
  }

  ghost predicate ItemOk(queue: seq<nat>, x: DdrQueue.Req, reqs: Requests, b: nat) {
    x.id in queue && x.id in reqs && reqs[x.id].bank == b && reqs[x.id].row == x.row
  }

  ghost predicate Entered(ls: seq<seq<DdrQueue.Req>>, reqs: Requests, id: nat) {
    id in reqs && reqs[id].bank < |ls| && Listed(ls[reqs[id].bank], id)
  }

  /** Requests of one kind in arrival order, and the same requests again in one
      FR-FCFS list per bank. */
  ghost predicate SideOk(queue: seq<nat>, ls: seq<seq<DdrQueue.Req>>, reqs: Requests) {
    && Distinct(queue)
    && (forall id {:trigger Entered(ls, reqs, id)} | id in queue :: Entered(ls, reqs, id))
    && (forall b: nat {:trigger ListOk(queue, ls[b], reqs, b)} | b < |ls| :: ListOk(queue, ls[b], reqs, b))
  }

  lemma SpliceDistinct(l: seq<DdrQueue.Req>, k: nat, r: DdrQueue.Req)
    requires k <= |l| && DistinctIds(l) && !Listed(l, r.id)
    ensures DistinctIds(l[..k] + [r] + l[k..])
  {
    var l' := l[..k] + [r] + l[k..];
    assert forall i | 0 <= i < |l'| && i != k :: l'[i] == l[if i < k then i else i - 1] && l'[i] in l;
    forall i: nat, j: nat | i < j < |l'| ensures OtherId(l', i, j) {
      if i != k && j != k { assert OtherId(l, if i < k then i else i - 1, if j < k then j else j - 1); }
    }
  }

  lemma InsertElements(l: seq<DdrQueue.Req>, id: nat, row: nat, view: DdrQueue.BankView, limit: nat)
    ensures var l', r := DdrQueue.Insert(l, id, row, view, limit), DdrQueue.Req(id, row, DdrQueue.Slot(l, row, view, limit).1);
      && (forall x :: x in l' <==> x in l || x == r)
      && (DistinctIds(l) && !Listed(l, id) ==> DistinctIds(l'))
  {
    var (k, hits) := DdrQueue.Slot(l, row, view, limit);
    assert l == l[..k] + l[k..];
    if DistinctIds(l) && !Listed(l, id) { SpliceDistinct(l, k, DdrQueue.Req(id, row, hits)); }
  }

  lemma NotListed(queue: seq<nat>, l: seq<DdrQueue.Req>, reqs: Requests, b: nat, id: nat)
    requires ListOk(queue, l, reqs, b) && id !in queue
    ensures !Listed(l, id)
  {
    forall x | x in l ensures x.id != id { assert ItemOk(queue, x, reqs, b); }
  }

  lemma AddOk(queue: seq<nat>, ls: seq<seq<DdrQueue.Req>>, reqs: Requests, id: nat, r: Request, view: DdrQueue.BankView, limit: nat)
    requires SideOk(queue, ls, reqs) && id !in queue && r.bank < |ls|
    ensures SideOk(queue + [id], ls[r.bank := DdrQueue.Insert(ls[r.bank], id, r.row, view, limit)], reqs[id := r])
  {
    var l' := DdrQueue.Insert(ls[r.bank], id, r.row, view, limit);
    var ls', reqs', queue' := ls[r.bank := l'], reqs[id := r], queue + [id];
    var entry := DdrQueue.Req(id, r.row, DdrQueue.Slot(ls[r.bank], r.row, view, limit).1);
    InsertElements(ls[r.bank], id, r.row, view, limit);
    DdrQueue.InsertChained(ls[r.bank], id, r.row, view, limit) by { assert ListOk(queue, ls[r.bank], reqs, r.bank); }
    assert ListOk(queue, ls[r.bank], reqs, r.bank);
    assert entry in l';
    NotListed(queue, ls[r.bank], reqs, r.bank, id);
    DistinctSnoc(queue, id);
    forall x | x in queue' ensures Entered(ls', reqs', x) {
      if x in queue {
        assert Entered(ls, reqs, x);
        var y :| y in ls[reqs[x].bank] && y.id == x;
        assert y in ls'[reqs[x].bank];
      }
    }
    forall b: nat | b < |ls'| ensures ListOk(queue', ls'[b], reqs', b) {
      assert ListOk(queue, ls[b], reqs, b);
      forall x | x in ls'[b] ensures ItemOk(queue', x, reqs', b) {
        assert x in ls[b] ==> ItemOk(queue, x, reqs, b);
      }
    }
  }

  /** Other requests come and go without concern to this side. */
  lemma OtherRequests(queue: seq<nat>, ls: seq<seq<DdrQueue.Req>>, reqs: Requests, reqs': Requests)
    requires SideOk(queue, ls, reqs)
    requires forall id | id in queue :: id in reqs' && id in reqs && reqs'[id] == reqs[id]
    ensures SideOk(queue, ls, reqs')
  {
    forall x | x in queue ensures Entered(ls, reqs', x) { assert Entered(ls, reqs, x); }
    forall b: nat | b < |ls| ensures ListOk(queue, ls[b], reqs', b) {
      assert ListOk(queue, ls[b], reqs, b);
      forall x | x in ls[b] ensures ItemOk(queue, x, reqs', b) { assert ItemOk(queue, x, reqs, b); }
    }
  }

  lemma TailIds(l: seq<DdrQueue.Req>)
    requires l != [] && DistinctIds(l) && DdrQueue.Chained(l)
    ensures DistinctIds(l[1..]) && DdrQueue.Chained(l[1..]) && forall x :: x in l[1..] ==> x in l && x.id != l[0].id
  {
    forall i: nat, j: nat | i < j < |l| - 1 ensures OtherId(l[1..], i, j) { assert OtherId(l, i + 1, j + 1); }
    forall j: nat | 0 < j < |l| ensures l[j].id != l[0].id { assert OtherId(l, 0, j); }
  }

  lemma RemoveOk(queue: seq<nat>, ls: seq<seq<DdrQueue.Req>>, reqs: Requests, i: nat, b: nat)
    requires SideOk(queue, ls, reqs) && i < |queue| && b < |ls|
    requires ls[b] != [] && ls[b][0].id == queue[i]
    ensures SideOk(queue[..i] + queue[i + 1..], ls[b := ls[b][1..]], reqs)
    ensures queue[i] !in queue[..i] + queue[i + 1..]
  {
    var queue', ls' := queue[..i] + queue[i + 1..], ls[b := ls[b][1..]];
    DistinctRemove(queue, i);
    TailIds(ls[b]) by { assert ListOk(queue, ls[b], reqs, b); }
    forall x | x in queue' ensures Entered(ls', reqs, x) {
      assert Entered(ls, reqs, x);
      if reqs[x].bank == b {
        var y :| y in ls[b] && y.id == x;
        assert y in ls'[b];
      }
    }
    forall c: nat | c < |ls'| ensures ListOk(queue', ls'[c], reqs, c) {
      assert ListOk(queue, ls[c], reqs, c);
      assert ls[b][0] in ls[b] && ListOk(queue, ls[b], reqs, b);
      assert ItemOk(queue, ls[b][0], reqs, b);
      forall x | x in ls'[c] ensures ItemOk(queue', x, reqs, c) {
        assert x in ls[c] && ItemOk(queue, x, reqs, c);
      }
    }
  }

  datatype Side = Side(queue: seq<nat>, lists: seq<seq<DdrQueue.Req>>) {

    ghost predicate Valid(reqs: Requests) {
      SideOk(queue, lists, reqs)
    }

    /** The request is the first of its bank's list (the source tests !prev). */
    predicate IsFirst(r: Request, id: nat)
      requires r.bank < |lists|
    {
      lists[r.bank] != [] && lists[r.bank][0].id == id
    }

    ghost predicate Front(reqs: Requests, i: nat)
      requires i < |queue|
    {
      queue[i] in reqs && reqs[queue[i]].bank < |lists| && IsFirst(reqs[queue[i]], queue[i])
    }

    /** With a request at the end of the arrival queue and in its bank's list. */
    function With(id: nat, r: Request, view: DdrQueue.BankView, limit: nat): Side
      requires r.bank < |lists|
    {
      Side(queue + [id], lists[r.bank := DdrQueue.Insert(lists[r.bank], id, r.row, view, limit)])
    }

    /** Without request number i of the arrival queue and the head of bank b's list. */
    function Without(i: nat, b: nat): Side
      requires i < |queue| && b < |lists| && lists[b] != []
    {
      Side(queue[..i] + queue[i + 1..], lists[b := lists[b][1..]])
    }

    /** DDRMemory::queue: append to the arrival queue, insert in the bank list. */
    method Add(ghost reqs: Requests, id: nat, r: Request, view: DdrQueue.BankView, limit: nat) returns (s: Side)
      requires Valid(reqs) && id !in queue && r.bank < |lists|
      ensures s == With(id, r, view, limit) && s.Valid(reqs[id := r])
      ensures queue == [] ==> s.IsFirst(r, id)
    {
      if lists[r.bank] != [] { NoQueueNoLists(reqs, r.bank); }
      AddOk(queue, lists, reqs, id, r, view, limit);
      var l := DdrQueue.Enqueue(lists[r.bank], id, r.row, view, limit);
      s := Side(queue + [id], lists[r.bank := l]);
    }

    /** Dequeue request number i of the arrival queue and the head of its bank's
        list, which are the same request. */
    method Remove(reqs: Requests, i: nat) returns (s: Side, head: DdrQueue.Req)
      requires Valid(reqs) && i < |queue| && Front(reqs, i)
      ensures s == Without(i, reqs[queue[i]].bank) && s.Valid(reqs - {queue[i]})
      ensures head == lists[reqs[queue[i]].bank][0] && head.id == queue[i] && queue[i] !in s.queue
    {
      var id := queue[i];
      var b := reqs[id].bank;
      RemoveOk(queue, lists, reqs, i, b);
      head := lists[b][0];
      s := Side(queue[..i] + queue[i + 1..], lists[b := lists[b][1..]]);
      forall x | x in s.queue ensures x in reqs { assert Entered(s.lists, reqs, x); }
      OtherRequests(s.queue, s.lists, reqs, reqs - {id});
    }

    /** The scheduling scan: the first request in arrival order that heads its
        bank's list and could issue by now, else when the first one could. */
    method FindReady(p: Params, reqs: Requests, banks: array<Bank>, cur: nat, faw: nat -> nat) returns (i: nat, soonest: Cycle)
      requires Valid(reqs) && banks.Length == |lists|
      ensures i <= |queue|
      ensures i < |queue| ==> Front(reqs, i) && ReadyAt(p, reqs, banks[..], queue[i], faw) <= cur
      ensures forall j: nat | j < i && Front(reqs, j) :: ReadyAt(p, reqs, banks[..], queue[j], faw) > cur
      ensures i == |queue| ==>
        && (soonest.At? ==> soonest.c > cur && exists j: nat | j < |queue| && Front(reqs, j) :: ReadyAt(p, reqs, banks[..], queue[j], faw) == soonest.c)
        && (forall j: nat | j < |queue| && Front(reqs, j) :: soonest.At? && soonest.c <= ReadyAt(p, reqs, banks[..], queue[j], faw))
        && (soonest.Never? ==> queue == [])
    {
      i, soonest := 0, Never;
      while i < |queue|
        invariant i <= |queue|
        invariant forall j: nat | j < i && Front(reqs, j) ::
          cur < ReadyAt(p, reqs, banks[..], queue[j], faw) && soonest.At? && soonest.c <= ReadyAt(p, reqs, banks[..], queue[j], faw)
        invariant soonest.At? ==> exists j: nat | j < i && Front(reqs, j) :: ReadyAt(p, reqs, banks[..], queue[j], faw) == soonest.c
      {
        assert Entered(lists, reqs, queue[i]);
        var r := reqs[queue[i]];
        if IsFirst(r, queue[i]) {
          assert Front(reqs, i);
          var c := MinCmdCycle(p, banks[r.bank], r, faw(r.bank));
          soonest := Min(soonest, c);
          if c <= cur { return; }
        }
        i := i + 1;
      }
      if queue != [] { ghost var j := SomeFront(reqs); }
    }

    /** Some queued request heads its bank's list. */
    lemma SomeFront(reqs: Requests) returns (j: nat)
      requires Valid(reqs) && queue != []
      ensures j < |queue| && Front(reqs, j)
    {
      var id := queue[0];
      assert Entered(lists, reqs, id);
      var b := reqs[id].bank;
      var head := lists[b][0];
      assert ListOk(queue, lists[b], reqs, b) && head in lists[b] && ItemOk(queue, head, reqs, b);
      j :| j < |queue| && queue[j] == head.id;
    }

    lemma KnownIds(reqs: Requests, x: nat)
      requires Valid(reqs) && x in queue
      ensures x in reqs && reqs[x].bank < |lists|
    {
      assert Entered(lists, reqs, x);
    }

    lemma NoQueueNoLists(reqs: Requests, b: nat)
      requires Valid(reqs) && b < |lists| && lists[b] != []
      ensures queue != []
    {
      assert ListOk(queue, lists[b], reqs, b) && lists[b][0] in lists[b] && ItemOk(queue, lists[b][0], reqs, b);
    }

    /** A side does not mind what happens to other requests. */
    lemma Others(reqs: Requests, reqs': Requests)
      requires Valid(reqs) && forall id | id in queue :: id in reqs' && id in reqs && reqs'[id] == reqs[id]
      ensures Valid(reqs')
    {
      OtherRequests(queue, lists, reqs, reqs');
    }
  }
}
