/** The DDR controller under the event simulation: runs over system cycles. */
module DdrRuns {
  import opened DdrMemories
  import opened DdrControllers
  import DdrClock

  /** The first n request ids, each once, are n. */
  lemma {:induction false} FirstIds(m: multiset<nat>, n: nat)
    requires forall id: nat :: m[id] == if id < n then 1 else 0
    ensures |m| == n
  {
    if n == 0 {
      assert m == multiset{};
    } else {
      FirstIds(m - multiset{n - 1}, n - 1);
    }
  }

  /** Every request that came is queued, overflowing or served. */
  lemma Total(rq: seq<nat>, wq: seq<nat>, ov: seq<nat>, served: seq<nat>, n: nat)
    requires Accounted(rq, wq, ov, served, n)
    ensures |rq| + |wq| + |ov| + |served| == n
  {
    var m := multiset(rq) + multiset(wq) + multiset(ov) + multiset(served);
    forall id: nat ensures m[id] == if id < n then 1 else 0 {
      assert Places(rq, wq, ov, served, id) == if id < n then 1 else 0;
    }
    FirstIds(m, n);
  }

  /** What reaches the controller from outside: a request, or the refresh timer. */
  datatype Event = Access(sysCycle: nat, bank: nat, row: nat, write: bool) | Refresh(sysCycle: nat)

  function Accesses(events: seq<Event>): nat {
    if events == [] then 0
    else Accesses(events[..|events| - 1]) + if events[|events| - 1].Access? then 1 else 0
  }

  /** What the activation windows of the banks' ranks ask for, as a function of how
      many requests have been served: they change only when commands issue. */
  type Windows = nat -> nat -> nat

  /** Events in the order of their cycles, with accesses to existing banks. */
  predicate InOrder(events: seq<Event>, now: nat, banks: nat) {
    && (forall e | e in events :: now <= e.sysCycle && (e.Access? ==> e.bank < banks))
    && (forall i, j | 0 <= i < j < |events| :: events[i].sysCycle <= events[j].sysCycle)
  }

  class ScheduledMemory {
    const mem: DDRMemory
    const sysFreq: nat
    const memFreq: nat
    /** The system cycle the scheduling event is queued for. */
    var event: Cycle
    var now: nat

    function ToMem(sysCycle: nat): nat
      requires sysFreq > 0
    {
      DdrClock.SysToMem(sysCycle, sysFreq, memFreq)
    }

    /** The event is due, at a cycle that translates to the next tick's. */
    ghost predicate Scheduled()
      reads this`event, this`now, mem`nextSchedCycle
    {
      && 0 < memFreq && 2 * memFreq <= sysFreq && (event.Never? <==> mem.nextSchedCycle.Never?)
      && (event.At? ==> now <= event.c && 0 < event.c && mem.nextSchedCycle == At(ToMem(event.c)))
    }

    ghost predicate Valid()
      reads this`event, this`now, mem, mem.banks
    {
      Scheduled() && mem.Valid() && mem.Awake()
    }

    constructor (mem: DDRMemory, sysFreq: nat, memFreq: nat)
      requires mem.Valid() && mem.Awake() && mem.nextSchedCycle == Never && 0 < memFreq && 2 * memFreq <= sysFreq
      ensures Valid() && this.mem == mem && now == 0 && event == Never
    {
      this.mem, this.sysFreq, this.memFreq, event, now := mem, sysFreq, memFreq, Never, 0;
    }

    /** Queue the event for the middle of the next tick's memory cycle, or for now if
        that is over. */
    method Wake()
      requires 0 < memFreq && 2 * memFreq <= sysFreq
      requires mem.nextSchedCycle.At? && mem.nextSchedCycle.c >= ToMem(now)
      modifies this`event
      ensures Scheduled()
      ensures event.At? && (event.c == now || DdrClock.Halfway(mem.nextSchedCycle.c, sysFreq, memFreq, event.c))
    {
      var k := mem.nextSchedCycle.c;
      DdrClock.EnqueuedCycleMatches(k, now, sysFreq, memFreq);
      DdrClock.EnqueuedCyclePositive(k, sysFreq, memFreq);
      DdrClock.MatchingIs(k, sysFreq, memFreq, DdrClock.MatchingMemToSys(k, sysFreq, memFreq));
      event := At(Max(DdrClock.MatchingMemToSys(k, sysFreq, memFreq), now));
    }

    /** A request event. The event simulation runs events in cycle order. */
    method Enqueue(a: Event, faw: nat -> nat)
      requires Valid() && a.Access? && a.bank < mem.banks.Length
      requires now <= a.sysCycle && (event.At? ==> a.sysCycle <= event.c)
      modifies this`event, this`now, mem`rd, mem`wr, mem`reqs, mem`overflow, mem`nextId, mem`nextSchedCycle
      ensures Valid() && now == a.sysCycle
      ensures mem.nextId == old(mem.nextId) + 1
      ensures mem.reqs == old(mem.reqs)[old(mem.nextId) := Request(a.bank, a.row, a.write, ToMem(a.sysCycle))]
    {
      var next := mem.nextSchedCycle;
      var queued := mem.Enqueue(a.bank, a.row, a.write, ToMem(a.sysCycle), faw);
      now := a.sysCycle;
      if mem.nextSchedCycle != next { Wake(); }
    }

    /** The refresh timer. */
    method Refresh(sysCycle: nat)
      requires Valid() && now <= sysCycle && (event.At? ==> sysCycle <= event.c)
      modifies this`now, mem`trace, mem.banks
      ensures Valid() && now == sysCycle
    {
      now := sysCycle;
      var start := mem.Refresh(ToMem(sysCycle));
    }

    /** How many requests wait. */
    function Waiting(): nat
      reads mem
    {
      |mem.rd.queue| + |mem.wr.queue| + |mem.overflow|
    }

    /** How many have been served: those that came and do not wait. */
    function Served(): (n: nat)
      requires mem.Valid()
      reads mem, mem.banks
      ensures n == |mem.served|
    {
      Total(mem.rd.queue, mem.wr.queue, mem.overflow, mem.served, mem.nextId);
      mem.nextId - Waiting()
    }

    /** How many more ticks without effect can come next: one if the bus is taken,
        and one if no request is ready. */
    ghost function Idle(windows: Windows): nat
      reads mem, mem.banks
    {
      if mem.nextSchedCycle.Never? then 0
      else if mem.BusTaken(mem.nextSchedCycle.c) then 2
      else if mem.NothingReady(mem.nextSchedCycle.c, windows(|mem.served|)) then 1 else 0
    }

    /** One tick leaves fewer requests waiting, or fewer in the overflow, or is one
        of the ticks without effect. */
    method Step(cur: nat, windows: Windows)
      requires mem.Valid() && mem.nextSchedCycle == At(cur)
      modifies mem, mem.banks
      ensures mem.Valid() && mem.Awake() && mem.nextId == old(mem.nextId)
      ensures mem.nextSchedCycle.At? ==> mem.nextSchedCycle.c >= cur
      ensures Waiting() <= old(Waiting())
      ensures Waiting() == old(Waiting()) ==> |mem.overflow| <= old(|mem.overflow|)
      ensures Waiting() == old(Waiting()) && |mem.overflow| == old(|mem.overflow|) ==> Idle(windows) < old(Idle(windows))
    {
      var n := Served();
      var picked, next, moved, head := mem.Tick(cur, windows(n));
      ghost var m := Served();
      assert m == if picked < 0 then n else n + 1;
      if picked < 0 && !moved {
        assert !head && mem.nextSchedCycle == next;
        if next.At? && !old(mem.BusTaken(cur)) {
          ghost var j: nat :| old(mem.Ready(j, next.c, windows(n)));
          assert mem.Ready(j, next.c, windows(n));
        }
      }
    }

    /** The scheduling event runs. */
    method Tick(windows: Windows)
      requires Valid() && event.At?
      modifies this`event, this`now, mem, mem.banks
      ensures Valid() && now == old(event.c) && mem.nextId == old(mem.nextId)
      ensures Waiting() <= old(Waiting())
      ensures Waiting() == old(Waiting()) ==> |mem.overflow| <= old(|mem.overflow|)
      ensures Waiting() == old(Waiting()) && |mem.overflow| == old(|mem.overflow|) ==> Idle(windows) < old(Idle(windows))
    {
      now := event.c;
      Step(ToMem(now), windows);
      if mem.nextSchedCycle.Never? { event := Never; } else { Wake(); }
    }

    /** Run the events due before a cycle. */
    method RunUntil(sysCycle: nat, windows: Windows)
      requires Valid() && now <= sysCycle
      modifies this`event, this`now, mem, mem.banks
      ensures Valid() && now <= sysCycle && (event.At? ==> sysCycle <= event.c) && mem.nextId == old(mem.nextId)
    {
      while event.At? && event.c < sysCycle
        invariant Valid() && now <= sysCycle && mem.nextId == old(mem.nextId)
        decreases Waiting(), |mem.overflow|, Idle(windows)
      {
        Tick(windows);
      }
    }

    /** Run what is due before an event from outside, and the event. */
    method Handle(e: Event, windows: Windows)
      requires Valid() && now <= e.sysCycle && (e.Access? ==> e.bank < mem.banks.Length)
      modifies this`event, this`now, mem, mem.banks
      ensures Valid() && now == e.sysCycle && mem.nextId == old(mem.nextId) + if e.Access? then 1 else 0
    {
      RunUntil(e.sysCycle, windows);
      if e.Access? { Enqueue(e, windows(Served())); } else { Refresh(e.sysCycle); }
    }

    /** Run the events until there are none. */
    method Drain(windows: Windows)
      requires Valid()
      modifies this`event, this`now, mem, mem.banks
      ensures Valid() && event == Never && mem.nextId == old(mem.nextId)
    {
      while event.At?
        invariant Valid() && mem.nextId == old(mem.nextId)
        decreases Waiting(), |mem.overflow|, Idle(windows)
      {
        Tick(windows);
      }
    }

    /** With no tick due every request has been served. */
    lemma AllServed()
      requires Valid() && event == Never
      ensures forall id: nat :: multiset(mem.served)[id] == if id < mem.nextId then 1 else 0
    {
      forall id: nat ensures multiset(mem.served)[id] == if id < mem.nextId then 1 else 0 {
        assert Places(mem.rd.queue, mem.wr.queue, mem.overflow, mem.served, id) == if id < mem.nextId then 1 else 0;
      }
    }

    /** Whatever arrives, and whenever refreshes come, each scheduled tick finds the
        cycle it was scheduled for, the ticks end, and by then every request has
        been served, exactly once. */
    method Run(events: seq<Event>, windows: Windows)
      requires Valid() && InOrder(events, now, mem.banks.Length)
      modifies this`event, this`now, mem, mem.banks
      ensures Valid() && event == Never
      ensures mem.nextId == old(mem.nextId) + Accesses(events)
      ensures forall id: nat :: multiset(mem.served)[id] == if id < mem.nextId then 1 else 0
    {
      var i := 0;
      while i < |events|
        invariant i <= |events| && Valid() && mem.nextId == old(mem.nextId) + Accesses(events[..i])
        invariant i < |events| ==> now <= events[i].sysCycle
      {
        Handle(events[i], windows);
        assert events[..i + 1][..i] == events[..i];
        i := i + 1;
      }
      assert events[..i] == events;
      Drain(windows);
      AllServed();
    }
  }
}
