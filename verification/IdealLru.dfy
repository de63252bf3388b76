/** The ideal LRU array: a hash map and an intrusive list over fixed entries. */
module IdealLru {
  import opened Sequences
  import opened IntrusiveLists
  import opened LruStacks

  function ToFront<T>(s: seq<T>, i: nat): seq<T>
    requires i < |s|
  {
    [s[i]] + s[..i] + s[i + 1..]
  }

  lemma ToFrontAt<T>(s: seq<T>, i: nat, k: nat)
    requires i < |s| && k < |s|
    ensures |ToFront(s, i)| == |s| && ToFront(s, i)[k] == s[if k == 0 then i else if k <= i then k - 1 else k]
  {
  }

  lemma ToFrontMembers<T>(s: seq<T>, i: nat)
    requires i < |s|
    ensures forall x :: x in ToFront(s, i) <==> x in s
  {
    assert s == s[..i] + [s[i]] + s[i + 1..];
  }

  lemma ToFrontMapped<T>(nodes: seq<T>, entries: seq<T>, order: seq<nat>, i: nat)
    requires |nodes| == |order| && i < |order|
    requires forall k | 0 <= k < |order| :: order[k] < |entries| && nodes[k] == entries[order[k]]
    ensures |ToFront(nodes, i)| == |ToFront(order, i)| == |order|
    ensures forall k | 0 <= k < |order| :: ToFront(order, i)[k] < |entries| && ToFront(nodes, i)[k] == entries[ToFront(order, i)[k]]
  {
    forall k: nat | k < |order| ensures ToFront(order, i)[k] < |entries| && ToFront(nodes, i)[k] == entries[ToFront(order, i)[k]] {
      ToFrontAt(order, i, k);
      ToFrontAt(nodes, i, k);
    }
  }

  function Zeroes(n: nat): seq<nat> {
    seq(n, _ => 0)
  }

  // ----------------------------------------------------- the array on values

  /** Every entry is somewhere in the order. */
  ghost predicate Full(order: seq<nat>) {
    forall id: nat | id < |order| :: id in order
  }

  lemma PlaceOf(order: seq<nat>, id: nat) returns (i: nat)
    requires Full(order) && id < |order|
    ensures i < |order| && order[i] == id
  {
    assert id in order;
    i :| 0 <= i < |order| && order[i] == id;
  }

  ghost predicate Placed(addrOf: seq<nat>, order: seq<nat>, lru: seq<nat>, k: nat)
    requires k < |order|
  {
    order[k] < |addrOf| && addrOf[order[k]] == if k < |lru| then lru[k] else 0
  }

  /** addrOf: the address of each entry; order: the entries, most recently used
      first. Their addresses along that order are the LRU order, then zeroes. */
  ghost predicate InOrder(addrOf: seq<nat>, order: seq<nat>, lru: seq<nat>) {
    && |order| == |addrOf| && |lru| <= |order| && Distinct(order) && Full(order) && Distinct(lru)
    && forall k: nat {:trigger Placed(addrOf, order, lru, k)} | k < |order| :: Placed(addrOf, order, lru, k)
  }

  ghost predicate Found(order: seq<nat>, lineMap: map<nat, nat>, lru: seq<nat>, k: nat)
    requires k < |lru| <= |order|
  {
    lru[k] in lineMap && lineMap[lru[k]] == order[k]
  }

  /** The map finds exactly the addresses in use, each at its entry. */
  ghost predicate Indexed(order: seq<nat>, lineMap: map<nat, nat>, lru: seq<nat>)
    requires |lru| <= |order|
  {
    && (forall a :: a in lineMap ==> a in lru)
    && forall k: nat {:trigger Found(order, lineMap, lru, k)} | k < |lru| :: Found(order, lineMap, lru, k)
  }

  ghost predicate Ledger(addrOf: seq<nat>, order: seq<nat>, lineMap: map<nat, nat>, lru: seq<nat>) {
    InOrder(addrOf, order, lru) && Indexed(order, lineMap, lru)
  }

  /** Entry number i of the order holds an address in use, or it is empty and so
      does no address 0 (which an empty entry also carries). */
  ghost predicate Distinguished(lru: seq<nat>, i: nat) {
    i < |lru| || 0 !in lru
  }

  lemma DistinctToFront(s: seq<nat>, i: nat)
    requires Distinct(s) && i < |s|
    ensures Distinct(ToFront(s, i))
  {
    DistinctRemove(s, i);
    DistinctCons(s[i], s[..i] + s[i + 1..]);
    assert ToFront(s, i) == [s[i]] + (s[..i] + s[i + 1..]);
  }

  /** The LRU order when a takes the place of its i-th address, or a new one. */
  lemma NewLru(lru: seq<nat>, i: nat, a: nat, b: nat)
    requires Distinct(lru) && Distinguished(lru, i) && (a in lru ==> a == b)
    requires b == if i < |lru| then lru[i] else 0
    ensures Distinct([a] + Without(lru, b)) && |Without(lru, b)| == |lru| - (if i < |lru| then 1 else 0)
    ensures forall x :: x in Without(lru, b) <==> x in lru && x != b
    ensures forall k: nat | 0 < k < |Without(lru, b)| + 1 ::
      var j := if k <= i then k - 1 else k; j < |lru| && j != i && ([a] + Without(lru, b))[k] == lru[j]
  {
    WithoutDistinct(lru, b);
    DistinctCons(a, Without(lru, b));
    if i < |lru| { WithoutAt(lru, i); } else { WithoutAbsent(lru, 0); }
  }

  lemma UsePlace(addrOf: seq<nat>, order: seq<nat>, lru: seq<nat>, i: nat, a: nat, k: nat)
    requires InOrder(addrOf, order, lru) && i < |order| && Distinguished(lru, i)
    requires order[i] < |addrOf| && (a in lru ==> addrOf[order[i]] == a) && k < |order|
    ensures k < |ToFront(order, i)| && Placed(addrOf[order[i] := a], ToFront(order, i), [a] + Without(lru, addrOf[order[i]]), k)
  {
    assert Placed(addrOf, order, lru, i);
    ToFrontAt(order, i, k);
    NewLru(lru, i, a, addrOf[order[i]]);
    if k > 0 {
      var j := if k <= i then k - 1 else k;
      assert Placed(addrOf, order, lru, j);
      assert if j < i then Differ(order, j, i) else Differ(order, i, j);
    }
  }

  /** Entry order[i] takes address a, its own or a new one, and comes first. */
  lemma UseInOrder(addrOf: seq<nat>, order: seq<nat>, lru: seq<nat>, i: nat, a: nat)
    requires InOrder(addrOf, order, lru) && i < |order| && Distinguished(lru, i)
    requires order[i] < |addrOf| && (a in lru ==> addrOf[order[i]] == a)
    ensures InOrder(addrOf[order[i] := a], ToFront(order, i), [a] + Without(lru, addrOf[order[i]]))
  {
    assert Placed(addrOf, order, lru, i);
    NewLru(lru, i, a, addrOf[order[i]]);
    DistinctToFront(order, i);
    ToFrontMembers(order, i);
    var addrOf', order', lru' := addrOf[order[i] := a], ToFront(order, i), [a] + Without(lru, addrOf[order[i]]);
    forall k: nat | k < |order'| ensures Placed(addrOf', order', lru', k) {
      UsePlace(addrOf, order, lru, i, a, k);
    }
  }

  lemma UseIndexed(addrOf: seq<nat>, order: seq<nat>, lineMap: map<nat, nat>, lru: seq<nat>, i: nat, a: nat)
    requires Ledger(addrOf, order, lineMap, lru) && i < |order| && Distinguished(lru, i)
    requires order[i] < |addrOf| && (a in lru ==> addrOf[order[i]] == a)
    ensures var b := addrOf[order[i]];
      && |[a] + Without(lru, b)| <= |order| && |ToFront(order, i)| == |order|
      && Indexed(ToFront(order, i), (lineMap - {b})[a := order[i]], [a] + Without(lru, b))
  {
    assert Placed(addrOf, order, lru, i);
    var b := addrOf[order[i]];
    NewLru(lru, i, a, b);
    var order', lineMap', lru' := ToFront(order, i), (lineMap - {b})[a := order[i]], [a] + Without(lru, b);
    forall x | x in lineMap' ensures x in lru' {
      assert x != a ==> x in Without(lru, b);
    }
    forall k: nat | k < |lru'| ensures Found(order', lineMap', lru', k) {
      ToFrontAt(order, i, k);
      if k > 0 {
        var j := if k <= i then k - 1 else k;
        assert Found(order, lineMap, lru, j) && lru[j] in lru;
        assert lru'[k] in Without(lru, b);
      }
    }
  }

  lemma Use(addrOf: seq<nat>, order: seq<nat>, lineMap: map<nat, nat>, lru: seq<nat>, i: nat, a: nat)
    requires Ledger(addrOf, order, lineMap, lru) && i < |order| && Distinguished(lru, i)
    requires order[i] < |addrOf| && a !in lineMap - {addrOf[order[i]]}
    ensures Ledger(addrOf[order[i] := a], ToFront(order, i), (lineMap - {addrOf[order[i]]})[a := order[i]],
                   [a] + Without(lru, addrOf[order[i]]))
  {
    if a in lru {
      var k: nat :| k < |lru| && lru[k] == a;
      assert Found(order, lineMap, lru, k);
    }
    UseInOrder(addrOf, order, lru, i, a);
    UseIndexed(addrOf, order, lineMap, lru, i, a);
  }

  /** The same for a hit: only the order changes. */
  lemma Hit(addrOf: seq<nat>, order: seq<nat>, lineMap: map<nat, nat>, lru: seq<nat>, a: nat) returns (i: nat)
    requires Ledger(addrOf, order, lineMap, lru) && a in lineMap
    ensures i < |order| && order[i] == lineMap[a]
    ensures Ledger(addrOf, ToFront(order, i), lineMap, [a] + Without(lru, a))
  {
    var id := lineMap[a];
    i :| 0 <= i < |lru| && lru[i] == a;
    assert Found(order, lineMap, lru, i) && Placed(addrOf, order, lru, i);
    Use(addrOf, order, lineMap, lru, i, a);
    assert addrOf[id := a] == addrOf && (lineMap - {a})[a := id] == lineMap;
  }

  /** Replacing the last of a full order, or filling an empty entry, is what one
      access to an LRU array of n lines does on a miss. */
  lemma MissTouches(lru: seq<nat>, a: nat, n: nat)
    requires Distinct(lru) && a !in lru && |lru| <= n && n > 0 && Distinguished(lru, n - 1)
    ensures [a] + Without(lru, if |lru| == n then lru[n - 1] else 0) == Touch(lru, a, n)
  {
    WithoutAbsent(lru, a);
    TakeCons(a, lru, n);
    if |lru| == n {
      WithoutAt(lru, n - 1);
      assert lru[..n - 1] + lru[n..] == Take(lru, n - 1);
    } else {
      WithoutAbsent(lru, 0);
    }
  }

  lemma HitTouches(lru: seq<nat>, a: nat, n: nat)
    requires Distinct(lru) && a in lru && |lru| <= n
    ensures [a] + Without(lru, a) == Touch(lru, a, n)
  {
    WithoutDistinct(lru, a);
  }

  /** A present address 0 is forgotten where it would have to be kept. */
  lemma ZeroTouched(lru: seq<nat>, a: nat, n: nat)
    requires a !in lru && 0 in lru && |lru| < n
    ensures 0 in Touch(lru, a, n)
  {
    WithoutAbsent(lru, a);
  }

  // ---------------------------------------------------------------- the array

  /** n - 1 down to 0: each new entry goes to the front of the list. */
  ghost function Downward(n: nat): seq<nat> {
    if n == 0 then [] else [n - 1] + Downward(n - 1)
  }

  lemma {:induction false} DownwardOk(n: nat)
    ensures |Downward(n)| == n && Distinct(Downward(n))
    ensures forall k | 0 <= k < n :: Downward(n)[k] == n - 1 - k
    ensures forall id: nat | id < n :: id in Downward(n)
  {
    if n > 0 {
      DownwardOk(n - 1);
      DistinctCons(n - 1, Downward(n - 1));
    }
  }

  method Entries(n: nat, list: InList) returns (entries: array<Node>)
    requires list.Valid() && list.nodes == []
    modifies list
    ensures list.Valid() && |list.nodes| == n == entries.Length
    ensures forall id | 0 <= id < n :: entries[id].lineId == id && entries[id].lineAddr == 0
    ensures forall k | 0 <= k < n :: list.nodes[k] == entries[n - 1 - k]
    ensures fresh(entries) && fresh(list.nodes)
  {
    var dummy := new Node(0);
    entries := new Node[n](_ => dummy);
    var i := 0;
    while i < n
      invariant i <= n == entries.Length
      invariant fresh(entries) && fresh(list.nodes)
      invariant list.Valid() && |list.nodes| == i
      invariant forall id | 0 <= id < i :: entries[id].lineId == id && entries[id].lineAddr == 0
      invariant forall k | 0 <= k < i :: list.nodes[k] == entries[i - 1 - k]
    {
      var e := new Node(i);
      list.PushFront(e);
      entries[i] := e;
      i := i + 1;
    }
  }

  class IdealLRUArray {
    const entries: array<Node>
    const lruList: InList
    var lineMap: map<nat, nat>
    ghost var addrOf: seq<nat>
    ghost var order: seq<nat>
    /** The addresses present, most recently used first. */
    ghost var lru: seq<nat>

    /** What the entries, the list and the map hold. */
    ghost predicate Shape()
      reads this, entries, lruList, lruList.nodes, entries[..]
    {
      && lruList.Valid() && 0 < entries.Length == |addrOf| == |order| == |lruList.nodes|
      && (forall id | 0 <= id < entries.Length :: entries[id].lineId == id && entries[id].lineAddr == addrOf[id])
      && (forall k | 0 <= k < |order| :: order[k] < entries.Length && lruList.nodes[k] == entries[order[k]])
      && (forall a | a in lineMap :: lineMap[a] < |addrOf| && addrOf[lineMap[a]] == a)
      && Full(order)
    }

    /** The array is an LRU array of the addresses in lru. */
    ghost predicate Exact()
      reads this`addrOf, this`order, this`lineMap, this`lru
    {
      Ledger(addrOf, order, lineMap, lru)
    }

    ghost predicate Valid()
      reads this, entries, lruList, lruList.nodes, entries[..]
    {
      Shape() && Exact()
    }

    lemma Present(a: nat)
      requires Exact()
      ensures a in lineMap <==> a in lru
    {
      if a in lru {
        var k: nat :| k < |lru| && lru[k] == a;
        assert Found(order, lineMap, lru, k);
      }
    }

    constructor (numLines: nat)
      requires numLines > 0
      ensures Valid() && lru == [] && entries.Length == numLines
      ensures fresh(entries) && fresh(lruList) && fresh(lruList.nodes)
    {
      var list := new InList();
      var built := Entries(numLines, list);
      entries, lruList := built, list;
      lineMap, lru := map[], [];
      addrOf, order := Zeroes(numLines), Downward(numLines);
      new;
      DownwardOk(numLines);
    }

    /** The list's part of a promotion. */
    method ToListFront(e: Node, ghost i: nat)
      requires lruList.Valid() && i < |lruList.nodes| && lruList.nodes[i] == e
      modifies lruList, lruList.nodes`next, lruList.nodes`prev, lruList.nodes`owner
      ensures lruList.Valid() && lruList.nodes == ToFront(old(lruList.nodes), i)
    {
      ghost var nodes := lruList.nodes;
      lruList.Remove(e, i);
      lruList.PushFront(e);
      assert [e] + (nodes[..i] + nodes[i + 1..]) == ToFront(nodes, i);
    }

    /** Move an entry, number i of the list, to the front. */
    method Promote(e: Node, ghost i: nat)
      requires Shape() && i < entries.Length && lruList.nodes[i] == e
      modifies this`order, lruList, lruList.nodes`next, lruList.nodes`prev, lruList.nodes`owner
      ensures Shape() && order == ToFront(old(order), i)
    {
      ToFrontMapped(lruList.nodes, entries[..], order, i);
      ToFrontMembers(order, i);
      ToListFront(e, i);
      order := ToFront(order, i);
    }

    /** A use of an address that is present. */
    method Bump(a: nat)
      requires Shape() && a in lineMap
      modifies this`lru, this`order, lruList, lruList.nodes`next, lruList.nodes`prev, lruList.nodes`owner
      ensures Shape() && lru == [a] + Without(old(lru), a) && (old(Exact()) ==> Exact())
    {
      ghost var i := PlaceOf(order, lineMap[a]);
      if Exact() { i := Hit(addrOf, order, lineMap, lru, a); }
      lru := [a] + Without(lru, a);
      Promote(entries[lineMap[a]], i);
    }

    /** The line of an address, or -1; a hit may count as a use. */
    method Lookup(a: nat, updateReplacement: bool) returns (id: int)
      requires Shape()
      modifies this`lru, this`order, lruList, lruList.nodes`next, lruList.nodes`prev, lruList.nodes`owner
      ensures Shape() && (old(Exact()) ==> Exact())
      ensures id == -1 <==> a !in lineMap
      ensures old(Exact()) ==> (id == -1 <==> a !in old(lru))
      ensures id == -1 || (0 <= id < entries.Length && entries[id].lineAddr == a)
      ensures lru == if id >= 0 && updateReplacement then [a] + Without(old(lru), a) else old(lru)
      ensures id == -1 ==> unchanged(this, lruList)
    {
      if Exact() { Present(a); }
      if a !in lineMap { return -1; }
      if updateReplacement { Bump(a); }
      id := lineMap[a];
    }

    /** The least recently used entry and the address it gives up, 0 if none. */
    method Preinsert() returns (id: nat, wbLineAddr: nat)
      requires Shape()
      ensures id < entries.Length && entries[id].lineAddr == wbLineAddr && id == order[|order| - 1]
      ensures Exact() ==> wbLineAddr == if |lru| == entries.Length then lru[|lru| - 1] else 0
    {
      assert order[|order| - 1] < entries.Length;
      var e := lruList.tail;
      if Exact() { assert Placed(addrOf, order, lru, |order| - 1); }
      return e.lineId, e.lineAddr;
    }

    method SetAddr(id: nat, a: nat)
      requires Shape() && id < entries.Length && a !in lineMap - {addrOf[id]}
      modifies this`addrOf, this`lineMap, Some(entries[id])`lineAddr
      ensures Shape() && addrOf == old(addrOf)[id := a] && lineMap == (old(lineMap) - {old(addrOf)[id]})[a := id]
    {
      lineMap := (lineMap - {entries[id].lineAddr})[a := id];
      entries[id].lineAddr := a;
      addrOf := addrOf[id := a];
      forall j | 0 <= j < |lruList.nodes| ensures lruList.Linked(j) { assert old(lruList.Linked(j)); }
    }

    /** Entry id, number i of the list, comes to the front with a new address. */
    method Rewrite(a: nat, id: nat, ghost i: nat)
      requires Shape() && id < entries.Length && a !in lineMap - {addrOf[id]} && i < |order| && order[i] == id
      modifies this`addrOf, this`lineMap, this`order, Some(entries[id])`lineAddr,
               lruList, lruList.nodes`next, lruList.nodes`prev, lruList.nodes`owner
      ensures Shape() && addrOf == old(addrOf)[id := a] && order == ToFront(old(order), i)
      ensures lineMap == (old(lineMap) - {old(addrOf)[id]})[a := id]
    {
      SetAddr(id, a);
      Promote(entries[id], i);
    }

    /** The map finds an address at entry id's expense: both are 0. */
    ghost predicate Confused(id: nat)
      requires id < |addrOf|
      reads this`addrOf, this`lineMap
    {
      addrOf[id] == 0 && 0 in lineMap && lineMap[0] != id
    }

    lemma ConfusedIff(i: nat)
      requires Exact() && i < |order| && order[i] < |addrOf|
      ensures Confused(order[i]) <==> !Distinguished(lru, i)
    {
      assert Placed(addrOf, order, lru, i);
      Present(0);
      if i < |lru| {
        assert Found(order, lineMap, lru, i);
      } else if 0 in lru {
        var k: nat :| k < |lru| && lru[k] == 0;
        assert Found(order, lineMap, lru, k) && Differ(order, k, i);
      }
    }

    /** Give entry id to address a, as its most recent use. The map forgets what the
        entry held before, and with it an address 0 held by another entry. */
    method Postinsert(a: nat, id: nat)
      requires Shape() && id < entries.Length
      requires a !in lineMap - {addrOf[id]}
      modifies this`lineMap, this`addrOf, this`order, this`lru, Some(entries[id])`lineAddr,
               lruList, lruList.nodes`next, lruList.nodes`prev, lruList.nodes`owner
      ensures Shape() && addrOf == old(addrOf)[id := a]
      ensures lineMap == (old(lineMap) - {old(addrOf)[id]})[a := id]
      ensures lru == [a] + Without(old(lru), old(addrOf)[id])
      ensures old(Exact() && !Confused(id)) ==> Exact()
    {
      ghost var i := PlaceOf(order, id);
      if Exact() && !Confused(id) {
        ConfusedIff(i);
        Use(addrOf, order, lineMap, lru, i, a);
      }
      lru := [a] + Without(lru, addrOf[id]);
      Rewrite(a, id, i);
    }

    lemma EntryInList(id: nat)
      requires Shape() && id < entries.Length
      ensures entries[id] in lruList.nodes && entries[id].lineAddr == addrOf[id]
    {
      var i := PlaceOf(order, id);
    }

    lemma ListIsEntries()
      requires Shape()
      ensures forall e | e in lruList.nodes :: e in entries[..]
    {
    }

    /** A use of a keeps the array exact: a is present, or the array is full, or
        there is no address 0 for an empty entry to be confused with. */
    ghost predicate Safe(a: nat)
      reads this`lru, entries
    {
      a in lru || |lru| == entries.Length || 0 !in lru
    }

    lemma VictimConfused(a: nat, id: nat)
      requires Shape() && Exact() && a !in lru && id == order[|order| - 1]
      ensures !Confused(id) <==> Safe(a)
      ensures Safe(a) ==> [a] + Without(lru, addrOf[id]) == Touch(lru, a, entries.Length)
      ensures !Safe(a) ==> 0 in Touch(lru, a, entries.Length) && addrOf[id] == 0
    {
      var n := |order|;
      assert Placed(addrOf, order, lru, n - 1);
      ConfusedIff(n - 1);
      if Safe(a) { MissTouches(lru, a, n); } else { ZeroTouched(lru, a, n); }
    }

    /** A miss: the line to give up, and the address in its place. */
    method Replace(a: nat) returns (id: nat)
      requires Shape() && a !in lineMap
      modifies this`lineMap, this`addrOf, this`order, this`lru,
               lruList, lruList.nodes`next, lruList.nodes`prev, lruList.nodes`owner, lruList.nodes`lineAddr
      ensures Shape() && id < entries.Length && addrOf == old(addrOf)[id := a]
      ensures old(Exact() && Safe(a)) ==> Exact() && lru == Touch(old(lru), a, entries.Length)
      ensures old(Exact() && !Safe(a)) ==> 0 !in lineMap && 0 in Touch(old(lru), a, entries.Length)
    {
      var victim, wbLineAddr := Preinsert();
      EntryInList(victim);
      if Exact() {
        Present(a);
        VictimConfused(a, victim);
        if !Safe(a) { Present(0); }
      }
      Postinsert(a, victim);
      id := victim;
    }

    /** A cache access: look the address up and, on a miss, replace a line. The
        array stays exactly LRU, or forgets address 0 although LRU keeps it. */
    method Access(a: nat) returns (id: nat)
      requires Shape()
      modifies this`lineMap, this`addrOf, this`order, this`lru,
               lruList, lruList.nodes`next, lruList.nodes`prev, lruList.nodes`owner, lruList.nodes`lineAddr
      ensures Shape() && id < entries.Length && entries[id].lineAddr == a
      ensures old(Exact() && Safe(a)) ==> Exact() && lru == Touch(old(lru), a, entries.Length)
      ensures old(Exact() && !Safe(a)) ==> 0 !in lineMap && 0 in Touch(old(lru), a, entries.Length)
    {
      var hit := Lookup(a, true);
      if hit >= 0 {
        if old(Exact()) { HitTouches(old(lru), a, entries.Length); }
        id := hit;
      } else {
        id := Replace(a);
      }
    }
  }

  /** No new address comes after address 0 while fewer than n addresses have been
      used, when an empty entry would be filled. */
  predicate ZeroSafe(tr: seq<nat>, n: nat) {
    tr == [] ||
    var rest, a := tr[..|tr| - 1], tr[|tr| - 1];
    ZeroSafe(rest, n) && (a in rest || 0 !in rest || |Mru(rest)| >= n)
  }

  /** The next use is safe for the array exactly when it is for the trace. */
  lemma SafeNext(tr: seq<nat>, a: nat, n: nat)
    requires n > 0
    ensures var lru := Run(tr, n);
      (a in lru || |lru| == n || 0 !in lru) <==> (a in tr || 0 !in tr || |Mru(tr)| >= n)
  {
    RunIsMru(tr, n);
    MruDistinct(tr);
  }

  /** The array after a trace: as LRU has it while the trace is safe, and without
      address 0, which LRU keeps, right after it stops being so. */
  ghost predicate Follows(c: IdealLRUArray, tr: seq<nat>, n: nat)
    reads c
  {
    && (ZeroSafe(tr, n) ==> c.Exact() && c.lru == Run(tr, n))
    && (tr != [] && ZeroSafe(tr[..|tr| - 1], n) && !ZeroSafe(tr, n) ==> 0 !in c.lineMap && 0 in Run(tr, n))
  }

  method Next(c: IdealLRUArray, ghost tr: seq<nat>, a: nat)
    requires c.Shape() && Follows(c, tr, c.entries.Length)
    modifies c`lineMap, c`addrOf, c`order, c`lru, c.lruList,
             c.lruList.nodes`next, c.lruList.nodes`prev, c.lruList.nodes`owner, c.lruList.nodes`lineAddr
    ensures c.Shape() && Follows(c, tr + [a], c.entries.Length)
  {
    ghost var tr' := tr + [a];
    assert tr'[..|tr'| - 1] == tr;
    SafeNext(tr, a, c.entries.Length);
    var id := c.Access(a);
  }

  /** Any trace from an empty array. While the trace is safe, the array holds
      exactly the most recently used addresses, as many as it has lines; the first
      unsafe use makes it forget address 0, which is among them. */
  method RunTrace(c: IdealLRUArray, tr: seq<nat>)
    requires c.Valid() && c.lru == []
    modifies c, c.lruList, c.entries[..]
    ensures c.Shape()
    ensures ZeroSafe(tr, c.entries.Length) ==> c.Exact() && c.lru == Run(tr, c.entries.Length)
    ensures ZeroSafe(tr, c.entries.Length) ==> forall x :: x in c.lineMap <==> x in tr && |Since(tr, x)| < c.entries.Length
    ensures tr != [] && ZeroSafe(tr[..|tr| - 1], c.entries.Length) && !ZeroSafe(tr, c.entries.Length) ==>
      0 !in c.lineMap && 0 in tr && |Since(tr, 0)| < c.entries.Length
  {
    var k := 0;
    while k < |tr|
      invariant k <= |tr| && c.Shape() && Follows(c, tr[..k], c.entries.Length)
    {
      assert tr[..k + 1] == tr[..k] + [tr[k]];
      c.ListIsEntries();
      Next(c, tr[..k], tr[k]);
      k := k + 1;
    }
    assert tr[..k] == tr;
    ResidentIff(tr, c.entries.Length, 0);
    if ZeroSafe(tr, c.entries.Length) { Residents(c, tr); }
  }

  lemma Residents(c: IdealLRUArray, tr: seq<nat>)
    requires c.Shape() && c.Exact() && c.lru == Run(tr, c.entries.Length)
    ensures forall x :: x in c.lineMap <==> x in tr && |Since(tr, x)| < c.entries.Length
  {
    forall x ensures x in c.lineMap <==> x in tr && |Since(tr, x)| < c.entries.Length {
      ResidentIff(tr, c.entries.Length, x);
      c.Present(x);
    }
  }

  /** Two uses are enough: the array has two lines, and forgets the first. */
  method AddressZeroForgotten() returns (c: IdealLRUArray)
    ensures c.entries.Length == 2 && 0 !in c.lineMap && |Since([0, 5], 0)| < 2
  {
    c := new IdealLRUArray(2);
    ghost var tr := [0, 5];
    assert tr[..1] == [0] && [0][..0] == [];
    c.EntryInList(0);
    c.EntryInList(1);
    assert Mru([0]) == [0] && ZeroSafe([0], 2) && !ZeroSafe(tr, 2);
    RunTrace(c, [0, 5]);
  }
}
