/** A bank's request list in FR-FCFS order: row hits overtake, up to a limit. */
module DdrQueue {

  /** id numbers requests by arrival; hits is the request's place in its run of
      row hits. */
  datatype Req = Req(id: nat, row: nat, hits: nat)

  /** What the queueing decision knows about the bank. */
  datatype BankView = BankView(open: bool, openRow: nat, curRowHits: nat)

  /** The last request for the row, or -1. */
  function LastOfRow(q: seq<Req>, row: nat): (m: int)
    ensures -1 <= m < |q|
    ensures m >= 0 ==> q[m].row == row
    ensures forall j | m < j < |q| :: q[j].row != row
  {
    if q == [] then -1
    else if q[|q| - 1].row == row then |q| - 1
    else LastOfRow(q[..|q| - 1], row)
  }

  /** Where a request for the row goes, and its hit number. */
  function Slot(q: seq<Req>, row: nat, b: BankView, limit: nat): (nat, nat) {
    var m := LastOfRow(q, row);
    if m >= 0 then
      if q[m].hits < limit then (m + 1, q[m].hits + 1) else (|q|, 0)
    else if b.open && row == b.openRow && b.curRowHits < limit && q == [] then (0, b.curRowHits + 1)
    else (|q|, 0)
  }

  function Insert(q: seq<Req>, id: nat, row: nat, b: BankView, limit: nat): seq<Req> {
    var (k, hits) := Slot(q, row, b, limit);
    if k <= |q| then q[..k] + [Req(id, row, hits)] + q[k..] else q
  }

  lemma Removable(q: seq<Req>, k: nat, r: Req)
    requires k <= |q|
    ensures var q' := q[..k] + [r] + q[k..]; q'[..k] + q'[k + 1..] == q && q'[k] == r
    ensures k == |q| ==> q + [r] == q[..k] + [r] + q[k..]
    ensures k == 0 ==> [r] + q == q[..k] + [r] + q[k..]
  {
  }

  /** m is the place of the last request for the row. */
  predicate LastAt(q: seq<Req>, row: nat, m: nat) {
    m < |q| && q[m].row == row && forall j | m < j < |q| :: q[j].row != row
  }

  predicate NoneOf(q: seq<Req>, row: nat) {
    forall r | r in q :: r.row != row
  }

  /** First ready: whatever the bank shows, the request overtakes all that stand
      behind the last one of its row, m, unless that has reached the limit. */
  predicate Joins(q: seq<Req>, m: nat, id: nat, row: nat, limit: nat, q': seq<Req>)
    requires m < |q|
  {
    q' == if q[m].hits < limit then q[..m + 1] + [Req(id, row, q[m].hits + 1)] + q[m + 1..] else q + [Req(id, row, 0)]
  }

  /** First come: with none of its row waiting the request goes last. It counts as a
      hit only if nothing waits at all and its row is open, below the limit. */
  predicate GoesLast(q: seq<Req>, id: nat, row: nat, b: BankView, limit: nat, q': seq<Req>) {
    q' == q + [Req(id, row, if q == [] && b.open && b.openRow == row && b.curRowHits < limit then b.curRowHits + 1 else 0)]
  }

  lemma JoinsRow(q: seq<Req>, id: nat, row: nat, b: BankView, limit: nat, m: nat)
    requires LastAt(q, row, m)
    ensures Joins(q, m, id, row, limit, Insert(q, id, row, b, limit))
  {
    LastOfRowIs(q, row, m);
    Removable(q, |q|, Req(id, row, 0));
  }

  lemma NewRow(q: seq<Req>, id: nat, row: nat, b: BankView, limit: nat)
    requires NoneOf(q, row)
    ensures GoesLast(q, id, row, b, limit, Insert(q, id, row, b, limit))
  {
    LastOfRowIs(q, row, -1);
    Removable(q, |q|, Req(id, row, 0));
  }

  /** DDRMemory::queue: the scan from the back of a bank's list, and the insertion. */
  method Enqueue(q: seq<Req>, id: nat, row: nat, b: BankView, limit: nat) returns (q': seq<Req>)
    ensures q' == Insert(q, id, row, b, limit)
    ensures exists k :: 0 <= k < |q'| && q'[k].id == id && q'[k].row == row && q'[..k] + q'[k + 1..] == q
    ensures forall m: nat {:trigger LastAt(q, row, m)} | LastAt(q, row, m) :: Joins(q, m, id, row, limit, q')
    ensures NoneOf(q, row) ==> GoesLast(q, id, row, b, limit, q')
  {
    var m := |q| - 1;
    while m >= 0 && q[m].row != row
      invariant -1 <= m < |q|
      invariant forall j | m < j < |q| :: q[j].row != row
    {
      m := m - 1;
    }
    LastOfRowIs(q, row, m);
    if m < 0 {
      var open := b.open && row == b.openRow && b.curRowHits < limit && q == [];
      q' := if open then [Req(id, row, b.curRowHits + 1)] + q else q + [Req(id, row, 0)];
      Removable(q, if open then 0 else |q|, q'[if open then 0 else |q|]);
      NewRow(q, id, row, b, limit);
    } else {
      q' := if q[m].hits < limit then q[..m + 1] + [Req(id, row, q[m].hits + 1)] + q[m + 1..] else q + [Req(id, row, 0)];
      Removable(q, if q[m].hits < limit then m + 1 else |q|, q'[if q[m].hits < limit then m + 1 else |q|]);
      JoinsRow(q, id, row, b, limit, m);
      OneLast(q, row, m);
    }
  }

  lemma OneLast(q: seq<Req>, row: nat, m: nat)
    requires LastAt(q, row, m)
    ensures !NoneOf(q, row) && forall l: nat {:trigger LastAt(q, row, l)} | LastAt(q, row, l) :: l == m
  {
    forall l: nat | LastAt(q, row, l) ensures l == m {
      LastOfRowIs(q, row, l);
      LastOfRowIs(q, row, m);
    }
  }

  // ------------------------------------------------------ bounded overtaking

  predicate IsLast(q: seq<Req>, j: nat)
    requires j < |q|
  {
    LastOfRow(q, q[j].row) == j
  }

  /** How many more requests may be inserted right behind entry j. */
  function Term(q: seq<Req>, j: nat, limit: nat): nat
    requires j < |q|
  {
    if IsLast(q, j) && q[j].hits < limit then limit - q[j].hits else 0
  }

  function Terms(q: seq<Req>, limit: nat): (ts: seq<nat>)
    ensures |ts| == |q|
  {
    seq(|q|, j requires 0 <= j < |q| => Term(q, j, limit))
  }

  function Sum(ts: seq<nat>, i: nat): nat
    requires i <= |ts|
  {
    if i == 0 then 0 else Sum(ts, i - 1) + ts[i - 1]
  }

  /** How many requests may still be inserted ahead of entry i. */
  function Budget(q: seq<Req>, i: nat, limit: nat): nat
    requires i <= |q|
  {
    Sum(Terms(q, limit), i)
  }

  lemma {:induction false} SumDrops(ts: seq<nat>, ts': seq<nat>, i: nat)
    requires i <= |ts| && i <= |ts'| && forall j | 0 <= j < i :: ts'[j] <= ts[j]
    ensures Sum(ts', i) <= Sum(ts, i)
  {
    if i > 0 { SumDrops(ts, ts', i - 1); }
  }

  lemma {:induction false} SumPop(ts: seq<nat>, ts': seq<nat>, i: nat)
    requires i < |ts| && i <= |ts'| && forall j | 0 <= j < i :: ts'[j] <= ts[j + 1]
    ensures Sum(ts', i) <= Sum(ts, i + 1)
  {
    if i > 0 { SumPop(ts, ts', i - 1); }
  }

  /** An entry is split into one less and 0. */
  lemma {:induction false} SumSplits(ts: seq<nat>, ts': seq<nat>, m: nat, n: nat)
    requires m < n <= |ts| && |ts'| == |ts| + 1
    requires (forall j | 0 <= j < m :: ts'[j] == ts[j]) && (forall j | m < j < |ts| :: ts'[j + 1] == ts[j])
    requires ts'[m] == 0 && ts'[m + 1] + 1 == ts[m]
    ensures Sum(ts', n + 1) + 1 == Sum(ts, n)
  {
    if n == m + 1 {
      SumDrops(ts, ts', m);
      SumDrops(ts', ts, m);
    } else {
      SumSplits(ts, ts', m, n - 1);
      assert ts'[n] == ts[n - 1];
    }
  }

  lemma LastOfRowIs(q: seq<Req>, row: nat, m: int)
    requires -1 <= m < |q| && (m >= 0 ==> q[m].row == row)
    requires forall j | m < j < |q| :: q[j].row != row
    ensures LastOfRow(q, row) == m
  {
  }

  lemma TermBehind(q: seq<Req>, k: nat, r: Req, j: nat, limit: nat)
    requires j < k <= |q|
    ensures var q' := q[..k] + [r] + q[k..]; q'[j] == q[j] && Term(q', j, limit) <= Term(q, j, limit)
  {
    var q' := q[..k] + [r] + q[k..];
    assert q'[j] == q[j];
    if IsLast(q', j) {
      forall l | j < l < |q| ensures q[l].row != q[j].row {
        assert q'[if l < k then l else l + 1] == q[l];
      }
      LastOfRowIs(q, q[j].row, j);
    }
  }

  /** An insertion behind entry i leaves what may be put ahead of it. */
  lemma InsertBehind(q: seq<Req>, id: nat, row: nat, b: BankView, limit: nat, i: nat)
    requires i < |q| && i < Slot(q, row, b, limit).0
    ensures var q' := Insert(q, id, row, b, limit);
      |q'| == |q| + 1 && q'[i] == q[i] && Budget(q', i, limit) <= Budget(q, i, limit)
  {
    var q' := Insert(q, id, row, b, limit);
    var (k, hits) := Slot(q, row, b, limit);
    forall j: nat | j < i ensures Term(q', j, limit) <= Term(q, j, limit) {
      TermBehind(q, k, Req(id, row, hits), j, limit);
    }
    SumDrops(Terms(q, limit), Terms(q', limit), i);
  }

  lemma ShiftedLast(q: seq<Req>, m: nat, r: Req, row: nat)
    requires m < |q| && r.row == q[m].row && IsLast(q, m)
    ensures var l := LastOfRow(q, row);
      LastOfRow(q[..m + 1] + [r] + q[m + 1..], row) == if row == r.row then m + 1 else if l <= m then l else l + 1
  {
    var q' := q[..m + 1] + [r] + q[m + 1..];
    var l := LastOfRow(q, row);
    var l' := if row == r.row then m + 1 else if l <= m then l else l + 1;
    forall j | l' < j < |q'| ensures q'[j].row != row {
      assert q'[j] == if j <= m then q[j] else if j == m + 1 then r else q[j - 1];
    }
    assert l' >= 0 ==> q'[l'] == if l' == m + 1 then r else q[l];
    LastOfRowIs(q', row, l');
  }

  /** The rows of an insertion right behind m, one of which m no longer ends. */
  lemma ShiftedTerm(q: seq<Req>, m: nat, r: Req, j: nat, limit: nat)
    requires m < |q| && r.row == q[m].row && IsLast(q, m) && j < |q|
    requires q[m].hits < limit && r.hits == q[m].hits + 1
    ensures var q' := q[..m + 1] + [r] + q[m + 1..];
      && (j < m ==> Term(q', j, limit) == Term(q, j, limit))
      && (j == m ==> Term(q', m, limit) == 0 && Term(q', m + 1, limit) == Term(q, m, limit) - 1)
      && (j > m ==> Term(q', j + 1, limit) == Term(q, j, limit))
  {
    ShiftedLast(q, m, r, q[j].row);
    ShiftedLast(q, m, r, r.row);
  }

  lemma BudgetShift(q: seq<Req>, m: nat, r: Req, n: nat, limit: nat)
    requires m < |q| && r.row == q[m].row && IsLast(q, m)
    requires q[m].hits < limit && r.hits == q[m].hits + 1 && m < n <= |q|
    ensures Budget(q[..m + 1] + [r] + q[m + 1..], n + 1, limit) + 1 == Budget(q, n, limit)
  {
    var ts, ts' := Terms(q, limit), Terms(q[..m + 1] + [r] + q[m + 1..], limit);
    ShiftedTerm(q, m, r, m, limit);
    forall j | 0 <= j < m ensures ts'[j] == ts[j] { ShiftedTerm(q, m, r, j, limit); }
    forall j | m < j < |q| ensures ts'[j + 1] == ts[j] { ShiftedTerm(q, m, r, j, limit); }
    SumSplits(ts, ts', m, n);
  }

  /** An insertion ahead of entry i uses up one of the insertions allowed there. */
  lemma InsertAhead(q: seq<Req>, id: nat, row: nat, b: BankView, limit: nat, i: nat)
    requires i < |q| && Slot(q, row, b, limit).0 <= i
    ensures var q' := Insert(q, id, row, b, limit);
      |q'| == |q| + 1 && q'[i + 1] == q[i] && Budget(q', i + 1, limit) + 1 == Budget(q, i, limit)
  {
    var m := LastOfRow(q, row);
    BudgetShift(q, m, Req(id, row, q[m].hits + 1), i, limit);
  }

  lemma PopTerm(q: seq<Req>, j: nat, limit: nat)
    requires j + 1 < |q|
    ensures Term(q[1..], j, limit) <= Term(q, j + 1, limit)
  {
    assert q[1..][j] == q[j + 1];
    if IsLast(q[1..], j) {
      forall l | j + 1 < l < |q| ensures q[l].row != q[j + 1].row { assert q[1..][l - 1] == q[l]; }
      LastOfRowIs(q, q[j + 1].row, j + 1);
    }
  }

  /** Serving the front request leaves what may be put ahead of the others. */
  lemma PopBudget(q: seq<Req>, n: nat, limit: nat)
    requires n < |q|
    ensures Budget(q[1..], n, limit) <= Budget(q, n + 1, limit)
  {
    var ts, ts' := Terms(q, limit), Terms(q[1..], limit);
    forall j | 0 <= j < n ensures ts'[j] <= ts[j + 1] { PopTerm(q, j, limit); }
    SumPop(ts, ts', n);
  }

  // ------------------------------------------------------------------- runs

  /** What happens to a bank list: arrivals, with whatever the bank looks like at
      that moment, and services of the request in front. */
  datatype Op = Arrive(id: nat, row: nat, b: BankView) | Serve

  function Step(q: seq<Req>, op: Op, limit: nat): seq<Req> {
    match op
    case Arrive(id, row, b) => Insert(q, id, row, b, limit)
    case Serve => if q == [] then q else q[1..]
  }

  function Run(q: seq<Req>, ops: seq<Op>, limit: nat): seq<Req>
    decreases |ops|
  {
    if ops == [] then q else Run(Step(q, ops[0], limit), ops[1..], limit)
  }

  /** How often the request now at place i is overtaken before it is served. */
  function Overtaken(q: seq<Req>, i: nat, ops: seq<Op>, limit: nat): nat
    requires i < |q|
    decreases |ops|
  {
    if ops == [] then 0
    else
      match ops[0]
      case Arrive(id, row, b) =>
        var k := Slot(q, row, b, limit).0;
        var q' := Insert(q, id, row, b, limit);
        if k <= i then
          InsertAhead(q, id, row, b, limit, i);
          1 + Overtaken(q', i + 1, ops[1..], limit)
        else
          InsertBehind(q, id, row, b, limit, i);
          Overtaken(q', i, ops[1..], limit)
      case Serve => if i == 0 then 0 else Overtaken(q[1..], i - 1, ops[1..], limit)
  }

  /** Over any run, a waiting request is overtaken at most as often as its budget
      on arrival allows. */
  lemma {:induction false} OvertakingBounded(q: seq<Req>, i: nat, ops: seq<Op>, limit: nat)
    requires i < |q|
    ensures Overtaken(q, i, ops, limit) <= Budget(q, i, limit)
    decreases |ops|
  {
    if ops != [] {
      if ops[0].Arrive? {
        var q' := Insert(q, ops[0].id, ops[0].row, ops[0].b, limit);
        var i' := PlaceAfter(q, i, ops[0], limit);
        OvertakingBounded(q', i', ops[1..], limit);
      } else if i > 0 {
        OvertakingBounded(q[1..], i - 1, ops[1..], limit);
        PopBudget(q, i - 1, limit);
      }
    }
  }

  function Serves(ops: seq<Op>): nat
    decreases |ops|
  {
    if ops == [] then 0 else (if ops[0].Serve? then 1 else 0) + Serves(ops[1..])
  }

  /** That is what moves the request back: each service moves it forward, and as long
      as there have been no more of them it still waits. */
  lemma {:induction false} OvertakenMoves(q: seq<Req>, i: nat, ops: seq<Op>, limit: nat)
    requires i < |q|
    ensures var j := i + Overtaken(q, i, ops, limit) - Serves(ops);
      j >= 0 ==> j < |Run(q, ops, limit)| && Run(q, ops, limit)[j] == q[i]
    decreases |ops|
  {
    if ops != [] {
      var q', rest := Step(q, ops[0], limit), ops[1..];
      if ops[0].Arrive? {
        var i' := OvertakenStep(q, i, ops, limit);
        OvertakenMoves(q', i', rest, limit);
      } else if i > 0 {
        OvertakenMoves(q', i - 1, rest, limit);
      }
    }
  }

  lemma OvertakenStep(q: seq<Req>, i: nat, ops: seq<Op>, limit: nat) returns (i': nat)
    requires i < |q| && ops != [] && ops[0].Arrive?
    ensures var q' := Step(q, ops[0], limit);
      && i' < |q'| && q'[i'] == q[i]
      && Overtaken(q, i, ops, limit) == i' - i + Overtaken(q', i', ops[1..], limit)
  {
    i' := PlaceAfter(q, i, ops[0], limit);
  }

  lemma PlaceAfter(q: seq<Req>, i: nat, op: Op, limit: nat) returns (i': nat)
    requires i < |q| && op.Arrive?
    ensures var q' := Insert(q, op.id, op.row, op.b, limit);
      && i' < |q'| && q'[i'] == q[i]
      && i' == (if Slot(q, op.row, op.b, limit).0 <= i then i + 1 else i)
      && Budget(q', i', limit) + (i' - i) <= Budget(q, i, limit)
  {
    if Slot(q, op.row, op.b, limit).0 <= i {
      InsertAhead(q, op.id, op.row, op.b, limit, i);
      i' := i + 1;
    } else {
      InsertBehind(q, op.id, op.row, op.b, limit, i);
      i' := i;
    }
  }

  function RowsAhead(q: seq<Req>, i: nat): set<nat>
    requires i <= |q|
  {
    set j | 0 <= j < i :: q[j].row
  }

  /** Rows ahead of entry i whose last request is also ahead of it. */
  function ClosedRows(q: seq<Req>, i: nat): set<nat>
    requires i <= |q|
  {
    set j: nat | j < i && IsLast(q, j) :: q[j].row
  }

  lemma {:induction false} BudgetByRows(q: seq<Req>, i: nat, limit: nat)
    requires i <= |q|
    ensures Budget(q, i, limit) <= limit * |ClosedRows(q, i)|
    ensures ClosedRows(q, i) <= RowsAhead(q, i)
  {
    if i > 0 {
      BudgetByRows(q, i - 1, limit);
      var a, c := ClosedRows(q, i - 1), ClosedRows(q, i);
      ClosedRowsStep(q, i);
      if IsLast(q, i - 1) { Scale(limit, |a|, |c|); }
    }
  }

  lemma Scaled(limit: nat, a: nat, b: nat)
    requires a <= b
    ensures limit * a <= limit * b
  {
  }

  lemma Scale(limit: nat, a: nat, c: nat)
    requires c == a + 1
    ensures limit * c == limit * a + limit
  {
  }

  lemma ClosedRowsStep(q: seq<Req>, i: nat)
    requires 0 < i <= |q|
    ensures if IsLast(q, i - 1)
      then q[i - 1].row !in ClosedRows(q, i - 1) && ClosedRows(q, i) == ClosedRows(q, i - 1) + {q[i - 1].row}
      else ClosedRows(q, i) == ClosedRows(q, i - 1)
  {
  }

  lemma SubsetSize(a: set<nat>, b: set<nat>)
    requires a <= b
    ensures |a| <= |b|
  {
    assert b == a + (b - a);
  }

  /** At most limit times per distinct row ahead of the request when it arrives. */
  lemma OvertakingPerRow(q: seq<Req>, i: nat, ops: seq<Op>, limit: nat)
    requires i < |q|
    ensures Overtaken(q, i, ops, limit) <= limit * |RowsAhead(q, i)|
  {
    OvertakingBounded(q, i, ops, limit);
    BudgetByRows(q, i, limit);
    SubsetSize(ClosedRows(q, i), RowsAhead(q, i));
    Scaled(limit, |ClosedRows(q, i)|, |RowsAhead(q, i)|);
  }

  /** With limit 0 the list is a plain queue. */
  lemma {:induction false} LimitZeroIsFcfs(q: seq<Req>, op: Op)
    ensures Step(q, op, 0) == match op
      case Arrive(id, row, _) => q + [Req(id, row, 0)]
      case Serve => if q == [] then q else q[1..]
  {
    if op.Arrive? {
      assert Slot(q, op.row, op.b, 0) == (|q|, 0);
      assert q[..|q|] == q && q[|q|..] == [];
    }
  }

  /** A request that counts as a hit and is not in front stands right behind the one
      of its row that it continues. */
  predicate Chained(q: seq<Req>) {
    forall i | 0 < i < |q| && q[i].hits > 0 :: q[i - 1].row == q[i].row && q[i].hits == q[i - 1].hits + 1
  }

  lemma InsertChained(q: seq<Req>, id: nat, row: nat, b: BankView, limit: nat)
    requires Chained(q)
    ensures Chained(Insert(q, id, row, b, limit))
  {
    var q' := Insert(q, id, row, b, limit);
    var (k, hits) := Slot(q, row, b, limit);
    assert forall j | 0 <= j < |q'| :: q'[j] == if j < k then q[j] else if j == k then Req(id, row, hits) else q[j - 1];
    forall i | 0 < i < |q'| && q'[i].hits > 0 ensures q'[i - 1].row == q'[i].row && q'[i].hits == q'[i - 1].hits + 1 {}
  }

  /** So row hits stay together over any run. */
  lemma {:induction false} RunChained(q: seq<Req>, ops: seq<Op>, limit: nat)
    requires Chained(q)
    ensures Chained(Run(q, ops, limit))
    decreases |ops|
  {
    if ops != [] {
      if ops[0].Arrive? { InsertChained(q, ops[0].id, ops[0].row, ops[0].b, limit); }
      RunChained(Step(q, ops[0], limit), ops[1..], limit);
    }
  }

  /** Hit numbers never pass the limit, so row hits cannot go on for ever. */
  lemma {:induction false} HitsWithinLimit(q: seq<Req>, ops: seq<Op>, limit: nat)
    requires forall r | r in q :: r.hits <= limit
    ensures forall r | r in Run(q, ops, limit) :: r.hits <= limit
    decreases |ops|
  {
    if ops != [] { HitsWithinLimit(Step(q, ops[0], limit), ops[1..], limit); }
  }
}
