/** DRAM timing: what a legal command trace is, and what a controller's per-bank
    cycle bounds have to say about the trace issued so far. */
module DdrTiming {

  /** Timing parameters in memory cycles. */
  datatype Params = Params(
    tBL: nat, tCL: nat, tRCD: nat, tRTP: nat, tRP: nat, tRRD: nat, tRAS: nat,
    tFAW: nat, tWTR: nat, tWR: nat, tRFC: nat)
  {
    predicate Valid() {
      && tBL > 0 && tCL > 0 && tRCD > 0 && tRTP > 0 && tRP > 0 && tRRD > 0
      && tRAS > 0 && tFAW > 0 && tWTR > 0 && tWR > 0 && tRFC >= tRP
    }

    /** From a column command until its row may be closed. */
    function Recovery(write: bool): nat {
      if write then tCL + tBL + tWR else tRTP
    }
  }

  datatype Bank = Bank(
    openRow: nat, open: bool, minPreCycle: nat, lastActCycle: nat, lastCmdCycle: nat, curRowHits: nat)

  datatype Channel = Channel(banks: seq<Bank>, minRespCycle: nat, lastCmdWasWrite: bool)

  /** Commands in the order the controller decides on them. */
  datatype Cmd =
    | Act(bank: nat, row: nat, cycle: nat)
    | Col(bank: nat, row: nat, write: bool, cycle: nat)
    | Refresh(start: nat, done: nat)

  type Trace = seq<Cmd>

  datatype Row = Closed | Opened(row: nat, since: nat)

  /** The row that the trace leaves open in a bank. */
  ghost function OpenRow(tr: Trace, b: nat): Row {
    if tr == [] then Closed
    else match tr[|tr| - 1]
      case Act(a, row, cycle) => if a == b then Opened(row, cycle) else OpenRow(tr[..|tr| - 1], b)
      case Refresh(_, _) => Closed
      case _ => OpenRow(tr[..|tr| - 1], b)
  }

  /** The constraints between an earlier command x and a later one y. */
  ghost predicate PairOk(p: Params, x: Cmd, y: Cmd) {
    match (x, y)
    case (Col(_, _, w, c), Col(_, _, v, d)) =>
      c + p.tCL + p.tBL <= d + p.tCL && (w && !v ==> c + p.tCL + p.tBL + p.tWTR <= d)
    case (Act(a, _, c), Act(b, _, d)) => a == b ==> c + p.tRAS + p.tRP <= d
    case (Col(a, _, w, c), Act(b, _, d)) => a == b ==> c + (if w then p.tCL + p.tBL + p.tWR else p.tRTP) + p.tRP <= d
    case (Refresh(_, done), Act(_, _, d)) => done <= d
    case (Act(_, _, c), Refresh(start, _)) => c + p.tRAS <= start
    case (Col(_, _, w, c), Refresh(start, _)) => c + (if w then p.tCL + p.tBL + p.tWR else p.tRTP) <= start
    case _ => true
  }

  /** A column command goes to the row that is open, after its row delay. */
  ghost predicate ColOk(p: Params, tr: Trace, y: Cmd) {
    y.Col? ==>
      var o := OpenRow(tr, y.bank);
      o.Opened? && o.row == y.row && o.since + p.tRCD <= y.cycle
  }

  ghost predicate Legal(p: Params, tr: Trace) {
    tr == [] ||
      var rest, y := tr[..|tr| - 1], tr[|tr| - 1];
      Legal(p, rest) && ColOk(p, rest, y) && forall x | x in rest :: PairOk(p, x, y)
  }

  // ------------------------------------------------------- bounds vs trace

  /** What the channel remembers about a command it has issued. */
  ghost predicate Remembered(p: Params, ch: Channel, x: Cmd) {
    match x
    case Act(b, _, c) => b < |ch.banks| ==> c + p.tRAS <= ch.banks[b].minPreCycle
    case Col(b, _, w, c) =>
      && (b < |ch.banks| ==> c + p.Recovery(w) <= ch.banks[b].minPreCycle)
      && c + p.tCL + p.tBL <= ch.minRespCycle
      && (w && !ch.lastCmdWasWrite ==> c + p.tCL + p.tBL + p.tWTR + p.tCL <= ch.minRespCycle)
    case Refresh(_, done) =>
      forall b: nat | b < |ch.banks| :: done <= ch.banks[b].minPreCycle + p.tRP
  }

  ghost predicate BankOk(p: Params, ch: Channel, tr: Trace, b: nat)
    requires b < |ch.banks|
  {
    var k := ch.banks[b];
    && k.lastCmdCycle + p.tCL + p.tBL <= ch.minRespCycle
    && (k.open ==> OpenRow(tr, b) == Opened(k.openRow, k.lastActCycle) && k.lastActCycle + p.tRCD <= k.lastCmdCycle)
  }

  ghost predicate ChannelOk(p: Params, ch: Channel, tr: Trace) {
    && p.Valid() && ch.minRespCycle > p.tCL + p.tBL
    && Legal(p, tr)
    && (forall x {:trigger Remembered(p, ch, x)} | x in tr :: Remembered(p, ch, x) && (!x.Refresh? ==> x.bank < |ch.banks|))
    && (forall b: nat {:trigger BankOk(p, ch, tr, b)} | b < |ch.banks| :: BankOk(p, ch, tr, b))
  }

  lemma LegalSnoc(p: Params, tr: Trace, y: Cmd)
    requires Legal(p, tr) && ColOk(p, tr, y) && forall x | x in tr :: PairOk(p, x, y)
    ensures Legal(p, tr + [y])
    ensures forall b ::
      (OpenRow(tr + [y], b) ==
       match y
       case Act(a, row, cycle) => if a == b then Opened(row, cycle) else OpenRow(tr, b)
       case Refresh(_, _) => Closed
       case _ => OpenRow(tr, b))
  {
    assert (tr + [y])[..|tr + [y]| - 1] == tr;
  }

  /** Opening a row: late enough for everything the bank has done. */
  lemma ActLegal(p: Params, ch: Channel, tr: Trace, b: nat, row: nat, act: nat)
    requires ChannelOk(p, ch, tr) && b < |ch.banks|
    requires ch.banks[b].minPreCycle + p.tRP <= act
    ensures Legal(p, tr + [Act(b, row, act)])
    ensures OpenRow(tr + [Act(b, row, act)], b) == Opened(row, act)
    ensures forall c: nat | c != b :: OpenRow(tr + [Act(b, row, act)], c) == OpenRow(tr, c)
  {
    forall x | x in tr ensures PairOk(p, x, Act(b, row, act)) { assert Remembered(p, ch, x); }
    LegalSnoc(p, tr, Act(b, row, act));
  }

  /** A column command on the open row, once the data bus is free. */
  lemma ColLegal(p: Params, ch: Channel, tr: Trace, b: nat, row: nat, write: bool, act: nat, cmd: nat)
    requires Legal(p, tr) && OpenRow(tr, b) == Opened(row, act) && act + p.tRCD <= cmd
    requires forall x | x in tr && x.Col? :: Remembered(p, ch, x)
    requires ch.minRespCycle <= cmd + p.tCL
    requires ch.lastCmdWasWrite && !write ==> ch.minRespCycle + p.tWTR <= cmd
    ensures Legal(p, tr + [Col(b, row, write, cmd)])
    ensures forall c: nat :: OpenRow(tr + [Col(b, row, write, cmd)], c) == OpenRow(tr, c)
  {
    var y := Col(b, row, write, cmd);
    forall x | x in tr ensures PairOk(p, x, y) {
      if x.Col? { assert Remembered(p, ch, x); }
    }
    LegalSnoc(p, tr, y);
  }

  function Issued(tr: Trace, b: nat, row: nat, write: bool, miss: bool, act: nat, cmd: nat): Trace {
    tr + (if miss then [Act(b, row, act)] else []) + [Col(b, row, write, cmd)]
  }

  /** What the bounds of bank b must be after issuing a request to it. */
  ghost predicate IssueFits(p: Params, ch: Channel, b: nat, row: nat, write: bool, miss: bool, act: nat, cmd: nat, bank: Bank)
    requires b < |ch.banks|
  {
    var k := ch.banks[b];
    && (miss ==> k.minPreCycle + p.tRP <= act && act + p.tRCD <= cmd)
    && (!miss ==> k.open && k.openRow == row && act == k.lastActCycle)
    && ch.minRespCycle <= cmd + p.tCL
    && (ch.lastCmdWasWrite && !write ==> ch.minRespCycle + p.tWTR <= cmd)
    && bank.minPreCycle >= k.minPreCycle && bank.minPreCycle >= act + p.tRAS
    && bank.minPreCycle >= cmd + p.Recovery(write)
    && bank.lastActCycle == act && bank.lastCmdCycle == cmd && (bank.open ==> bank.openRow == row)
  }

  /** The commands of one request, with an ACT on a row miss, are legal. */
  lemma IssueLegal(p: Params, ch: Channel, tr: Trace, b: nat, row: nat, write: bool, miss: bool, act: nat, cmd: nat, bank: Bank)
    requires ChannelOk(p, ch, tr) && b < |ch.banks| && IssueFits(p, ch, b, row, write, miss, act, cmd, bank)
    ensures var tr' := Issued(tr, b, row, write, miss, act, cmd);
      && Legal(p, tr') && OpenRow(tr', b) == Opened(row, act) && act + p.tRCD <= cmd
      && forall c: nat | c != b :: OpenRow(tr', c) == OpenRow(tr, c)
  {
    assert BankOk(p, ch, tr, b);
    var tr1 := tr + (if miss then [Act(b, row, act)] else []);
    if miss { ActLegal(p, ch, tr, b, row, act); } else { assert tr1 == tr; }
    forall x | x in tr1 && x.Col? ensures Remembered(p, ch, x) {}
    ColLegal(p, ch, tr1, b, row, write, act, cmd);
  }

  lemma IssueRemembered(p: Params, ch: Channel, tr: Trace, b: nat, row: nat, write: bool, miss: bool, act: nat, cmd: nat, bank: Bank, x: Cmd)
    requires ChannelOk(p, ch, tr) && b < |ch.banks| && IssueFits(p, ch, b, row, write, miss, act, cmd, bank)
    requires x in Issued(tr, b, row, write, miss, act, cmd)
    ensures Remembered(p, Channel(ch.banks[b := bank], cmd + p.tCL + p.tBL, write), x)
    ensures !x.Refresh? ==> x.bank < |ch.banks|
  {
    if x in tr { StillRemembered(p, ch, x, b, bank, cmd, write); }
  }

  /** Issuing one request keeps the bounds right, if the bank's new bounds cover
      the new commands. */
  lemma IssueOk(p: Params, ch: Channel, tr: Trace, b: nat, row: nat, write: bool, miss: bool, act: nat, cmd: nat, bank: Bank)
    requires ChannelOk(p, ch, tr) && b < |ch.banks| && IssueFits(p, ch, b, row, write, miss, act, cmd, bank)
    ensures ch.banks[b].lastCmdCycle < cmd
    ensures ChannelOk(p, Channel(ch.banks[b := bank], cmd + p.tCL + p.tBL, write), Issued(tr, b, row, write, miss, act, cmd))
  {
    var ch', tr' := Channel(ch.banks[b := bank], cmd + p.tCL + p.tBL, write), Issued(tr, b, row, write, miss, act, cmd);
    IssueLegal(p, ch, tr, b, row, write, miss, act, cmd, bank);
    forall x | x in tr' ensures Remembered(p, ch', x) && (!x.Refresh? ==> x.bank < |ch'.banks|) {
      IssueRemembered(p, ch, tr, b, row, write, miss, act, cmd, bank, x);
    }
    assert BankOk(p, ch, tr, b);
    forall c: nat | c < |ch'.banks| ensures BankOk(p, ch', tr', c) { assert BankOk(p, ch, tr, c); }
  }

  lemma StillRemembered(p: Params, ch: Channel, x: Cmd, b: nat, bank: Bank, cmd: nat, write: bool)
    requires p.Valid() && Remembered(p, ch, x) && b < |ch.banks|
    requires bank.minPreCycle >= ch.banks[b].minPreCycle && ch.minRespCycle <= cmd + p.tCL
    requires ch.lastCmdWasWrite && !write ==> ch.minRespCycle + p.tWTR <= cmd
    ensures Remembered(p, Channel(ch.banks[b := bank], cmd + p.tCL + p.tBL, write), x)
  {
  }

  /** All banks closed, and kept so until a refresh that starts at start is over. */
  ghost predicate Refreshed(p: Params, ch: Channel, start: nat, ch': Channel) {
    && |ch'.banks| == |ch.banks| && ch'.minRespCycle == ch.minRespCycle && ch'.lastCmdWasWrite == ch.lastCmdWasWrite
    && p.tRFC >= p.tRP
    && forall b: nat | b < |ch.banks| :: ch'.banks[b] == ch.banks[b].(minPreCycle := start + p.tRFC - p.tRP, open := false)
  }

  /** Refreshing all banks: everything closes and no row opens before done. */
  lemma RefreshOk(p: Params, ch: Channel, tr: Trace, start: nat, ch': Channel)
    requires ChannelOk(p, ch, tr)
    requires forall b: nat | b < |ch.banks| :: ch.banks[b].minPreCycle <= start
    requires Refreshed(p, ch, start, ch') && |ch.banks| > 0
    ensures ChannelOk(p, ch', tr + [Refresh(start, start + p.tRFC)])
  {
    var y := Refresh(start, start + p.tRFC);
    forall x | x in tr ensures PairOk(p, x, y) { assert Remembered(p, ch, x); }
    LegalSnoc(p, tr, y);
    forall x | x in tr + [y] ensures Remembered(p, ch', x) && (!x.Refresh? ==> x.bank < |ch'.banks|) {
      if x in tr { assert Remembered(p, ch, x); }
    }
    forall b: nat | b < |ch'.banks| ensures BankOk(p, ch', tr + [y], b) { assert BankOk(p, ch, tr, b); }
  }

  // --------------------------------------------- what a legal trace means

  lemma {:induction false} LegalPairs(p: Params, tr: Trace, i: nat, j: nat)
    requires Legal(p, tr) && i < j < |tr|
    ensures PairOk(p, tr[i], tr[j])
  {
    if j < |tr| - 1 {
      LegalPairs(p, tr[..|tr| - 1], i, j);
    } else {
      assert tr[i] in tr[..|tr| - 1];
    }
  }

  lemma {:induction false} LegalPrefix(p: Params, tr: Trace, j: nat)
    requires Legal(p, tr) && j < |tr|
    ensures Legal(p, tr[..j]) && ColOk(p, tr[..j], tr[j])
  {
    if j < |tr| - 1 {
      LegalPrefix(p, tr[..|tr| - 1], j);
      assert tr[..|tr| - 1][..j] == tr[..j];
    }
  }

  /** An open row was opened by an ACT with no refresh since. */
  lemma {:induction false} OpenedBy(tr: Trace, b: nat) returns (i: nat)
    requires OpenRow(tr, b).Opened?
    ensures i < |tr| && tr[i] == Act(b, OpenRow(tr, b).row, OpenRow(tr, b).since)
    ensures forall k | i < k < |tr| :: !tr[k].Refresh? && !(tr[k].Act? && tr[k].bank == b)
  {
    var y := tr[|tr| - 1];
    if y.Act? && y.bank == b { i := |tr| - 1; }
    else { i := OpenedBy(tr[..|tr| - 1], b); }
  }

  /** After a refresh no column command comes before tRFC and the row delay. */
  lemma ColAfterRefresh(p: Params, tr: Trace, i: nat, j: nat)
    requires Legal(p, tr) && i < j < |tr| && tr[i].Refresh? && tr[j].Col?
    ensures tr[i].done + p.tRCD <= tr[j].cycle
  {
    LegalPrefix(p, tr, j);
    var k := OpenedBy(tr[..j], tr[j].bank);
    assert tr[..j][i] == tr[i] && tr[..j][k] == tr[k];
    LegalPairs(p, tr, i, k);
  }
}
