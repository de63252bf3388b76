/** The controller's commands are not only legal but prompt: what keeps a command
    from being a cycle earlier is some earlier command, the request itself, the
    activation window or the start of time. */
module DdrSlack {
  import opened DdrTiming

  /** x rules out y one cycle earlier. */
  ghost predicate Delays(p: Params, x: Cmd, y: Cmd)
    requires !y.Refresh?
  {
    y.cycle > 0 && !PairOk(p, x, y.(cycle := y.cycle - 1))
  }

  ghost predicate Delayed(p: Params, tr: Trace, y: Cmd)
    requires !y.Refresh?
  {
    exists x {:trigger Delays(p, x, y)} :: x in tr && Delays(p, x, y)
  }

  /** A column command decided on at cur comes at once, or as soon as its row is
      open (ready) or the data bus lets it. */
  ghost predicate ColPrompt(p: Params, tr: Trace, y: Cmd, cur: nat, ready: nat)
    requires y.Col?
  {
    || y.cycle == cur || y.cycle == ready || Delayed(p, tr, y)
    || (y.cycle == p.tBL + 1 && forall x | x in tr :: !x.Col?)
  }

  predicate IsAct(x: Cmd, b: nat, c: nat) {
    x.Act? && x.bank == b && x.cycle == c
  }

  ghost predicate SomeAct(tr: Trace, b: nat, c: nat) {
    exists x {:trigger IsAct(x, b, c)} :: x in tr && IsAct(x, b, c)
  }

  /** An ACT comes when its request does, after a precharge if the bank was open
      then, or as soon as the bank and the activation window (faw) let it. */
  ghost predicate ActPrompt(p: Params, tr: Trace, y: Cmd, arrival: nat, open: bool, faw: nat)
    requires y.Act?
  {
    && y.cycle >= arrival && y.cycle >= faw + p.tFAW && (open ==> y.cycle >= arrival + p.tRP)
    && (|| y.cycle == arrival || y.cycle == faw + p.tFAW || (open && y.cycle == arrival + p.tRP)
        || Delayed(p, tr, y) || (y.cycle >= p.tRRD && SomeAct(tr, y.bank, y.cycle - p.tRRD))
        || y.cycle == p.tRP || y.cycle == p.tRRD)
  }

  // ------------------------------------- the bounds are those of actual commands

  ghost predicate LastData(p: Params, ch: Channel, x: Cmd) {
    x.Col? && ch.minRespCycle == x.cycle + p.tCL + p.tBL && ch.lastCmdWasWrite == x.write
  }

  ghost predicate BusExact(p: Params, ch: Channel, tr: Trace) {
    || (exists x {:trigger LastData(p, ch, x)} :: x in tr && LastData(p, ch, x))
    || (ch.minRespCycle == p.tCL + p.tBL + 1 && !ch.lastCmdWasWrite && forall x | x in tr :: !x.Col?)
  }

  /** Command x is why bank b must not be precharged before c. */
  ghost predicate Holds(p: Params, x: Cmd, b: nat, c: nat) {
    match x
    case Act(a, _, d) => a == b && c == d + p.tRAS
    case Col(a, _, w, d) => a == b && c == d + p.Recovery(w)
    case Refresh(_, done) => done == c + p.tRP
  }

  ghost predicate SomeHolds(p: Params, tr: Trace, b: nat, c: nat) {
    exists x {:trigger Holds(p, x, b, c)} :: x in tr && Holds(p, x, b, c)
  }

  ghost predicate BankExact(p: Params, ch: Channel, tr: Trace, b: nat)
    requires b < |ch.banks|
  {
    var k := ch.banks[b];
    && (k.minPreCycle == 0 || SomeHolds(p, tr, b, k.minPreCycle))
    && (k.lastActCycle == 0 || SomeAct(tr, b, k.lastActCycle))
  }

  ghost predicate Exact(p: Params, ch: Channel, tr: Trace) {
    BusExact(p, ch, tr) && forall b: nat {:trigger BankExact(p, ch, tr, b)} | b < |ch.banks| :: BankExact(p, ch, tr, b)
  }

  /** Commands in the trace stay there. */
  lemma BankStays(p: Params, ch: Channel, tr: Trace, b: nat, ch': Channel, more: Trace)
    requires b < |ch.banks| && BankExact(p, ch, tr, b)
    requires b < |ch'.banks| && ch'.banks[b] == ch.banks[b]
    ensures BankExact(p, ch', tr + more, b)
  {
    var k, tr' := ch.banks[b], tr + more;
    if k.minPreCycle != 0 {
      var x :| x in tr && Holds(p, x, b, k.minPreCycle);
      assert x in tr';
    }
    if k.lastActCycle != 0 {
      var x :| x in tr && IsAct(x, b, k.lastActCycle);
      assert x in tr';
    }
  }

  /** The bank that a request goes to. */
  lemma IssuedBank(p: Params, ch: Channel, tr: Trace, b: nat, row: nat, write: bool, miss: bool, act: nat, cmd: nat, bank: Bank)
    requires ChannelOk(p, ch, tr) && b < |ch.banks| && BankExact(p, ch, tr, b)
    requires !miss ==> ch.banks[b].open && act == ch.banks[b].lastActCycle
    requires bank.lastActCycle == act
    requires bank.minPreCycle == ch.banks[b].minPreCycle || bank.minPreCycle == act + p.tRAS
          || bank.minPreCycle == cmd + p.Recovery(write)
    ensures BankExact(p, Channel(ch.banks[b := bank], cmd + p.tCL + p.tBL, write), Issued(tr, b, row, write, miss, act, cmd), b)
  {
    var k, tr' := ch.banks[b], Issued(tr, b, row, write, miss, act, cmd);
    var a := Act(b, if miss then row else OpenRow(tr, b).row, act) by {
      assert BankOk(p, ch, tr, b);
    }
    assert a in tr' by {
      if !miss {
        assert BankOk(p, ch, tr, b);
        var i := OpenedBy(tr, b);
      }
    }
    assert Holds(p, a, b, act + p.tRAS) && IsAct(a, b, act);
    var y := Col(b, row, write, cmd);
    assert y in tr' && Holds(p, y, b, cmd + p.Recovery(write));
    if k.minPreCycle != 0 {
      var x :| x in tr && Holds(p, x, b, k.minPreCycle);
      assert x in tr';
    }
  }

  lemma IssueExact(p: Params, ch: Channel, tr: Trace, b: nat, row: nat, write: bool, miss: bool, act: nat, cmd: nat, bank: Bank)
    requires ChannelOk(p, ch, tr) && Exact(p, ch, tr) && b < |ch.banks|
    requires !miss ==> ch.banks[b].open && act == ch.banks[b].lastActCycle
    requires bank.lastActCycle == act
    requires bank.minPreCycle == ch.banks[b].minPreCycle || bank.minPreCycle == act + p.tRAS
          || bank.minPreCycle == cmd + p.Recovery(write)
    ensures Exact(p, Channel(ch.banks[b := bank], cmd + p.tCL + p.tBL, write), Issued(tr, b, row, write, miss, act, cmd))
  {
    var ch', tr' := Channel(ch.banks[b := bank], cmd + p.tCL + p.tBL, write), Issued(tr, b, row, write, miss, act, cmd);
    var more := (if miss then [Act(b, row, act)] else []) + [Col(b, row, write, cmd)];
    assert tr' == tr + more;
    assert Col(b, row, write, cmd) in tr' && LastData(p, ch', Col(b, row, write, cmd));
    forall c: nat | c < |ch'.banks| ensures BankExact(p, ch', tr', c) {
      assert BankExact(p, ch, tr, c);
      if c == b {
        IssuedBank(p, ch, tr, b, row, write, miss, act, cmd, bank);
      } else {
        BankStays(p, ch, tr, c, ch', more);
      }
    }
  }

  lemma RefreshExact(p: Params, ch: Channel, tr: Trace, start: nat, ch': Channel)
    requires Exact(p, ch, tr) && Refreshed(p, ch, start, ch')
    ensures Exact(p, ch', tr + [Refresh(start, start + p.tRFC)])
  {
    var y := Refresh(start, start + p.tRFC);
    var tr' := tr + [y];
    if x :| x in tr && LastData(p, ch, x) { assert x in tr' && LastData(p, ch', x); }
    forall b: nat | b < |ch'.banks| ensures BankExact(p, ch', tr', b) {
      assert BankExact(p, ch, tr, b);
      assert y in tr' && Holds(p, y, b, ch'.banks[b].minPreCycle);
      if ch.banks[b].lastActCycle != 0 {
        var x :| x in tr && IsAct(x, b, ch.banks[b].lastActCycle);
        assert x in tr';
      }
    }
  }

  // -------------------------------------------------------------- promptness

  /** The data bus is what the last column command left it. */
  lemma ColIsPrompt(p: Params, ch: Channel, tr: Trace, y: Cmd, cur: nat, ready: nat)
    requires p.Valid() && BusExact(p, ch, tr) && y.Col?
    requires y.cycle == cur || y.cycle == ready || y.cycle + p.tCL == ch.minRespCycle
          || (ch.lastCmdWasWrite && !y.write && y.cycle == ch.minRespCycle + p.tWTR)
    ensures ColPrompt(p, tr, y, cur, ready)
  {
    if y.cycle != cur && y.cycle != ready {
      if x :| x in tr && LastData(p, ch, x) { assert Delays(p, x, y); }
    }
  }

  lemma ActIsPrompt(p: Params, ch: Channel, tr: Trace, y: Cmd, arrival: nat, faw: nat)
    requires p.Valid() && y.Act? && y.bank < |ch.banks| && BankExact(p, ch, tr, y.bank)
    requires var k := ch.banks[y.bank];
      && y.cycle >= arrival && y.cycle >= faw + p.tFAW && (k.open ==> y.cycle >= arrival + p.tRP)
      && (y.cycle == arrival || y.cycle == faw + p.tFAW || (k.open && y.cycle == arrival + p.tRP)
          || y.cycle == k.minPreCycle + p.tRP || y.cycle == k.lastActCycle + p.tRRD)
    ensures ActPrompt(p, tr, y, arrival, ch.banks[y.bank].open, faw)
  {
    var k := ch.banks[y.bank];
    if y.cycle == k.minPreCycle + p.tRP && k.minPreCycle != 0 {
      var x :| x in tr && Holds(p, x, y.bank, k.minPreCycle);
      assert Delays(p, x, y);
    }
  }
}
