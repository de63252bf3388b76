/** The vocabulary of the coherence controllers: line states, request types, a
    directory entry, and the one function that resolves races. */
module Mesi {

  datatype State = I | S | E | M

  datatype Access = GETS | GETX | PUTS | PUTX

  datatype Inval = INV | INVX | FWD

  predicate Exclusive(st: State) {
    st == E || st == M
  }

  predicate IsPut(ty: Access) {
    ty == PUTS || ty == PUTX
  }

  /** What a top controller remembers about one line. */
  datatype Entry = Entry(sharers: set<nat>, numSharers: int, exclusive: bool) {
    predicate IsEmpty() {
      numSharers == 0
    }

    predicate IsExclusive() {
      numSharers == 1 && exclusive
    }

    function Add(c: nat, excl: bool): Entry {
      Entry(sharers + {c}, numSharers + 1, excl)
    }

    function Drop(c: nat): Entry {
      Entry(sharers - {c}, numSharers - 1, exclusive)
    }
  }

  /** A parent's verdict on a request whose child may have been invalidated
      since it issued the request. Panicked stands for a failed assertion. */
  datatype Verdict = Proceed(ty: Access) | Skip | Panicked

  /** CheckForMESIRace: st is the child's state now, initial the state when the
      request was issued. */
  function CheckRace(ty: Access, st: State, initial: State): Verdict {
    if st == initial then Proceed(ty)
    else match ty
      case PUTS | PUTX =>
        if st == I then Skip
        else if st == S then Proceed(PUTS)
        else Panicked
      case GETX => if initial == S && st == I then Proceed(GETX) else Panicked
      case GETS => Panicked
  }
}
