/** Least-recently-used replacement as a function of the access trace. */
module LruStacks {
  import opened Sequences

  /** s without its first a. */
  function Without(s: seq<nat>, a: nat): seq<nat> {
    if s == [] then []
    else if s[0] == a then s[1..]
    else [s[0]] + Without(s[1..], a)
  }

  function Take(s: seq<nat>, n: nat): seq<nat> {
    if |s| <= n then s else s[..n]
  }

  /** One access to a fully-associative array of n lines, most recent first. */
  function Touch(s: seq<nat>, a: nat, n: nat): seq<nat> {
    Take([a] + Without(s, a), n)
  }

  /** The array after a trace of accesses to an empty one. */
  function Run(tr: seq<nat>, n: nat): seq<nat> {
    if tr == [] then [] else Touch(Run(tr[..|tr| - 1], n), tr[|tr| - 1], n)
  }

  /** All addresses of a trace, most recently used first. */
  function Mru(tr: seq<nat>): seq<nat> {
    if tr == [] then []
    else [tr[|tr| - 1]] + Without(Mru(tr[..|tr| - 1]), tr[|tr| - 1])
  }

  /** The distinct addresses used since the last use of x. */
  function Since(tr: seq<nat>, x: nat): set<nat> {
    if tr == [] || tr[|tr| - 1] == x then {}
    else Since(tr[..|tr| - 1], x) + {tr[|tr| - 1]}
  }

  lemma {:induction false} WithoutAt(s: seq<nat>, i: nat)
    requires Distinct(s) && i < |s|
    ensures Without(s, s[i]) == s[..i] + s[i + 1..]
  {
    if i > 0 {
      DistinctTail(s);
      assert s[i] in s[1..];
      WithoutAt(s[1..], i - 1);
    }
  }

  lemma {:induction false} WithoutAbsent(s: seq<nat>, a: nat)
    requires a !in s
    ensures Without(s, a) == s
  {
    if s != [] { WithoutAbsent(s[1..], a); }
  }

  lemma {:induction false} WithoutPast(s: seq<nat>, a: nat, k: nat)
    requires k <= |s| && a !in s[..k]
    ensures Without(s, a) == s[..k] + Without(s[k..], a)
  {
    if k > 0 {
      assert s[0] == s[..k][0] && s[1..][..k - 1] == s[..k][1..] && s[1..][k - 1..] == s[k..];
      WithoutPast(s[1..], a, k - 1);
    } else {
      assert s[k..] == s;
    }
  }

  lemma WithoutDistinct(s: seq<nat>, a: nat)
    requires Distinct(s)
    ensures Distinct(Without(s, a)) && a !in Without(s, a)
    ensures forall x :: x in Without(s, a) <==> x in s && x != a
    ensures |Without(s, a)| == |s| - if a in s then 1 else 0
  {
    if a in s {
      var i :| 0 <= i < |s| && s[i] == a;
      WithoutAt(s, i);
      DistinctRemove(s, i);
    } else {
      WithoutAbsent(s, a);
    }
  }

  lemma TakeCons(x: nat, s: seq<nat>, n: nat)
    requires n > 0
    ensures Take([x] + s, n) == [x] + Take(s, n - 1)
  {
  }

  lemma WithoutCons(x: nat, s: seq<nat>, a: nat)
    ensures Without([x] + s, a) == if x == a then s else [x] + Without(s, a)
  {
    assert ([x] + s)[1..] == s;
  }

  lemma {:induction false} TakeWithout(s: seq<nat>, a: nat, n: nat)
    requires n > 0
    ensures Take(Without(Take(s, n), a), n - 1) == Take(Without(s, a), n - 1)
  {
    if s != [] && n > 1 {
      var x, t := s[0], s[1..];
      assert s == [x] + t;
      TakeCons(x, t, n);
      WithoutCons(x, t, a);
      WithoutCons(x, Take(t, n - 1), a);
      if x != a {
        TakeWithout(t, a, n - 1);
        TakeCons(x, Without(t, a), n - 1);
        TakeCons(x, Without(Take(t, n - 1), a), n - 1);
      }
    }
  }

  /** An array of n lines holds the n most recently used addresses. */
  lemma {:induction false} RunIsMru(tr: seq<nat>, n: nat)
    requires n > 0
    ensures Run(tr, n) == Take(Mru(tr), n)
  {
    if tr != [] {
      var rest, a := tr[..|tr| - 1], tr[|tr| - 1];
      RunIsMru(rest, n);
      TakeWithout(Mru(rest), a, n);
      TakeCons(a, Without(Mru(rest), a), n);
      TakeCons(a, Without(Run(rest, n), a), n);
    }
  }

  lemma {:induction false} MruDistinct(tr: seq<nat>)
    ensures Distinct(Mru(tr)) && forall x :: x in Mru(tr) <==> x in tr
  {
    if tr != [] {
      var rest, a := tr[..|tr| - 1], tr[|tr| - 1];
      MruDistinct(rest);
      WithoutDistinct(Mru(rest), a);
      DistinctCons(a, Without(Mru(rest), a));
      assert tr == rest + [a];
    }
  }

  function Elems(s: seq<nat>): set<nat> {
    set x | x in s
  }

  lemma ConsElems(a: nat, s: seq<nat>)
    ensures Elems([a] + s) == Elems(s) + {a}
  {
    assert forall x :: x in [a] + s <==> x == a || x in s;
  }

  lemma ShiftBefore(m: seq<nat>, i: nat, k: nat)
    requires i < k < |m|
    ensures var m' := [m[i]] + m[..i] + m[i + 1..]; m'[k] == m[k] && Elems(m'[..k]) == Elems(m[..k])
  {
    var a, b, m' := m[..i], m[i + 1..k], [m[i]] + m[..i] + m[i + 1..];
    assert m'[..k] == [m[i]] + a + b;
    assert m[..k] == a + [m[i]] + b;
    assert forall x :: x in m'[..k] <==> x == m[i] || x in a || x in b;
    assert forall x :: x in m[..k] <==> x == m[i] || x in a || x in b;
  }

  lemma ShiftPast(m: seq<nat>, a: nat, k: nat)
    requires k < |m| && a !in m[..k] && m[k] != a
    ensures [a] + Without(m, a) == [a] + m[..k] + [m[k]] + Without(m[k + 1..], a)
  {
    assert m[..k + 1] == m[..k] + [m[k]];
    WithoutPast(m, a, k + 1);
  }

  lemma ShiftAhead(m: seq<nat>, a: nat, k: nat)
    requires Distinct(m) && k < |m| && m[k] != a && a in m[..k]
    ensures var m' := [a] + Without(m, a); k < |m'| && m'[k] == m[k] && Elems(m'[..k]) == Elems(m[..k])
  {
    var i :| 0 <= i < k && m[i] == a;
    WithoutAt(m, i);
    assert [a] + Without(m, a) == [a] + m[..i] + m[i + 1..];
    ShiftBefore(m, i, k);
  }

  lemma Shift(m: seq<nat>, a: nat, k: nat)
    requires Distinct(m) && k < |m| && m[k] != a
    ensures var m', k' := [a] + Without(m, a), if a in Elems(m[..k]) then k else k + 1;
      k' < |m'| && m'[k'] == m[k] && Elems(m'[..k']) == Elems(m[..k]) + {a}
  {
    if a in m[..k] {
      ShiftAhead(m, a, k);
    } else {
      ShiftPast(m, a, k);
      var m' := [a] + Without(m, a);
      assert m'[..k + 1] == [a] + m[..k];
      ConsElems(a, m[..k]);
    }
  }

  lemma PlaceStep(m: seq<nat>, a: nat, x: nat, since: set<nat>)
    requires Distinct(m) && a != x
    requires |since| < |m| && m[|since|] == x && Elems(m[..|since|]) == since
    ensures var m', since' := [a] + Without(m, a), since + {a};
      |since'| < |m'| && m'[|since'|] == x && Elems(m'[..|since'|]) == since'
  {
    Shift(m, a, |since|);
  }

  /** An address sits right behind those used since its last use. */
  lemma {:induction false} MruPlace(tr: seq<nat>, x: nat)
    requires x in tr
    ensures |Since(tr, x)| < |Mru(tr)| && Mru(tr)[|Since(tr, x)|] == x
    ensures Elems(Mru(tr)[..|Since(tr, x)|]) == Since(tr, x)
  {
    var rest, a := tr[..|tr| - 1], tr[|tr| - 1];
    if a != x {
      assert tr == rest + [a];
      MruPlace(rest, x);
      MruDistinct(rest);
      PlaceStep(Mru(rest), a, x, Since(rest, x));
    }
  }

  /** Resident means used, and fewer than n other addresses used since. */
  lemma ResidentIff(tr: seq<nat>, n: nat, x: nat)
    requires n > 0
    ensures x in Run(tr, n) <==> x in tr && |Since(tr, x)| < n
  {
    RunIsMru(tr, n);
    MruDistinct(tr);
    if x in tr {
      MruPlace(tr, x);
      var m, k := Mru(tr), |Since(tr, x)|;
      forall i: nat | i < |m| && m[i] == x ensures i == k { assert if i < k then Differ(m, i, k) else i == k || Differ(m, k, i); }
    }
  }
}
