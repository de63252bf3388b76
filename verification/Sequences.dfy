/** Sequences without repetitions. The pairs are spelled out only where a proof
    names them, which keeps the quantifier from being instantiated for all. */
module Sequences {

  ghost predicate Differ<T>(s: seq<T>, i: nat, j: nat)
    requires i < j < |s|
  {
    s[i] != s[j]
  }

  ghost predicate Distinct<T>(s: seq<T>) {
    forall i: nat, j: nat {:trigger Differ(s, i, j)} | i < j < |s| :: Differ(s, i, j)
  }

  lemma DistinctAt<T>(s: seq<T>, i: nat, j: nat)
    requires Distinct(s) && i < |s| && j < |s| && i != j
    ensures s[i] != s[j]
  {
    assert if i < j then Differ(s, i, j) else Differ(s, j, i);
  }

  lemma DistinctFrom<T>(s: seq<T>, i: nat)
    requires Distinct(s) && i < |s|
    ensures forall j | 0 <= j < |s| && j != i :: s[j] != s[i]
  {
    forall j: nat | j < |s| && j != i ensures s[j] != s[i] { DistinctAt(s, i, j); }
  }

  lemma DistinctInsert<T>(s: seq<T>, k: nat, e: T)
    requires Distinct(s) && k <= |s| && e !in s
    ensures Distinct(s[..k] + [e] + s[k..])
  {
    var s' := s[..k] + [e] + s[k..];
    assert forall j | 0 <= j < |s'| && j != k :: s'[j] == s[if j < k then j else j - 1] && s'[j] in s;
    forall i: nat, j: nat | i < j < |s'| ensures Differ(s', i, j) {
      if i != k && j != k { assert Differ(s, if i < k then i else i - 1, if j < k then j else j - 1); }
    }
  }

  lemma DistinctCons<T>(a: T, s: seq<T>)
    requires Distinct(s) && a !in s
    ensures Distinct([a] + s)
  {
    DistinctInsert(s, 0, a);
    assert s[..0] + [a] + s[0..] == [a] + s;
  }

  lemma DistinctSnoc<T>(s: seq<T>, a: T)
    requires Distinct(s) && a !in s
    ensures Distinct(s + [a])
  {
    DistinctInsert(s, |s|, a);
    assert s[..|s|] + [a] + s[|s|..] == s + [a];
  }

  lemma DistinctRemove<T>(s: seq<T>, k: nat)
    requires Distinct(s) && k < |s|
    ensures var s' := s[..k] + s[k + 1..];
      && Distinct(s') && s[k] !in s'
      && (forall x | x in s' :: x in s) && (forall x | x in s && x != s[k] :: x in s')
  {
    var s' := s[..k] + s[k + 1..];
    assert forall j | 0 <= j < |s'| :: s'[j] == s[if j < k then j else j + 1];
    forall i: nat, j: nat | i < j < |s'| ensures Differ(s', i, j) {
      assert Differ(s, if i < k then i else i + 1, if j < k then j else j + 1);
    }
    DistinctFrom(s, k);
    assert s == s[..k] + [s[k]] + s[k + 1..];
  }

  lemma DistinctTail<T>(s: seq<T>)
    requires Distinct(s) && s != []
    ensures Distinct(s[1..]) && s[0] !in s[1..]
  {
    DistinctRemove(s, 0);
    assert s[..0] + s[1..] == s[1..];
  }

  lemma DistinctPrefix<T>(s: seq<T>)
    requires Distinct(s) && s != []
    ensures Distinct(s[..|s| - 1]) && s[|s| - 1] !in s[..|s| - 1]
  {
    var n := |s| - 1;
    DistinctRemove(s, n);
    assert s[..n] + s[n + 1..] == s[..n];
  }
}
