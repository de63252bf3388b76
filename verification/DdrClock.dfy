/** Translation between system and memory cycles in the DDR controller. */
module DdrClock {

  function SysToMem(sysCycle: nat, sysFreq: nat, memFreq: nat): nat
    requires sysFreq > 0
  {
    sysCycle * memFreq / sysFreq + 1
  }

  /** Memory cycle k covers the system cycles in [(k - 1) * s / m, k * s / m). */
  lemma SysToMemIs(x: nat, s: nat, m: nat, k: nat)
    requires s > 0 && k >= 1
    ensures SysToMem(x, s, m) == k <==> (k - 1) * s <= x * m < k * s
  {
    var q := x * m / s;
    Divided(x * m, s, q);
    Doubling(q, s);
    if (k - 1) * s <= x * m < k * s { Quotient(x * m, s, k - 1); }
  }

  lemma Doubling(q: nat, s: nat)
    ensures (q + 1) * s == q * s + s
  {
  }

  function MatchingMemToSys(memCycle: nat, sysFreq: nat, memFreq: nat): nat
    requires memFreq > 0 && memCycle >= 1
  {
    (2 * memCycle - 1) * sysFreq / memFreq / 2
  }

  lemma Quotient(a: nat, d: nat, q: nat)
    requires d > 0 && q * d <= a < (q + 1) * d
    ensures a / d == q
  {
    var r := a / d;
    assert r * d <= a < (r + 1) * d;
    if r < q { Times(r + 1, q, d); }
    if q < r { Times(q + 1, r, d); }
  }

  lemma Times(a: nat, b: nat, d: nat)
    requires a <= b
    ensures a * d <= b * d
  {
  }

  lemma Divided(a: nat, m: nat, q: nat)
    requires m > 0 && q == a / m
    ensures q * m <= a < q * m + m
  {
  }

  lemma Doubled(y: nat, odd: nat, m: nat, q: nat)
    requires q == 2 * y + odd && odd <= 1
    ensures q * m == 2 * (y * m) + (if odd == 1 then m else 0)
  {
    Distribute(y, y, m);
    Distribute(y + y, odd, m);
    assert q == y + y + odd;
  }

  lemma Distribute(a: nat, b: nat, m: nat)
    ensures (a + b) * m == a * m + b * m
  {
  }

  lemma Halved(a: nat, m: nat)
    requires m > 0
    ensures var y := a / m / 2; 2 * (y * m) <= a < 2 * (y * m) + 2 * m
  {
    var q := a / m;
    Divided(a, m, q);
    Doubled(q / 2, q % 2, m, q);
  }

  /** System cycle y is the last to start by the middle of memory cycle k. */
  predicate Halfway(k: nat, s: nat, m: nat, y: nat) {
    2 * (y * m) <= 2 * (k * s) - s < 2 * (y * m) + 2 * m
  }

  lemma MatchingIs(k: nat, s: nat, m: nat, y: nat)
    requires 0 < m && k >= 1
    ensures MatchingMemToSys(k, s, m) == y <==> Halfway(k, s, m, y)
  {
    var z := MatchingMemToSys(k, s, m);
    assert (2 * k - 1) * s == 2 * (k * s) - s;
    Halved((2 * k - 1) * s, m);
    Doubling(y, m);
    Doubling(z, m);
    if y < z { Times(y + 1, z, m); }
    if z < y { Times(z + 1, y, m); }
  }

  /** The halved product lies within one memory period of the half cycle. */
  lemma Window(k: nat, s: nat, m: nat)
    requires 0 < m && 2 * m <= s && k >= 1
    ensures var y := MatchingMemToSys(k, s, m); (k - 1) * s <= y * m < (k - 1 + 1) * s
  {
    Halved((2 * k - 1) * s, m);
    assert (2 * k - 1) * s == 2 * (k * s) - s;
    assert (k - 1) * s == k * s - s;
  }

  /** A system cycle chosen for memory cycle k translates back to k. */
  lemma RoundTrip(k: nat, s: nat, m: nat)
    requires 0 < m && 2 * m <= s && k >= 1
    ensures SysToMem(MatchingMemToSys(k, s, m), s, m) == k
  {
    Window(k, s, m);
    Quotient(MatchingMemToSys(k, s, m) * m, s, k - 1);
  }

  lemma SysToMemMonotone(x: nat, y: nat, s: nat, m: nat)
    requires s > 0 && x <= y
    ensures SysToMem(x, s, m) <= SysToMem(y, s, m)
  {
    Times(x, y, m);
    var a, b := x * m, y * m;
    if b / s < a / s {
      Times(b / s + 1, a / s, s);
    }
  }

  /** The cycle an event is actually queued for, never in the past, still
      translates back to the memory cycle it was meant for. */
  lemma EnqueuedCycleMatches(k: nat, now: nat, s: nat, m: nat)
    requires 0 < m && 2 * m <= s && k >= SysToMem(now, s, m)
    ensures var t := MatchingMemToSys(k, s, m);
      SysToMem(if t < now then now else t, s, m) == k
  {
    RoundTrip(k, s, m);
    var t := MatchingMemToSys(k, s, m);
    if t < now { SysToMemMonotone(t, now, s, m); }
  }

  /** No event is queued for cycle 0, which a tick returns for none. */
  lemma EnqueuedCyclePositive(k: nat, s: nat, m: nat)
    requires 0 < m && 2 * m <= s && k >= 1
    ensures MatchingMemToSys(k, s, m) > 0
  {
    Times(1, 2 * k - 1, s);
    Halved((2 * k - 1) * s, m);
  }
}
