/** The probe sequence of the node table: odd increments, hence square offsets, modulo a prime. */
module Probing {
  import opened NumberTheory

  /** The slot of the `k`-th probe. */
  function Probe(h: nat, k: nat, cap: nat): (i: nat)
    requires cap > 0
    ensures i < cap
  {
    (h + k * k) % cap
  }

  /** Adding the next odd number leads from one square to the next. */
  lemma ProbeStep(h: nat, k: nat, cap: nat)
    requires cap > 0
    ensures (Probe(h, k, cap) + (2 * k + 1)) % cap == Probe(h, k + 1, cap)
  {
    ModAdd(cap, h + k * k, 2 * k + 1);
    assert (k + 1) * (k + 1) == k * k + (2 * k + 1);
  }

  /** The first half of the probes hits pairwise different slots. */
  lemma ProbesDiffer(h: nat, j: nat, k: nat, cap: nat)
    requires Prime(cap) && j < k && j + k < cap
    ensures Probe(h, j, cap) != Probe(h, k, cap)
  {
    if Probe(h, j, cap) == Probe(h, k, cap) {
      ModEqual(cap, h + j * j, h + k * k);
      assert h + k * k - (h + j * j) == (k - j) * (k + j);
      PrimeDividesFactor(cap, k - j, k + j);
      DividesSmall(cap, k + j);
    }
  }

  /** A set of slots that covers the first `n` probes has at least `n` members. */
  lemma {:induction false} ProbesCount(h: nat, n: nat, cap: nat, slots: set<nat>)
    requires Prime(cap) && 2 * n <= cap + 2
    requires forall k :: 0 <= k < n ==> Probe(h, k, cap) in slots
    ensures |slots| >= n
    decreases n
  {
    if n > 0 {
      var last := Probe(h, n - 1, cap);
      forall k | 0 <= k < n - 1 ensures Probe(h, k, cap) in slots - {last} {
        ProbesDiffer(h, k, n - 1, cap);
      }
      ProbesCount(h, n - 1, cap, slots - {last});
    }
  }

  /** With fewer than half of the slots taken, one of the first probes finds a free one. */
  lemma FreeSlot(h: nat, cap: nat, taken: set<nat>) returns (k: nat)
    requires Prime(cap) && |taken| <= cap / 2
    ensures k <= cap / 2 && Probe(h, k, cap) !in taken
  {
    if forall j :: 0 <= j < cap / 2 + 1 ==> Probe(h, j, cap) in taken {
      ProbesCount(h, cap / 2 + 1, cap, taken);
    }
    k :| 0 <= k < cap / 2 + 1 && Probe(h, k, cap) !in taken;
  }
}
