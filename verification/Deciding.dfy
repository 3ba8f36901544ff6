/** Where decisions come from: the heap of variables by score, and now and then a random walk. */
module Deciding {
  import opened Literals
  import opened Trails
  import opened DecisionHeap
  import StrideWalk

  /** Every variable that is not assigned is in the heap. */
  ghost predicate Covers(pos: seq<nat>, t: Trail) {
    && |pos| >= 1 && pos[0] == 0
    && forall v :: 1 <= v < |pos| && Undefined(t, v) ==> pos[v] > 0
  }

  ghost predicate SomeOpen(n: nat, t: Trail) {
    exists v :: 1 <= v <= n && Undefined(t, v)
  }

  /** Assigning keeps the heap complete. */
  lemma CoversLonger(pos: seq<nat>, t: Trail, u: Trail)
    requires Covers(pos, t) && t.lits <= u.lits
    ensures Covers(pos, u)
  {
    assert forall i :: 0 <= i < |t.lits| ==> u.lits[i] == t.lits[i] && u.lits[i] in u.lits;
    forall v | 1 <= v < |pos| && Undefined(u, v) ensures pos[v] > 0 {
      assert Undefined(t, v);
    }
  }

  lemma CoversSame(pos: seq<nat>, was: seq<nat>, t: Trail)
    requires Covers(was, t) && SameMembers(pos, was)
    ensures Covers(pos, t)
  {
  }

  /** An assigned variable may leave the heap. */
  lemma CoversPopped(pos: seq<nat>, was: seq<nat>, t: Trail, r: nat)
    requires Covers(was, t) && 1 <= r < |was| && !Undefined(t, r) && SameMembers(pos, was[r := 0])
    ensures Covers(pos, t)
  {
  }

  /** The first rank of a heap that is complete. */
  lemma TopKnown(h: Heap, t: Trail)
    requires h.Valid() && Covers(h.pos, t) && SomeOpen(|h.pos| - 1, t)
    ensures |h.heap| > 1 && 1 <= h.heap[1] < |h.pos| && h.Holds(h.heap[1])
    ensures forall s :: 1 <= s < |h.pos| && Undefined(t, s) && s != h.heap[1] ==> Above(h.score, h.heap[1], s)
  {
    var v :| 1 <= v < |h.pos| && Undefined(t, v);
    assert h.pos[v] < |h.heap|;
    assert h.pos[h.heap[1]] == 1;
    RootAbove(h.score, h.heap, h.pos);
  }

  /** The greatest variable that is open; greater ones that are assigned leave the heap. */
  method StaticDecide(h: Heap, t: Trail) returns (v: nat)
    requires h.Valid() && Covers(h.pos, t) && SomeOpen(|h.pos| - 1, t)
    modifies h`heap, h`pos
    ensures h.Valid() && Covers(h.pos, t) && |h.pos| == old(|h.pos|)
    ensures 1 <= v < |h.pos| && Undefined(t, v) && h.Holds(v)
    ensures forall s :: 1 <= s < |h.pos| && Undefined(t, s) ==>
      h.score[s] < h.score[v] || (h.score[s] == h.score[v] && v <= s)
  {
    hide Placed, Ordered, SomeOpen, Covers, Undefined;
    while true
      invariant h.Valid() && Covers(h.pos, t) && |h.pos| == old(|h.pos|)
      decreases |h.heap|
    {
      TopKnown(h, t);
      v := h.heap[1];
      if Undefined(t, v) {
        return;
      }
      ghost var was := h.pos;
      var top := h.Pop();
      CoversPopped(h.pos, was, t, v);
    }
  }

  /** Put the variables of literals that were taken back into the heap, the last one first. */
  method PutBack(h: Heap, popped: seq<int>, ghost t0: Trail, ghost t: Trail)
    requires h.Valid() && Covers(h.pos, t0) && forall i :: 0 <= i < |popped| ==> 1 <= Abs(popped[i]) < |h.pos|
    requires forall v :: 1 <= v < |h.pos| && Undefined(t, v) ==>
      Undefined(t0, v) || exists i :: 0 <= i < |popped| && Abs(popped[i]) == v
    modifies h`heap, h`pos
    ensures h.Valid() && Covers(h.pos, t) && |h.pos| == old(|h.pos|)
  {
    hide Placed, Ordered, Undefined;
    var i := |popped|;
    while i != 0
      invariant 0 <= i <= |popped| && h.Valid() && |h.pos| == old(|h.pos|) && h.pos[0] == 0
      invariant forall v :: 0 <= v < |h.pos| && old(h.pos[v]) > 0 ==> h.pos[v] > 0
      invariant forall j :: i <= j < |popped| ==> h.pos[Abs(popped[j])] > 0
    {
      i := i - 1;
      var r := Abs(popped[i]);
      if h.pos[r] == 0 {
        h.Push(r);
      }
    }
  }

  /** What is open in `t` was open in `t0` or is one of the literals that `t` does not keep. */
  lemma OpenAgain(t0: Trail, t: Trail, n: nat, v: nat)
    requires n <= |t0.lits| && n <= |t.lits| && t.lits[..n] == t0.lits[..n] && Undefined(t, v)
    ensures Undefined(t0, v) || exists i :: 0 <= i < |t0.lits[n..]| && Abs(t0.lits[n..][i]) == v
  {
    assert forall j :: 0 <= j < n ==> t.lits[..n][j] == t.lits[j] && t0.lits[..n][j] == t0.lits[j];
    assert forall j :: 0 <= j < n ==> t.lits[j] in t.lits;
    if !Undefined(t0, v) {
      var i :| 0 <= i < |t0.lits| && (t0.lits[i] == v || t0.lits[i] == -(v as int));
      assert i >= n;
      assert t0.lits[n..][i - n] == t0.lits[i];
    }
  }

  /** Put back what was undone from position `n` on. */
  method PutUndone(h: Heap, lits: seq<int>, n: nat, ghost t0: Trail, ghost t: Trail)
    requires h.Valid() && Covers(h.pos, t0) && lits == t0.lits
    requires forall i :: 0 <= i < |lits| ==> 1 <= Abs(lits[i]) < |h.pos|
    requires n <= |lits| && n <= |t.lits| && t.lits[..n] == lits[..n]
    modifies h`heap, h`pos
    ensures h.Valid() && Covers(h.pos, t) && |h.pos| == old(|h.pos|)
  {
    forall v | 1 <= v < |h.pos| && Undefined(t, v)
      ensures Undefined(t0, v) || exists i :: 0 <= i < |lits[n..]| && Abs(lits[n..][i]) == v
    {
      OpenAgain(t0, t, n, v);
    }
    PutBack(h, lits[n..], t0, t);
  }

  /** Scores go up during the search, by whatever amounts. */
  method Bump(h: Heap, ghost t: Trail)
    requires h.Valid() && Covers(h.pos, t)
    modifies h
    ensures h.Valid() && Covers(h.pos, t) && |h.pos| == old(|h.pos|)
  {
    hide Placed, Ordered, Undefined, Covers;
    var times: int := *;
    for i := 0 to Abs(times)
      invariant h.Valid() && Covers(h.pos, t) && |h.pos| == old(|h.pos|)
    {
      var r: nat, s: nat := *, *;
      if r < |h.score| && h.score[r] <= s {
        ghost var was := h.pos;
        h.Raise(r, s);
        CoversSame(h.pos, was, t);
      }
    }
  }

  /** The variable to decide on: a random one now and then, the greatest one otherwise. */
  method PickVariable(h: Heap, t: Trail) returns (v: nat)
    requires h.Valid() && Covers(h.pos, t) && SomeOpen(|h.pos| - 1, t)
    modifies h`heap, h`pos
    ensures h.Valid() && Covers(h.pos, t) && |h.pos| == old(|h.pos|)
    ensures 1 <= v < |h.pos| && Undefined(t, v)
  {
    hide Placed, Ordered, Covers, Undefined;
    var n := |h.pos| - 1;
    var random: bool, drawn: nat, proposed: nat := *, *, *;
    if random && 1 <= drawn <= n && 1 <= proposed <= n {
      var open := seq(n + 1, v requires 0 <= v <= n => Undefined(t, v));
      ghost var w :| 1 <= w <= n && Undefined(t, w);
      assert open[w];
      var r, _, _ := StrideWalk.RandomVariable(drawn, proposed, open);
      v := r;
    } else {
      v := StaticDecide(h, t);
    }
  }
}
