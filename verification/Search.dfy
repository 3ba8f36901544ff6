/** The search: propagate, learn from conflicts, decide, up to a limit on decisions. */
module Search {
  import opened Literals
  import opened Trails
  import opened Watches
  import opened PropagationSteps
  import opened ConflictAnalysis
  import opened Propagation
  import opened Attaching
  import opened DecisionHeap
  import opened Deciding
  import NumberTheory

  /** Everything is propagated and there is no conflict. */
  ghost predicate Quiet(p: Propagator)
    reads p
  {
    p.Valid() && p.conflict.None? && p.ttail == p.ttail2 == |p.t.lits|
  }

  /** The one undefined literal of a clause whose others are false. */
  method OpenLiteral(t: Trail, c: Clause) returns (forced: Option<int>)
    requires forall l :: l in c ==> False(t, l) || Undefined(t, l)
    requires forall i, j :: 0 <= i < j < |c| && Undefined(t, c[i]) ==> !Undefined(t, c[j])
    ensures forced.None? ==> Falsified(t, c)
    ensures forced.Some? ==>
      forced.value in c && Undefined(t, forced.value) && forall l :: l in c && l != forced.value ==> False(t, l)
  {
    forced := None;
    for i := 0 to |c|
      invariant forced.None? ==> forall k :: 0 <= k < i ==> False(t, c[k])
      invariant forced.Some? ==> Undefined(t, forced.value) && exists k :: 0 <= k < i && forced.value == c[k]
      invariant forced.Some? ==> forall k :: 0 <= k < i ==> c[k] == forced.value || False(t, c[k])
    {
      assert c[i] in c;
      if !True(t, c[i]) && !False(t, c[i]) {
        forced := Some(c[i]);
      }
    }
  }

  /** Add a clause whose first literal is open and whose others are false, the second one on the current
      level, and force the open literal. */
  method AttachForced(p: Propagator, c: Clause)
    requires p.Valid() && p.conflict.None? && GoodLong(c) && ClauseBounded(c, p.maxVar) && Undefined(p.t, c[0])
    requires forall k :: 1 <= k < |c| ==> False(p.t, c[k])
    requires if |c| >= 2 then LevelOf(p.t, c[1]) == p.top else p.top == 0
    modifies p
    ensures p.Valid() && p.conflict.None? && p.top == old(p.top) && p.decisions == old(p.decisions)
    ensures p.t == Assigning(old(p.t), c[0], p.top, Some(c))
    ensures OneMore(old(p.db + p.pairs), c, p.db + p.pairs)
  {
    hide Watching, Permuted, BinOk, Processed, BinProcessed, OneMore, UnitsFixed;
    var forced := OpenLiteral(p.t, c);
    FirstIsOpen(p.t, c, forced);
    ForcedSettled(p.t, p.db + p.pairs, p.top, c);
    if |c| == 2 {
      AttachPair(p, c, forced.value);
    } else {
      AttachLong(p, c, forced.value);
    }
  }

  lemma FirstIsOpen(t: Trail, c: Clause, forced: Option<int>)
    requires c != [] && Undefined(t, c[0]) && forall k :: 1 <= k < |c| ==> False(t, c[k])
    requires forced.None? ==> Falsified(t, c)
    requires forced.Some? ==> forced.value in c && Undefined(t, forced.value)
    ensures forced == Some(c[0])
  {
    assert c[0] in c;
  }

  method AttachLong(p: Propagator, c: Clause, forced: int)
    requires p.Valid() && p.conflict.None? && GoodLong(c) && ClauseBounded(c, p.maxVar) && |c| != 2
    requires forced == c[0] && Undefined(p.t, forced) && forall k :: 1 <= k < |c| ==> False(p.t, c[k])
    requires |c| == 1 ==> p.top == 0
    requires var u := Assigning(p.t, c[0], p.top, Some(c));
      forall w :: Watched(c, w) && FalseBefore(u, w, |p.t.lits|) ==> Settled(u, c, w)
    modifies p`lits, p`watch, p`db, p`t
    ensures p.Valid() && p.t == Assigning(old(p.t), c[0], p.top, Some(c))
    ensures OneMore(old(p.db + p.pairs), c, p.db + p.pairs)
  {
    hide TrailOk, Watching, BinOk, Processed, BinProcessed, Undefined, Stored, Bounded, OneMore, UnitsFixed;
    ghost var cs, more, u := p.db + p.pairs, p.db + [c] + p.pairs, Assigning(p.t, c[0], p.top, Some(c));
    AddedPairs(p.db, p.pairs, c);
    ForcedTrail(p.t, cs, p.top, c, more, p.maxVar);
    GrownQueue(p.t, cs, p.top, c[0], Some(c), p.ttail);
    GrownQueue(p.t, cs, p.top, c[0], Some(c), p.ttail2);
    GrownWatching(p.t, cs, p.top, c[0], Some(c), p.lits, p.watch, p.off);
    GrownProcessed(p.t, cs, p.top, c[0], Some(c), p.lits, p.ttail, false, 0, []);
    BinGrown(p.impls, p.t, cs, p.top, c[0], Some(c), p.ttail2, false, 0, 0);
    ConnectKeeps(p.lits, p.watch, p.off, u, c);
    ConnectProcessed(p.lits, u, p.ttail, p.top, c);
    PermutedMore(p.lits, p.db, c);
    NoConflict(u, p.top, more);
    assert c != [];
    ForcedUnits(p.t, cs, p.top, c, more);
    p.watch := Connected(p.watch, c, |p.lits|);
    p.lits, p.db := p.lits + [c], p.db + [c];
    p.t := Assigning(p.t, forced, p.top, Some(c));
  }

  method AttachPair(p: Propagator, c: Clause, forced: int)
    requires p.Valid() && p.conflict.None? && GoodLong(c) && ClauseBounded(c, p.maxVar)
    requires |c| == 2 && forced == c[0] && Undefined(p.t, forced) && False(p.t, c[1])
    requires TrueBelow(Assigning(p.t, c[0], p.top, Some(c)), c[0], c[1])
    modifies p`impls, p`pairs, p`t
    ensures p.Valid() && p.t == Assigning(old(p.t), c[0], p.top, Some(c))
    ensures OneMore(old(p.db + p.pairs), c, p.db + p.pairs)
  {
    hide TrailOk, Watching, Permuted, BinOk, Processed, BinProcessed, Undefined, Stored, Bounded, OneMore, TrueBelow,
         UnitsFixed;
    ghost var cs, more, u := p.db + p.pairs, p.db + (p.pairs + [c]), Assigning(p.t, c[0], p.top, Some(c));
    AddedPairs(p.db, p.pairs, c);
    ForcedTrail(p.t, cs, p.top, c, more, p.maxVar);
    GrownQueue(p.t, cs, p.top, c[0], Some(c), p.ttail);
    GrownQueue(p.t, cs, p.top, c[0], Some(c), p.ttail2);
    GrownWatching(p.t, cs, p.top, c[0], Some(c), p.lits, p.watch, p.off);
    GrownProcessed(p.t, cs, p.top, c[0], Some(c), p.lits, p.ttail, false, 0, []);
    BinGrown(p.impls, p.t, cs, p.top, c[0], Some(c), p.ttail2, false, 0, 0);
    assert c[0] in c && c[1] in c && c == [c[0], c[1]];
    PairedOk(p.impls, p.pairs, c[0], c[1]);
    PairedIs(p.impls, c[0], c[1]);
    TrueNotFalse(u, more, p.top, c[0], p.ttail2);
    PairedProcessed(p.impls, u, p.ttail2, p.top, c[0], c[1]);
    NoConflict(u, p.top, more);
    assert c != [];
    ForcedUnits(p.t, cs, p.top, c, more);
    p.impls, p.pairs := Paired(p.impls, c[0], c[1]), p.pairs + [c];
    p.t := Assigning(p.t, forced, p.top, Some(c));
  }

  /** Forcing the first literal of a new clause. */
  lemma ForcedTrail(t: Trail, cs: seq<Clause>, top: nat, c: Clause, more: seq<Clause>, maxVar: nat)
    requires TrailOk(t, cs, top) && OneMore(cs, c, more) && GoodLong(c) && Undefined(t, c[0])
    requires forall k :: 1 <= k < |c| ==> False(t, c[k])
    requires Bounded(t, cs, maxVar) && ClauseBounded(c, maxVar)
    ensures var u := Assigning(t, c[0], top, Some(c)); TrailOk(u, more, top) && Bounded(u, more, maxVar)
    ensures c[0] in c && c[0] != 0
  {
    StoredOneMore(cs, c, more);
    TrailOkWider(t, cs, top, c, more);
    AssigningOk(t, more, top, c[0], c);
    BoundedWider(t, cs, maxVar, c, more);
    GrownBound(t, more, top, c[0], c, maxVar);
  }

  /** A clause of one literal is forced on level zero only. */
  lemma ForcedUnits(t: Trail, cs: seq<Clause>, top: nat, c: Clause, more: seq<Clause>)
    requires UnitsFixed(t, cs) && OneMore(cs, c, more) && c != [] && Undefined(t, c[0]) && (|c| == 1 ==> top == 0)
    ensures UnitsFixed(Assigning(t, c[0], top, Some(c)), more)
  {
    GrownUnits(t, cs, top, c[0], Some(c));
  }

  lemma UnitsWider(t: Trail, cs: seq<Clause>, c: Clause, more: seq<Clause>)
    requires UnitsFixed(t, cs) && OneMore(cs, c, more) && |c| >= 2
    ensures UnitsFixed(t, more)
  {
  }

  lemma PermutedMore(lits: seq<Clause>, db: seq<Clause>, c: Clause)
    requires Permuted(lits, db) && GoodLong(c)
    ensures Permuted(lits + [c], db + [c])
  {
  }

  lemma TrueNotFalse(t: Trail, cs: seq<Clause>, top: nat, l: int, q: nat)
    requires TrailOk(t, cs, top) && |t.lits| > 0 && t.lits[|t.lits| - 1] == l
    ensures !FalseBefore(t, l, q)
  {
    assert True(t, l);
    NotBoth(t, cs, top, l);
  }

  // ----- clauses of open literals -----

  /** Add a clause of which no literal is assigned; a unit clause is forced at once. */
  method AddOpen(p: Propagator, c: Clause)
    requires p.Valid() && p.conflict.None? && GoodLong(c) && ClauseBounded(c, p.maxVar)
    requires (forall l :: l in c ==> Undefined(p.t, l)) && (|c| == 1 ==> p.top == 0)
    modifies p
    ensures p.Valid() && p.conflict.None? && p.top == old(p.top) && p.decisions == old(p.decisions)
    ensures p.t == if |c| == 1 then Assigning(old(p.t), c[0], 0, Some(c)) else old(p.t)
    ensures OneMore(old(p.db + p.pairs), c, p.db + p.pairs)
  {
    assert c[0] in c;
    if |c| == 1 {
      AttachForced(p, c);
    } else if |c| == 2 {
      OpenPair(p, c);
    } else {
      OpenLong(p, c);
    }
  }

  method OpenLong(p: Propagator, c: Clause)
    requires p.Valid() && p.conflict.None? && GoodLong(c) && ClauseBounded(c, p.maxVar)
    requires |c| > 2 && forall l :: l in c ==> Undefined(p.t, l)
    modifies p`lits, p`watch, p`db
    ensures p.Valid() && OneMore(old(p.db + p.pairs), c, p.db + p.pairs)
  {
    hide TrailOk, Watching, BinOk, Processed, BinProcessed, Stored, Bounded, OneMore;
    ghost var cs, more := p.db + p.pairs, p.db + [c] + p.pairs;
    AddedPairs(p.db, p.pairs, c);
    TrailOkWider(p.t, cs, p.top, c, more);
    BoundedWider(p.t, cs, p.maxVar, c, more);
    UnitsWider(p.t, cs, c, more);
    ConnectKeeps(p.lits, p.watch, p.off, p.t, c);
    assert c[0] in c && c[1] in c;
    ConnectProcessed(p.lits, p.t, p.ttail, p.top, c);
    PermutedMore(p.lits, p.db, c);
    p.watch := Connected(p.watch, c, |p.lits|);
    p.lits, p.db := p.lits + [c], p.db + [c];
  }

  method OpenPair(p: Propagator, c: Clause)
    requires p.Valid() && p.conflict.None? && GoodLong(c) && ClauseBounded(c, p.maxVar)
    requires |c| == 2 && forall l :: l in c ==> Undefined(p.t, l)
    modifies p`impls, p`pairs
    ensures p.Valid() && OneMore(old(p.db + p.pairs), c, p.db + p.pairs)
  {
    hide TrailOk, Watching, Permuted, BinOk, Processed, BinProcessed, Stored, Bounded, OneMore;
    ghost var cs, more := p.db + p.pairs, p.db + (p.pairs + [c]);
    AddedPairs(p.db, p.pairs, c);
    TrailOkWider(p.t, cs, p.top, c, more);
    BoundedWider(p.t, cs, p.maxVar, c, more);
    UnitsWider(p.t, cs, c, more);
    assert c[0] in c && c[1] in c && c == [c[0], c[1]];
    PairedOk(p.impls, p.pairs, c[0], c[1]);
    PairedIs(p.impls, c[0], c[1]);
    PairedProcessed(p.impls, p.t, p.ttail2, p.top, c[0], c[1]);
    p.impls, p.pairs := Paired(p.impls, c[0], c[1]), p.pairs + [c];
  }

  // ----- conflicts -----

  ghost predicate SameModels(cs: seq<Clause>, ds: seq<Clause>) {
    forall a: Assignment :: ClausesTrue(a, cs) <==> ClausesTrue(a, ds)
  }

  /** Learn from a conflict and go on below its level, unless there is no model. */
  method Backtrack(p: Propagator) returns (unsat: bool, ghost uip: Option<nat>, ghost s: Seen)
    requires p.Valid() && p.conflict.Some?
    modifies p
    ensures p.decisions == old(p.decisions)
    ensures FirstFound(old(p.t), old(p.top), old(p.conflict).value, uip, s)
    ensures var t := old(p.t);
      var learned := SortLits(t, Head(t, uip) + Remaining(t, s.low, Removable(t, s.low)));
      && Learned(t, old(p.top), old(p.db + p.pairs), learned)
      && (!unsat ==> Asserted(t, p.t, p.top, learned) && OneMore(old(p.db + p.pairs), learned, p.db + p.pairs))
    ensures unsat <==> old(p.top) == 0
    ensures unsat ==> forall a: Assignment :: !ClausesTrue(a, old(p.db + p.pairs))
    ensures !unsat ==> p.Valid() && p.conflict.None? && p.top < old(p.top)
    ensures !unsat ==> SameModels(old(p.db + p.pairs), p.db + p.pairs)
  {
    hide TrailOk, Watching, Permuted, BinOk, Processed, BinProcessed, Bounded, Learned, Highest, Falsified, OnTop,
         BackTo, Asserting, FirstFound, Remaining, Removable, SortLits;
    ghost var t0, top0, cs := p.t, p.top, p.db + p.pairs;
    var k := new Kernel(p.t, p.top);
    uip, s := k.Analyze(p.conflict.value, cs);
    LearnedFacts(t0, top0, cs, k.added);
    if k.added == [] {
      SortedNone(t0);
      return true, uip, s;
    }
    var r := k.Drive();
    var sorted := SortLits(p.t, k.added);
    LearnedReady(t0, top0, cs, k.added, sorted, r, p.maxVar);
    p.Undo(r);
    ghost var t1 := p.t;
    UndoneReady(t0, p.t, cs, top0, sorted, r);
    AttachForced(p, sorted);
    LearnedModels(t0, top0, cs, sorted, p.db + p.pairs);
    IsAsserted(t0, t1, p.t, cs, sorted, r);
    unsat := false;
  }

  lemma SortedNone(t: Trail)
    ensures SortLits(t, []) == []
  {
  }

  lemma IsAsserted(t0: Trail, t1: Trail, t: Trail, cs: seq<Clause>, c: Clause, r: nat)
    requires BackTo(t0, t1, cs, r) && c != [] && t == Assigning(t1, c[0], r, Some(c))
    ensures Asserted(t0, t, r, c)
  {
    assert t1 == t0.(lits := t0.lits[..|t1.lits|]);
    forall i | 0 <= i < |t1.lits| ensures LevelAt(t0, i) <= r {
      assert LevelAt(t1, i) <= r;
    }
  }

  lemma LearnedFacts(t: Trail, top: nat, cs: seq<Clause>, c: Clause)
    requires TrailOk(t, cs, top) && Learned(t, top, cs, c)
    ensures Consistent(t) && forall l :: l in c ==> Abs(l) in t.level
    ensures c == [] <==> top == 0
    ensures c == [] ==> forall a: Assignment :: !ClausesTrue(a, cs)
  {
    LearningKeepsModels(t, top, cs, c);
  }

  /** What backtracking needs of a learned clause, at the conflict. */
  ghost predicate Ready(t: Trail, top: nat, cs: seq<Clause>, c: Clause, r: nat) {
    && Learned(t, top, cs, c) && top > 0 && r < top && Consistent(t)
    && (r == 0 || exists i :: 0 <= i < |t.lits| && LevelAt(t, i) == r)
    && (forall k :: 1 <= k < |c| ==> Abs(c[k]) in t.level && t.level[Abs(c[k])] <= r)
    && (if |c| >= 2 then LevelOf(t, c[1]) == r else r == 0)
  }

  lemma LearnedReady(t: Trail, top: nat, cs: seq<Clause>, c: Clause, d: Clause, r: nat, maxVar: nat)
    requires TrailOk(t, cs, top) && Learned(t, top, cs, c) && c != [] && d == SortLits(t, c) && Bounded(t, cs, maxVar)
    requires forall l :: l in c ==> Abs(l) in t.level && (t.level[Abs(l)] <= r || Highest(t, c, l))
    requires r == 0 || exists l :: l in c && Abs(l) in t.level && t.level[Abs(l)] == r && !Highest(t, c, l)
    ensures Ready(t, top, cs, d, r) && GoodLong(d) && ClauseBounded(d, maxVar) && d != []
    ensures Learned(t, top, cs, d) && forall l :: l in d <==> l in c
  {
    hide TrailOk, Implied, SortLits, Bounded, Falsified;
    SortedLearned(t, top, cs, c);
    DriveTarget(t, cs, top, c, r);
    SameLiterals(c, d);
    SortedLevels(t, top, c, d, r);
    FalseBounded(t, cs, top, d, maxVar);
    LearnedFacts(t, top, cs, d);
  }

  lemma FalseBounded(t: Trail, cs: seq<Clause>, top: nat, c: Clause, maxVar: nat)
    requires Falsified(t, c) && Bounded(t, cs, maxVar)
    ensures ClauseBounded(c, maxVar)
  {
    forall l | l in c ensures Abs(l) <= maxVar {
      var i :| 0 <= i < |t.lits| && t.lits[i] == -l;
    }
  }

  lemma SortedLevels(t: Trail, top: nat, c: Clause, d: Clause, r: nat)
    requires Asserting(t, top, c) && Asserting(t, top, d) && |c| == |d| && Descending(t, d)
    requires forall l :: l in c <==> l in d
    requires NotOnZero(t, d)
    requires forall l :: l in c ==> Abs(l) in t.level && (t.level[Abs(l)] <= r || Highest(t, c, l))
    requires r == 0 || exists l :: l in c && Abs(l) in t.level && t.level[Abs(l)] == r && !Highest(t, c, l)
    ensures forall k :: 1 <= k < |d| ==> Abs(d[k]) in t.level && t.level[Abs(d[k])] <= r
    ensures if |d| >= 2 then LevelOf(t, d[1]) == r else r == 0
  {
    TopIsHighest(t, top, c);
    forall k | 1 <= k < |d| ensures Abs(d[k]) in t.level && t.level[Abs(d[k])] <= r {
      assert d[k] in c && c[0] in c;
    }
    if |d| >= 2 {
      assert d[1] in d;
      if r > 0 {
        var l :| l in c && Abs(l) in t.level && t.level[Abs(l)] == r && !Highest(t, c, l);
        assert l in d;
        var i :| 0 <= i < |d| && d[i] == l;
        BelowTop(t, top, c, d, l, i);
        SecondHighest(t, d, i);
      }
    }
  }

  lemma BelowTop(t: Trail, top: nat, c: Clause, d: Clause, l: int, i: nat)
    requires Asserting(t, top, c) && Asserting(t, top, d) && forall k :: k in c <==> k in d
    requires i < |d| && d[i] == l && !Highest(t, c, l)
    ensures i >= 1
  {
    assert c[0] in d && d[0] in c;
    TopIsHighest(t, top, d);
    assert Highest(t, d, d[0]) ==> Highest(t, c, d[0]);
  }

  lemma SecondHighest(t: Trail, d: Clause, i: nat)
    requires Descending(t, d) && 1 <= i < |d|
    ensures LevelOf(t, d[1]) >= LevelOf(t, d[i])
  {
  }

  lemma UndoneReady(t0: Trail, t: Trail, cs: seq<Clause>, top: nat, c: Clause, r: nat)
    requires TrailOk(t0, cs, top) && Ready(t0, top, cs, c, r) && BackTo(t0, t, cs, r)
    ensures c != [] && Undefined(t, c[0]) && forall k :: 1 <= k < |c| ==> False(t, c[k])
    ensures if |c| >= 2 then LevelOf(t, c[1]) == r else r == 0
  {
    OneUndefined(t0, t, cs, top, c, r);
  }

  lemma LearnedModels(t: Trail, top: nat, cs: seq<Clause>, c: Clause, more: seq<Clause>)
    requires Learned(t, top, cs, c) && OneMore(cs, c, more)
    ensures SameModels(cs, more)
  {
    forall a: Assignment ensures ClausesTrue(a, cs) <==> ClausesTrue(a, more) {
    }
  }

  // ----- decisions -----

  /** The heap is in order and has every variable in use that is not assigned. */
  ghost predicate Heaped(p: Propagator, h: Heap)
    reads p, h
  {
    h.Valid() && |h.pos| == p.maxVar + 1 && Covers(h.pos, p.t)
  }

  /** Open a new level with an unassigned variable, a random one or the greatest in the heap, and the sign
      that the phase heuristics choose. */
  method Decide(p: Propagator, h: Heap)
    requires Quiet(p) && Heaped(p, h) && |p.t.lits| < p.maxVar
    modifies p`t, p`top, p`decisions, h`heap, h`pos
    ensures p.Valid() && p.conflict.None? && p.top == old(p.top) + 1 && Heaped(p, h)
    ensures p.decisions == old(p.decisions) + 1
    ensures exists l :: 1 <= Abs(l) <= p.maxVar && Undefined(old(p.t), l) && p.t == Assigning(old(p.t), l, p.top, None)
  {
    hide TrailOk, Watching, Permuted, BinOk, Processed, BinProcessed, Bounded, Placed, Ordered, Covers;
    ghost var cs := p.db + p.pairs;
    SomeUnassigned(p.t, cs, p.top, p.maxVar);
    var v := PickVariable(h, p.t);
    var negative: bool := *;
    var l: int := if negative then -(v as int) else v;
    DecisionOk(p.t, cs, p.top, l, p.maxVar);
    GrownWatching(p.t, cs, p.top + 1, l, None, p.lits, p.watch, p.off);
    LevelAside(p.lits, p.impls, p.t, |p.t.lits|, p.top);
    GrownProcessed(p.t, cs, p.top + 1, l, None, p.lits, |p.t.lits|, false, 0, []);
    GrownUnits(p.t, cs, p.top + 1, l, None);
    BinGrown(p.impls, p.t, cs, p.top + 1, l, None, |p.t.lits|, false, 0, 0);
    p.top := p.top + 1;
    CoversLonger(h.pos, p.t, Assigning(p.t, l, p.top, None));
    p.t := Assigning(p.t, l, p.top, None);
    p.decisions := p.decisions + 1;
    NoConflict(p.t, p.top, cs);
  }

  /** Without conflict the level does not matter to what is propagated. */
  lemma LevelAside(lits: seq<Clause>, impls: Implications, t: Trail, q: nat, top: nat)
    requires Processed(lits, t, q, top, false, 0, []) && BinProcessed(impls, t, q, top, false, 0, 0)
    ensures Processed(lits, t, q, top + 1, false, 0, []) && BinProcessed(impls, t, q, top + 1, false, 0, 0)
  {
  }

  lemma DecisionOk(t: Trail, cs: seq<Clause>, top: nat, l: int, maxVar: nat)
    requires TrailOk(t, cs, top) && Bounded(t, cs, maxVar) && l != 0 && Undefined(t, l) && Abs(l) <= maxVar
    ensures TrailOk(t, cs, top + 1) && Undefined(t, l)
    ensures var u := Assigning(t, l, top + 1, None);
      TrailOk(u, cs, top + 1) && Bounded(u, cs, maxVar) && Queued(u, top + 1, |t.lits|)
  {
    var u := Assigning(t, l, top + 1, None);
    LevelsHigher(t, cs, top);
    AssigningConsistent(t, top + 1, l, None);
    NotAmong(t, l);
    assert forall i :: 0 <= i < |t.lits| ==> LevelAt(u, i) == LevelAt(t, i);
    forall i | 0 <= i < |u.lits| ensures ReasonOk(u, cs, i) {
      DecisionReason(t, cs, top, l, i);
    }
  }

  lemma LevelsHigher(t: Trail, cs: seq<Clause>, top: nat)
    requires TrailOk(t, cs, top)
    ensures TrailOk(t, cs, top + 1)
  {
    assert forall i :: 0 <= i < |t.lits| ==> LevelAt(t, i) <= top;
  }

  lemma DecisionReason(t: Trail, cs: seq<Clause>, top: nat, l: int, i: nat)
    requires TrailOk(t, cs, top) && l != 0 && Undefined(t, l) && i <= |t.lits|
    requires var u := Assigning(t, l, top + 1, None); Consistent(u) && forall i :: 0 <= i < |t.lits| ==>
      LevelAt(u, i) == LevelAt(t, i)
    ensures ReasonOk(Assigning(t, l, top + 1, None), cs, i)
  {
    var u := Assigning(t, l, top + 1, None);
    if i < |t.lits| {
      assert ReasonOk(t, cs, i);
      assert u.lits[..i] == t.lits[..i] && u.lits[i] == t.lits[i];
    } else {
      assert forall j :: 0 <= j < |t.lits| ==> LevelAt(t, j) <= top;
    }
  }

  /** Fewer assignments than variables leave some variable open. */
  lemma SomeUnassigned(t: Trail, cs: seq<Clause>, top: nat, maxVar: nat)
    requires TrailOk(t, cs, top) && |t.lits| < maxVar
    ensures exists v: nat :: 1 <= v <= maxVar && Undefined(t, v)
  {
    if forall v: nat :: 1 <= v <= maxVar ==> !Undefined(t, v) {
      var s: seq<nat> := seq(maxVar, v requires 0 <= v < maxVar => Pos(t, v + 1));
      forall v | 0 <= v < maxVar ensures s[v] < |t.lits| && Abs(t.lits[s[v]]) == v + 1 {
        DefinedAssigned(t, v + 1);
      }
      NumberTheory.Pigeonhole(s, |t.lits|);
    }
  }

  lemma StockedOpen(t: Trail, top: nat, db: seq<Clause>, pairs: seq<Clause>, lits: seq<Clause>, watch: Lists,
                    off: Lists, impls: Implications, maxVar: nat)
    requires Stocked(t, top, db, pairs, lits, watch, off, impls) && |t.lits| < maxVar
    ensures exists v: nat :: 1 <= v <= maxVar && Undefined(t, v)
  {
    SomeUnassigned(t, db + pairs, top, maxVar);
  }

  lemma DefinedAssigned(t: Trail, v: nat)
    requires Consistent(t) && !Undefined(t, v)
    ensures Assigned(t, v)
  {
    var i :| 0 <= i < |t.lits| && (t.lits[i] == v || t.lits[i] == -(v as int));
    PosOf(t, i);
  }

  /** As many assignments as variables leave no variable open. */
  lemma AllAssigned(t: Trail, cs: seq<Clause>, top: nat, maxVar: nat, l: int)
    requires TrailOk(t, cs, top) && Bounded(t, cs, maxVar) && |t.lits| == maxVar && 1 <= Abs(l) <= maxVar
    ensures !Undefined(t, l)
  {
    if Undefined(t, l) {
      NotAmong(t, l);
      var s: seq<nat> := seq(maxVar, i requires 0 <= i < maxVar => Abs(t.lits[i]) - 1) + [Abs(l) - 1];
      NumberTheory.Pigeonhole(s, maxVar);
    }
  }

  // ----- the search -----

  datatype Result = Satisfiable | Unsatisfiable | Unknown

  /** The assignment that the trail stands for. */
  ghost function ModelOf(t: Trail): Assignment {
    iset v | v in t.lits
  }

  lemma TrueInModel(t: Trail, l: int)
    requires Consistent(t) && True(t, l)
    ensures LitTrue(ModelOf(t), l)
  {
    if False(t, l) {
      FalseAssigned(t, l);
    }
  }

  /** A full trail without conflict is a model. */
  lemma FullTrailModels(t: Trail, top: nat, db: seq<Clause>, pairs: seq<Clause>, lits: seq<Clause>, watch: Lists,
                        off: Lists, impls: Implications, maxVar: nat)
    requires Stocked(t, top, db, pairs, lits, watch, off, impls) && Bounded(t, db + pairs, maxVar) && |t.lits| == maxVar
    requires Processed(lits, t, |t.lits|, top, false, 0, []) && BinProcessed(impls, t, |t.lits|, top, false, 0, 0)
    requires UnitsFixed(t, db + pairs)
    ensures ClausesTrue(ModelOf(t), db + pairs)
  {
    hide Watching, BinProcessed, Processed, TrailOk, Bounded, UnitClause;
    forall c | c in db + pairs ensures ClauseTrue(ModelOf(t), c) {
      Complete(t, top, db, pairs, lits, watch, off, impls, c);
      var l :| l in c && !False(t, l);
      ClauseVariables(t, db, pairs, lits, impls, maxVar, c, l);
      AllAssigned(t, db + pairs, top, maxVar, l);
      TrailConsistent(t, db + pairs, top);
      TrueInModel(t, l);
    }
  }

  lemma TrailConsistent(t: Trail, cs: seq<Clause>, top: nat)
    requires TrailOk(t, cs, top)
    ensures Consistent(t)
  {
  }

  lemma ClauseVariables(t: Trail, db: seq<Clause>, pairs: seq<Clause>, lits: seq<Clause>, impls: Implications,
                        maxVar: nat, c: Clause, l: int)
    requires Permuted(lits, db) && BinOk(impls, pairs) && Bounded(t, db + pairs, maxVar) && c in db + pairs && l in c
    ensures 1 <= Abs(l) <= maxVar
  {
    StoredIn(db + pairs, c);
    assert ClauseBounded(c, maxVar);
    if c in db {
      var k :| 0 <= k < |db| && db[k] == c;
      SameLiterals(lits[k], c);
    }
  }

  /** The limit on decisions that a negative one stands for. */
  const INT_MAX := 0x7fff_ffff

  /** Start over from level zero when enough conflicts were met, whenever the schedule and the agility
      of the search say so. */
  method Restart(p: Propagator, h: Heap)
    requires Quiet(p) && Heaped(p, h)
    modifies p, h
    ensures Quiet(p) && Heaped(p, h) && p.top <= old(p.top) && p.t.lits <= old(p.t.lits)
    ensures p.db + p.pairs == old(p.db + p.pairs) && p.decisions == old(p.decisions)
  {
    hide TrailOk, Watching, Permuted, BinOk, Processed, BinProcessed, Placed, Ordered, Covers;
    var due: bool := *;
    if due && p.top > 2 {
      var lits := p.t.lits;
      ghost var t0 := p.t;
      InUse(p.t, p.db + p.pairs, p.top, p.maxVar);
      p.Undo(0);
      PutUndone(h, lits, |p.t.lits|, t0, p.t);
    }
  }

  lemma InUse(t: Trail, cs: seq<Clause>, top: nat, maxVar: nat)
    requires TrailOk(t, cs, top) && Bounded(t, cs, maxVar)
    ensures forall i :: 0 <= i < |t.lits| ==> 1 <= Abs(t.lits[i]) <= maxVar
  {
  }

  /** Backtrack from a conflict, with the scores raised and what was taken back in the heap again. */
  method Resume(p: Propagator, h: Heap) returns (unsat: bool)
    requires p.Valid() && p.conflict.Some? && Heaped(p, h)
    modifies p, h
    ensures p.decisions == old(p.decisions)
    ensures unsat ==> forall a: Assignment :: !ClausesTrue(a, old(p.db + p.pairs))
    ensures !unsat ==> p.Valid() && p.conflict.None? && Heaped(p, h) && p.top < old(p.top)
    ensures !unsat ==> SameModels(old(p.db + p.pairs), p.db + p.pairs)
  {
    hide TrailOk, Watching, Permuted, BinOk, Processed, BinProcessed, Bounded, Placed, Ordered, Covers, ClausesTrue,
         SameModels, OneMore, Learned, Asserting, FirstFound, SortLits;
    var lits := p.t.lits;
    ghost var t0 := p.t;
    InUse(p.t, p.db + p.pairs, p.top, p.maxVar);
    var none, _, _ := Backtrack(p);
    unsat := none;
    if !unsat {
      Bump(h, t0);
      PutUndone(h, lits, |p.t.lits| - 1, t0, p.t);
    }
  }

  /** Search up to a number of decisions. The answer is open only when all of them were made. */
  method Solve(p: Propagator, h: Heap, limit: int) returns (r: Result)
    requires p.Valid() && Heaped(p, h)
    modifies p, h
    ensures r == Satisfiable ==> ClausesTrue(ModelOf(p.t), old(p.db + p.pairs))
    ensures r == Unsatisfiable ==> forall a: Assignment :: !ClausesTrue(a, old(p.db + p.pairs))
    ensures r == Unknown ==> p.Valid() && Heaped(p, h) && SameModels(old(p.db + p.pairs), p.db + p.pairs)
    ensures p.decisions <= old(p.decisions) + if limit < 0 then INT_MAX else limit
    ensures r == Unknown ==> p.decisions == old(p.decisions) + if limit < 0 then INT_MAX else limit
    ensures r == Unknown ==> Quiet(p) && exists v: nat :: 1 <= v <= p.maxVar && Undefined(p.t, v)
  {
    hide Stocked, Processed, BinProcessed, Bounded, ConflictOk, ModelOf, Placed, Ordered, Covers;
    ghost var cs := p.db + p.pairs;
    var l := if limit < 0 then INT_MAX else limit;
    var count := 0;
    while true
      invariant p.Valid() && Heaped(p, h) && 0 <= count <= l && SameModels(cs, p.db + p.pairs)
      invariant p.decisions == old(p.decisions) + count
      decreases l - count, p.top
    {
      if p.conflict.None? {
        ghost var was := p.t;
        p.Bcp();
        CoversLonger(h.pos, was, p.t);
      }
      if p.conflict.Some? {
        var unsat := Resume(p, h);
        if unsat {
          return Unsatisfiable;
        }
        continue;
      }
      TrailFits(p.t, p.db + p.pairs, p.top, p.maxVar);
      if |p.t.lits| == p.maxVar {
        FullTrailModels(p.t, p.top, p.db, p.pairs, p.lits, p.watch, p.off, p.impls, p.maxVar);
        return Satisfiable;
      }
      if count >= l {
        StockedOpen(p.t, p.top, p.db, p.pairs, p.lits, p.watch, p.off, p.impls, p.maxVar);
        return Unknown;
      }
      Restart(p, h);
      Decide(p, h);
      count := count + 1;
    }
  }

  lemma TrailFits(t: Trail, cs: seq<Clause>, top: nat, maxVar: nat)
    requires Consistent(t) && Bounded(t, cs, maxVar)
    ensures |t.lits| <= maxVar
  {
    var s: seq<nat> := seq(|t.lits|, i requires 0 <= i < |t.lits| => Abs(t.lits[i]) - 1);
    NumberTheory.Pigeonhole(s, maxVar);
  }
}
