/** Boolean constraint propagation over head and tail lists, and how undoing assignments repairs them. */
module Propagation {
  import opened Sequences
  import opened Literals
  import opened Trails
  import opened Watches
  import opened PropagationSteps
  import opened ConflictAnalysis
  import NumberTheory

  /** What holds of the clauses and their lists at all times. */
  ghost predicate Stocked(t: Trail, top: nat, db: seq<Clause>, pairs: seq<Clause>, lits: seq<Clause>, watch: Lists,
                          off: Lists, impls: Implications) {
    TrailOk(t, db + pairs, top) && Permuted(lits, db) && Watching(lits, watch, off, t) && BinOk(impls, pairs)
  }

  /** Assignments that are not propagated yet are of the current level. */
  ghost predicate Queued(t: Trail, top: nat, q: nat) {
    q <= |t.lits| && Consistent(t) && forall i :: q <= i < |t.lits| ==> LevelAt(t, i) == top
  }

  /** A clause that the trail falsifies, not without the current level. */
  ghost predicate Conflicting(t: Trail, top: nat, cs: seq<Clause>, c: Clause) {
    Stored(cs, c) && Falsified(t, c) && exists l :: l in c && OnTop(t, top, l)
  }

  ghost predicate ConflictOk(t: Trail, top: nat, cs: seq<Clause>, conflict: Option<Clause>) {
    conflict.Some? ==> Conflicting(t, top, cs, conflict.value)
  }

  /** The variables in use. */
  ghost predicate Bounded(t: Trail, cs: seq<Clause>, maxVar: nat) {
    && (forall i :: 0 <= i < |t.lits| ==> Abs(t.lits[i]) <= maxVar)
    && forall c :: Stored(cs, c) ==> ClauseBounded(c, maxVar)
  }

  ghost predicate ClauseBounded(c: Clause, maxVar: nat) {
    forall l :: l in c ==> Abs(l) <= maxVar
  }

  predicate FixedTrue(t: Trail, l: int) {
    True(t, l) && Abs(l) in t.level && t.level[Abs(l)] == 0
  }

  /** Every clause of one literal is true for good. */
  ghost predicate UnitsFixed(t: Trail, cs: seq<Clause>) {
    forall c :: c in cs && |c| == 1 ==> FixedTrue(t, c[0])
  }

  lemma TrailShort(t: Trail, cs: seq<Clause>, maxVar: nat)
    requires Consistent(t) && Bounded(t, cs, maxVar)
    ensures |t.lits| <= maxVar + 1
  {
    var s: seq<nat> := seq(|t.lits|, i requires 0 <= i < |t.lits| => Abs(t.lits[i]));
    NumberTheory.Pigeonhole(s, maxVar + 1);
  }

  class Propagator {
    const simplifying: bool
    const maxVar: nat
    var t: Trail
    var top: nat
    var ttail: nat
    var ttail2: nat
    var lits: seq<Clause>
    var watch: Lists
    var off: Lists
    var impls: Implications
    var conflict: Option<Clause>
    ghost var db: seq<Clause>
    ghost var pairs: seq<Clause>
    ghost var decisions: nat

    constructor (simplifying: bool, maxVar: nat)
      ensures Valid() && conflict.None? && top == 0 && t.lits == [] && ttail == ttail2 == 0 && db == [] && pairs == []
      ensures this.maxVar == maxVar && decisions == 0
    {
      this.simplifying, this.maxVar := simplifying, maxVar;
      t, top, ttail, ttail2 := Trail([], map[], map[]), 0, 0, 0;
      lits, watch, off, impls, conflict := [], map[], map[], map[], None;
      db, pairs, decisions := [], [], 0;
    }

    ghost predicate Core()
      reads this
    {
      && Stocked(t, top, db, pairs, lits, watch, off, impls) && Bounded(t, db + pairs, maxVar)
      && Queued(t, top, ttail) && Queued(t, top, ttail2) && ConflictOk(t, top, db + pairs, conflict)
      && UnitsFixed(t, db + pairs)
    }

    /** All that was propagated is settled, except on the level of a conflict. */
    ghost predicate Settledness()
      reads this
    {
      && Processed(lits, t, ttail, top, conflict.Some?, 0, [])
      && BinProcessed(impls, t, ttail2, top, conflict.Some?, 0, 0)
    }

    ghost predicate Valid()
      reads this
    {
      Core() && Settledness()
    }

    /** Force a literal that is undefined and whose clause is otherwise false. */
    method AssignForced(l: int, c: Clause)
      requires Core() && Undefined(t, l) && l != 0 && l in c && Stored(db + pairs, c)
      requires forall k :: k in c ==> k == l || False(t, k)
      modifies this`t
      ensures Core() && t == Assigning(old(t), l, top, Some(c))
    {
      hide TrailOk, Watching, Permuted, BinOk, Processed, BinProcessed, Undefined, Stored;
      AssigningOk(t, db + pairs, top, l, c);
      GrownWatching(t, db + pairs, top, l, Some(c), lits, watch, off);
      GrownQueue(t, db + pairs, top, l, Some(c), ttail);
      GrownQueue(t, db + pairs, top, l, Some(c), ttail2);
      GrownConflict(t, db + pairs, top, l, Some(c), conflict);
      GrownBound(t, db + pairs, top, l, c, maxVar);
      GrownUnits(t, db + pairs, top, l, Some(c));
      t := Assigning(t, l, top, Some(c));
    }

    /** Propagate the next assignment through its binary clauses; a conflict does not stop the walk. */
    method PropBinary()
      requires Valid() && ttail2 < |t.lits|
      modifies this`t, this`ttail2, this`conflict
      ensures Valid() && ttail2 == old(ttail2) + 1 && old(t.lits) <= t.lits
    {
      hide TrailOk, Watching, Permuted, BinOk, Processed, BinProcessed, FalsifiedAt, Bounded, ConflictOk;
      var w := -t.lits[ttail2];
      BinBegins(impls, t, db + pairs, ttail2, top, conflict.Some?);
      BeginAt(t, top, ttail2, db + pairs);
      ttail2 := ttail2 + 1;
      var ls := Imp(impls, w);
      var l := |ls|;
      while l != 0
        invariant 0 <= l <= |ls| && ls == Imp(impls, w) && ttail2 == old(ttail2) + 1 && old(t.lits) <= t.lits
        invariant Core() && FalsifiedAt(t, top, ttail2, w)
        invariant Processed(lits, t, ttail, top, conflict.Some?, 0, [])
        invariant BinProcessed(impls, t, ttail2, top, conflict.Some?, w, l)
        decreases l
      {
        l := l - 1;
        ImplyOne(w, ls[l], l);
      }
      BinEnds(impls, t, ttail2, top, conflict.Some?, w);
    }

    method ImplyOne(w: int, o: int, ghost n: nat)
      requires Core() && FalsifiedAt(t, top, ttail2, w) && n < |Imp(impls, w)| && Imp(impls, w)[n] == o
      requires Processed(lits, t, ttail, top, conflict.Some?, 0, [])
      requires BinProcessed(impls, t, ttail2, top, conflict.Some?, w, n + 1)
      modifies this`t, this`conflict
      ensures Core() && FalsifiedAt(t, top, ttail2, w) && old(t.lits) <= t.lits
      ensures Processed(lits, t, ttail, top, conflict.Some?, 0, [])
      ensures BinProcessed(impls, t, ttail2, top, conflict.Some?, w, n)
    {
      hide TrailOk, Watching, Permuted, BinOk, Processed, BinProcessed, FalsifiedAt, Bounded, TrueBelow, Stored;
      ghost var cs := db + pairs;
      BinStored(impls, pairs, cs, w, o);
      FalsifiedFacts(t, cs, top, ttail2, w);
      if True(t, o) {
        TrueBelowTop(t, cs, top, ttail2, o, w);
      } else if !False(t, o) {
        BinGrown(impls, t, cs, top, o, Some([w, o]), ttail2, conflict.Some?, w, n + 1);
        GrownProcessed(t, cs, top, o, Some([w, o]), lits, ttail, conflict.Some?, 0, []);
        FalsifiedGrown(t, cs, top, o, Some([w, o]), ttail2, w);
        AssignForced(o, [w, o]);
        AssignedBelow(t, cs, top, ttail2, o, w);
      } else {
        ConflictExcuses(lits, impls, t, ttail, ttail2, top, conflict.Some?, w, n + 1);
        PairConflicts(t, cs, top, ttail2, w, o);
        conflict := Some([w, o]);
      }
      BinNext(impls, t, ttail2, top, conflict.Some?, w, n);
    }

    // ----- long clauses -----

    /** Look for a literal that is not false from the third on, shifting by one what was passed; when there
        is none, shift back. */
    method Rotate(ls0: Clause) returns (ls: Clause, found: bool)
      requires |ls0| >= 2
      ensures found ==> multiset(ls) == multiset(ls0) && |ls| == |ls0| && ls[1] == ls0[1] && !False(t, ls[0])
      ensures !found ==> ls == ls0 && forall k :: 2 <= k < |ls0| ==> False(t, ls0[k])
    {
      var l, prev := 2, ls0[0];
      ls := ls0;
      found := false;
      while l < |ls| && !found
        invariant 2 <= l <= |ls| == |ls0| && ls[0] == ls0[0] && ls[1] == ls0[1]
        invariant multiset(ls) + multiset{prev} == multiset(ls0) + multiset{ls0[0]}
        invariant forall k :: 2 <= k < l ==> ls[k] == if k == 2 then ls0[0] else ls0[k - 1]
        invariant forall k :: l <= k < |ls| ==> ls[k] == ls0[k]
        invariant prev == if l == 2 then ls0[0] else ls0[l - 1]
        invariant found ==> !False(t, prev)
        invariant !found ==> forall k :: 2 <= k < l ==> False(t, ls0[k])
        decreases |ls| - l + if found then 0 else 1
      {
        var newLit := ls[l];
        ls, prev, l := ls[l := prev], newLit, l + 1;
        found := !False(t, newLit);
      }
      if found {
        ReplaceFirst(ls, prev, ls0);
        ls := ls[0 := prev];
      } else {
        ls := ShiftBack(ls0, ls, prev);
      }
    }

    /** Undo the shift. */
    static method ShiftBack(ghost ls0: Clause, shifted: Clause, last: int) returns (ls: Clause)
      requires |shifted| == |ls0| >= 2 && shifted[0] == ls0[0] && shifted[1] == ls0[1]
      requires forall k :: 2 <= k < |ls0| ==> shifted[k] == if k == 2 then ls0[0] else ls0[k - 1]
      requires last == if |ls0| == 2 then ls0[0] else ls0[|ls0| - 1]
      ensures ls == ls0
    {
      ls := shifted;
      var l, prev := |ls|, last;
      while l > 2
        invariant 2 <= l <= |ls| == |ls0| && ls[0] == ls0[0] && ls[1] == ls0[1]
        invariant forall k :: 2 <= k < l ==> ls[k] == if k == 2 then ls0[0] else ls0[k - 1]
        invariant forall k :: l <= k < |ls| ==> ls[k] == ls0[k]
        invariant l > 2 ==> prev == ls0[l - 1]
      {
        l := l - 1;
        var newLit := ls[l];
        ls, prev := ls[l := prev], newLit;
      }
    }

    /** Is a true literal assigned for good, or before the current level? */
    method ShouldPark(l: int) returns (b: bool)
      requires Abs(l) in t.level
      ensures b <==> t.level[Abs(l)] == 0 || (!simplifying && t.level[Abs(l)] < top)
    {
      var level := t.level[Abs(l)];
      b := level == 0 || (!simplifying && level < top);
    }

    /** Visiting the list of `w`, at index `i`, without a conflict so far. */
    ghost predicate OnTheWay(w: int, i: nat)
      reads this
    {
      && Core() && conflict.None? && Visiting(t, top, ttail, db + pairs, db, lits, watch, off, w, i)
      && BinProcessed(impls, t, ttail2, top, false, 0, 0)
    }

    /** Propagate the next assignment through its long clauses, up to a conflict. */
    method PropLong()
      requires Valid() && conflict.None? && ttail < |t.lits|
      modifies this`t, this`ttail, this`lits, this`watch, this`off, this`conflict
      ensures Valid() && ttail == old(ttail) + 1 && old(t.lits) <= t.lits
    {
      hide Stocked, Processed, BinProcessed, Visiting, Bounded, ConflictOk;
      var w := -t.lits[ttail];
      VisitStarts(t, top, ttail, db, pairs, lits, watch, off, impls);
      ttail := ttail + 1;
      var i: nat := 0;
      while i < |On(watch, w)|
        invariant ttail == old(ttail) + 1 && old(t.lits) <= t.lits && OnTheWay(w, i)
        decreases |On(watch, w)| - i
      {
        i := Visit(w, i);
        if conflict.Some? {
          return;
        }
      }
      VisitStops(t, top, ttail, db + pairs, db, lits, watch, off, w, i);
    }

    method Visit(w: int, i: nat) returns (i': nat)
      requires OnTheWay(w, i) && i < |On(watch, w)|
      modifies this`t, this`lits, this`watch, this`off, this`conflict
      ensures conflict.None? ==> OnTheWay(w, i') && |On(watch, w)| - i' < old(|On(watch, w)|) - i
      ensures conflict.Some? ==> Valid()
      ensures old(t.lits) <= t.lits
    {
      hide Core, Visiting, BinProcessed, Rotated, UnitOn, Conflicting;
      VisitedClause(t, top, ttail, db + pairs, db, lits, watch, off, w, i);
      var c := On(watch, w)[i];
      i' := i;
      if |lits[c]| == 1 {
        UnitConflicts(t, top, ttail, db + pairs, db, lits, watch, off, w, i);
        Fail(c, w, i);
        return;
      }
      SwapStep(t, top, ttail, db + pairs, db, lits, watch, off, w, i);
      SetClause(c, InFront(lits[c], w), w, i);
      var other := lits[c][1];
      if True(t, other) {
        i' := PassTrue(c, w, i);
        return;
      }
      var ls, found := Rotate(lits[c]);
      if found {
        IsRotated(t, top, ttail, db + pairs, db, lits, watch, off, w, i, ls);
        Relocate(c, ls, w, i);
      } else if False(t, other) {
        AllFalse(t, top, ttail, db + pairs, db, lits, watch, off, w, i);
        Fail(c, w, i);
      } else {
        IsUnit(t, top, ttail, db + pairs, db, lits, watch, off, w, i);
        i' := Imply(c, w, i);
      }
    }

    method Fail(c: nat, w: int, ghost i: nat)
      requires OnTheWay(w, i) && c < |lits| && Conflicting(t, top, db + pairs, lits[c])
      modifies this`conflict
      ensures conflict.Some? && Valid()
    {
      hide Stocked, Processed, BinProcessed, Visiting, Bounded, Conflicting;
      VisitStops(t, top, ttail, db + pairs, db, lits, watch, off, w, i);
      ConflictExcuses(lits, impls, t, ttail, ttail2, top, true, 0, 0);
      BinExcused(impls, t, ttail2, top);
      conflict := Some(lits[c]);
    }

    method SetClause(c: nat, d: Clause, w: int, ghost i: nat)
      requires OnTheWay(w, i) && c < |lits|
      requires Visiting(t, top, ttail, db + pairs, db, lits[c := d], watch, off, w, i)
      modifies this`lits
      ensures OnTheWay(w, i) && lits == old(lits)[c := d]
    {
      hide Processed, BinProcessed, Visiting, Bounded, TrailOk, Watching, Permuted, BinOk, ConflictOk;
      VisitingStocked(t, top, ttail, db, pairs, lits[c := d], watch, off, w, i);
      lits := lits[c := d];
    }

    /** The partner is true: stay on the list, or park with the partner. */
    method PassTrue(c: nat, w: int, i: nat) returns (i': nat)
      requires OnTheWay(w, i) && i < |On(watch, w)| && c == On(watch, w)[i] && c < |lits| && |lits[c]| >= 2
      requires lits[c][0] == w && True(t, lits[c][1])
      modifies this`watch, this`off
      ensures OnTheWay(w, i') && |On(watch, w)| - i' < old(|On(watch, w)|) - i
    {
      hide Processed, BinProcessed, Visiting, Bounded, TrailOk, Watching, Permuted, BinOk, ConflictOk;
      ghost var cs := db + pairs;
      var other := lits[c][1];
      TrueOnLevel(t, cs, top, other);
      i' := i;
      var park := ShouldPark(other);
      if park {
        ParkStep(t, top, ttail, cs, db, lits, watch, off, w, i);
        VisitingStocked(t, top, ttail, db, pairs, lits, Dropped(watch, w, i), Pushed(off, other, c), w, i);
        watch, off := Dropped(watch, w, i), Pushed(off, other, c);
      } else {
        KeepTrue(t, top, ttail, cs, db, lits, watch, off, w, i);
        i' := i + 1;
      }
    }

    method Relocate(c: nat, d: Clause, w: int, i: nat)
      requires OnTheWay(w, i) && i < |On(watch, w)| && c == On(watch, w)[i] && c < |lits| && Rotated(t, lits[c], d, w)
      modifies this`lits, this`watch
      ensures OnTheWay(w, i) && |On(watch, w)| == old(|On(watch, w)|) - 1
    {
      hide Processed, BinProcessed, Visiting, Bounded, TrailOk, Watching, Permuted, BinOk, ConflictOk;
      RelocateStep(t, top, ttail, db + pairs, db, lits, watch, off, w, i, d);
      VisitingStocked(t, top, ttail, db, pairs, lits[c := d], Pushed(Dropped(watch, w, i), d[0], c), off, w, i);
      lits, watch := lits[c := d], Pushed(Dropped(watch, w, i), d[0], c);
    }

    method Imply(c: nat, w: int, i: nat) returns (i': nat)
      requires OnTheWay(w, i) && i < |On(watch, w)| && c == On(watch, w)[i] && c < |lits| && UnitOn(t, lits[c], w)
      modifies this`t
      ensures OnTheWay(w, i') && i' == i + 1 && old(t.lits) <= t.lits
    {
      hide Processed, BinProcessed, Visiting, Bounded, TrailOk, Watching, Permuted, BinOk, ConflictOk, Stored;
      ghost var cs := db + pairs;
      AssignStep(t, top, ttail, cs, db, lits, watch, off, w, i);
      assert lits[c][1] in lits[c];
      StoredPermuted(lits, db, cs, c);
      BinGrown(impls, t, cs, top, lits[c][1], Some(lits[c]), ttail2, false, 0, 0);
      AssignForced(lits[c][1], lits[c]);
      i' := i + 1;
    }

    /** Propagate, binary clauses first, until nothing is left to propagate or a conflict is met; without
        one, no clause is falsified or unit. */
    method Bcp()
      requires Valid() && conflict.None?
      modifies this`t, this`ttail, this`ttail2, this`lits, this`watch, this`off, this`conflict
      ensures Valid() && (conflict.None? ==> ttail == ttail2 == |t.lits|) && old(t.lits) <= t.lits
      ensures conflict.None? ==> forall c :: c in db + pairs ==> !Falsified(t, c) && !UnitClause(t, c)
    {
      hide Stocked, Processed, BinProcessed, ConflictOk, Bounded, UnitsFixed, Falsified, UnitClause;
      while true
        invariant Valid() && old(t.lits) <= t.lits
        decreases 2 * (maxVar + 1) - ttail - ttail2
      {
        TrailShort(t, db + pairs, maxVar);
        if ttail2 < |t.lits| {
          PropBinary();
        } else if ttail < |t.lits| {
          if conflict.Some? {
            break;
          }
          PropLong();
          if conflict.Some? {
            break;
          }
        } else {
          break;
        }
        TrailShort(t, db + pairs, maxVar);
      }
      if conflict.None? {
        forall c | c in db + pairs ensures !Falsified(t, c) && !UnitClause(t, c) {
          Complete(t, top, db, pairs, lits, watch, off, impls, c);
        }
      }
    }

    // ----- undoing -----

    /** Put the clauses parked with `l` back on the list of their other watched literal. */
    method Unpark(l: int)
      requires Permuted(lits, db) && Watching(lits, watch, off, t)
      modifies this`watch, this`off
      ensures Watching(lits, watch, off, t) && On(off, l) == []
    {
      hide Watching, Permuted;
      while On(off, l) != []
        invariant Watching(lits, watch, off, t)
        decreases |On(off, l)|
      {
        UnparkKeeps(lits, db, watch, off, t, l);
        var c := On(off, l)[0];
        var other := if lits[c][0] == l then lits[c][1] else lits[c][0];
        off := Dropped(off, l, 0);
        watch := Pushed(watch, other, c);
      }
    }

    method PopTo(newLevel: nat)
      requires TrailOk(t, db + pairs, top) && Permuted(lits, db) && Watching(lits, watch, off, t)
      requires newLevel == 0 || exists i :: 0 <= i < |t.lits| && LevelAt(t, i) == newLevel
      modifies this`t, this`watch, this`off
      ensures BackTo(old(t), t, db + pairs, newLevel) && Watching(lits, watch, off, t)
    {
      hide TrailOk, Watching, Permuted;
      ghost var t0, cs := t, db + pairs;
      PrefixOk(t0, cs, top, |t0.lits|);
      while |t.lits| > 0
        invariant |t.lits| <= |t0.lits| && t == t0.(lits := t0.lits[..|t.lits|])
        invariant forall i :: |t.lits| <= i < |t0.lits| ==> LevelAt(t0, i) > newLevel
        invariant Watching(lits, watch, off, t)
      {
        var n := |t.lits| - 1;
        PrefixOk(t0, cs, top, n);
        if t.level[Abs(t.lits[n])] == newLevel {
          break;
        }
        AboveNewLevel(t0, cs, top, newLevel, n);
        Unpark(t.lits[n]);
        PopKeeps(lits, watch, off, t);
        t := t.(lits := t.lits[..n]);
      }
      LevelledBelow(t0, cs, top, newLevel, |t.lits|);
    }

    /** Take back assignments until one of the new level is met. */
    method Undo(newLevel: nat)
      requires Valid() && newLevel <= top
      requires newLevel < top || (conflict.None? && ttail == ttail2 == |t.lits|)
      requires newLevel == 0 || exists i :: 0 <= i < |t.lits| && LevelAt(t, i) == newLevel
      modifies this`t, this`top, this`ttail, this`ttail2, this`watch, this`off, this`conflict
      ensures Valid() && conflict.None? && top == newLevel && ttail == ttail2 == |t.lits|
      ensures BackTo(old(t), t, db + pairs, newLevel)
    {
      hide TrailOk, Watching, Permuted, BinOk, Processed, BinProcessed, ConflictOk, Bounded;
      ghost var t0, cs := t, db + pairs;
      PopTo(newLevel);
      UndoneProcessed(lits, t0, t, cs, ttail, top, conflict.Some?, newLevel);
      UndoneBin(impls, t0, t, cs, ttail2, top, conflict.Some?, newLevel);
      UndoneBounded(t0, t, cs, maxVar);
      UndoneUnits(t0, t, cs, newLevel);
      top := newLevel;
      ttail, ttail2 := |t.lits|, |t.lits|;
      conflict := None;
      NoConflict(t, top, cs);
    }
  }

  lemma VisitStarts(t: Trail, top: nat, q: nat, db: seq<Clause>, pairs: seq<Clause>, lits: seq<Clause>, watch: Lists,
                    off: Lists, impls: Implications)
    requires Stocked(t, top, db, pairs, lits, watch, off, impls) && Queued(t, top, q) && q < |t.lits|
    requires Processed(lits, t, q, top, false, 0, [])
    ensures Visiting(t, top, q + 1, db + pairs, db, lits, watch, off, -t.lits[q], 0)
  {
    hide TrailOk, Watching, Permuted, Processed;
    VisitBegins(t, top, q, db + pairs, db, lits, watch, off);
  }

  lemma VisitStops(t: Trail, top: nat, q: nat, cs: seq<Clause>, db: seq<Clause>, lits: seq<Clause>, watch: Lists,
                   off: Lists, w: int, i: nat)
    requires Visiting(t, top, q, cs, db, lits, watch, off, w, i)
    ensures i <= |On(watch, w)| && (i == |On(watch, w)| ==> Processed(lits, t, q, top, false, 0, []))
    ensures Processed(lits, t, q, top, true, 0, [])
  {
    VisitEnds(t, top, q, cs, db, lits, watch, off, w, i);
  }

  lemma BinExcused(impls: Implications, t: Trail, q: nat, top: nat)
    requires BinProcessed(impls, t, q, top, false, 0, 0)
    ensures BinProcessed(impls, t, q, top, true, 0, 0)
  {
    hide TrueBelow;
  }

  lemma VisitingStocked(t: Trail, top: nat, q: nat, db: seq<Clause>, pairs: seq<Clause>, lits: seq<Clause>,
                        watch: Lists, off: Lists, w: int, i: nat)
    requires Visiting(t, top, q, db + pairs, db, lits, watch, off, w, i)
    ensures TrailOk(t, db + pairs, top) && Permuted(lits, db) && Watching(lits, watch, off, t)
  {
    hide TrailOk, Watching, Permuted, Processed;
  }

  lemma VisitedClause(t: Trail, top: nat, q: nat, cs: seq<Clause>, db: seq<Clause>, lits: seq<Clause>, watch: Lists,
                      off: Lists, w: int, i: nat)
    requires Visiting(t, top, q, cs, db, lits, watch, off, w, i) && i < |On(watch, w)|
    ensures On(watch, w)[i] < |lits| && |lits[On(watch, w)[i]]| >= 1 && Watched(lits[On(watch, w)[i]], w)
  {
    hide TrailOk, Processed;
    assert Listed(watch, w, On(watch, w)[i]);
  }

  lemma FalseConflicts(t: Trail, top: nat, q: nat, cs: seq<Clause>, db: seq<Clause>, lits: seq<Clause>, c: nat, w: int)
    requires TrailOk(t, cs, top) && Permuted(lits, db) && db <= cs && FalsifiedAt(t, top, q, w)
    requires c < |lits| && w in lits[c] && forall l :: l in lits[c] ==> False(t, l)
    ensures Conflicting(t, top, cs, lits[c])
  {
    StoredPermuted(lits, db, cs, c);
    assert OnTop(t, top, w);
  }

  lemma UnitConflicts(t: Trail, top: nat, q: nat, cs: seq<Clause>, db: seq<Clause>, lits: seq<Clause>, watch: Lists,
                      off: Lists, w: int, i: nat)
    requires Visiting(t, top, q, cs, db, lits, watch, off, w, i) && i < |On(watch, w)|
    requires On(watch, w)[i] < |lits| && |lits[On(watch, w)[i]]| == 1
    ensures Conflicting(t, top, cs, lits[On(watch, w)[i]])
  {
    hide TrailOk, Processed, Watching, Permuted;
    VisitedClause(t, top, q, cs, db, lits, watch, off, w, i);
    FalsifiedFacts(t, cs, top, q, w);
    FalseConflicts(t, top, q, cs, db, lits, On(watch, w)[i], w);
  }

  lemma AllFalse(t: Trail, top: nat, q: nat, cs: seq<Clause>, db: seq<Clause>, lits: seq<Clause>, watch: Lists,
                 off: Lists, w: int, i: nat)
    requires Visiting(t, top, q, cs, db, lits, watch, off, w, i) && i < |On(watch, w)|
    requires var c := On(watch, w)[i];
      && c < |lits| && |lits[c]| >= 2 && lits[c][0] == w && False(t, lits[c][1])
      && forall k :: 2 <= k < |lits[c]| ==> False(t, lits[c][k])
    ensures Conflicting(t, top, cs, lits[On(watch, w)[i]])
  {
    hide TrailOk, Processed, Watching, Permuted;
    var c := lits[On(watch, w)[i]];
    FalsifiedFacts(t, cs, top, q, w);
    forall l | l in c ensures False(t, l) {
      var k :| 0 <= k < |c| && c[k] == l;
    }
    FalseConflicts(t, top, q, cs, db, lits, On(watch, w)[i], w);
  }

  lemma IsRotated(t: Trail, top: nat, q: nat, cs: seq<Clause>, db: seq<Clause>, lits: seq<Clause>, watch: Lists,
                  off: Lists, w: int, i: nat, d: Clause)
    requires Visiting(t, top, q, cs, db, lits, watch, off, w, i) && i < |On(watch, w)|
    requires var c := On(watch, w)[i];
      && c < |lits| && |lits[c]| >= 2 && lits[c][0] == w && !True(t, lits[c][1])
      && multiset(d) == multiset(lits[c]) && |d| == |lits[c]| && d[1] == lits[c][1] && !False(t, d[0])
    ensures Rotated(t, lits[On(watch, w)[i]], d, w)
  {
    hide TrailOk, Processed, Watching;
  }

  lemma IsUnit(t: Trail, top: nat, q: nat, cs: seq<Clause>, db: seq<Clause>, lits: seq<Clause>, watch: Lists,
               off: Lists, w: int, i: nat)
    requires Visiting(t, top, q, cs, db, lits, watch, off, w, i) && i < |On(watch, w)|
    requires var c := On(watch, w)[i];
      && c < |lits| && |lits[c]| >= 2 && lits[c][0] == w && Undefined(t, lits[c][1])
      && forall k :: 2 <= k < |lits[c]| ==> False(t, lits[c][k])
    ensures UnitOn(t, lits[On(watch, w)[i]], w)
  {
    hide TrailOk, Processed, Watching;
    FalsifiedFacts(t, cs, top, q, w);
  }

  lemma ReplaceFirst(c: Clause, l: int, d: Clause)
    requires c != [] && multiset(c) + multiset{l} == multiset(d) + multiset{c[0]}
    ensures multiset(c[0 := l]) == multiset(d)
  {
    assert c == [c[0]] + c[1..] && c[0 := l] == [l] + c[1..];
    assert multiset(c) == multiset{c[0]} + multiset(c[1..]) && multiset(c[0 := l]) == multiset{l} + multiset(c[1..]);
    assert (multiset(c[1..]) + multiset{l}) + multiset{c[0]} == multiset(d) + multiset{c[0]};
    AddBoth(multiset(c[1..]) + multiset{l}, multiset(d), c[0]);
  }

  lemma AddBoth(a: multiset<int>, b: multiset<int>, x: int)
    requires a + multiset{x} == b + multiset{x}
    ensures a == b
  {
    assert a == (a + multiset{x}) - multiset{x};
    assert b == (b + multiset{x}) - multiset{x};
  }

  lemma BinEnds(impls: Implications, t: Trail, q: nat, top: nat, conf: bool, w: int)
    requires BinProcessed(impls, t, q, top, conf, w, 0)
    ensures BinProcessed(impls, t, q, top, conf, 0, 0)
  {
    hide TrueBelow;
  }

  lemma TrueBelowTop(t: Trail, cs: seq<Clause>, top: nat, q: nat, o: int, w: int)
    requires TrailOk(t, cs, top) && FalsifiedAt(t, top, q, w) && True(t, o)
    ensures TrueBelow(t, o, w)
  {
    TrueOnLevel(t, cs, top, o);
  }

  lemma FalsifiedGrown(t: Trail, cs: seq<Clause>, top: nat, l: int, r: Option<Clause>, q: nat, w: int)
    requires TrailOk(t, cs, top) && l != 0 && Undefined(t, l) && FalsifiedAt(t, top, q, w)
    ensures FalsifiedAt(Assigning(t, l, top, r), top, q, w)
  {
    FalsifiedFacts(t, cs, top, q, w);
    GrownTrail(t, cs, top, l, r, 0, w);
  }

  lemma AssignedBelow(t: Trail, cs: seq<Clause>, top: nat, q: nat, o: int, w: int)
    requires TrailOk(t, cs, top) && FalsifiedAt(t, top, q, w) && |t.lits| > 0 && t.lits[|t.lits| - 1] == o
    ensures TrueBelow(t, o, w)
  {
    assert o in t.lits;
    TrueBelowTop(t, cs, top, q, o, w);
  }

  lemma PairConflicts(t: Trail, cs: seq<Clause>, top: nat, q: nat, w: int, o: int)
    requires FalsifiedAt(t, top, q, w) && False(t, w) && False(t, o) && Stored(cs, [w, o])
    ensures Conflicting(t, top, cs, [w, o]) && Excused(t, top, true, w)
  {
    assert w in [w, o] && OnTop(t, top, w);
  }

  lemma GrownQueue(t: Trail, cs: seq<Clause>, top: nat, l: int, r: Option<Clause>, q: nat)
    requires TrailOk(t, cs, top) && Undefined(t, l) && l != 0 && Queued(t, top, q)
    ensures Queued(Assigning(t, l, top, r), top, q)
  {
    AssigningConsistent(t, top, l, r);
    NotAmong(t, l);
    var u := Assigning(t, l, top, r);
    assert forall i :: q <= i < |t.lits| ==> LevelAt(u, i) == LevelAt(t, i);
  }

  lemma GrownConflict(t: Trail, cs: seq<Clause>, top: nat, l: int, r: Option<Clause>, conflict: Option<Clause>)
    requires TrailOk(t, cs, top) && Undefined(t, l) && l != 0 && ConflictOk(t, top, cs, conflict)
    ensures ConflictOk(Assigning(t, l, top, r), top, cs, conflict)
  {
    if conflict.Some? {
      var u, c := Assigning(t, l, top, r), conflict.value;
      var k :| k in c && OnTop(t, top, k);
      GrownTrail(t, cs, top, l, r, 0, k);
      assert OnTop(u, top, k);
      forall k | k in c ensures False(u, k) {
        GrownTrail(t, cs, top, l, r, 0, k);
      }
    }
  }

  lemma GrownBound(t: Trail, cs: seq<Clause>, top: nat, l: int, c: Clause, maxVar: nat)
    requires Bounded(t, cs, maxVar) && Stored(cs, c) && l in c
    ensures Bounded(Assigning(t, l, top, Some(c)), cs, maxVar)
  {
    assert ClauseBounded(c, maxVar);
  }

  /** What is true for good stays so while the trail grows. */
  lemma GrownUnits(t: Trail, cs: seq<Clause>, top: nat, l: int, r: Option<Clause>)
    requires Undefined(t, l) && UnitsFixed(t, cs)
    ensures UnitsFixed(Assigning(t, l, top, r), cs)
  {
    NotAmong(t, l);
  }

  // ----- completeness -----

  /** All literals but an undefined one are false. */
  ghost predicate UnitClause(t: Trail, c: Clause) {
    exists l :: l in c && Undefined(t, l) && forall k :: k in c && k != l ==> False(t, k)
  }

  /** Once everything is propagated without a conflict, no clause is falsified and none is unit. */
  lemma Complete(t: Trail, top: nat, db: seq<Clause>, pairs: seq<Clause>, lits: seq<Clause>, watch: Lists, off: Lists,
                 impls: Implications, c: Clause)
    requires Stocked(t, top, db, pairs, lits, watch, off, impls)
    requires Processed(lits, t, |t.lits|, top, false, 0, []) && BinProcessed(impls, t, |t.lits|, top, false, 0, 0)
    requires UnitsFixed(t, db + pairs) && c in db + pairs
    ensures !Falsified(t, c) && !UnitClause(t, c)
  {
    hide Watching, BinProcessed, Processed, TrailOk;
    if |c| == 1 {
      NotBoth(t, db + pairs, top, c[0]);
      assert c[0] in c;
    } else if c in db {
      var k :| 0 <= k < |db| && db[k] == c;
      SameLiterals(lits[k], c);
      LongComplete(t, db + pairs, top, lits, k);
    } else {
      assert c == [c[0], c[1]] && c[1] in Imp(impls, c[0]);
      assert c[0] in Imp(impls, c[1]);
      BinComplete(t, db + pairs, top, impls, c[0], c[1]);
    }
  }

  lemma AllBefore(t: Trail, cs: seq<Clause>, top: nat, w: int)
    requires TrailOk(t, cs, top) && False(t, w)
    ensures FalseBefore(t, w, |t.lits|)
  {
    FalseAssigned(t, w);
  }

  lemma NotBoth(t: Trail, cs: seq<Clause>, top: nat, l: int)
    requires TrailOk(t, cs, top) && True(t, l)
    ensures !False(t, l)
  {
    var i :| 0 <= i < |t.lits| && t.lits[i] == l;
    PosOf(t, i);
    if False(t, l) {
      FalseAssigned(t, l);
    }
  }

  lemma LongComplete(t: Trail, cs: seq<Clause>, top: nat, lits: seq<Clause>, k: nat)
    requires TrailOk(t, cs, top) && Processed(lits, t, |t.lits|, top, false, 0, []) && k < |lits| && GoodLong(lits[k])
    ensures var d := lits[k]; !False(t, d[0]) || (|d| >= 2 && True(t, d[1]) && !False(t, d[1]))
    ensures var d := lits[k]; |d| >= 2 ==> !False(t, d[1]) || (True(t, d[0]) && !False(t, d[0]))
  {
    var d := lits[k];
    assert Watched(d, d[0]);
    if False(t, d[0]) {
      AllBefore(t, cs, top, d[0]);
      assert Settled(t, d, d[0]);
      NotBoth(t, cs, top, d[1]);
    } else if |d| >= 2 && False(t, d[1]) {
      assert Watched(d, d[1]);
      AllBefore(t, cs, top, d[1]);
      assert Settled(t, d, d[1]);
    }
  }

  lemma BinComplete(t: Trail, cs: seq<Clause>, top: nat, impls: Implications, a: int, b: int)
    requires TrailOk(t, cs, top) && BinProcessed(impls, t, |t.lits|, top, false, 0, 0) && b in Imp(impls, a)
    requires a in Imp(impls, b)
    ensures False(t, a) ==> True(t, b) && !False(t, b)
    ensures False(t, b) ==> True(t, a) && !False(t, a)
  {
    if False(t, a) {
      AllBefore(t, cs, top, a);
      assert TrueBelow(t, b, a);
      NotBoth(t, cs, top, b);
    }
    if False(t, b) {
      AllBefore(t, cs, top, b);
      assert TrueBelow(t, a, b);
      NotBoth(t, cs, top, a);
    }
  }

  // ----- undoing -----

  lemma UnparkKeeps(lits: seq<Clause>, db: seq<Clause>, watch: Lists, off: Lists, t: Trail, l: int)
    requires Permuted(lits, db) && Watching(lits, watch, off, t) && On(off, l) != []
    ensures var c := On(off, l)[0];
      && c < |lits| && |lits[c]| >= 2
      && Watching(lits, Pushed(watch, Partner(lits[c], l), c), Dropped(off, l, 0), t)
  {
    hide True, Dropped, Pushed, NoRepeats;
    var c := On(off, l)[0];
    assert Listed(off, l, c);
    assert Parked(lits, watch, t, l, c);
    hide On;
    var o := Partner(lits[c], l);
    DroppedLists(off, l, 0);
    PushedLists(watch, o, c);
    var off', watch' := Dropped(off, l, 0), Pushed(watch, o, c);
    forall p, k: nat | Listed(off', p, k) ensures Parked(lits, watch', t, p, k) {
      assert Parked(lits, watch, t, p, k);
      if k == c {
        ParkedOnce(lits, watch, off, t, c, l, p);
      }
    }
    forall k: nat, v | k < |lits| && Watched(lits[k], v) ensures Listed(watch', v, k) || ParkedAway(lits, off', k, v) {
      if !Listed(watch, v, k) {
        assert ParkedAway(lits, off, k, v);
      }
    }
  }

  lemma ParkedOnce(lits: seq<Clause>, watch: Lists, off: Lists, t: Trail, c: nat, l: int, p: int)
    requires Watching(lits, watch, off, t) && Listed(off, l, c) && Listed(off, p, c)
    ensures l == p
  {
  }

  /** Popping the last literal keeps the lists once nothing is parked with it. */
  lemma PopKeeps(lits: seq<Clause>, watch: Lists, off: Lists, t: Trail)
    requires Watching(lits, watch, off, t) && |t.lits| > 0 && On(off, t.lits[|t.lits| - 1]) == []
    ensures Watching(lits, watch, off, t.(lits := t.lits[..|t.lits| - 1]))
  {
    var u := t.(lits := t.lits[..|t.lits| - 1]);
    assert t.lits == u.lits + [t.lits[|t.lits| - 1]];
    hide NoRepeats;
    forall o, c: nat | Listed(off, o, c) ensures Parked(lits, watch, u, o, c) {
      assert Parked(lits, watch, t, o, c);
    }
  }

  /** What is false below the level undone was false and propagated before. */
  lemma UndoneFalse(t0: Trail, t: Trail, cs: seq<Clause>, q: nat, top: nat, conf: bool, newLevel: nat, w: int)
    requires BackTo(t0, t, cs, newLevel) && TrailOk(t0, cs, top) && Queued(t0, top, q)
    requires newLevel < top || (!conf && q == |t0.lits|)
    requires False(t, w)
    ensures FalseBefore(t0, w, q) && !Excused(t0, top, conf, w)
    ensures Abs(w) in t0.level && t0.level[Abs(w)] <= newLevel
  {
    FalseAssigned(t, w);
    var i := Pos(t, Abs(w));
    assert t0.lits[i] == -w && LevelAt(t, i) <= newLevel;
    PosOf(t0, i);
    assert LevelAt(t0, i) == LevelAt(t, i);
  }

  lemma UndoneTrue(t0: Trail, t: Trail, cs: seq<Clause>, top: nat, newLevel: nat, o: int, w: int)
    requires BackTo(t0, t, cs, newLevel) && TrailOk(t0, cs, top) && TrueBelow(t0, o, w) && t0.level[Abs(w)] <= newLevel
    ensures TrueBelow(t, o, w)
  {
    var i :| 0 <= i < |t0.lits| && t0.lits[i] == o;
    assert LevelAt(t0, i) <= newLevel;
    assert t.lits[i] == o;
  }

  lemma UndoneProcessed(lits: seq<Clause>, t0: Trail, t: Trail, cs: seq<Clause>, q: nat, top: nat, conf: bool,
                        newLevel: nat)
    requires BackTo(t0, t, cs, newLevel) && TrailOk(t0, cs, top) && Queued(t0, top, q)
    requires newLevel < top || (!conf && q == |t0.lits|)
    requires Processed(lits, t0, q, top, conf, 0, [])
    ensures Processed(lits, t, |t.lits|, newLevel, false, 0, [])
  {
    hide BackTo, TrailOk, Queued, TrueBelow;
    forall k: nat, v | k < |lits| && Watched(lits[k], v) && FalseBefore(t, v, |t.lits|) ensures Settled(t, lits[k], v) {
      UndoneFalse(t0, t, cs, q, top, conf, newLevel, v);
      UndoneTrue(t0, t, cs, top, newLevel, Partner(lits[k], v), v);
    }
  }

  lemma UndoneBin(impls: Implications, t0: Trail, t: Trail, cs: seq<Clause>, q: nat, top: nat, conf: bool,
                  newLevel: nat)
    requires BackTo(t0, t, cs, newLevel) && TrailOk(t0, cs, top) && Queued(t0, top, q)
    requires newLevel < top || (!conf && q == |t0.lits|)
    requires BinProcessed(impls, t0, q, top, conf, 0, 0)
    ensures BinProcessed(impls, t, |t.lits|, newLevel, false, 0, 0)
  {
    hide BackTo, TrailOk, Queued, TrueBelow;
    forall v, o | o in Imp(impls, v) && FalseBefore(t, v, |t.lits|) ensures TrueBelow(t, o, v) {
      UndoneFalse(t0, t, cs, q, top, conf, newLevel, v);
      UndoneTrue(t0, t, cs, top, newLevel, o, v);
    }
  }

  /** Undoing takes nothing back that is true for good. */
  lemma UndoneUnits(t0: Trail, t: Trail, cs: seq<Clause>, newLevel: nat)
    requires BackTo(t0, t, cs, newLevel) && UnitsFixed(t0, cs)
    ensures UnitsFixed(t, cs)
  {
    hide TrailOk;
    forall c | c in cs && |c| == 1 ensures FixedTrue(t, c[0]) {
      assert FixedTrue(t0, c[0]);
      var i :| 0 <= i < |t0.lits| && t0.lits[i] == c[0];
      assert LevelAt(t0, i) == 0;
      assert t.lits[i] == c[0];
    }
  }

  lemma UndoneBounded(t0: Trail, t: Trail, cs: seq<Clause>, maxVar: nat)
    requires Bounded(t0, cs, maxVar) && t.lits <= t0.lits
    ensures Bounded(t, cs, maxVar)
  {
  }

  lemma NoConflict(t: Trail, top: nat, cs: seq<Clause>)
    ensures ConflictOk(t, top, cs, None)
  {
  }
}
