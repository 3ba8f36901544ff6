/** First-UIP conflict analysis with clause minimisation. */
module ConflictAnalysis {
  import opened Sequences
  import opened Literals
  import opened Trails

  function Elems(s: seq<nat>): (r: set<nat>)
    ensures forall x :: x in r <==> x in s
  {
    set x | x in s
  }

  ghost predicate Falsified(t: Trail, c: Clause) {
    forall l :: l in c ==> False(t, l)
  }

  /** All variables of `c` are among `vs`. */
  ghost predicate Within(c: Clause, vs: set<nat>) {
    forall l :: l in c ==> Abs(l) in vs
  }

  /** A variable of level `top` that stands before position `q`. */
  ghost predicate OpenVar(t: Trail, top: nat, q: nat, v: nat) {
    Assigned(t, v) && Pos(t, v) < q && v in t.level && t.level[v] == top
  }

  /** A variable of level `top`, at or behind position `q`, that was resolved away: the variables of its
      reason are among `seen`. */
  ghost predicate DoneVar(t: Trail, top: nat, q: nat, v: nat, seen: set<nat>) {
    && Assigned(t, v) && Pos(t, v) >= q && v in t.level && t.level[v] == top
    && v in t.reason && t.reason[v].Some? && Within(t.reason[v].value, seen)
  }

  ghost predicate LowVar(t: Trail, top: nat, v: nat) {
    Assigned(t, v) && v in t.level && t.level[v] < top
  }

  /** What the search keeps track of: the marked variables of the conflict level, those resolved away,
      the one whose reason is next, and the marked variables of lower levels. */
  datatype Seen = Seen(opens: set<nat>, done: set<nat>, next: set<nat>, low: seq<nat>)

  ghost function All(s: Seen): set<nat> {
    s.opens + s.done + s.next + Elems(s.low)
  }

  /** The search for the first UIP from position `q` down. */
  ghost predicate Searching(t: Trail, top: nat, s: Seen, q: nat) {
    && q <= |t.lits|
    && (forall v :: v in s.opens ==> OpenVar(t, top, q, v))
    && (forall v :: v in s.done ==> DoneVar(t, top, q, v, All(s)))
    && (forall v :: v in s.low ==> LowVar(t, top, v))
    && (forall v :: v in s.next ==> Assigned(t, v) && Pos(t, v) == q && v in t.level && t.level[v] == top)
    && NoRepeats(s.low)
  }

  /** What the marks and the counter say during the search. */
  ghost predicate Marking(t: Trail, top: nat, mark: set<nat>, marked: seq<nat>, open: nat, s: Seen, q: nat) {
    Searching(t, top, s, q) && mark == s.opens + Elems(s.low) && open == |s.opens| && s.low == marked
  }

  // ----- the first of them -----

  /** The variable occurs in the clause, with either sign. */
  ghost predicate Occurs(c: Clause, v: nat) {
    exists l :: l in c && Abs(l) == v
  }

  /** `w` occurs in the conflict, or in the reason of a variable resolved away that stands behind `v`. */
  ghost predicate Met(t: Trail, conflict: Clause, done: set<nat>, w: nat, v: nat) {
    || Occurs(conflict, w)
    || exists d :: d in done && Pos(t, d) > Pos(t, v) && d in t.reason && t.reason[d].Some? &&
         Occurs(t.reason[d].value, w)
  }

  /** When the turn of `v` came, another variable of the level, before it on the trail, had been met. */
  ghost predicate Accompanied(t: Trail, top: nat, conflict: Clause, done: set<nat>, v: nat) {
    exists w :: OpenVar(t, top, Pos(t, v), w) && Met(t, conflict, done, w, v)
  }

  /** Only what the conflict and the reasons resolved so far contain was seen, and no variable was resolved
      away that was alone on its level when its turn came. */
  ghost predicate Traced(t: Trail, top: nat, conflict: Clause, s: Seen) {
    && (forall v :: v in All(s) ==> Met(t, conflict, s.done, v, v))
    && (top > 0 ==> forall v :: v in s.done ==> Accompanied(t, top, conflict, s.done, v))
  }

  /** What was seen in addition stands in the clause, before position `q`. */
  ghost predicate SeenIn(t: Trail, s: Seen, s': Seen, c: Clause, q: nat) {
    s'.done == s.done && forall v :: v in All(s') && v !in All(s) ==> Occurs(c, v) && Pos(t, v) < q
  }

  lemma SeenInThen(t: Trail, s: Seen, s1: Seen, s2: Seen, c: Clause, i: nat, q: nat)
    requires SeenIn(t, s, s1, c, q) && i < |c| && Pos(t, Abs(c[i])) < q
    requires All(s2) == All(s1) + {Abs(c[i])} && s2.done == s1.done
    ensures SeenIn(t, s, s2, c, q)
  {
    assert c[i] in c;
  }

  lemma TracedStart(t: Trail, top: nat, conflict: Clause, s: Seen, q: nat)
    requires SeenIn(t, Seen({}, {}, {}, []), s, conflict, q)
    ensures Traced(t, top, conflict, s)
  {
  }

  lemma TracedTake(t: Trail, top: nat, conflict: Clause, s: Seen, s': Seen)
    requires Traced(t, top, conflict, s) && All(s') == All(s) && s'.done == s.done
    ensures Traced(t, top, conflict, s')
  {
  }

  /** A variable that is not alone may be resolved away. */
  lemma TracedDone(t: Trail, top: nat, conflict: Clause, s0: Seen, s: Seen, q: nat, u: nat)
    requires Traced(t, top, conflict, s0) && s0.next == {u} && Pos(t, u) == q && u in t.reason && t.reason[u].Some?
    requires (forall v :: v in s0.done ==> Pos(t, v) > q) && forall v :: v in s0.opens ==> OpenVar(t, top, q, v)
    requires SeenIn(t, s0, s, t.reason[u].value, q) && (top > 0 ==> s0.opens != {})
    ensures Traced(t, top, conflict, s.(done := s.done + {u}, next := {}))
  {
    hide OpenVar;
    var s' := s.(done := s.done + {u}, next := {});
    forall v | v in All(s') ensures Met(t, conflict, s'.done, v, v) {
      if v in All(s0) {
        MetMore(t, conflict, s0.done, s'.done, v, v);
      }
    }
    if top > 0 {
      var w :| w in s0.opens;
      MetBehind(t, conflict, s0.done, w, u);
      MetMore(t, conflict, s0.done, s'.done, w, u);
      forall v | v in s'.done ensures Accompanied(t, top, conflict, s'.done, v) {
        if v in s0.done {
          var x :| OpenVar(t, top, Pos(t, v), x) && Met(t, conflict, s0.done, x, v);
          MetMore(t, conflict, s0.done, s'.done, x, v);
        }
      }
    }
  }

  lemma MetMore(t: Trail, conflict: Clause, done: set<nat>, more: set<nat>, w: nat, v: nat)
    requires Met(t, conflict, done, w, v) && done <= more
    ensures Met(t, conflict, more, w, v)
  {
  }

  lemma MetBehind(t: Trail, conflict: Clause, done: set<nat>, w: nat, u: nat)
    requires Met(t, conflict, done, w, w) && forall v :: v in done ==> Pos(t, v) > Pos(t, u)
    ensures Met(t, conflict, done, w, u)
  {
  }

  lemma DoneBehind(t: Trail, cs: seq<Clause>, top: nat, mark: set<nat>, marked: seq<nat>, open: nat, s: Seen, q: nat,
                   q': nat)
    requires Marking(t, top, mark, marked, open, s, q) && q' < q && TrailOk(t, cs, top)
    ensures (forall v :: v in s.done ==> Pos(t, v) > q') && Pos(t, Abs(t.lits[q'])) == q'
  {
    forall v | v in s.done ensures Pos(t, v) > q' {
      assert DoneVar(t, top, q, v, All(s));
    }
    PosOf(t, q');
  }

  lemma OpensOpen(t: Trail, top: nat, mark: set<nat>, marked: seq<nat>, open: nat, s: Seen, q: nat)
    requires Marking(t, top, mark, marked, open, s, q)
    ensures open > 0 ==> s.opens != {}
    ensures forall v :: v in s.opens ==> OpenVar(t, top, q, v)
  {
  }

  class Kernel {
    var t: Trail
    var top: nat
    var mark: set<nat>
    var marked: seq<nat>
    var resolved: set<nat>
    var added: Clause
    var minlevel: nat
    var siglevels: set<nat>

    constructor (t: Trail, top: nat)
      ensures this.t == t && this.top == top && mark == {} && marked == [] && resolved == {} && added == []
    {
      this.t, this.top, mark, marked, resolved, added := t, top, {}, [], {}, [];
      minlevel, siglevels := top, {};
    }

    /** Mark one variable; those of the conflict level are only counted. */
    method MarkVar(u: nat, open: nat, ghost s: Seen, ghost q: nat) returns (open': nat, ghost s': Seen)
      requires Marking(t, top, mark, marked, open, s, q) && CanMark(t, top, q, u) && u !in mark
      requires Noted(t, top, marked, minlevel, siglevels)
      modifies this`mark, this`marked, this`minlevel, this`siglevels
      ensures Marking(t, top, mark, marked, open', s', q) && Noted(t, top, marked, minlevel, siglevels)
      ensures mark == old(mark) + {u} && SeenMore(s, s') && open' >= open
      ensures All(s') == All(s) + {u} && s'.done == s.done
    {
      hide Searching, Marking, Noted;
      open' := open;
      if t.level[u] == top {
        s' := OpenOne(t, top, mark, marked, open, s, q, u);
        mark, open' := mark + {u}, open + 1;
      } else {
        s' := LowOne(t, top, mark, marked, open, s, q, u);
        mark, marked := mark + {u}, marked + [u];
        if t.level[u] != 0 {
          if t.level[u] < minlevel {
            minlevel := t.level[u];
          }
          siglevels := siglevels + {t.level[u] % 32};
        }
        NotedMore(t, top, old(marked), old(minlevel), old(siglevels), u, minlevel, siglevels);
      }
    }

    /** Mark the variables of the false literals of `c`. */
    method MarkClause(c: Clause, open: nat, ghost s: Seen, ghost q: nat) returns (open': nat, ghost s': Seen)
      requires Marking(t, top, mark, marked, open, s, q) && Noted(t, top, marked, minlevel, siglevels)
      requires forall l :: l in c ==> True(t, l) || CanMark(t, top, q, Abs(l))
      modifies this`mark, this`marked, this`minlevel, this`siglevels
      ensures Marking(t, top, mark, marked, open', s', q) && SeenMore(s, s') && open' >= open
      ensures SeenIn(t, s, s', c, q) && Noted(t, top, marked, minlevel, siglevels)
      ensures forall l :: l in c && !True(t, l) ==> Abs(l) in mark
    {
      hide Marking, SeenMore, SeenIn, All, Noted;
      open', s' := open, s;
      SeenSame(t, s, c, q);
      for i := 0 to |c|
        invariant Marking(t, top, mark, marked, open', s', q) && SeenMore(s, s') && open' >= open
        invariant SeenIn(t, s, s', c, q) && Noted(t, top, marked, minlevel, siglevels)
        invariant forall k :: 0 <= k < i ==> True(t, c[k]) || Abs(c[k]) in mark
      {
        if !True(t, c[i]) && Abs(c[i]) !in mark {
          ghost var before := s';
          open', s' := MarkVar(Abs(c[i]), open', s', q);
          SeenThen(s, before, s');
          SeenInThen(t, s, before, s', c, i, q);
        }
      }
    }

    /** Walk down the trail to the next marked variable. */
    method NextMarked(q: nat) returns (uip: Option<nat>, q': nat)
      requires q <= |t.lits|
      ensures q' <= q && forall i :: q' <= i < q ==> (i == q' && uip.Some?) || Abs(t.lits[i]) !in mark
      ensures uip.None? ==> q' == 0
      ensures uip.Some? ==> q' < q && uip.value == Abs(t.lits[q']) && uip.value in mark
    {
      q' := q;
      while q' > 0
        invariant q' <= q && forall i :: q' <= i < q ==> Abs(t.lits[i]) !in mark
      {
        q' := q' - 1;
        if Abs(t.lits[q']) in mark {
          return Some(Abs(t.lits[q'])), q';
        }
      }
      uip := None;
    }

    /** Resolve the conflict backwards along the trail until one marked variable of its level is left. */
    method FirstUip(conflict: Clause, ghost cs: seq<Clause>) returns (uip: Option<nat>, ghost s: Seen)
      requires TrailOk(t, cs, top) && Falsified(t, conflict)
      requires top > 0 ==> exists l :: l in conflict && OnTop(t, top, l)
      requires mark == {} && marked == [] && minlevel == top && siglevels == {}
      modifies this`mark, this`marked, this`minlevel, this`siglevels
      ensures UipFound(t, top, conflict, uip, s) && s.low == marked && mark == Elems(marked)
      ensures FirstFound(t, top, conflict, uip, s) && Noted(t, top, s.low, minlevel, siglevels)
    {
      hide Noted, Marking, SeenMore, SeenIn, Traced, FirstFound, TrailOk, UipFound, Searching, Falsified, OnTop,
           CanMark, Within, All, OpenVar;
      var q: nat, open: nat := |t.lits|, 0;
      s := Seen({}, {}, {}, []);
      SearchStarts(t, cs, top, conflict);
      NotedStart(t, top);
      open, s := MarkClause(conflict, open, s, q);
      ConflictCovered(t, cs, top, conflict, mark, marked, open, s, q);
      TracedStart(t, top, conflict, s, q);
      while true
        invariant Marking(t, top, mark, marked, open, s, q) && q <= |t.lits| && s.next == {}
        invariant Within(conflict, All(s)) && (top > 0 ==> open > 0) && Traced(t, top, conflict, s)
        invariant Noted(t, top, marked, minlevel, siglevels)
        decreases q
      {
        ghost var q0 := q;
        uip, q := NextMarked(q);
        if uip.None? {
          NoneMarked(t, cs, top, conflict, mark, marked, open, s, q0);
          IsFirst(t, top, conflict, uip, s);
          return;
        }
        HighestIsOpen(t, cs, top, mark, marked, open, s, q0, q);
        DoneBehind(t, cs, top, mark, marked, open, s, q0, q);
        ghost var s0 := s;
        s := TakeNext(t, cs, top, conflict, mark, marked, open, s, q0, q);
        TracedTake(t, top, conflict, s0, s);
        ReasonCanMark(t, cs, top, q);
        mark, open := mark - {uip.value}, open - 1;
        var c := t.reason[uip.value];
        if (open == 0 && top > 0) || c.None? {
          UipIsAlone(t, cs, top, conflict, mark, marked, open, s, q, uip.value);
          IsFirst(t, top, conflict, uip, s);
          return;
        }
        ghost var before := s;
        OpensOpen(t, top, mark, marked, open, s, q);
        open, s := MarkClause(c.value, open, s, q);
        TracedDone(t, top, conflict, before, s, q, uip.value);
        s := ReasonCovered(t, cs, top, conflict, mark, marked, open, before, s, q, uip.value);
      }
    }

    // ----- minimisation -----

    /** Mark and stack the variables of `c` that are not marked yet. */
    method MarkReason(c: Clause, dfs: seq<nat>) returns (dfs': seq<nat>)
      requires Marks(t, top, mark, marked) && forall l :: l in c ==> LowVar(t, top, Abs(l))
      modifies this`mark, this`marked
      ensures Marks(t, top, mark, marked) && Within(c, mark) && old(mark) <= mark
      ensures Stacked(old(marked), marked, dfs, dfs', c)
    {
      hide LowVar, Stacked;
      dfs' := dfs;
      StackedNone(marked, dfs, c);
      for i := 0 to |c|
        invariant Marks(t, top, mark, marked) && old(mark) <= mark
        invariant forall k :: 0 <= k < i ==> Abs(c[k]) in mark
        invariant Stacked(old(marked), marked, dfs, dfs', c)
      {
        if Abs(c[i]) !in mark {
          assert c[i] in c;
          StackedMore(old(marked), marked, dfs, dfs', c, Abs(c[i]));
          mark := mark + {Abs(c[i])};
          marked, dfs' := marked + [Abs(c[i])], dfs' + [Abs(c[i])];
        }
      }
    }

    /** Take back all marks set after the first `n`. */
    method Unmark(n: nat)
      requires n <= |marked| && mark == Elems(marked) && NoRepeats(marked)
      modifies this`mark, this`marked
      ensures marked == old(marked[..n]) && mark == Elems(marked)
    {
      while |marked| > n
        invariant n <= |marked| && marked == old(marked)[..|marked|] && mark == Elems(marked) && NoRepeats(marked)
      {
        var m := marked[|marked| - 1];
        assert marked == marked[..|marked| - 1] + [m];
        assert old(marked)[..|marked|][..|marked| - 1] == old(marked)[..|marked| - 1];
        mark, marked := mark - {m}, marked[..|marked| - 1];
      }
    }

    /** May the search go on behind this variable? */
    method Blocked(u: nat, ghost low: seq<nat>) returns (b: bool)
      requires u in t.level && u in t.reason && Noted(t, top, low, minlevel, siglevels)
      ensures (b <==> Stops(t, low, u)) && (!b ==> t.reason[u].Some?)
    {
      hide Noted, Stops;
      NotedStops(t, top, low, minlevel, siglevels, u);
      var l := t.level[u];
      b := t.reason[u].None? || (l != 0 && (l < minlevel || l % 32 !in siglevels));
    }

    /** Depth first from one marked variable back through the reasons; all marks stay when only marked
        variables are reached in the end, none otherwise. */
    method TryResolve(start: nat, ghost orig: nat, ghost cs: seq<Clause>)
      requires TrailOk(t, cs, top) && Marks(t, top, mark, marked) && start in marked
      requires orig <= |marked| && ClosedFrom(t, marked, orig, {}) && Noted(t, top, marked[..orig], minlevel, siglevels)
      modifies this`mark, this`marked
      ensures Marks(t, top, mark, marked) && |old(marked)| <= |marked| && marked[..|old(marked)|] == old(marked)
      ensures ClosedFrom(t, marked, orig, {}) && Outcome(t, old(marked), marked, orig, start)
    {
      hide TrailOk, ClosedFrom, Marks, Noted, Stops, Visited, StackReached, Stacked, ForcedBy, Reached;
      MarksDistinct(t, top, mark, marked);
      var old' := |marked|;
      var dfs := [start];
      ghost var mark0, low := mark, marked[..orig];
      Widen(t, marked, orig, [start]);
      VisitedStart(t, low, marked, start);
      while dfs != []
        invariant Marks(t, top, mark, marked) && old' <= |marked| && marked[..old'] == old(marked)
        invariant Elems(dfs) <= Elems(marked) && ClosedFrom(t, marked, orig, Elems(dfs))
        invariant Visited(t, low, marked, old', start, Elems(dfs)) && StackReached(t, mark0, start, dfs)
        invariant mark0 == Elems(old(marked))
        decreases t.level.Keys - mark, |dfs|
      {
        var u := dfs[|dfs| - 1];
        MarkedKnown(t, cs, top, mark, marked, u);
        MarksDistinct(t, top, mark, marked);
        ghost var was, stack := marked, dfs;
        dfs := dfs[..|dfs| - 1];
        var blocked := Blocked(u, low);
        if blocked {
          Unmark(old');
          StuckNow(t, old(marked), orig, start, stack);
          return;
        }
        dfs := MarkReason(t.reason[u].value, dfs);
        MarksDistinct(t, top, mark, marked);
        ForcedNow(t, u, mark);
        VisitedMore(t, low, was, marked, old', start, stack, dfs, u);
        ReachedStack(t, mark0, start, was, marked, stack, dfs, u);
        ClosedMore(t, top, mark, was, marked, orig, stack, dfs, u);
      }
      assert Elems(dfs) == {};
      TryOutcome(t, old(marked), marked, orig, start);
    }

    /** Try to resolve away the marked variables one by one. */
    method Minimize(ghost cs: seq<Clause>)
      requires TrailOk(t, cs, top) && Marks(t, top, mark, marked) && Noted(t, top, marked, minlevel, siglevels)
      modifies this`mark, this`marked
      ensures Marks(t, top, mark, marked) && |old(marked)| <= |marked| && marked[..|old(marked)|] == old(marked)
      ensures ClosedFrom(t, marked, |old(marked)|, {}) && Tried(t, marked, |old(marked)|, |old(marked)|)
    {
      hide TrailOk, ClosedFrom, Marks, Noted, Tried, Outcome;
      var orig := |marked|;
      TriedNone(t, marked);
      for i := 0 to orig
        invariant Marks(t, top, mark, marked) && orig <= |marked| && marked[..orig] == old(marked)
        invariant ClosedFrom(t, marked, orig, {}) && Tried(t, marked, orig, i)
      {
        var start := marked[i];
        MarkedKnown(t, cs, top, mark, marked, start);
        ghost var was := marked;
        if t.reason[start].Some? {
          TryResolve(start, orig, cs);
          assert marked[..orig] == marked[..|was|][..orig];
        } else {
          DecisionStuck(t, marked, orig, start);
        }
        TriedMore(t, was, marked, orig, i);
      }
    }

    // ----- the learned clause -----

    /** Are all literals of a reason marked or of level zero? */
    method AllMarked(c: Clause) returns (b: bool)
      requires forall l :: l in c ==> Abs(l) in t.level
      ensures b <==> Covered(t, c, mark)
    {
      for i := 0 to |c|
        invariant Covered(t, c[..i], mark)
      {
        assert c[..i + 1] == c[..i] + [c[i]] && c[i] in c;
        if t.level[Abs(c[i])] != 0 && Abs(c[i]) !in mark {
          return false;
        }
      }
      assert c[..|c|] == c;
      return true;
    }

    /** Find the marked variables whose reasons are covered by marks. */
    method FindResolved(ghost cs: seq<Clause>)
      requires TrailOk(t, cs, top) && Marks(t, top, mark, marked) && resolved == {}
      modifies this`resolved
      ensures forall v :: v in resolved <==> v in marked && Redundant(t, v, mark)
    {
      hide TrailOk, Marks, Covered;
      for i := 0 to |marked|
        invariant forall v :: v in resolved <==> v in marked[..i] && Redundant(t, v, mark)
      {
        var v := marked[i];
        MarkedKnown(t, cs, top, mark, marked, v);
        assert marked[..i + 1] == marked[..i] + [v];
        if t.reason[v].Some? {
          MarkedLevels(t, cs, top, mark, marked, v);
          var covered := AllMarked(t.reason[v].value);
          if covered {
            resolved := resolved + {v};
          }
        }
      }
      assert marked[..|marked|] == marked;
    }

    /** Unmark everything; what is not resolved away goes into the clause. */
    method Collect()
      requires mark == Elems(marked) && NoRepeats(marked) && resolved <= mark
      modifies this`mark, this`marked, this`resolved, this`added
      ensures mark == {} && marked == [] && resolved == {}
      ensures added == old(added) + Remaining(t, old(marked), old(resolved))
    {
      ghost var r := resolved;
      for i := 0 to |marked|
        invariant marked == old(marked) && mark == Elems(marked[i..]) && resolved == r * Elems(marked[i..])
        invariant added == old(added) + Remaining(t, marked[..i], r)
      {
        var v := marked[i];
        assert marked[i..] == [v] + marked[i + 1..];
        assert v !in marked[i + 1..];
        assert marked[..i + 1][..i] == marked[..i] && marked[..i + 1][i] == v;
        mark := mark - {v};
        if v in resolved {
          resolved := resolved - {v};
        } else {
          added := added + [FalseLiteral(t, v)];
        }
      }
      assert marked[..|marked|] == marked;
      marked := [];
    }

    /** Learn a clause from a conflict: the false literal of the first UIP, and of the variables below its level
        those that minimisation leaves. */
    method Analyze(conflict: Clause, ghost cs: seq<Clause>) returns (ghost uip: Option<nat>, ghost s: Seen)
      requires TrailOk(t, cs, top) && Falsified(t, conflict) && Stored(cs, conflict)
      requires top > 0 ==> exists l :: l in conflict && OnTop(t, top, l)
      requires mark == {} && marked == [] && resolved == {} && added == []
      modifies this`mark, this`marked, this`minlevel, this`siglevels, this`resolved, this`added
      ensures mark == {} && marked == [] && resolved == {}
      ensures FirstFound(t, top, conflict, uip, s)
      ensures added == Head(t, uip) + Remaining(t, s.low, Removable(t, s.low))
      ensures Learned(t, top, cs, added)
      ensures top > 0 ==> Asserting(t, top, Head(t, uip) + Remaining(t, s.low, {}))
    {
      hide TrailOk, FirstFound, UipFound, Marks, ClosedFrom, Learned, Falsified, OnTop, Asserting, Remaining, Redundant,
           Noted, Tried, Removable;
      minlevel, siglevels := top, {};
      var found;
      found, s := FirstUip(conflict, cs);
      uip := found;
      UipMarks(t, top, conflict, uip, s);
      if found.Some? {
        added := added + [FalseLiteral(t, found.value)];
      }
      Minimize(cs);
      FindResolved(cs);
      MarksDistinct(t, top, mark, marked);
      ghost var m, r := marked, resolved;
      Collect();
      IsAnalyzed(t, cs, top, conflict, uip, s, m, r);
      LearnedIs(t, top, cs, conflict, uip, s, m, r);
      RemainingRemovable(t, cs, top, s.low, m, r);
    }

    // ----- backtracking -----

    /** The second highest level among the literals of the clause, or zero. */
    method Drive() returns (r: nat)
      requires forall l :: l in added ==> Abs(l) in t.level
      ensures forall l :: l in added ==> t.level[Abs(l)] <= r || Highest(t, added, l)
      ensures r == 0 || exists l :: l in added && t.level[Abs(l)] == r && !Highest(t, added, l)
    {
      var first: Option<int> := None;
      for i := 0 to |added|
        invariant first.None? ==> i == 0
        invariant first.Some? ==>
          first.value in added && forall k :: 0 <= k < i ==> t.level[Abs(added[k])] <= t.level[Abs(first.value)]
      {
        if first.None? || t.level[Abs(added[i])] > t.level[Abs(first.value)] {
          first := Some(added[i]);
        }
      }
      if first.None? {
        return 0;
      }
      var f := t.level[Abs(first.value)];
      var second: Option<int> := None;
      for i := 0 to |added|
        invariant second.Some? ==> second.value in added && t.level[Abs(second.value)] != f
        invariant forall k :: 0 <= k < i ==>
          t.level[Abs(added[k])] == f || (second.Some? && t.level[Abs(added[k])] <= t.level[Abs(second.value)])
      {
        if t.level[Abs(added[i])] != f && (second.None? || t.level[Abs(added[i])] > t.level[Abs(second.value)]) {
          second := Some(added[i]);
        }
      }
      assert Highest(t, added, first.value);
      if second.None? {
        return 0;
      }
      return t.level[Abs(second.value)];
    }
  }

  /** The marks in the phases after the search: variables of lower levels, each stacked once. */
  ghost predicate Marks(t: Trail, top: nat, mark: set<nat>, marked: seq<nat>) {
    mark == Elems(marked) && NoRepeats(marked) && forall v :: v in marked ==> LowVar(t, top, v)
  }

  ghost predicate ForcedBy(t: Trail, v: nat, vs: set<nat>) {
    v in t.reason && t.reason[v].Some? && Within(t.reason[v].value, vs)
  }

  /** All marked variables from index `n` on, but the pending ones, are forced by marked ones. */
  ghost predicate ClosedFrom(t: Trail, marked: seq<nat>, n: nat, pending: set<nat>) {
    forall k :: n <= k < |marked| ==> marked[k] in pending || ForcedBy(t, marked[k], Elems(marked))
  }

  lemma Widen(t: Trail, marked: seq<nat>, n: nat, dfs: seq<nat>)
    requires ClosedFrom(t, marked, n, {})
    ensures ClosedFrom(t, marked, n, Elems(dfs))
  {
  }

  lemma MarksDistinct(t: Trail, top: nat, mark: set<nat>, marked: seq<nat>)
    requires Marks(t, top, mark, marked)
    ensures mark == Elems(marked) && NoRepeats(marked)
  {
  }

  /** What a marked variable's reason looks like. */
  lemma MarkedKnown(t: Trail, cs: seq<Clause>, top: nat, mark: set<nat>, marked: seq<nat>, u: nat)
    requires TrailOk(t, cs, top) && Marks(t, top, mark, marked) && u in marked
    ensures u in t.level && u in t.reason
    ensures t.reason[u].Some? ==> forall l :: l in t.reason[u].value ==> LowVar(t, top, Abs(l))
  {
    assert LowVar(t, top, u);
    ReasonEarlier(t, cs, top, u);
    AssignedKnown(t, u);
    if t.reason[u].Some? {
      forall l | l in t.reason[u].value ensures LowVar(t, top, Abs(l)) {
        assert l != t.lits[Pos(t, u)] ==> Earlier(t, l, u);
      }
    }
  }

  lemma ClosedMore(t: Trail, top: nat, mark: set<nat>, was: seq<nat>, marked: seq<nat>, n: nat, stack: seq<nat>,
                   dfs: seq<nat>, u: nat)
    requires Marks(t, top, mark, marked) && stack != [] && u == stack[|stack| - 1] && Elems(stack) <= Elems(was)
    requires ClosedFrom(t, was, n, Elems(stack)) && ForcedBy(t, u, mark)
    requires Stacked(was, marked, stack[..|stack| - 1], dfs, t.reason[u].value)
    ensures ClosedFrom(t, marked, n, Elems(dfs)) && Elems(dfs) <= Elems(marked)
    ensures |was| <= |marked| && marked[..|was|] == was
    ensures t.level.Keys - mark < t.level.Keys - Elems(was) || (mark == Elems(was) && |dfs| < |stack|)
  {
    var more: seq<nat> :| marked == was + more && dfs == stack[..|stack| - 1] + more;
    assert stack == stack[..|stack| - 1] + [u];
    forall k | n <= k < |marked| ensures marked[k] in Elems(dfs) || ForcedBy(t, marked[k], Elems(marked)) {
      if k < |was| {
        assert was[k] == marked[k];
        assert ForcedBy(t, was[k], Elems(was)) ==> ForcedBy(t, marked[k], Elems(marked));
      } else {
        assert marked[k] == more[k - |was|];
      }
    }
    if more != [] {
      NewlyMarked(t, top, mark, was, marked);
    }
  }

  lemma NewlyMarked(t: Trail, top: nat, mark: set<nat>, was: seq<nat>, marked: seq<nat>)
    requires Marks(t, top, mark, marked) && was <= marked && |was| < |marked|
    ensures t.level.Keys - mark < t.level.Keys - Elems(was)
  {
    var v := marked[|was|];
    assert LowVar(t, top, v);
    assert v in t.level.Keys - Elems(was) && v !in t.level.Keys - mark;
  }

  /** A variable that the search may still meet. */
  ghost predicate CanMark(t: Trail, top: nat, q: nat, v: nat) {
    Assigned(t, v) && v in t.level && t.level[v] <= top && Pos(t, v) < q
  }

  ghost predicate OnTop(t: Trail, top: nat, l: int) {
    Abs(l) in t.level && t.level[Abs(l)] == top
  }

  // ----- what minimisation removes -----

  /** The levels noted during the search are those above zero of the marked variables below the conflict level. */
  ghost predicate Noted(t: Trail, top: nat, low: seq<nat>, minlevel: nat, siglevels: set<nat>) {
    && (forall v :: v in low ==> LowVar(t, top, v))
    && (forall v :: v in low && t.level[v] != 0 ==> minlevel <= t.level[v] && t.level[v] % 32 in siglevels)
    && (minlevel == top || exists v :: v in low && v in t.level && 0 != t.level[v] == minlevel)
    && (forall h :: h in siglevels ==> exists v :: v in low && v in t.level && t.level[v] != 0 && t.level[v] % 32 == h)
  }

  lemma NotedStart(t: Trail, top: nat)
    ensures Noted(t, top, [], top, {})
  {
  }

  /** Noting one more variable. */
  lemma NotedMore(t: Trail, top: nat, low: seq<nat>, minlevel: nat, siglevels: set<nat>, u: nat, minlevel': nat,
                  siglevels': set<nat>)
    requires Noted(t, top, low, minlevel, siglevels) && LowVar(t, top, u)
    requires if t.level[u] == 0 then minlevel' == minlevel && siglevels' == siglevels
      else minlevel' == (if t.level[u] < minlevel then t.level[u] else minlevel) &&
           siglevels' == siglevels + {t.level[u] % 32}
    ensures Noted(t, top, low + [u], minlevel', siglevels')
  {
    var more := low + [u];
    assert forall v :: v in more <==> v in low || v == u;
    hide LowVar;
    if minlevel' == minlevel != top {
      var v :| v in low && v in t.level && 0 != t.level[v] == minlevel;
      assert v in more;
    }
    forall h | h in siglevels'
      ensures exists v :: v in more && v in t.level && t.level[v] != 0 && t.level[v] % 32 == h
    {
      if h in siglevels {
        var v :| v in low && v in t.level && t.level[v] != 0 && t.level[v] % 32 == h;
        assert v in more;
      } else {
        assert u in more;
      }
    }
  }

  /** All of `low` above level zero are on higher levels. */
  ghost predicate BelowAll(t: Trail, low: seq<nat>, l: nat) {
    forall w :: w in low && w in t.level && t.level[w] != 0 ==> l < t.level[w]
  }

  /** Some variable of `low` above level zero has the same hash of its level. */
  ghost predicate Alike(t: Trail, low: seq<nat>, l: nat) {
    exists w :: w in low && w in t.level && t.level[w] != 0 && t.level[w] % 32 == l % 32
  }

  /** A variable behind which the search does not go on: a decision, or one of a level that cannot do. */
  ghost predicate Stops(t: Trail, low: seq<nat>, u: nat) {
    && u in t.level && u in t.reason
    && (t.reason[u].None? || (t.level[u] != 0 && (BelowAll(t, low, t.level[u]) || !Alike(t, low, t.level[u]))))
  }

  /** `w` occurs in the reason of `u`. */
  ghost predicate Behind(t: Trail, u: nat, w: nat) {
    u in t.reason && t.reason[u].Some? && Occurs(t.reason[u].value, w)
  }

  /** A path back through reasons that meets no mark after its first variable. */
  ghost predicate Path(t: Trail, mark: set<nat>, p: seq<nat>) {
    p != [] && forall k :: 0 < k < |p| ==> p[k] !in mark && Behind(t, p[k - 1], p[k])
  }

  ghost predicate Reached(t: Trail, mark: set<nat>, v: nat, w: nat) {
    exists p :: Path(t, mark, p) && p[0] == v && p[|p| - 1] == w
  }

  /** Some such path from `v` ends where the search stops. */
  ghost predicate Stuck(t: Trail, low: seq<nat>, mark: set<nat>, v: nat) {
    exists w :: Reached(t, mark, v, w) && Stops(t, low, w)
  }

  lemma NotedStops(t: Trail, top: nat, low: seq<nat>, minlevel: nat, siglevels: set<nat>, u: nat)
    requires Noted(t, top, low, minlevel, siglevels) && u in t.level && u in t.reason
    ensures Stops(t, low, u) <==>
      t.reason[u].None? || (t.level[u] != 0 && (t.level[u] < minlevel || t.level[u] % 32 !in siglevels))
  {
    var l := t.level[u];
    assert Alike(t, low, l) <==> l % 32 in siglevels;
    if Alike(t, low, l) {
      assert BelowAll(t, low, l) <==> l < minlevel;
    }
  }

  lemma ReachedItself(t: Trail, mark: set<nat>, v: nat)
    ensures Reached(t, mark, v, v)
  {
    assert Path(t, mark, [v]) && [v][0] == v;
  }

  lemma ReachedMore(t: Trail, mark: set<nat>, v: nat, u: nat, w: nat)
    requires Reached(t, mark, v, u) && Behind(t, u, w) && w !in mark
    ensures Reached(t, mark, v, w)
  {
    var p :| Path(t, mark, p) && p[0] == v && p[|p| - 1] == u;
    var q := p + [w];
    forall k | 0 < k < |q| ensures q[k] !in mark && Behind(t, q[k - 1], q[k]) {
      if k < |p| {
        assert p[k] !in mark && Behind(t, p[k - 1], p[k]);
      }
    }
    assert Path(t, mark, q) && q[0] == v && q[|q| - 1] == w;
  }

  /** Reached from `start` and neither pending nor without a way on. */
  ghost predicate Visited(t: Trail, low: seq<nat>, marked: seq<nat>, n: nat, start: nat, pending: set<nat>) {
    && Passed(t, low, marked, start, pending)
    && forall k :: n <= k < |marked| ==> Passed(t, low, marked, marked[k], pending)
  }

  ghost predicate Passed(t: Trail, low: seq<nat>, marked: seq<nat>, v: nat, pending: set<nat>) {
    v in pending || (ForcedBy(t, v, Elems(marked)) && !Stops(t, low, v))
  }

  /** What is on the stack was reached. */
  ghost predicate StackReached(t: Trail, mark: set<nat>, start: nat, stack: seq<nat>) {
    forall k :: 0 <= k < |stack| ==> Reached(t, mark, start, stack[k])
  }

  /** The stack grows by variables of a reason that were not marked. */
  ghost predicate Stacked(was: seq<nat>, marked: seq<nat>, stack: seq<nat>, dfs: seq<nat>, c: Clause) {
    exists more: seq<nat> ::
      marked == was + more && dfs == stack + more && forall v :: v in more ==> Occurs(c, v) && v !in was
  }

  lemma StackedNone(marked: seq<nat>, stack: seq<nat>, c: Clause)
    ensures Stacked(marked, marked, stack, stack, c)
  {
    var none: seq<nat> := [];
    assert marked == marked + none && stack == stack + none;
  }

  lemma StackedMore(was: seq<nat>, marked: seq<nat>, stack: seq<nat>, dfs: seq<nat>, c: Clause, v: nat)
    requires Stacked(was, marked, stack, dfs, c) && Occurs(c, v) && v !in marked
    ensures Stacked(was, marked + [v], stack, dfs + [v], c)
  {
    var more: seq<nat> :|
      marked == was + more && dfs == stack + more && forall v :: v in more ==> Occurs(c, v) && v !in was;
    assert marked + [v] == was + (more + [v]) && dfs + [v] == stack + (more + [v]);
  }

  lemma VisitedStart(t: Trail, low: seq<nat>, marked: seq<nat>, start: nat)
    ensures Visited(t, low, marked, |marked|, start, Elems([start])) && StackReached(t, Elems(marked), start, [start])
  {
    ReachedItself(t, Elems(marked), start);
  }

  lemma VisitedMore(t: Trail, low: seq<nat>, was: seq<nat>, marked: seq<nat>, n: nat, start: nat, stack: seq<nat>,
                    dfs: seq<nat>, u: nat)
    requires Visited(t, low, was, n, start, Elems(stack)) && stack != [] && u == stack[|stack| - 1]
    requires ForcedBy(t, u, Elems(marked)) && !Stops(t, low, u) && n <= |was|
    requires Stacked(was, marked, stack[..|stack| - 1], dfs, t.reason[u].value)
    ensures Visited(t, low, marked, n, start, Elems(dfs))
  {
    hide Stops;
    var more: seq<nat> :| marked == was + more && dfs == stack[..|stack| - 1] + more;
    PassedMore(t, low, was, marked, start, stack, dfs, u, more);
    forall k | n <= k < |marked| ensures Passed(t, low, marked, marked[k], Elems(dfs)) {
      if k < |was| {
        assert was[k] == marked[k];
        PassedMore(t, low, was, marked, was[k], stack, dfs, u, more);
      } else {
        assert marked[k] == more[k - |was|];
      }
    }
  }

  lemma PassedMore(t: Trail, low: seq<nat>, was: seq<nat>, marked: seq<nat>, v: nat, stack: seq<nat>, dfs: seq<nat>,
                   u: nat, more: seq<nat>)
    requires Passed(t, low, was, v, Elems(stack)) && stack != [] && u == stack[|stack| - 1]
    requires ForcedBy(t, u, Elems(marked)) && !Stops(t, low, u)
    requires marked == was + more && dfs == stack[..|stack| - 1] + more
    ensures Passed(t, low, marked, v, Elems(dfs))
  {
    hide Stops;
    assert stack == stack[..|stack| - 1] + [u];
  }

  lemma ReachedStack(t: Trail, mark: set<nat>, start: nat, was: seq<nat>, marked: seq<nat>, stack: seq<nat>,
                     dfs: seq<nat>, u: nat)
    requires StackReached(t, mark, start, stack) && stack != [] && u == stack[|stack| - 1] && mark <= Elems(was)
    requires u in t.reason && t.reason[u].Some?
    requires Stacked(was, marked, stack[..|stack| - 1], dfs, t.reason[u].value)
    ensures StackReached(t, mark, start, dfs)
  {
    hide Reached;
    var rest := stack[..|stack| - 1];
    var more: seq<nat> :| marked == was + more && dfs == rest + more &&
      forall v :: v in more ==> Occurs(t.reason[u].value, v) && v !in was;
    forall k | 0 <= k < |dfs| ensures Reached(t, mark, start, dfs[k]) {
      if k < |rest| {
        assert dfs[k] == stack[k];
      } else {
        assert dfs[k] == more[k - |rest|] && dfs[k] in more;
        ReachedMore(t, mark, start, u, dfs[k]);
      }
    }
  }

  lemma NewIndex(was: seq<nat>, marked: seq<nat>, v: nat)
    requires was <= marked && v in marked && v !in was
    ensures exists k :: |was| <= k < |marked| && marked[k] == v
  {
    assert forall k :: 0 <= k < |was| ==> was[k] == marked[k] && was[k] in was;
  }

  lemma NewMark(t: Trail, low: seq<nat>, was: seq<nat>, marked: seq<nat>, v: nat)
    requires was <= marked && v in marked && v !in was
    requires forall k :: |was| <= k < |marked| ==> ForcedBy(t, marked[k], Elems(marked)) && !Stops(t, low, marked[k])
    ensures !Stops(t, low, v) && forall w :: Behind(t, v, w) ==> w in marked
  {
    hide Stops;
    NewIndex(was, marked, v);
  }

  /** New marks that are forced and do not stop the search leave stuck what was stuck. */
  lemma StuckStays(t: Trail, low: seq<nat>, was: seq<nat>, marked: seq<nat>, v: nat)
    requires Stuck(t, low, Elems(was), v) && was <= marked
    requires forall k :: |was| <= k < |marked| ==> ForcedBy(t, marked[k], Elems(marked)) && !Stops(t, low, marked[k])
    ensures Stuck(t, low, Elems(marked), v)
  {
    hide Stops;
    var w :| Reached(t, Elems(was), v, w) && Stops(t, low, w);
    var p :| Path(t, Elems(was), p) && p[0] == v && p[|p| - 1] == w;
    var n := |p| - 1;
    while n > 0
      invariant 0 <= n < |p| && forall k :: n < k < |p| ==> p[k] !in marked
    {
      assert p[n] !in Elems(was) && (n + 1 < |p| ==> p[n + 1] !in Elems(was) && Behind(t, p[n], p[n + 1]));
      if p[n] in marked {
        NewMark(t, low, was, marked, p[n]);
      }
      n := n - 1;
    }
    assert Path(t, Elems(marked), p);
  }

  lemma StuckLess(t: Trail, low: seq<nat>, mark: set<nat>, more: set<nat>, v: nat)
    requires Stuck(t, low, more, v) && mark <= more
    ensures Stuck(t, low, mark, v)
  {
    hide Stops;
    var w :| Reached(t, more, v, w) && Stops(t, low, w);
    var p :| Path(t, more, p) && p[0] == v && p[|p| - 1] == w;
    assert Path(t, mark, p);
  }

  /** All marks after the first `n` were passed, and each of the first `i` is forced by marks or stuck. */
  ghost predicate Tried(t: Trail, marked: seq<nat>, n: nat, i: nat)
    requires i <= n <= |marked|
  {
    && (forall k :: n <= k < |marked| ==> !Stops(t, marked[..n], marked[k]))
    && (forall k :: 0 <= k < i ==> Judged(t, marked, n, marked[k]))
  }

  ghost predicate Judged(t: Trail, marked: seq<nat>, n: nat, v: nat)
    requires n <= |marked|
  {
    ForcedBy(t, v, Elems(marked)) || Stuck(t, marked[..n], Elems(marked), v)
  }

  /** The outcome of one search. */
  ghost predicate Outcome(t: Trail, was: seq<nat>, marked: seq<nat>, n: nat, start: nat)
    requires n <= |was|
  {
    if marked == was then Judged(t, was, n, start)
    else
      was <= marked && Visited(t, was[..n], marked, |was|, start, {})
  }

  lemma ForcedNow(t: Trail, u: nat, mark: set<nat>)
    requires u in t.reason && t.reason[u].Some? && Within(t.reason[u].value, mark)
    ensures ForcedBy(t, u, mark)
  {
  }

  lemma StuckNow(t: Trail, was: seq<nat>, n: nat, start: nat, stack: seq<nat>)
    requires n <= |was| && StackReached(t, Elems(was), start, stack) && stack != []
    requires Stops(t, was[..n], stack[|stack| - 1])
    ensures Outcome(t, was, was, n, start)
  {
    hide Stops, Reached;
  }

  /** Nothing lies behind a decision. */
  lemma DecisionStuck(t: Trail, marked: seq<nat>, n: nat, start: nat)
    requires n <= |marked| && start in t.level && start in t.reason && t.reason[start].None?
    ensures Outcome(t, marked, marked, n, start)
  {
    ReachedItself(t, Elems(marked), start);
    assert Stops(t, marked[..n], start);
  }

  lemma TriedNone(t: Trail, marked: seq<nat>)
    ensures Tried(t, marked, |marked|, 0) && ClosedFrom(t, marked, |marked|, {}) && marked[..|marked|] == marked
  {
  }

  lemma TryOutcome(t: Trail, was: seq<nat>, marked: seq<nat>, n: nat, start: nat)
    requires n <= |was| && was <= marked && Visited(t, was[..n], marked, |was|, start, {})
    ensures Outcome(t, was, marked, n, start)
  {
    hide Stops;
  }

  lemma TriedMore(t: Trail, was: seq<nat>, marked: seq<nat>, n: nat, i: nat)
    requires i < n <= |was| && Tried(t, was, n, i) && Outcome(t, was, marked, n, was[i])
    ensures n <= |marked| && Tried(t, marked, n, i + 1)
  {
    hide Stops, Stuck, ForcedBy;
    if marked != was {
      assert marked[..n] == was[..n];
      forall k | n <= k < |marked| ensures !Stops(t, marked[..n], marked[k]) {
        assert if k < |was| then marked[k] == was[k] else Passed(t, was[..n], marked, marked[k], {});
      }
      forall k | 0 <= k <= i ensures Judged(t, marked, n, marked[k]) {
        assert marked[k] == was[k];
        JudgedMore(t, was, marked, n, was[k], was[i]);
      }
    }
  }

  lemma JudgedMore(t: Trail, was: seq<nat>, marked: seq<nat>, n: nat, v: nat, start: nat)
    requires n <= |was| && was <= marked && Visited(t, was[..n], marked, |was|, start, {})
    requires v == start || Judged(t, was, n, v)
    ensures Judged(t, marked, n, v)
  {
    hide Stops, Stuck;
    assert marked[..n] == was[..n];
    if v != start && !ForcedBy(t, v, Elems(was)) {
      forall k | |was| <= k < |marked| ensures ForcedBy(t, marked[k], Elems(marked)) && !Stops(t, was[..n], marked[k]) {
        assert Passed(t, was[..n], marked, marked[k], {});
      }
      StuckStays(t, was[..n], was, marked, v);
    }
  }

  /** A variable below the conflict level is redundant after minimisation if and only if no path from it, back
      through reasons and past no other marked variable, ends where the search stops. */
  lemma RedundantIff(t: Trail, cs: seq<Clause>, top: nat, low: seq<nat>, m: seq<nat>, v: nat)
    requires TrailOk(t, cs, top) && Marks(t, top, Elems(m), m) && low <= m && v in low
    requires ClosedFrom(t, m, |low|, {}) && Tried(t, m, |low|, |low|)
    ensures Redundant(t, v, Elems(m)) <==> !Stuck(t, low, Elems(low), v)
  {
    hide Stops, Stuck, Marks, TrailOk, Redundant, ClosedFrom, ForcedBy;
    assert m[..|low|] == low;
    var k :| 0 <= k < |low| && low[k] == v;
    assert Judged(t, m, |low|, m[k]);
    if Stuck(t, low, Elems(m), v) {
      StuckLess(t, low, Elems(low), Elems(m), v);
    } else {
      ForcedRedundant(t, v, Elems(m));
    }
    if Redundant(t, v, Elems(m)) && Stuck(t, low, Elems(low), v) {
      RedundantNotStuck(t, cs, top, low, m, v);
      assert false;
    }
  }

  /** Assigned on level zero, or marked in the course of minimisation. */
  ghost predicate Free(t: Trail, low: seq<nat>, m: seq<nat>, v: nat) {
    (v in m && v !in low) || (Assigned(t, v) && v in t.level && t.level[v] == 0)
  }

  lemma RedundantNotStuck(t: Trail, cs: seq<Clause>, top: nat, low: seq<nat>, m: seq<nat>, v: nat)
    requires TrailOk(t, cs, top) && Marks(t, top, Elems(m), m) && low <= m && v in low
    requires ClosedFrom(t, m, |low|, {}) && Tried(t, m, |low|, |low|) && Redundant(t, v, Elems(m))
    ensures !Stuck(t, low, Elems(low), v)
  {
    hide Marks, TrailOk, ClosedFrom, Tried;
    assert m[..|low|] == low;
    forall w | Reached(t, Elems(low), v, w) ensures !Stops(t, low, w) {
      var p :| Path(t, Elems(low), p) && p[0] == v && p[|p| - 1] == w;
      for k := 1 to |p|
        invariant k > 1 ==> Free(t, low, m, p[k - 1])
      {
        assert Behind(t, p[k - 1], p[k]) && p[k] !in Elems(low);
        if k == 1 {
          FreeFirst(t, cs, top, low, m, v, p[1]);
        } else {
          FreeNext(t, cs, top, low, m, p[k - 1], p[k]);
        }
      }
      if |p| == 1 {
        MarkedGoesOn(t, top, low, m, v);
      } else {
        FreeGoesOn(t, cs, top, low, m, w);
      }
    }
  }

  lemma FreeFirst(t: Trail, cs: seq<Clause>, top: nat, low: seq<nat>, m: seq<nat>, v: nat, w: nat)
    requires TrailOk(t, cs, top) && Marks(t, top, Elems(m), m) && v in m && Redundant(t, v, Elems(m))
    requires Behind(t, v, w) && w !in low
    ensures Free(t, low, m, w)
  {
    hide TrailOk, Assigned;
    MarkedKnown(t, cs, top, Elems(m), m, v);
    var l :| l in t.reason[v].value && Abs(l) == w;
    assert LowVar(t, top, Abs(l));
  }

  lemma FreeNext(t: Trail, cs: seq<Clause>, top: nat, low: seq<nat>, m: seq<nat>, v: nat, w: nat)
    requires TrailOk(t, cs, top) && ClosedFrom(t, m, |low|, {}) && low <= m && Free(t, low, m, v)
    requires Behind(t, v, w) && w !in low
    ensures Free(t, low, m, w)
  {
    hide TrailOk, Assigned;
    var l :| l in t.reason[v].value && Abs(l) == w;
    if v in m && v !in low {
      NewIndex(low, m, v);
      assert ForcedBy(t, v, Elems(m));
    } else {
      ReasonEarlier(t, cs, top, v);
      OwnLiteral(t, v);
      assert l != t.lits[Pos(t, v)] ==> Earlier(t, l, v);
    }
  }

  lemma OwnLiteral(t: Trail, v: nat)
    requires Assigned(t, v)
    ensures Pos(t, v) < |t.lits| && Abs(t.lits[Pos(t, v)]) == v
  {
  }

  lemma MarkedGoesOn(t: Trail, top: nat, low: seq<nat>, m: seq<nat>, v: nat)
    requires v in low && Redundant(t, v, Elems(m))
    ensures !Stops(t, low, v)
  {
    if v in t.level && t.level[v] != 0 {
      assert !BelowAll(t, low, t.level[v]);
      assert Alike(t, low, t.level[v]);
    }
  }

  lemma FreeGoesOn(t: Trail, cs: seq<Clause>, top: nat, low: seq<nat>, m: seq<nat>, w: nat)
    requires TrailOk(t, cs, top) && low <= m && Tried(t, m, |low|, |low|) && Free(t, low, m, w)
    ensures !Stops(t, low, w)
  {
    hide TrailOk, Assigned;
    assert m[..|low|] == low;
    if w in m && w !in low {
      NewIndex(low, m, w);
    } else {
      ReasonEarlier(t, cs, top, w);
    }
  }

  /** Nothing seen is forgotten while a clause is marked. */
  ghost predicate SeenMore(s: Seen, s': Seen) {
    s.opens <= s'.opens && s.done == s'.done && s.next == s'.next && Elems(s.low) <= Elems(s'.low)
  }

  lemma SeenSame(t: Trail, s: Seen, c: Clause, q: nat)
    ensures SeenMore(s, s) && SeenIn(t, s, s, c, q)
  {
  }

  lemma SeenThen(s: Seen, s1: Seen, s2: Seen)
    requires SeenMore(s, s1) && SeenMore(s1, s2)
    ensures SeenMore(s, s2)
  {
  }

  lemma OpenOne(t: Trail, top: nat, mark: set<nat>, marked: seq<nat>, open: nat, s: Seen, q: nat, u: nat)
    returns (s': Seen)
    requires Marking(t, top, mark, marked, open, s, q) && OpenVar(t, top, q, u) && u !in mark
    ensures Marking(t, top, mark + {u}, marked, open + 1, s', q) && SeenMore(s, s') && All(s') == All(s) + {u}
  {
    hide Searching, OpenVar, All;
    s' := s.(opens := s.opens + {u});
    AllMore(s, u);
    OpenSearching(t, top, s, q, u);
  }

  lemma AllMore(s: Seen, u: nat)
    ensures All(s.(opens := s.opens + {u})) == All(s) + {u} && All(s.(low := s.low + [u])) == All(s) + {u}
    ensures Elems(s.low + [u]) == Elems(s.low) + {u}
  {
    assert Elems(s.low + [u]) == Elems(s.low) + {u};
  }

  lemma OpenSearching(t: Trail, top: nat, s: Seen, q: nat, u: nat)
    requires Searching(t, top, s, q) && OpenVar(t, top, q, u)
    ensures Searching(t, top, s.(opens := s.opens + {u}), q)
  {
    hide DoneVar, OpenVar, LowVar;
    var s' := s.(opens := s.opens + {u});
    WithinMore(t, top, q, s.done, All(s), All(s'));
  }

  lemma LowOne(t: Trail, top: nat, mark: set<nat>, marked: seq<nat>, open: nat, s: Seen, q: nat, u: nat)
    returns (s': Seen)
    requires Marking(t, top, mark, marked, open, s, q) && LowVar(t, top, u) && u !in mark
    ensures Marking(t, top, mark + {u}, marked + [u], open, s', q) && SeenMore(s, s')
    ensures All(s') == All(s) + {u}
  {
    hide Searching, LowVar, All;
    s' := s.(low := s.low + [u]);
    AllMore(s, u);
    LowSearching(t, top, s, q, u);
  }

  lemma LowSearching(t: Trail, top: nat, s: Seen, q: nat, u: nat)
    requires Searching(t, top, s, q) && LowVar(t, top, u) && u !in s.low
    ensures Searching(t, top, s.(low := s.low + [u]), q)
  {
    hide DoneVar, OpenVar, LowVar;
    var s' := s.(low := s.low + [u]);
    WithinMore(t, top, q, s.done, All(s), All(s'));
  }

  lemma WithinMore(t: Trail, top: nat, q: nat, done: set<nat>, seen: set<nat>, more: set<nat>)
    requires forall v :: v in done ==> DoneVar(t, top, q, v, seen)
    requires seen <= more
    ensures forall v :: v in done ==> DoneVar(t, top, q, v, more)
  {
  }

  /** The first UIP of a conflict: together with variables of lower levels it forces all that was resolved
      away, and the conflict. On level zero nothing is left. */
  ghost predicate UipFound(t: Trail, top: nat, conflict: Clause, uip: Option<nat>, s: Seen) {
    && s.opens == {} && Within(conflict, All(s)) && NoRepeats(s.low)
    && (forall v :: v in s.low ==> LowVar(t, top, v))
    && (forall v :: v in s.done ==> DoneVar(t, top, 0, v, All(s)))
    && match uip
       case None => top == 0 && s.next == {} && s.low == []
       case Some(u) => top > 0 && s.next == {u} && Assigned(t, u) && u in t.level && t.level[u] == top
  }

  /** The first UIP: everything resolved away stands behind it and was not alone on the level. */
  ghost predicate FirstFound(t: Trail, top: nat, conflict: Clause, uip: Option<nat>, s: Seen) {
    && UipFound(t, top, conflict, uip, s) && Traced(t, top, conflict, s)
    && (uip.Some? ==> forall v :: v in s.done ==> Pos(t, v) > Pos(t, uip.value))
  }

  lemma IsFirst(t: Trail, top: nat, conflict: Clause, uip: Option<nat>, s: Seen)
    requires UipFound(t, top, conflict, uip, s) && Traced(t, top, conflict, s)
    requires uip.Some? ==> forall v :: v in s.done ==> Pos(t, v) > Pos(t, uip.value)
    ensures FirstFound(t, top, conflict, uip, s)
  {
  }

  /** A conflict has one first UIP: it determines what is resolved away and what is left. */
  lemma FirstUipUnique(t: Trail, top: nat, conflict: Clause, uip1: Option<nat>, s1: Seen, uip2: Option<nat>, s2: Seen)
    requires FirstFound(t, top, conflict, uip1, s1) && FirstFound(t, top, conflict, uip2, s2)
    ensures uip1 == uip2 && s1.done == s2.done && Elems(s1.low) == Elems(s2.low)
  {
    hide FirstFound;
    forall v ensures v in s1.done <==> v in s2.done {
      if v in s1.done {
        DoneAgree(t, top, conflict, uip1, s1, uip2, s2, v);
      }
      if v in s2.done {
        DoneAgree(t, top, conflict, uip2, s2, uip1, s1, v);
      }
    }
    RestAgrees(t, top, conflict, uip1, s1, uip2, s2);
    RestAgrees(t, top, conflict, uip2, s2, uip1, s1);
  }

  lemma RestAgrees(t: Trail, top: nat, conflict: Clause, uip1: Option<nat>, s1: Seen, uip2: Option<nat>, s2: Seen)
    requires FirstFound(t, top, conflict, uip1, s1) && FirstFound(t, top, conflict, uip2, s2) && s1.done == s2.done
    ensures Elems(s1.low) <= Elems(s2.low) && (uip1.Some? ==> uip2 == uip1)
  {
    hide Accompanied;
    forall v | v in All(s1) ensures v in All(s2) {
      assert Met(t, conflict, s1.done, v, v);
      MetSeen(t, top, conflict, uip2, s2, v, v);
    }
  }

  lemma MetSeen(t: Trail, top: nat, conflict: Clause, uip: Option<nat>, s: Seen, w: nat, v: nat)
    requires UipFound(t, top, conflict, uip, s) && Met(t, conflict, s.done, w, v)
    ensures w in All(s)
  {
    if !Occurs(conflict, w) {
      var d :| d in s.done && Pos(t, d) > Pos(t, v) && d in t.reason && t.reason[d].Some? &&
        Occurs(t.reason[d].value, w);
      assert DoneVar(t, top, 0, d, All(s));
    }
  }

  lemma {:induction false} DoneAgree(t: Trail, top: nat, conflict: Clause, uip1: Option<nat>, s1: Seen,
                                     uip2: Option<nat>, s2: Seen, v: nat)
    requires FirstFound(t, top, conflict, uip1, s1) && FirstFound(t, top, conflict, uip2, s2) && v in s1.done
    ensures v in s2.done
    decreases |t.lits| - Pos(t, v)
  {
    hide Met, Accompanied, Occurs;
    assert DoneVar(t, top, 0, v, All(s1));
    forall d | d in s1.done && Pos(t, d) > Pos(t, v) ensures d in s2.done {
      DoneAgree(t, top, conflict, uip1, s1, uip2, s2, d);
    }
    MetAgree(t, conflict, s1.done, s2.done, v, v);
    MetSeen(t, top, conflict, uip2, s2, v, v);
    if top > 0 {
      var w := Companion(t, top, conflict, s1.done, v);
      MetAgree(t, conflict, s1.done, s2.done, w, v);
      MetSeen(t, top, conflict, uip2, s2, w, v);
    }
  }

  lemma Companion(t: Trail, top: nat, conflict: Clause, done: set<nat>, v: nat) returns (w: nat)
    requires Accompanied(t, top, conflict, done, v)
    ensures OpenVar(t, top, Pos(t, v), w) && Met(t, conflict, done, w, v)
  {
    w :| OpenVar(t, top, Pos(t, v), w) && Met(t, conflict, done, w, v);
  }

  lemma MetAgree(t: Trail, conflict: Clause, done1: set<nat>, done2: set<nat>, w: nat, v: nat)
    requires Met(t, conflict, done1, w, v) && forall d :: d in done1 && Pos(t, d) > Pos(t, v) ==> d in done2
    ensures Met(t, conflict, done2, w, v)
  {
  }

  lemma SearchStarts(t: Trail, cs: seq<Clause>, top: nat, conflict: Clause)
    requires TrailOk(t, cs, top) && Falsified(t, conflict)
    ensures Marking(t, top, {}, [], 0, Seen({}, {}, {}, []), |t.lits|)
    ensures forall l :: l in conflict ==> CanMark(t, top, |t.lits|, Abs(l))
  {
    forall l | l in conflict ensures CanMark(t, top, |t.lits|, Abs(l)) {
      FalseAssigned(t, l);
      AssignedKnown(t, Abs(l));
    }
  }

  lemma ConflictCovered(t: Trail, cs: seq<Clause>, top: nat, conflict: Clause, mark: set<nat>, marked: seq<nat>,
                        open: nat, s: Seen, q: nat)
    requires Marking(t, top, mark, marked, open, s, q) && TrailOk(t, cs, top) && Falsified(t, conflict)
    requires SeenMore(Seen({}, {}, {}, []), s) && forall l :: l in conflict && !True(t, l) ==> Abs(l) in mark
    requires top > 0 ==> exists l :: l in conflict && OnTop(t, top, l)
    ensures Within(conflict, All(s)) && s.next == {} && (top > 0 ==> open > 0)
  {
    forall l | l in conflict ensures Abs(l) in mark {
      FalseAssigned(t, l);
    }
    if top > 0 {
      var l :| l in conflict && OnTop(t, top, l);
      assert Abs(l) in s.opens;
    }
  }

  lemma NoneMarked(t: Trail, cs: seq<Clause>, top: nat, conflict: Clause, mark: set<nat>, marked: seq<nat>, open: nat,
                   s: Seen, q: nat)
    requires Marking(t, top, mark, marked, open, s, q) && TrailOk(t, cs, top) && s.next == {}
    requires Within(conflict, All(s)) && (top > 0 ==> open > 0)
    requires forall i :: 0 <= i < q ==> Abs(t.lits[i]) !in mark
    ensures UipFound(t, top, conflict, None, s) && s.low == marked && mark == Elems(marked)
  {
    if s.opens != {} {
      OpenMet(t, top, mark, marked, open, s, q);
    }
    if s.low != [] {
      LowBelowTop(t, top, s.low);
    }
  }

  lemma OpenMet(t: Trail, top: nat, mark: set<nat>, marked: seq<nat>, open: nat, s: Seen, q: nat)
    requires Marking(t, top, mark, marked, open, s, q) && s.opens != {} && Consistent(t)
    ensures exists i :: 0 <= i < q && Abs(t.lits[i]) in mark && LevelAt(t, i) == top
  {
    var v :| v in s.opens;
    assert OpenVar(t, top, q, v);
    AssignedKnown(t, v);
    assert Abs(t.lits[Pos(t, v)]) in mark;
  }

  lemma MarksAre(t: Trail, top: nat, mark: set<nat>, marked: seq<nat>, open: nat, s: Seen, q: nat)
    requires Marking(t, top, mark, marked, open, s, q)
    ensures q <= |t.lits| && mark == s.opens + Elems(s.low) && open == |s.opens|
    ensures forall v :: v in s.low ==> LowVar(t, top, v)
  {
  }

  lemma LowBelowTop(t: Trail, top: nat, low: seq<nat>)
    requires low != [] && forall v :: v in low ==> LowVar(t, top, v)
    ensures top > 0
  {
    assert LowVar(t, top, low[0]);
  }

  /** The first marked variable on the way down is of the conflict level. */
  lemma HighestIsOpen(t: Trail, cs: seq<Clause>, top: nat, mark: set<nat>, marked: seq<nat>, open: nat, s: Seen, q: nat,
                      q': nat)
    requires Marking(t, top, mark, marked, open, s, q) && TrailOk(t, cs, top) && (top > 0 ==> open > 0)
    requires q' < q && Abs(t.lits[q']) in mark && forall i :: q' < i < q ==> Abs(t.lits[i]) !in mark
    ensures Abs(t.lits[q']) in s.opens && open > 0
  {
    hide Marking, Searching, All;
    MarksAre(t, top, mark, marked, open, s, q);
    PosOf(t, q');
    if s.opens != {} {
      OpenMet(t, top, mark, marked, open, s, q);
      var i :| 0 <= i < q && Abs(t.lits[i]) in mark && LevelAt(t, i) == top;
      assert LevelAt(t, i) <= LevelAt(t, q');
    }
    assert !LowVar(t, top, Abs(t.lits[q']));
  }

  /** Take the variable at position `q'` out of the open ones. */
  lemma TakeNext(t: Trail, cs: seq<Clause>, top: nat, conflict: Clause, mark: set<nat>, marked: seq<nat>, open: nat,
                 s: Seen, q: nat, q': nat)
      returns (s': Seen)
    requires Marking(t, top, mark, marked, open, s, q) && TrailOk(t, cs, top) && s.next == {}
    requires Within(conflict, All(s))
    requires q' < q && Abs(t.lits[q']) in s.opens && forall i :: q' < i < q ==> Abs(t.lits[i]) !in mark
    ensures var u := Abs(t.lits[q']);
      && s' == s.(opens := s.opens - {u}, next := {u}) && Marking(t, top, mark - {u}, marked, open - 1, s', q')
      && Within(conflict, All(s')) && All(s') == All(s)
  {
    hide TrailOk, Searching;
    OpensAtMost(t, cs, top, mark, s, q, q');
    s' := SearchingTakes(t, cs, top, s, q, q');
  }

  lemma OpensAtMost(t: Trail, cs: seq<Clause>, top: nat, mark: set<nat>, s: Seen, q: nat, q': nat)
    requires Searching(t, top, s, q) && TrailOk(t, cs, top) && q' < q && s.opens <= mark
    requires forall i :: q' < i < q ==> Abs(t.lits[i]) !in mark
    ensures forall v :: v in s.opens ==> Pos(t, v) <= q'
  {
    forall v | v in s.opens ensures Pos(t, v) <= q' {
      assert OpenVar(t, top, q, v);
      assert Abs(t.lits[Pos(t, v)]) in mark;
    }
  }

  lemma SearchingTakes(t: Trail, cs: seq<Clause>, top: nat, s: Seen, q: nat, q': nat) returns (s': Seen)
    requires Searching(t, top, s, q) && TrailOk(t, cs, top) && s.next == {} && q' < q && Abs(t.lits[q']) in s.opens
    requires forall v :: v in s.opens ==> Pos(t, v) <= q'
    ensures s' == s.(opens := s.opens - {Abs(t.lits[q'])}, next := {Abs(t.lits[q'])})
    ensures Searching(t, top, s', q') && All(s') == All(s) && Abs(t.lits[q']) !in s.low
  {
    hide Levelled, ReasonOk;
    var u := Abs(t.lits[q']);
    PosOf(t, q');
    s' := s.(opens := s.opens - {u}, next := {u});
    assert OpenVar(t, top, q, u);
    forall v | v in s'.opens ensures OpenVar(t, top, q', v) {
      assert OpenVar(t, top, q, v);
    }
    forall v | v in s.done ensures DoneVar(t, top, q', v, All(s')) {
      assert DoneVar(t, top, q, v, All(s));
    }
  }

  /** The false literals of a reason stand before the literal it forces. */
  lemma ReasonCanMark(t: Trail, cs: seq<Clause>, top: nat, q: nat)
    requires TrailOk(t, cs, top) && q < |t.lits|
    ensures var u := Abs(t.lits[q]);
      && u in t.reason
      && (t.reason[u].Some? ==> forall l :: l in t.reason[u].value ==> True(t, l) || CanMark(t, top, q, Abs(l)))
  {
    var u := Abs(t.lits[q]);
    PosOf(t, q);
    ReasonEarlier(t, cs, top, u);
    if t.reason[u].Some? {
      forall l | l in t.reason[u].value ensures True(t, l) || CanMark(t, top, q, Abs(l)) {
        assert LevelAt(t, q) <= top;
        assert l != t.lits[q] ==> Earlier(t, l, u);
      }
    }
  }

  lemma UipIsAlone(t: Trail, cs: seq<Clause>, top: nat, conflict: Clause, mark: set<nat>, marked: seq<nat>, open: nat,
                   s: Seen, q: nat, u: nat)
    requires Marking(t, top, mark, marked, open, s, q) && TrailOk(t, cs, top) && s.next == {u}
    requires Within(conflict, All(s))
    requires u in t.reason && ((open == 0 && top > 0) || t.reason[u].None?)
    ensures UipFound(t, top, conflict, Some(u), s) && s.low == marked && mark == Elems(marked)
  {
    hide TrailOk, Searching;
    SearchEnds(t, cs, top, s, q, u);
    if s.opens != {} {
      OpenMet(t, top, mark, marked, open, s, q);
      OpenNeedsReason(t, cs, top, u, q);
    }
  }

  lemma SearchEnds(t: Trail, cs: seq<Clause>, top: nat, s: Seen, q: nat, u: nat)
    requires Searching(t, top, s, q) && TrailOk(t, cs, top) && s.next == {u}
    ensures Consistent(t) && NoRepeats(s.low) && forall v :: v in s.low ==> LowVar(t, top, v)
    ensures forall v :: v in s.done ==> DoneVar(t, top, 0, v, All(s))
    ensures Assigned(t, u) && Pos(t, u) == q && u in t.level && t.level[u] == top
    ensures t.reason[u].None? ==> top > 0
  {
    assert ReasonOk(t, cs, q);
    forall v | v in s.done ensures DoneVar(t, top, 0, v, All(s)) {
      assert DoneVar(t, top, q, v, All(s));
    }
  }

  /** A decision is the first of its level. */
  lemma OpenNeedsReason(t: Trail, cs: seq<Clause>, top: nat, u: nat, q: nat)
    requires TrailOk(t, cs, top) && Assigned(t, u) && u in t.level && t.level[u] == top && Pos(t, u) == q
    requires exists i :: 0 <= i < q && LevelAt(t, i) == top
    ensures u in t.reason && t.reason[u].Some?
  {
    assert ReasonOk(t, cs, q);
  }

  /** Once its reason is marked, the variable is resolved away. */
  lemma ReasonCovered(t: Trail, cs: seq<Clause>, top: nat, conflict: Clause, mark: set<nat>, marked: seq<nat>,
                      open: nat, before: Seen, s: Seen, q: nat, u: nat) returns (s': Seen)
    requires Marking(t, top, mark, marked, open, s, q) && TrailOk(t, cs, top) && Within(conflict, All(before))
    requires SeenMore(before, s) && before.next == {u} && u in t.reason && t.reason[u].Some?
    requires forall l :: l in t.reason[u].value && !True(t, l) ==> Abs(l) in mark
    ensures s' == s.(done := s.done + {u}, next := {}) && Marking(t, top, mark, marked, open, s', q)
    ensures Within(conflict, All(s'))
  {
    hide TrailOk, Searching;
    SearchEnds(t, cs, top, s, q, u);
    ReasonSeen(t, cs, top, u, mark, All(s));
    s' := NextDone(t, top, s, q, u);
    assert All(before) <= All(s);
  }

  lemma NextDone(t: Trail, top: nat, s: Seen, q: nat, u: nat) returns (s': Seen)
    requires Searching(t, top, s, q) && s.next == {u} && u in t.reason && t.reason[u].Some?
    requires Within(t.reason[u].value, All(s))
    ensures s' == s.(done := s.done + {u}, next := {}) && Searching(t, top, s', q) && All(s') == All(s)
  {
    s' := s.(done := s.done + {u}, next := {});
    assert All(s') == All(s);
  }

  lemma ReasonSeen(t: Trail, cs: seq<Clause>, top: nat, u: nat, mark: set<nat>, seen: set<nat>)
    requires TrailOk(t, cs, top) && Assigned(t, u) && u in t.reason && t.reason[u].Some? && mark <= seen && u in seen
    requires forall l :: l in t.reason[u].value && !True(t, l) ==> Abs(l) in mark
    ensures Within(t.reason[u].value, seen)
  {
    ReasonEarlier(t, cs, top, u);
    forall l | l in t.reason[u].value ensures Abs(l) in seen {
      if l != t.lits[Pos(t, u)] {
        assert Earlier(t, l, u);
        FalseAssigned(t, l);
      }
    }
  }

  // ----- what the learned clause is -----

  function FalseLiteral(t: Trail, v: nat): int {
    if True(t, v) then -(v as int) else v
  }

  ghost predicate Covered(t: Trail, c: Clause, mark: set<nat>) {
    forall l :: l in c ==> Abs(l) in mark || (Abs(l) in t.level && t.level[Abs(l)] == 0)
  }

  /** A marked variable that marked and level-zero variables force. */
  ghost predicate Redundant(t: Trail, v: nat, mark: set<nat>) {
    v in t.reason && t.reason[v].Some? && Covered(t, t.reason[v].value, mark)
  }

  lemma MarkedLevels(t: Trail, cs: seq<Clause>, top: nat, mark: set<nat>, marked: seq<nat>, u: nat)
    requires TrailOk(t, cs, top) && Marks(t, top, mark, marked) && u in marked && u in t.reason && t.reason[u].Some?
    ensures forall l :: l in t.reason[u].value ==> Abs(l) in t.level
  {
    MarkedKnown(t, cs, top, mark, marked, u);
  }

  /** The false literals of the variables that are not resolved away. */
  function Remaining(t: Trail, marked: seq<nat>, resolved: set<nat>): Clause {
    if marked == [] then []
    else
      var n := |marked| - 1;
      Remaining(t, marked[..n], resolved) + if marked[n] in resolved then [] else [FalseLiteral(t, marked[n])]
  }

  lemma {:induction false} RemainingIs(t: Trail, marked: seq<nat>, resolved: set<nat>)
    ensures forall v :: v in marked && v !in resolved ==> FalseLiteral(t, v) in Remaining(t, marked, resolved)
    ensures forall l :: l in Remaining(t, marked, resolved) ==>
      Abs(l) in marked && Abs(l) !in resolved && l == FalseLiteral(t, Abs(l))
    decreases |marked|
  {
    if marked != [] {
      var n := |marked| - 1;
      assert marked == marked[..n] + [marked[n]];
      RemainingIs(t, marked[..n], resolved);
    }
  }

  /** Falsified, with the first literal alone on the conflict level and none on level zero. */
  ghost predicate Asserting(t: Trail, top: nat, c: Clause) {
    && |c| > 0 && Falsified(t, c) && OnTop(t, top, c[0])
    && forall k :: 1 <= k < |c| ==> Abs(c[k]) in t.level && t.level[Abs(c[k])] < top
  }

  ghost predicate NotOnZero(t: Trail, c: Clause) {
    forall l :: l in c ==> Abs(l) in t.level && t.level[Abs(l)] > 0
  }

  lemma {:induction false} RemainingDistinct(t: Trail, marked: seq<nat>, resolved: set<nat>)
    requires NoRepeats(marked)
    ensures NoRepeats(Remaining(t, marked, resolved))
    decreases |marked|
  {
    if marked != [] {
      var n := |marked| - 1;
      var rest := Remaining(t, marked[..n], resolved);
      RemainingDistinct(t, marked[..n], resolved);
      RemainingIs(t, marked[..n], resolved);
      assert marked[n] !in marked[..n] && Abs(FalseLiteral(t, marked[n])) == marked[n];
      assert forall i :: 0 <= i < |rest| ==> rest[i] in rest;
    }
  }

  lemma AddedDistinct(t: Trail, top: nat, u: nat, rest: Clause)
    requires Assigned(t, u) && u in t.level && t.level[u] == top && NoRepeats(rest)
    requires forall l :: l in rest ==> LowLiteral(t, top, l)
    ensures NoRepeats([FalseLiteral(t, u)] + rest)
  {
    FalseLiteralFalse(t, u);
    assert FalseLiteral(t, u) !in rest;
  }

  ghost predicate Implied(cs: seq<Clause>, c: Clause) {
    forall a: Assignment :: ClausesTrue(a, cs) ==> ClauseTrue(a, c)
  }

  /** What analysis promises: the clause follows from the others, and asserts one literal once its level is
      undone; from level zero the empty clause follows. */
  ghost predicate Learned(t: Trail, top: nat, cs: seq<Clause>, c: Clause) {
    && Implied(cs, c) && NotOnZero(t, c) && NoRepeats(c)
    && if top == 0 then c == [] else Asserting(t, top, c)
  }

  lemma UipMarks(t: Trail, top: nat, conflict: Clause, uip: Option<nat>, s: Seen)
    requires UipFound(t, top, conflict, uip, s)
    ensures Marks(t, top, Elems(s.low), s.low)
  {
  }

  /** The false literal of the variable that the search for the first UIP ends with. */
  ghost function Head(t: Trail, uip: Option<nat>): Clause {
    if uip.Some? then [FalseLiteral(t, uip.value)] else []
  }

  /** The variables that minimisation removes. */
  ghost function Removable(t: Trail, low: seq<nat>): set<nat> {
    set v | v in low && !Stuck(t, low, Elems(low), v)
  }

  /** The state of the analysis once everything marked is either redundant or stays. */
  ghost predicate Analyzed(t: Trail, top: nat, conflict: Clause, uip: Option<nat>, s: Seen, m: seq<nat>, r: set<nat>) {
    && UipFound(t, top, conflict, uip, s) && Marks(t, top, Elems(m), m)
    && s.low <= m && ClosedFrom(t, m, |s.low|, {})
    && (forall v :: v in r <==> v in m && Redundant(t, v, Elems(m)))
  }

  lemma IsAnalyzed(t: Trail, cs: seq<Clause>, top: nat, conflict: Clause, uip: Option<nat>, s: Seen, m: seq<nat>,
                   r: set<nat>)
    requires FirstFound(t, top, conflict, uip, s) && Marks(t, top, Elems(m), m)
    requires |s.low| <= |m| && m[..|s.low|] == s.low && ClosedFrom(t, m, |s.low|, {})
    requires forall v :: v in r <==> v in m && Redundant(t, v, Elems(m))
    ensures Analyzed(t, top, conflict, uip, s, m, r)
  {
    hide Marks, ClosedFrom, Redundant, Traced;
  }

  /** Of the marked variables those stay that are below the conflict level and not removable. */
  lemma RemainingRemovable(t: Trail, cs: seq<Clause>, top: nat, low: seq<nat>, m: seq<nat>, r: set<nat>)
    requires TrailOk(t, cs, top) && Marks(t, top, Elems(m), m) && low <= m
    requires ClosedFrom(t, m, |low|, {}) && Tried(t, m, |low|, |low|)
    requires forall v :: v in r <==> v in m && Redundant(t, v, Elems(m))
    ensures Remaining(t, m, r) == Remaining(t, low, Removable(t, low))
  {
    hide TrailOk, Marks, Tried, Redundant, Remaining, Stuck;
    assert m[..|low|] == low;
    forall k | |low| <= k < |m| ensures m[k] in r {
      assert ForcedBy(t, m[k], Elems(m));
      ForcedRedundant(t, m[k], Elems(m));
    }
    RemainingPrefix(t, m, r, |low|);
    forall v | v in low ensures v in r <==> v in Removable(t, low) {
      RedundantIff(t, cs, top, low, m, v);
    }
    RemainingSame(t, low, r, Removable(t, low));
  }

  lemma {:induction false} RemainingPrefix(t: Trail, m: seq<nat>, r: set<nat>, n: nat)
    requires n <= |m| && forall k :: n <= k < |m| ==> m[k] in r
    ensures Remaining(t, m, r) == Remaining(t, m[..n], r)
    decreases |m|
  {
    if n < |m| {
      var rest := m[..|m| - 1];
      RemainingPrefix(t, rest, r, n);
      assert rest[..n] == m[..n];
    } else {
      assert m[..n] == m;
    }
  }

  lemma {:induction false} RemainingSame(t: Trail, low: seq<nat>, r: set<nat>, r': set<nat>)
    requires forall v :: v in low ==> (v in r <==> v in r')
    ensures Remaining(t, low, r) == Remaining(t, low, r')
    decreases |low|
  {
    if low != [] {
      var n := |low| - 1;
      assert low == low[..n] + [low[n]];
      RemainingSame(t, low[..n], r, r');
    }
  }

  /** Every variable seen agrees with a model of the clauses that falsifies what was learned. */
  lemma SeenAgree(t: Trail, top: nat, cs: seq<Clause>, a: Assignment, conflict: Clause, uip: Option<nat>, s: Seen,
                  m: seq<nat>, r: set<nat>, v: nat)
    requires TrailOk(t, cs, top) && Analyzed(t, top, conflict, uip, s, m, r) && ClausesTrue(a, cs)
    requires forall l :: l in Head(t, uip) + Remaining(t, m, r) ==> !LitTrue(a, l)
    requires v in All(s) + Elems(m)
    ensures Agrees(t, a, v)
  {
    var vs := All(s) + Elems(m);
    forall u | u in vs ensures Assigned(t, u) && (Agrees(t, a, u) || ForcedWithin(t, u, vs)) {
      if u in s.next {
        FalseLiteralAgrees(t, a, u);
      } else if u in m {
        assert LowVar(t, top, u);
        RemainingIs(t, m, r);
        if u !in r {
          FalseLiteralAgrees(t, a, u);
        }
      } else {
        assert DoneVar(t, top, 0, u, All(s));
      }
    }
    ForcedAgree(t, cs, top, a, vs, v);
  }

  lemma FalseLiteralAgrees(t: Trail, a: Assignment, u: nat)
    requires Consistent(t) && Assigned(t, u) && !LitTrue(a, FalseLiteral(t, u))
    ensures Agrees(t, a, u)
  {
    var i := Pos(t, u);
    AssignedKnown(t, u);
    assert t.lits[i] == u || t.lits[i] == -(u as int);
    if True(t, u) {
      var j :| 0 <= j < |t.lits| && t.lits[j] == u;
      PosOf(t, j);
    }
  }

  lemma LearnedImplied(t: Trail, top: nat, cs: seq<Clause>, conflict: Clause, uip: Option<nat>, s: Seen, m: seq<nat>,
                       r: set<nat>)
    requires TrailOk(t, cs, top) && Analyzed(t, top, conflict, uip, s, m, r)
    requires Falsified(t, conflict) && Stored(cs, conflict)
    ensures Implied(cs, Head(t, uip) + Remaining(t, m, r))
  {
    forall a: Assignment | ClausesTrue(a, cs) ensures ClauseTrue(a, Head(t, uip) + Remaining(t, m, r)) {
      StoredTrue(a, cs, conflict);
      var l :| l in conflict && LitTrue(a, l);
      FalseAssigned(t, l);
      if !Agrees(t, a, Abs(l)) {
        if forall k :: k in Head(t, uip) + Remaining(t, m, r) ==> !LitTrue(a, k) {
          SeenAgree(t, top, cs, a, conflict, uip, s, m, r, Abs(l));
        }
      }
    }
  }

  lemma LearnedLow(t: Trail, top: nat, cs: seq<Clause>, conflict: Clause, uip: Option<nat>, s: Seen, m: seq<nat>,
                   r: set<nat>)
    requires TrailOk(t, cs, top) && Analyzed(t, top, conflict, uip, s, m, r)
    ensures forall l :: l in Remaining(t, m, r) ==> LowLiteral(t, top, l) && t.level[Abs(l)] > 0
  {
    hide UipFound, TrailOk, Redundant, LowVar, LowLiteral, Remaining;
    RemainingIs(t, m, r);
    forall l | l in Remaining(t, m, r)
      ensures LowLiteral(t, top, l) && Abs(l) in t.level && t.level[Abs(l)] > 0
    {
      var v := Abs(l);
      LowFalse(t, cs, top, v);
      ZeroRedundant(t, cs, top, v, Elems(m));
    }
  }

  lemma AssertingIs(t: Trail, top: nat, u: nat, rest: Clause)
    requires Assigned(t, u) && u in t.level && t.level[u] == top && forall l :: l in rest ==> LowLiteral(t, top, l)
    ensures Asserting(t, top, [FalseLiteral(t, u)] + rest)
  {
    FalseLiteralFalse(t, u);
    var c := [FalseLiteral(t, u)] + rest;
    forall k | 1 <= k < |c| ensures Abs(c[k]) in t.level && t.level[Abs(c[k])] < top {
      assert c[k] == rest[k - 1] && rest[k - 1] in rest;
    }
  }

  lemma LowRemaining(t: Trail, top: nat, cs: seq<Clause>, low: seq<nat>)
    requires TrailOk(t, cs, top) && forall v :: v in low ==> LowVar(t, top, v)
    ensures forall l :: l in Remaining(t, low, {}) ==> LowLiteral(t, top, l)
  {
    RemainingIs(t, low, {});
    forall l | l in Remaining(t, low, {}) ensures LowLiteral(t, top, l) {
      LowFalse(t, cs, top, Abs(l));
    }
  }

  ghost predicate LowLiteral(t: Trail, top: nat, l: int) {
    False(t, l) && Abs(l) in t.level && t.level[Abs(l)] < top
  }

  lemma LowFalse(t: Trail, cs: seq<Clause>, top: nat, v: nat)
    requires LowVar(t, top, v) && TrailOk(t, cs, top)
    ensures LowLiteral(t, top, FalseLiteral(t, v)) && Abs(FalseLiteral(t, v)) == v
    ensures Assigned(t, v) && v in t.level
  {
    FalseLiteralFalse(t, v);
  }

  lemma FalseLiteralFalse(t: Trail, v: nat)
    requires Assigned(t, v)
    ensures False(t, FalseLiteral(t, v)) && Abs(FalseLiteral(t, v)) == v
  {
    assert t.lits[Pos(t, v)] == v || t.lits[Pos(t, v)] == -(v as int);
  }

  lemma ZeroRedundant(t: Trail, cs: seq<Clause>, top: nat, v: nat, mark: set<nat>)
    requires TrailOk(t, cs, top) && Assigned(t, v) && v in t.level && v in mark
    ensures t.level[v] == 0 ==> Redundant(t, v, mark)
  {
    ReasonEarlier(t, cs, top, v);
    if t.level[v] == 0 {
      forall l | l in t.reason[v].value ensures Abs(l) in mark || (Abs(l) in t.level && t.level[Abs(l)] == 0) {
        assert l != t.lits[Pos(t, v)] ==> Earlier(t, l, v);
      }
    }
  }

  lemma ForcedRedundant(t: Trail, v: nat, mark: set<nat>)
    requires ForcedBy(t, v, mark)
    ensures Redundant(t, v, mark)
  {
  }

  lemma LearnedIs(t: Trail, top: nat, cs: seq<Clause>, conflict: Clause, uip: Option<nat>, s: Seen, m: seq<nat>,
                  r: set<nat>)
    requires TrailOk(t, cs, top) && Analyzed(t, top, conflict, uip, s, m, r)
    requires Falsified(t, conflict) && Stored(cs, conflict)
    ensures Learned(t, top, cs, Head(t, uip) + Remaining(t, m, r))
    ensures top > 0 ==> Asserting(t, top, Head(t, uip) + Remaining(t, s.low, {}))
  {
    hide TrailOk, Marks, ClosedFrom, Redundant, Asserting, Implied, Remaining, FalseLiteral, Falsified, LowLiteral,
         DoneVar, LowVar;
    var rest := Remaining(t, m, r);
    LearnedImplied(t, top, cs, conflict, uip, s, m, r);
    LearnedLow(t, top, cs, conflict, uip, s, m, r);
    LowRemaining(t, top, cs, s.low);
    MarksDistinct(t, top, Elems(m), m);
    RemainingDistinct(t, m, r);
    if uip.Some? {
      AssertingIs(t, top, uip.value, rest);
      AddedDistinct(t, top, uip.value, rest);
      AssertingIs(t, top, uip.value, Remaining(t, s.low, {}));
      UipLevel(t, top, uip.value);
    } else {
      NoLow(t, top, rest);
    }
  }

  lemma NoLow(t: Trail, top: nat, rest: Clause)
    requires forall l :: l in rest ==> LowLiteral(t, top, l)
    ensures top == 0 ==> rest == []
  {
    if rest != [] {
      assert LowLiteral(t, top, rest[0]);
    }
  }

  lemma UipLevel(t: Trail, top: nat, u: nat)
    requires Assigned(t, u) && u in t.level && t.level[u] == top
    ensures Abs(FalseLiteral(t, u)) == u
  {
    FalseLiteralFalse(t, u);
  }

  // ----- backtracking -----

  ghost predicate Highest(t: Trail, c: Clause, l: int) {
    Abs(l) in t.level && forall k :: k in c ==> Abs(k) in t.level && t.level[Abs(k)] <= t.level[Abs(l)]
  }

  lemma AboveNewLevel(t: Trail, cs: seq<Clause>, top: nat, newLevel: nat, n: nat)
    requires TrailOk(t, cs, top) && n < |t.lits| && LevelAt(t, n) != newLevel
    requires newLevel == 0 || exists i :: 0 <= i < |t.lits| && LevelAt(t, i) == newLevel
    requires forall i :: n < i < |t.lits| ==> LevelAt(t, i) > newLevel
    ensures LevelAt(t, n) > newLevel
  {
    if newLevel != 0 {
      var i :| 0 <= i < |t.lits| && LevelAt(t, i) == newLevel;
      assert i < n;
      assert LevelAt(t, i) <= LevelAt(t, n);
    }
  }

  /** Where the learned clause sends the search: below the conflict level, to a level in use. */
  lemma DriveTarget(t: Trail, cs: seq<Clause>, top: nat, c: Clause, r: nat)
    requires TrailOk(t, cs, top) && top > 0 && Asserting(t, top, c)
    requires forall l :: l in c ==> Abs(l) in t.level && (t.level[Abs(l)] <= r || Highest(t, c, l))
    requires r == 0 || exists l :: l in c && Abs(l) in t.level && t.level[Abs(l)] == r && !Highest(t, c, l)
    ensures r < top && (r == 0 || exists i :: 0 <= i < |t.lits| && LevelAt(t, i) == r)
    ensures forall k :: 1 <= k < |c| ==> Abs(c[k]) in t.level && t.level[Abs(c[k])] <= r
    ensures NonZero(c)
  {
    forall k | 1 <= k < |c| ensures Abs(c[k]) in t.level && t.level[Abs(c[k])] <= r {
      assert c[0] in c && c[k] in c;
      assert !Highest(t, c, c[k]);
    }
    if r != 0 {
      var l :| l in c && Abs(l) in t.level && t.level[Abs(l)] == r && !Highest(t, c, l);
      FalseAssigned(t, l);
      AssignedKnown(t, Abs(l));
      TopIsHighest(t, top, c);
      assert l != c[0];
    }
    forall l | l in c ensures l != 0 {
      FalseAssigned(t, l);
      AssignedKnown(t, Abs(l));
    }
  }

  lemma TopIsHighest(t: Trail, top: nat, c: Clause)
    requires Asserting(t, top, c)
    ensures Highest(t, c, c[0])
  {
  }

  /** Once the conflict level is undone, the first literal is undefined and the others stay false. */
  lemma OneUndefined(t0: Trail, t: Trail, cs: seq<Clause>, top: nat, c: Clause, r: nat)
    requires TrailOk(t0, cs, top) && Asserting(t0, top, c) && r < top
    requires forall k :: 1 <= k < |c| ==> t0.level[Abs(c[k])] <= r
    requires t.lits <= t0.lits && TrailOk(t, cs, r) && t.level == t0.level
    requires forall i :: |t.lits| <= i < |t0.lits| ==> LevelAt(t0, i) > r
    ensures Undefined(t, c[0]) && forall k :: 1 <= k < |c| ==> False(t, c[k]) && !Undefined(t, c[k])
  {
    forall k | 1 <= k < |c| ensures False(t, c[k]) {
      assert c[k] in c;
      FalseAssigned(t0, c[k]);
      AssignedKnown(t0, Abs(c[k]));
      assert t.lits[Pos(t0, Abs(c[k]))] == -c[k];
    }
    forall i | 0 <= i < |t.lits| ensures Abs(t.lits[i]) != Abs(c[0]) {
      assert LevelAt(t, i) <= r;
    }
  }

  /** The trail up to a level with the first literal of the clause behind it, which the clause forces. */
  ghost predicate Asserted(t0: Trail, t: Trail, top: nat, c: Clause) {
    && c != [] && |t.lits| > 0 && Consistent(t0)
    && var n := |t.lits| - 1;
    && n <= |t0.lits| && t == Assigning(t0.(lits := t0.lits[..n]), c[0], top, Some(c))
    && (forall i :: 0 <= i < n ==> LevelAt(t0, i) <= top)
    && (forall i :: n <= i < |t0.lits| ==> LevelAt(t0, i) > top)
  }

  /** The trail taken back to level `r`. */
  ghost predicate BackTo(t0: Trail, t: Trail, cs: seq<Clause>, r: nat) {
    && TrailOk(t, cs, r) && Consistent(t0) && t.level == t0.level && t.reason == t0.reason && t.lits <= t0.lits
    && (forall i :: |t.lits| <= i < |t0.lits| ==> LevelAt(t0, i) > r)
    && (|t.lits| == |t0.lits| || LevelAt(t0, |t.lits|) > r)
  }

  /** Learning changes no model; a clause learned on level zero shows there is none. */
  lemma LearningKeepsModels(t: Trail, top: nat, cs: seq<Clause>, c: Clause)
    requires Learned(t, top, cs, c)
    ensures forall a: Assignment :: ClausesTrue(a, cs + [c]) <==> ClausesTrue(a, cs)
    ensures top == 0 ==> forall a: Assignment :: !ClausesTrue(a, cs)
  {
    forall a: Assignment ensures ClausesTrue(a, cs + [c]) <==> ClausesTrue(a, cs) {
      assert forall d :: d in cs + [c] <==> d in cs || d == c;
    }
  }
}
