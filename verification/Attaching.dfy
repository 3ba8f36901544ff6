/** Adding clauses to a running search: where they are watched, and what stays settled. */
module Attaching {
  import opened Sequences
  import opened Literals
  import opened Trails
  import opened Watches
  import opened PropagationSteps
  import opened ConflictAnalysis
  import opened Propagation

  // ----- the literal order of a learned clause -----

  function LevelOf(t: Trail, l: int): nat {
    if Abs(l) in t.level then t.level[Abs(l)] else 0
  }

  function Insert(t: Trail, l: int, s: Clause): Clause {
    if s == [] || LevelOf(t, l) >= LevelOf(t, s[0]) then [l] + s else [s[0]] + Insert(t, l, s[1..])
  }

  /** Larger levels first. */
  function SortLits(t: Trail, c: Clause): Clause {
    if c == [] then [] else Insert(t, c[0], SortLits(t, c[1..]))
  }

  ghost predicate Descending(t: Trail, c: Clause) {
    forall i, j :: 0 <= i < j < |c| ==> LevelOf(t, c[i]) >= LevelOf(t, c[j])
  }

  lemma {:induction false} InsertAdds(t: Trail, l: int, s: Clause)
    ensures multiset(Insert(t, l, s)) == multiset(s) + multiset{l}
    decreases |s|
  {
    if s != [] {
      InsertAdds(t, l, s[1..]);
      assert s == [s[0]] + s[1..];
    }
  }

  lemma {:induction false} InsertSorts(t: Trail, l: int, s: Clause)
    requires Descending(t, s)
    ensures Descending(t, Insert(t, l, s)) && Insert(t, l, s) != []
    ensures Insert(t, l, s)[0] == l || (s != [] && Insert(t, l, s)[0] == s[0])
    decreases |s|
  {
    hide LevelOf;
    if s != [] && LevelOf(t, l) < LevelOf(t, s[0]) {
      InsertSorts(t, l, s[1..]);
      HeadFirst(t, s[0], Insert(t, l, s[1..]));
    } else if s != [] {
      HeadFirst(t, l, s);
    }
  }

  lemma HeadFirst(t: Trail, l: int, s: Clause)
    requires Descending(t, s) && (s != [] ==> LevelOf(t, l) >= LevelOf(t, s[0]))
    ensures Descending(t, [l] + s)
  {
    hide LevelOf;
    var x := [l] + s;
    forall i, j | 0 <= i < j < |x| ensures LevelOf(t, x[i]) >= LevelOf(t, x[j]) {
      assert x[j] == s[j - 1] && LevelOf(t, s[0]) >= LevelOf(t, s[j - 1]);
      if i > 0 {
        assert x[i] == s[i - 1];
      }
    }
  }

  lemma {:induction false} SortLitsSorts(t: Trail, c: Clause)
    ensures Descending(t, SortLits(t, c)) && multiset(SortLits(t, c)) == multiset(c)
    decreases |c|
  {
    if c != [] {
      SortLitsSorts(t, c[1..]);
      InsertSorts(t, c[0], SortLits(t, c[1..]));
      InsertAdds(t, c[0], SortLits(t, c[1..]));
      assert c == [c[0]] + c[1..];
    }
  }

  /** Sorting keeps what was learned, its first literal in front, and puts one of the next highest level
      second. */
  lemma SortedLearned(t: Trail, top: nat, cs: seq<Clause>, c: Clause)
    requires TrailOk(t, cs, top) && Learned(t, top, cs, c)
    ensures var d := SortLits(t, c);
      && multiset(d) == multiset(c) && Learned(t, top, cs, d) && Descending(t, d) && NonZero(d)
  {
    var d := SortLits(t, c);
    SortLitsSorts(t, c);
    SameLiterals(c, d);
    SortedDistinct(c, d);
    forall a: Assignment | ClausesTrue(a, cs) ensures ClauseTrue(a, d) {
      assert ClauseTrue(a, c);
    }
    if top > 0 {
      SortedAsserting(t, top, c, d);
    }
    forall l | l in d ensures l != 0 {
      assert Falsified(t, c) || top == 0;
      assert l in c;
      FalseAssigned(t, l);
      AssignedKnown(t, Abs(l));
    }
  }

  lemma SortedDistinct(c: Clause, d: Clause)
    requires multiset(c) == multiset(d) && NoRepeats(c)
    ensures NoRepeats(d)
  {
    forall i, j | 0 <= i < j < |d| ensures d[i] != d[j] {
      OnceEach(c, d[i]);
      if d[i] == d[j] {
        RepeatsCount(d, i, j);
      }
    }
  }

  lemma DescendingHead(t: Trail, c: Clause, i: nat)
    requires Descending(t, c) && i < |c|
    ensures LevelOf(t, c[0]) >= LevelOf(t, c[i])
  {
  }

  lemma SortedAsserting(t: Trail, top: nat, c: Clause, d: Clause)
    requires Asserting(t, top, c) && multiset(c) == multiset(d) && Descending(t, d) && NoRepeats(d)
    requires |c| == |d| && forall l :: l in c <==> l in d
    ensures Asserting(t, top, d) && d[0] == c[0]
  {
    assert c[0] in d;
    var i :| 0 <= i < |d| && d[i] == c[0];
    assert forall l :: l in c && l != c[0] ==> Abs(l) in t.level && t.level[Abs(l)] < top;
    DescendingHead(t, d, i);
    assert d[0] in d;
    forall k | 1 <= k < |d| ensures Abs(d[k]) in t.level && t.level[Abs(d[k])] < top {
      assert d[k] in c && d[k] != d[0];
    }
  }

  // ----- more clauses -----

  /** The database with one clause more. */
  ghost predicate OneMore(cs: seq<Clause>, c: Clause, more: seq<Clause>) {
    forall d :: d in more <==> d in cs || d == c
  }

  lemma StoredOneMore(cs: seq<Clause>, c: Clause, more: seq<Clause>)
    requires OneMore(cs, c, more)
    ensures Stored(more, c) && forall d :: Stored(cs, d) ==> Stored(more, d)
    ensures forall d :: Stored(more, d) ==> Stored(cs, d) || multiset(d) == multiset(c)
  {
    StoredIn(more, c);
    forall d | Stored(cs, d) ensures Stored(more, d) {
      var e :| e in cs && multiset(e) == multiset(d);
      assert e in more;
    }
    forall d | Stored(more, d) ensures Stored(cs, d) || multiset(d) == multiset(c) {
      var e :| e in more && multiset(e) == multiset(d);
    }
  }

  lemma TrailOkWider(t: Trail, cs: seq<Clause>, top: nat, c: Clause, more: seq<Clause>)
    requires TrailOk(t, cs, top) && OneMore(cs, c, more)
    ensures TrailOk(t, more, top)
  {
    StoredOneMore(cs, c, more);
    forall i | 0 <= i < |t.lits| ensures ReasonOk(t, more, i) {
      assert ReasonOk(t, cs, i);
    }
  }

  lemma BoundedWider(t: Trail, cs: seq<Clause>, maxVar: nat, c: Clause, more: seq<Clause>)
    requires Bounded(t, cs, maxVar) && OneMore(cs, c, more) && ClauseBounded(c, maxVar)
    ensures Bounded(t, more, maxVar)
  {
    StoredOneMore(cs, c, more);
    forall d | Stored(more, d) ensures ClauseBounded(d, maxVar) {
      if !Stored(cs, d) {
        SameLiterals(d, c);
      }
    }
  }

  lemma AddedPairs(db: seq<Clause>, pairs: seq<Clause>, c: Clause)
    ensures OneMore(db + pairs, c, db + (pairs + [c])) && OneMore(db + pairs, c, (db + [c]) + pairs)
  {
  }

  // ----- long clauses -----

  /** Head and tail of a new clause on their lists. */
  function Connected(watch: Lists, c: Clause, n: nat): Lists
    requires |c| >= 1
  {
    var w := Pushed(watch, c[0], n);
    if |c| >= 2 then Pushed(w, c[1], n) else w
  }

  lemma ConnectedLists(watch: Lists, c: Clause, n: nat)
    requires GoodLong(c) && (forall w :: NoRepeats(On(watch, w)) && !Listed(watch, w, n))
    ensures var m := Connected(watch, c, n);
      && (forall w :: NoRepeats(On(m, w)))
      && (forall w, k: nat :: Listed(m, w, k) <==> Listed(watch, w, k) || (k == n && Watched(c, w)))
  {
    assert |c| >= 2 ==> c[0] != c[1];
    hide Pushed, On, NoRepeats;
    var w := Pushed(watch, c[0], n);
    PushedLists(watch, c[0], n);
    if |c| >= 2 {
      PushedLists(w, c[1], n);
    }
  }

  lemma ConnectKeeps(lits: seq<Clause>, watch: Lists, off: Lists, t: Trail, c: Clause)
    requires Watching(lits, watch, off, t) && GoodLong(c)
    ensures Watching(lits + [c], Connected(watch, c, |lits|), off, t)
  {
    hide On, NoRepeats, Listed, True, Connected;
    var n := |lits|;
    var m := Connected(watch, c, n);
    ConnectedLists(watch, c, n);
    var more := lits + [c];
    forall o, k: nat | Listed(off, o, k) ensures Parked(more, m, t, o, k) {
      assert Parked(lits, watch, t, o, k);
    }
    forall k: nat, w | k < |more| && Watched(more[k], w) ensures Listed(m, w, k) || ParkedAway(more, off, k, w) {
      if k < n {
        assert Listed(watch, w, k) || ParkedAway(lits, off, k, w);
      }
    }
  }

  lemma ConnectProcessed(lits: seq<Clause>, t: Trail, q: nat, top: nat, c: Clause)
    requires Processed(lits, t, q, top, false, 0, [])
    requires forall w :: Watched(c, w) && FalseBefore(t, w, q) ==> Settled(t, c, w)
    ensures Processed(lits + [c], t, q, top, false, 0, [])
  {
  }

  /** Its first literal forced, a clause is settled when the second one is of the current level. */
  lemma ForcedSettled(t: Trail, cs: seq<Clause>, top: nat, c: Clause)
    requires TrailOk(t, cs, top) && GoodLong(c) && Undefined(t, c[0])
    requires |c| >= 2 ==> False(t, c[1]) && LevelOf(t, c[1]) == top
    ensures var u := Assigning(t, c[0], top, Some(c));
      forall w :: Watched(c, w) && FalseBefore(u, w, |t.lits|) ==> Settled(u, c, w)
    ensures |c| >= 2 ==> TrueBelow(Assigning(t, c[0], top, Some(c)), c[0], c[1])
  {
    var u := Assigning(t, c[0], top, Some(c));
    assert c[0] in c && c[0] != 0;
    GrownTrail(t, cs, top, c[0], Some(c), |t.lits|, c[0]);
    if |c| >= 2 {
      GrownTrail(t, cs, top, c[0], Some(c), |t.lits|, c[1]);
      FalseAssigned(t, c[1]);
      assert c[0] != c[1];
    }
  }

  // ----- binary clauses -----

  function Implying(m: Implications, a: int, b: int): Implications {
    m[a := [b] + Imp(m, a)]
  }

  function Paired(impls: Implications, a: int, b: int): Implications {
    Implying(Implying(impls, a, b), b, a)
  }

  lemma ImplyingIs(m: Implications, a: int, b: int)
    ensures forall v, o :: o in Imp(Implying(m, a, b), v) <==> o in Imp(m, v) || (v == a && o == b)
  {
  }

  lemma PairedIs(impls: Implications, a: int, b: int)
    ensures forall v, o ::
      o in Imp(Paired(impls, a, b), v) <==> o in Imp(impls, v) || (v == a && o == b) || (v == b && o == a)
  {
    hide Implying, Imp;
    ImplyingIs(impls, a, b);
    ImplyingIs(Implying(impls, a, b), b, a);
  }

  lemma PairIs(v: int, o: int, a: int, b: int)
    ensures [v, o] == [a, b] <==> v == a && o == b
  {
    assert [v, o][0] == v && [v, o][1] == o;
  }

  lemma PairedOk(impls: Implications, pairs: seq<Clause>, a: int, b: int)
    requires BinOk(impls, pairs) && a != b && a != 0 && b != 0
    ensures BinOk(Paired(impls, a, b), pairs + [[a, b]])
  {
    hide Paired, Imp;
    PairedIs(impls, a, b);
    var m := Paired(impls, a, b);
    forall v, o ensures o in Imp(m, v) <==> [v, o] in pairs + [[a, b]] || [o, v] in pairs + [[a, b]] {
      PairIs(v, o, a, b);
      PairIs(o, v, a, b);
    }
  }

  lemma PairedProcessed(impls: Implications, t: Trail, q: nat, top: nat, a: int, b: int)
    requires BinProcessed(impls, t, q, top, false, 0, 0)
    requires forall v, o ::
      o in Imp(Paired(impls, a, b), v) <==> o in Imp(impls, v) || (v == a && o == b) || (v == b && o == a)
    requires FalseBefore(t, a, q) ==> TrueBelow(t, b, a)
    requires FalseBefore(t, b, q) ==> TrueBelow(t, a, b)
    ensures BinProcessed(Paired(impls, a, b), t, q, top, false, 0, 0)
  {
    hide Paired, TrueBelow, FalseBefore;
  }
}
