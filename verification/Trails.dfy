/** The assignment trail of the solver kernel: levels, reasons, and what they imply. */
module Trails {
  import opened Literals

  /** Assigned literals in order, with the level and the reason clause of each variable;
      a decision has no reason. */
  datatype Trail = Trail(lits: seq<int>, level: map<nat, nat>, reason: map<nat, Option<Clause>>)

  predicate True(t: Trail, l: int) { l in t.lits }

  predicate False(t: Trail, l: int) { -l in t.lits }

  /** Some clause has exactly these literals, in whatever order. */
  ghost predicate Stored(cs: seq<Clause>, c: Clause) {
    exists d :: d in cs && multiset(d) == multiset(c)
  }

  lemma SameLiterals(c: Clause, d: Clause)
    requires multiset(c) == multiset(d)
    ensures |c| == |d| && forall l :: l in c <==> l in d
  {
    assert |multiset(c)| == |c| && |multiset(d)| == |d|;
    forall l ensures l in c <==> l in d {
      assert l in c <==> l in multiset(c);
      assert l in d <==> l in multiset(d);
    }
  }

  lemma StoredTrue(a: Assignment, cs: seq<Clause>, c: Clause)
    requires Stored(cs, c) && ClausesTrue(a, cs)
    ensures ClauseTrue(a, c)
  {
    var d :| d in cs && multiset(d) == multiset(c);
    SameLiterals(c, d);
  }

  lemma StoredIn(cs: seq<Clause>, c: Clause)
    requires c in cs
    ensures Stored(cs, c)
  {
  }

  /** Where a variable stands in a list of literals. */
  ghost function IndexOf(s: seq<int>, v: nat): (i: nat)
    ensures i <= |s| && (i < |s| ==> Abs(s[i]) == v)
    ensures forall j :: 0 <= j < i ==> Abs(s[j]) != v
  {
    if s == [] || Abs(s[0]) == v then 0
    else
      var i := IndexOf(s[1..], v);
      assert forall j :: 0 < j < i + 1 ==> s[j] == s[1..][j - 1];
      i + 1
  }

  ghost function Pos(t: Trail, v: nat): nat {
    IndexOf(t.lits, v)
  }

  ghost predicate Assigned(t: Trail, v: nat) {
    Pos(t, v) < |t.lits|
  }

  ghost predicate Consistent(t: Trail) {
    && (forall i :: 0 <= i < |t.lits| ==> t.lits[i] != 0 && Abs(t.lits[i]) in t.level && Abs(t.lits[i]) in t.reason)
    && forall i, j :: 0 <= i < j < |t.lits| ==> Abs(t.lits[i]) != Abs(t.lits[j])
  }

  ghost function LevelAt(t: Trail, i: nat): nat
    requires Consistent(t) && i < |t.lits|
  {
    t.level[Abs(t.lits[i])]
  }

  ghost predicate Levelled(t: Trail, top: nat)
    requires Consistent(t)
  {
    && (forall i :: 0 <= i < |t.lits| ==> LevelAt(t, i) <= top)
    && forall i, j :: 0 <= i < j < |t.lits| ==> LevelAt(t, i) <= LevelAt(t, j)
  }

  /** A decision opens its level; a forced literal is the one literal of its reason that earlier ones leave. */
  ghost predicate ReasonOk(t: Trail, cs: seq<Clause>, i: nat)
    requires Consistent(t) && i < |t.lits|
  {
    match t.reason[Abs(t.lits[i])]
    case None => LevelAt(t, i) > 0 && forall j :: 0 <= j < i ==> LevelAt(t, j) < LevelAt(t, i)
    case Some(c) => Stored(cs, c) && t.lits[i] in c && forall l :: l in c ==> l == t.lits[i] || -l in t.lits[..i]
  }

  ghost predicate TrailOk(t: Trail, cs: seq<Clause>, top: nat) {
    && Consistent(t) && Levelled(t, top)
    && forall i :: 0 <= i < |t.lits| ==> ReasonOk(t, cs, i)
  }

  lemma PosOf(t: Trail, i: nat)
    requires Consistent(t) && i < |t.lits|
    ensures Pos(t, Abs(t.lits[i])) == i && Assigned(t, Abs(t.lits[i]))
  {
  }

  lemma FalseAssigned(t: Trail, l: int)
    requires Consistent(t) && False(t, l)
    ensures Assigned(t, Abs(l)) && t.lits[Pos(t, Abs(l))] == -l && Abs(l) in t.level && Abs(l) in t.reason
    ensures !True(t, l)
  {
    var i :| 0 <= i < |t.lits| && t.lits[i] == -l;
    PosOf(t, i);
  }

  lemma AssignedKnown(t: Trail, v: nat)
    requires Consistent(t) && Assigned(t, v)
    ensures v in t.level && v in t.reason && LevelAt(t, Pos(t, v)) == t.level[v] && v != 0
  {
  }

  /** The reason of a variable and where its other literals stand. */
  lemma ReasonEarlier(t: Trail, cs: seq<Clause>, top: nat, v: nat)
    requires TrailOk(t, cs, top) && Assigned(t, v)
    ensures v in t.reason && v in t.level
    ensures t.level[v] == 0 ==> t.reason[v].Some?
    ensures t.reason[v].Some? ==> Stored(cs, t.reason[v].value) && t.lits[Pos(t, v)] in t.reason[v].value
    ensures t.reason[v].Some? ==> forall l :: l in t.reason[v].value && l != t.lits[Pos(t, v)] ==> Earlier(t, l, v)
  {
    var i := Pos(t, v);
    assert ReasonOk(t, cs, i);
    if t.reason[v].Some? {
      forall l | l in t.reason[v].value && l != t.lits[i] ensures Earlier(t, l, v) {
        var j :| 0 <= j < |t.lits[..i]| && t.lits[..i][j] == -l;
        PosOf(t, j);
        assert LevelAt(t, j) <= LevelAt(t, i);
      }
    }
  }

  /** The literal is false, assigned before `v`, on no higher level. */
  ghost predicate Earlier(t: Trail, l: int, v: nat) {
    && False(t, l) && Abs(l) in t.level && v in t.level
    && Pos(t, Abs(l)) < Pos(t, v) && Assigned(t, Abs(l)) && t.level[Abs(l)] <= t.level[v]
  }

  /** The assignment makes the trail's literal of `v` true. */
  ghost predicate Agrees(t: Trail, a: Assignment, v: nat) {
    Assigned(t, v) && LitTrue(a, t.lits[Pos(t, v)])
  }

  /** `v` was forced by variables of `vs` and of level zero alone. */
  ghost predicate ForcedWithin(t: Trail, v: nat, vs: set<nat>) {
    && v in t.reason && t.reason[v].Some?
    && forall l :: l in t.reason[v].value ==> Abs(l) in vs || (Abs(l) in t.level && t.level[Abs(l)] == 0)
  }

  /** A model of the clauses that agrees with the unforced variables of a closed set agrees with all of it. */
  lemma {:induction false} ForcedAgree(t: Trail, cs: seq<Clause>, top: nat, a: Assignment, vs: set<nat>, v: nat)
    requires TrailOk(t, cs, top) && ClausesTrue(a, cs) && Assigned(t, v)
    requires forall u :: u in vs ==> Assigned(t, u) && (Agrees(t, a, u) || ForcedWithin(t, u, vs))
    requires v in vs || (v in t.level && t.level[v] == 0)
    ensures Agrees(t, a, v)
    decreases Pos(t, v)
  {
    if !Agrees(t, a, v) {
      ReasonEarlier(t, cs, top, v);
      var c := t.reason[v].value;
      StoredTrue(a, cs, c);
      var l :| l in c && LitTrue(a, l);
      if l != t.lits[Pos(t, v)] {
        assert Earlier(t, l, v);
        ForcedAgree(t, cs, top, a, vs, Abs(l));
        FalseAssigned(t, l);
      }
    }
  }

  // ----- growing and shrinking -----

  predicate Undefined(t: Trail, l: int) { !True(t, l) && !False(t, l) }

  function Assigning(t: Trail, l: int, level: nat, reason: Option<Clause>): Trail {
    Trail(t.lits + [l], t.level[Abs(l) := level], t.reason[Abs(l) := reason])
  }

  lemma PrefixOk(t: Trail, cs: seq<Clause>, top: nat, n: nat)
    requires TrailOk(t, cs, top) && n <= |t.lits|
    ensures Consistent(t) && t.lits[..|t.lits|] == t.lits && (n < |t.lits| ==> t.lits[..n + 1][..n] == t.lits[..n])
    ensures TrailOk(t.(lits := t.lits[..n]), cs, top)
  {
    var u := t.(lits := t.lits[..n]);
    assert forall i :: 0 <= i < n ==> LevelAt(u, i) == LevelAt(t, i);
    forall i | 0 <= i < n ensures ReasonOk(u, cs, i) {
      assert ReasonOk(t, cs, i);
      assert u.lits[..i] == t.lits[..i];
    }
    if n < |t.lits| {
      assert t.lits[..n + 1][..n] == t.lits[..n];
    }
  }

  lemma LevelledBelow(t: Trail, cs: seq<Clause>, top: nat, newLevel: nat, n: nat)
    requires TrailOk(t, cs, top) && n <= |t.lits| && (n > 0 ==> LevelAt(t, n - 1) == newLevel)
    ensures TrailOk(t.(lits := t.lits[..n]), cs, newLevel)
  {
    PrefixOk(t, cs, top, n);
    var u := t.(lits := t.lits[..n]);
    forall i | 0 <= i < n ensures LevelAt(u, i) <= newLevel {
      assert LevelAt(t, i) <= LevelAt(t, n - 1);
    }
  }

  lemma AssigningOk(t: Trail, cs: seq<Clause>, top: nat, l: int, c: Clause)
    requires TrailOk(t, cs, top) && Stored(cs, c) && l in c && l != 0 && Undefined(t, l)
    requires forall k :: k in c ==> k == l || False(t, k)
    ensures TrailOk(Assigning(t, l, top, Some(c)), cs, top)
  {
    var u := Assigning(t, l, top, Some(c));
    AssigningConsistent(t, top, l, Some(c));
    assert forall i :: 0 <= i < |t.lits| ==> LevelAt(u, i) == LevelAt(t, i);
    forall i | 0 <= i < |u.lits| ensures ReasonOk(u, cs, i) {
      AssigningReason(t, cs, top, l, c, i);
    }
  }

  lemma AssigningConsistent(t: Trail, top: nat, l: int, r: Option<Clause>)
    requires Consistent(t) && Levelled(t, top) && l != 0 && Undefined(t, l)
    ensures Consistent(Assigning(t, l, top, r)) && Levelled(Assigning(t, l, top, r), top)
  {
    var u := Assigning(t, l, top, r);
    NotAmong(t, l);
    assert forall i :: 0 <= i < |t.lits| ==> LevelAt(u, i) == LevelAt(t, i);
  }

  lemma NotAmong(t: Trail, l: int)
    requires Undefined(t, l)
    ensures forall i :: 0 <= i < |t.lits| ==> Abs(t.lits[i]) != Abs(l)
  {
    assert forall i :: 0 <= i < |t.lits| ==> t.lits[i] in t.lits;
  }

  lemma AssigningReason(t: Trail, cs: seq<Clause>, top: nat, l: int, c: Clause, i: nat)
    requires TrailOk(t, cs, top) && Stored(cs, c) && l in c && l != 0 && Undefined(t, l) && i <= |t.lits|
    requires forall k :: k in c ==> k == l || False(t, k)
    requires var u := Assigning(t, l, top, Some(c)); Consistent(u) && forall i :: 0 <= i < |t.lits| ==>
      LevelAt(u, i) == LevelAt(t, i)
    ensures ReasonOk(Assigning(t, l, top, Some(c)), cs, i)
  {
    var u := Assigning(t, l, top, Some(c));
    if i < |t.lits| {
      assert ReasonOk(t, cs, i);
      assert u.lits[..i] == t.lits[..i] && u.lits[i] == t.lits[i];
    } else {
      assert u.lits[..i] == t.lits;
    }
  }
}
