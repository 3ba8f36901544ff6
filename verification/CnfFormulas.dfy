/** The value of a CNF expression and what each of its operations does to that value. */
module CnfFormulas {
  import opened Sequences
  import opened Literals
  import opened LitVectors

  /** Singleton clauses are kept apart from the listed clauses, which all have two literals or more.
      With no literals at all, the clause count tells true (positive) from false (zero). */
  datatype Cnf = Cnf(litSize: int, clauseSize: int, singles: Clause, clauses: seq<Clause>)

  const TRUE: Cnf := Cnf(0, 1, [], [])
  const FALSE: Cnf := Cnf(0, 0, [], [])

  predicate IsTrue(e: Cnf) { e.litSize == 0 && e.clauseSize > 0 }

  predicate IsFalse(e: Cnf) { e.litSize == 0 && e.clauseSize == 0 }

  ghost predicate Holds(a: Assignment, e: Cnf) {
    if e.litSize == 0 then e.clauseSize > 0 else AllTrue(a, e.singles) && ClausesTrue(a, e.clauses)
  }

  function TotalSize(cs: seq<Clause>): nat {
    if cs == [] then 0 else |cs[0]| + TotalSize(cs[1..])
  }

  ghost predicate GoodClause(c: Clause) {
    |c| >= 2 && WindowSorted(c) && NonZero(c)
  }

  ghost predicate GoodClauses(cs: seq<Clause>) {
    forall c :: c in cs ==> GoodClause(c)
  }

  ghost predicate Counted(e: Cnf) {
    && e.litSize == |e.singles| + TotalSize(e.clauses)
    && (if e.litSize == 0 then 0 <= e.clauseSize <= 1 else e.clauseSize == |e.singles| + |e.clauses|)
  }

  /** All that is needed to read the expression: its totals are exact, and its clauses are long enough. */
  ghost predicate Sound(e: Cnf) {
    Counted(e) && NonZero(e.singles) && GoodClauses(e.clauses)
  }

  ghost predicate WellFormed(e: Cnf) {
    Sound(e) && WindowSorted(e.singles)
  }

  /** The expression with the given parts; with no parts left it is true. */
  function Make(singles: Clause, clauses: seq<Clause>): Cnf {
    if singles == [] && clauses == [] then TRUE
    else Cnf(|singles| + TotalSize(clauses), |singles| + |clauses|, singles, clauses)
  }

  function Unit(l: int): Cnf {
    Make([l], [])
  }

  lemma TailIn<T>(s: seq<T>)
    requires s != []
    ensures forall x :: x in s <==> x == s[0] || x in s[1..]
  {
    assert s == [s[0]] + s[1..];
  }

  lemma InitIn<T>(s: seq<T>)
    requires s != []
    ensures forall x :: x in s <==> x == s[|s| - 1] || x in s[..|s| - 1]
  {
    assert s == s[..|s| - 1] + [s[|s| - 1]];
  }

  // ----- concatenation and size -----

  lemma {:induction false} TotalSizeConcat(s: seq<Clause>, t: seq<Clause>)
    ensures TotalSize(s + t) == TotalSize(s) + TotalSize(t)
  {
    if s == [] {
      assert s + t == t;
    } else {
      assert (s + t)[1..] == s[1..] + t;
      TotalSizeConcat(s[1..], t);
    }
  }

  lemma TotalSizePositive(cs: seq<Clause>)
    requires cs != [] && |cs[0]| > 0
    ensures TotalSize(cs) > 0
  {
  }

  lemma MakeHolds(a: Assignment, singles: Clause, clauses: seq<Clause>)
    requires forall c :: c in clauses ==> |c| > 0
    ensures Holds(a, Make(singles, clauses)) <==> AllTrue(a, singles) && ClausesTrue(a, clauses)
  {
    if clauses != [] {
      assert clauses[0] in clauses;
    }
  }

  lemma MakeSound(singles: Clause, clauses: seq<Clause>)
    requires NonZero(singles) && GoodClauses(clauses)
    ensures Sound(Make(singles, clauses))
    ensures WindowSorted(singles) ==> WellFormed(Make(singles, clauses))
  {
    if clauses != [] {
      assert clauses[0] in clauses;
    }
  }

  // ----- the three ways of joining clauses -----

  datatype Joining =
    | Fresh      // a new vector from two others
    | InPlace    // `+=` of a vector
    | OneLiteral // `+=` of the one literal of the second clause

  function Join(k: Joining, c: Clause, d: Clause): Clause
    requires k.OneLiteral? ==> |d| == 1
  {
    match k
    case Fresh => Combine(c, d)
    case InPlace => Plus(c, d)
    case OneLiteral => AddLit(c, d[0])
  }

  lemma JoinMerges(k: Joining, c: Clause, d: Clause)
    requires k.OneLiteral? ==> |d| == 1
    requires WindowSorted(c) && WindowSorted(d) && NonZero(c) && NonZero(d)
    ensures MergeOf(Join(k, c, d), c, d)
  {
    match k
    case Fresh => CombineMerges(c, d);
    case InPlace => PlusMerges(c, d);
    case OneLiteral =>
      AddLitMerges(c, d[0]);
      assert d == [d[0]];
  }

  ghost predicate Joinable(k: Joining, d: Clause) {
    && (k.OneLiteral? ==> |d| == 1)
    && |d| >= 1 && WindowSorted(d) && NonZero(d)
  }

  ghost predicate AllJoinable(k: Joining, ds: seq<Clause>) {
    && (k.OneLiteral? ==> forall d :: d in ds ==> |d| == 1)
    && forall d :: d in ds ==> |d| >= 1 && WindowSorted(d) && NonZero(d)
  }

  /** A joined clause is either a tautology, and empty, or a good clause meaning the disjunction. */
  lemma JoinMeans(a: Assignment, k: Joining, c: Clause, d: Clause)
    requires GoodClause(c) && Joinable(k, d)
    ensures var r := Join(k, c, d);
      if r == [] then ClauseTrue(a, c) || ClauseTrue(a, d)
      else GoodClause(r) && (ClauseTrue(a, r) <==> ClauseTrue(a, c) || ClauseTrue(a, d))
  {
    JoinMerges(k, c, d);
    var r := Join(k, c, d);
    if r == [] {
      if IsUnion(r, c, d) {
        UnionIsLong(r, c, d);
      } else {
        ComplementaryTrue(a, c, d);
      }
    } else {
      UnionTrue(a, r, c, d);
      UnionIsLong(r, c, d);
    }
  }

  lemma UnionIsLong(r: Clause, c: Clause, d: Clause)
    requires GoodClause(c) && IsUnion(r, c, d)
    ensures |r| >= 2
  {
    assert Abs(c[0]) < Abs(c[1]);
    assert c[0] in c && c[1] in c;
    assert c[0] in r && c[1] in r;
    var i :| 0 <= i < |r| && r[i] == c[0];
    var j :| 0 <= j < |r| && r[j] == c[1];
    assert i != j;
  }

  // ----- rows of joined clauses -----

  function Push(c: Clause, acc: seq<Clause>): seq<Clause> {
    if c == [] then acc else [c] + acc
  }

  /** Every clause of `cs` joined with `d`, in order, each pushed at the head unless it is a tautology. */
  function PushRow(k: Joining, cs: seq<Clause>, d: Clause, acc: seq<Clause>): seq<Clause>
    requires k.OneLiteral? ==> |d| == 1
  {
    if cs == [] then acc else PushRow(k, cs[1..], d, Push(Join(k, cs[0], d), acc))
  }

  /** Every clause of `cs` joined with `d` where it stands, tautologies unlinked. */
  function KeepRow(k: Joining, cs: seq<Clause>, d: Clause): seq<Clause>
    requires k.OneLiteral? ==> |d| == 1
  {
    if cs == [] then [] else Push(Join(k, cs[0], d), KeepRow(k, cs[1..], d))
  }

  function PushRows(k: Joining, cs: seq<Clause>, ds: seq<Clause>, acc: seq<Clause>): seq<Clause>
    requires k.OneLiteral? ==> forall d :: d in ds ==> |d| == 1
  {
    if ds == [] then acc else PushRows(k, cs, ds[1..], PushRow(k, cs, ds[0], acc))
  }

  function Units(ls: Clause): (us: seq<Clause>)
    ensures |us| == |ls| && forall i :: 0 <= i < |ls| ==> us[i] == [ls[i]]
    ensures forall d :: d in us ==> |d| == 1 && d[0] in ls
  {
    seq(|ls|, i requires 0 <= i < |ls| => [ls[i]])
  }

  lemma {:induction false} PushRowMeans(a: Assignment, k: Joining, cs: seq<Clause>, d: Clause, acc: seq<Clause>)
    requires GoodClauses(cs) && Joinable(k, d) && GoodClauses(acc)
    ensures GoodClauses(PushRow(k, cs, d, acc))
    ensures ClausesTrue(a, PushRow(k, cs, d, acc)) <==> ClausesTrue(a, acc) && (ClausesTrue(a, cs) || ClauseTrue(a, d))
    decreases |cs|
  {
    if cs != [] {
      var r := Join(k, cs[0], d);
      assert cs[0] in cs;
      JoinMeans(a, k, cs[0], d);
      PushRowMeans(a, k, cs[1..], d, Push(r, acc));
      TailIn(cs);
    }
  }

  lemma {:induction false} KeepRowMeans(a: Assignment, k: Joining, cs: seq<Clause>, d: Clause)
    requires GoodClauses(cs) && Joinable(k, d)
    ensures GoodClauses(KeepRow(k, cs, d))
    ensures ClausesTrue(a, KeepRow(k, cs, d)) <==> ClausesTrue(a, cs) || ClauseTrue(a, d)
    decreases |cs|
  {
    if cs != [] {
      assert cs[0] in cs;
      JoinMeans(a, k, cs[0], d);
      KeepRowMeans(a, k, cs[1..], d);
      TailIn(cs);
    }
  }

  lemma {:induction false} PushRowsMeans(a: Assignment, k: Joining, cs: seq<Clause>, ds: seq<Clause>, acc: seq<Clause>)
    requires GoodClauses(cs) && GoodClauses(acc) && AllJoinable(k, ds)
    ensures GoodClauses(PushRows(k, cs, ds, acc))
    ensures ClausesTrue(a, PushRows(k, cs, ds, acc))
      <==> ClausesTrue(a, acc) && (ClausesTrue(a, cs) || ClausesTrue(a, ds))
    decreases |ds|
  {
    if ds != [] {
      assert ds[0] in ds;
      PushRowMeans(a, k, cs, ds[0], acc);
      PushRowsMeans(a, k, cs, ds[1..], PushRow(k, cs, ds[0], acc));
      TailIn(ds);
    }
  }

  lemma UnitsJoinable(ls: Clause)
    requires NonZero(ls)
    ensures AllJoinable(OneLiteral, Units(ls))
  {
  }

  lemma UnitsMean(a: Assignment, ls: Clause)
    requires NonZero(ls)
    ensures AllJoinable(OneLiteral, Units(ls))
    ensures ClausesTrue(a, Units(ls)) <==> AllTrue(a, ls)
  {
    UnitsJoinable(ls);
    forall l | l in ls ensures [l] in Units(ls) {
      var i :| 0 <= i < |ls| && ls[i] == l;
      assert Units(ls)[i] == [l];
    }
    hide LitTrue;
    if AllTrue(a, ls) {
      forall d | d in Units(ls) ensures ClauseTrue(a, d) {
        assert LitTrue(a, d[0]) && d[0] in d;
      }
    }
    if ClausesTrue(a, Units(ls)) {
      forall l | l in ls ensures LitTrue(a, l) {
        UnitMeans(a, l);
      }
    }
  }

  // ----- singletons against singletons -----

  /** The literals that `s` has in common with `u`, once for every match. */
  function Matches(l: int, u: Clause): Clause {
    if u == [] then [] else (if u[0] == l then [l] else []) + Matches(l, u[1..])
  }

  function AllMatches(s: Clause, u: Clause): Clause {
    if s == [] then [] else Matches(s[0], u) + AllMatches(s[1..], u)
  }

  /** `l` paired with every literal of `u` that is on another variable, pushed in order. */
  function PushPairs(l: int, u: Clause, acc: seq<Clause>): seq<Clause> {
    if u == [] then acc
    else PushPairs(l, u[1..], if l == u[0] || l == -u[0] then acc else [Pair(l, u[0])] + acc)
  }

  function PushAllPairs(s: Clause, u: Clause, acc: seq<Clause>): seq<Clause> {
    if s == [] then acc else PushAllPairs(s[1..], u, PushPairs(s[0], u, acc))
  }

  lemma {:induction false} MatchesIn(l: int, u: Clause)
    ensures forall x :: x in Matches(l, u) <==> x == l && l in u
    ensures Matches(l, u) != [] ==> l in u
    ensures NoRepeats(u) ==> |Matches(l, u)| <= 1
  {
    if u != [] {
      MatchesIn(l, u[1..]);
      TailIn(u);
    }
  }

  lemma {:induction false} AllMatchesIn(s: Clause, u: Clause)
    ensures forall x :: x in AllMatches(s, u) <==> x in s && x in u
    ensures NoRepeats(u) ==> |AllMatches(s, u)| <= |s|
  {
    if s != [] {
      MatchesIn(s[0], u);
      AllMatchesIn(s[1..], u);
      TailIn(s);
    }
  }

  lemma PairMeans(a: Assignment, k: int, l: int)
    requires k != 0 && l != 0 && k != l && k != -l
    ensures GoodClause(Pair(k, l))
    ensures ClauseTrue(a, Pair(k, l)) <==> LitTrue(a, k) || LitTrue(a, l)
  {
    var p := Pair(k, l);
    assert forall x :: x in p <==> x == k || x == l by {
      assert p[0] in p && p[1] in p;
    }
  }

  lemma {:induction false} PushPairsMean(a: Assignment, l: int, u: Clause, acc: seq<Clause>)
    requires l != 0 && NonZero(u) && GoodClauses(acc)
    ensures GoodClauses(PushPairs(l, u, acc))
    ensures (ClausesTrue(a, PushPairs(l, u, acc)) && (l in u ==> LitTrue(a, l)))
      <==> (ClausesTrue(a, acc) && (LitTrue(a, l) || AllTrue(a, u)))
    decreases |u|
  {
    if u != [] {
      assert u[0] in u;
      var next := if l == u[0] || l == -u[0] then acc else [Pair(l, u[0])] + acc;
      if l != u[0] && l != -u[0] {
        PairMeans(a, l, u[0]);
      }
      TailIn(u);
      PushPairsMean(a, l, u[1..], next);
    }
  }

  lemma {:induction false} PushAllPairsMean(a: Assignment, s: Clause, u: Clause, acc: seq<Clause>)
    requires NonZero(s) && NonZero(u) && GoodClauses(acc)
    ensures GoodClauses(PushAllPairs(s, u, acc))
    ensures (ClausesTrue(a, PushAllPairs(s, u, acc)) && AllTrue(a, AllMatches(s, u)))
      <==> (ClausesTrue(a, acc) && (AllTrue(a, s) || AllTrue(a, u)))
    decreases |s|
  {
    if s != [] {
      assert s[0] in s;
      TailIn(s);
      PushPairsMean(a, s[0], u, acc);
      PushAllPairsMean(a, s[1..], u, PushPairs(s[0], u, acc));
      MatchesIn(s[0], u);
    }
  }

  // ----- the operations -----

  /** Conjoin one literal. */
  function ConjoinLit(e: Cnf, l: int): Cnf {
    if IsFalse(e) then e
    else
      var s := AddLit(e.singles, l);
      if s == [] then FALSE else Make(s, e.clauses)
  }

  lemma ConjoinLitMeans(a: Assignment, e: Cnf, l: int)
    requires WellFormed(e) && l != 0
    ensures WellFormed(ConjoinLit(e, l))
    ensures Holds(a, ConjoinLit(e, l)) <==> Holds(a, e) && LitTrue(a, l)
  {
    if !IsFalse(e) {
      var s := AddLit(e.singles, l);
      AddLitMerges(e.singles, l);
      assert LitTrue(a, l) <==> AllTrue(a, [l]);
      if IsUnion(s, e.singles, [l]) {
        UnionTrue(a, s, e.singles, [l]);
        assert l in [l];
        MakeSound(s, e.clauses);
        MakeHolds(a, s, e.clauses);
      } else {
        ComplementaryTrue(a, e.singles, [l]);
      }
      if e.litSize == 0 {
        assert e.singles == [] && e.clauses == [];
      }
    }
  }

  /** Conjoin an expression that is handed over: its clauses are appended. */
  function ConjoinExp(e: Cnf, x: Cnf): Cnf {
    if x.litSize == 0 then (if x.clauseSize == 0 then FALSE else e)
    else if e.litSize == 0 then (if e.clauseSize != 0 then x else e)
    else
      var s := if x.singles == [] then e.singles else Plus(e.singles, x.singles);
      if s == [] && e.singles != [] && x.singles != [] then FALSE else Make(s, e.clauses + x.clauses)
  }

  lemma ConjoinExpMeans(a: Assignment, e: Cnf, x: Cnf)
    requires WellFormed(e) && WellFormed(x)
    ensures WellFormed(ConjoinExp(e, x))
    ensures Holds(a, ConjoinExp(e, x)) <==> Holds(a, e) && Holds(a, x)
  {
    if e.litSize != 0 && x.litSize != 0 {
      var s := if x.singles == [] then e.singles else Plus(e.singles, x.singles);
      if x.singles != [] {
        PlusMerges(e.singles, x.singles);
      }
      var cs := e.clauses + x.clauses;
      assert ClausesTrue(a, cs) <==> ClausesTrue(a, e.clauses) && ClausesTrue(a, x.clauses);
      if IsUnion(s, e.singles, x.singles) {
        assert e.singles != [] ==> e.singles[0] in e.singles;
        UnionTrue(a, s, e.singles, x.singles);
        MakeSound(s, cs);
        MakeHolds(a, s, cs);
      } else {
        ComplementaryTrue(a, e.singles, x.singles);
      }
    }
  }

  /** The copies of `l` in `s`. */
  function Copies(s: Clause, l: int): Clause {
    AllMatches(s, [l])
  }

  /** Disjoin one literal: it joins every listed clause, and turns every other singleton into a pair. */
  function DisjoinLit(e: Cnf, l: int): Cnf {
    if e.litSize == 0 then (if e.clauseSize == 0 then Unit(l) else e)
    else Make(Copies(e.singles, l), PushAllPairs(e.singles, [l], KeepRow(OneLiteral, e.clauses, [l])))
  }

  lemma DisjoinLitMeans(a: Assignment, e: Cnf, l: int)
    requires WellFormed(e) && l != 0
    ensures Sound(DisjoinLit(e, l))
    ensures |e.singles| <= MERGING ==> WellFormed(DisjoinLit(e, l))
    ensures Holds(a, DisjoinLit(e, l)) <==> Holds(a, e) || LitTrue(a, l)
    ensures |DisjoinLit(e, l).singles| <= |e.singles| || |DisjoinLit(e, l).singles| == 1
  {
    assert AllTrue(a, [l]) <==> LitTrue(a, l) by { assert l in [l]; }
    if e.litSize == 0 {
      MakeHolds(a, [l], []);
    } else {
      assert ClauseTrue(a, [l]) <==> LitTrue(a, l) by { assert l in [l]; }
      var kept := KeepRow(OneLiteral, e.clauses, [l]);
      KeepRowMeans(a, OneLiteral, e.clauses, [l]);
      PushAllPairsMean(a, e.singles, [l], kept);
      AllMatchesIn(e.singles, [l]);
      if |e.singles| <= MERGING {
        SharedSingles(e.singles, [l]);
      }
      MakeSound(Copies(e.singles, l), PushAllPairs(e.singles, [l], kept));
      MakeHolds(a, Copies(e.singles, l), PushAllPairs(e.singles, [l], kept));
    }
  }

  /** Short singleton vectors stay sorted when only their common literals are kept. */
  lemma SharedSingles(s: Clause, u: Clause)
    requires WindowSorted(s) && |s| <= MERGING && NoRepeats(u) && NonZero(s)
    ensures var m := AllMatches(s, u); WindowSorted(m) && NonZero(m) && |m| <= |s|
  {
    AllMatchesIn(s, u);
    SharedSorted(s, u);
  }

  lemma {:induction false} SharedSorted(s: Clause, u: Clause)
    requires WindowSorted(s) && |s| <= MERGING && NoRepeats(u)
    ensures WindowSorted(AllMatches(s, u))
    decreases |s|
  {
    hide WindowSorted, Matches;
    if s == [] {
      NoneSorted();
    } else {
      TailSorted(s);
      SharedSorted(s[1..], u);
      OneMatch(s[0], u);
      var m, n := Matches(s[0], u), AllMatches(s[1..], u);
      AllMatchesIn(s[1..], u);
      if m != [] {
        HeadFirst(s, n);
      } else {
        assert m + n == n;
      }
    }
  }

  lemma OneMatch(l: int, u: Clause)
    requires NoRepeats(u)
    ensures Matches(l, u) == [] || Matches(l, u) == [l]
  {
    MatchesIn(l, u);
    var m := Matches(l, u);
    assert |m| == 1 ==> m[0] in m && m == [m[0]];
  }

  lemma NoneSorted()
    ensures WindowSorted([])
  {
  }

  lemma TailSorted(s: Clause)
    requires WindowSorted(s) && s != []
    ensures |s| <= MERGING ==> WindowSorted(s[1..])
  {
  }

  lemma HeadFirst(s: Clause, n: Clause)
    requires s != [] && |s| <= MERGING && WindowSorted(s) && WindowSorted(n)
    requires forall x :: x in n ==> x in s[1..]
    ensures WindowSorted([s[0]] + n)
  {
    var r := [s[0]] + n;
    forall j | 1 <= j < |r| ensures Abs(s[0]) < Abs(r[j]) {
      assert r[j] == n[j - 1] && n[j - 1] in n;
      assert n[j - 1] in s[1..];
      var k :| 0 <= k < |s[1..]| && s[1..][k] == n[j - 1];
      assert s[k + 1] == r[j];
    }
    forall i, j | 1 <= i < j < |r| && j < MERGING ensures Abs(r[i]) < Abs(r[j]) {
      assert r[i] == n[i - 1] && r[j] == n[j - 1];
    }
  }

  /** The listed clauses of the cross product, before the singletons of `e` take part: every clause
      of `e` against every clause and singleton of `x`, the last time in place. */
  function CrossListed(e: Cnf, x: Cnf): seq<Clause> {
    if x.singles != [] then
      KeepRow(OneLiteral, e.clauses, [x.singles[0]])
      + PushRows(OneLiteral, e.clauses, Units(x.singles[1..]), PushRows(Fresh, e.clauses, x.clauses, []))
    else if x.clauses != [] then
      var n := |x.clauses| - 1;
      KeepRow(InPlace, e.clauses, x.clauses[n]) + PushRows(Fresh, e.clauses, x.clauses[..n], [])
    else []
  }

  /** Disjoin two expressions clause by clause. */
  function CrossProduct(e: Cnf, x: Cnf): Cnf {
    Make(AllMatches(e.singles, x.singles),
         PushAllPairs(e.singles, x.singles,
                      PushRows(OneLiteral, x.clauses, Units(e.singles), CrossListed(e, x))))
  }

  lemma CrossWithClauses(a: Assignment, cs: seq<Clause>, ds: seq<Clause>)
    requires GoodClauses(cs) && GoodClauses(ds) && ds != []
    ensures var n := |ds| - 1;
      var r := KeepRow(InPlace, cs, ds[n]) + PushRows(Fresh, cs, ds[..n], []);
      GoodClauses(r) && (ClausesTrue(a, r) <==> ClausesTrue(a, cs) || ClausesTrue(a, ds))
  {
    var n := |ds| - 1;
    InitIn(ds);
    assert ds[n] in ds;
    forall c | c in ds[..n] ensures GoodClause(c) {
      assert c in ds;
    }
    PushRowsMeans(a, Fresh, cs, ds[..n], []);
    KeepRowMeans(a, InPlace, cs, ds[n]);
  }

  lemma UnitMeans(a: Assignment, l: int)
    ensures ClauseTrue(a, [l]) <==> LitTrue(a, l)
  {
    assert l in [l];
  }

  lemma ConcatMeans(a: Assignment, s: seq<Clause>, t: seq<Clause>)
    ensures ClausesTrue(a, s + t) <==> ClausesTrue(a, s) && ClausesTrue(a, t)
    ensures GoodClauses(s + t) <==> GoodClauses(s) && GoodClauses(t)
  {
  }

  lemma CrossWithSingles(a: Assignment, cs: seq<Clause>, ls: Clause, acc: seq<Clause>)
    requires GoodClauses(cs) && GoodClauses(acc) && ls != [] && NonZero(ls)
    ensures var r := KeepRow(OneLiteral, cs, [ls[0]]) + PushRows(OneLiteral, cs, Units(ls[1..]), acc);
      GoodClauses(r) && (ClausesTrue(a, r) <==> ClausesTrue(a, acc) && (ClausesTrue(a, cs) || AllTrue(a, ls)))
  {
    var l, rest := ls[0], ls[1..];
    assert l in ls && l != 0;
    TailIn(ls);
    UnitsMean(a, rest);
    PushRowsMeans(a, OneLiteral, cs, Units(rest), acc);
    KeepRowMeans(a, OneLiteral, cs, [l]);
    UnitMeans(a, l);
    ConcatMeans(a, KeepRow(OneLiteral, cs, [l]), PushRows(OneLiteral, cs, Units(rest), acc));
  }

  lemma CrossListedMeans(a: Assignment, e: Cnf, x: Cnf)
    requires WellFormed(e) && WellFormed(x) && x.litSize != 0
    ensures GoodClauses(CrossListed(e, x))
    ensures ClausesTrue(a, CrossListed(e, x)) <==> ClausesTrue(a, e.clauses) || Holds(a, x)
  {
    if x.singles != [] {
      PushRowsMeans(a, Fresh, e.clauses, x.clauses, []);
      CrossWithSingles(a, e.clauses, x.singles, PushRows(Fresh, e.clauses, x.clauses, []));
    } else {
      CrossWithClauses(a, e.clauses, x.clauses);
    }
  }

  lemma CrossProductMeans(a: Assignment, e: Cnf, x: Cnf)
    requires WellFormed(e) && WellFormed(x) && e.litSize != 0 && x.litSize != 0
    ensures Sound(CrossProduct(e, x))
    ensures Holds(a, CrossProduct(e, x)) <==> Holds(a, e) || Holds(a, x)
    ensures |e.singles| <= MERGING && |x.singles| <= MERGING ==> WellFormed(CrossProduct(e, x))
    ensures |e.singles| <= MERGING && |x.singles| <= MERGING ==> |CrossProduct(e, x).singles| <= |e.singles|
  {
    var l2 := CrossListed(e, x);
    CrossListedMeans(a, e, x);
    UnitsMean(a, e.singles);
    var l3 := PushRows(OneLiteral, x.clauses, Units(e.singles), l2);
    PushRowsMeans(a, OneLiteral, x.clauses, Units(e.singles), l2);
    var l4 := PushAllPairs(e.singles, x.singles, l3);
    PushAllPairsMean(a, e.singles, x.singles, l3);
    MakeHolds(a, AllMatches(e.singles, x.singles), l4);
    AllMatchesIn(e.singles, x.singles);
    MakeSound(AllMatches(e.singles, x.singles), l4);
    if |e.singles| <= MERGING && |x.singles| <= MERGING {
      ShortIsDistinct(x.singles);
      SharedSingles(e.singles, x.singles);
    }
  }

  /** Disjoin an expression that is handed over. */
  function DisjoinExp(e: Cnf, x: Cnf): Cnf {
    if x.litSize == 0 then (if x.clauseSize > 0 then TRUE else e)
    else if e.litSize == 0 then (if e.clauseSize == 0 then x else e)
    else CrossProduct(e, x)
  }

  lemma DisjoinExpMeans(a: Assignment, e: Cnf, x: Cnf)
    requires WellFormed(e) && WellFormed(x)
    ensures Sound(DisjoinExp(e, x))
    ensures Holds(a, DisjoinExp(e, x)) <==> Holds(a, e) || Holds(a, x)
    ensures |e.singles| <= MERGING && |x.singles| <= MERGING ==>
      && WellFormed(DisjoinExp(e, x))
      && (|DisjoinExp(e, x).singles| <= |e.singles| || |DisjoinExp(e, x).singles| <= |x.singles|)
  {
    if e.litSize != 0 && x.litSize != 0 {
      CrossProductMeans(a, e, x);
    }
  }

  // ----- the size of a product -----

  lemma JoinSize(k: Joining, c: Clause, d: Clause)
    requires GoodClause(c) && Joinable(k, d)
    ensures |Join(k, c, d)| <= |c| + |d|
  {
    if k.Fresh? {
      CombineExact(c, d);
    } else if k.InPlace? {
      PlusExact(c, d);
    } else {
      AddLitExact(c, d[0]);
      assert d == [d[0]];
    }
    ExactSize(Join(k, c, d), c, d);
  }

  lemma PushSize(c: Clause, acc: seq<Clause>)
    ensures TotalSize(Push(c, acc)) == |c| + TotalSize(acc) && |Push(c, acc)| <= 1 + |acc|
  {
    assert c != [] ==> ([c] + acc)[1..] == acc;
  }

  ghost function Times(n: nat, d: nat): nat {
    n * d
  }

  lemma TimesStep(n: nat, d: nat)
    ensures Times(n + 1, d) == d + Times(n, d) && Times(d, n + 1) == d + Times(d, n) && Times(0, d) == 0 == Times(d, 0)
  {
  }

  lemma TimesSum(n: nat, c: nat, d: nat)
    ensures Times(n, c + d) == Times(n, c) + Times(n, d) && Times(c + d, n) == Times(c, n) + Times(d, n)
    ensures Times(n, c) == Times(c, n)
  {
  }

  lemma {:induction false} PushRowSize(k: Joining, cs: seq<Clause>, d: Clause, acc: seq<Clause>)
    requires GoodClauses(cs) && Joinable(k, d)
    ensures TotalSize(PushRow(k, cs, d, acc)) <= TotalSize(acc) + TotalSize(cs) + Times(|cs|, |d|)
    ensures |PushRow(k, cs, d, acc)| <= |acc| + |cs|
    decreases |cs|
  {
    hide Times;
    if cs != [] {
      assert cs[0] in cs;
      TailIn(cs);
      JoinSize(k, cs[0], d);
      PushSize(Join(k, cs[0], d), acc);
      PushRowSize(k, cs[1..], d, Push(Join(k, cs[0], d), acc));
      TimesStep(|cs| - 1, |d|);
    }
  }

  lemma {:induction false} KeepRowSize(k: Joining, cs: seq<Clause>, d: Clause)
    requires GoodClauses(cs) && Joinable(k, d)
    ensures TotalSize(KeepRow(k, cs, d)) <= TotalSize(cs) + Times(|cs|, |d|) && |KeepRow(k, cs, d)| <= |cs|
    decreases |cs|
  {
    hide Times;
    if cs != [] {
      assert cs[0] in cs;
      TailIn(cs);
      JoinSize(k, cs[0], d);
      KeepRowSize(k, cs[1..], d);
      PushSize(Join(k, cs[0], d), KeepRow(k, cs[1..], d));
      TimesStep(|cs| - 1, |d|);
    }
  }

  lemma TailJoinable(k: Joining, ds: seq<Clause>)
    requires AllJoinable(k, ds) && ds != []
    ensures Joinable(k, ds[0]) && AllJoinable(k, ds[1..])
  {
    TailIn(ds);
  }

  lemma {:induction false} PushRowsSize(k: Joining, cs: seq<Clause>, ds: seq<Clause>, acc: seq<Clause>)
    requires GoodClauses(cs) && AllJoinable(k, ds)
    ensures TotalSize(PushRows(k, cs, ds, acc))
      <= TotalSize(acc) + Times(|ds|, TotalSize(cs)) + Times(|cs|, TotalSize(ds))
    ensures |PushRows(k, cs, ds, acc)| <= |acc| + Times(|ds|, |cs|)
    decreases |ds|
  {
    hide Times, GoodClauses, PushRow, Joinable, AllJoinable;
    if ds != [] {
      TailJoinable(k, ds);
      PushRowSize(k, cs, ds[0], acc);
      PushRowsSize(k, cs, ds[1..], PushRow(k, cs, ds[0], acc));
      TimesStep(|ds| - 1, TotalSize(cs));
      TimesStep(|ds| - 1, |cs|);
      TimesSum(|cs|, |ds[0]|, TotalSize(ds[1..]));
    }
  }

  lemma {:induction false} PushPairsSize(l: int, u: Clause, acc: seq<Clause>)
    ensures TotalSize(PushPairs(l, u, acc)) + 2 * |Matches(l, u)| <= TotalSize(acc) + 2 * |u|
    ensures |PushPairs(l, u, acc)| + |Matches(l, u)| <= |acc| + |u|
    decreases |u|
  {
    if u != [] {
      var pair := [Pair(l, u[0])] + acc;
      assert pair[1..] == acc;
      PushPairsSize(l, u[1..], if l == u[0] || l == -u[0] then acc else pair);
    }
  }

  lemma {:induction false} PushAllPairsSize(s: Clause, u: Clause, acc: seq<Clause>)
    ensures TotalSize(PushAllPairs(s, u, acc)) + 2 * |AllMatches(s, u)| <= TotalSize(acc) + 2 * Times(|s|, |u|)
    ensures |PushAllPairs(s, u, acc)| + |AllMatches(s, u)| <= |acc| + Times(|s|, |u|)
    decreases |s|
  {
    hide Times;
    TimesStep(0, |u|);
    if s != [] {
      PushPairsSize(s[0], u, acc);
      PushAllPairsSize(s[1..], u, PushPairs(s[0], u, acc));
      TimesStep(|s| - 1, |u|);
    }
  }

  lemma {:induction false} UnitsSize(ls: Clause)
    ensures TotalSize(Units(ls)) == |ls|
    decreases |ls|
  {
    if ls != [] {
      assert Units(ls)[1..] == Units(ls[1..]);
      UnitsSize(ls[1..]);
    }
  }

  lemma CrossListedSize(e: Cnf, x: Cnf)
    requires WellFormed(e) && WellFormed(x) && x.litSize != 0
    ensures var m, z, n := |e.clauses|, TotalSize(e.clauses), |x.singles| + |x.clauses|;
      && TotalSize(CrossListed(e, x)) <= Times(n, z) + Times(m, |x.singles| + TotalSize(x.clauses))
      && |CrossListed(e, x)| <= Times(n, m)
  {
    hide Times, Counted, GoodClauses, PushRow, PushRows, KeepRow, TotalSize, NonZero, WindowSorted, Units;
    if x.singles != [] {
      CrossSinglesSize(e.clauses, x.singles, x.clauses);
    } else {
      NotEmpty(x);
      CrossClausesSize(e.clauses, x.clauses);
    }
  }

  lemma NotEmpty(x: Cnf)
    requires Counted(x) && x.litSize != 0
    ensures x.singles != [] || x.clauses != []
  {
  }

  lemma CrossSinglesSize(cs: seq<Clause>, ls: Clause, ds: seq<Clause>)
    requires GoodClauses(cs) && GoodClauses(ds) && ls != [] && NonZero(ls)
    ensures var r := KeepRow(OneLiteral, cs, [ls[0]])
                     + PushRows(OneLiteral, cs, Units(ls[1..]), PushRows(Fresh, cs, ds, []));
      && TotalSize(r) <= Times(|ls| + |ds|, TotalSize(cs)) + Times(|cs|, |ls| + TotalSize(ds))
      && |r| <= Times(|ls| + |ds|, |cs|)
  {
    hide Times, GoodClauses, PushRow, PushRows, KeepRow, TotalSize, WindowSorted, AllJoinable;
    var l, rest, crossed := ls[0], ls[1..], PushRows(Fresh, cs, ds, []);
    var kept, rows := KeepRow(OneLiteral, cs, [l]), PushRows(OneLiteral, cs, Units(rest), crossed);
    assert l in ls;
    TailIn(ls);
    GoodJoinable(Fresh, ds);
    PushRowsSize(Fresh, cs, ds, []);
    UnitsJoinable(rest);
    UnitsSize(rest);
    EmptySize();
    PushRowsSize(OneLiteral, cs, Units(rest), crossed);
    OneJoinable(l);
    KeepRowSize(OneLiteral, cs, [l]);
    TotalSizeConcat(kept, rows);
    SumOfRows(|rest|, |ds|, TotalSize(cs), |cs|, TotalSize(ds));
  }

  lemma EmptySize()
    ensures TotalSize([]) == 0
  {
  }

  lemma OneSize(d: Clause)
    ensures TotalSize([d]) == |d|
  {
  }

  lemma OneJoinable(l: int)
    requires l != 0
    ensures Joinable(OneLiteral, [l])
  {
  }

  lemma GoodInit(ds: seq<Clause>)
    requires GoodClauses(ds) && ds != []
    ensures GoodClauses(ds[..|ds| - 1])
  {
    assert forall d :: d in ds[..|ds| - 1] ==> d in ds;
  }

  lemma GoodJoinable(k: Joining, ds: seq<Clause>)
    requires GoodClauses(ds) && !k.OneLiteral?
    ensures AllJoinable(k, ds) && forall d :: d in ds ==> Joinable(k, d)
  {
  }

  lemma SumOfRows(r: nat, k: nat, z: nat, m: nat, y: nat)
    ensures z + Times(m, 1) + Times(r, z) + Times(m, r) + Times(k, z) + Times(m, y)
      == Times(r + 1 + k, z) + Times(m, r + 1 + y)
    ensures m + Times(r, m) + Times(k, m) == Times(r + 1 + k, m)
  {
    hide Times;
    TimesSum(z, r + 1, k);
    TimesSum(m, r + 1, y);
    TimesSum(m, r + 1, k);
    TimesStep(r, z);
    TimesStep(r, m);
    TimesStep(0, m);
  }

  lemma CrossClausesSize(cs: seq<Clause>, ds: seq<Clause>)
    requires GoodClauses(cs) && GoodClauses(ds) && ds != []
    ensures var n := |ds| - 1;
      var r := KeepRow(InPlace, cs, ds[n]) + PushRows(Fresh, cs, ds[..n], []);
      && TotalSize(r) <= Times(|ds|, TotalSize(cs)) + Times(|cs|, TotalSize(ds))
      && |r| <= Times(|ds|, |cs|)
  {
    hide Times, GoodClauses, PushRow, PushRows, KeepRow, TotalSize, WindowSorted, AllJoinable, Joinable;
    var k := |ds| - 1;
    var d, rest := ds[k], ds[..k];
    assert ds == rest + [d];
    TotalSizeConcat(rest, [d]);
    OneSize(d);
    EmptySize();
    assert d in ds;
    GoodInit(ds);
    GoodJoinable(Fresh, rest);
    GoodJoinable(InPlace, ds);
    PushRowsSize(Fresh, cs, rest, []);
    KeepRowSize(InPlace, cs, d);
    TotalSizeConcat(KeepRow(InPlace, cs, d), PushRows(Fresh, cs, rest, []));
    TimesStep(k, TotalSize(cs));
    TimesStep(k, |cs|);
    TimesSum(|cs|, TotalSize(rest), |d|);
  }

  /** A cross product has at most as many clauses as there are pairs, and every pair brings at most the literals
      of both. */
  lemma CrossProductSize(e: Cnf, x: Cnf)
    requires WellFormed(e) && WellFormed(x) && e.litSize != 0 && x.litSize != 0
    ensures CrossProduct(e, x).litSize <= x.litSize * e.clauseSize + e.litSize * x.clauseSize
    ensures CrossProduct(e, x).clauseSize <= e.clauseSize * x.clauseSize
  {
    hide WellFormed, Times, GoodClauses, PushRow, PushRows, KeepRow, TotalSize, Units, CrossListed, PushAllPairs,
         AllMatches;
    var l2 := CrossListed(e, x);
    var l3 := PushRows(OneLiteral, x.clauses, Units(e.singles), l2);
    CrossListedSize(e, x);
    RowsOfUnits(e, x, l2);
    PushAllPairsSize(e.singles, x.singles, l3);
    SizesAre(e);
    SizesAre(x);
    FourProducts(|e.singles|, |e.clauses|, TotalSize(e.clauses), |x.singles|, |x.clauses|, TotalSize(x.clauses));
    AtLeastOne(e.clauseSize, x.clauseSize);
  }

  lemma DisjoinExpSize(e: Cnf, x: Cnf)
    requires WellFormed(e) && WellFormed(x) && x.litSize != 0
    ensures DisjoinExp(e, x).litSize <=
      if e.litSize == 0 then x.litSize else x.litSize * e.clauseSize + e.litSize * x.clauseSize
  {
    if e.litSize != 0 {
      CrossProductSize(e, x);
    }
  }

  /** A literal joins every clause. */
  lemma DisjoinLitSize(e: Cnf, l: int)
    requires WellFormed(e) && l != 0
    ensures DisjoinLit(e, l).litSize <= if e.litSize == 0 then 1 else e.litSize + e.clauseSize
  {
    hide WellFormed, Times, GoodClauses, KeepRow, PushAllPairs, AllMatches, TotalSize;
    EmptySize();
    if e.litSize != 0 {
      SizesAre(e);
      OneJoinable(l);
      KeptSize(e, l);
      PushAllPairsSize(e.singles, [l], KeepRow(OneLiteral, e.clauses, [l]));
      TimesStep(0, |e.singles|);
    }
  }

  lemma KeptSize(e: Cnf, l: int)
    requires WellFormed(e) && l != 0
    ensures TotalSize(KeepRow(OneLiteral, e.clauses, [l])) <= TotalSize(e.clauses) + |e.clauses|
  {
    KeepRowSize(OneLiteral, e.clauses, [l]);
  }

  lemma AtLeastOne(n: nat, m: nat)
    requires n > 0 && m > 0
    ensures n * m > 0
  {
  }

  lemma SizesAre(e: Cnf)
    requires WellFormed(e) && e.litSize != 0
    ensures e.litSize == |e.singles| + TotalSize(e.clauses) && e.clauseSize == |e.singles| + |e.clauses| > 0
  {
  }

  lemma RowsOfUnits(e: Cnf, x: Cnf, acc: seq<Clause>)
    requires WellFormed(e) && WellFormed(x)
    ensures var r, n := PushRows(OneLiteral, x.clauses, Units(e.singles), acc), |e.singles|;
      && TotalSize(r) <= TotalSize(acc) + Times(n, TotalSize(x.clauses)) + Times(|x.clauses|, n)
      && |r| <= |acc| + Times(n, |x.clauses|)
  {
    hide Times;
    UnitsJoinable(e.singles);
    UnitsSize(e.singles);
    PushRowsSize(OneLiteral, x.clauses, Units(e.singles), acc);
  }

  lemma FourProducts(n1: nat, m1: nat, z1: nat, n2: nat, m2: nat, z2: nat)
    ensures Times(n2 + m2, z1) + Times(m1, n2 + z2) + Times(n1, z2) + Times(m2, n1) + 2 * Times(n1, n2)
      == (n2 + z2) * (n1 + m1) + (n1 + z1) * (n2 + m2)
    ensures Times(n2 + m2, m1) + Times(n1, m2) + Times(n1, n2) == (n1 + m1) * (n2 + m2)
  {
  }

  // ----- arguments that are still shared -----

  function Reverse<T>(s: seq<T>): seq<T> {
    if s == [] then [] else Reverse(s[1..]) + [s[0]]
  }

  /** Conjoin an expression that stays with its owner, as it is written: copying into an expression
      without listed clauses leaves the first copied clause out of both totals. */
  function ConjoinShared(e: Cnf, x: Cnf): Cnf {
    if x.litSize == 0 then (if x.clauseSize == 0 then FALSE else e)
    else if e.litSize == 0 then (if e.clauseSize != 0 then x.(clauses := Reverse(x.clauses)) else e)
    else
      var s := if x.singles == [] then e.singles else Plus(e.singles, x.singles);
      if s == [] && e.singles != [] && x.singles != [] then FALSE
      else
        var lost := if e.clauses == [] then x.clauses[..if x.clauses == [] then 0 else 1] else [];
        var r := Make(s, Reverse(x.clauses) + e.clauses);
        r.(litSize := r.litSize - TotalSize(lost), clauseSize := r.clauseSize - |lost|)
  }

  function Conjoin(e: Cnf, x: Cnf, destroy: bool): Cnf {
    if destroy then ConjoinExp(e, x) else ConjoinShared(e, x)
  }

  /** Disjoin an expression that stays with its owner. */
  function DisjoinShared(e: Cnf, x: Cnf): Cnf {
    if x.litSize != 0 && e.litSize == 0 && e.clauseSize == 0 then x.(clauses := Reverse(x.clauses))
    else DisjoinExp(e, x)
  }

  function Disjoin(e: Cnf, x: Cnf, destroy: bool): Cnf {
    if destroy then DisjoinExp(e, x) else DisjoinShared(e, x)
  }

  lemma {:induction false} ReverseIn<T>(s: seq<T>)
    ensures |Reverse(s)| == |s| && forall x :: x in Reverse(s) <==> x in s
  {
    if s != [] {
      ReverseIn(s[1..]);
      TailIn(s);
    }
  }

  lemma {:induction false} ReverseSize(s: seq<Clause>)
    ensures TotalSize(Reverse(s)) == TotalSize(s)
  {
    if s != [] {
      ReverseSize(s[1..]);
      TotalSizeConcat(Reverse(s[1..]), [s[0]]);
    }
  }

  /** Sharing a conjunct keeps the totals exact unless listed clauses meet an expression that has
      literals but no listed clause and is not contradicted. */
  lemma ConjoinSharedCounts(e: Cnf, x: Cnf)
    requires WellFormed(e) && WellFormed(x)
    ensures Counted(ConjoinShared(e, x)) <==>
      !(e.litSize != 0 && e.clauses == [] && x.clauses != []
        && !(x.singles != [] && Plus(e.singles, x.singles) == []))
  {
    ReverseIn(x.clauses);
    ReverseSize(x.clauses);
    if e.litSize != 0 && x.litSize != 0 && x.clauses != [] && e.clauses == [] {
      var rest := Reverse(x.clauses);
      assert rest + e.clauses == rest;
      assert x.clauses[..1] == [x.clauses[0]];
      assert GoodClause(x.clauses[0]);
      assert TotalSize(x.clauses[..1]) == |x.clauses[0]|;
    } else if e.litSize != 0 && x.litSize != 0 {
      var cs := Reverse(x.clauses) + e.clauses;
      if cs != [] {
        assert cs[0] in x.clauses || cs[0] in e.clauses;
        TotalSizePositive(cs);
      }
    }
  }

  /** A literal and a shared clause: the clause is missing from both totals. */
  lemma SharedClauseMissing()
    ensures var e, x := Unit(1), Make([], [[2, 3]]);
      && WellFormed(e) && WellFormed(x) && !Counted(ConjoinShared(e, x))
      && ConjoinShared(e, x) == Cnf(1, 1, [1], [[2, 3]])
  {
    hide Plus, AddLit;
    assert GoodClause([2, 3]);
    MakeSound([1], []);
    MakeSound([], [[2, 3]]);
    ConjoinSharedCounts(Unit(1), Make([], [[2, 3]]));
    assert [[2, 3]][1..] == [] && Reverse([[2, 3]]) == [[2, 3]];
    assert [[2, 3]] + [] == [[2, 3]] && [[2, 3]][..1] == [[2, 3]];
  }
}
