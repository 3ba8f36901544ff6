/** The file solver at clause level: what is emitted, and the totals kept for the header. */
module Solvers {
  import opened Literals
  import opened CnfFormulas

  /** Every clause of `cs`, led by the literals of `g`. */
  function Prefixed(g: Clause, cs: seq<Clause>): (r: seq<Clause>)
    ensures |r| == |cs| && forall i :: 0 <= i < |cs| ==> r[i] == g + cs[i]
  {
    seq(|cs|, i requires 0 <= i < |cs| => g + cs[i])
  }

  /** The clauses of an expression that is neither constant. */
  function Listed(e: Cnf): seq<Clause> {
    Units(e.singles) + e.clauses
  }

  /** The clauses saying that `l` implies `e`. */
  function Implication(l: int, e: Cnf): seq<Clause> {
    if IsFalse(e) then [[-l]]
    else if IsTrue(e) then []
    else Prefixed([-l], Listed(e))
  }

  /** The clauses saying `e`, given a variable `v` to contradict. */
  function Assertion(v: int, e: Cnf): seq<Clause> {
    if IsFalse(e) then [[v], [-v]]
    else if IsTrue(e) then []
    else Listed(e)
  }

  lemma PrefixedMeans(a: Assignment, l: int, cs: seq<Clause>)
    requires l != 0
    ensures ClausesTrue(a, Prefixed([-l], cs)) <==> (LitTrue(a, l) ==> ClausesTrue(a, cs))
  {
    var w := Prefixed([-l], cs);
    assert LitTrue(a, -l) == !LitTrue(a, l);
    forall i | 0 <= i < |cs| ensures ClauseTrue(a, w[i]) <==> LitTrue(a, -l) || ClauseTrue(a, cs[i]) {
      assert w[i] == [-l] + cs[i];
      assert -l in w[i];
    }
    if ClausesTrue(a, w) && LitTrue(a, l) {
      forall c | c in cs ensures ClauseTrue(a, c) {
        var i :| 0 <= i < |cs| && cs[i] == c;
        assert w[i] in w;
      }
    }
    if LitTrue(a, l) ==> ClausesTrue(a, cs) {
      forall c | c in w ensures ClauseTrue(a, c) {
        var i :| 0 <= i < |w| && w[i] == c;
        assert cs[i] in cs;
      }
    }
  }

  lemma ListedMeans(a: Assignment, e: Cnf)
    requires WellFormed(e) && e.litSize != 0
    ensures ClausesTrue(a, Listed(e)) <==> Holds(a, e)
  {
    UnitsMean(a, e.singles);
    ConcatMeans(a, Units(e.singles), e.clauses);
  }

  lemma ImplicationMeans(a: Assignment, l: int, e: Cnf)
    requires WellFormed(e) && l != 0
    ensures ClausesTrue(a, Implication(l, e)) <==> (LitTrue(a, l) ==> Holds(a, e))
  {
    if IsFalse(e) {
      assert LitTrue(a, -l) == !LitTrue(a, l);
      UnitMeans(a, -l);
      assert [-l] in Implication(l, e);
    } else if !IsTrue(e) {
      ListedMeans(a, e);
      PrefixedMeans(a, l, Listed(e));
    }
  }

  /** A constraint has the literals of the expression, and one more in every clause. */
  lemma ImplicationSize(l: int, e: Cnf)
    requires WellFormed(e) && e.litSize != 0
    ensures TotalSize(Implication(l, e)) == e.litSize + e.clauseSize && |Implication(l, e)| == e.clauseSize
  {
    PrefixedSize([-l], Listed(e));
    UnitsSize(e.singles);
    TotalSizeConcat(Units(e.singles), e.clauses);
  }

  lemma {:induction false} PrefixedSize(g: Clause, cs: seq<Clause>)
    requires |g| == 1
    ensures TotalSize(Prefixed(g, cs)) == TotalSize(cs) + |cs|
    decreases |cs|
  {
    if cs != [] {
      PrefixedSize(g, cs[1..]);
      assert Prefixed(g, cs)[1..] == Prefixed(g, cs[1..]);
    }
  }

  lemma AssertionMeans(a: Assignment, v: int, e: Cnf)
    requires WellFormed(e) && v != 0
    ensures ClausesTrue(a, Assertion(v, e)) <==> Holds(a, e)
  {
    if IsFalse(e) {
      assert LitTrue(a, -v) == !LitTrue(a, v);
      UnitMeans(a, v);
      UnitMeans(a, -v);
      assert [v] in Assertion(v, e) && [-v] in Assertion(v, e);
    } else if !IsTrue(e) {
      ListedMeans(a, e);
    }
  }

  lemma PrefixedNothing(cs: seq<Clause>)
    ensures Prefixed([], cs) == cs
  {
    forall i | 0 <= i < |cs| ensures Prefixed([], cs)[i] == cs[i] {
      assert [] + cs[i] == cs[i];
    }
  }

  lemma PrefixedConcat(g: Clause, s: seq<Clause>, t: seq<Clause>)
    ensures Prefixed(g, s + t) == Prefixed(g, s) + Prefixed(g, t)
  {
  }

  ghost predicate AllNonZero(cs: seq<Clause>) {
    forall c :: c in cs ==> NonZero(c)
  }

  lemma ListedNonZero(e: Cnf)
    requires NonZero(e.singles) && GoodClauses(e.clauses)
    ensures AllNonZero(Listed(e))
  {
    forall c | c in Listed(e) ensures NonZero(c) {
      if c in Units(e.singles) {
        assert c == [c[0]];
      }
    }
  }

  lemma PrefixedNonZero(g: Clause, cs: seq<Clause>)
    requires NonZero(g) && AllNonZero(cs)
    ensures AllNonZero(Prefixed(g, cs))
  {
    forall c | c in Prefixed(g, cs) ensures NonZero(c) {
      var i :| 0 <= i < |cs| && Prefixed(g, cs)[i] == c;
      assert cs[i] in cs && c == g + cs[i];
    }
  }

  class FileSolver {
    var varCount: nat
    var clauseCount: int
    var clauses: seq<Clause>

    /** The header's clause total is the number of clauses written, and none of them holds the zero that
        ends a clause. */
    ghost predicate Valid()
      reads this
    {
      clauseCount == |clauses| && AllNonZero(clauses)
    }

    constructor (reserved: nat)
      ensures Valid() && varCount == reserved && clauses == []
    {
      varCount, clauseCount, clauses := reserved, 0, [];
    }

    method GetNewVar() returns (v: int)
      modifies this`varCount
      ensures v == varCount == old(varCount) + 1
    {
      varCount := varCount + 1;
      v := varCount;
    }

    method PutClause(c: Clause)
      modifies this`clauses
      ensures clauses == old(clauses) + [c]
    {
      clauses := clauses + [c];
    }

    method Add(l: int)
      requires Valid() && l != 0
      modifies this`clauses, this`clauseCount
      ensures Valid() && clauses == old(clauses) + [[l]]
    {
      clauseCount := clauseCount + 1;
      PutClause([l]);
    }

    /** One clause for every literal of `ls`, led by the literals of `g`. */
    method PutSingles(g: Clause, ls: Clause)
      modifies this`clauses
      ensures clauses == old(clauses) + Prefixed(g, Units(ls))
    {
      ghost var w := Prefixed(g, Units(ls));
      for i := 0 to |ls|
        invariant clauses == old(clauses) + w[..i]
      {
        assert w[i] == g + [ls[i]];
        PutClause(g + [ls[i]]);
      }
    }

    /** The clauses of `cs`, each led by the literals of `g`. */
    method PutListed(g: Clause, cs: seq<Clause>)
      modifies this`clauses
      ensures clauses == old(clauses) + Prefixed(g, cs)
    {
      ghost var w := Prefixed(g, cs);
      for i := 0 to |cs|
        invariant clauses == old(clauses) + w[..i]
      {
        PutClause(g + cs[i]);
      }
    }

    method AddExp(e: Cnf)
      requires Valid() && Sound(e)
      modifies this
      ensures Valid()
      ensures varCount == old(varCount) + if IsFalse(e) then 1 else 0
      ensures clauses == old(clauses) + Assertion(varCount, e)
    {
      hide Units, Prefixed, TotalSize, GoodClauses, NonZero;
      if IsFalse(e) {
        var v := GetNewVar();
        Add(v);
        Add(-v);
      } else if !IsTrue(e) {
        clauseCount := clauseCount + e.clauseSize;
        PutSingles([], e.singles);
        PutListed([], e.clauses);
        ListedNonZero(e);
        PrefixedNothing(Units(e.singles));
        PrefixedNothing(e.clauses);
      }
    }

    method Constrain(l: int, e: Cnf)
      requires Valid() && Sound(e) && l != 0
      modifies this`clauses, this`clauseCount
      ensures Valid() && clauses == old(clauses) + Implication(l, e)
    {
      hide Units, Prefixed;
      if IsFalse(e) {
        Add(-l);
      } else if !IsTrue(e) {
        clauseCount := clauseCount + e.clauseSize;
        PutSingles([-l], e.singles);
        PutListed([-l], e.clauses);
        ListedNonZero(e);
        PrefixedNonZero([-l], Listed(e));
        PrefixedConcat([-l], Units(e.singles), e.clauses);
      }
    }
  }
}
