/** CNF generation: one expression for every needed polarity of every AND node, in post-order. */
module CnfPasses {
  import opened Literals
  import opened LitVectors
  import opened CnfFormulas
  import opened Dags
  import opened Solvers
  import opened CnfInvariants
  import opened CnfStates
  import opened CnfWalks
  import opened WriteBacks

  /** Clauses allowed in an operand of a cross product. */
  const CLAUSE_MAX := 3

  class CnfPass {
    const p: Problem
    const solver: FileSolver
    /** Nodes that always receive a proxy. */
    const forced: set<nat>
    var count: Counts
    var annot: Annots
    var down: set<Edge>
    var up: set<Edge>
    var args: seq<Edge>
    ghost var meaning: map<int, Edge>

    ghost function Now(): Log
      reads this, solver
    {
      Log(solver.clauses, meaning)
    }

    /** Every annotation means what it should. */
    ghost predicate Consistent()
      reads this, solver
    {
      && Sane(p) && solver.Valid()
      && StateOk(p, Now(), annot, up, count)
      && VarsOk(p, Now(), solver.varCount)
    }

    /** The annotations are right, and none that is still wanted is missing. */
    ghost predicate Valid()
      reads this, solver
    {
      Consistent() && Ready(annot, up, count)
    }

    /** The pass starts after expansion: uses are counted, and the only annotations are the
        pointers between the two expansions of one node. */
    constructor (p: Problem, solver: FileSolver, forced: set<nat>, count: Counts, annot: Annots)
      requires Sane(p) && solver.Valid() && solver.clauses == [] && p.inputs <= solver.varCount
      requires forall u :: u in annot ==> AnnotOk(p, Log([], map[]), {}, CountOf(count, u), u, annot[u])
      ensures Valid() && up == {} && down == {}
      ensures this.p == p && this.solver == solver && this.forced == forced
      ensures this.count == count && this.annot == annot
    {
      this.p, this.solver, this.forced := p, solver, forced;
      this.count, this.annot := count, annot;
      down, up, args, meaning := {}, {}, [], map[];
    }

    /** Give the use `u`, whose expression is `e`, a literal: a reused one where the complement
        already has one, a new variable otherwise. */
    method IntroProxy(u: Edge, e: Cnf) returns (l: int)
      requires Consistent() && IsAndLink(p.nodes, u) && u in up
      requires WellFormed(e) && Represents(p, Now(), u, e)
      requires Negate(u) in up || AnnotOf(annot, u).Null? || AnnotOf(annot, u).Semneg?
      modifies this`annot, this`meaning, solver
      ensures Consistent() && LogExtends(old(Now()), Now())
      ensures l != 0 && Represents(p, Now(), u, Unit(l))
      ensures annot == old(annot)[u := Proxy(l)]
      ensures solver.clauses == old(solver.clauses) + Implication(l, e)
      ensures Introduced(old(annot), up, u, l, old(solver.varCount), solver.varCount)
      ensures meaning == if solver.varCount == old(solver.varCount) then old(meaning) else old(meaning)[l := u]
    {
      hide AnnotOk, Reusable, ReusedProxy, Represents, Introduced;
      l := ReusedProxy(annot, up, u);
      ReusedProxyMirrors(p, Now(), annot, up, count, u);
      ghost var before := Now();
      if l == 0 {
        l := solver.GetNewVar();
        FreshMirrors(p, before, u, l);
        meaning := meaning[l := u];
        RepresentsGrows(p, before, Now(), u, e);
      }
      ghost var named := Now();
      ConstrainedProxyRepresents(p, named, u, e, l);
      solver.Constrain(l, e);
      StateLogGrows(p, before, Now(), annot, up, count);
      StateProxy(p, Now(), annot, up, count, u, l);
      FoundOrNew(annot, up, u, l, old(solver.varCount), solver.varCount);
      annot := annot[u := Proxy(l)];
    }

    /** Count off one use of `x`; with `take`, its annotation goes too. */
    method Consume(x: Edge, take: bool)
      requires Valid() && IsAndLink(p.nodes, x) && CountOf(count, x) > 0 && (take ==> CountOf(count, x) == 1)
      requires AnnotOf(annot, x).Expr? && AnnotOf(annot, x).e.litSize != 0 ==> take
      modifies this`count, this`annot
      ensures Valid() && Spent(old(count), count, multiset{x})
      ensures annot == if take then old(annot)[x := Null] else old(annot)
    {
      StateConsume(p, Now(), annot, up, count, x, take);
      count := count[x := CountOf(count, x) - 1];
      if take {
        annot := annot[x := Null];
      }
    }

    /** An argument whose expression can be taken over is no larger than the one set aside. */
    ghost predicate NoLarger(x: Edge, largest: Option<Cnf>)
      reads this
    {
      x.Link? && CountOf(count, x) == 1 && AnnotOf(annot, x).Expr? ==>
        largest.Some? && AnnotOf(annot, x).e.litSize <= largest.value.litSize
    }

    /** What is set aside can be taken over. */
    ghost predicate Candidate(largest: Option<Cnf>, largestEdge: Edge)
      reads this
    {
      largest.Some? ==>
        largestEdge.Link? && CountOf(count, largestEdge) == 1 && AnnotOf(annot, largestEdge) == Expr(largest.value)
    }

    /** The use `x` holds an expression that is not constant. */
    ghost predicate HasLiterals(x: Edge)
      reads this
    {
      x.Link? && AnnotOf(annot, x).Expr? && AnnotOf(annot, x).e.litSize != 0
    }

    static ghost function Aside(largest: Option<Cnf>, largestEdge: Edge): multiset<Edge> {
      if largest.Some? then multiset{largestEdge} else multiset{}
    }

    /** One more argument: it is set aside if it is the largest to be taken over so far. */
    method CollectArg(arg: Edge, largest: Option<Cnf>, largestEdge: Edge)
      returns (largest': Option<Cnf>, largestEdge': Edge)
      requires Candidate(largest, largestEdge) && forall x :: x in args ==> NoLarger(x, largest)
      modifies this`args
      ensures multiset(args) + Aside(largest', largestEdge')
        == multiset{arg} + old(multiset(args) + Aside(largest, largestEdge))
      ensures Candidate(largest', largestEdge') && forall x :: x in args ==> NoLarger(x, largest')
    {
      largest', largestEdge' := largest, largestEdge;
      if arg.Link? && CountOf(count, arg) == 1 && AnnotOf(annot, arg).Expr? {
        var e := AnnotOf(annot, arg).e;
        if largest.None? {
          largest', largestEdge' := Some(e), arg;
          return;
        } else if e.litSize > largest.value.litSize {
          args := args + [largestEdge];
          largest', largestEdge' := Some(e), arg;
          return;
        }
      }
      args := args + [arg];
    }

    /** Gather the arguments of `u`, all but the largest expression that can be taken over. */
    method CollectArgs(u: Edge) returns (largest: Option<Cnf>, largestEdge: Edge)
      requires u.Link? && u.id < |p.nodes|
      modifies this`args
      ensures multiset(args) + Aside(largest, largestEdge) == multiset(ResolvedArgs(p, u))
      ensures Candidate(largest, largestEdge) && forall x :: x in args ==> NoLarger(x, largest)
    {
      ghost var rs := ResolvedArgs(p, u);
      args, largest, largestEdge := [], None, True;
      var i := |p.nodes[u.id].args|;
      while i != 0
        invariant 0 <= i <= |rs|
        invariant multiset(args) + Aside(largest, largestEdge) == multiset(rs[i..])
        invariant Candidate(largest, largestEdge) && forall x :: x in args ==> NoLarger(x, largest)
      {
        i := i - 1;
        assert rs[i..] == [rs[i]] + rs[i + 1..];
        var arg := Resolve(p, NegateIf(p.nodes[u.id].args[i], u.neg));
        largest, largestEdge := CollectArg(arg, largest, largestEdge);
      }
      assert rs[0..] == rs;
    }

    /** Collect the arguments of `u`, taking over the expression that is set aside. */
    method FillArgs(u: Edge) returns (largest: Option<Cnf>, largestEdge: Edge)
      requires Valid() && IsAndLink(p.nodes, u)
      modifies this`args, this`count, this`annot
      ensures Valid()
      ensures var bag := Aside(largest, largestEdge);
        multiset(args) + bag == multiset(ResolvedArgs(p, u)) && Spent(old(count), count, bag)
      ensures forall x :: x in args ==> old(NoLarger(x, largest))
      ensures largest.Some? ==>
        && IsAndLink(p.nodes, largestEdge) && largestEdge in up && AnnotOf(annot, largestEdge).Null?
        && WellFormed(largest.value) && Represents(p, Now(), largestEdge, largest.value)
        && old(CountOf(count, largestEdge)) == 1 && old(AnnotOf(annot, largestEdge)) == Expr(largest.value)
    {
      largest, largestEdge := CollectArgs(u);
      if largest.Some? {
        assert AnnotOk(p, Now(), up, CountOf(count, largestEdge), largestEdge, annot[largestEdge]);
        Consume(largestEdge, true);
      }
    }

    /** Conjoin one argument, consuming its use. An expression with literals is at its last use, so it
        is handed over, and never takes the way of a shared one. */
    method ConjoinArg(x: Edge, accum: Cnf, ghost xs: set<Edge>) returns (r: Cnf)
      requires Valid() && IsEdge(p, x) && (x.Link? ==> IsAndLink(p.nodes, x) && x in up && CountOf(count, x) > 0)
      requires WellFormed(accum) && AreEdges(p, xs) && RepresentsAll(p, Now(), true, xs, accum)
      modifies this`count, this`annot
      ensures Valid() && Spent(old(count), count, multiset{x})
      ensures WellFormed(r) && RepresentsAll(p, Now(), true, xs + {x}, r)
      ensures old(HasLiterals(x)) ==>
        && old(CountOf(count, x)) == 1 && AnnotOf(annot, x).Null?
        && r == ConjoinExp(accum, old(AnnotOf(annot, x)).e)
    {
      if x.Leaf? {
        AtomRepresents(p, Now(), x);
        r := ConjoinLit(accum, AtomLit(x));
        ConjoinLitRepresents(xs, accum, x, AtomLit(x));
      } else {
        var argExp := AnnotOf(annot, x);
        assert AnnotOk(p, Now(), up, CountOf(count, x), x, annot[x]);
        var destroy := CountOf(count, x) - 1 == 0;
        if argExp.Proxy? {
          r := ConjoinLit(accum, argExp.l);
          ConjoinLitRepresents(xs, accum, x, argExp.l);
          Consume(x, false);
        } else {
          r := Conjoin(accum, argExp.e, destroy);
          ConjoinRepresents(xs, accum, x, argExp.e);
          Consume(x, destroy);
        }
      }
    }

    lemma ConjoinLitRepresents(xs: set<Edge>, accum: Cnf, x: Edge, l: int)
      requires Sane(p) && LogOk(p, Now()) && IsEdge(p, x) && l != 0 && Represents(p, Now(), x, Unit(l))
      requires WellFormed(accum) && AreEdges(p, xs) && RepresentsAll(p, Now(), true, xs, accum)
      ensures WellFormed(ConjoinLit(accum, l)) && RepresentsAll(p, Now(), true, xs + {x}, ConjoinLit(accum, l))
    {
      forall a: Assignment
        ensures WellFormed(ConjoinLit(accum, l))
        ensures Holds(a, ConjoinLit(accum, l)) <==> Holds(a, accum) && Holds(a, Unit(l))
      {
        ConjoinLitMeans(a, accum, l);
        UnitHolds(a, l);
      }
      ConjoinLitMeans(iset{}, accum, l);
      OneMoreRepresented(p, Now(), true, xs, accum, x, Unit(l), ConjoinLit(accum, l));
    }

    lemma ConjoinRepresents(xs: set<Edge>, accum: Cnf, x: Edge, e: Cnf)
      requires Sane(p) && LogOk(p, Now()) && IsEdge(p, x) && WellFormed(e) && Represents(p, Now(), x, e)
      requires WellFormed(accum) && AreEdges(p, xs) && RepresentsAll(p, Now(), true, xs, accum)
      ensures WellFormed(ConjoinExp(accum, e)) && RepresentsAll(p, Now(), true, xs + {x}, ConjoinExp(accum, e))
    {
      forall a: Assignment
        ensures Holds(a, ConjoinExp(accum, e)) <==> Holds(a, accum) && Holds(a, e)
      {
        ConjoinExpMeans(a, accum, e);
      }
      ConjoinExpMeans(iset{}, accum, e);
      OneMoreRepresented(p, Now(), true, xs, accum, x, e, ConjoinExp(accum, e));
    }

    /** One argument more for the conjunction. */
    method ConjoinNext(u: Edge, x: Edge, accum: Cnf, ghost before: Counts, ghost done: multiset<Edge>,
                       ghost rest: multiset<Edge>)
      returns (r: Cnf, ghost done': multiset<Edge>)
      requires Valid() && IsAndLink(p.nodes, u) && !u.neg && ArgsReady(p, up, before, u)
      requires Taken(p, Now(), u, before, count, done, rest + multiset{x}, accum)
      modifies this`count, this`annot
      ensures Valid() && Taken(p, Now(), u, before, count, done', rest, r)
    {
      ghost var was := count;
      ArgIsReady(p, up, before, count, u, x, done, rest);
      r := ConjoinArg(x, accum, Elements(done));
      TakenOneMore(p, Now(), u, before, was, count, done, rest, x, r);
      done' := done + multiset{x};
    }

    /** The expression of the positive polarity: the conjunction of the arguments. */
    method ProduceConjunction(u: Edge) returns (accum: Cnf)
      requires Valid() && IsAndLink(p.nodes, u) && !u.neg && ArgsReady(p, up, count, u)
      modifies this`args, this`count, this`annot
      ensures Valid() && Spent(old(count), count, multiset(ResolvedArgs(p, u)))
      ensures WellFormed(accum) && Represents(p, Now(), u, accum)
    {
      var largest, largestEdge := FillArgs(u);
      accum := if largest.Some? then largest.value else TRUE;
      ghost var done := StartTaken(p, Now(), u, old(count), count, largest, largestEdge, multiset(args));
      var i := |args|;
      assert args[..i] == args;
      while i != 0
        invariant 0 <= i <= |args|
        invariant Valid() && Taken(p, Now(), u, old(count), count, done, multiset(args[..i]), accum)
      {
        i := i - 1;
        assert args[..i + 1] == args[..i] + [args[i]];
        accum, done := ConjoinNext(u, args[i], accum, old(count), done, multiset(args[..i]));
      }
      TakenAll(p, Now(), u, old(count), count, done, accum);
    }

    lemma DisjoinLitRepresents(xs: set<Edge>, accum: Cnf, x: Edge, l: int)
      requires Sane(p) && LogOk(p, Now()) && IsEdge(p, x) && l != 0 && Represents(p, Now(), x, Unit(l))
      requires WellFormed(accum) && |accum.singles| <= CLAUSE_MAX
      requires AreEdges(p, xs) && RepresentsAll(p, Now(), false, xs, accum)
      ensures WellFormed(DisjoinLit(accum, l)) && |DisjoinLit(accum, l).singles| <= CLAUSE_MAX
      ensures RepresentsAll(p, Now(), false, xs + {x}, DisjoinLit(accum, l))
    {
      forall a: Assignment
        ensures Holds(a, DisjoinLit(accum, l)) <==> Holds(a, accum) || Holds(a, Unit(l))
      {
        DisjoinLitMeans(a, accum, l);
        UnitHolds(a, l);
      }
      DisjoinLitMeans(iset{}, accum, l);
      OneMoreRepresented(p, Now(), false, xs, accum, x, Unit(l), DisjoinLit(accum, l));
    }

    lemma DisjoinRepresents(xs: set<Edge>, accum: Cnf, x: Edge, e: Cnf)
      requires Sane(p) && LogOk(p, Now()) && IsEdge(p, x)
      requires WellFormed(e) && Represents(p, Now(), x, e) && |e.singles| <= CLAUSE_MAX
      requires WellFormed(accum) && |accum.singles| <= CLAUSE_MAX
      requires AreEdges(p, xs) && RepresentsAll(p, Now(), false, xs, accum)
      ensures WellFormed(DisjoinExp(accum, e)) && |DisjoinExp(accum, e).singles| <= CLAUSE_MAX
      ensures RepresentsAll(p, Now(), false, xs + {x}, DisjoinExp(accum, e))
    {
      forall a: Assignment
        ensures Holds(a, DisjoinExp(accum, e)) <==> Holds(a, accum) || Holds(a, e)
      {
        DisjoinExpMeans(a, accum, e);
      }
      DisjoinExpMeans(iset{}, accum, e);
      OneMoreRepresented(p, Now(), false, xs, accum, x, e, DisjoinExp(accum, e));
    }

    /** An operand of a cross product is small enough not to be given a proxy. */
    static predicate NeedsProxy(accum: Cnf, argExp: Cnf) {
      var aL, eL, aC, eC := accum.litSize, argExp.litSize, accum.clauseSize, argExp.clauseSize;
      eC > CLAUSE_MAX || eL * aC + aL * eC > eL + aC + aL + aC
    }

    /** Give an operand a proxy and disjoin that. */
    method DisjoinByProxy(x: Edge, e: Cnf, accum: Cnf, ghost xs: set<Edge>) returns (r: Cnf)
      requires Valid() && IsAndLink(p.nodes, x) && x in up && Negate(x) in up
      requires WellFormed(e) && Represents(p, Now(), x, e)
      requires WellFormed(accum) && |accum.singles| <= CLAUSE_MAX
      requires AreEdges(p, xs) && RepresentsAll(p, Now(), false, xs, accum)
      modifies this`annot, this`meaning, solver
      ensures Valid() && LogExtends(old(Now()), Now()) && AnnotOf(annot, x).Proxy?
      ensures WellFormed(r) && |r.singles| <= CLAUSE_MAX && RepresentsAll(p, Now(), false, xs + {x}, r)
      ensures var l := AnnotOf(annot, x).l;
        && Introduced(old(annot), up, x, l, old(solver.varCount), solver.varCount)
        && r == DisjoinLit(accum, l) && solver.clauses == old(solver.clauses) + Implication(l, e)
    {
      ghost var before := Now();
      var l := IntroProxy(x, e);
      RepresentsAllGrows(p, before, Now(), false, xs, accum);
      r := DisjoinLit(accum, l);
      DisjoinLitRepresents(xs, accum, x, l);
    }

    /** A literal joins every clause, and its constraint has one literal more in every clause. */
    static lemma ProxySizes(accum: Cnf, e: Cnf, l: int)
      requires WellFormed(accum) && WellFormed(e) && e.litSize != 0 && l != 0
      ensures TotalSize(Implication(l, e)) == e.litSize + e.clauseSize
      ensures accum.litSize != 0 ==> DisjoinLit(accum, l).litSize <= accum.litSize + accum.clauseSize
    {
      ImplicationSize(l, e);
      DisjoinLitSize(accum, l);
    }

    /** A small operand makes a product of bounded size, and leaves room for what is written back. */
    static lemma CrossedSizes(accum: Cnf, e: Cnf)
      requires WellFormed(accum) && WellFormed(e) && e.litSize != 0 && !NeedsProxy(accum, e)
      ensures Roomy(accum.singles, e.singles)
      ensures DisjoinExp(accum, e).litSize <= e.litSize + accum.litSize + 2 * accum.clauseSize
    {
      ShortIsDistinct(e.singles);
      DistinctIsRoomy(accum.singles, e.singles);
      DisjoinExpSize(accum, e);
    }

    /** Disjoin an argument that holds an expression with literals; a large one gets a proxy first, any
        other is handed over at its last use, with room for the singletons that are written back.
        (The use is counted off after the proxy is introduced, which does not read the count.) */
    method DisjoinOperand(x: Edge, e: Cnf, accum: Cnf, ghost xs: set<Edge>) returns (r: Cnf)
      requires Valid() && IsAndLink(p.nodes, x) && x in up && Negate(x) in up && CountOf(count, x) > 0
      requires AnnotOf(annot, x) == Expr(e) && e.litSize != 0
      requires WellFormed(accum) && |accum.singles| <= CLAUSE_MAX
      requires AreEdges(p, xs) && RepresentsAll(p, Now(), false, xs, accum)
      modifies this`count, this`annot, this`meaning, solver
      ensures Valid() && LogExtends(old(Now()), Now()) && Spent(old(count), count, multiset{x})
      ensures WellFormed(r) && |r.singles| <= CLAUSE_MAX && RepresentsAll(p, Now(), false, xs + {x}, r)
      ensures old(CountOf(count, x)) == 1
      ensures e.clauseSize <= CLAUSE_MAX &&
              e.litSize * accum.clauseSize + accum.litSize * e.clauseSize
              <= e.litSize + accum.litSize + 2 * accum.clauseSize <==>
              AnnotOf(annot, x).Null?
      ensures AnnotOf(annot, x).Null? ==>
        && r == DisjoinExp(accum, e) && Roomy(accum.singles, e.singles)
        && r.litSize <= e.litSize + accum.litSize + 2 * accum.clauseSize
        && solver.varCount == old(solver.varCount) && solver.clauses == old(solver.clauses)
      ensures !AnnotOf(annot, x).Null? ==>
        && AnnotOf(annot, x).Proxy? && var l := AnnotOf(annot, x).l;
        && Introduced(old(annot), up, x, l, old(solver.varCount), solver.varCount)
        && r == DisjoinLit(accum, l) && solver.clauses == old(solver.clauses) + Implication(l, e)
        && TotalSize(Implication(l, e)) == e.litSize + e.clauseSize
        && (accum.litSize != 0 ==> r.litSize <= accum.litSize + accum.clauseSize)
    {
      hide Roomy, Represents, RepresentsAll, DisjoinExp, DisjoinLit, Implication, TotalSize, AreEdges, Introduced;
      assert AnnotOk(p, Now(), up, CountOf(count, x), x, annot[x]);
      var destroy := CountOf(count, x) - 1 == 0;
      if NeedsProxy(accum, e) {
        r := DisjoinByProxy(x, e, accum, xs);
        ProxiesNotZero(p, Now(), annot, up, count);
        ProxySizes(accum, e, AnnotOf(annot, x).l);
        Consume(x, false);
      } else {
        r := Disjoin(accum, e, destroy);
        DisjoinRepresents(xs, accum, x, e);
        CrossedSizes(accum, e);
        Consume(x, destroy);
      }
    }

    /** Disjoin one argument, consuming its use. */
    method DisjoinArg(x: Edge, accum: Cnf, ghost xs: set<Edge>) returns (r: Cnf)
      requires Valid() && IsEdge(p, x)
      requires x.Link? ==> IsAndLink(p.nodes, x) && x in up && Negate(x) in up && CountOf(count, x) > 0
      requires WellFormed(accum) && |accum.singles| <= CLAUSE_MAX
      requires AreEdges(p, xs) && RepresentsAll(p, Now(), false, xs, accum)
      modifies this`count, this`annot, this`meaning, solver
      ensures Valid() && LogExtends(old(Now()), Now()) && Spent(old(count), count, multiset{x})
      ensures WellFormed(r) && |r.singles| <= CLAUSE_MAX && RepresentsAll(p, Now(), false, xs + {x}, r)
      ensures (old(HasLiterals(x)) && NeedsProxy(accum, old(AnnotOf(annot, x)).e))
        || (solver.clauses == old(solver.clauses) && solver.varCount == old(solver.varCount))
    {
      hide Represents, RepresentsAll, Implication, TotalSize, Roomy;
      if x.Leaf? {
        AtomRepresents(p, Now(), x);
        r := DisjoinLit(accum, AtomLit(x));
        DisjoinLitRepresents(xs, accum, x, AtomLit(x));
        return;
      }
      var argExp := AnnotOf(annot, x);
      assert AnnotOk(p, Now(), up, CountOf(count, x), x, annot[x]);
      if argExp.Expr? && argExp.e.litSize != 0 {
        r := DisjoinOperand(x, argExp.e, accum, xs);
        return;
      }
      if argExp.Proxy? {
        r := DisjoinLit(accum, argExp.l);
        DisjoinLitRepresents(xs, accum, x, argExp.l);
      } else {
        r := Disjoin(accum, argExp.e, CountOf(count, x) - 1 == 0);
        DisjoinRepresents(xs, accum, x, argExp.e);
      }
      Consume(x, false);
    }

    /** The accumulator of a disjunction: the largest expression that can be taken over, behind a proxy if it
        has more than three clauses and as it is otherwise, without any new clause. */
    method OpenDisjunction(u: Edge) returns (accum: Cnf, ghost done: multiset<Edge>, ghost largest: Option<Cnf>)
      requires Valid() && IsAndLink(p.nodes, u) && u.neg && ArgsReady(p, up, count, u)
      modifies this`args, this`count, this`annot, this`meaning, solver
      ensures Valid() && LogExtends(old(Now()), Now())
      ensures Taken(p, Now(), u, old(count), count, done, multiset(args), accum)
      ensures |accum.singles| <= CLAUSE_MAX
      ensures forall x: Edge ::
        x in args && x.Link? && old(CountOf(count, x)) == 1 && old(AnnotOf(annot, x)).Expr? ==>
          largest.Some? && old(AnnotOf(annot, x)).e.litSize <= largest.value.litSize
      ensures largest.Some? ==> exists x :: old(CountOf(count, x)) == 1 && old(AnnotOf(annot, x)) == Expr(largest.value)
      ensures if largest.Some? && largest.value.clauseSize > CLAUSE_MAX
              then exists l :: accum == Unit(l) && solver.clauses == old(solver.clauses) + Implication(l, largest.value)
              else accum == (if largest.Some? then largest.value else FALSE) &&
                   solver.clauses == old(solver.clauses) && solver.varCount == old(solver.varCount)
    {
      hide Taken, Spent, Represents, ResolvedArgs, Implication;
      var aside, largestEdge := FillArgs(u);
      largest := aside;
      ghost var taken := aside;
      accum := if aside.Some? then aside.value else FALSE;
      if accum.clauseSize > CLAUSE_MAX {
        var l := IntroProxy(largestEdge, accum);
        accum := Unit(l);
        UnitHolds(iset{}, l);
        taken := Some(accum);
      }
      done := StartTaken(p, Now(), u, old(count), count, taken, largestEdge, multiset(args));
    }

    /** One argument more for the disjunction. */
    method DisjoinNext(u: Edge, x: Edge, accum: Cnf, ghost before: Counts, ghost done: multiset<Edge>,
                       ghost rest: multiset<Edge>)
      returns (r: Cnf, ghost done': multiset<Edge>)
      requires Valid() && IsAndLink(p.nodes, u) && u.neg && ArgsReady(p, up, before, u)
      requires Taken(p, Now(), u, before, count, done, rest + multiset{x}, accum) && |accum.singles| <= CLAUSE_MAX
      modifies this`count, this`annot, this`meaning, solver
      ensures Valid() && LogExtends(old(Now()), Now())
      ensures Taken(p, Now(), u, before, count, done', rest, r) && |r.singles| <= CLAUSE_MAX
    {
      ghost var was := count;
      ArgIsReady(p, up, before, count, u, x, done, rest);
      r := DisjoinArg(x, accum, Elements(done));
      TakenOneMore(p, Now(), u, before, was, count, done, rest, x, r);
      done' := done + multiset{x};
    }

    /** The expression of the negative polarity: the disjunction of the complemented arguments. */
    method ProduceDisjunction(u: Edge) returns (accum: Cnf)
      requires Valid() && IsAndLink(p.nodes, u) && u.neg && ArgsReady(p, up, count, u)
      modifies this`args, this`count, this`annot, this`meaning, solver
      ensures Valid() && LogExtends(old(Now()), Now())
      ensures Spent(old(count), count, multiset(ResolvedArgs(p, u)))
      ensures WellFormed(accum) && Represents(p, Now(), u, accum) && |accum.singles| <= CLAUSE_MAX
    {
      hide Ready, VarsOk, Represents, AnnotOk, Taken, ArgsReady;
      ghost var done, largest;
      accum, done, largest := OpenDisjunction(u);
      var i := |args|;
      assert args[..i] == args;
      while i != 0
        invariant 0 <= i <= |args|
        invariant Valid() && LogExtends(old(Now()), Now())
        invariant Taken(p, Now(), u, old(count), count, done, multiset(args[..i]), accum)
        invariant |accum.singles| <= CLAUSE_MAX
      {
        i := i - 1;
        assert args[..i + 1] == args[..i] + [args[i]];
        accum, done := DisjoinNext(u, args[i], accum, old(count), done, multiset(args[..i]));
      }
      TakenAll(p, Now(), u, old(count), count, done, accum);
    }

    /** Finish the use `u` with its expression, if it has one: a single literal is kept as such,
        an expression wanted more than once or by force gets a proxy. */
    method SaveCnf(exp: Option<Cnf>, u: Edge)
      requires Valid() && IsAndLink(p.nodes, u) && u !in up
      requires exp.None? ==> CountOf(count, u) == 0
      requires exp.Some? ==> WellFormed(exp.value) && Represents(p, Now(), u, exp.value)
      requires exp.Some? && exp.value.litSize != 0 ==> CountOf(count, u) > 0
      modifies this`up, this`annot, this`meaning, solver
      ensures Valid() && LogExtends(old(Now()), Now())
      ensures up == old(up) + {u}
      ensures exp.Some? && exp.value.litSize == 1 ==>
        AnnotOf(annot, u).Proxy? && exp.value.singles == [AnnotOf(annot, u).l]
      ensures exp.Some? && (exp.value.litSize == 0 || (CountOf(count, u) <= 1 && u.id !in forced)) ==>
        exp.value.litSize == 1 || AnnotOf(annot, u) == Expr(exp.value)
      ensures forall w :: w != u || exp.None? ==> AnnotOf(annot, w) == AnnotOf(old(annot), w)
      ensures if exp.Some? && exp.value.litSize > 1 && (CountOf(count, u) > 1 || u.id in forced)
              then AnnotOf(annot, u).Proxy? && var l := AnnotOf(annot, u).l;
                   && Introduced(old(annot), up, u, l, old(solver.varCount), solver.varCount)
                   && solver.clauses == old(solver.clauses) + Implication(l, exp.value)
              else solver.clauses == old(solver.clauses) && solver.varCount == old(solver.varCount)
    {
      hide Introduced, Implication;
      if exp.None? {
        StateMarked(p, Now(), annot, up, count, u);
        up := up + {u};
        return;
      }
      var e := exp.value;
      if e.litSize == 1 {
        SingleLiteral(e);
        var l := e.singles[0];
        StateFinish(p, Now(), annot, up, count, u, Proxy(l));
        up := up + {u};
        annot := annot[u := Proxy(l)];
      } else if e.litSize != 0 && (CountOf(count, u) > 1 || u.id in forced) {
        StateMarked(p, Now(), annot, up, count, u);
        up := up + {u};
        var l := IntroProxy(u, e);
      } else {
        StateFinish(p, Now(), annot, up, count, u, Expr(e));
        up := up + {u};
        annot := annot[u := Expr(e)];
      }
    }

    /** A constant found for one polarity fixes the other one. */
    static function Propagate(dest: Option<Cnf>, src: Option<Cnf>): Option<Cnf> {
      if src.Some? && src.value.litSize == 0 then Some(if IsFalse(src.value) then TRUE else FALSE) else dest
    }

    /** What may be saved for a use: nothing if it is not wanted, otherwise an expression for it. */
    ghost predicate Fits(exp: Option<Cnf>, u: Edge)
      reads this, solver
      requires Consistent() && IsAndLink(p.nodes, u)
    {
      && (exp.None? ==> CountOf(count, u) == 0)
      && (exp.Some? ==> WellFormed(exp.value) && Represents(p, Now(), u, exp.value))
      && (exp.Some? && exp.value.litSize != 0 ==> CountOf(count, u) > 0)
    }

    lemma PropagateFits(dest: Option<Cnf>, src: Option<Cnf>, u: Edge)
      requires Consistent() && IsAndLink(p.nodes, u) && Fits(dest, Negate(u)) && Fits(src, u)
      ensures Fits(Propagate(dest, src), Negate(u))
    {
      if src.Some? && src.value.litSize == 0 {
        ConstantPropagates(p, Now(), u, src.value);
      }
    }

    lemma FitsLater(before: Log, exp: Option<Cnf>, u: Edge)
      requires Consistent() && IsAndLink(p.nodes, u) && MeaningOk(p, before.meaning) && LogExtends(before, Now())
      requires exp.Some? ==> Represents(p, before, u, exp.value)
      ensures exp.Some? ==> Represents(p, Now(), u, exp.value)
    {
      if exp.Some? {
        RepresentsGrows(p, before, Now(), u, exp.value);
      }
    }

    /** The expressions of both polarities of a node, as far as they are wanted. */
    method ProduceBoth(id: nat) returns (expPos: Option<Cnf>, expNeg: Option<Cnf>)
      requires Valid() && IsAndLink(p.nodes, Link(id, false)) && NodeReady(p, up, count, id)
      modifies this`args, this`count, this`annot, this`meaning, solver
      ensures Valid() && LogExtends(old(Now()), Now())
      ensures Spent(old(count), count, NodeBag(p, old(count), id))
      ensures CountOf(count, Link(id, false)) == CountOf(old(count), Link(id, false))
      ensures CountOf(count, Link(id, true)) == CountOf(old(count), Link(id, true))
      ensures Fits(expPos, Link(id, false)) && Fits(expNeg, Link(id, true))
    {
      hide NodeReady, NodeBag, Represents;
      ghost var before := Now();
      expPos, expNeg := None, None;
      if CountOf(count, Link(id, false)) > 0 {
        FirstPolarity(p, up, count, id);
        var e := ProduceConjunction(Link(id, false));
        expPos := Some(e);
      }
      ghost var between, conjoined := count, Now();
      OtherPolarity(p, up, old(count), count, id);
      if CountOf(count, Link(id, true)) > 0 {
        var e := ProduceDisjunction(Link(id, true));
        expNeg := Some(e);
      }
      FitsLater(conjoined, expPos, Link(id, false));
      SpentBoth(p, old(count), between, count, id);
    }

    static ghost predicate Constant(exp: Option<Cnf>) {
      exp.Some? && exp.value.litSize == 0
    }

    /** If one is constant, the other is the opposite constant. */
    static ghost predicate Opposed(exp: Option<Cnf>, other: Option<Cnf>) {
      Constant(exp) || Constant(other) ==> Constant(exp) && Constant(other) && IsTrue(exp.value) == IsFalse(other.value)
    }

    /** The expression of a use that holds one. */
    static ghost function ExpOf(annot: Annots, u: Edge): Option<Cnf> {
      if AnnotOf(annot, u).Expr? then Some(AnnotOf(annot, u).e) else None
    }

    /** Save a use and then its complement; of a constant both are saved. */
    method SaveBoth(exp: Option<Cnf>, other: Option<Cnf>, u: Edge)
      requires Valid() && IsAndLink(p.nodes, u) && u !in up && Negate(u) !in up
      requires Fits(exp, u) && Fits(other, Negate(u)) && Opposed(exp, other)
      modifies this`up, this`annot, this`meaning, solver
      ensures Valid() && LogExtends(old(Now()), Now())
      ensures up == old(up) + {u, Negate(u)}
      ensures Opposed(ExpOf(annot, u), ExpOf(annot, Negate(u)))
      ensures Constant(exp) ==> ExpOf(annot, u) == exp && ExpOf(annot, Negate(u)) == other
    {
      NoExpYet(p, Now(), annot, up, count, u);
      NoExpYet(p, Now(), annot, up, count, Negate(u));
      ghost var before := Now();
      SaveCnf(exp, u);
      FitsLater(before, other, Negate(u));
      SaveCnf(other, Negate(u));
    }

    /** Let a constant found for one polarity decide the other, whether that is wanted or not. */
    method PropagateConstants(expPos: Option<Cnf>, expNeg: Option<Cnf>, ghost id: nat)
      returns (pos: Option<Cnf>, neg: Option<Cnf>)
      requires Consistent() && IsAndLink(p.nodes, Link(id, false))
      requires Fits(expPos, Link(id, false)) && Fits(expNeg, Link(id, true))
      ensures Fits(pos, Link(id, false)) && Fits(neg, Link(id, true))
      ensures Opposed(pos, neg) && (Constant(pos) ==> Constant(expPos) || Constant(expNeg))
      ensures !Constant(pos) ==> pos == expPos && neg == expNeg
    {
      if expNeg.Some? && expNeg.value.litSize == 0 {
        PropagateFits(expPos, expNeg, Link(id, true));
        pos, neg := Propagate(expPos, expNeg), expNeg;
      } else {
        PropagateFits(expNeg, expPos, Link(id, false));
        pos, neg := expPos, Propagate(expNeg, expPos);
      }
    }

    /** Produce a node that is on top of the work queue through the edge `e`; the polarity it was
        discovered in is saved first. */
    method ProduceCnf(e: Edge)
      requires Valid() && IsAndLink(p.nodes, e) && NodeReady(p, up, count, e.id)
      requires e !in up && Negate(e) !in up
      modifies this`args, this`count, this`annot, this`up, this`meaning, solver
      ensures Valid() && LogExtends(old(Now()), Now())
      ensures Spent(old(count), count, NodeBag(p, old(count), e.id))
      ensures up == old(up) + {e, Negate(e)}
      ensures Opposed(ExpOf(annot, e), ExpOf(annot, Negate(e)))
    {
      var expPos, expNeg := ProduceBoth(e.id);
      expPos, expNeg := PropagateConstants(expPos, expNeg, e.id);
      if !e.neg {
        SaveBoth(expPos, expNeg, e);
      } else {
        SaveBoth(expNeg, expPos, e);
      }
    }

    // ----- the walk -----

    ghost predicate Walking(wanted: Counts, root: Edge, stack: seq<Edge>, greys: set<nat>)
      reads this, solver
    {
      Valid() && WalkState(p, wanted, root, stack, greys, count, down, up)
    }

    /** A node on top of the queue: done already, met for the first time, or with its arguments
        finished and so to be produced. */
    method VisitNode(stack: seq<Edge>, ghost wanted: Counts, ghost root: Edge, ghost greys: set<nat>)
      returns (stack': seq<Edge>, ghost greys': set<nat>)
      requires Walking(wanted, root, stack, greys) && stack != [] && IsAndLink(p.nodes, stack[|stack| - 1])
      modifies this`args, this`count, this`annot, this`down, this`up, this`meaning, solver
      ensures Walking(wanted, root, stack', greys') && LogExtends(old(Now()), Now())
      ensures Unmarked(p, down) < Unmarked(p, old(down))
        || (down == old(down) && Fuel(p, stack') < Fuel(p, stack))
    {
      hide WalkState, Unmarked, MarkUses, Marked, StateOk, Ready, Spent, NodeReady, VarsOk;
      var e := stack[|stack| - 1];
      var pos, neg := Link(e.id, false), Link(e.id, true);
      var needPos, needNeg := CountOf(count, pos) > 0, CountOf(count, neg) > 0;
      greys' := greys;
      if (!needPos || pos in up) && (!needNeg || neg in up) {
        PopRound(p, wanted, root, stack, greys, count, down, up);
        stack' := stack[..|stack| - 1];
        return;
      }
      Unfinished(p, wanted, root, stack, greys, count, down, up, e, needPos, needNeg);
      if (needPos && pos !in down) || (needNeg && neg !in down) {
        MarkRound(p, wanted, root, stack, greys, count, down, up, e, needPos, needNeg);
        MarkingProgresses(p, down, e.id, needPos, needNeg);
        down := MarkUses(down, e.id, needPos, needNeg);
        stack', greys' := stack + p.nodes[e.id].args, greys + {|stack| - 1};
      } else {
        FinishReady(p, wanted, root, stack, greys, count, down, up);
        ProduceCnf(e);
        FinishRound(p, wanted, root, stack, greys, old(count), count, down, old(up), up);
        stack', greys' := stack[..|stack| - 1], greys - {|stack| - 1};
      }
    }

    /** The depth-first search: afterwards every wanted use is finished, and of all the counts only
        the use of the root is left. */
    method Walk(root: Edge)
      requires Valid() && up == {} && down == {} && Expanded(p, count, root)
      modifies this`args, this`count, this`annot, this`down, this`up, this`meaning, solver
      ensures Valid() && root in up
      ensures forall x: Edge :: x.Link? ==> CountOf(count, x) == if x == root then 1 else 0
    {
      hide WalkState, Unmarked, Fuel, StateOk, Ready, VarsOk, Expanded, Expansions;
      ghost var wanted := count;
      var stack := [root];
      ghost var greys: set<nat> := {};
      StartWalk(p, wanted, root);
      while |stack| != 0
        invariant Walking(wanted, root, stack, greys)
        decreases Unmarked(p, down), Fuel(p, stack)
      {
        var e := stack[|stack| - 1];
        StackBelow(p, wanted, root, stack, greys, count, down, up);
        if e.Leaf? {
          PopRound(p, wanted, root, stack, greys, count, down, up);
          stack := stack[..|stack| - 1];
        } else if p.nodes[e.id].op != And {
          ExpandRound(p, wanted, root, stack, greys, count, down, up);
          stack := stack[..|stack| - 1] + Expansions(p, e);
        } else {
          stack, greys := VisitNode(stack, wanted, root, greys);
        }
      }
      EndWalk(p, wanted, root, greys, count, down, up);
    }

    /** Tell the solver that the finished root holds, and give up its expression. */
    method EmitRoot(root: Edge)
      requires Valid() && IsAndLink(p.nodes, root) && root in up && CountOf(count, root) == 1
      modifies this`count, this`annot, solver
      ensures solver.Valid() && Decides(p, solver.clauses, root)
      ensures count == old(count)[root := 0]
      ensures annot == old(annot) || annot == old(annot)[root := Null]
      ensures !AnnotOf(annot, root).Expr?
      ensures var x := old(AnnotOf(annot, root));
        solver.clauses == old(solver.clauses) + if x.Proxy? then [[x.l]] else Assertion(solver.varCount, x.e)
    {
      var rootExp := AnnotOf(annot, root);
      assert AnnotOk(p, Now(), up, 1, root, annot[root]);
      ghost var log := Now();
      if rootExp.Proxy? {
        UnitHolds(iset{}, rootExp.l);
        AssertedRootDecides(p, log, root, Unit(rootExp.l), 1);
        assert Units([rootExp.l]) == [[rootExp.l]];
        solver.Add(rootExp.l);
      } else {
        solver.AddExp(rootExp.e);
        AssertedRootDecides(p, log, root, rootExp.e, if IsFalse(rootExp.e) then solver.varCount else 1);
        annot := annot[root := Null];
      }
      count := count[root := CountOf(count, root) - 1];
    }

    method RunConstant(root: Edge)
      requires Sane(p) && solver.Valid() && solver.clauses == [] && IsConst(root)
      modifies solver
      ensures solver.Valid() && Decides(p, solver.clauses, root)
    {
      if root.neg {
        var l := solver.GetNewVar();
        solver.Add(l);
        solver.Add(-l);
        assert solver.clauses == Assertion(l, FALSE);
        ConstantDecides(p, root, l);
      } else {
        ConstantDecides(p, root, 1);
      }
    }

    method RunVariable(root: Edge)
      requires Valid() && solver.clauses == [] && IsEdge(p, root) && root.Leaf?
      modifies solver
      ensures solver.Valid() && Decides(p, solver.clauses, root)
    {
      AtomRepresents(p, Now(), root);
      UnitHolds(iset{}, AtomLit(root));
      AssertedRootDecides(p, Now(), root, Unit(AtomLit(root)), 1);
      assert Units([AtomLit(root)]) == [[AtomLit(root)]];
      solver.Add(AtomLit(root));
    }

    /** Nothing was counted and then not consumed, and no expression with literals is left behind. */
    ghost predicate AllConsumed()
      reads this
    {
      && (forall x: Edge :: x.Link? ==> CountOf(count, x) == 0)
      && (forall u :: u in annot && annot[u].Expr? ==> annot[u].e.litSize == 0)
    }

    method RunNode(root: Edge)
      requires Valid() && up == {} && down == {} && Expanded(p, count, root)
      modifies this`args, this`count, this`annot, this`down, this`up, this`meaning, solver
      ensures solver.Valid() && Decides(p, solver.clauses, root) && AllConsumed()
    {
      Walk(root);
      LeftoversAreConstant(p, Now(), annot, up, count, root);
      EmitRoot(root);
    }

    /** Produce clauses for `root`. Afterwards an assignment of the inputs satisfies the root exactly
        when it extends to a model of the clauses. */
    method Run(root: Edge)
      requires Valid() && up == {} && down == {} && solver.clauses == []
      requires root.Link? ==> Below(root, |p.nodes|) && Expanded(p, count, Resolve(p, root))
      requires root.Leaf? ==> root.v <= p.inputs
      modifies this`args, this`count, this`annot, this`down, this`up, this`meaning, solver
      ensures solver.Valid() && Below(root, |p.nodes|) && Decides(p, solver.clauses, root)
      ensures root.Link? ==> AllConsumed()
    {
      hide Decides, Expanded, AllConsumed, StateOk, VarsOk, Ready;
      if IsConst(root) {
        RunConstant(root);
      } else if root.Leaf? {
        RunVariable(root);
      } else {
        ResolveEquivalent(p, root);
        RunNode(Resolve(p, root));
        DecidesEquivalent(p, solver.clauses, Resolve(p, root), root);
      }
    }
  }
}
