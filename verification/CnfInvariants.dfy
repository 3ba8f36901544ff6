/** What the annotations of the CNF pass mean, relative to the clauses emitted so far. */
module CnfInvariants {
  import opened Literals
  import opened CnfFormulas
  import opened Dags
  import opened Solvers

  /** An expanded dag: `pexp` gives the AND node that replaces a signed ITE or IFF edge. */
  datatype Problem = Problem(nodes: Nodes, pexp: map<Edge, nat>, inputs: nat)

  ghost predicate IsAndLink(g: Nodes, e: Edge) {
    e.Link? && e.id < |g| && g[e.id].op == And
  }

  ghost predicate GoodExpansion(g: Nodes, e: Edge, id: nat)
    requires Valid(g)
  {
    && e.Link? && e.id < |g| && g[e.id].op != And
    && id < |g| && g[id].op == And
    && Equivalent(g, Link(id, false), e)
    && Weight(g, Link(id, false)) < Weight(g, e)
  }

  ghost predicate Sane(p: Problem) {
    && Valid(p.nodes)
    && LeavesWithin(p.nodes, p.inputs)
    && forall e :: e in p.pexp ==> GoodExpansion(p.nodes, e, p.pexp[e])
  }

  /** An edge of the problem: a variable of the input or a node. */
  ghost predicate IsEdge(p: Problem, e: Edge) {
    Below(e, |p.nodes|) && (e.Leaf? ==> 0 < e.v <= p.inputs)
  }

  /** What the pass has told the solver, and what each proxy variable was introduced for. */
  datatype Log = Log(clauses: seq<Clause>, meaning: map<int, Edge>)

  ghost predicate MeaningOk(p: Problem, m: map<int, Edge>)
  {
    forall v :: v in m ==> v > p.inputs && IsAndLink(p.nodes, m[v])
  }

  /** `b` gives every proxy variable the value of the edge it was introduced for. */
  ghost predicate Agrees(p: Problem, m: map<int, Edge>, b: Assignment)
    requires Sane(p) && MeaningOk(p, m)
  {
    forall v :: v in m ==> (v in b <==> Value(p.nodes, m[v], b))
  }

  ghost predicate LogOk(p: Problem, log: Log)
    requires Sane(p)
  {
    && MeaningOk(p, log.meaning)
    && forall b: Assignment :: Agrees(p, log.meaning, b) ==> ClausesTrue(b, log.clauses)
  }

  ghost predicate LogExtends(log: Log, log': Log) {
    && log.clauses <= log'.clauses
    && forall v :: v in log.meaning ==> v in log'.meaning && log'.meaning[v] == log.meaning[v]
  }

  /** `e` speaks for the edge `x`: it implies the edge in every model of the clauses, and every
      agreeing assignment that satisfies the edge satisfies it. */
  ghost predicate Represents(p: Problem, log: Log, x: Edge, e: Cnf)
    requires Sane(p) && MeaningOk(p, log.meaning) && IsEdge(p, x)
  {
    && (forall a: Assignment :: ClausesTrue(a, log.clauses) && Holds(a, e) ==> Value(p.nodes, x, a))
    && (forall b: Assignment :: Agrees(p, log.meaning, b) && Value(p.nodes, x, b) ==> Holds(b, e))
  }

  ghost predicate AreEdges(p: Problem, xs: set<Edge>) {
    forall x :: x in xs ==> IsEdge(p, x)
  }

  /** The conjunction or the disjunction of the edges of `xs`. */
  ghost predicate Together(p: Problem, conj: bool, xs: set<Edge>, a: Assignment)
    requires Sane(p) && AreEdges(p, xs)
  {
    if conj then forall x :: x in xs ==> Value(p.nodes, x, a)
    else exists x :: x in xs && Value(p.nodes, x, a)
  }

  ghost predicate RepresentsAll(p: Problem, log: Log, conj: bool, xs: set<Edge>, e: Cnf)
    requires Sane(p) && MeaningOk(p, log.meaning) && AreEdges(p, xs)
  {
    && (forall a: Assignment :: ClausesTrue(a, log.clauses) && Holds(a, e) ==> Together(p, conj, xs, a))
    && (forall b: Assignment :: Agrees(p, log.meaning, b) && Together(p, conj, xs, b) ==> Holds(b, e))
  }

  // ----- growth of the log -----

  lemma AgreesWeaker(p: Problem, m: map<int, Edge>, m': map<int, Edge>, b: Assignment)
    requires Sane(p) && MeaningOk(p, m) && MeaningOk(p, m') && Agrees(p, m', b)
    requires forall v :: v in m ==> v in m' && m'[v] == m[v]
    ensures Agrees(p, m, b)
  {
  }

  lemma ClausesWeaker(a: Assignment, cs: seq<Clause>, cs': seq<Clause>)
    requires cs <= cs' && ClausesTrue(a, cs')
    ensures ClausesTrue(a, cs)
  {
    assert forall c :: c in cs ==> c in cs';
  }

  lemma RepresentsGrows(p: Problem, log: Log, log': Log, x: Edge, e: Cnf)
    requires Sane(p) && MeaningOk(p, log.meaning) && MeaningOk(p, log'.meaning) && IsEdge(p, x)
    requires LogExtends(log, log') && Represents(p, log, x, e)
    ensures Represents(p, log', x, e)
  {
    forall a: Assignment | ClausesTrue(a, log'.clauses) && Holds(a, e) ensures Value(p.nodes, x, a) {
      ClausesWeaker(a, log.clauses, log'.clauses);
    }
    forall b: Assignment | Agrees(p, log'.meaning, b) && Value(p.nodes, x, b) ensures Holds(b, e) {
      AgreesWeaker(p, log.meaning, log'.meaning, b);
    }
  }

  lemma RepresentsAllGrows(p: Problem, log: Log, log': Log, conj: bool, xs: set<Edge>, e: Cnf)
    requires Sane(p) && MeaningOk(p, log.meaning) && MeaningOk(p, log'.meaning) && AreEdges(p, xs)
    requires LogExtends(log, log') && RepresentsAll(p, log, conj, xs, e)
    ensures RepresentsAll(p, log', conj, xs, e)
  {
    forall a: Assignment | ClausesTrue(a, log'.clauses) && Holds(a, e) ensures Together(p, conj, xs, a) {
      ClausesWeaker(a, log.clauses, log'.clauses);
    }
    forall b: Assignment | Agrees(p, log'.meaning, b) && Together(p, conj, xs, b) ensures Holds(b, e) {
      AgreesWeaker(p, log.meaning, log'.meaning, b);
    }
  }

  // ----- agreeing extensions -----

  /** Any assignment can be changed on the proxy variables alone so that it agrees. */
  ghost function Adjusted(p: Problem, m: map<int, Edge>, a: Assignment): Assignment
    requires Sane(p) && MeaningOk(p, m)
  {
    iset v | (v in m && Value(p.nodes, m[v], a)) || (v !in m && v in a)
  }

  lemma AdjustedAgrees(p: Problem, m: map<int, Edge>, a: Assignment)
    requires Sane(p) && MeaningOk(p, m)
    ensures SameInputs(a, Adjusted(p, m, a), p.inputs)
    ensures Agrees(p, m, Adjusted(p, m, a))
  {
    var b := Adjusted(p, m, a);
    forall v | v in m ensures v in b <==> Value(p.nodes, m[v], b) {
      ValueOfInputs(p.nodes, m[v], p.inputs, a, b);
    }
  }

  // ----- literals and proxies -----

  function AtomLit(e: Edge): int
    requires e.Leaf?
  {
    if e.neg then 0 - e.v else e.v
  }

  lemma UnitHolds(a: Assignment, l: int)
    ensures Holds(a, Unit(l)) <==> LitTrue(a, l)
    ensures l != 0 ==> WellFormed(Unit(l))
  {
    assert l in [l];
  }

  lemma AtomRepresents(p: Problem, log: Log, x: Edge)
    requires Sane(p) && MeaningOk(p, log.meaning) && IsEdge(p, x) && x.Leaf?
    ensures Represents(p, log, x, Unit(AtomLit(x))) && AtomLit(x) != 0
  {
    forall a: Assignment ensures Holds(a, Unit(AtomLit(x))) <==> Value(p.nodes, x, a) {
      UnitHolds(a, AtomLit(x));
    }
  }

  /** A literal that equals the edge under every agreeing assignment. */
  ghost predicate Mirrors(p: Problem, m: map<int, Edge>, x: Edge, l: int)
    requires Sane(p) && MeaningOk(p, m) && IsEdge(p, x)
  {
    l != 0 && forall b: Assignment :: Agrees(p, m, b) ==> (LitTrue(b, l) <==> Value(p.nodes, x, b))
  }

  lemma RepresentingMirrors(p: Problem, log: Log, x: Edge, l: int)
    requires Sane(p) && LogOk(p, log) && IsEdge(p, x) && l != 0 && Represents(p, log, x, Unit(l))
    ensures Mirrors(p, log.meaning, x, l)
  {
    forall b: Assignment | Agrees(p, log.meaning, b) ensures LitTrue(b, l) <==> Value(p.nodes, x, b) {
      UnitHolds(b, l);
    }
  }

  lemma MirrorsNegated(p: Problem, m: map<int, Edge>, x: Edge, l: int, y: Edge)
    requires Sane(p) && MeaningOk(p, m) && IsEdge(p, x) && IsEdge(p, y) && Mirrors(p, m, x, l)
    requires Equivalent(p.nodes, Negate(x), y)
    ensures Mirrors(p, m, y, -l)
  {
    forall b: Assignment | Agrees(p, m, b) ensures LitTrue(b, -l) <==> Value(p.nodes, y, b) {
      NegateValue(p.nodes, x, true, b);
    }
  }

  lemma MirrorsEquivalent(p: Problem, m: map<int, Edge>, x: Edge, l: int, y: Edge)
    requires Sane(p) && MeaningOk(p, m) && IsEdge(p, x) && IsEdge(p, y) && Mirrors(p, m, x, l)
    requires Equivalent(p.nodes, x, y)
    ensures Mirrors(p, m, y, l)
  {
  }

  /** A new variable mirrors the edge it is introduced for. */
  lemma FreshMirrors(p: Problem, log: Log, x: Edge, v: int)
    requires Sane(p) && LogOk(p, log) && IsAndLink(p.nodes, x) && v !in log.meaning && v > p.inputs
    ensures var log' := Log(log.clauses, log.meaning[v := x]);
      LogOk(p, log') && LogExtends(log, log') && Mirrors(p, log'.meaning, x, v)
  {
    var m' := log.meaning[v := x];
    forall b: Assignment | Agrees(p, m', b)
      ensures ClausesTrue(b, log.clauses) && (LitTrue(b, v) <==> Value(p.nodes, x, b))
    {
      AgreesWeaker(p, log.meaning, m', b);
      assert v in m';
    }
  }

  /** Emitting `l -> e` for a mirroring literal keeps the log sound and makes `l` speak for the edge. */
  lemma ConstrainedProxyRepresents(p: Problem, log: Log, x: Edge, e: Cnf, l: int)
    requires Sane(p) && LogOk(p, log) && IsEdge(p, x) && WellFormed(e)
    requires Represents(p, log, x, e) && Mirrors(p, log.meaning, x, l)
    ensures var log' := Log(log.clauses + Implication(l, e), log.meaning);
      LogOk(p, log') && LogExtends(log, log') && Represents(p, log', x, Unit(l))
  {
    var log' := Log(log.clauses + Implication(l, e), log.meaning);
    forall b: Assignment | Agrees(p, log.meaning, b)
      ensures ClausesTrue(b, log'.clauses) && (Value(p.nodes, x, b) ==> Holds(b, Unit(l)))
    {
      ImplicationMeans(b, l, e);
      ConcatMeans(b, log.clauses, Implication(l, e));
      UnitHolds(b, l);
    }
    forall a: Assignment | ClausesTrue(a, log'.clauses) && Holds(a, Unit(l)) ensures Value(p.nodes, x, a) {
      ImplicationMeans(a, l, e);
      ConcatMeans(a, log.clauses, Implication(l, e));
      UnitHolds(a, l);
    }
  }

  /** A constant that speaks for an edge fixes it under every assignment, so its complement
      speaks for the complement. */
  lemma ConstantPropagates(p: Problem, log: Log, x: Edge, e: Cnf)
    requires Sane(p) && LogOk(p, log) && IsEdge(p, x) && Represents(p, log, x, e) && e.litSize == 0
    ensures IsEdge(p, Negate(x))
    ensures Represents(p, log, Negate(x), if e.clauseSize > 0 then FALSE else TRUE)
  {
    forall a: Assignment ensures Value(p.nodes, Negate(x), a) == !(e.clauseSize > 0) {
      var b := Adjusted(p, log.meaning, a);
      AdjustedAgrees(p, log.meaning, a);
      ValueOfInputs(p.nodes, x, p.inputs, a, b);
      NegateValue(p.nodes, x, true, a);
      assert ClausesTrue(b, log.clauses);
    }
  }

  // ----- accumulating arguments -----

  lemma NothingRepresented(p: Problem, log: Log, conj: bool)
    requires Sane(p) && MeaningOk(p, log.meaning)
    ensures RepresentsAll(p, log, conj, {}, if conj then TRUE else FALSE)
  {
  }

  lemma OneRepresented(p: Problem, log: Log, conj: bool, x: Edge, e: Cnf)
    requires Sane(p) && MeaningOk(p, log.meaning) && IsEdge(p, x) && Represents(p, log, x, e)
    ensures RepresentsAll(p, log, conj, {x}, e)
  {
    forall a: Assignment ensures Together(p, conj, {x}, a) <==> Value(p.nodes, x, a) {
      assert x in {x};
    }
  }

  lemma OneMoreRepresented(p: Problem, log: Log, conj: bool, xs: set<Edge>, e: Cnf, x: Edge, ex: Cnf, e': Cnf)
    requires Sane(p) && MeaningOk(p, log.meaning) && AreEdges(p, xs) && IsEdge(p, x)
    requires RepresentsAll(p, log, conj, xs, e) && Represents(p, log, x, ex)
    requires forall a: Assignment ::
      Holds(a, e') <==> if conj then Holds(a, e) && Holds(a, ex) else Holds(a, e) || Holds(a, ex)
    ensures RepresentsAll(p, log, conj, xs + {x}, e')
  {
    forall a: Assignment
      ensures Together(p, conj, xs + {x}, a) <==>
        if conj then Together(p, conj, xs, a) && Value(p.nodes, x, a)
        else Together(p, conj, xs, a) || Value(p.nodes, x, a)
    {
      assert x in xs + {x};
      if !conj && Together(p, conj, xs, a) {
        var y :| y in xs && Value(p.nodes, y, a);
        assert y in xs + {x};
      }
    }
  }

  // ----- arguments through expansions -----

  /** The expansion of a signed ITE or IFF edge; every other edge stands for itself. */
  function Resolve(p: Problem, e: Edge): Edge {
    if e in p.pexp then Link(p.pexp[e], false) else e
  }

  function ResolvedArgs(p: Problem, u: Edge): seq<Edge>
    requires u.Link? && u.id < |p.nodes|
  {
    var args := p.nodes[u.id].args;
    seq(|args|, i requires 0 <= i < |args| => Resolve(p, NegateIf(args[i], u.neg)))
  }

  lemma ResolveEquivalent(p: Problem, e: Edge)
    requires Sane(p) && IsEdge(p, e)
    ensures IsEdge(p, Resolve(p, e)) && Equivalent(p.nodes, Resolve(p, e), e)
    ensures Weight(p.nodes, Resolve(p, e)) <= Weight(p.nodes, e)
  {
  }

  lemma ResolvedArg(p: Problem, u: Edge, i: nat)
    requires Sane(p) && IsAndLink(p.nodes, u) && i < |p.nodes[u.id].args|
    ensures var x := ResolvedArgs(p, u)[i];
      && IsEdge(p, x)
      && Below(p.nodes[u.id].args[i], u.id)
      && Weight(p.nodes, x) < Weight(p.nodes, u)
      && forall a: Assignment :: Value(p.nodes, x, a) == (Value(p.nodes, p.nodes[u.id].args[i], a) != u.neg)
  {
    var args := p.nodes[u.id].args;
    assert AllBelow(args, u.id) && Simplified(p.nodes[u.id]);
    var e := NegateIf(args[i], u.neg);
    assert !IsConst(args[i]);
    assert args[i].Leaf? ==> args[i].v <= p.inputs;
    ResolveEquivalent(p, e);
    NegateWeight(p.nodes, args[i], u.neg);
    WeightOfArg(p.nodes, args, u.id, i);
    forall a: Assignment ensures Value(p.nodes, Resolve(p, e), a) == (Value(p.nodes, args[i], a) != u.neg) {
      NegateValue(p.nodes, args[i], u.neg, a);
    }
  }

  /** All the arguments together are the node: their conjunction in the positive polarity,
      their disjunction in the negative one. */
  lemma ArgumentsAreNode(p: Problem, u: Edge, xs: set<Edge>, a: Assignment)
    requires Sane(p) && IsAndLink(p.nodes, u)
    requires xs == set x | x in ResolvedArgs(p, u)
    ensures AreEdges(p, xs)
    ensures Together(p, !u.neg, xs, a) <==> Value(p.nodes, u, a)
  {
    var args, rs := p.nodes[u.id].args, ResolvedArgs(p, u);
    forall i | 0 <= i < |rs|
      ensures IsEdge(p, rs[i]) && Below(args[i], u.id)
      ensures Value(p.nodes, rs[i], a) == (Value(p.nodes, args[i], a) != u.neg)
    {
      ResolvedArg(p, u, i);
    }
    forall x | x in xs ensures IsEdge(p, x) && exists i :: 0 <= i < |rs| && rs[i] == x {
    }
    forall i | 0 <= i < |rs| ensures rs[i] in xs {
    }
  }

  lemma NodeRepresented(p: Problem, log: Log, u: Edge, xs: set<Edge>, e: Cnf)
    requires Sane(p) && MeaningOk(p, log.meaning) && IsAndLink(p.nodes, u)
    requires xs == set x | x in ResolvedArgs(p, u)
    requires AreEdges(p, xs) && RepresentsAll(p, log, !u.neg, xs, e)
    ensures Represents(p, log, u, e)
  {
    forall a: Assignment ensures Together(p, !u.neg, xs, a) <==> Value(p.nodes, u, a) {
      ArgumentsAreNode(p, u, xs, a);
    }
  }

  // ----- the end of the pass -----

  /** The clauses decide the edge: an input assignment satisfies it exactly when it extends
      to a model of the clauses. */
  ghost predicate Decides(p: Problem, cs: seq<Clause>, x: Edge)
    requires Sane(p) && Below(x, |p.nodes|)
  {
    forall a: Assignment ::
      Value(p.nodes, x, a) <==> exists b: Assignment :: SameInputs(a, b, p.inputs) && ClausesTrue(b, cs)
  }

  lemma AssertedRootDecides(p: Problem, log: Log, x: Edge, e: Cnf, v: int)
    requires Sane(p) && LogOk(p, log) && IsEdge(p, x) && WellFormed(e) && v != 0
    requires Represents(p, log, x, e)
    ensures Decides(p, log.clauses + Assertion(v, e), x)
  {
    var cs := log.clauses + Assertion(v, e);
    forall a: Assignment
      ensures Value(p.nodes, x, a) <==> exists b: Assignment :: SameInputs(a, b, p.inputs) && ClausesTrue(b, cs)
    {
      if Value(p.nodes, x, a) {
        var b := Adjusted(p, log.meaning, a);
        AdjustedAgrees(p, log.meaning, a);
        ValueOfInputs(p.nodes, x, p.inputs, a, b);
        AssertionMeans(b, v, e);
        ConcatMeans(b, log.clauses, Assertion(v, e));
      }
      if b: Assignment :| SameInputs(a, b, p.inputs) && ClausesTrue(b, cs) {
        AssertionMeans(b, v, e);
        ConcatMeans(b, log.clauses, Assertion(v, e));
        ValueOfInputs(p.nodes, x, p.inputs, a, b);
      }
    }
  }

  lemma DecidesEquivalent(p: Problem, cs: seq<Clause>, x: Edge, y: Edge)
    requires Sane(p) && Below(x, |p.nodes|) && Below(y, |p.nodes|)
    requires Equivalent(p.nodes, x, y) && Decides(p, cs, x)
    ensures Decides(p, cs, y)
  {
  }

  /** A constant root is decided by a contradiction or by nothing at all. */
  lemma ConstantDecides(p: Problem, x: Edge, v: int)
    requires Sane(p) && IsConst(x) && v != 0
    ensures Decides(p, Assertion(v, if x.neg then FALSE else TRUE), x)
  {
    var e := if x.neg then FALSE else TRUE;
    forall a: Assignment
      ensures Value(p.nodes, x, a)
        <==> exists b: Assignment :: SameInputs(a, b, p.inputs) && ClausesTrue(b, Assertion(v, e))
    {
      AssertionMeans(a, v, e);
      assert SameInputs(a, a, p.inputs);
      forall b: Assignment ensures ClausesTrue(b, Assertion(v, e)) <==> Holds(b, e) {
        AssertionMeans(b, v, e);
      }
    }
  }
}
