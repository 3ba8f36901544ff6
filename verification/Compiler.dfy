/** Adding a formula to a solver: expansion, then CNF generation. */
module Compiler {
  import opened Literals
  import opened Dags
  import opened Construction
  import opened CnfInvariants
  import opened Solvers
  import opened Expansions
  import opened SemanticLinks
  import opened CountAndExpand
  import opened CnfPasses

  /** The clauses say what the edge says: an assignment of the first `inputs` variables satisfies the
      edge exactly when it can be extended to the other variables so that every clause holds. */
  ghost predicate Faithful(g: Nodes, root: Edge, inputs: nat, cs: seq<Clause>)
    requires Valid(g) && Below(root, |g|)
  {
    forall a: Assignment ::
      Value(g, root, a) <==> exists b: Assignment :: SameInputs(a, b, inputs) && ClausesTrue(b, cs)
  }

  /** Compile `root` for a fresh solver, which shares the variables of the instance. Whether the assertions
      about linked expansions have held is returned; the clauses are right in any case. */
  method Add(sat: NiceSat, solver: FileSolver, forced: set<nat>, root: Edge)
    returns (held: bool, ghost pexp: map<Edge, nat>)
    requires sat.Ok() && sat.Knows(root)
    requires solver.Valid() && solver.clauses == [] && solver.varCount == sat.vars
    modifies sat, solver
    ensures sat.Ok() && old(sat.nodes) <= sat.nodes && sat.vars == old(sat.vars)
    ensures solver.clauseCount == |solver.clauses| && AllNonZero(solver.clauses)
    ensures Faithful(old(sat.nodes), root, sat.vars, solver.clauses)
    ensures (held <==> LinkedOnce(pexp)) && AllBuilt(sat.nodes, pexp, sat.doMatching)
    ensures !old(sat.doMatching) ==> held
  {
    hide HashConsed, Addressed, LeavesWithin, LinkedOnce, AllBuilt, Faithful, Decides;
    ghost var g := sat.nodes;
    var expand := new CountAndExpandPass(sat);
    held := expand.Run(root);
    pexp := expand.pexp;
    var p := Problem(sat.nodes, expand.pexp, sat.vars);
    var cnf := new CnfPass(p, solver, forced, expand.count, expand.annot);
    cnf.Run(root);
    assert Faithful(g, root, sat.vars, solver.clauses) by {
      DecidesIsFaithful(g, p, root, solver.clauses);
    }
  }

  lemma {:induction false} DecidesIsFaithful(g: Nodes, p: Problem, root: Edge, cs: seq<Clause>)
    requires Sane(p) && Valid(g) && g <= p.nodes && Below(root, |g|) && Decides(p, cs, root)
    ensures Faithful(g, root, p.inputs, cs)
  {
    forall a: Assignment ensures Value(g, root, a) == Value(p.nodes, root, a) {
      ValueExtends(g, p.nodes, root, a);
    }
  }

  ghost predicate Satisfies(g: Nodes, root: Edge, a: Assignment)
    requires Valid(g) && Below(root, |g|)
  {
    Value(g, root, a)
  }

  /** The clauses are satisfiable exactly when the formula is. */
  lemma {:induction false} Equisatisfiable(g: Nodes, root: Edge, inputs: nat, cs: seq<Clause>)
    requires Valid(g) && Below(root, |g|) && Faithful(g, root, inputs, cs)
    ensures (exists a: Assignment :: Satisfies(g, root, a)) <==> (exists b: Assignment :: ClausesTrue(b, cs))
  {
    if exists b: Assignment :: ClausesTrue(b, cs) {
      var b: Assignment :| ClausesTrue(b, cs);
      ModelsSatisfy(g, root, inputs, cs, b);
      assert Satisfies(g, root, b);
    }
    if exists a: Assignment :: Satisfies(g, root, a) {
      var a: Assignment :| Satisfies(g, root, a);
      assert Value(g, root, a);
      var b: Assignment :| SameInputs(a, b, inputs) && ClausesTrue(b, cs);
    }
  }

  /** A model of the clauses is itself a model of the formula. */
  lemma {:induction false} ModelsSatisfy(g: Nodes, root: Edge, inputs: nat, cs: seq<Clause>, b: Assignment)
    requires Valid(g) && Below(root, |g|) && Faithful(g, root, inputs, cs) && ClausesTrue(b, cs)
    ensures Value(g, root, b)
  {
    assert SameInputs(b, b, inputs);
  }
}
