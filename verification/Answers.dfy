/** From a formula to an answer: it is compiled, and its clauses are handed to the search. */
module Answers {
  import opened Literals
  import opened Dags
  import opened Construction
  import opened Solvers
  import opened Compiler
  import opened Propagation
  import Originals
  import Search

  /** The variables in use grow with the literals that are added. */
  method LargestVariable(cs: seq<Clause>, least: nat) returns (n: nat)
    ensures n >= least && forall c :: c in cs ==> ClauseBounded(c, n)
  {
    n := least;
    for i := 0 to |cs|
      invariant n >= least && forall j :: 0 <= j < i ==> ClauseBounded(cs[j], n)
    {
      ghost var was := n;
      for k := 0 to |cs[i]|
        invariant n >= was && forall j :: 0 <= j < k ==> Abs(cs[i][j]) <= n
      {
        if Abs(cs[i][k]) > n {
          n := Abs(cs[i][k]);
        }
      }
      forall j | 0 <= j < i ensures ClauseBounded(cs[j], n) {
        assert ClauseBounded(cs[j], was);
      }
    }
  }

  /** Is the formula satisfiable? "Satisfiable" comes with an assignment that satisfies it, "unsatisfiable"
      only when there is none. It stays open only after as many decisions as the limit allows. */
  method Decide(sat: NiceSat, forced: set<nat>, root: Edge, simplifying: bool, limit: int)
    returns (r: Search.Result, ghost model: Assignment, ghost decisions: nat)
    requires sat.Ok() && sat.Knows(root)
    modifies sat
    ensures sat.Ok() && old(sat.nodes) <= sat.nodes && sat.vars == old(sat.vars)
    ensures r == Search.Satisfiable ==> Value(old(sat.nodes), root, model)
    ensures r == Search.Unsatisfiable ==> forall a: Assignment :: !Value(old(sat.nodes), root, a)
    ensures decisions <= if limit < 0 then Search.INT_MAX else limit
    ensures r == Search.Unknown ==> decisions == if limit < 0 then Search.INT_MAX else limit
  {
    ghost var g := sat.nodes;
    var solver := new FileSolver(sat.vars);
    var _, _ := Add(sat, solver, forced, root);
    var cs := solver.clauses;
    var maxVar := LargestVariable(cs, solver.varCount);
    r, model, decisions := Originals.SolveClauses(cs, maxVar, simplifying, limit);
    if r == Search.Satisfiable {
      ModelsSatisfy(g, root, sat.vars, cs, model);
    } else if r == Search.Unsatisfiable {
      NoModelNoAssignment(g, root, sat.vars, cs);
    }
  }

  lemma {:induction false} NoModelNoAssignment(g: Nodes, root: Edge, inputs: nat, cs: seq<Clause>)
    requires Valid(g) && Below(root, |g|) && Faithful(g, root, inputs, cs)
    requires forall b: Assignment :: !ClausesTrue(b, cs)
    ensures forall a: Assignment :: !Value(g, root, a)
  {
  }
}
