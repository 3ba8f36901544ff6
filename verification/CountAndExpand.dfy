/** The pass that counts uses and pseudo-expands every needed polarity of every ITE and IFF. */
module CountAndExpand {
  import opened Dags
  import opened Construction
  import opened Expansions
  import opened CnfInvariants
  import opened CnfStates
  import opened CnfWalks
  import opened ExpandStates
  import opened SemanticLinks

  class CountAndExpandPass {
    const sat: NiceSat
    var count: Counts
    var annot: Annots
    var pexp: map<Edge, nat>
    var expanded: set<Edge>

    constructor (sat: NiceSat)
      ensures this.sat == sat && count == map[] && annot == map[] && pexp == map[] && expanded == {}
    {
      this.sat, count, annot, pexp, expanded := sat, map[], map[], map[], {};
    }

    ghost function Now(): Problem
      reads this, sat
    {
      Problem(sat.nodes, pexp, sat.vars)
    }

    ghost predicate Running(queue: seq<Edge>, root: Edge)
      reads this, sat
    {
      sat.Ok() && ExpandOk(Now(), count, annot, expanded, queue, root)
    }

    /** The links follow the expansions, each of which is built from its branches; `held` tells whether every
        assertion that an expansion is not linked yet has held. */
    ghost predicate Tracked(held: bool)
      reads this, sat
    {
      && Valid(sat.nodes) && LinksAre(pexp, annot) && OnlyPointers(annot) && (held <==> LinkedOnce(pexp))
      && AllBuilt(sat.nodes, pexp, sat.doMatching)
    }

    /** Build the expansion of a signed ITE or IFF edge; only the outer conjunction is built with
        matching turned off. */
    method Expand(e: Edge) returns (succ: Edge)
      requires sat.Ok() && e.Link? && e.id < |sat.nodes| && sat.nodes[e.id].op != And
      modifies sat
      ensures sat.Ok() && old(sat.nodes) <= sat.nodes && sat.vars == old(sat.vars)
      ensures sat.doMatching == old(sat.doMatching)
      ensures succ.Link? && !succ.neg && succ.id < |sat.nodes| && GoodExpansion(sat.nodes, e, succ.id)
      ensures Built(sat.nodes, e, succ.id, sat.doMatching)
    {
      hide Addressed, LeavesWithin, HashConsed, KnowsAnd, GoodExpansion, AndExact, Built;
      var wasMatchingOn := sat.doMatching;
      ghost var g0 := sat.nodes;
      BranchesMean(g0, e);
      var (tst, tt, ff) := Branches(sat.nodes[e.id], e.neg);
      BranchLeaves(g0, sat.vars, e);
      var a, b := tt, ff;
      tt := sat.CreateAnd(tst, a);
      ghost var g1 := sat.nodes;
      KnownParts(g0, g1, tt, tst, a, wasMatchingOn);
      ff := sat.CreateAnd(Negate(tst), b);
      ghost var g2 := sat.nodes;
      KnownParts(g1, g2, ff, Negate(tst), b, wasMatchingOn);
      sat.doMatching := false;
      succ := sat.CreateAnd(Negate(tt), Negate(ff));
      sat.doMatching := wasMatchingOn;
      ExpansionIsGood(g0, g1, g2, sat.nodes, e, tt, ff, succ, wasMatchingOn);
      ExpansionParts(g0, g1, g2, sat.nodes, e, tt, ff, succ, wasMatchingOn);
      PlainWithoutMatching(sat.nodes, succ, Negate(tt), Negate(ff));
      ExpansionIsBuilt(g0, g1, g2, sat.nodes, e, tt, ff, succ, wasMatchingOn);
    }

    lemma BuiltSoFar(g: Nodes, h: Nodes, was: map<Edge, nat>, e: Edge, id: nat, matching: bool)
      requires Valid(g) && Valid(h) && g <= h && Built(h, e, id, matching) && AllBuilt(g, was, matching)
      ensures AllBuilt(h, was[e := id], matching)
    {
      hide Built;
      forall f | f in was ensures Built(h, f, was[f], matching) {
        BuiltLater(g, h, f, was[f], matching);
      }
    }

    lemma Distinct(p: Problem, e: Edge, id: nat)
      requires Sane(p) && e in p.pexp && p.pexp[e] == id && Negate(e) in p.pexp
      ensures id != p.pexp[Negate(e)]
    {
      OppositeExpansions(p.nodes, e, id, p.pexp[Negate(e)]);
      Opposites(p.nodes, id, p.pexp[Negate(e)]);
    }

    lemma LinkedPoints(was: Annots, m: nat, n: nat)
      requires OnlyPointers(was)
      ensures OnlyPointers(Linked(was, m, n))
    {
    }

    lemma BranchLeaves(g: Nodes, n: nat, e: Edge)
      requires Valid(g) && LeavesWithin(g, n) && e.Link? && e.id < |g| && g[e.id].op != And && Simplified(g[e.id])
      ensures var (tst, tt, ff) := Branches(g[e.id], e.neg);
        (tst.Leaf? ==> tst.v <= n) && (tt.Leaf? ==> tt.v <= n) && (ff.Leaf? ==> ff.v <= n)
    {
    }

    /** An ITE or IFF met for the first time: it gets its expansion, which is queued, and the
        expansions of its two polarities point to each other as soon as both exist. The program asserts
        that neither points to another one yet; without the assertion the pointers are replaced. */
    method ExpandFirst(queue: seq<Edge>, ghost root: Edge, ghost held: bool) returns (queue': seq<Edge>, free: bool)
      requires Running(queue, root) && Tracked(held) && queue != [] && Queued(sat.nodes, queue)
      requires queue[|queue| - 1] !in expanded && sat.nodes[queue[|queue| - 1].id].op != And
      modifies this, sat
      ensures Running(queue', root) && old(sat.nodes) <= sat.nodes && sat.vars == old(sat.vars)
      ensures QueueWeight(sat.nodes, queue') < old(QueueWeight(sat.nodes, queue))
      ensures Tracked(held && free) && sat.doMatching == old(sat.doMatching)
    {
      hide ExpandOk, LeavesWithin, GoodExpansion, QueueWeight, Linked, Addressed, HashConsed, AllBuilt, Built, LinksAre,
           LinkedOnce;
      free := true;
      ghost var before := Now();
      TopOfQueue(before, count, annot, expanded, queue, root);
      var e := queue[|queue| - 1];
      var succ := Expand(e);
      ghost var after := Problem(sat.nodes, pexp[e := succ.id], sat.vars);
      FirstIteRound(before, after, count, annot, expanded, queue, root, succ.id);
      BuiltSoFar(before.nodes, after.nodes, pexp, e, succ.id, sat.doMatching);
      if Negate(e) in expanded {
        var other := pexp[Negate(e)];
        Distinct(after, e, succ.id);
        SecondOfTwo(pexp, annot, e, succ.id);
        free := Unlinked(annot, succ.id, other);
        annot := Linked(annot, succ.id, other);
        LinkedPoints(old(annot), succ.id, other);
      } else {
        FirstOfTwo(pexp, annot, e, succ.id);
      }
      expanded := expanded + {e};
      pexp := pexp[e := succ.id];
      queue' := queue[..|queue| - 1] + [succ];
    }

    /** Take one edge off the queue. */
    method Visit(workQ: seq<Edge>, ghost root: Edge, ghost held: bool) returns (workQ': seq<Edge>, free: bool)
      requires Running(workQ, root) && Tracked(held) && Queued(sat.nodes, workQ) && workQ != []
      modifies this, sat
      ensures Running(workQ', root) && old(sat.nodes) <= sat.nodes && sat.vars == old(sat.vars)
      ensures Queued(sat.nodes, workQ') && QueueWeight(sat.nodes, workQ') < old(QueueWeight(sat.nodes, workQ))
      ensures Tracked(held && free) && sat.doMatching == old(sat.doMatching)
    {
      hide ExpandOk, LeavesWithin, QueueWeight, Linked, Addressed, NodesAmong, HashConsed, Built, LinksAre, LinkedOnce;
      free := true;
      TopOfQueue(Now(), count, annot, expanded, workQ, root);
      var e := workQ[|workQ| - 1];
      if e in expanded {
        AgainRound(Now(), count, annot, expanded, workQ, root);
        var u := if sat.nodes[e.id].op == And then e else Link(pexp[e], false);
        count := count[u := CountOf(count, u) + 1];
        workQ' := workQ[..|workQ| - 1];
      } else if sat.nodes[e.id].op == And {
        FirstAndRound(Now(), count, annot, expanded, workQ, root);
        expanded, count := expanded + {e}, count[e := 1];
        workQ' := workQ[..|workQ| - 1] + NodesAmong(sat.nodes[e.id].args, e.neg);
      } else {
        workQ', free := ExpandFirst(workQ, root, held);
      }
      TopOfQueue(Now(), count, annot, expanded, workQ', root);
    }

    /** Work off the queue. */
    method Drain(root: Edge) returns (held: bool)
      requires Running([root], root) && Queued(sat.nodes, [root]) && Tracked(true)
      modifies this, sat
      ensures Running([], root) && Tracked(held) && old(sat.nodes) <= sat.nodes
      ensures sat.vars == old(sat.vars) && sat.doMatching == old(sat.doMatching)
    {
      hide ExpandOk, LeavesWithin, QueueWeight, Addressed, HashConsed, AllBuilt, LinksAre, LinkedOnce;
      held := true;
      var workQ := [root];
      while |workQ| != 0
        invariant Running(workQ, root) && Queued(sat.nodes, workQ) && Tracked(held)
        invariant old(sat.nodes) <= sat.nodes && sat.vars == old(sat.vars) && sat.doMatching == old(sat.doMatching)
        decreases QueueWeight(sat.nodes, workQ)
      {
        var free;
        workQ, free := Visit(workQ, root, held);
        held := held && free;
      }
      assert workQ == [];
    }

    /** Count the uses below `root`, expanding as needed. Afterwards the counts are exactly the
        occurrences in the needed ANDs, through expansions that keep the meaning. Whether every assertion
        on the way has held is returned; the rest is true of a build without assertions as well. */
    method Run(root: Edge) returns (held: bool)
      requires sat.Ok() && sat.Knows(root)
      requires count == map[] && annot == map[] && pexp == map[] && expanded == {}
      modifies this, sat
      ensures sat.Ok() && sat.Knows(root) && old(sat.nodes) <= sat.nodes && sat.vars == old(sat.vars)
      ensures Sane(Now())
      ensures root.Link? ==> Expanded(Now(), count, Resolve(Now(), root))
      ensures forall u :: u in annot ==> AnnotOk(Now(), Log([], map[]), {}, CountOf(count, u), u, annot[u])
      ensures held <==> LinkedOnce(pexp)
      ensures !sat.doMatching ==> held
      ensures AllBuilt(sat.nodes, pexp, sat.doMatching) && sat.doMatching == old(sat.doMatching)
    {
      held := true;
      if root.Leaf? {
        return;
      }
      hide ExpandOk, LeavesWithin, QueueWeight, Addressed, Expanded, AnnotOk, HashConsed, AllBuilt;
      StartExpand(Now(), root);
      held := Drain(root);
      EndExpand(Now(), count, annot, expanded, root);
      if !sat.doMatching {
        UnmatchedOnce(sat.nodes, sat.addr, pexp);
      }
    }
  }
}
