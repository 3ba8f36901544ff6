/** The state of the counting and expanding pass, and its three kinds of rounds. */
module ExpandStates {
  import opened Literals
  import opened Dags
  import opened CnfInvariants
  import opened CnfStates
  import opened CnfWalks
  import opened Counting

  ghost predicate Queued(g: Nodes, queue: seq<Edge>) {
    forall k :: 0 <= k < |queue| ==> queue[k].Link? && queue[k].id < |g|
  }

  /** An expansion is expanded in its turn; the newest one may still be at the top of the queue. */
  ghost predicate ExpansionsReady(p: Problem, expanded: set<Edge>, queue: seq<Edge>) {
    forall e :: e in p.pexp ==>
      Link(p.pexp[e], false) in expanded || (queue != [] && queue[|queue| - 1] == Link(p.pexp[e], false))
  }

  /** What is counted: the expanded ANDs; what has an expansion: the expanded ITEs and IFFs. */
  ghost predicate Registers(p: Problem, count: Counts, expanded: set<Edge>) {
    && (forall u :: u in expanded ==> u.Link? && u.id < |p.nodes|)
    && (forall u :: CountOf(count, u) > 0 <==> u in expanded && IsAndLink(p.nodes, u))
    && (forall u :: u in p.pexp <==> u in expanded && !IsAndLink(p.nodes, u))
  }

  ghost predicate PointersOk(p: Problem, annot: Annots)
    requires Valid(p.nodes)
  {
    forall u :: u in annot ==> u.Link? && annot[u].Semneg? && AreNegations(p.nodes, u.id, annot[u].id)
  }

  ghost predicate ExpandOk(p: Problem, count: Counts, annot: Annots, expanded: set<Edge>, queue: seq<Edge>,
                           root: Edge) {
    && Sane(p) && Queued(p.nodes, queue) && root.Link? && root.id < |p.nodes|
    && Registers(p, count, expanded)
    && ExpansionsReady(p, expanded, queue)
    && Balanced(p, count, Pending(p, queue), root)
    && PointersOk(p, annot)
  }

  // ----- the weight of the queue -----

  ghost function QueueWeight(g: Nodes, queue: seq<Edge>): nat
    requires Valid(g) && Queued(g, queue)
  {
    if queue == [] then 0
    else QueueWeight(g, queue[..|queue| - 1]) + Weight(g, queue[|queue| - 1])
  }

  lemma LinkWeight(g: Nodes, e: Edge)
    requires Valid(g) && e.Link? && e.id < |g|
    ensures Weight(g, e) > 0
  {
    assert AllBelow(g[e.id].args, e.id);
  }

  lemma {:induction false} QueueWeightPush(g: Nodes, queue: seq<Edge>, e: Edge)
    requires Valid(g) && Queued(g, queue) && e.Link? && e.id < |g|
    ensures Queued(g, queue + [e]) && QueueWeight(g, queue + [e]) == QueueWeight(g, queue) + Weight(g, e)
  {
    assert (queue + [e])[..|queue|] == queue;
  }

  lemma {:induction false} QueueWeightGrows(g: Nodes, h: Nodes, queue: seq<Edge>)
    requires Valid(g) && Valid(h) && g <= h && Queued(g, queue)
    ensures Queued(h, queue) && QueueWeight(h, queue) == QueueWeight(g, queue)
    decreases |queue|
  {
    if queue != [] {
      QueueWeightGrows(g, h, queue[..|queue| - 1]);
      WeightExtends(g, h, queue[|queue| - 1]);
    }
  }

  // ----- queueing the arguments of an AND -----

  /** The arguments that are nodes, in the given polarity. */
  function NodesAmong(es: seq<Edge>, neg: bool): seq<Edge> {
    if es == [] then []
    else NodesAmong(es[..|es| - 1], neg) + if es[|es| - 1].Link? then [NegateIf(es[|es| - 1], neg)] else []
  }

  lemma {:induction false} NodesAmongPending(p: Problem, es: seq<Edge>, neg: bool, rs: seq<Edge>)
    requires |rs| == |es| && forall i :: 0 <= i < |es| ==> rs[i] == Resolve(p, NegateIf(es[i], neg))
    requires forall e :: e in p.pexp ==> e.Link?
    ensures forall x: Edge :: x.Link? ==> Pending(p, NodesAmong(es, neg))[x] == multiset(rs)[x]
    decreases |es|
  {
    if es == [] {
      assert ResolveAll(p, []) == [];
    } else {
      var n := |es| - 1;
      NodesAmongPending(p, es[..n], neg, rs[..n]);
      assert rs == rs[..n] + [rs[n]];
      if es[n].Link? {
        PendingPush(p, NodesAmong(es[..n], neg), [NegateIf(es[n], neg)]);
        assert ResolveAll(p, [NegateIf(es[n], neg)]) == [rs[n]];
      } else {
        assert NodesAmong(es, neg) == NodesAmong(es[..n], neg);
        assert rs[n].Leaf?;
      }
    }
  }

  lemma {:induction false} NodesAmongWeight(g: Nodes, queue: seq<Edge>, es: seq<Edge>, neg: bool, n: nat)
    requires Valid(g) && n <= |g| && AllBelow(es, n) && Queued(g, queue)
    ensures Queued(g, queue + NodesAmong(es, neg))
    ensures QueueWeight(g, queue + NodesAmong(es, neg)) == QueueWeight(g, queue) + WeightOfAll(g, es, n)
    decreases |es|
  {
    if es == [] {
      assert queue + [] == queue;
    } else {
      var k := |es| - 1;
      NodesAmongWeight(g, queue, es[..k], neg, n);
      WeightOfAllLast(g, es, n);
      if es[k].Link? {
        var e := NegateIf(es[k], neg);
        QueueWeightPush(g, queue + NodesAmong(es[..k], neg), e);
        assert queue + NodesAmong(es, neg) == queue + NodesAmong(es[..k], neg) + [e];
        NegateWeight(g, es[k], neg);
      } else {
        assert queue + NodesAmong(es, neg) == queue + NodesAmong(es[..k], neg);
      }
    }
  }

  lemma {:induction false} WeightOfAllLast(g: Nodes, es: seq<Edge>, n: nat)
    requires Valid(g) && n <= |g| && AllBelow(es, n) && es != []
    ensures WeightOfAll(g, es, n) == WeightOfAll(g, es[..|es| - 1], n) + Weight(g, es[|es| - 1])
    decreases |es|
  {
    if |es| > 1 {
      WeightOfAllLast(g, es[1..], n);
      assert es[1..][..|es| - 2] == es[..|es| - 1][1..];
    } else {
      assert es[1..] == [] && es[..|es| - 1] == [];
    }
  }

  // ----- rounds -----

  lemma PoppedQueue(g: Nodes, queue: seq<Edge>)
    requires Valid(g) && Queued(g, queue) && queue != []
    ensures Queued(g, queue[..|queue| - 1])
    ensures QueueWeight(g, queue) == QueueWeight(g, queue[..|queue| - 1]) + Weight(g, queue[|queue| - 1])
    ensures Weight(g, queue[|queue| - 1]) > 0
  {
    LinkWeight(g, queue[|queue| - 1]);
  }

  lemma CountedAgain(p: Problem, count: Counts, expanded: set<Edge>, u: Edge)
    requires Registers(p, count, expanded) && CountOf(count, u) > 0
    ensures Registers(p, count[u := CountOf(count, u) + 1], expanded)
  {
  }

  /** An edge met again: its node, or its expansion, is used once more. */
  lemma {:induction false} AgainRound(p: Problem, count: Counts, annot: Annots, expanded: set<Edge>, queue: seq<Edge>,
                                      root: Edge)
    requires ExpandOk(p, count, annot, expanded, queue, root)
    requires queue != [] && queue[|queue| - 1] in expanded
    ensures var u := Resolve(p, queue[|queue| - 1]);
      && u in expanded && CountOf(count, u) > 0
      && ExpandOk(p, count[u := CountOf(count, u) + 1], annot, expanded, queue[..|queue| - 1], root)
    ensures QueueWeight(p.nodes, queue[..|queue| - 1]) < QueueWeight(p.nodes, queue)
  {
    hide Balanced, PointersOk, Weight, Pending;
    var e := queue[|queue| - 1];
    var u := Resolve(p, e);
    assert IsAndLink(p.nodes, u) && u in expanded by {
      ExpandedTarget(p, count, expanded, queue);
    }
    BalancedAgain(p, count, queue, root, u);
    CountedAgain(p, count, expanded, u);
    PoppedQueue(p.nodes, queue);
  }

  /** An edge that was met before resolves to an expanded AND: an expansion is never counted
      before it is expanded itself. */
  lemma {:induction false} ExpandedTarget(p: Problem, count: Counts, expanded: set<Edge>, queue: seq<Edge>)
    requires Sane(p) && Registers(p, count, expanded) && ExpansionsReady(p, expanded, queue)
    requires queue != [] && queue[|queue| - 1] in expanded
    ensures var u := Resolve(p, queue[|queue| - 1]); IsAndLink(p.nodes, u) && u in expanded
  {
  }

  /** An AND met for the first time. */
  lemma {:induction false} FirstAndRound(p: Problem, count: Counts, annot: Annots, expanded: set<Edge>,
                                         queue: seq<Edge>, root: Edge)
    requires ExpandOk(p, count, annot, expanded, queue, root)
    requires queue != [] && IsAndLink(p.nodes, queue[|queue| - 1]) && queue[|queue| - 1] !in expanded
    ensures var e := queue[|queue| - 1];
      var queue' := queue[..|queue| - 1] + NodesAmong(p.nodes[e.id].args, e.neg);
      && ExpandOk(p, count[e := 1], annot, expanded + {e}, queue', root)
      && QueueWeight(p.nodes, queue') < QueueWeight(p.nodes, queue)
  {
    hide Balanced, PointersOk, Weight, Pending, NodesAmong, QueueWeight;
    var e := queue[|queue| - 1];
    var args := p.nodes[e.id].args;
    NodesAmongPending(p, args, e.neg, ResolvedArgs(p, e));
    BalancedFirst(p, count, queue, root, e, NodesAmong(args, e.neg));
    PoppedQueue(p.nodes, queue);
    AndArgsWeight(p.nodes, e);
    NodesAmongWeight(p.nodes, queue[..|queue| - 1], args, e.neg, e.id);
    FirstRegistered(p, count, expanded, e);
  }

  lemma {:induction false} AndArgsWeight(g: Nodes, e: Edge)
    requires Valid(g) && IsAndLink(g, e)
    ensures AllBelow(g[e.id].args, e.id) && Weight(g, e) == 1 + WeightOfAll(g, g[e.id].args, e.id)
  {
    assert AllBelow(g[e.id].args, e.id) && Simplified(g[e.id]);
  }

  lemma {:induction false} FirstRegistered(p: Problem, count: Counts, expanded: set<Edge>, e: Edge)
    requires Registers(p, count, expanded) && IsAndLink(p.nodes, e) && e !in expanded
    ensures Registers(p, count[e := 1], expanded + {e})
  {
  }

  /** `p'` is `p` with more nodes, and with the expansion `id` for the edge `e`. */
  ghost predicate ExpandsTo(p: Problem, p': Problem, e: Edge, id: nat) {
    && Valid(p.nodes) && Valid(p'.nodes) && p.nodes <= p'.nodes
    && p'.inputs == p.inputs && LeavesWithin(p'.nodes, p'.inputs)
    && p'.pexp == p.pexp[e := id] && GoodExpansion(p'.nodes, e, id)
  }

  lemma {:induction false} StillGood(g: Nodes, h: Nodes, e: Edge, id: nat)
    requires Valid(g) && Valid(h) && g <= h && GoodExpansion(g, e, id)
    ensures GoodExpansion(h, e, id)
  {
    forall a: Assignment ensures Value(h, Link(id, false), a) == Value(h, e, a) {
      ValueExtends(g, h, e, a);
      ValueExtends(g, h, Link(id, false), a);
    }
    WeightExtends(g, h, e);
    WeightExtends(g, h, Link(id, false));
  }

  lemma {:induction false} ExpandedSane(p: Problem, p': Problem, e: Edge, id: nat)
    requires Sane(p) && ExpandsTo(p, p', e, id)
    ensures Sane(p')
  {
    forall x | x in p'.pexp ensures GoodExpansion(p'.nodes, x, p'.pexp[x]) {
      if x != e {
        StillGood(p.nodes, p'.nodes, x, p.pexp[x]);
      }
    }
  }

  lemma {:induction false} ExpandedBalance(p: Problem, p': Problem, count: Counts, expanded: set<Edge>,
                                           queue: seq<Edge>,
                                           root: Edge, e: Edge, id: nat)
    requires Sane(p) && Registers(p, count, expanded) && Balanced(p, count, Pending(p, queue), root)
    requires queue != [] && queue[|queue| - 1] == e && e !in expanded && e.Link? && e.id < |p.nodes|
    requires ExpandsTo(p, p', e, id) && !IsAndLink(p.nodes, e)
    ensures Balanced(p', count, Pending(p', queue[..|queue| - 1] + [Link(id, false)]), root)
  {
    hide Balanced, Pending, Weight;
    var grown := Problem(p'.nodes, p.pexp, p.inputs);
    assert Pending(grown, queue) == Pending(p, queue) by {
      SamePending(p, grown, queue);
    }
    assert CountsWithin(count, |p.nodes|);
    BalancedGrows(p, grown, count, Pending(p, queue), root);
    forall x | x in p.pexp ensures Link(p.pexp[x], false) != e {
      assert GoodExpansion(p.nodes, x, p.pexp[x]);
    }
    assert Link(id, false) !in p'.pexp by {
      assert GoodExpansion(p'.nodes, e, id);
      ExpandedSane(p, p', e, id);
    }
    BalancedMoves(grown, p', count, queue, root, e, id);
  }

  lemma SamePending(p: Problem, p': Problem, queue: seq<Edge>)
    requires p'.pexp == p.pexp
    ensures Pending(p', queue) == Pending(p, queue)
  {
    assert ResolveAll(p', queue) == ResolveAll(p, queue);
  }

  lemma {:induction false} ExpandedRegisters(p: Problem, p': Problem, count: Counts, expanded: set<Edge>, e: Edge,
                                             id: nat)
    requires Registers(p, count, expanded) && e !in expanded && e.Link? && e.id < |p.nodes|
    requires ExpandsTo(p, p', e, id) && !IsAndLink(p.nodes, e)
    ensures Registers(p', count, expanded + {e})
  {
    assert p'.nodes[e.id] == p.nodes[e.id];
    forall u | u in expanded ensures IsAndLink(p'.nodes, u) <==> IsAndLink(p.nodes, u) {
      assert p'.nodes[u.id] == p.nodes[u.id];
    }
  }

  lemma {:induction false} ExpandedWeight(p: Problem, p': Problem, queue: seq<Edge>, e: Edge, id: nat)
    requires ExpandsTo(p, p', e, id) && Queued(p.nodes, queue) && queue != [] && queue[|queue| - 1] == e
    ensures var queue' := queue[..|queue| - 1] + [Link(id, false)];
      Queued(p'.nodes, queue') && QueueWeight(p'.nodes, queue') < QueueWeight(p.nodes, queue)
  {
    PoppedQueue(p.nodes, queue);
    QueueWeightGrows(p.nodes, p'.nodes, queue[..|queue| - 1]);
    QueueWeightPush(p'.nodes, queue[..|queue| - 1], Link(id, false));
    WeightExtends(p.nodes, p'.nodes, e);
  }

  /** The pointers between the two expansions of one node, once both exist. */
  function Linked(annot: Annots, m: nat, n: nat): Annots {
    annot[Link(m, false) := Semneg(n)][Link(n, false) := Semneg(m)]
         [Link(m, true) := Semneg(n)][Link(n, true) := Semneg(m)]
  }

  lemma {:induction false} PointersGrow(p: Problem, p': Problem, annot: Annots)
    requires Valid(p.nodes) && Valid(p'.nodes) && p.nodes <= p'.nodes && PointersOk(p, annot)
    ensures PointersOk(p', annot)
  {
    forall u | u in annot ensures AreNegations(p'.nodes, u.id, annot[u].id) {
      var m, n := u.id, annot[u].id;
      assert AreNegations(p.nodes, m, n);
      forall a: Assignment ensures Value(p'.nodes, Link(m, true), a) == Value(p'.nodes, Link(n, false), a) {
        ValueExtends(p.nodes, p'.nodes, Link(m, true), a);
        ValueExtends(p.nodes, p'.nodes, Link(n, false), a);
      }
    }
  }

  /** The two expansions of one node, in its two polarities, are complements of each other. */
  lemma {:induction false} OppositeExpansions(g: Nodes, e: Edge, m: nat, n: nat)
    requires Valid(g) && GoodExpansion(g, e, m) && GoodExpansion(g, Negate(e), n)
    ensures AreNegations(g, m, n) && AreNegations(g, n, m)
  {
    forall a: Assignment
      ensures Value(g, Link(m, true), a) == Value(g, Link(n, false), a)
      ensures Value(g, Link(n, true), a) == Value(g, Link(m, false), a)
    {
      NegateValue(g, e, true, a);
      NegateValue(g, Link(m, false), true, a);
      NegateValue(g, Link(n, false), true, a);
    }
  }

  lemma {:induction false} LinkedPointers(p: Problem, annot: Annots, e: Edge)
    requires Sane(p) && PointersOk(p, annot) && e in p.pexp && Negate(e) in p.pexp
    ensures PointersOk(p, Linked(annot, p.pexp[e], p.pexp[Negate(e)]))
  {
    OppositeExpansions(p.nodes, e, p.pexp[e], p.pexp[Negate(e)]);
    LinkKeeps(p, annot, p.pexp[e], p.pexp[Negate(e)]);
  }

  lemma LinkKeeps(p: Problem, annot: Annots, m: nat, n: nat)
    requires Valid(p.nodes) && PointersOk(p, annot) && AreNegations(p.nodes, m, n) && AreNegations(p.nodes, n, m)
    ensures PointersOk(p, Linked(annot, m, n))
  {
    hide AreNegations, Valid;
  }

  /** An ITE or IFF met for the first time. */
  lemma {:induction false} FirstIteRound(p: Problem, p': Problem, count: Counts, annot: Annots, expanded: set<Edge>,
                                         queue: seq<Edge>, root: Edge, id: nat)
    requires ExpandOk(p, count, annot, expanded, queue, root)
    requires queue != [] && !IsAndLink(p.nodes, queue[|queue| - 1]) && queue[|queue| - 1] !in expanded
    requires ExpandsTo(p, p', queue[|queue| - 1], id)
    ensures var e := queue[|queue| - 1];
      var queue' := queue[..|queue| - 1] + [Link(id, false)];
      var annot' := if Negate(e) in expanded then Linked(annot, id, p.pexp[Negate(e)]) else annot;
      && (Negate(e) in expanded ==> Negate(e) in p.pexp)
      && Sane(p') && ExpandOk(p', count, annot', expanded + {e}, queue', root)
      && QueueWeight(p'.nodes, queue') < QueueWeight(p.nodes, queue)
  {
    hide Balanced, Weight, Pending, QueueWeight, Linked;
    var e := queue[|queue| - 1];
    ExpandedSane(p, p', e, id);
    ExpandedBalance(p, p', count, expanded, queue, root, e, id);
    ExpandedRegisters(p, p', count, expanded, e, id);
    ExpandedWeight(p, p', queue, e, id);
    PointersGrow(p, p', annot);
    if Negate(e) in expanded {
      NegatedIsExpanded(p, count, expanded, e);
      LinkedPointers(p', annot, e);
    }
  }

  lemma NegatedIsExpanded(p: Problem, count: Counts, expanded: set<Edge>, e: Edge)
    requires Registers(p, count, expanded) && e.Link? && !IsAndLink(p.nodes, e) && Negate(e) in expanded
    ensures Negate(e) in p.pexp && Negate(e) != e
  {
  }

  // ----- the start and the end -----

  lemma {:induction false} StartExpand(p: Problem, root: Edge)
    requires Sane(p) && p.pexp == map[] && root.Link? && root.id < |p.nodes|
    ensures ExpandOk(p, map[], map[], {}, [root], root)
  {
    hide Balanced, Pending;
    BalancedStart(p, root);
  }

  /** When the queue is empty, everything the CNF pass relies on has been established. */
  lemma {:induction false} EndExpand(p: Problem, count: Counts, annot: Annots, expanded: set<Edge>, root: Edge)
    requires ExpandOk(p, count, annot, expanded, [], root)
    ensures Sane(p) && Expanded(p, count, Resolve(p, root))
    ensures forall u :: u in annot ==> AnnotOk(p, Log([], map[]), {}, CountOf(count, u), u, annot[u])
  {
    hide Balanced, Pending, Demand, NodeBag;
    var top := Resolve(p, root);
    BalancedEnd(p, count, root);
    CountedIsAnd(p, count, expanded, top, top);
    forall u | CountOf(count, u) > 0 && IsAndLink(p.nodes, u) ensures ArgsAreAnds(p, u) {
      CountedArgs(p, count, expanded, top, u);
    }
  }

  lemma CountedIsAnd(p: Problem, count: Counts, expanded: set<Edge>, root: Edge, x: Edge)
    requires Registers(p, count, expanded) && Conserved(p, count, {}, count, root)
    requires x.Link? && (x == root || x in Demand(p, count, {}))
    ensures IsAndLink(p.nodes, x)
  {
    hide Demand;
    assert CountOf(count, x) > 0;
  }

  lemma {:induction false} CountedArgs(p: Problem, count: Counts, expanded: set<Edge>, root: Edge, u: Edge)
    requires Registers(p, count, expanded) && Conserved(p, count, {}, count, root)
    requires CountOf(count, u) > 0 && IsAndLink(p.nodes, u)
    ensures ArgsAreAnds(p, u)
  {
    var rs := ResolvedArgs(p, u);
    forall i | 0 <= i < |rs| && rs[i].Link? ensures IsAndLink(p.nodes, rs[i]) {
      ArgDemanded(p, count, u, i);
      CountedIsAnd(p, count, expanded, root, rs[i]);
    }
  }

  lemma ArgDemanded(p: Problem, count: Counts, u: Edge, i: nat)
    requires u.Link? && u.id < |p.nodes| && CountOf(count, u) > 0 && i < |ResolvedArgs(p, u)|
    ensures ResolvedArgs(p, u)[i] in Demand(p, count, {})
  {
    hide Demand, ResolvedArgs;
    DemandOfUnfinished(p, count, {}, u.id);
    assert u == Link(u.id, false) || u == Link(u.id, true);
    assert ResolvedArgs(p, u)[i] in multiset(ResolvedArgs(p, u));
    assert ResolvedArgs(p, u)[i] in NodeBag(p, count, u.id);
  }

  /** What the code reads about the top of the queue. */
  lemma {:induction false} TopOfQueue(p: Problem, count: Counts, annot: Annots, expanded: set<Edge>, queue: seq<Edge>,
                                      root: Edge)
    requires ExpandOk(p, count, annot, expanded, queue, root)
    ensures Queued(p.nodes, queue) && root.Link? && root.id < |p.nodes|
    ensures Valid(p.nodes) && LeavesWithin(p.nodes, p.inputs)
    ensures queue != [] ==>
      var e := queue[|queue| - 1];
      && (e in p.pexp <==> e in expanded && !IsAndLink(p.nodes, e))
      && (Negate(e) in p.pexp ==> Negate(e) in expanded)
      && (e !in expanded && Negate(e) in expanded && !IsAndLink(p.nodes, e) ==> Negate(e) in p.pexp && Negate(e) != e)
  {
  }
}
