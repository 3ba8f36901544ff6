/** Use counts during expansion: what is counted and what is still queued is exactly what occurs. */
module Counting {
  import opened Dags
  import opened CnfInvariants
  import opened CnfStates
  import opened CnfWalks

  function ResolveAll(p: Problem, es: seq<Edge>): (rs: seq<Edge>)
    ensures |rs| == |es| && forall i :: 0 <= i < |es| ==> rs[i] == Resolve(p, es[i])
  {
    seq(|es|, i requires 0 <= i < |es| => Resolve(p, es[i]))
  }

  /** The queue entries, through the expansions that exist. */
  function Pending(p: Problem, queue: seq<Edge>): multiset<Edge> {
    multiset(ResolveAll(p, queue))
  }

  lemma PendingPop(p: Problem, queue: seq<Edge>)
    requires queue != []
    ensures Pending(p, queue) == Pending(p, queue[..|queue| - 1]) + multiset{Resolve(p, queue[|queue| - 1])}
  {
    var n := |queue| - 1;
    assert ResolveAll(p, queue) == ResolveAll(p, queue[..n]) + [Resolve(p, queue[n])];
  }

  lemma PendingPush(p: Problem, queue: seq<Edge>, es: seq<Edge>)
    ensures Pending(p, queue + es) == Pending(p, queue) + Pending(p, es)
  {
    assert ResolveAll(p, queue + es) == ResolveAll(p, queue) + ResolveAll(p, es);
  }

  /** Every occurrence of a node in an expanded node, and the root, is counted or queued, through the
      expansions that exist. */
  ghost predicate Balanced(p: Problem, count: Counts, pending: multiset<Edge>, root: Edge) {
    forall x: Edge :: x.Link? ==>
      CountOf(count, x) + pending[x] == Demand(p, count, {})[x] + if x == Resolve(p, root) then 1 else 0
  }

  // ----- sums -----

  lemma {:induction false} SumUpdate(bags: seq<multiset<Edge>>, i: nat, extra: multiset<Edge>)
    requires i < |bags|
    ensures Sum(bags[i := bags[i] + extra]) == Sum(bags) + extra
    decreases |bags|
  {
    var n := |bags| - 1;
    var bags' := bags[i := bags[i] + extra];
    if i < n {
      assert bags'[..n] == bags[..n][i := bags[i] + extra];
      SumUpdate(bags[..n], i, extra);
    } else {
      assert bags'[..n] == bags[..n];
    }
  }

  lemma {:induction false} SumPadding(bags: seq<multiset<Edge>>, bags': seq<multiset<Edge>>)
    requires bags <= bags' && forall i :: |bags| <= i < |bags'| ==> bags'[i] == multiset{}
    ensures Sum(bags') == Sum(bags)
    decreases |bags'|
  {
    if |bags| < |bags'| {
      SumPadding(bags, bags'[..|bags'| - 1]);
    } else {
      assert bags == bags';
    }
  }

  /** All of `r` moved to `u`. */
  function Moved(bag: multiset<Edge>, r: Edge, u: Edge): multiset<Edge>
    requires r != u
  {
    bag[u := bag[u] + bag[r]][r := 0]
  }

  lemma MovedSum(a: multiset<Edge>, b: multiset<Edge>, r: Edge, u: Edge)
    requires r != u
    ensures Moved(a + b, r, u) == Moved(a, r, u) + Moved(b, r, u)
  {
    forall x ensures Moved(a + b, r, u)[x] == (Moved(a, r, u) + Moved(b, r, u))[x] {
    }
  }

  lemma {:induction false} SumMoved(bags: seq<multiset<Edge>>, bags': seq<multiset<Edge>>, r: Edge, u: Edge)
    requires r != u && |bags| == |bags'| && forall i :: 0 <= i < |bags| ==> bags'[i] == Moved(bags[i], r, u)
    ensures Sum(bags') == Moved(Sum(bags), r, u)
    decreases |bags|
  {
    if bags != [] {
      var n := |bags| - 1;
      SumMoved(bags[..n], bags'[..n], r, u);
      MovedSum(Sum(bags[..n]), bags[n], r, u);
    }
  }

  lemma {:induction false} SeqMoved(s: seq<Edge>, s': seq<Edge>, r: Edge, u: Edge)
    requires r != u && |s| == |s'| && forall i :: 0 <= i < |s| ==> s'[i] == if s[i] == r then u else s[i]
    ensures multiset(s') == Moved(multiset(s), r, u)
    decreases |s|
  {
    if s != [] {
      var n := |s| - 1;
      SeqMoved(s[..n], s'[..n], r, u);
      assert s == s[..n] + [s[n]] && s' == s'[..n] + [s'[n]];
      MovedSum(multiset(s[..n]), multiset{s[n]}, r, u);
      assert multiset{s'[n]} == Moved(multiset{s[n]}, r, u);
    }
  }

  // ----- the four ways the balance changes -----

  lemma DemandIsSum(p: Problem, count: Counts)
    ensures Demand(p, count, {}) == Sum(Bags(p, count))
  {
    assert Open(Bags(p, count), {}) == Bags(p, count);
  }

  /** A queue entry that was expanded before adds one to the count. */
  lemma BalancedAgain(p: Problem, count: Counts, queue: seq<Edge>, root: Edge, u: Edge)
    requires queue != [] && u == Resolve(p, queue[|queue| - 1]) && u.Link? && CountOf(count, u) > 0
    requires Balanced(p, count, Pending(p, queue), root)
    ensures Balanced(p, count[u := CountOf(count, u) + 1], Pending(p, queue[..|queue| - 1]), root)
  {
    hide NodeBag, Pending;
    var count' := count[u := CountOf(count, u) + 1];
    PendingPop(p, queue);
    SameBags(p, count, count');
    DemandIsSum(p, count);
    DemandIsSum(p, count');
  }

  lemma SameBag(p: Problem, count: Counts, count': Counts, id: nat)
    requires id < |p.nodes|
    requires CountOf(count, Link(id, false)) > 0 <==> CountOf(count', Link(id, false)) > 0
    requires CountOf(count, Link(id, true)) > 0 <==> CountOf(count', Link(id, true)) > 0
    ensures NodeBag(p, count, id) == NodeBag(p, count', id)
  {
  }

  lemma SameBags(p: Problem, count: Counts, count': Counts)
    requires forall x :: CountOf(count, x) > 0 <==> CountOf(count', x) > 0
    ensures Bags(p, count) == Bags(p, count')
  {
    hide NodeBag, CountOf;
    forall id | 0 <= id < |p.nodes| ensures NodeBag(p, count, id) == NodeBag(p, count', id) {
      SameBag(p, count, count', id);
    }
  }

  /** An AND met for the first time is counted once, and its arguments are queued. */
  lemma BalancedFirst(p: Problem, count: Counts, queue: seq<Edge>, root: Edge, e: Edge, pushes: seq<Edge>)
    requires queue != [] && e == queue[|queue| - 1] && e.Link? && e.id < |p.nodes|
    requires e !in p.pexp && CountOf(count, e) == 0
    requires forall x: Edge :: x.Link? ==> Pending(p, pushes)[x] == multiset(ResolvedArgs(p, e))[x]
    requires Balanced(p, count, Pending(p, queue), root)
    ensures Balanced(p, count[e := 1], Pending(p, queue[..|queue| - 1] + pushes), root)
  {
    hide NodeBag, Pending, ResolvedArgs;
    var count' := count[e := 1];
    PendingPop(p, queue);
    PendingPush(p, queue[..|queue| - 1], pushes);
    NewBag(p, count, e);
    SumUpdate(Bags(p, count), e.id, multiset(ResolvedArgs(p, e)));
    DemandIsSum(p, count);
    DemandIsSum(p, count');
  }

  lemma NewNodeBag(p: Problem, count: Counts, e: Edge)
    requires e.Link? && e.id < |p.nodes| && CountOf(count, e) == 0
    ensures NodeBag(p, count[e := 1], e.id) == NodeBag(p, count, e.id) + multiset(ResolvedArgs(p, e))
  {
    hide ResolvedArgs;
    assert e == Link(e.id, false) || e == Link(e.id, true);
  }

  lemma NewBag(p: Problem, count: Counts, e: Edge)
    requires e.Link? && e.id < |p.nodes| && CountOf(count, e) == 0
    ensures Bags(p, count[e := 1]) == Bags(p, count)[e.id := Bags(p, count)[e.id] + multiset(ResolvedArgs(p, e))]
  {
    hide NodeBag, ResolvedArgs;
    var count' := count[e := 1];
    forall id: nat | id < |p.nodes| && id != e.id ensures NodeBag(p, count', id) == NodeBag(p, count, id) {
      SameBag(p, count', count, id);
    }
    NewNodeBag(p, count, e);
  }

  ghost predicate CountsWithin(count: Counts, n: nat) {
    forall u :: CountOf(count, u) > 0 ==> u.Link? && u.id < n
  }

  lemma UncountedBag(p: Problem, count: Counts, id: nat)
    requires id < |p.nodes| && CountOf(count, Link(id, false)) == 0 && CountOf(count, Link(id, true)) == 0
    ensures NodeBag(p, count, id) == multiset{}
  {
  }

  lemma GrownBag(p: Problem, p': Problem, count: Counts, id: nat)
    requires p.nodes <= p'.nodes && p'.pexp == p.pexp && id < |p.nodes|
    ensures NodeBag(p', count, id) == NodeBag(p, count, id)
  {
    hide ResolvedArgs;
    SameArgs(p, p', Link(id, false));
    SameArgs(p, p', Link(id, true));
  }

  /** New nodes are not counted yet. */
  lemma BalancedGrows(p: Problem, p': Problem, count: Counts, pending: multiset<Edge>, root: Edge)
    requires p.nodes <= p'.nodes && p'.pexp == p.pexp && CountsWithin(count, |p.nodes|)
    requires Balanced(p, count, pending, root)
    ensures Balanced(p', count, pending, root)
  {
    hide NodeBag, CountOf;
    forall id: nat | id < |p'.nodes|
      ensures Bags(p', count)[id] == if id < |p.nodes| then Bags(p, count)[id] else multiset{}
    {
      if id < |p.nodes| {
        GrownBag(p, p', count, id);
      } else {
        UncountedBag(p', count, id);
      }
    }
    SumPadding(Bags(p, count), Bags(p', count));
    DemandIsSum(p, count);
    DemandIsSum(p', count);
  }

  lemma SameArgs(p: Problem, p': Problem, u: Edge)
    requires p.nodes <= p'.nodes && p'.pexp == p.pexp && u.Link? && u.id < |p.nodes|
    ensures ResolvedArgs(p', u) == ResolvedArgs(p, u)
  {
  }

  /** An ITE or IFF gets its expansion: wherever it occurred, the expansion now occurs, and it takes
      the place of the entry at the top of the queue. */
  lemma BalancedMoves(p: Problem, p': Problem, count: Counts, queue: seq<Edge>, root: Edge, r: Edge, id: nat)
    requires queue != [] && r == queue[|queue| - 1] && r.Link? && r !in p.pexp && CountOf(count, r) == 0
    requires p'.nodes == p.nodes && p'.pexp == p.pexp[r := id] && Link(id, false) !in p'.pexp
    requires forall x :: x in p.pexp ==> Link(p.pexp[x], false) != r
    requires Balanced(p, count, Pending(p, queue), root)
    ensures Balanced(p', count, Pending(p', queue[..|queue| - 1] + [Link(id, false)]), root)
  {
    hide NodeBag, Pending, Moved, Bags;
    var u := Link(id, false);
    var queue' := queue[..|queue| - 1] + [u];
    PendingMoved(p, p', queue, r, id);
    BagsMoved(p, p', count, r, id);
    SumMoved(Bags(p, count), Bags(p', count), r, u);
    DemandIsSum(p, count);
    DemandIsSum(p', count);
    MovedBalance(p, p', count, Pending(p, queue), root, r, id);
  }

  lemma MovedBalance(p: Problem, p': Problem, count: Counts, pending: multiset<Edge>, root: Edge, r: Edge, id: nat)
    requires r.Link? && r !in p.pexp && CountOf(count, r) == 0 && r != Link(id, false)
    requires p'.pexp == p.pexp[r := id] && forall x :: x in p.pexp ==> Link(p.pexp[x], false) != r
    requires Balanced(p, count, pending, root)
    requires Demand(p', count, {}) == Moved(Demand(p, count, {}), r, Link(id, false))
    ensures Balanced(p', count, Moved(pending, r, Link(id, false)), root)
  {
    hide Demand;
    var u := Link(id, false);
    forall x: Edge | x.Link?
      ensures CountOf(count, x) + Moved(pending, r, u)[x]
        == Demand(p', count, {})[x] + if x == Resolve(p', root) then 1 else 0
    {
      assert CountOf(count, x) + pending[x] == Demand(p, count, {})[x] + if x == Resolve(p, root) then 1 else 0;
      assert CountOf(count, r) + pending[r] == Demand(p, count, {})[r] + if r == Resolve(p, root) then 1 else 0;
    }
  }

  lemma ResolveMoved(p: Problem, p': Problem, r: Edge, id: nat, e: Edge)
    requires r !in p.pexp && p'.pexp == p.pexp[r := id]
    requires forall x :: x in p.pexp ==> Link(p.pexp[x], false) != r
    ensures Resolve(p', e) == if Resolve(p, e) == r then Link(id, false) else Resolve(p, e)
  {
  }

  lemma PendingMoved(p: Problem, p': Problem, queue: seq<Edge>, r: Edge, id: nat)
    requires queue != [] && r == queue[|queue| - 1] && r !in p.pexp && r != Link(id, false)
    requires p'.pexp == p.pexp[r := id] && Link(id, false) !in p'.pexp
    requires forall x :: x in p.pexp ==> Link(p.pexp[x], false) != r
    ensures Pending(p', queue[..|queue| - 1] + [Link(id, false)]) == Moved(Pending(p, queue), r, Link(id, false))
  {
    var u := Link(id, false);
    var rs, rs' := ResolveAll(p, queue), ResolveAll(p', queue[..|queue| - 1] + [u]);
    forall i | 0 <= i < |rs| ensures rs'[i] == if rs[i] == r then u else rs[i] {
      ResolveMoved(p, p', r, id, queue[i]);
    }
    SeqMoved(rs, rs', r, u);
  }

  lemma BagsMoved(p: Problem, p': Problem, count: Counts, r: Edge, id: nat)
    requires r !in p.pexp && r != Link(id, false) && p'.nodes == p.nodes && p'.pexp == p.pexp[r := id]
    requires forall x :: x in p.pexp ==> Link(p.pexp[x], false) != r
    ensures forall k :: 0 <= k < |p.nodes| ==> Bags(p', count)[k] == Moved(Bags(p, count)[k], r, Link(id, false))
  {
    var u := Link(id, false);
    forall k | 0 <= k < |p.nodes| ensures NodeBag(p', count, k) == Moved(NodeBag(p, count, k), r, u) {
      UseMoved(p, p', count, r, id, Link(k, false));
      UseMoved(p, p', count, r, id, Link(k, true));
      MovedSum(BagOf(p, count, Link(k, false)), BagOf(p, count, Link(k, true)), r, u);
    }
  }

  lemma UseMoved(p: Problem, p': Problem, count: Counts, r: Edge, id: nat, w: Edge)
    requires r !in p.pexp && r != Link(id, false) && p'.nodes == p.nodes && p'.pexp == p.pexp[r := id]
    requires forall x :: x in p.pexp ==> Link(p.pexp[x], false) != r
    requires w.Link? && w.id < |p.nodes|
    ensures BagOf(p', count, w) == Moved(BagOf(p, count, w), r, Link(id, false))
  {
    var rs, rs' := ResolvedArgs(p, w), ResolvedArgs(p', w);
    forall i | 0 <= i < |rs| ensures rs'[i] == if rs[i] == r then Link(id, false) else rs[i] {
      ResolveMoved(p, p', r, id, NegateIf(p.nodes[w.id].args[i], w.neg));
    }
    SeqMoved(rs, rs', r, Link(id, false));
  }

  // ----- the start and the end -----

  lemma BalancedStart(p: Problem, root: Edge)
    ensures Balanced(p, map[], Pending(p, [root]), root)
  {
    NoDemand(p);
    hide Demand, Resolve;
    assert ResolveAll(p, [root]) == [Resolve(p, root)];
  }

  lemma NoDemand(p: Problem)
    ensures Demand(p, map[], {}) == multiset{}
  {
    hide NodeBag;
    forall id: nat | id < |p.nodes| ensures Bags(p, map[])[id] == multiset{} {
      UncountedBag(p, map[], id);
    }
    SumPadding([], Bags(p, map[]));
    DemandIsSum(p, map[]);
  }

  /** With an empty queue, the counts are the occurrences. */
  lemma BalancedEnd(p: Problem, count: Counts, root: Edge)
    requires Balanced(p, count, Pending(p, []), root)
    ensures Conserved(p, count, {}, count, Resolve(p, root))
  {
    assert ResolveAll(p, []) == [];
  }
}
