/** The post-order walk of the CNF pass: what the work queue guarantees, and what is still owed. */
module CnfWalks {
  import opened Dags
  import opened CnfInvariants
  import opened CnfStates

  // ----- sums of bags -----

  ghost function Sum(bags: seq<multiset<Edge>>): multiset<Edge> {
    if bags == [] then multiset{} else Sum(bags[..|bags| - 1]) + bags[|bags| - 1]
  }

  lemma {:induction false} SumContains(bags: seq<multiset<Edge>>, i: nat)
    requires i < |bags|
    ensures bags[i] <= Sum(bags)
    decreases |bags|
  {
    if i < |bags| - 1 {
      SumContains(bags[..|bags| - 1], i);
    }
  }

  lemma {:induction false} SumHasSource(bags: seq<multiset<Edge>>, x: Edge) returns (i: nat)
    requires x in Sum(bags)
    ensures i < |bags| && x in bags[i]
    decreases |bags|
  {
    var n := |bags| - 1;
    if x in bags[n] {
      i := n;
    } else {
      i := SumHasSource(bags[..n], x);
    }
  }

  lemma {:induction false} SumWithout(bags: seq<multiset<Edge>>, i: nat)
    requires i < |bags|
    ensures Sum(bags[i := multiset{}]) + bags[i] == Sum(bags)
    decreases |bags|
  {
    var n := |bags| - 1;
    var bags' := bags[i := multiset{}];
    if i < n {
      assert bags'[..n] == bags[..n][i := multiset{}];
      SumWithout(bags[..n], i);
    } else {
      assert bags'[..n] == bags[..n];
    }
  }

  // ----- demand -----

  /** What each node consumes. */
  ghost function Bags(p: Problem, count: Counts): (bags: seq<multiset<Edge>>)
    ensures |bags| == |p.nodes| && forall id :: 0 <= id < |p.nodes| ==> bags[id] == NodeBag(p, count, id)
  {
    seq(|p.nodes|, id requires 0 <= id < |p.nodes| => NodeBag(p, count, id))
  }

  /** The bags of the unfinished nodes. */
  ghost function Open(bags: seq<multiset<Edge>>, up: set<Edge>): (open: seq<multiset<Edge>>)
    ensures |open| == |bags|
    ensures forall id :: 0 <= id < |bags| ==> open[id] == if Link(id, false) in up then multiset{} else bags[id]
  {
    seq(|bags|, id requires 0 <= id < |bags| => if Link(id, false) in up then multiset{} else bags[id])
  }

  lemma OpenAfter(bags: seq<multiset<Edge>>, up: set<Edge>, id: nat)
    requires id < |bags|
    ensures Open(bags, up + {Link(id, false), Link(id, true)}) == Open(bags, up)[id := multiset{}]
  {
  }

  ghost function Demand(p: Problem, count: Counts, up: set<Edge>): multiset<Edge> {
    Sum(Open(Bags(p, count), up))
  }

  /** Every use that is counted is a use by an unfinished node, or the one of the root. */
  ghost predicate Conserved(p: Problem, wanted: Counts, up: set<Edge>, count: Counts, root: Edge) {
    forall x: Edge :: x.Link? ==>
      CountOf(count, x) == Demand(p, wanted, up)[x] + if x == root then 1 else 0
  }

  lemma DemandOfUnfinished(p: Problem, count: Counts, up: set<Edge>, id: nat)
    requires id < |p.nodes| && Link(id, false) !in up
    ensures NodeBag(p, count, id) <= Demand(p, count, up)
  {
    SumContains(Open(Bags(p, count), up), id);
  }

  lemma DemandHasSource(p: Problem, count: Counts, up: set<Edge>, x: Edge) returns (id: nat)
    requires x in Demand(p, count, up)
    ensures id < |p.nodes| && Link(id, false) !in up && x in NodeBag(p, count, id)
  {
    id := SumHasSource(Open(Bags(p, count), up), x);
  }

  /** Finishing one node takes exactly its bag out of the demand. */
  lemma DemandAfter(p: Problem, count: Counts, up: set<Edge>, id: nat)
    requires id < |p.nodes| && Link(id, false) !in up
    ensures Demand(p, count, up + {Link(id, false), Link(id, true)}) + NodeBag(p, count, id) == Demand(p, count, up)
  {
    var bags := Bags(p, count);
    SumWithout(Open(bags, up), id);
    OpenAfter(bags, up, id);
  }

  // ----- the work queue -----

  /** Processing the queue entry `f` will take care of the node of `x`. */
  ghost predicate Covers(p: Problem, f: Edge, x: Edge) {
    f.Link? && x.Link? &&
    (f.id == x.id || (f in p.pexp && p.pexp[f] == x.id) || (Negate(f) in p.pexp && p.pexp[Negate(f)] == x.id))
  }

  ghost predicate CoveredFrom(p: Problem, stack: seq<Edge>, lo: int, up: set<Edge>, x: Edge) {
    x in up || exists k :: lo < k < |stack| && 0 <= k && Covers(p, stack[k], x)
  }

  ghost predicate Wanted(wanted: Counts, id: nat) {
    CountOf(wanted, Link(id, false)) > 0 || CountOf(wanted, Link(id, true)) > 0
  }

  predicate Marked(down: set<Edge>, id: nat) {
    Link(id, false) in down || Link(id, true) in down
  }

  ghost predicate AllBelowTable(p: Problem, stack: seq<Edge>) {
    forall k :: 0 <= k < |stack| ==> Below(stack[k], |p.nodes|)
  }

  /** Everything above position `g` of the queue is lighter. */
  ghost predicate Heaviest(p: Problem, stack: seq<Edge>, g: nat)
    requires Sane(p) && AllBelowTable(p, stack) && g < |stack|
  {
    forall k :: g < k < |stack| ==> Weight(p.nodes, stack[k]) < Weight(p.nodes, stack[g])
  }

  /** Every node in the bag is finished, or covered above position `g`. */
  ghost predicate BagCovered(p: Problem, bag: multiset<Edge>, stack: seq<Edge>, up: set<Edge>, g: nat) {
    forall x :: x in bag && x.Link? ==> CoveredFrom(p, stack, g, up, x)
  }

  /** The queue entry at position `g` is a node under way: everything above it is lighter,
      and all its arguments are finished or above it. */
  ghost predicate UnderWay(p: Problem, wanted: Counts, stack: seq<Edge>, up: set<Edge>, g: nat)
    requires Sane(p) && AllBelowTable(p, stack)
  {
    && g < |stack| && IsAndLink(p.nodes, stack[g])
    && Link(stack[g].id, false) !in up && Wanted(wanted, stack[g].id)
    && Heaviest(p, stack, g)
    && BagCovered(p, NodeBag(p, wanted, stack[g].id), stack, up, g)
  }

  ghost predicate HasGrey(stack: seq<Edge>, greys: set<nat>, id: nat) {
    exists g :: g in greys && g < |stack| && stack[g].Link? && stack[g].id == id
  }

  /** The marked unfinished nodes are exactly those at the positions `greys` of the queue. */
  ghost predicate WalkOk(p: Problem, wanted: Counts, stack: seq<Edge>, greys: set<nat>, down: set<Edge>, up: set<Edge>)
    requires Sane(p)
  {
    && AllBelowTable(p, stack)
    && GreysOk(p, wanted, stack, greys, down, up)
    && MarksOk(p, stack, greys, down, up)
  }

  ghost predicate GreysOk(p: Problem, wanted: Counts, stack: seq<Edge>, greys: set<nat>, down: set<Edge>, up: set<Edge>)
    requires Sane(p) && AllBelowTable(p, stack)
  {
    forall g :: g in greys ==> UnderWay(p, wanted, stack, up, g) && Marked(down, stack[g].id)
  }

  ghost predicate MarksOk(p: Problem, stack: seq<Edge>, greys: set<nat>, down: set<Edge>, up: set<Edge>) {
    forall id: nat :: id < |p.nodes| && Marked(down, id) && Link(id, false) !in up ==> HasGrey(stack, greys, id)
  }

  ghost function BelowPosition(greys: set<nat>, n: nat): set<nat> {
    set g | g in greys && g < n
  }

  lemma MarksAfter(p: Problem, stack: seq<Edge>, stack': seq<Edge>, greys: set<nat>, down: set<Edge>,
                   up: set<Edge>, up': set<Edge>, n: nat)
    requires MarksOk(p, stack, greys, down, up) && up <= up' && n <= |stack| && n <= |stack'|
    requires forall g: nat :: g < n ==> stack'[g] == stack[g]
    requires forall g :: g in greys && g >= n ==> g < |stack| && stack[g].Link? && Link(stack[g].id, false) in up'
    ensures MarksOk(p, stack', BelowPosition(greys, n), down, up')
  {
    var greys' := BelowPosition(greys, n);
    forall id: nat | id < |p.nodes| && Marked(down, id) && Link(id, false) !in up' ensures HasGrey(stack', greys', id) {
      assert HasGrey(stack, greys, id);
      var g :| g in greys && g < |stack| && stack[g].Link? && stack[g].id == id;
      assert g in greys';
    }
  }

  // ----- what expansion hands over -----

  /** Uses are counted for AND nodes only, every argument of a wanted use is expanded, and the
      counts are the occurrences. */
  ghost predicate Expanded(p: Problem, wanted: Counts, root: Edge)
    requires Sane(p)
  {
    && IsAndLink(p.nodes, root)
    && (forall u :: CountOf(wanted, u) > 0 ==> IsAndLink(p.nodes, u))
    && (forall u :: CountOf(wanted, u) > 0 && IsAndLink(p.nodes, u) ==> ArgsAreAnds(p, u))
    && Conserved(p, wanted, {}, wanted, root)
  }

  ghost predicate ArgsAreAnds(p: Problem, u: Edge)
    requires u.Link? && u.id < |p.nodes|
  {
    var rs := ResolvedArgs(p, u);
    forall i :: 0 <= i < |rs| && rs[i].Link? ==> IsAndLink(p.nodes, rs[i])
  }

  lemma BagIsNodes(p: Problem, wanted: Counts, root: Edge, id: nat, x: Edge)
    requires Sane(p) && Expanded(p, wanted, root) && id < |p.nodes| && x.Link? && x in NodeBag(p, wanted, id)
    ensures IsAndLink(p.nodes, x)
  {
    hide Conserved, Sane;
    var u := if x in BagOf(p, wanted, Link(id, false)) then Link(id, false) else Link(id, true);
    assert x in BagOf(p, wanted, u);
    var rs := ResolvedArgs(p, u);
    assert x in rs;
    var i :| 0 <= i < |rs| && rs[i] == x;
  }

  lemma BagIsLighter(p: Problem, wanted: Counts, id: nat, x: Edge)
    requires Sane(p) && IsAndLink(p.nodes, Link(id, false)) && x in NodeBag(p, wanted, id)
    ensures Below(x, |p.nodes|) && Weight(p.nodes, x) < Weight(p.nodes, Link(id, false))
  {
    var u := if x in BagOf(p, wanted, Link(id, false)) then Link(id, false) else Link(id, true);
    assert x in BagOf(p, wanted, u);
    var rs := ResolvedArgs(p, u);
    assert x in rs;
    var i :| 0 <= i < |rs| && rs[i] == x;
    ResolvedArg(p, u, i);
    NegateWeight(p.nodes, Link(id, false), u.neg);
  }

  // ----- steps of the walk -----

  /** The top of the queue gives way to `new`. */
  function Replaced(stack: seq<Edge>, added: seq<Edge>): seq<Edge>
    requires stack != []
  {
    stack[..|stack| - 1] + added
  }

  /** Whatever the top covered is finished, or covered by what replaces it. */
  ghost predicate Inherits(p: Problem, top: Edge, added: seq<Edge>, up: set<Edge>, x: Edge) {
    Covers(p, top, x) ==> x in up || exists j :: 0 <= j < |added| && Covers(p, added[j], x)
  }

  lemma CoverAfter(p: Problem, stack: seq<Edge>, added: seq<Edge>, lo: int, up: set<Edge>, up': set<Edge>, x: Edge)
    requires stack != [] && lo < |stack| - 1 && up <= up'
    requires CoveredFrom(p, stack, lo, up, x) && Inherits(p, stack[|stack| - 1], added, up', x)
    ensures CoveredFrom(p, Replaced(stack, added), lo, up', x)
  {
    var n := |stack| - 1;
    var stack' := Replaced(stack, added);
    if x !in up' {
      var k :| lo < k < |stack| && 0 <= k && Covers(p, stack[k], x);
      if k < n {
        assert stack'[k] == stack[k];
      } else {
        var j :| 0 <= j < |added| && Covers(p, added[j], x);
        assert stack'[n + j] == added[j];
      }
    }
  }

  ghost predicate Lighter(p: Problem, es: seq<Edge>, top: Edge)
    requires Sane(p) && Below(top, |p.nodes|)
  {
    forall j :: 0 <= j < |es| ==> Below(es[j], |p.nodes|) && Weight(p.nodes, es[j]) <= Weight(p.nodes, top)
  }

  lemma LighterAfter(p: Problem, stack: seq<Edge>, added: seq<Edge>)
    requires Sane(p) && AllBelowTable(p, stack) && stack != [] && Lighter(p, added, stack[|stack| - 1])
    ensures AllBelowTable(p, Replaced(stack, added))
    ensures forall g: nat :: g < |stack| - 1 ==> Replaced(stack, added)[g] == stack[g]
  {
    var n, stack' := |stack| - 1, Replaced(stack, added);
    forall k | 0 <= k < |stack'| ensures Below(stack'[k], |p.nodes|) {
      if k >= n {
        assert stack'[k] == added[k - n];
      }
    }
  }

  lemma HeaviestAfter(p: Problem, stack: seq<Edge>, added: seq<Edge>, g: nat)
    requires Sane(p) && AllBelowTable(p, stack) && stack != [] && Lighter(p, added, stack[|stack| - 1])
    requires AllBelowTable(p, Replaced(stack, added))
    requires g < |stack| - 1 && Heaviest(p, stack, g)
    ensures Heaviest(p, Replaced(stack, added), g)
  {
    var n, stack' := |stack| - 1, Replaced(stack, added);
    assert stack'[g] == stack[g];
    forall k | g < k < |stack'| ensures Weight(p.nodes, stack'[k]) < Weight(p.nodes, stack'[g]) {
      if k >= n {
        assert stack'[k] == added[k - n];
        assert Weight(p.nodes, stack[n]) < Weight(p.nodes, stack[g]);
      }
    }
  }

  ghost predicate AllInherit(p: Problem, wanted: Counts, top: Edge, added: seq<Edge>, up: set<Edge>) {
    forall x :: CountOf(wanted, x) > 0 ==> Inherits(p, top, added, up, x)
  }

  lemma BagCoveredAfter(p: Problem, wanted: Counts, bag: multiset<Edge>, stack: seq<Edge>, added: seq<Edge>,
                        up: set<Edge>, up': set<Edge>, g: nat)
    requires stack != [] && g < |stack| - 1 && up <= up' && BagWanted(wanted, bag)
    requires BagCovered(p, bag, stack, up, g) && AllInherit(p, wanted, stack[|stack| - 1], added, up')
    ensures BagCovered(p, bag, Replaced(stack, added), up', g)
  {
    forall x | x in bag && x.Link? ensures CoveredFrom(p, Replaced(stack, added), g, up', x) {
      CoverAfter(p, stack, added, g, up, up', x);
    }
  }

  /** What nodes consume is wanted. */
  ghost predicate BagsWanted(p: Problem, wanted: Counts) {
    forall id: nat :: id < |p.nodes| ==> BagWanted(wanted, NodeBag(p, wanted, id))
  }

  ghost predicate BagWanted(wanted: Counts, bag: multiset<Edge>) {
    forall x: Edge :: x in bag && x.Link? ==> CountOf(wanted, x) > 0
  }

  lemma ExpandedWants(p: Problem, wanted: Counts, root: Edge)
    requires Sane(p) && Expanded(p, wanted, root)
    ensures BagsWanted(p, wanted) && CountOf(wanted, root) > 0
  {
    hide Conserved;
    forall id: nat | id < |p.nodes| ensures BagWanted(wanted, NodeBag(p, wanted, id)) {
      hide NodeBag, Demand;
      DemandOfUnfinished(p, wanted, {}, id);
      DemandIsWanted(p, wanted, root, NodeBag(p, wanted, id));
    }
    RootIsWanted(p, wanted, root);
  }

  lemma DemandIsWanted(p: Problem, wanted: Counts, root: Edge, bag: multiset<Edge>)
    requires Conserved(p, wanted, {}, wanted, root) && bag <= Demand(p, wanted, {})
    ensures BagWanted(wanted, bag)
  {
    hide Demand, CountOf;
  }

  lemma RootIsWanted(p: Problem, wanted: Counts, root: Edge)
    requires Conserved(p, wanted, {}, wanted, root) && root.Link?
    ensures CountOf(wanted, root) > 0
  {
    hide Demand;
  }

  lemma UnderWayAfter(p: Problem, wanted: Counts, stack: seq<Edge>, added: seq<Edge>,
                      up: set<Edge>, up': set<Edge>, g: nat)
    requires Sane(p) && BagsWanted(p, wanted) && stack != [] && AllBelowTable(p, stack)
    requires UnderWay(p, wanted, stack, up, g) && g < |stack| - 1 && up <= up'
    requires Link(stack[g].id, false) !in up'
    requires Lighter(p, added, stack[|stack| - 1]) && AllBelowTable(p, Replaced(stack, added))
    requires AllInherit(p, wanted, stack[|stack| - 1], added, up')
    ensures UnderWay(p, wanted, Replaced(stack, added), up', g)
  {
    HeaviestAfter(p, stack, added, g);
    assert BagWanted(wanted, NodeBag(p, wanted, stack[g].id));
    BagCoveredAfter(p, wanted, NodeBag(p, wanted, stack[g].id), stack, added, up, up', g);
  }

  ghost predicate RootCovered(p: Problem, stack: seq<Edge>, up: set<Edge>, root: Edge) {
    CoveredFrom(p, stack, -1, up, root)
  }

  lemma RootCoveredAfter(p: Problem, wanted: Counts, root: Edge, stack: seq<Edge>, added: seq<Edge>, up: set<Edge>,
                         up': set<Edge>)
    requires stack != [] && up <= up' && CountOf(wanted, root) > 0
    requires RootCovered(p, stack, up, root) && AllInherit(p, wanted, stack[|stack| - 1], added, up')
    ensures RootCovered(p, Replaced(stack, added), up', root)
  {
    CoverAfter(p, stack, added, -1, up, up', root);
  }

  lemma GreysAfter(p: Problem, wanted: Counts, stack: seq<Edge>, added: seq<Edge>,
                   greys: set<nat>, down: set<Edge>, up: set<Edge>, up': set<Edge>)
    requires Sane(p) && BagsWanted(p, wanted) && stack != [] && AllBelowTable(p, stack)
    requires GreysOk(p, wanted, stack, greys, down, up) && up <= up'
    requires forall g :: g in greys && g < |stack| - 1 ==> Link(stack[g].id, false) !in up'
    requires Lighter(p, added, stack[|stack| - 1]) && AllBelowTable(p, Replaced(stack, added))
    requires AllInherit(p, wanted, stack[|stack| - 1], added, up')
    ensures GreysOk(p, wanted, Replaced(stack, added), BelowPosition(greys, |stack| - 1), down, up')
  {
    forall g | g in BelowPosition(greys, |stack| - 1)
      ensures UnderWay(p, wanted, Replaced(stack, added), up', g) && Marked(down, Replaced(stack, added)[g].id)
    {
      UnderWayAfter(p, wanted, stack, added, up, up', g);
    }
  }

  /** The top is done with, and gives way to entries that inherit what it covers. */
  lemma WalkReplace(p: Problem, wanted: Counts, stack: seq<Edge>, added: seq<Edge>,
                    greys: set<nat>, down: set<Edge>, up: set<Edge>)
    requires Sane(p) && BagsWanted(p, wanted) && WalkOk(p, wanted, stack, greys, down, up)
    requires stack != [] && |stack| - 1 !in greys
    requires Lighter(p, added, stack[|stack| - 1]) && AllInherit(p, wanted, stack[|stack| - 1], added, up)
    ensures WalkOk(p, wanted, Replaced(stack, added), greys, down, up)
  {
    hide Lighter, AllInherit, BagsWanted, GreysOk, MarksOk, Marked;
    LighterAfter(p, stack, added);
    GreysWithin(p, wanted, stack, greys, down, up);
    GreysAfter(p, wanted, stack, added, greys, down, up, up);
    MarksAfter(p, stack, Replaced(stack, added), greys, down, up, up, |stack| - 1);
    assert greys == BelowPosition(greys, |stack| - 1);
  }

  lemma GreysWithin(p: Problem, wanted: Counts, stack: seq<Edge>, greys: set<nat>, down: set<Edge>, up: set<Edge>)
    requires Sane(p) && WalkOk(p, wanted, stack, greys, down, up)
    ensures forall g :: g in greys ==> g < |stack| && stack[g].Link? && Link(stack[g].id, false) !in up
  {
  }

  /** The needed uses of a node are marked. */
  function MarkUses(down: set<Edge>, id: nat, needPos: bool, needNeg: bool): set<Edge> {
    down + (if needPos then {Link(id, false)} else {}) + (if needNeg then {Link(id, true)} else {})
  }

  ghost predicate Needs(wanted: Counts, id: nat, needPos: bool, needNeg: bool) {
    && (needPos <==> CountOf(wanted, Link(id, false)) > 0)
    && (needNeg <==> CountOf(wanted, Link(id, true)) > 0)
  }

  lemma ArgumentsLighter(p: Problem, u: Edge)
    requires Sane(p) && IsAndLink(p.nodes, u)
    ensures var args := p.nodes[u.id].args;
      forall j :: 0 <= j < |args| ==> Below(args[j], |p.nodes|) && Weight(p.nodes, args[j]) < Weight(p.nodes, u)
  {
    var args := p.nodes[u.id].args;
    assert AllBelow(args, u.id) && Simplified(p.nodes[u.id]);
    forall j | 0 <= j < |args| ensures Weight(p.nodes, args[j]) < Weight(p.nodes, u) {
      WeightOfArg(p.nodes, args, u.id, j);
    }
  }

  lemma ArgumentCovers(p: Problem, wanted: Counts, id: nat, x: Edge) returns (j: nat)
    requires Sane(p) && IsAndLink(p.nodes, Link(id, false)) && x.Link? && x in NodeBag(p, wanted, id)
    ensures j < |p.nodes[id].args| && Covers(p, p.nodes[id].args[j], x)
  {
    hide Weight, Value, Equivalent;
    var u := if x in BagOf(p, wanted, Link(id, false)) then Link(id, false) else Link(id, true);
    assert x in BagOf(p, wanted, u);
    var rs := ResolvedArgs(p, u);
    assert x in rs;
    j :| 0 <= j < |rs| && rs[j] == x;
    var e := p.nodes[id].args[j];
    assert x == Resolve(p, NegateIf(e, u.neg));
    ResolvedIsCovered(p, e, u.neg);
  }

  /** An edge that resolves to a node covers it, in either polarity. */
  lemma ResolvedIsCovered(p: Problem, e: Edge, neg: bool)
    requires Sane(p)
    ensures Resolve(p, NegateIf(e, neg)).Link? ==> Covers(p, e, Resolve(p, NegateIf(e, neg)))
  {
    assert NegateIf(e, neg) == e || NegateIf(e, neg) == Negate(e);
  }

  /** A node met for the first time stays in the queue, below its arguments. */
  lemma NewlyUnderWay(p: Problem, wanted: Counts, stack: seq<Edge>, up: set<Edge>)
    requires Sane(p) && stack != []
    requires IsAndLink(p.nodes, stack[|stack| - 1])
    requires var e := stack[|stack| - 1]; Link(e.id, false) !in up && Wanted(wanted, e.id)
    requires AllBelowTable(p, stack + p.nodes[stack[|stack| - 1].id].args)
    ensures UnderWay(p, wanted, stack + p.nodes[stack[|stack| - 1].id].args, up, |stack| - 1)
  {
    var n := |stack| - 1;
    var e := stack[n];
    var args := p.nodes[e.id].args;
    var stack' := stack + args;
    ArgumentsLighter(p, e);
    forall k | n < k < |stack'| ensures Weight(p.nodes, stack'[k]) < Weight(p.nodes, stack'[n]) {
      assert stack'[k] == args[k - |stack|];
    }
    forall x | x in NodeBag(p, wanted, e.id) && x.Link? ensures CoveredFrom(p, stack', n, up, x) {
      var j := ArgumentCovers(p, wanted, e.id, x);
      assert stack'[|stack| + j] == args[j];
    }
  }

  lemma MarkUsesMarks(down: set<Edge>, id: nat, needPos: bool, needNeg: bool)
    requires needPos || needNeg
    ensures var down' := MarkUses(down, id, needPos, needNeg);
      forall m :: Marked(down', m) <==> Marked(down, m) || m == id
  {
  }

  lemma MarkedNow(p: Problem, wanted: Counts, stack: seq<Edge>, greys: set<nat>, down: set<Edge>, down': set<Edge>,
                  up: set<Edge>, n: nat, id: nat)
    requires Sane(p) && WalkOk(p, wanted, stack, greys, down, up)
    requires UnderWay(p, wanted, stack, up, n) && stack[n].id == id
    requires forall m :: Marked(down', m) <==> Marked(down, m) || m == id
    ensures WalkOk(p, wanted, stack, greys + {n}, down', up)
  {
    var greys' := greys + {n};
    forall m: nat | m < |p.nodes| && Marked(down', m) && Link(m, false) !in up ensures HasGrey(stack, greys', m) {
      if m == id {
        assert n in greys';
      } else {
        assert HasGrey(stack, greys, m);
        var g :| g in greys && g < |stack| && stack[g].Link? && stack[g].id == m;
        assert g in greys';
      }
    }
  }

  lemma WalkMark(p: Problem, wanted: Counts, root: Edge, stack: seq<Edge>, greys: set<nat>, down: set<Edge>,
                 up: set<Edge>, e: Edge, down': set<Edge>)
    requires Sane(p) && BagsWanted(p, wanted) && CountOf(wanted, root) > 0 && WalkOk(p, wanted, stack, greys, down, up)
    requires stack != [] && stack[|stack| - 1] == e && IsAndLink(p.nodes, e)
    requires Link(e.id, false) !in up && Wanted(wanted, e.id) && !Marked(down, e.id)
    requires forall m :: Marked(down', m) <==> Marked(down, m) || m == e.id
    requires RootCovered(p, stack, up, root)
    ensures WalkOk(p, wanted, stack + p.nodes[e.id].args, greys + {|stack| - 1}, down', up)
    ensures RootCovered(p, stack + p.nodes[e.id].args, up, root)
  {
    hide WalkOk, RootCovered, BagsWanted, Wanted, Marked, CountOf, Sane, AllBelowTable, UnderWay;
    var args := p.nodes[e.id].args;
    KeepTop(p, wanted, root, stack, args, greys, down, up);
    assert AllBelowTable(p, stack + args) by {
      WalkBelow(p, wanted, stack + args, greys, down, up);
    }
    NewlyUnderWay(p, wanted, stack, up);
    MarkedNow(p, wanted, stack + args, greys, down, down', up, |stack| - 1, e.id);
  }

  lemma WalkBelow(p: Problem, wanted: Counts, stack: seq<Edge>, greys: set<nat>, down: set<Edge>, up: set<Edge>)
    requires Sane(p) && WalkOk(p, wanted, stack, greys, down, up)
    ensures AllBelowTable(p, stack)
  {
  }

  lemma UnmarkedNotGrey(p: Problem, wanted: Counts, stack: seq<Edge>, greys: set<nat>, down: set<Edge>, up: set<Edge>,
                        g: nat)
    requires Sane(p) && WalkOk(p, wanted, stack, greys, down, up)
    requires g < |stack| && stack[g].Link? && !Marked(down, stack[g].id)
    ensures g !in greys
  {
  }

  /** Pushing the arguments of an unmarked node keeps the walk in order. */
  lemma KeepTop(p: Problem, wanted: Counts, root: Edge, stack: seq<Edge>, args: seq<Edge>, greys: set<nat>,
                down: set<Edge>, up: set<Edge>)
    requires Sane(p) && BagsWanted(p, wanted) && CountOf(wanted, root) > 0 && WalkOk(p, wanted, stack, greys, down, up)
    requires stack != [] && IsAndLink(p.nodes, stack[|stack| - 1])
    requires !Marked(down, stack[|stack| - 1].id) && args == p.nodes[stack[|stack| - 1].id].args
    requires RootCovered(p, stack, up, root)
    ensures WalkOk(p, wanted, stack + args, greys, down, up) && RootCovered(p, stack + args, up, root)
  {
    hide WalkOk, RootCovered, BagsWanted;
    var e := stack[|stack| - 1];
    assert stack + args == Replaced(stack, [e] + args);
    ArgumentsLighter(p, e);
    forall x | CountOf(wanted, x) > 0 ensures Inherits(p, e, [e] + args, up, x) {
      assert ([e] + args)[0] == e;
    }
    assert |stack| - 1 !in greys by {
      UnmarkedNotGrey(p, wanted, stack, greys, down, up, |stack| - 1);
    }
    WalkReplace(p, wanted, stack, [e] + args, greys, down, up);
    RootCoveredAfter(p, wanted, root, stack, [e] + args, up, up);
  }

  /** A marked node that comes to the top is under way right there, and its arguments are finished. */
  lemma TopIsReady(p: Problem, wanted: Counts, stack: seq<Edge>, greys: set<nat>, down: set<Edge>, up: set<Edge>)
    requires Sane(p) && WalkOk(p, wanted, stack, greys, down, up)
    requires stack != [] && IsAndLink(p.nodes, stack[|stack| - 1])
    requires var id := stack[|stack| - 1].id; Link(id, false) !in up && Marked(down, id)
    ensures |stack| - 1 in greys
    ensures forall g :: g in greys && g != |stack| - 1 ==> g < |stack| - 1 && stack[g].id != stack[|stack| - 1].id
    ensures forall x :: x in NodeBag(p, wanted, stack[|stack| - 1].id) && x.Link? ==> x in up
  {
    var n := |stack| - 1;
    var e := stack[n];
    assert HasGrey(stack, greys, e.id);
    var g :| g in greys && g < |stack| && stack[g].Link? && stack[g].id == e.id;
    SameWeight(p, stack[g], e);
    assert UnderWay(p, wanted, stack, up, g);
    forall h | h in greys && h != n ensures h < n && stack[h].id != e.id {
      assert UnderWay(p, wanted, stack, up, h);
      if stack[h].id == e.id {
        SameWeight(p, stack[h], e);
      }
    }
    forall x | x in NodeBag(p, wanted, e.id) && x.Link? ensures x in up {
      assert CoveredFrom(p, stack, n, up, x);
    }
  }

  lemma SameWeight(p: Problem, e: Edge, f: Edge)
    requires Sane(p) && e.Link? && f.Link? && e.id == f.id && e.id < |p.nodes|
    ensures Weight(p.nodes, e) == Weight(p.nodes, f)
  {
  }

  /** After the top is produced, the walk goes on below it. */
  lemma WalkProduced(p: Problem, wanted: Counts, root: Edge, stack: seq<Edge>, greys: set<nat>,
                     down: set<Edge>, up: set<Edge>, up': set<Edge>)
    requires Sane(p) && Expanded(p, wanted, root) && WalkOk(p, wanted, stack, greys, down, up)
    requires stack != [] && IsAndLink(p.nodes, stack[|stack| - 1])
    requires var id := stack[|stack| - 1].id;
      Link(id, false) !in up && Marked(down, id) && up' == up + {Link(id, false), Link(id, true)}
    requires RootCovered(p, stack, up, root)
    ensures WalkOk(p, wanted, stack[..|stack| - 1], greys - {|stack| - 1}, down, up')
    ensures RootCovered(p, stack[..|stack| - 1], up', root)
  {
    hide Expanded, RootCovered, BagsWanted, GreysOk, MarksOk, Sane, AllBelowTable, AllInherit, NodeBag, Lighter, Marked,
         CountOf;
    var n := |stack| - 1;
    var e := stack[n];
    var stack', greys' := stack[..n], greys - {n};
    ExpandedWants(p, wanted, root);
    TopIsReady(p, wanted, stack, greys, down, up);
    assert stack' == Replaced(stack, []);
    NodeInheritsNothing(p, wanted, root, e, up');
    RootCoveredAfter(p, wanted, root, stack, [], up, up');
    LighterAfter(p, stack, []);
    GreysWithin(p, wanted, stack, greys, down, up);
    GreysAfter(p, wanted, stack, [], greys, down, up, up');
    MarksAfter(p, stack, stack', greys, down, up, up', n);
    assert greys' == BelowPosition(greys, n);
  }

  /** A node that is finished has nothing left to cover. */
  lemma NodeInheritsNothing(p: Problem, wanted: Counts, root: Edge, e: Edge, up: set<Edge>)
    requires Sane(p) && Expanded(p, wanted, root) && IsAndLink(p.nodes, e)
    requires CountOf(wanted, Link(e.id, false)) > 0 ==> Link(e.id, false) in up
    requires CountOf(wanted, Link(e.id, true)) > 0 ==> Link(e.id, true) in up
    ensures AllInherit(p, wanted, e, [], up)
  {
    forall x | CountOf(wanted, x) > 0 ensures Inherits(p, e, [], up, x) {
      assert e !in p.pexp && Negate(e) !in p.pexp;
    }
  }

  // ----- counts along the walk -----

  /** The counts are conserved; unfinished uses still have all of theirs; nodes finish in both
      polarities at once, and are marked in every wanted one. */
  ghost predicate Books(p: Problem, wanted: Counts, count: Counts, down: set<Edge>, up: set<Edge>, root: Edge) {
    && Conserved(p, wanted, up, count, root)
    && (forall x :: x !in up ==> CountOf(count, x) == CountOf(wanted, x))
    && BothOrNeither(up)
    && MarksComplete(wanted, down, up)
  }

  ghost predicate MarksComplete(wanted: Counts, down: set<Edge>, up: set<Edge>) {
    forall id: nat :: Marked(down, id) && Link(id, false) !in up ==> AllMarked(down, wanted, id)
  }

  ghost predicate BothOrNeither(up: set<Edge>) {
    forall id: nat :: Link(id, false) in up <==> Link(id, true) in up
  }

  ghost predicate AllMarked(down: set<Edge>, wanted: Counts, id: nat) {
    && (CountOf(wanted, Link(id, false)) > 0 ==> Link(id, false) in down)
    && (CountOf(wanted, Link(id, true)) > 0 ==> Link(id, true) in down)
  }

  lemma UnfinishedBag(p: Problem, wanted: Counts, count: Counts, down: set<Edge>, up: set<Edge>, root: Edge, id: nat)
    requires Books(p, wanted, count, down, up, root) && id < |p.nodes| && Link(id, false) !in up
    ensures Link(id, true) !in up
    ensures CountOf(count, Link(id, false)) == CountOf(wanted, Link(id, false))
    ensures CountOf(count, Link(id, true)) == CountOf(wanted, Link(id, true))
    ensures NodeBag(p, count, id) == NodeBag(p, wanted, id)
  {
  }

  lemma BagIsReady(p: Problem, wanted: Counts, count: Counts, down: set<Edge>, up: set<Edge>, root: Edge, id: nat)
    requires Sane(p) && Expanded(p, wanted, root) && Books(p, wanted, count, down, up, root)
    requires id < |p.nodes| && Link(id, false) !in up
    requires forall x :: x in NodeBag(p, wanted, id) && x.Link? ==> x in up
    ensures NodeReady(p, up, count, id)
  {
    UnfinishedBag(p, wanted, count, down, up, root, id);
    DemandOfUnfinished(p, wanted, up, id);
    var bag := NodeBag(p, wanted, id);
    forall x: Edge | x in bag && x.Link? ensures IsAndLink(p.nodes, x) {
      BagIsNodes(p, wanted, root, id, x);
    }
    WithinIsReady(p, wanted, up, count, root, bag);
  }

  lemma WithinIsReady(p: Problem, wanted: Counts, up: set<Edge>, count: Counts, root: Edge, bag: multiset<Edge>)
    requires Conserved(p, wanted, up, count, root) && BothOrNeither(up) && bag <= Demand(p, wanted, up)
    requires forall x: Edge :: x in bag && x.Link? ==> x in up && IsAndLink(p.nodes, x)
    ensures BagReady(p, up, count, bag)
  {
    forall x: Edge | x in bag && x.Link?
      ensures IsAndLink(p.nodes, x) && x in up && Negate(x) in up && bag[x] <= CountOf(count, x)
    {
      WithinConserved(p, wanted, up, count, root, bag, x);
    }
  }

  lemma WithinConserved(p: Problem, wanted: Counts, up: set<Edge>, count: Counts, root: Edge, bag: multiset<Edge>,
                        x: Edge)
    requires Conserved(p, wanted, up, count, root) && x.Link? && bag <= Demand(p, wanted, up)
    ensures bag[x] <= CountOf(count, x)
  {
  }

  lemma BooksAfter(p: Problem, wanted: Counts, before: Counts, count: Counts, down: set<Edge>, up: set<Edge>,
                   root: Edge, id: nat)
    requires Books(p, wanted, before, down, up, root) && id < |p.nodes| && Link(id, false) !in up
    requires Spent(before, count, NodeBag(p, wanted, id))
    requires forall x :: x in NodeBag(p, wanted, id) && x.Link? ==> x in up
    ensures Books(p, wanted, count, down, up + {Link(id, false), Link(id, true)}, root)
  {
    hide Demand, NodeBag;
    var up' := up + {Link(id, false), Link(id, true)};
    DemandAfter(p, wanted, up, id);
    forall x: Edge | x.Link?
      ensures CountOf(count, x) == Demand(p, wanted, up')[x] + if x == root then 1 else 0
    {
      assert CountOf(count, x) + UsesIn(NodeBag(p, wanted, id), x) == CountOf(before, x);
    }
    forall x | x !in up' ensures CountOf(count, x) == CountOf(wanted, x) {
      assert CountOf(count, x) + UsesIn(NodeBag(p, wanted, id), x) == CountOf(before, x);
    }
  }

  lemma MarkingCompletes(wanted: Counts, down: set<Edge>, up: set<Edge>, id: nat, needPos: bool, needNeg: bool)
    requires MarksComplete(wanted, down, up) && Needs(wanted, id, needPos, needNeg)
    ensures MarksComplete(wanted, MarkUses(down, id, needPos, needNeg), up)
  {
    var down' := MarkUses(down, id, needPos, needNeg);
    forall m: nat | Marked(down', m) && Link(m, false) !in up ensures AllMarked(down', wanted, m) {
      if m != id {
        assert AllMarked(down, wanted, m);
      }
    }
  }

  // ----- the end of the walk -----

  ghost function TotalWeight(p: Problem, k: nat): nat
    requires Sane(p) && k <= |p.nodes|
  {
    if k == 0 then 0 else TotalWeight(p, k - 1) + Weight(p.nodes, Link(k - 1, false))
  }

  lemma {:induction false} WeightWithinTotal(p: Problem, k: nat, id: nat)
    requires Sane(p) && id < k <= |p.nodes|
    ensures Weight(p.nodes, Link(id, false)) <= TotalWeight(p, k)
    decreases k
  {
    if id < k - 1 {
      WeightWithinTotal(p, k - 1, id);
    }
  }

  /** A use in the demand is wanted by an unfinished, heavier use. */
  lemma HeavierUnfinished(p: Problem, wanted: Counts, up: set<Edge>, root: Edge, u: Edge) returns (w: Edge)
    requires Sane(p) && Expanded(p, wanted, root) && u in Demand(p, wanted, up)
    ensures IsAndLink(p.nodes, w) && CountOf(wanted, w) > 0 && Link(w.id, false) !in up
    ensures Below(u, |p.nodes|) && Weight(p.nodes, u) < Weight(p.nodes, w)
  {
    var id := DemandHasSource(p, wanted, up, u);
    w := if CountOf(wanted, Link(id, false)) > 0 then Link(id, false) else Link(id, true);
    assert CountOf(wanted, w) > 0;
    SameWeight(p, w, Link(id, false));
    BagIsLighter(p, wanted, id, u);
  }

  lemma UnfinishedIsDemanded(p: Problem, wanted: Counts, count: Counts, down: set<Edge>, up: set<Edge>, root: Edge,
                             u: Edge)
    requires Sane(p) && Expanded(p, wanted, root) && Books(p, wanted, count, down, up, root) && root in up
    requires CountOf(wanted, u) > 0 && u !in up
    ensures u in Demand(p, wanted, up)
  {
    assert IsAndLink(p.nodes, u);
    assert CountOf(count, u) == CountOf(wanted, u);
  }

  /** A wanted use that is not finished is wanted by a heavier one, so once the root is finished
      there is none. */
  lemma {:induction false} NothingUnfinished(p: Problem, wanted: Counts, count: Counts, down: set<Edge>, up: set<Edge>,
                                             root: Edge, u: Edge)
    requires Sane(p) && Expanded(p, wanted, root) && Books(p, wanted, count, down, up, root) && root in up
    requires IsAndLink(p.nodes, u) && CountOf(wanted, u) > 0
    ensures u in up
    decreases TotalWeight(p, |p.nodes|) - Weight(p.nodes, u)
  {
    hide Expanded, Demand, NodeBag, Conserved, MarksComplete;
    if u !in up {
      UnfinishedIsDemanded(p, wanted, count, down, up, root, u);
      var w := HeavierUnfinished(p, wanted, up, root, u);
      SameWeight(p, w, Link(w.id, false));
      WeightWithinTotal(p, |p.nodes|, w.id);
      NothingUnfinished(p, wanted, count, down, up, root, w);
    }
  }

  lemma OnlyRootIsLeft(p: Problem, wanted: Counts, count: Counts, down: set<Edge>, up: set<Edge>, root: Edge)
    requires Sane(p) && Expanded(p, wanted, root) && Books(p, wanted, count, down, up, root) && root in up
    ensures forall x: Edge :: x.Link? ==> CountOf(count, x) == if x == root then 1 else 0
  {
    hide Expanded, Demand;
    forall x: Edge ensures x !in Demand(p, wanted, up) {
      if x in Demand(p, wanted, up) {
        var w := HeavierUnfinished(p, wanted, up, root, x);
        NothingUnfinished(p, wanted, count, down, up, root, w);
      }
    }
  }

  // ----- progress -----

  ghost function Unmarked(p: Problem, down: set<Edge>): set<nat> {
    set id: nat | id < |p.nodes| && !Marked(down, id)
  }

  /** Queue entries still to be handled; an ITE or IFF gives way to two others. */
  ghost function Fuel(p: Problem, stack: seq<Edge>): nat {
    if stack == [] then 0
    else Fuel(p, stack[..|stack| - 1]) + EntryFuel(p, stack[|stack| - 1])
  }

  ghost function EntryFuel(p: Problem, e: Edge): nat {
    if e.Link? && !IsAndLink(p.nodes, e) then 3 else 1
  }

  lemma FuelPush(p: Problem, stack: seq<Edge>, e: Edge)
    ensures Fuel(p, stack + [e]) == Fuel(p, stack) + EntryFuel(p, e)
  {
    assert (stack + [e])[..|stack|] == stack;
  }

  lemma MarkingProgresses(p: Problem, down: set<Edge>, id: nat, needPos: bool, needNeg: bool)
    requires id < |p.nodes| && !Marked(down, id) && (needPos || needNeg)
    ensures Unmarked(p, MarkUses(down, id, needPos, needNeg)) < Unmarked(p, down)
  {
    var down' := MarkUses(down, id, needPos, needNeg);
    MarkUsesMarks(down, id, needPos, needNeg);
    assert id in Unmarked(p, down) && id !in Unmarked(p, down');
  }

  /** The entries that take the place of an ITE or IFF: its expansions, as far as they exist. */
  function Expansions(p: Problem, e: Edge): seq<Edge> {
    (if Positive(e) in p.pexp then [Link(p.pexp[Positive(e)], false)] else [])
    + (if Negate(Positive(e)) in p.pexp then [Link(p.pexp[Negate(Positive(e))], false)] else [])
  }

  lemma ExpansionsInherit(p: Problem, wanted: Counts, root: Edge, stack: seq<Edge>, greys: set<nat>, down: set<Edge>,
                          up: set<Edge>)
    requires Sane(p) && Expanded(p, wanted, root) && WalkOk(p, wanted, stack, greys, down, up)
    requires RootCovered(p, stack, up, root)
    requires stack != [] && stack[|stack| - 1].Link? && !IsAndLink(p.nodes, stack[|stack| - 1])
    ensures var stack' := Replaced(stack, Expansions(p, stack[|stack| - 1]));
      && WalkOk(p, wanted, stack', greys, down, up) && RootCovered(p, stack', up, root)
      && Fuel(p, stack') < Fuel(p, stack)
  {
    var e := stack[|stack| - 1];
    var added := Expansions(p, e);
    ExpandedWants(p, wanted, root);
    ExpansionsCover(p, wanted, root, e, up);
    ExpansionsLighter(p, e);
    GreysWithin(p, wanted, stack, greys, down, up);
    WalkReplace(p, wanted, stack, added, greys, down, up);
    RootCoveredAfter(p, wanted, root, stack, added, up, up);
    ExpansionsFuel(p, stack);
  }

  lemma ExpansionCovers(p: Problem, e: Edge, x: Edge) returns (j: nat)
    requires Sane(p) && IsAndLink(p.nodes, x) && !IsAndLink(p.nodes, e) && e.Link? && e.id < |p.nodes|
    requires Covers(p, e, x)
    ensures j < |Expansions(p, e)| && Covers(p, Expansions(p, e)[j], x)
  {
    var pos, neg := Positive(e), Negate(Positive(e));
    assert (e == pos && Negate(e) == neg) || (e == neg && Negate(e) == pos);
    if pos in p.pexp && p.pexp[pos] == x.id {
      j := 0;
    } else {
      j := |Expansions(p, e)| - 1;
    }
  }

  lemma ExpansionsCover(p: Problem, wanted: Counts, root: Edge, e: Edge, up: set<Edge>)
    requires Sane(p) && Expanded(p, wanted, root) && e.Link? && !IsAndLink(p.nodes, e) && e.id < |p.nodes|
    ensures AllInherit(p, wanted, e, Expansions(p, e), up)
  {
    forall x | CountOf(wanted, x) > 0 ensures Inherits(p, e, Expansions(p, e), up, x) {
      if Covers(p, e, x) {
        var j := ExpansionCovers(p, e, x);
      }
    }
  }

  lemma ExpansionsLighter(p: Problem, e: Edge)
    requires Sane(p) && e.Link? && e.id < |p.nodes|
    ensures Lighter(p, Expansions(p, e), e)
  {
    SameWeight(p, e, Positive(e));
    SameWeight(p, e, Negate(Positive(e)));
  }

  lemma ExpansionsFuel(p: Problem, stack: seq<Edge>)
    requires Sane(p) && stack != [] && stack[|stack| - 1].Link? && !IsAndLink(p.nodes, stack[|stack| - 1])
    ensures Fuel(p, Replaced(stack, Expansions(p, stack[|stack| - 1]))) < Fuel(p, stack)
  {
    var below, added := stack[..|stack| - 1], Expansions(p, stack[|stack| - 1]);
    if |added| == 0 {
      assert below + added == below;
    } else if |added| == 1 {
      assert added == [added[0]];
      FuelPush(p, below, added[0]);
    } else {
      assert below + added == (below + [added[0]]) + [added[1]];
      FuelPush(p, below, added[0]);
      FuelPush(p, below + [added[0]], added[1]);
    }
  }

  /** The top covers nothing that is still to be done, and is simply popped. */
  lemma WalkPop(p: Problem, wanted: Counts, root: Edge, stack: seq<Edge>, greys: set<nat>, down: set<Edge>,
                up: set<Edge>)
    requires Sane(p) && Expanded(p, wanted, root) && WalkOk(p, wanted, stack, greys, down, up)
    requires RootCovered(p, stack, up, root) && stack != [] && |stack| - 1 !in greys
    requires AllInherit(p, wanted, stack[|stack| - 1], [], up)
    ensures var stack' := stack[..|stack| - 1];
      && WalkOk(p, wanted, stack', greys, down, up) && RootCovered(p, stack', up, root)
      && Fuel(p, stack') < Fuel(p, stack)
  {
    assert stack[..|stack| - 1] == Replaced(stack, []);
    ExpandedWants(p, wanted, root);
    WalkReplace(p, wanted, stack, [], greys, down, up);
    RootCoveredAfter(p, wanted, root, stack, [], up, up);
  }

  /** An AND node with nothing wanted and unfinished is not under way at the top. */
  lemma NodeIsDone(p: Problem, wanted: Counts, count: Counts, root: Edge, stack: seq<Edge>, greys: set<nat>,
                   down: set<Edge>, up: set<Edge>)
    requires Sane(p) && Expanded(p, wanted, root) && WalkOk(p, wanted, stack, greys, down, up)
    requires Books(p, wanted, count, down, up, root)
    requires stack != [] && IsAndLink(p.nodes, stack[|stack| - 1])
    requires var id := stack[|stack| - 1].id;
      && (CountOf(count, Link(id, false)) > 0 ==> Link(id, false) in up)
      && (CountOf(count, Link(id, true)) > 0 ==> Link(id, true) in up)
    ensures |stack| - 1 !in greys && AllInherit(p, wanted, stack[|stack| - 1], [], up)
  {
    var e := stack[|stack| - 1];
    if Link(e.id, false) !in up {
      UnfinishedBag(p, wanted, count, down, up, root, e.id);
    }
    NodeInheritsNothing(p, wanted, root, e, up);
  }

  // ----- one round -----

  /** The state of the walk between two rounds. */
  ghost predicate WalkState(p: Problem, wanted: Counts, root: Edge, stack: seq<Edge>, greys: set<nat>,
                            count: Counts, down: set<Edge>, up: set<Edge>)
    requires Sane(p)
  {
    && Expanded(p, wanted, root)
    && WalkOk(p, wanted, stack, greys, down, up) && RootCovered(p, stack, up, root)
    && Books(p, wanted, count, down, up, root)
  }

  lemma MarkRound(p: Problem, wanted: Counts, root: Edge, stack: seq<Edge>, greys: set<nat>,
                  count: Counts, down: set<Edge>, up: set<Edge>, e: Edge, needPos: bool, needNeg: bool)
    requires Sane(p) && WalkState(p, wanted, root, stack, greys, count, down, up)
    requires stack != [] && stack[|stack| - 1] == e && IsAndLink(p.nodes, e)
    requires Link(e.id, false) !in up && !Marked(down, e.id)
    requires Needs(count, e.id, needPos, needNeg) && (needPos || needNeg)
    ensures WalkState(p, wanted, root, stack + p.nodes[e.id].args, greys + {|stack| - 1}, count,
                      MarkUses(down, e.id, needPos, needNeg), up)
  {
    hide Expanded, WalkOk, RootCovered, BagsWanted, Marked, MarkUses;
    var down' := MarkUses(down, e.id, needPos, needNeg);
    MarkUsesMarks(down, e.id, needPos, needNeg);
    assert Needs(wanted, e.id, needPos, needNeg) by {
      UnfinishedBag(p, wanted, count, down, up, root, e.id);
    }
    assert Books(p, wanted, count, down', up, root) by {
      MarkingCompletes(wanted, down, up, e.id, needPos, needNeg);
    }
    assert BagsWanted(p, wanted) && CountOf(wanted, root) > 0 by {
      ExpandedWants(p, wanted, root);
    }
    WalkMark(p, wanted, root, stack, greys, down, up, e, down');
  }

  lemma FinishReady(p: Problem, wanted: Counts, root: Edge, stack: seq<Edge>, greys: set<nat>,
                    count: Counts, down: set<Edge>, up: set<Edge>)
    requires Sane(p) && WalkState(p, wanted, root, stack, greys, count, down, up)
    requires stack != [] && IsAndLink(p.nodes, stack[|stack| - 1])
    requires var id := stack[|stack| - 1].id; Link(id, false) !in up && Marked(down, id)
    ensures var e := stack[|stack| - 1]; NodeReady(p, up, count, e.id) && e !in up && Negate(e) !in up
  {
    hide Expanded, WalkOk, RootCovered, Books, Marked, NodeReady;
    var e := stack[|stack| - 1];
    TopIsReady(p, wanted, stack, greys, down, up);
    BagIsReady(p, wanted, count, down, up, root, e.id);
    UnfinishedBag(p, wanted, count, down, up, root, e.id);
  }

  lemma FinishRound(p: Problem, wanted: Counts, root: Edge, stack: seq<Edge>, greys: set<nat>,
                    before: Counts, count: Counts, down: set<Edge>, up: set<Edge>, up': set<Edge>)
    requires Sane(p) && WalkState(p, wanted, root, stack, greys, before, down, up)
    requires stack != [] && IsAndLink(p.nodes, stack[|stack| - 1])
    requires var e := stack[|stack| - 1];
      && Link(e.id, false) !in up && Marked(down, e.id)
      && up' == up + {e, Negate(e)} && Spent(before, count, NodeBag(p, before, e.id))
    ensures WalkState(p, wanted, root, stack[..|stack| - 1], greys - {|stack| - 1}, count, down, up')
  {
    hide Expanded, WalkOk, RootCovered, Books, Marked, Spent, NodeBag, Fuel;
    var e := stack[|stack| - 1];
    assert up' == up + {Link(e.id, false), Link(e.id, true)} by {
      assert {e, Negate(e)} == {Link(e.id, false), Link(e.id, true)};
    }
    assert Books(p, wanted, count, down, up', root) by {
      TopIsReady(p, wanted, stack, greys, down, up);
      UnfinishedBag(p, wanted, before, down, up, root, e.id);
      BooksAfter(p, wanted, before, count, down, up, root, e.id);
    }
    WalkProduced(p, wanted, root, stack, greys, down, up, up');
  }

  /** Entries with nothing left to do are popped. */
  lemma PopRound(p: Problem, wanted: Counts, root: Edge, stack: seq<Edge>, greys: set<nat>,
                 count: Counts, down: set<Edge>, up: set<Edge>)
    requires Sane(p) && WalkState(p, wanted, root, stack, greys, count, down, up) && stack != []
    requires var e := stack[|stack| - 1];
      e.Leaf? || (IsAndLink(p.nodes, e)
                  && (CountOf(count, Link(e.id, false)) > 0 ==> Link(e.id, false) in up)
                  && (CountOf(count, Link(e.id, true)) > 0 ==> Link(e.id, true) in up))
    ensures WalkState(p, wanted, root, stack[..|stack| - 1], greys, count, down, up)
    ensures Fuel(p, stack[..|stack| - 1]) < Fuel(p, stack)
  {
    hide Expanded, Books, RootCovered;
    var e := stack[|stack| - 1];
    if e.Leaf? {
      GreysWithin(p, wanted, stack, greys, down, up);
      assert forall x :: !Covers(p, e, x);
    } else {
      NodeIsDone(p, wanted, count, root, stack, greys, down, up);
    }
    WalkPop(p, wanted, root, stack, greys, down, up);
  }

  /** A node with a needed use that is not finished is unfinished in both polarities, and marked
      only if all its needed uses are. */
  lemma Unfinished(p: Problem, wanted: Counts, root: Edge, stack: seq<Edge>, greys: set<nat>,
                   count: Counts, down: set<Edge>, up: set<Edge>, e: Edge, needPos: bool, needNeg: bool)
    requires Sane(p) && WalkState(p, wanted, root, stack, greys, count, down, up) && IsAndLink(p.nodes, e)
    requires Needs(count, e.id, needPos, needNeg)
    requires (needPos && Link(e.id, false) !in up) || (needNeg && Link(e.id, true) !in up)
    ensures Link(e.id, false) !in up
    ensures Marked(down, e.id) <==> (needPos ==> Link(e.id, false) in down) && (needNeg ==> Link(e.id, true) in down)
  {
    UnfinishedBag(p, wanted, count, down, up, root, e.id);
  }

  lemma ExpandRound(p: Problem, wanted: Counts, root: Edge, stack: seq<Edge>, greys: set<nat>,
                    count: Counts, down: set<Edge>, up: set<Edge>)
    requires Sane(p) && WalkState(p, wanted, root, stack, greys, count, down, up)
    requires stack != [] && stack[|stack| - 1].Link? && !IsAndLink(p.nodes, stack[|stack| - 1])
    ensures var stack' := stack[..|stack| - 1] + Expansions(p, stack[|stack| - 1]);
      WalkState(p, wanted, root, stack', greys, count, down, up) && Fuel(p, stack') < Fuel(p, stack)
  {
    hide Expanded, WalkOk, RootCovered, Books, Fuel, Expansions;
    ExpansionsInherit(p, wanted, root, stack, greys, down, up);
  }

  lemma StartWalk(p: Problem, wanted: Counts, root: Edge)
    requires Sane(p) && Expanded(p, wanted, root)
    ensures WalkState(p, wanted, root, [root], {}, wanted, {}, {})
  {
    assert Covers(p, [root][0], root);
  }

  lemma EndWalk(p: Problem, wanted: Counts, root: Edge, greys: set<nat>, count: Counts, down: set<Edge>, up: set<Edge>)
    requires Sane(p) && WalkState(p, wanted, root, [], greys, count, down, up)
    ensures root in up
    ensures forall x: Edge :: x.Link? ==> CountOf(count, x) == if x == root then 1 else 0
  {
    hide Books, Expanded, WalkOk;
    OnlyRootIsLeft(p, wanted, count, down, up, root);
  }

  lemma StackBelow(p: Problem, wanted: Counts, root: Edge, stack: seq<Edge>, greys: set<nat>,
                   count: Counts, down: set<Edge>, up: set<Edge>)
    requires Sane(p) && WalkState(p, wanted, root, stack, greys, count, down, up)
    ensures AllBelowTable(p, stack)
  {
  }

  /** With only the root still counted, every other expression left in an annotation is constant. */
  lemma LeftoversAreConstant(p: Problem, log: Log, annot: Annots, up: set<Edge>, count: Counts, root: Edge)
    requires Sane(p) && StateOk(p, log, annot, up, count)
    requires forall x: Edge :: x.Link? ==> CountOf(count, x) == if x == root then 1 else 0
    ensures forall u :: u in annot && annot[u].Expr? && u != root ==> annot[u].e.litSize == 0
  {
    forall u | u in annot && annot[u].Expr? && u != root ensures annot[u].e.litSize == 0 {
      assert AnnotOk(p, log, up, CountOf(count, u), u, annot[u]);
    }
  }
}
