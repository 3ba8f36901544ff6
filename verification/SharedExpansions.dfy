/** A formula on which the two ITEs below an equivalence get one and the same expansion in one polarity, so
    that linking the expansions of the second one meets the link of the first. */
module SharedExpansions {
  import opened Dags
  import opened Construction
  import opened Expansions
  import opened CnfInvariants
  import opened CnfStates
  import opened CnfWalks
  import opened ExpandStates
  import opened SemanticLinks
  import opened CountAndExpand

  const P: Edge := Leaf(1, false)
  const Q: Edge := Leaf(2, false)
  const R: Edge := Leaf(3, false)

  /** The four conjunctions. */
  predicate FourAnds(g: Nodes, s: Edge, t: Edge, b: Edge, c: Edge) {
    && IsPlainAnd(g, s, P, Q) && IsPlainAnd(g, t, R, Q) && IsPlainAnd(g, b, Negate(P), Q)
    && IsPlainAnd(g, c, Negate(R), Q)
  }

  /** Two ITEs over the conjunctions `s` and `t`, each with the other one as its first branch. */
  predicate TwoItes(g: Nodes, s: Edge, t: Edge, b: Edge, c: Edge, e: Edge, f: Edge) {
    && FourAnds(g, s, t, b, c)
    && IsIteNode(g, e, s, t, Negate(b)) && IsIteNode(g, f, t, s, Negate(c))
  }

  // ----- one expansion for both -----

  /** Matching turns the conjunction of two complemented ANDs that differ in the sign of one operand into
      the complement of the other operand. */
  lemma MatchedAway(g: Nodes, d: Edge, s: Edge, b: Edge, x: Edge)
    requires IsPlainAnd(g, s, x, Q) && IsPlainAnd(g, b, Negate(x), Q) && x.Leaf? && x.v != 2
    requires AndExact(g, d, Negate(s), Negate(b), true)
    ensures d == Negate(Q)
  {
    var y, z := g[s.id].args, g[b.id].args;
    assert y == [x, Q] || y == [Q, x];
    assert z == [Negate(x), Q] || z == [Q, Negate(x)];
    assert y[0] == x || y[0] == Q;
    assert z[0] == Negate(x) || z[0] == Q;
  }

  /** The expansion in the negative polarity. */
  lemma NegativeExpansion(g: Nodes, id: nat, s: Edge, t: Edge, b: Edge, e: Edge, x: Edge) returns (c: Edge)
    requires Valid(g) && Built(g, Negate(e), id, true) && IsIteNode(g, e, s, t, Negate(b)) && x.Leaf? && x.v != 2
    requires IsPlainAnd(g, s, x, Q) && IsPlainAnd(g, b, Negate(x), Q) && t.Link? && !t.neg && t.id < |g|
    ensures IsPlainAnd(g, c, s, t) && IsPlainAnd(g, Link(id, false), Negate(c), Q)
  {
    var d;
    c, d :| BuiltFrom(g, Negate(e), id, c, d, true);
    assert Branches(g[e.id], true) == (s, t, Negate(b));
    MatchedAway(g, d, s, b, x);
  }

  /** Both get the same expansion in the negative polarity. */
  lemma OneExpansion(g: Nodes, addr: seq<nat>, pexp: map<Edge, nat>,
                     s: Edge, t: Edge, b: Edge, c: Edge, e: Edge, f: Edge)
    requires Valid(g) && HashConsed(g, addr) && AllBuilt(g, pexp, true) && TwoItes(g, s, t, b, c, e, f)
    requires BothExpanded(pexp, e) && BothExpanded(pexp, f)
    ensures pexp[Negate(e)] == pexp[Negate(f)] && !LinkedOnce(pexp)
  {
    hide HashConsed, IsPlainAnd;
    var m, n := pexp[Negate(e)], pexp[Negate(f)];
    TwoParts(g, s, t, b, c, e, f);
    var u := NegativeExpansion(g, m, s, t, b, e, P);
    var v := NegativeExpansion(g, n, t, s, c, f, R);
    SamePlainAnd(g, addr, u, v, s, t);
    SamePlainAnd(g, addr, Link(m, false), Link(n, false), Negate(u), Q);
    DifferentAnds(g, s, t);
    assert e != f;
    assert BothExpanded(pexp, Negate(e)) && BothExpanded(pexp, Negate(f));
    assert Negate(Negate(e)) == e && Negate(Negate(f)) == f;
  }

  lemma TwoParts(g: Nodes, s: Edge, t: Edge, b: Edge, c: Edge, e: Edge, f: Edge)
    requires TwoItes(g, s, t, b, c, e, f)
    ensures s.Link? && !s.neg && s.id < |g| && t.Link? && !t.neg && t.id < |g|
  {
  }

  lemma SamePlainAnd(g: Nodes, addr: seq<nat>, u: Edge, v: Edge, a: Edge, b: Edge)
    requires HashConsed(g, addr) && IsPlainAnd(g, u, a, b) && (IsPlainAnd(g, v, a, b) || IsPlainAnd(g, v, b, a))
    ensures u == v
  {
    OneOrder(g, addr, u.id, v.id, And, a, b);
  }

  lemma DifferentAnds(g: Nodes, s: Edge, t: Edge)
    requires IsPlainAnd(g, s, P, Q) && IsPlainAnd(g, t, R, Q)
    ensures s.id != t.id
  {
    assert [P, Q][0] == P && [Q, P][1] == P && [R, Q][0] == R && [Q, R][1] == R && [R, Q][1] == Q && [Q, R][0] == Q;
  }

  // ----- both polarities are needed -----

  /** The arguments of a counted AND are counted, through their expansions. */
  lemma {:induction false} ArgCounted(p: Problem, count: Counts, top: Edge, u: Edge, x: Edge)
    requires Sane(p) && Expanded(p, count, top) && IsAndLink(p.nodes, u) && CountOf(count, u) > 0
    requires x.Link? && x.id < |p.nodes| && NegateIf(x, u.neg) in p.nodes[u.id].args
    ensures var y := Resolve(p, x); IsAndLink(p.nodes, y) && CountOf(count, y) > 0
    ensures !IsAndLink(p.nodes, x) ==> x in p.pexp
  {
    hide Demand, AnnotOf, Valid, GoodExpansion, LeavesWithin;
    var args := p.nodes[u.id].args;
    var i :| 0 <= i < |args| && args[i] == NegateIf(x, u.neg);
    assert ResolvedArgs(p, u)[i] == Resolve(p, x);
    ArgDemanded(p, count, u, i);
    DemandedCounted(p, count, top, Resolve(p, x));
  }

  lemma {:induction false} DemandedCounted(p: Problem, count: Counts, top: Edge, y: Edge)
    requires Sane(p) && Expanded(p, count, top) && y.Link? && y in Demand(p, count, {})
    ensures IsAndLink(p.nodes, y) && CountOf(count, y) > 0
  {
    hide Demand;
  }

  /** An equivalence needs both of its sides in both polarities. */
  lemma {:induction false} BothSidesNeeded(p: Problem, count: Counts, root: Edge, e: Edge, f: Edge)
    requires Sane(p) && Expanded(p, count, Resolve(p, root)) && AllBuilt(p.nodes, p.pexp, true)
    requires root.Link? && !root.neg && root.id < |p.nodes| && p.nodes[root.id] == Node(Iff, [e, f])
    requires IsOther(p.nodes, e) && IsOther(p.nodes, f) && !e.neg && !f.neg
    ensures BothExpanded(p.pexp, e) && BothExpanded(p.pexp, f)
  {
    hide AllBuilt, Expanded, Built, GoodExpansion, AndExact;
    RootCounted(p, count, root);
    var c, d := EquivalenceExpansion(p, root, e, f);
    var u := Link(p.pexp[root], false);
    AndNotExpanded(p, Negate(c));
    AndNotExpanded(p, Negate(d));
    ArgCounted(p, count, u, u, Negate(c));
    ArgCounted(p, count, u, u, Negate(d));
    ArgCounted(p, count, u, Negate(c), Negate(e));
    ArgCounted(p, count, u, Negate(c), f);
    ArgCounted(p, count, u, Negate(d), e);
    ArgCounted(p, count, u, Negate(d), Negate(f));
  }

  lemma {:induction false} RootCounted(p: Problem, count: Counts, root: Edge)
    requires Sane(p) && Expanded(p, count, Resolve(p, root)) && IsOther(p.nodes, root)
    ensures root in p.pexp && Resolve(p, root) == Link(p.pexp[root], false)
    ensures IsAndLink(p.nodes, Resolve(p, root)) && CountOf(count, Resolve(p, root)) > 0
  {
  }

  lemma {:induction false} AndNotExpanded(p: Problem, u: Edge)
    requires Sane(p) && IsAndLink(p.nodes, u)
    ensures Resolve(p, u) == u
  {
    hide Weight, Value, Equivalent;
  }

  lemma {:induction false} EquivalenceExpansion(p: Problem, root: Edge, e: Edge, f: Edge) returns (c: Edge, d: Edge)
    requires Valid(p.nodes) && AllBuilt(p.nodes, p.pexp, true) && root in p.pexp
    requires root.Link? && !root.neg && root.id < |p.nodes| && p.nodes[root.id] == Node(Iff, [e, f])
    requires e.Link? && f.Link? && !e.neg && !f.neg
    ensures IsAndLink(p.nodes, c) && IsAndLink(p.nodes, d) && IsAndLink(p.nodes, Link(p.pexp[root], false))
    ensures !c.neg && !d.neg
    ensures Negate(c) in p.nodes[p.pexp[root]].args && Negate(d) in p.nodes[p.pexp[root]].args
    ensures e in p.nodes[c.id].args && Negate(f) in p.nodes[c.id].args
    ensures Negate(e) in p.nodes[d.id].args && f in p.nodes[d.id].args
  {
    var g := p.nodes;
    assert Built(g, root, p.pexp[root], true);
    c, d :| BuiltFrom(g, root, p.pexp[root], c, d, true);
    assert Branches(g[root.id], false) == (e, Negate(f), f);
    PlainArgs(g, c, e, Negate(f));
    PlainArgs(g, d, Negate(e), f);
    PlainArgs(g, Link(p.pexp[root], false), Negate(c), Negate(d));
  }

  lemma PlainArgs(g: Nodes, r: Edge, a: Edge, b: Edge)
    requires IsPlainAnd(g, r, a, b)
    ensures IsAndLink(g, r) && a in g[r.id].args && b in g[r.id].args
  {
    assert a in [a, b] && b in [a, b] && a in [b, a] && b in [b, a];
  }

  /** Whatever the pass does with such an equivalence, an assertion fails. */
  lemma {:induction false} SharingFails(p: Problem, addr: seq<nat>, count: Counts, root: Edge,
                                        s: Edge, t: Edge, b: Edge, c: Edge, e: Edge, f: Edge)
    requires Sane(p) && Expanded(p, count, Resolve(p, root)) && AllBuilt(p.nodes, p.pexp, true)
    requires HashConsed(p.nodes, addr) && TwoItes(p.nodes, s, t, b, c, e, f) && IsIff(p.nodes, root, e, f)
    ensures !LinkedOnce(p.pexp)
  {
    hide AllBuilt, Expanded, Built, HashConsed;
    if p.nodes[root.id] == Node(Iff, [e, f]) {
      BothSidesNeeded(p, count, root, e, f);
    } else {
      BothSidesNeeded(p, count, root, f, e);
    }
    OneExpansion(p.nodes, addr, p.pexp, s, t, b, c, e, f);
  }

  // ----- the run -----

  lemma PlainOfLeaf(g: Nodes, r: Edge, a: Edge, b: Edge)
    requires a.Leaf? && Below(b, |g|) && AndExact(g, r, a, b, true)
    ensures IsPlainAnd(g, r, a, b)
  {
  }

  lemma PlainLater(g: Nodes, h: Nodes, r: Edge, a: Edge, b: Edge)
    requires IsPlainAnd(g, r, a, b) && g <= h
    ensures IsPlainAnd(h, r, a, b)
  {
  }

  /** A conjunction of a variable, possibly complemented, and `Q`. */
  method CreateWithQ(sat: NiceSat, x: Edge) returns (r: Edge)
    requires sat.Ok() && sat.doMatching && sat.vars >= 3 && x.Leaf? && (x.v == 1 || x.v == 3)
    modifies sat`nodes, sat`addr, sat`numMatches
    ensures sat.Ok() && sat.Knows(r) && old(sat.nodes) <= sat.nodes && IsPlainAnd(sat.nodes, r, x, Q)
  {
    hide HashConsed, Addressed, LeavesWithin, Valid;
    r := sat.CreateAnd(x, Q);
    KnownParts(old(sat.nodes), sat.nodes, r, x, Q, true);
    PlainOfLeaf(sat.nodes, r, x, Q);
  }

  lemma AndsDiffer(g: Nodes, s: Edge, t: Edge, b: Edge, c: Edge)
    requires FourAnds(g, s, t, b, c)
    ensures Proper(s, t) && Proper(s, Negate(b)) && Proper(t, Negate(b)) && Proper(t, Negate(c)) && Proper(s, Negate(c))
    ensures !s.neg && !t.neg
  {
    Operands(P, R);
    Operands(P, Negate(P));
    Operands(P, Negate(R));
    Operands(R, Negate(P));
    Operands(R, Negate(R));
  }

  lemma Operands(x: Edge, y: Edge)
    requires x != y && x != Q && y != Q
    ensures [x, Q] != [y, Q] && [x, Q] != [Q, y] && [Q, x] != [y, Q] && [Q, x] != [Q, y]
  {
    assert [x, Q][0] == x && [Q, x][1] == x && [x, Q][1] == Q && [Q, x][0] == Q;
    assert [y, Q][0] == y && [Q, y][1] == y && [y, Q][1] == Q && [Q, y][0] == Q;
  }

  method CreateFourAnds(sat: NiceSat) returns (s: Edge, t: Edge, b: Edge, c: Edge)
    requires sat.Ok() && sat.doMatching && sat.vars >= 3
    modifies sat`nodes, sat`addr, sat`numMatches
    ensures sat.Ok() && sat.Knows(s) && sat.Knows(t) && sat.Knows(b) && sat.Knows(c)
    ensures FourAnds(sat.nodes, s, t, b, c)
  {
    s := CreateWithQ(sat, P);
    t := CreateWithQ(sat, R);
    b := CreateWithQ(sat, Negate(P));
    c := CreateWithQ(sat, Negate(R));
  }

  /** An ITE that nothing simplifies. */
  method CreatePlainIte(sat: NiceSat, t: Edge, a: Edge, b: Edge) returns (r: Edge)
    requires sat.Ok() && sat.Knows(t) && sat.Knows(a) && sat.Knows(b)
    requires Proper(t, a) && Proper(t, b) && Proper(a, b) && !t.neg && !a.neg
    modifies sat`nodes, sat`addr, sat`numMatches
    ensures sat.Ok() && sat.Knows(r) && old(sat.nodes) <= sat.nodes && IsIteNode(sat.nodes, r, t, a, b)
  {
    hide HashConsed, Addressed, LeavesWithin, Valid, ChoiceShape, IsChoice;
    r := sat.CreateIte(t, a, b);
  }

  method CreateTwoItes(sat: NiceSat) returns (s: Edge, t: Edge, b: Edge, c: Edge, e: Edge, f: Edge)
    requires sat.Ok() && sat.doMatching && sat.vars >= 3
    modifies sat`nodes, sat`addr, sat`numMatches
    ensures sat.Ok() && sat.Knows(e) && sat.Knows(f) && TwoItes(sat.nodes, s, t, b, c, e, f)
    ensures Proper(e, f) && !e.neg && !f.neg
  {
    hide HashConsed, Addressed, LeavesWithin, Valid;
    s, t, b, c := CreateFourAnds(sat);
    AndsDiffer(sat.nodes, s, t, b, c);
    e := CreatePlainIte(sat, s, t, Negate(b));
    f := CreatePlainIte(sat, t, s, Negate(c));
    DifferentAnds(sat.nodes, s, t);
  }

  /** The pass run on the equivalence of two such ITEs: an assertion fails. */
  method FailingRun() returns (held: bool)
    ensures !held
  {
    hide HashConsed, Addressed, LeavesWithin, Valid, Expanded, AllBuilt, AnnotOk, LinkedOnce, TwoItes;
    var sat := new NiceSat();
    var _ := sat.CreateVar();
    var _ := sat.CreateVar();
    var _ := sat.CreateVar();
    var s, t, b, c, e, f := CreateTwoItes(sat);
    ghost var g := sat.nodes;
    var root := sat.CreateIff(e, f);
    var pass := new CountAndExpandPass(sat);
    held := pass.Run(root);
    ItesLater(g, sat.nodes, s, t, b, c, e, f);
    SharingFails(pass.Now(), sat.addr, pass.count, root, s, t, b, c, e, f);
  }

  lemma ItesLater(g: Nodes, h: Nodes, s: Edge, t: Edge, b: Edge, c: Edge, e: Edge, f: Edge)
    requires TwoItes(g, s, t, b, c, e, f) && g <= h
    ensures TwoItes(h, s, t, b, c, e, f)
  {
  }
}
