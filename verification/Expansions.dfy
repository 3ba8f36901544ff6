/** Pseudo-expansion: one ITE or IFF in one polarity becomes an AND of two complemented ANDs. */
module Expansions {
  import opened Literals
  import opened Dags
  import opened Construction
  import opened CnfInvariants

  /** The operands of the two inner conjunctions, in the given polarity. */
  function Branches(n: Node, neg: bool): (b: (Edge, Edge, Edge))
    requires (n.op == Ite && |n.args| == 3) || (n.op == Iff && |n.args| == 2)
  {
    var tst, tt := n.args[0], n.args[1];
    var ff := if n.op == Iff then Negate(tt) else n.args[2];
    (tst, NegateIf(tt, !neg), NegateIf(ff, !neg))
  }

  /** How the expansion `id` of a signed ITE or IFF edge is built: from the conjunctions `c` and `d` of its
      branches. */
  ghost predicate BuiltFrom(g: Nodes, e: Edge, id: nat, c: Edge, d: Edge, matching: bool)
    requires Valid(g)
  {
    && e.Link? && e.id < |g| && g[e.id].op != And && Simplified(g[e.id])
    && var (tst, tt, ff) := Branches(g[e.id], e.neg);
    && Below(tst, |g|) && Below(tt, |g|) && Below(ff, |g|)
    && AndExact(g, c, tst, tt, matching) && AndExact(g, d, Negate(tst), ff, matching)
    && IsPlainAnd(g, Link(id, false), Negate(c), Negate(d))
  }

  ghost predicate Built(g: Nodes, e: Edge, id: nat, matching: bool)
    requires Valid(g)
  {
    exists c, d :: BuiltFrom(g, e, id, c, d, matching)
  }

  ghost predicate AllBuilt(g: Nodes, pexp: map<Edge, nat>, matching: bool)
    requires Valid(g)
  {
    forall e :: e in pexp ==> Built(g, e, pexp[e], matching)
  }

  lemma BuiltLater(g: Nodes, h: Nodes, e: Edge, id: nat, matching: bool)
    requires Valid(g) && Valid(h) && g <= h && Built(g, e, id, matching)
    ensures Built(h, e, id, matching)
  {
    hide AndExact;
    var c, d :| BuiltFrom(g, e, id, c, d, matching);
    var (tst, tt, ff) := Branches(g[e.id], e.neg);
    AndExactLater(g, h, c, tst, tt, matching);
    AndExactLater(g, h, d, Negate(tst), ff, matching);
    assert BuiltFrom(h, e, id, c, d, matching);
  }

  lemma ExpansionIsBuilt(g0: Nodes, g1: Nodes, g2: Nodes, g3: Nodes, e: Edge, c: Edge, d: Edge, r: Edge, matching: bool)
    requires Valid(g0) && Valid(g3) && g0 <= g1 <= g2 <= g3 && e.Link? && e.id < |g0| && g0[e.id].op != And
    requires Simplified(g0[e.id])
    requires var (tst, tt, ff) := Branches(g0[e.id], e.neg);
      && Below(tst, |g0|) && Below(tt, |g0|) && Below(ff, |g0|)
      && AndExact(g1, c, tst, tt, matching) && AndExact(g2, d, Negate(tst), ff, matching)
    requires IsPlainAnd(g3, r, Negate(c), Negate(d))
    ensures Built(g3, e, r.id, matching)
  {
    hide AndExact;
    var (tst, tt, ff) := Branches(g0[e.id], e.neg);
    AndExactLater(g1, g3, c, tst, tt, matching);
    AndExactLater(g2, g3, d, Negate(tst), ff, matching);
    assert BuiltFrom(g3, e, r.id, c, d, matching);
  }

  /** What the three conjunctions of an expansion have in common. */
  lemma ExpansionParts(g0: Nodes, g1: Nodes, g2: Nodes, g3: Nodes, e: Edge, c: Edge, d: Edge, r: Edge,
                       matching: bool)
    requires Valid(g0) && e.Link? && e.id < |g0| && g0[e.id].op != And && Simplified(g0[e.id])
    requires var (tst, tt, ff) := Branches(g0[e.id], e.neg);
      KnowsAnd(g0, g1, c, tst, tt, matching) && KnowsAnd(g1, g2, d, Negate(tst), ff, matching)
    requires KnowsAnd(g2, g3, r, Negate(c), Negate(d), false)
    ensures Valid(g3) && g0 <= g1 <= g2 <= g3 && Proper(Negate(c), Negate(d))
    ensures var (tst, tt, ff) := Branches(g0[e.id], e.neg); Proper(tst, tt) && Proper(Negate(tst), ff)
    ensures Below(Negate(c), |g3|) && Below(Negate(d), |g3|)
  {
    hide KnowsAnd;
    var (tst, tt, ff) := Branches(g0[e.id], e.neg);
    BranchesMean(g0, e);
    KnownParts(g0, g1, c, tst, tt, matching);
    KnownParts(g1, g2, d, Negate(tst), ff, matching);
    KnownParts(g2, g3, r, Negate(c), Negate(d), false);
    BranchesDiffer(g0, g1, g2, tst, tt, ff, c, d, matching);
  }

  lemma PlainWithoutMatching(g: Nodes, r: Edge, a: Edge, b: Edge)
    requires Below(a, |g|) && Below(b, |g|) && AndExact(g, r, a, b, false)
    ensures IsPlainAnd(g, r, a, b)
  {
  }

  lemma NegateTwice(g: Nodes, e: Edge, m: bool)
    requires Valid(g) && Below(e, |g|)
    ensures Weight(g, NegateIf(e, m)) == Weight(g, e)
    ensures forall w: Assignment :: Value(g, NegateIf(e, m), w) == (Value(g, e, w) != m)
  {
    NegateWeight(g, e, m);
    forall w: Assignment ensures Value(g, NegateIf(e, m), w) == (Value(g, e, w) != m) {
      NegateValue(g, e, m, w);
    }
  }

  /** The two conditional branches together mean the signed edge, and their weights leave room
      for the expansion to be lighter than the edge. */
  lemma BranchesMean(g: Nodes, e: Edge)
    requires Valid(g) && e.Link? && e.id < |g| && g[e.id].op != And
    ensures Simplified(g[e.id])
    ensures var (tst, tt, ff) := Branches(g[e.id], e.neg);
      && Below(tst, e.id) && Below(tt, e.id) && Below(ff, e.id)
      && Proper(tst, tt) && Proper(tst, ff) && !tst.neg
      && 3 + 3 * Weight(g, tst) + Weight(g, tt) + Weight(g, ff) < Weight(g, e)
      && forall w: Assignment :: Value(g, e, w) ==
           (!(Value(g, tst, w) && Value(g, tt, w)) && !(!Value(g, tst, w) && Value(g, ff, w)))
  {
    var n := g[e.id];
    assert AllBelow(n.args, e.id) && Simplified(n);
    var tst, tt0 := n.args[0], n.args[1];
    var ff0 := if n.op == Iff then Negate(tt0) else n.args[2];
    NegateTwice(g, tt0, !e.neg);
    NegateTwice(g, ff0, !e.neg);
    NegateTwice(g, tt0, true);
    NegateTwice(g, Link(e.id, false), e.neg);
    if n.op == Iff {
      assert n.args == [n.args[0], n.args[1]];
      IffWeight(g, e.id, n.args[0], n.args[1]);
    } else {
      assert n.args == [n.args[0], n.args[1], n.args[2]];
      IteWeight(g, e.id, n.args[0], n.args[1], n.args[2]);
    }
  }

  /** The two conditional branches never come out as the same node. */
  lemma BranchesDiffer(g0: Nodes, g1: Nodes, g2: Nodes, tst: Edge, tt: Edge, ff: Edge, c1: Edge, c2: Edge,
                       matching: bool)
    requires KnowsAnd(g0, g1, c1, tst, tt, matching) && KnowsAnd(g1, g2, c2, Negate(tst), ff, matching)
    requires Proper(tst, tt) && Proper(tst, ff) && !tst.neg
    ensures Proper(Negate(c1), Negate(c2))
  {
    hide IsConjunction, Value, Valid, Weight, AndBound;
    FirstIsPlain(g0, g1, g2, tst, tt, c1, matching);
    NegateWeight(g2, tst, true);
    NotSameNode(g2, c1, c2, tst, tt, ff);
  }

  lemma FirstIsPlain(g0: Nodes, g1: Nodes, g2: Nodes, tst: Edge, tt: Edge, c1: Edge, matching: bool)
    requires KnowsAnd(g0, g1, c1, tst, tt, matching) && Valid(g2) && g1 <= g2
    requires Proper(tst, tt) && !tst.neg
    ensures IsPlainAnd(g2, c1, tst, tt) && Below(c1, |g2|) && Below(tst, |g2|) && Weight(g2, tst) < Weight(g2, c1)
  {
    hide IsConjunction, Value, Weight;
    assert g2[c1.id] == g1[c1.id];
    if g1[c1.id] == Node(And, [tst, tt]) {
      AndWeight(g2, c1.id, tst, tt);
    } else {
      AndWeight(g2, c1.id, tt, tst);
    }
  }

  lemma NotSameNode(g: Nodes, c1: Edge, c2: Edge, tst: Edge, tt: Edge, ff: Edge)
    requires Valid(g) && IsPlainAnd(g, c1, tst, tt) && Below(c2, |g|) && Below(tst, |g|) && !IsConst(c2)
    requires Proper(tst, tt) && Proper(tst, ff) && Weight(g, tst) < Weight(g, c1)
    requires IsPlainAnd(g, c2, Negate(tst), ff) || IsOther(g, c2) || Weight(g, c2) < Weight(g, tst)
    ensures Proper(Negate(c1), Negate(c2))
  {
    hide Value, Weight, Valid;
    if IsPlainAnd(g, c2, Negate(tst), ff) {
      SameAndArgs(g, c1, c2, tst, tt, ff);
    } else if SameNode(c1, c2) {
      NegateWeight(g, c1, c1.neg);
      NegateWeight(g, c2, c2.neg);
    }
  }

  lemma SameAndArgs(g: Nodes, c1: Edge, c2: Edge, tst: Edge, tt: Edge, ff: Edge)
    requires IsPlainAnd(g, c1, tst, tt) && IsPlainAnd(g, c2, Negate(tst), ff)
    requires Proper(tst, tt) && Proper(tst, ff)
    ensures c1.id != c2.id
  {
    DifferentPairs(tst, tt, Negate(tst), ff);
  }

  lemma DifferentPairs(a: Edge, b: Edge, c: Edge, d: Edge)
    requires a != c && a != d
    ensures [a, b] != [c, d] && [a, b] != [d, c] && [b, a] != [c, d] && [b, a] != [d, c]
  {
    assert [a, b][0] == a && [b, a][1] == a;
    assert [c, d][0] == c && [c, d][1] == d && [d, c][0] == d && [d, c][1] == c;
  }

  /** The conjunction of the complemented branches is a good expansion. */
  lemma ExpansionIsGood(g0: Nodes, g1: Nodes, g2: Nodes, g3: Nodes, e: Edge, c1: Edge, c2: Edge, c3: Edge,
                        matching: bool)
    requires Valid(g0) && e.Link? && e.id < |g0| && g0[e.id].op != And && Simplified(g0[e.id])
    requires var (tst, tt, ff) := Branches(g0[e.id], e.neg);
      KnowsAnd(g0, g1, c1, tst, tt, matching) && KnowsAnd(g1, g2, c2, Negate(tst), ff, matching)
    requires KnowsAnd(g2, g3, c3, Negate(c1), Negate(c2), false)
    ensures c3.Link? && !c3.neg && c3.id < |g3| && GoodExpansion(g3, e, c3.id)
  {
    BranchesMean(g0, e);
    var (tst, tt, ff) := Branches(g0[e.id], e.neg);
    BranchesDiffer(g0, g1, g2, tst, tt, ff, c1, c2, matching);
    assert IsPlainAnd(g3, c3, Negate(c1), Negate(c2));
    ExpansionWeight(g0, g1, g2, g3, e, tst, tt, ff, c1, c2, c3, matching);
    ExpansionValue(g0, g1, g2, g3, e, tst, tt, ff, c1, c2, c3, matching);
  }

  lemma ConjunctionWeight(g: Nodes, h: Nodes, r: Edge, a: Edge, b: Edge, matching: bool)
    requires KnowsAnd(g, h, r, a, b, matching)
    ensures Weight(h, r)
      <= 1 + Weight(g, a) + Weight(g, b) + if a.neg && b.neg then Min(Weight(g, a), Weight(g, b)) else 0
  {
    hide IsConjunction, AndShape, Weight, Value;
    WeightExtends(g, h, a);
    WeightExtends(g, h, b);
  }

  lemma ExpansionWeight(g0: Nodes, g1: Nodes, g2: Nodes, g3: Nodes, e: Edge, tst: Edge, tt: Edge, ff: Edge,
                        c1: Edge, c2: Edge, c3: Edge, matching: bool)
    requires Valid(g0) && Below(e, |g0|) && !tst.neg
    requires KnowsAnd(g0, g1, c1, tst, tt, matching) && KnowsAnd(g1, g2, c2, Negate(tst), ff, matching)
    requires KnowsAnd(g2, g3, c3, Negate(c1), Negate(c2), false)
    requires Below(ff, |g0|) && 3 + 3 * Weight(g0, tst) + Weight(g0, tt) + Weight(g0, ff) < Weight(g0, e)
    ensures g0 <= g3 && Weight(g3, c3) < Weight(g3, e)
  {
    hide Weight, Value, KnowsAnd, Valid, Below, NegateIf;
    KnownParts(g0, g1, c1, tst, tt, matching);
    KnownParts(g1, g2, c2, Negate(tst), ff, matching);
    KnownParts(g2, g3, c3, Negate(c1), Negate(c2), false);
    Through(g0, g1, g2);
    Through(g0, g2, g3);
    FirstBranchWeight(g0, g1, c1, tst, tt, matching);
    SecondBranchWeight(g0, g1, g2, tst, ff, c2, matching);
    BothBranchesWeight(g1, g2, g3, c1, c2, c3);
    WeightExtends(g0, g3, e);
  }

  lemma Through(g: Nodes, h: Nodes, k: Nodes)
    requires g <= h && h <= k
    ensures g <= k
  {
  }

  lemma FirstBranchWeight(g0: Nodes, g1: Nodes, c1: Edge, tst: Edge, tt: Edge, matching: bool)
    requires KnowsAnd(g0, g1, c1, tst, tt, matching) && !tst.neg
    ensures Weight(g1, c1) <= 1 + Weight(g0, tst) + Weight(g0, tt)
  {
    hide Weight, Value, KnowsAnd, Valid;
    ConjunctionWeight(g0, g1, c1, tst, tt, matching);
  }

  lemma BothBranchesWeight(g1: Nodes, g2: Nodes, g3: Nodes, c1: Edge, c2: Edge, c3: Edge)
    requires KnowsAnd(g2, g3, c3, Negate(c1), Negate(c2), false)
    requires Valid(g1) && g1 <= g2 && Below(c1, |g1|) && Below(c2, |g2|)
    ensures Weight(g3, c3) <= 1 + Weight(g1, c1) + Weight(g2, c2)
  {
    hide Weight, Value, KnowsAnd, Valid;
    KnownParts(g2, g3, c3, Negate(c1), Negate(c2), false);
    PlainConjunctionWeight(g2, g3, c3, Negate(c1), Negate(c2));
    WeightExtends(g1, g2, c1);
    NegateWeight(g2, c1, true);
    NegateWeight(g2, c2, true);
  }

  lemma SecondBranchWeight(g0: Nodes, g1: Nodes, g2: Nodes, tst: Edge, ff: Edge, c2: Edge, matching: bool)
    requires Valid(g0) && Valid(g1) && g0 <= g1 && Below(tst, |g0|) && Below(ff, |g0|)
    requires KnowsAnd(g1, g2, c2, Negate(tst), ff, matching)
    ensures Weight(g2, c2) <= 1 + 2 * Weight(g0, tst) + Weight(g0, ff)
  {
    hide Weight, Value, IsConjunction, AndShape;
    ConjunctionWeight(g1, g2, c2, Negate(tst), ff, matching);
    WeightExtends(g0, g1, tst);
    WeightExtends(g0, g1, ff);
    NegateWeight(g1, tst, true);
  }

  lemma PlainConjunctionWeight(g: Nodes, h: Nodes, r: Edge, a: Edge, b: Edge)
    requires KnowsAnd(g, h, r, a, b, false)
    ensures Weight(h, r) <= 1 + Weight(g, a) + Weight(g, b)
  {
    hide IsConjunction, AndShape, Weight, Value;
    WeightExtends(g, h, a);
    WeightExtends(g, h, b);
  }

  lemma ExpansionValue(g0: Nodes, g1: Nodes, g2: Nodes, g3: Nodes, e: Edge, tst: Edge, tt: Edge, ff: Edge,
                       c1: Edge, c2: Edge, c3: Edge, matching: bool)
    requires Valid(g0) && Below(e, |g0|) && Below(tst, |g0|) && Below(tt, |g0|) && Below(ff, |g0|)
    requires KnowsAnd(g0, g1, c1, tst, tt, matching) && KnowsAnd(g1, g2, c2, Negate(tst), ff, matching)
    requires KnowsAnd(g2, g3, c3, Negate(c1), Negate(c2), false)
    requires forall w: Assignment ::
      Value(g0, e, w) == (!(Value(g0, tst, w) && Value(g0, tt, w)) && !(!Value(g0, tst, w) && Value(g0, ff, w)))
    ensures g0 <= g3 && Equivalent(g3, c3, e)
  {
    forall w: Assignment ensures Value(g3, c3, w) == Value(g3, e, w) {
      ValueExtends(g0, g3, e, w);
      ValueExtends(g0, g1, tst, w);
      ValueExtends(g0, g1, tt, w);
      ValueExtends(g0, g2, tst, w);
      ValueExtends(g0, g2, ff, w);
      ValueExtends(g1, g3, c1, w);
      ValueExtends(g2, g3, c2, w);
      NegateValue(g2, tst, true, w);
      NegateValue(g3, c1, true, w);
      NegateValue(g3, c2, true, w);
    }
  }
}
