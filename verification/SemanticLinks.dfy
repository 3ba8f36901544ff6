/** The pointers between the two expansions of one node: which expansions have them, and when one is asked
    to have two. */
module SemanticLinks {
  import opened Dags
  import opened Construction
  import opened Expansions
  import opened CnfStates
  import opened ExpandStates

  /** An ITE or IFF that has expansions in both polarities. */
  predicate BothExpanded(pexp: map<Edge, nat>, e: Edge) {
    e in pexp && Negate(e) in pexp
  }

  ghost predicate IsPaired(pexp: map<Edge, nat>, x: nat) {
    exists e :: BothExpanded(pexp, e) && pexp[e] == x
  }

  /** Exactly the expansions of what is expanded in both polarities are linked. */
  ghost predicate LinksAre(pexp: map<Edge, nat>, annot: Annots) {
    forall x: nat :: Link(x, false) in annot <==> IsPaired(pexp, x)
  }

  /** No node is the expansion of two edges that are both expanded in both polarities. */
  ghost predicate LinkedOnce(pexp: map<Edge, nat>) {
    forall e, f :: BothExpanded(pexp, e) && BothExpanded(pexp, f) && pexp[e] == pexp[f] ==> e == f
  }

  /** Neither of two expansions is linked yet, as is asserted before they are. */
  predicate Unlinked(annot: Annots, m: nat, n: nat) {
    AnnotOf(annot, Link(m, false)) == Null && AnnotOf(annot, Link(n, false)) == Null
  }

  ghost predicate OnlyPointers(annot: Annots) {
    forall u :: u in annot ==> annot[u].Semneg?
  }

  /** An expansion whose opposite one does not exist yet. */
  lemma FirstOfTwo(pexp: map<Edge, nat>, annot: Annots, e: Edge, id: nat)
    requires LinksAre(pexp, annot) && e !in pexp && e.Link? && Negate(e) !in pexp
    ensures LinksAre(pexp[e := id], annot)
    ensures LinkedOnce(pexp[e := id]) <==> LinkedOnce(pexp)
  {
    var after := pexp[e := id];
    forall f ensures BothExpanded(after, f) <==> BothExpanded(pexp, f) {
      assert Negate(Negate(f)) == f;
    }
    forall x ensures IsPaired(after, x) <==> IsPaired(pexp, x) {
      if IsPaired(pexp, x) {
        var f :| BothExpanded(pexp, f) && pexp[f] == x;
        assert BothExpanded(after, f) && after[f] == x;
      }
    }
    if LinkedOnce(after) {
      forall f, h | BothExpanded(pexp, f) && BothExpanded(pexp, h) && pexp[f] == pexp[h] ensures f == h {
        assert BothExpanded(after, f) && BothExpanded(after, h);
      }
    }
  }

  lemma PairedLater(pexp: map<Edge, nat>, e: Edge, id: nat, f: Edge)
    requires e !in pexp && e.Link? && Negate(e) in pexp
    ensures Negate(e) != e && BothExpanded(pexp[e := id], e) && BothExpanded(pexp[e := id], Negate(e))
    ensures BothExpanded(pexp[e := id], f) <==> f == e || f == Negate(e) || BothExpanded(pexp, f)
    ensures BothExpanded(pexp, f) ==> f != e && f != Negate(e)
  {
    assert Negate(Negate(e)) == e && Negate(Negate(f)) == f;
  }

  /** The second expansion of a node: both get linked, whatever links they had. */
  lemma SecondOfTwo(pexp: map<Edge, nat>, annot: Annots, e: Edge, id: nat)
    requires LinksAre(pexp, annot) && OnlyPointers(annot)
    requires e !in pexp && e.Link? && Negate(e) in pexp && id != pexp[Negate(e)]
    ensures var n := pexp[Negate(e)];
      && LinksAre(pexp[e := id], Linked(annot, id, n))
      && (LinkedOnce(pexp[e := id]) <==> LinkedOnce(pexp) && Unlinked(annot, id, n))
  {
    var n, after := pexp[Negate(e)], pexp[e := id];
    PairedLater(pexp, e, id, e);
    forall f ensures BothExpanded(after, f) <==> f == e || f == Negate(e) || BothExpanded(pexp, f)
      ensures BothExpanded(pexp, f) ==> f != e && f != Negate(e)
    {
      PairedLater(pexp, e, id, f);
    }
    forall x ensures IsPaired(after, x) <==> x == id || x == n || IsPaired(pexp, x) {
      assert after[e] == id && after[Negate(e)] == n;
      if IsPaired(pexp, x) {
        var f :| BothExpanded(pexp, f) && pexp[f] == x;
        assert BothExpanded(after, f) && after[f] == x;
      }
    }
    OnceMore(pexp, e, id);
  }

  lemma OnceMore(pexp: map<Edge, nat>, e: Edge, id: nat)
    requires e !in pexp && e.Link? && Negate(e) in pexp && id != pexp[Negate(e)]
    ensures LinkedOnce(pexp[e := id])
      <==> LinkedOnce(pexp) && !IsPaired(pexp, id) && !IsPaired(pexp, pexp[Negate(e)])
  {
    var n, after := pexp[Negate(e)], pexp[e := id];
    forall f ensures BothExpanded(after, f) <==> f == e || f == Negate(e) || BothExpanded(pexp, f)
      ensures BothExpanded(pexp, f) ==> f != e && f != Negate(e)
    {
      PairedLater(pexp, e, id, f);
    }
    PairedLater(pexp, e, id, e);
    if LinkedOnce(after) {
      forall f | BothExpanded(pexp, f) ensures pexp[f] != id && pexp[f] != n {
        assert BothExpanded(after, f) && after[f] == pexp[f];
      }
      forall f, h | BothExpanded(pexp, f) && BothExpanded(pexp, h) && pexp[f] == pexp[h] ensures f == h {
        assert BothExpanded(after, f) && BothExpanded(after, h);
      }
    }
  }

  /** The expansions of the two polarities are different nodes, as they mean different things. */
  lemma {:induction false} Opposites(g: Nodes, m: nat, n: nat)
    requires Valid(g) && AreNegations(g, m, n)
    ensures m != n
  {
    NegateValue(g, Link(n, false), true, iset{});
    assert Value(g, Link(m, true), iset{}) == Value(g, Link(n, false), iset{});
  }

  // ----- without matching -----

  /** Without matching, both branches of an expansion are plain conjunctions. */
  ghost predicate PlainExpansion(g: Nodes, e: Edge, id: nat, c: Edge, d: Edge)
    requires Valid(g)
  {
    && e.Link? && e.id < |g| && g[e.id].op != And && Simplified(g[e.id])
    && var (t, a, b) := Branches(g[e.id], e.neg);
    && IsPlainAnd(g, c, t, a) && IsPlainAnd(g, d, Negate(t), b) && IsPlainAnd(g, Link(id, false), Negate(c), Negate(d))
  }

  lemma PlainBranches(g: Nodes, e: Edge, id: nat) returns (c: Edge, d: Edge)
    requires Valid(g) && Built(g, e, id, false)
    ensures PlainExpansion(g, e, id, c, d)
  {
    c, d :| BuiltFrom(g, e, id, c, d, false);
  }

  /** The branches tell the sign of the edge and the node. */
  lemma BranchesTell(g: Nodes, e: Edge)
    requires Valid(g) && e.Link? && e.id < |g| && g[e.id].op != And && Simplified(g[e.id])
    ensures var (t, a, b) := Branches(g[e.id], e.neg);
      && !t.neg && a.neg == !e.neg
      && (SameNode(a, b) <==> g[e.id].op == Iff)
      && g[e.id] == if g[e.id].op == Iff then Node(Iff, [t, NegateIf(a, !e.neg)])
                    else Node(Ite, [t, NegateIf(a, !e.neg), NegateIf(b, !e.neg)])
  {
    var args := g[e.id].args;
    assert args == if g[e.id].op == Iff then [args[0], args[1]] else [args[0], args[1], args[2]];
  }

  lemma SamePair(a: Edge, b: Edge, c: Edge, d: Edge)
    requires [a, b] == [c, d] || [a, b] == [d, c]
    ensures (a == c && b == d) || (a == d && b == c)
  {
    assert [a, b][0] == a && [a, b][1] == b && [c, d][0] == c && [c, d][1] == d && [d, c][0] == d && [d, c][1] == c;
  }

  /** One plain AND node has one pair of operands. */
  lemma SameOperands(g: Nodes, r: Edge, a: Edge, b: Edge, c: Edge, d: Edge)
    requires IsPlainAnd(g, r, a, b) && IsPlainAnd(g, r, c, d)
    ensures (a == c && b == d) || (a == d && b == c)
  {
    if g[r.id] == Node(And, [a, b]) {
      SamePair(a, b, c, d);
    } else {
      SamePair(b, a, c, d);
    }
  }

  /** Equal branches are those of one edge. */
  lemma SameBranches(g: Nodes, addr: seq<nat>, e: Edge, f: Edge)
    requires Valid(g) && HashConsed(g, addr)
    requires e.Link? && e.id < |g| && g[e.id].op != And && Simplified(g[e.id])
    requires f.Link? && f.id < |g| && g[f.id].op != And && Simplified(g[f.id])
    requires Branches(g[e.id], e.neg) == Branches(g[f.id], f.neg)
    ensures e == f
  {
    BranchesTell(g, e);
    BranchesTell(g, f);
    assert g[e.id] == g[f.id];
  }

  /** There are no two equivalences with their sides exchanged. */
  lemma NotExchanged(g: Nodes, addr: seq<nat>, e: Edge, f: Edge)
    requires Valid(g) && HashConsed(g, addr)
    requires e.Link? && e.id < |g| && g[e.id].op != And && Simplified(g[e.id])
    requires f.Link? && f.id < |g| && g[f.id].op != And && Simplified(g[f.id])
    ensures var (t, a, b) := Branches(g[e.id], e.neg); var (u, x, y) := Branches(g[f.id], f.neg);
      && !(a == u && b == Negate(u) && x == t && y == Negate(t))
      && !(a == Negate(u) && b == u && x == Negate(t) && y == t)
  {
    BranchesTell(g, e);
    BranchesTell(g, f);
    var (t, a, b) := Branches(g[e.id], e.neg);
    var (u, x, y) := Branches(g[f.id], f.neg);
    NoTwoEquivalences(g, addr, e.id, f.id, t, u);
  }

  lemma NoTwoEquivalences(g: Nodes, addr: seq<nat>, i: nat, j: nat, t: Edge, u: Edge)
    requires Valid(g) && HashConsed(g, addr) && i < |g| && j < |g| && g[i].op != And && Simplified(g[i])
    ensures !(g[i] == Node(Iff, [t, u]) && g[j] == Node(Iff, [u, t]))
  {
    assert [t, u][0] == t && [t, u][1] == u && [u, t][0] == u;
    if g[i] == Node(Iff, [t, u]) && g[j] == Node(Iff, [u, t]) {
      OneOrder(g, addr, i, j, Iff, t, u);
    }
  }

  /** Without matching, different edges have different expansions. */
  lemma PlainExpansionsDiffer(g: Nodes, addr: seq<nat>, e: Edge, f: Edge, id: nat)
    requires Valid(g) && HashConsed(g, addr) && Built(g, e, id, false) && Built(g, f, id, false)
    ensures e == f
  {
    hide HashConsed, Built, IsPlainAnd, Valid, Branches;
    var c, d := PlainBranches(g, e, id);
    var c', d' := PlainBranches(g, f, id);
    BranchesTell(g, e);
    BranchesTell(g, f);
    var (t, a, b) := Branches(g[e.id], e.neg);
    var (u, x, y) := Branches(g[f.id], f.neg);
    SameOperands(g, Link(id, false), Negate(c), Negate(d), Negate(c'), Negate(d'));
    NegateInjective(c, c', d, d');
    if c == c' && d == d' {
      SameOperands(g, c, t, a, u, x);
      SameOperands(g, d, Negate(t), b, Negate(u), y);
      if t == u {
        SameBranches(g, addr, e, f);
      } else {
        NotExchanged(g, addr, e, f);
      }
    } else {
      SameOperands(g, c, t, a, Negate(u), y);
      SameOperands(g, d, Negate(t), b, u, x);
      NotExchanged(g, addr, e, f);
    }
  }

  lemma NegateInjective(c: Edge, d: Edge, x: Edge, y: Edge)
    ensures Negate(c) == Negate(d) ==> c == d
    ensures Negate(x) == Negate(y) ==> x == y
    ensures Negate(c) == Negate(y) ==> c == y
    ensures Negate(x) == Negate(d) ==> x == d
  {
  }

  /** So the assertion always holds when matching is off. */
  lemma UnmatchedOnce(g: Nodes, addr: seq<nat>, pexp: map<Edge, nat>)
    requires Valid(g) && HashConsed(g, addr) && AllBuilt(g, pexp, false)
    ensures LinkedOnce(pexp)
  {
    hide HashConsed, Built;
    forall e, f | BothExpanded(pexp, e) && BothExpanded(pexp, f) && pexp[e] == pexp[f] ensures e == f {
      PlainExpansionsDiffer(g, addr, e, f, pexp[e]);
    }
  }
}
