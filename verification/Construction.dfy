/** The constructors of the NICE dag: simplification, ITE and IFF matching, and hash-consing. */
module Construction {
  import opened Sequences
  import opened Literals
  import opened Dags
  import Sorting

  // ----- the node table, by its specification -----

  /** The node with this operator and these arguments, if there is one. */
  function Find(g: Nodes, n: Node): (r: Option<nat>)
    ensures r.Some? ==> r.value < |g| && g[r.value] == n
    ensures r.None? ==> n !in g
  {
    if g == [] then None
    else if g[|g| - 1] == n then Some(|g| - 1)
    else Find(g[..|g| - 1], n)
  }

  /** Hash-consing: an existing node is shared, a new one is added. */
  function Intern(g: Nodes, n: Node): Nodes {
    if Find(g, n).Some? then g else g + [n]
  }

  function InternId(g: Nodes, n: Node): nat {
    match Find(g, n)
    case Some(id) => id
    case None => |g|
  }

  lemma InternValid(g: Nodes, n: Node)
    requires Valid(g) && AllBelow(n.args, |g|) && Simplified(n)
    ensures var h := Intern(g, n); Valid(h) && g <= h && InternId(g, n) < |h| && h[InternId(g, n)] == n
  {
  }

  // ----- pointer order -----

  /** Nodes live at distinct aligned addresses. */
  ghost predicate Addressed(addr: seq<nat>) {
    && (forall i :: 0 <= i < |addr| ==> addr[i] >= 4 && addr[i] % 4 == 0)
    && (forall i, j :: 0 <= i < j < |addr| ==> addr[i] != addr[j])
  }

  /** An edge as a tagged pointer: bit 0 is the sign, bit 1 tells a variable or constant from a node. */
  function Tagged(addr: seq<nat>, e: Edge): nat
    requires Below(e, |addr|)
  {
    match e
    case Leaf(v, neg) => 4 * v + 2 + if neg then 1 else 0
    case Link(id, neg) => addr[id] + if neg then 1 else 0
  }

  lemma TaggedInjective(addr: seq<nat>, e: Edge, f: Edge)
    requires Addressed(addr) && Below(e, |addr|) && Below(f, |addr|)
    ensures Tagged(addr, e) == Tagged(addr, f) ==> e == f
  {
  }

  lemma ConstantsFirst(addr: seq<nat>, a: Edge, b: Edge)
    requires Addressed(addr) && Below(a, |addr|) && Below(b, |addr|)
    requires Tagged(addr, a) <= Tagged(addr, b) && IsConst(b)
    ensures IsConst(a)
  {
  }

  // ----- weights of what is built -----

  ghost function Min(m: nat, n: nat): nat {
    if m < n then m else n
  }

  lemma {:induction false} AndWeight(g: Nodes, id: nat, a: Edge, b: Edge)
    requires Valid(g) && id < |g| && g[id] == Node(And, [a, b])
    ensures Below(a, id) && Below(b, id)
    ensures Weight(g, Link(id, false)) == 1 + Weight(g, a) + Weight(g, b)
    ensures forall w: Assignment :: Value(g, Link(id, false), w) == (Value(g, a, w) && Value(g, b, w))
  {
    var args := g[id].args;
    assert AllBelow(args, id);
    assert args[0] == a && args[1] == b;
    assert args[1..] == [b] && [b][1..] == [];
    assert WeightOfAll(g, args, id) == Weight(g, a) + WeightOfAll(g, [b], id);
  }

  lemma IteWeight(g: Nodes, id: nat, t: Edge, a: Edge, b: Edge)
    requires Valid(g) && id < |g| && g[id] == Node(Ite, [t, a, b])
    ensures Below(t, id) && Below(a, id) && Below(b, id)
    ensures Weight(g, Link(id, false)) == 4 + 3 * Weight(g, t) + Weight(g, a) + Weight(g, b)
    ensures forall w: Assignment ::
      Value(g, Link(id, false), w) == if Value(g, t, w) then Value(g, a, w) else Value(g, b, w)
  {
    var args := g[id].args;
    assert AllBelow(args, id);
    assert args[0] == t && args[1] == a && args[2] == b;
  }

  lemma IffWeight(g: Nodes, id: nat, a: Edge, b: Edge)
    requires Valid(g) && id < |g| && g[id] == Node(Iff, [a, b])
    ensures Below(a, id) && Below(b, id)
    ensures Weight(g, Link(id, false)) == 4 + 3 * Weight(g, a) + 3 * Weight(g, b)
    ensures forall w: Assignment :: Value(g, Link(id, false), w) == (Value(g, a, w) == Value(g, b, w))
  {
    var args := g[id].args;
    assert AllBelow(args, id);
    assert args[0] == a && args[1] == b;
  }

  // ----- what the constructors promise -----

  ghost predicate IsConjunction(g: Nodes, r: Edge, a: Edge, b: Edge)
    requires Valid(g) && Below(r, |g|) && Below(a, |g|) && Below(b, |g|)
  {
    forall w: Assignment :: Value(g, r, w) == (Value(g, a, w) && Value(g, b, w))
  }

  ghost predicate IsChoice(g: Nodes, r: Edge, t: Edge, a: Edge, b: Edge)
    requires Valid(g) && Below(r, |g|) && Below(t, |g|) && Below(a, |g|) && Below(b, |g|)
  {
    forall w: Assignment :: Value(g, r, w) == if Value(g, t, w) then Value(g, a, w) else Value(g, b, w)
  }

  /** Operands that no simplification applies to. */
  predicate Proper(a: Edge, b: Edge) {
    !IsConst(a) && !IsConst(b) && !SameNode(a, b)
  }

  predicate IsPlainAnd(g: Nodes, r: Edge, a: Edge, b: Edge) {
    r.Link? && !r.neg && r.id < |g| && (g[r.id] == Node(And, [a, b]) || g[r.id] == Node(And, [b, a]))
  }

  predicate IsIff(g: Nodes, r: Edge, a: Edge, b: Edge) {
    r.Link? && !r.neg && r.id < |g| && (g[r.id] == Node(Iff, [a, b]) || g[r.id] == Node(Iff, [b, a]))
  }

  predicate IsOther(g: Nodes, r: Edge) {
    r.Link? && r.id < |g| && g[r.id].op != And
  }

  /** How heavy the conjunction of two edges can get, matching included. */
  ghost function AndBound(g: Nodes, a: Edge, b: Edge, matching: bool): nat
    requires Valid(g) && Below(a, |g|) && Below(b, |g|)
  {
    1 + Weight(g, a) + Weight(g, b) + if matching && a.neg && b.neg then Min(Weight(g, a), Weight(g, b)) else 0
  }

  /** The shape of a conjunction of proper operands: the plain AND node; or, when matching found an
      ITE, that node, or an edge that lies inside both operands. */
  ghost predicate AndShape(g: Nodes, r: Edge, a: Edge, b: Edge, matching: bool)
    requires Valid(g) && Below(r, |g|) && Below(a, |g|) && Below(b, |g|)
  {
    && !IsConst(r)
    && (IsPlainAnd(g, r, a, b)
        || (matching && a.neg && b.neg
            && (IsOther(g, r) || (Weight(g, r) < Weight(g, a) && Weight(g, r) < Weight(g, b)))))
  }

  ghost predicate ChoiceShape(g: Nodes, r: Edge, t: Edge, a: Edge, b: Edge)
    requires Valid(g) && Below(r, |g|) && Below(t, |g|) && Below(a, |g|) && Below(b, |g|)
  {
    && !IsConst(r)
    && (IsOther(g, r) || (r == a && a == b))
    && Weight(g, r) <= 4 + 3 * Weight(g, t) + Weight(g, a) + Weight(g, b) + Min(Weight(g, a), Weight(g, b))
  }

  /** An edge keeps its weight and its value when nodes are added. */
  lemma Grow(g: Nodes, h: Nodes, e: Edge)
    requires Valid(g) && Valid(h) && g <= h && Below(e, |g|)
    ensures Below(e, |h|) && Weight(h, e) == Weight(g, e)
    ensures forall w: Assignment :: Value(h, e, w) == Value(g, e, w)
  {
    WeightExtends(g, h, e);
    forall w: Assignment ensures Value(h, e, w) == Value(g, e, w) {
      ValueExtends(g, h, e, w);
    }
  }

  // ----- matching -----

  /** Two complemented binary ANDs. */
  predicate BothNegatedAnds(g: Nodes, a: Edge, b: Edge)
    requires Below(a, |g|) && Below(b, |g|)
  {
    && a.neg && b.neg && a.Link? && b.Link?
    && g[a.id].op == And && g[b.id].op == And && |g[a.id].args| == 2 && |g[b.id].args| == 2
  }

  datatype Match = NoMatch | Matched(test: Edge, thenEdge: Edge, elseEdge: Edge)

  /** The ITE hidden in the conjunction of two complemented ANDs that test one edge in both signs. */
  function FindMatch(g: Nodes, a: Edge, b: Edge): Match
    requires Below(a, |g|) && Below(b, |g|) && BothNegatedAnds(g, a, b)
  {
    var x, y := g[a.id].args, g[b.id].args;
    if SameNodeOppSign(x[0], y[0]) then Matched(x[0], x[1], y[1])
    else if SameNodeOppSign(x[0], y[1]) then Matched(x[0], x[1], y[0])
    else if SameNodeOppSign(x[1], y[0]) then Matched(x[1], x[0], y[1])
    else if SameNodeOppSign(x[1], y[1]) then Matched(x[1], x[0], y[0])
    else NoMatch
  }

  /** Two operands that matching makes an ITE of. */
  predicate Matches(g: Nodes, a: Edge, b: Edge)
    requires Below(a, |g|) && Below(b, |g|)
  {
    BothNegatedAnds(g, a, b) && FindMatch(g, a, b).Matched?
  }

  predicate IsIteNode(g: Nodes, r: Edge, t: Edge, a: Edge, b: Edge) {
    r.Link? && !r.neg && r.id < |g| && g[r.id] == Node(Ite, [t, a, b])
  }

  /** Which edge an ITE of proper operands is whose test and first branch have no complement: a branch if
      both are the same, an equivalence if they are complements, the ITE node otherwise. */
  predicate PlainIteIs(g: Nodes, r: Edge, t: Edge, a: Edge, b: Edge) {
    if a == b then r == a else if b == Negate(a) then IsIff(g, r, t, a) else IsIteNode(g, r, t, a, b)
  }

  /** Complemented branches complement the result, a complemented test exchanges the branches. */
  predicate ProperIteIs(g: Nodes, r: Edge, t: Edge, a: Edge, b: Edge) {
    var (u, c, d) := if t.neg then (Negate(t), b, a) else (t, a, b);
    if c.neg then PlainIteIs(g, Negate(r), u, Negate(c), Negate(d)) else PlainIteIs(g, r, u, c, d)
  }

  /** Which edge the conjunction of proper operands is: the one plain AND node, unless matching finds an
      ITE in them, of which it is the complement. */
  ghost predicate AndExact(g: Nodes, r: Edge, a: Edge, b: Edge, matching: bool)
    requires Below(a, |g|) && Below(b, |g|)
  {
    if matching && Matches(g, a, b) then
      var m := FindMatch(g, a, b);
      ProperIteIs(g, Negate(r), m.test, m.thenEdge, m.elseEdge)
    else IsPlainAnd(g, r, a, b)
  }

  /** Which edge the conjunction of any two operands is. */
  ghost predicate AndIs(g: Nodes, r: Edge, a: Edge, b: Edge, matching: bool)
    requires Below(a, |g|) && Below(b, |g|)
  {
    if IsConst(a) then r == (if a == True then b else False)
    else if IsConst(b) then r == (if b == True then a else False)
    else if SameNode(a, b) then r == (if a == b then a else False)
    else AndExact(g, r, a, b, matching)
  }

  /** Which edge an ITE is whose test and first branch have no complement: a conjunction or disjunction where
      an operand is constant or a branch is the test or its complement. */
  ghost predicate PositiveIteIs(g: Nodes, r: Edge, t: Edge, a: Edge, b: Edge, matching: bool)
    requires Below(t, |g|) && Below(a, |g|) && Below(b, |g|)
  {
    if t == True then r == a
    else if a == True || a == t then AndIs(g, Negate(r), Negate(t), Negate(b), matching)
    else if b == True || b == Negate(t) then AndIs(g, Negate(r), t, Negate(a), matching)
    else if b == False || b == t then AndIs(g, r, t, a, matching)
    else PlainIteIs(g, r, t, a, b)
  }

  ghost predicate BranchedIteIs(g: Nodes, r: Edge, t: Edge, a: Edge, b: Edge, matching: bool)
    requires Below(t, |g|) && Below(a, |g|) && Below(b, |g|)
  {
    if a.neg then PositiveIteIs(g, Negate(r), t, Negate(a), Negate(b), matching)
    else PositiveIteIs(g, r, t, a, b, matching)
  }

  /** Which edge an ITE is. */
  ghost predicate IteExact(g: Nodes, r: Edge, t: Edge, a: Edge, b: Edge, matching: bool)
    requires Below(t, |g|) && Below(a, |g|) && Below(b, |g|)
  {
    if t.neg then BranchedIteIs(g, r, Negate(t), b, a, matching) else BranchedIteIs(g, r, t, a, b, matching)
  }

  /** Which edge an equivalence is: constant for one node, the other side or its complement for a constant,
      and otherwise the one IFF node of both sides without complements, or its complement. */
  predicate IffIs(g: Nodes, r: Edge, a: Edge, b: Edge) {
    var x, y, e := Positive(a), Positive(b), NegateIf(r, a.neg != b.neg);
    if x == y then e == True
    else if IsConst(x) then e == y
    else if IsConst(y) then e == x
    else IsIff(g, e, x, y)
  }

  lemma ExactNegatedTest(g: Nodes, r: Edge, t: Edge, a: Edge, b: Edge, matching: bool)
    requires Below(t, |g|) && Below(a, |g|) && Below(b, |g|)
    requires t.neg && IteExact(g, r, Negate(t), b, a, matching)
    ensures IteExact(g, r, t, a, b, matching)
  {
  }

  lemma ExactNegatedBranches(g: Nodes, r: Edge, t: Edge, a: Edge, b: Edge, matching: bool)
    requires Below(t, |g|) && Below(a, |g|) && Below(b, |g|) && !t.neg
    requires if a.neg then PositiveIteIs(g, Negate(r), t, Negate(a), Negate(b), matching)
             else PositiveIteIs(g, r, t, a, b, matching)
    ensures IteExact(g, r, t, a, b, matching)
  {
  }

  /** Of proper operands, an ITE is exactly what it is by its own rules. */
  lemma ExactProper(g: Nodes, r: Edge, t: Edge, a: Edge, b: Edge, matching: bool)
    requires Below(t, |g|) && Below(a, |g|) && Below(b, |g|) && Proper(t, a) && Proper(t, b)
    ensures IteExact(g, r, t, a, b, matching) <==> ProperIteIs(g, r, t, a, b)
  {
  }

  lemma AndIsCommutes(g: Nodes, r: Edge, a: Edge, b: Edge, matching: bool)
    requires Valid(g) && Below(a, |g|) && Below(b, |g|) && AndIs(g, r, a, b, matching)
    ensures AndIs(g, r, b, a, matching)
  {
    hide AndExact;
    if Proper(a, b) {
      AndExactCommutes(g, r, a, b, matching);
    }
  }

  lemma AndExactCommutes(g: Nodes, r: Edge, a: Edge, b: Edge, matching: bool)
    requires Valid(g) && Below(a, |g|) && Below(b, |g|) && AndExact(g, r, a, b, matching)
    ensures AndExact(g, r, b, a, matching)
  {
    hide ProperIteIs;
    if matching && BothNegatedAnds(g, a, b) {
      MatchCommutes(g, Negate(r), a, b);
    }
  }

  /** An ITE of complementary branches is an equivalence, whichever side is the test. */
  lemma IffSwaps(g: Nodes, r: Edge, t: Edge, a: Edge)
    requires ProperIteIs(g, r, t, a, Negate(a))
    ensures ProperIteIs(g, r, a, t, Negate(t)) && ProperIteIs(g, r, Negate(a), Negate(t), t)
  {
  }

  lemma TestSwaps(g: Nodes, r: Edge, t: Edge, a: Edge, b: Edge)
    requires ProperIteIs(g, r, t, a, b)
    ensures ProperIteIs(g, r, Negate(t), b, a)
  {
  }

  /** The match in the other order complements the test and exchanges the branches; or the branches are
      complements and change places with the test. */
  lemma MatchesRelate(g: Nodes, a: Edge, b: Edge)
    requires Valid(g) && Below(a, |g|) && Below(b, |g|) && BothNegatedAnds(g, a, b)
    ensures Matches(g, b, a) <==> Matches(g, a, b)
    ensures Matches(g, a, b) ==>
      var m, n := FindMatch(g, a, b), FindMatch(g, b, a);
      || n == Matched(Negate(m.test), m.elseEdge, m.thenEdge)
      || (m.elseEdge == Negate(m.thenEdge) && n == Matched(m.elseEdge, Negate(m.test), m.test))
  {
    var x, y := g[a.id].args, g[b.id].args;
    assert Simplified(g[a.id]) && Simplified(g[b.id]);
    assert !SameNode(x[0], x[1]) && !SameNode(y[0], y[1]);
  }

  /** In either order, a match exists or not, and it makes one and the same ITE. */
  lemma MatchCommutes(g: Nodes, r: Edge, a: Edge, b: Edge)
    requires Valid(g) && Below(a, |g|) && Below(b, |g|) && BothNegatedAnds(g, a, b)
    ensures Matches(g, b, a) <==> Matches(g, a, b)
    ensures Matches(g, a, b) ==>
      var m, n := FindMatch(g, a, b), FindMatch(g, b, a);
      ProperIteIs(g, r, m.test, m.thenEdge, m.elseEdge) ==> ProperIteIs(g, r, n.test, n.thenEdge, n.elseEdge)
  {
    hide ProperIteIs, FindMatch;
    MatchesRelate(g, a, b);
    if Matches(g, a, b) {
      var m, n := FindMatch(g, a, b), FindMatch(g, b, a);
      if ProperIteIs(g, r, m.test, m.thenEdge, m.elseEdge) {
        if n.test == Negate(m.test) {
          TestSwaps(g, r, m.test, m.thenEdge, m.elseEdge);
        } else {
          IffSwaps(g, r, m.test, m.thenEdge);
        }
      }
    }
  }

  lemma AndExactLater(g: Nodes, h: Nodes, r: Edge, a: Edge, b: Edge, matching: bool)
    requires g <= h && Below(a, |g|) && Below(b, |g|) && AndExact(g, r, a, b, matching)
    ensures AndExact(h, r, a, b, matching)
  {
  }

  lemma BinaryArgs(g: Nodes, e: Edge)
    requires Valid(g) && e.Link? && e.id < |g| && g[e.id].op == And && |g[e.id].args| == 2
    ensures var x := g[e.id].args;
      && Below(x[0], e.id) && Below(x[1], e.id) && Proper(x[0], x[1])
      && Weight(g, e) == 1 + Weight(g, x[0]) + Weight(g, x[1])
      && forall w: Assignment :: Value(g, e, w) == ((Value(g, x[0], w) && Value(g, x[1], w)) != e.neg)
  {
    var x := g[e.id].args;
    assert x == [x[0], x[1]];
    assert AllBelow(x, e.id) && Simplified(g[e.id]);
    AndWeight(g, e.id, x[0], x[1]);
    forall w: Assignment ensures Value(g, e, w) == ((Value(g, x[0], w) && Value(g, x[1], w)) != e.neg) {
      NegateValue(g, Link(e.id, false), e.neg, w);
    }
    NegateWeight(g, Link(e.id, false), e.neg);
  }

  /** The complement of the matched ITE is the conjunction, its parts are proper, and it is lighter
      than the two operands. */
  lemma MatchMeans(g: Nodes, a: Edge, b: Edge)
    requires Valid(g) && Below(a, |g|) && Below(b, |g|) && BothNegatedAnds(g, a, b) && FindMatch(g, a, b).Matched?
    ensures var m := FindMatch(g, a, b);
      && Below(m.test, |g|) && Below(m.thenEdge, |g|) && Below(m.elseEdge, |g|)
      && Proper(m.test, m.thenEdge) && Proper(m.test, m.elseEdge)
      && Weight(g, a) == 1 + Weight(g, m.test) + Weight(g, m.thenEdge)
      && Weight(g, b) == 1 + Weight(g, m.test) + Weight(g, m.elseEdge)
      && forall w: Assignment :: (Value(g, a, w) && Value(g, b, w))
           == !if Value(g, m.test, w) then Value(g, m.thenEdge, w) else Value(g, m.elseEdge, w)
  {
    BinaryArgs(g, a);
    BinaryArgs(g, b);
    var m := FindMatch(g, a, b);
    var x, y := g[a.id].args, g[b.id].args;
    var other := if m.test == Negate(y[0]) && m.elseEdge == y[1] then y[0] else y[1];
    NegateWeight(g, m.test, true);
    forall w: Assignment
      ensures (Value(g, a, w) && Value(g, b, w))
        == !if Value(g, m.test, w) then Value(g, m.thenEdge, w) else Value(g, m.elseEdge, w)
    {
      NegateValue(g, m.test, true, w);
    }
  }

  // ----- contracts -----

  /** `r`, in the table `g` that extends `was`, is the conjunction of `a` and `b`. */
  ghost predicate KnowsAnd(was: Nodes, g: Nodes, r: Edge, a: Edge, b: Edge, matching: bool) {
    && Valid(was) && Valid(g) && was <= g && Below(a, |was|) && Below(b, |was|) && Below(r, |g|)
    && IsConjunction(g, r, a, b)
    && Weight(g, r) <= AndBound(g, a, b, matching)
    && (Proper(a, b) ==> AndShape(g, r, a, b, matching))
  }

  /** `r`, in the table `g` that extends `was`, is `a` or `b` as `t` tells. */
  ghost predicate KnowsIte(was: Nodes, g: Nodes, r: Edge, t: Edge, a: Edge, b: Edge) {
    && Valid(was) && Valid(g) && was <= g
    && Below(t, |was|) && Below(a, |was|) && Below(b, |was|) && Below(r, |g|)
    && IsChoice(g, r, t, a, b)
    && (Proper(t, a) && Proper(t, b) ==> ChoiceShape(g, r, t, a, b))
  }

  lemma KnownParts(g: Nodes, h: Nodes, r: Edge, a: Edge, b: Edge, matching: bool)
    requires KnowsAnd(g, h, r, a, b, matching)
    ensures Valid(g) && Valid(h) && g <= h && Below(a, |g|) && Below(b, |g|) && Below(r, |h|)
  {
  }

  lemma AndParts(was: Nodes, g: Nodes, r: Edge, a: Edge, b: Edge, matching: bool)
    requires KnowsAnd(was, g, r, a, b, matching)
    ensures Valid(g) && was <= g && Below(a, |g|) && Below(b, |g|) && Below(r, |g|) && IsConjunction(g, r, a, b)
  {
  }

  lemma ChosenParts(g: Nodes, h: Nodes, r: Edge, t: Edge, a: Edge, b: Edge)
    requires KnowsIte(g, h, r, t, a, b)
    ensures Valid(h) && g <= h && Below(t, |h|) && Below(a, |h|) && Below(b, |h|) && Below(r, |h|)
  {
  }

  lemma ConjunctionCommutes(was: Nodes, g: Nodes, r: Edge, a: Edge, b: Edge, matching: bool)
    requires KnowsAnd(was, g, r, a, b, matching)
    ensures KnowsAnd(was, g, r, b, a, matching)
  {
  }

  lemma ConstantAnd(g: Nodes, a: Edge, b: Edge, matching: bool)
    requires Valid(g) && Below(a, |g|) && Below(b, |g|) && IsConst(a)
    ensures KnowsAnd(g, g, if a == True then b else False, a, b, matching)
  {
  }

  lemma SameNodeAnd(g: Nodes, a: Edge, b: Edge, matching: bool)
    requires Valid(g) && Below(a, |g|) && Below(b, |g|) && SameNode(a, b)
    ensures KnowsAnd(g, g, if a.neg == b.neg then b else False, a, b, matching)
  {
    assert a == NegateIf(b, a.neg != b.neg);
    forall w: Assignment ensures Value(g, a, w) == (Value(g, b, w) != (a.neg != b.neg)) {
      NegateValue(g, b, a.neg != b.neg, w);
    }
  }

  lemma PlainAnd(was: Nodes, g: Nodes, id: nat, a: Edge, b: Edge, matching: bool)
    requires Valid(was) && Valid(g) && was <= g && Below(a, |was|) && Below(b, |was|)
    requires id < |g| && g[id] == Node(And, [a, b])
    ensures KnowsAnd(was, g, Link(id, false), a, b, matching)
  {
    AndWeight(g, id, a, b);
  }

  lemma MatchedExact(was: Nodes, g: Nodes, a: Edge, b: Edge, r: Edge)
    requires Valid(was) && was <= g && Below(a, |was|) && Below(b, |was|) && Matches(was, a, b)
    requires var m := FindMatch(was, a, b);
      && Below(m.test, |g|) && Below(m.thenEdge, |g|) && Below(m.elseEdge, |g|)
      && IteExact(g, r, m.test, m.thenEdge, m.elseEdge, true)
    ensures AndExact(g, Negate(r), a, b, true)
  {
    hide IteExact, ProperIteIs;
    var m := FindMatch(was, a, b);
    MatchMeans(was, a, b);
    ExactProper(g, r, m.test, m.thenEdge, m.elseEdge, true);
  }

  lemma PlainExact(was: Nodes, g: Nodes, r: Edge, a: Edge, b: Edge, matching: bool)
    requires was <= g && Below(a, |was|) && Below(b, |was|) && !(matching && Matches(was, a, b))
    requires IsPlainAnd(g, r, a, b)
    ensures AndExact(g, r, a, b, matching)
  {
  }

  /** Different nodes in the order of their tagged pointers are in the order of their addresses. */
  lemma InOrder(addr: seq<nat>, a: Edge, b: Edge)
    requires Addressed(addr) && Below(a, |addr|) && Below(b, |addr|) && Key(addr, a) <= Key(addr, b) && !SameNode(a, b)
    ensures StrictlySorted(addr, [a, b])
  {
    KeyOfNode(addr, a, b);
  }

  lemma MatchedAnd(was: Nodes, g: Nodes, a: Edge, b: Edge, r: Edge)
    requires Valid(was) && Below(a, |was|) && Below(b, |was|)
    requires BothNegatedAnds(was, a, b) && FindMatch(was, a, b).Matched?
    requires var m := FindMatch(was, a, b); KnowsIte(was, g, r, m.test, m.thenEdge, m.elseEdge)
    ensures KnowsAnd(was, g, Negate(r), a, b, true)
  {
    var m := FindMatch(was, a, b);
    MatchMeans(was, a, b);
    Grow(was, g, a);
    Grow(was, g, b);
    Grow(was, g, m.test);
    Grow(was, g, m.thenEdge);
    Grow(was, g, m.elseEdge);
    NegateWeight(g, r, true);
    forall w: Assignment ensures Value(g, Negate(r), w) == (Value(g, a, w) && Value(g, b, w)) {
      NegateValue(g, r, true, w);
    }
  }

  lemma NegatedTest(was: Nodes, g: Nodes, r: Edge, t: Edge, a: Edge, b: Edge)
    requires KnowsIte(was, g, r, Negate(t), b, a)
    ensures KnowsIte(was, g, r, t, a, b)
  {
    NegateWeight(g, t, true);
    forall w: Assignment ensures Value(g, Negate(t), w) != Value(g, t, w) {
      NegateValue(g, t, true, w);
    }
  }

  lemma NegatedBranches(was: Nodes, g: Nodes, r: Edge, t: Edge, a: Edge, b: Edge)
    requires KnowsIte(was, g, r, t, Negate(a), Negate(b))
    ensures KnowsIte(was, g, Negate(r), t, a, b)
  {
    NegateWeight(g, a, true);
    NegateWeight(g, b, true);
    NegateWeight(g, r, true);
    forall w: Assignment
      ensures Value(g, Negate(a), w) != Value(g, a, w) && Value(g, Negate(b), w) != Value(g, b, w)
      ensures Value(g, Negate(r), w) != Value(g, r, w)
    {
      NegateValue(g, a, true, w);
      NegateValue(g, b, true, w);
      NegateValue(g, r, true, w);
    }
  }

  lemma ComplementValues(g: Nodes, e: Edge)
    requires Valid(g) && Below(e, |g|)
    ensures forall w: Assignment :: Value(g, Negate(e), w) == !Value(g, e, w)
  {
    forall w: Assignment ensures Value(g, Negate(e), w) == !Value(g, e, w) {
      NegateValue(g, e, true, w);
    }
  }

  /** The complement of the conjunction of the complements. */
  lemma OrMeans(was: Nodes, g: Nodes, r: Edge, a: Edge, b: Edge, matching: bool)
    requires KnowsAnd(was, g, Negate(r), Negate(a), Negate(b), matching)
    ensures forall w: Assignment :: Value(g, r, w) == (Value(g, a, w) || Value(g, b, w))
  {
    ComplementValues(g, r);
    ComplementValues(g, a);
    ComplementValues(g, b);
  }

  lemma ImplMeans(was: Nodes, g: Nodes, r: Edge, a: Edge, b: Edge, matching: bool)
    requires KnowsAnd(was, g, Negate(r), a, Negate(b), matching)
    ensures forall w: Assignment :: Value(g, r, w) == (Value(g, a, w) ==> Value(g, b, w))
  {
    ComplementValues(g, r);
    ComplementValues(g, b);
  }

  lemma TrivialChoice(g: Nodes, t: Edge, a: Edge, b: Edge)
    requires Valid(g) && Below(t, |g|) && Below(a, |g|) && Below(b, |g|) && (t == True || a == b)
    ensures KnowsIte(g, g, a, t, a, b)
  {
  }

  lemma OrIsChoice(was: Nodes, g: Nodes, r: Edge, t: Edge, a: Edge, b: Edge, matching: bool)
    requires KnowsAnd(was, g, Negate(r), Negate(t), Negate(b), matching) && Below(r, |g|)
    requires a == True || t == a
    ensures KnowsIte(was, g, r, t, a, b)
  {
    hide Weight, AndBound, Simplified;
    ComplementValues(g, r);
    ComplementValues(g, t);
    ComplementValues(g, b);
  }

  lemma ImplIsChoice(was: Nodes, g: Nodes, r: Edge, t: Edge, a: Edge, b: Edge, matching: bool)
    requires KnowsAnd(was, g, Negate(r), t, Negate(a), matching) && Below(r, |g|)
    requires b == True || SameNodeOppSign(t, b)
    ensures KnowsIte(was, g, r, t, a, b)
  {
    hide Weight, AndBound, Simplified;
    ComplementValues(g, r);
    ComplementValues(g, a);
    if b != True {
      ComplementValues(g, b);
    }
  }

  lemma AndIsChoice(was: Nodes, g: Nodes, r: Edge, t: Edge, a: Edge, b: Edge, matching: bool)
    requires KnowsAnd(was, g, r, t, a, matching) && Below(b, |was|)
    requires b == False || t == b
    ensures KnowsIte(was, g, r, t, a, b)
  {
  }

  lemma IffIsChoice(was: Nodes, g: Nodes, r: Edge, t: Edge, a: Edge, b: Edge)
    requires Valid(was) && Valid(g) && was <= g && Below(t, |was|) && Below(a, |was|) && Below(b, |was|)
    requires r.Link? && !r.neg && r.id < |g| && (g[r.id] == Node(Iff, [t, a]) || g[r.id] == Node(Iff, [a, t]))
    requires SameNodeOppSign(a, b)
    ensures KnowsIte(was, g, r, t, a, b)
  {
    if g[r.id] == Node(Iff, [t, a]) {
      IffWeight(g, r.id, t, a);
    } else {
      IffWeight(g, r.id, a, t);
    }
    ComplementValues(g, b);
    NegateWeight(g, b, true);
  }

  lemma IteIsChoice(was: Nodes, g: Nodes, r: Edge, t: Edge, a: Edge, b: Edge)
    requires Valid(was) && Valid(g) && was <= g && Below(t, |was|) && Below(a, |was|) && Below(b, |was|)
    requires r.Link? && !r.neg && r.id < |g| && g[r.id] == Node(Ite, [t, a, b])
    ensures KnowsIte(was, g, r, t, a, b)
  {
    IteWeight(g, r.id, t, a, b);
  }

  // ----- conjunctions of many edges -----

  ghost predicate AllHold(g: Nodes, es: seq<Edge>, w: Assignment)
    requires Valid(g) && AllBelow(es, |g|)
  {
    forall i :: 0 <= i < |es| ==> Value(g, es[i], w)
  }

  ghost predicate SameElements(es: seq<Edge>, fs: seq<Edge>) {
    forall e :: e in es <==> e in fs
  }

  lemma SameElementsHold(g: Nodes, es: seq<Edge>, fs: seq<Edge>, w: Assignment)
    requires Valid(g) && AllBelow(es, |g|) && AllBelow(fs, |g|) && SameElements(es, fs)
    ensures AllHold(g, es, w) <==> AllHold(g, fs, w)
  {
    forall i | 0 <= i < |es| ensures es[i] in fs {
      assert es[i] in es;
    }
    forall i | 0 <= i < |fs| ensures fs[i] in es {
      assert fs[i] in fs;
    }
  }

  /** The sort key of an edge, total for use in sorting. */
  function Key(addr: seq<nat>, e: Edge): int {
    if Below(e, |addr|) then Tagged(addr, e) else -1
  }

  function ByKey(addr: seq<nat>): Edge -> int {
    e => Key(addr, e)
  }

  /** Sorted by address, no node twice. */
  ghost predicate StrictlySorted(addr: seq<nat>, es: seq<Edge>) {
    forall i, j :: 0 <= i < j < |es| ==> Key(addr, Positive(es[i])) < Key(addr, Positive(es[j]))
  }

  lemma KeyOfNode(addr: seq<nat>, e: Edge, f: Edge)
    requires Addressed(addr) && Below(e, |addr|) && Below(f, |addr|) && Key(addr, e) <= Key(addr, f)
    ensures SameNode(e, f) || Key(addr, Positive(e)) < Key(addr, Positive(f))
  {
  }

  lemma SingletonSorted(addr: seq<nat>, e: Edge)
    ensures StrictlySorted(addr, [e]) && SameElements([e], [e])
  {
  }

  lemma ExtendSorted(addr: seq<nat>, es: seq<Edge>, e: Edge)
    requires es != [] && StrictlySorted(addr, es) && Key(addr, Positive(es[|es| - 1])) < Key(addr, Positive(e))
    ensures StrictlySorted(addr, es + [e])
  {
  }

  lemma ExtendSame(es: seq<Edge>, fs: seq<Edge>, e: Edge)
    requires SameElements(es, fs)
    ensures SameElements(es + [e], fs + [e])
  {
  }

  lemma RepeatedElement(es: seq<Edge>, fs: seq<Edge>, e: Edge)
    requires SameElements(es, fs) && es != [] && es[|es| - 1] == e
    ensures SameElements(es, fs + [e])
  {
    assert e in es;
  }

  lemma SortedNeighbours(addr: seq<nat>, s: seq<Edge>, lo: nat, i: nat)
    requires lo < i < |s| && Sorting.SortedBetween(s, lo, |s|, ByKey(addr))
    ensures Key(addr, s[i - 1]) <= Key(addr, s[i])
  {
    assert ByKey(addr)(s[i - 1]) <= ByKey(addr)(s[i]);
  }

  ghost predicate HasConflict(es: seq<Edge>) {
    exists x :: x in es && Negate(x) in es
  }

  lemma ConflictFound(es: seq<Edge>, s: seq<Edge>, lo: nat, i: nat)
    requires lo <= i < |s| && es != [] && SameElements(es, s[lo..i])
    requires SameNode(es[|es| - 1], s[i]) && es[|es| - 1].neg != s[i].neg
    ensures HasConflict(s[lo..])
  {
    var x := es[|es| - 1];
    assert x in es && x in s[lo..i];
    var k :| 0 <= k < i - lo && s[lo..i][k] == x;
    assert s[lo..][k] == x && s[lo..][i - lo] == s[i] && Negate(x) == s[i];
  }

  /** `kept` is the stretch of `s` from `lo` up to `i` without repetitions. */
  ghost predicate Compacted(addr: seq<nat>, s: seq<Edge>, lo: nat, i: nat, kept: seq<Edge>) {
    && lo < i <= |s| && kept != [] && SameElements(kept, s[lo..i]) && StrictlySorted(addr, kept)
    && Below(kept[|kept| - 1], |addr|) && Key(addr, kept[|kept| - 1]) <= Key(addr, s[i - 1])
  }

  lemma CompactStarts(addr: seq<nat>, s: seq<Edge>, lo: nat)
    requires lo < |s| && Below(s[lo], |addr|)
    ensures Compacted(addr, s, lo, lo + 1, [s[lo]])
  {
    SingletonSorted(addr, s[lo]);
    assert s[lo..lo + 1] == [s[lo]];
  }

  lemma CompactEnds(addr: seq<nat>, s: seq<Edge>, lo: nat, kept: seq<Edge>)
    requires Compacted(addr, s, lo, |s|, kept)
    ensures SameElements(kept, s[lo..]) && StrictlySorted(addr, kept)
  {
    assert s[lo..|s|] == s[lo..];
  }

  /** The next edge is the last kept one again, or its complement, or a new one. */
  lemma CompactStep(addr: seq<nat>, s: seq<Edge>, lo: nat, i: nat, kept: seq<Edge>)
    requires i < |s| && Compacted(addr, s, lo, i, kept) && Addressed(addr) && Below(s[i], |addr|)
    requires Sorting.SortedBetween(s, lo, |s|, ByKey(addr))
    ensures var last := kept[|kept| - 1];
      if !SameNode(last, s[i]) then Compacted(addr, s, lo, i + 1, kept + [s[i]])
      else if last.neg != s[i].neg then HasConflict(s[lo..])
      else Compacted(addr, s, lo, i + 1, kept)
  {
    hide SameElements, StrictlySorted, Sorting.SortedBetween, Addressed, HasConflict;
    var last := kept[|kept| - 1];
    assert s[lo..i + 1] == s[lo..i] + [s[i]];
    SortedNeighbours(addr, s, lo, i);
    if !SameNode(last, s[i]) {
      KeyOfNode(addr, last, s[i]);
      ExtendSorted(addr, kept, s[i]);
      ExtendSame(kept, s[lo..i], s[i]);
    } else if last.neg != s[i].neg {
      ConflictFound(kept, s, lo, i);
    } else {
      RepeatedElement(kept, s[lo..i], s[i]);
    }
  }

  /** No node is there twice, and ANDs and IFFs have their arguments in the order of their addresses. */
  ghost predicate HashConsed(g: Nodes, addr: seq<nat>) {
    && NoRepeats(g)
    && forall i :: 0 <= i < |g| && g[i].op != Ite ==> StrictlySorted(addr, g[i].args)
  }

  /** Adding a node keeps the order by addresses. */
  lemma HashConsedGrows(g: Nodes, addr: seq<nat>, n: Node, a: nat)
    requires Valid(g) && |addr| == |g| && HashConsed(g, addr) && AllBelow(n.args, |g|)
    requires Find(g, n).None? && (n.op != Ite ==> StrictlySorted(addr, n.args))
    ensures HashConsed(g + [n], addr + [a])
  {
    hide Simplified;
    var h := g + [n];
    forall i | 0 <= i < |h| && h[i].op != Ite ensures StrictlySorted(addr + [a], h[i].args) {
      SortedLater(addr, a, h[i].args);
    }
  }

  lemma SortedLater(addr: seq<nat>, a: nat, es: seq<Edge>)
    requires AllBelow(es, |addr|) && StrictlySorted(addr, es)
    ensures StrictlySorted(addr + [a], es)
  {
    forall i, j | 0 <= i < j < |es| ensures Key(addr + [a], Positive(es[i])) < Key(addr + [a], Positive(es[j])) {
      assert Key(addr, Positive(es[i])) < Key(addr, Positive(es[j]));
    }
  }

  /** A node whose arguments come in address order is the same in either order of writing them. */
  lemma OneOrder(g: Nodes, addr: seq<nat>, i: nat, j: nat, op: Op, a: Edge, b: Edge)
    requires HashConsed(g, addr) && i < |g| && j < |g| && op != Ite
    requires g[i] == Node(op, [a, b]) || g[i] == Node(op, [b, a])
    requires g[j] == Node(op, [a, b]) || g[j] == Node(op, [b, a])
    ensures i == j
  {
    assert StrictlySorted(addr, g[i].args) && StrictlySorted(addr, g[j].args);
    assert [a, b][0] == a && [a, b][1] == b && [b, a][0] == b && [b, a][1] == a;
  }

  lemma StrictlySortedDistinct(addr: seq<nat>, es: seq<Edge>)
    requires StrictlySorted(addr, es)
    ensures forall i, j :: 0 <= i < j < |es| ==> !SameNode(es[i], es[j])
  {
  }

  /** `r` is the conjunction of the edges of `es`. */
  ghost predicate ConjunctionOf(g: Nodes, r: Edge, es: seq<Edge>) {
    && Valid(g) && Below(r, |g|) && AllBelow(es, |g|)
    && forall w: Assignment :: Value(g, r, w) <==> AllHold(g, es, w)
  }

  /** The edges of `es` other than true, once each and in the order of their addresses. */
  ghost predicate Distinct(addr: seq<nat>, ks: seq<Edge>, es: seq<Edge>) {
    StrictlySorted(addr, ks) && forall e :: e in ks <==> e in es && e != True
  }

  /** Which edge the conjunction of distinct operands in the order of their addresses is: the AND node of them
      all, but for two what the binary constructor makes of them. */
  ghost predicate DistinctAndIs(g: Nodes, r: Edge, ks: seq<Edge>, matching: bool)
    requires AllBelow(ks, |g|)
  {
    if ks == [] then r == True
    else if |ks| == 1 then r == ks[0]
    else if |ks| == 2 then AndExact(g, r, ks[0], ks[1], matching)
    else r.Link? && !r.neg && r.id < |g| && g[r.id] == Node(And, ks)
  }

  /** Which edge the conjunction of many edges is. */
  ghost predicate AndAllIs(g: Nodes, addr: seq<nat>, r: Edge, es: seq<Edge>, matching: bool) {
    if False in es || HasConflict(es) then r == False
    else exists ks :: Distinct(addr, ks, es) && AllBelow(ks, |g|) && DistinctAndIs(g, r, ks, matching)
  }

  lemma DistinctAnd(g: Nodes, addr: seq<nat>, r: Edge, ks: seq<Edge>, es: seq<Edge>, matching: bool)
    requires Distinct(addr, ks, es) && AllBelow(ks, |g|) && DistinctAndIs(g, r, ks, matching)
    requires False !in es && !HasConflict(es)
    ensures AndAllIs(g, addr, r, es, matching)
  {
  }

  lemma KeptAreDistinct(addr: seq<nat>, ks: seq<Edge>, es: seq<Edge>)
    requires StrictlySorted(addr, ks) && SameElements(ks, es) && forall i :: 0 <= i < |es| ==> !IsConst(es[i])
    ensures Distinct(addr, ks, es) && False !in es && !HasConflict(es)
  {
    if HasConflict(es) {
      var x :| x in es && Negate(x) in es;
      assert x in ks && Negate(x) in ks;
      var i :| 0 <= i < |ks| && ks[i] == x;
      var j :| 0 <= j < |ks| && ks[j] == Negate(x);
      ConflictApart(addr, ks, i, j);
    }
  }

  lemma ConflictApart(addr: seq<nat>, ks: seq<Edge>, i: nat, j: nat)
    requires StrictlySorted(addr, ks) && i < |ks| && j < |ks|
    ensures ks[j] != Negate(ks[i])
  {
    assert i < j ==> Key(addr, Positive(ks[i])) < Key(addr, Positive(ks[j]));
    assert j < i ==> Key(addr, Positive(ks[j])) < Key(addr, Positive(ks[i]));
  }

  /** True operands do not matter, nor do order and repetition. */
  lemma AndAllSame(g: Nodes, addr: seq<nat>, r: Edge, es: seq<Edge>, fs: seq<Edge>, matching: bool)
    requires AndAllIs(g, addr, r, es, matching) && forall e :: e != True ==> (e in es <==> e in fs)
    ensures AndAllIs(g, addr, r, fs, matching)
  {
    hide DistinctAndIs, StrictlySorted;
    ConflictSame(es, fs);
    if False !in es && !HasConflict(es) {
      var ks :| Distinct(addr, ks, es) && AllBelow(ks, |g|) && DistinctAndIs(g, r, ks, matching);
      assert Distinct(addr, ks, fs);
    }
  }

  lemma ConflictSame(es: seq<Edge>, fs: seq<Edge>)
    requires forall e :: e != True ==> (e in es <==> e in fs)
    ensures False in es || HasConflict(es) <==> False in fs || HasConflict(fs)
  {
    assert Negate(True) == False && Negate(False) == True;
    if False !in es && HasConflict(es) {
      var x :| x in es && Negate(x) in es;
      assert x != True && Negate(x) != True;
    }
    if False !in fs && HasConflict(fs) {
      var x :| x in fs && Negate(x) in fs;
      assert x != True && Negate(x) != True;
    }
  }

  lemma NoneIs(g: Nodes, addr: seq<nat>, es: seq<Edge>, matching: bool)
    requires Valid(g) && es == []
    ensures ConjunctionOf(g, True, es) && AndAllIs(g, addr, True, es, matching)
  {
    assert Distinct(addr, es, es) && DistinctAndIs(g, True, es, matching);
  }

  lemma OneIs(g: Nodes, addr: seq<nat>, e: Edge, es: seq<Edge>, matching: bool)
    requires Valid(g) && Below(e, |g|) && e != True && es == [e]
    ensures ConjunctionOf(g, e, es) && AndAllIs(g, addr, e, es, matching)
  {
    assert Distinct(addr, es, es) && DistinctAndIs(g, e, es, matching);
    assert e != False ==> False !in es && !HasConflict(es);
    assert es[0] == e;
  }

  lemma FalseIs(g: Nodes, addr: seq<nat>, es: seq<Edge>, matching: bool)
    requires Valid(g) && AllBelow(es, |g|) && es != [] && es[0] == False
    ensures ConjunctionOf(g, False, es) && AndAllIs(g, addr, False, es, matching)
  {
    assert False in es;
    forall w: Assignment ensures !AllHold(g, es, w) {
      assert !Value(g, es[0], w);
    }
  }

  lemma ConflictIs(g: Nodes, addr: seq<nat>, es: seq<Edge>, matching: bool)
    requires Valid(g) && AllBelow(es, |g|) && HasConflict(es)
    ensures ConjunctionOf(g, False, es) && AndAllIs(g, addr, False, es, matching)
  {
    ConflictIsFalse(g, es);
  }

  lemma KeptIs(g: Nodes, addr: seq<nat>, r: Edge, kept: seq<Edge>, all: seq<Edge>, matching: bool)
    requires StrictlySorted(addr, kept) && SameElements(kept, all) && kept != [] && AllBelow(kept, |g|)
    requires forall i :: 0 <= i < |all| ==> !IsConst(all[i])
    requires DistinctAndIs(g, r, kept, matching)
    ensures AndAllIs(g, addr, r, all, matching)
  {
    KeptAreDistinct(addr, kept, all);
    DistinctAnd(g, addr, r, kept, all, matching);
  }

  lemma TwoIs(g: Nodes, r: Edge, a: Edge, b: Edge, kept: seq<Edge>, matching: bool)
    requires Below(a, |g|) && Below(b, |g|) && AndExact(g, r, a, b, matching) && kept == [a, b]
    ensures AllBelow(kept, |g|) && DistinctAndIs(g, r, kept, matching)
  {
  }

  lemma ManyIs(g: Nodes, r: Edge, kept: seq<Edge>, matching: bool)
    requires Valid(g) && r.Link? && !r.neg && r.id < |g| && g[r.id] == Node(And, kept) && |kept| > 2
    ensures AllBelow(kept, |g|) && DistinctAndIs(g, r, kept, matching)
  {
  }

  lemma SoleIs(g: Nodes, r: Edge, kept: seq<Edge>, matching: bool)
    requires Below(r, |g|) && kept == [r]
    ensures AllBelow(kept, |g|) && DistinctAndIs(g, r, kept, matching)
  {
  }

  function Complemented(es: seq<Edge>): (ns: seq<Edge>)
    ensures |ns| == |es| && forall i :: 0 <= i < |es| ==> ns[i] == Negate(es[i])
  {
    seq(|es|, i requires 0 <= i < |es| => Negate(es[i]))
  }

  lemma NoConstants(addr: seq<nat>, s: seq<Edge>, lo: nat)
    requires Addressed(addr) && lo < |s| && AllBelow(s, |addr|)
    requires Sorting.SortedBetween(s, lo, |s|, ByKey(addr)) && !IsConst(s[lo])
    ensures forall i :: lo <= i < |s| ==> !IsConst(s[i])
  {
    forall i | lo <= i < |s| ensures !IsConst(s[i]) {
      if lo < i {
        assert ByKey(addr)(s[lo]) <= ByKey(addr)(s[i]);
        if IsConst(s[i]) {
          ConstantsFirst(addr, s[lo], s[i]);
        }
      }
    }
  }

  lemma {:induction false} ConflictIsFalse(g: Nodes, es: seq<Edge>)
    requires Valid(g) && AllBelow(es, |g|) && HasConflict(es)
    ensures ConjunctionOf(g, False, es)
  {
    var x :| x in es && Negate(x) in es;
    var i :| 0 <= i < |es| && es[i] == x;
    var j :| 0 <= j < |es| && es[j] == Negate(x);
    forall w: Assignment ensures !AllHold(g, es, w) {
      NegateValue(g, x, true, w);
      assert Value(g, es[i], w) != Value(g, es[j], w);
    }
  }

  lemma {:induction false} KeptAreProper(addr: seq<nat>, g: Nodes, n: nat, all: seq<Edge>, kept: seq<Edge>)
    requires SameElements(kept, all) && StrictlySorted(addr, kept) && AllBelow(all, |g|)
    requires forall i :: 0 <= i < |all| ==> !IsConst(all[i]) && (all[i].Leaf? ==> all[i].v <= n)
    ensures AllBelow(kept, |g|)
    ensures forall i :: 0 <= i < |kept| ==> !IsConst(kept[i]) && (kept[i].Leaf? ==> kept[i].v <= n)
    ensures forall i, j :: 0 <= i < j < |kept| ==> !SameNode(kept[i], kept[j])
  {
    StrictlySortedDistinct(addr, kept);
    forall i | 0 <= i < |kept|
      ensures Below(kept[i], |g|) && !IsConst(kept[i]) && (kept[i].Leaf? ==> kept[i].v <= n)
    {
      assert kept[i] in kept;
      var k :| 0 <= k < |all| && all[k] == kept[i];
    }
  }

  lemma {:induction false} SameConjunction(g: Nodes, r: Edge, kept: seq<Edge>, all: seq<Edge>)
    requires SameElements(kept, all) && ConjunctionOf(g, r, kept) && AllBelow(all, |g|)
    ensures ConjunctionOf(g, r, all)
  {
    forall w: Assignment ensures AllHold(g, kept, w) <==> AllHold(g, all, w) {
      SameElementsHold(g, kept, all, w);
    }
  }

  lemma {:induction false} OneIsAll(g: Nodes, r: Edge, kept: seq<Edge>, all: seq<Edge>)
    requires Valid(g) && kept == [r] && Below(r, |g|) && SameElements(kept, all) && AllBelow(all, |g|)
    ensures ConjunctionOf(g, r, all)
  {
    forall w: Assignment ensures AllHold(g, kept, w) <==> Value(g, r, w) {
      assert kept[0] == r;
    }
    SameConjunction(g, r, kept, all);
  }

  lemma {:induction false} TwoAreAll(g: Nodes, r: Edge, a: Edge, b: Edge, kept: seq<Edge>, all: seq<Edge>)
    requires Valid(g) && kept == [a, b] && Below(a, |g|) && Below(b, |g|) && Below(r, |g|)
    requires IsConjunction(g, r, a, b) && SameElements(kept, all) && AllBelow(all, |g|)
    ensures ConjunctionOf(g, r, all)
  {
    forall w: Assignment ensures AllHold(g, kept, w) <==> Value(g, a, w) && Value(g, b, w) {
      assert kept[0] == a && kept[1] == b;
    }
    SameConjunction(g, r, kept, all);
  }

  lemma {:induction false} NodeIsAll(g: Nodes, id: nat, kept: seq<Edge>, all: seq<Edge>)
    requires Valid(g) && id < |g| && g[id] == Node(And, kept) && SameElements(kept, all) && AllBelow(all, |g|)
    ensures ConjunctionOf(g, Link(id, false), all)
  {
    assert AllBelow(kept, id);
    SameConjunction(g, Link(id, false), kept, all);
  }

  lemma {:induction false} TrueDropped(g: Nodes, r: Edge, given: seq<Edge>, sorted: seq<Edge>, lo: nat)
    requires lo <= |sorted| && SameElements(given, sorted) && ConjunctionOf(g, r, sorted[lo..])
    requires forall k :: 0 <= k < lo ==> sorted[k] == True
    requires AllBelow(given, |g|) && AllBelow(sorted, |g|)
    ensures ConjunctionOf(g, r, given)
  {
    forall w: Assignment ensures AllHold(g, sorted, w) <==> AllHold(g, sorted[lo..], w) {
      forall k | 0 <= k < |sorted| && AllHold(g, sorted[lo..], w) ensures Value(g, sorted[k], w) {
        if k >= lo {
          assert sorted[lo..][k - lo] == sorted[k];
        }
      }
    }
    SameConjunction(g, r, sorted, given);
  }

  lemma {:induction false} TrueAside(g: Nodes, addr: seq<nat>, r: Edge, given: seq<Edge>, sorted: seq<Edge>, lo: nat,
                                     matching: bool)
    requires lo <= |sorted| && SameElements(given, sorted) && forall k :: 0 <= k < lo ==> sorted[k] == True
    requires AndAllIs(g, addr, r, sorted[lo..], matching)
    ensures AndAllIs(g, addr, r, given, matching)
  {
    hide AndAllIs;
    assert sorted == sorted[..lo] + sorted[lo..];
    forall e | e != True ensures e in sorted[lo..] <==> e in given {
      assert e in given <==> e in sorted;
    }
    AndAllSame(g, addr, r, sorted[lo..], given, matching);
  }

  lemma {:induction false} ComplementedAll(g: Nodes, r: Edge, es: seq<Edge>, ns: seq<Edge>)
    requires |es| == |ns| && (forall i :: 0 <= i < |es| ==> ns[i] == Negate(es[i])) && ConjunctionOf(g, r, ns)
    ensures AllBelow(es, |g|)
    ensures forall w: Assignment :: Value(g, Negate(r), w) <==> exists i :: 0 <= i < |es| && Value(g, es[i], w)
  {
    forall i | 0 <= i < |es| ensures Below(es[i], |g|) {
      assert Below(ns[i], |g|);
    }
    forall w: Assignment ensures Value(g, Negate(r), w) <==> exists i :: 0 <= i < |es| && Value(g, es[i], w) {
      NegateValue(g, r, true, w);
      forall i | 0 <= i < |es| ensures Value(g, ns[i], w) == !Value(g, es[i], w) {
        NegateValue(g, es[i], true, w);
      }
    }
  }

  // ----- the public interface -----

  class NiceSat {
    var nodes: Nodes
    var addr: seq<nat>
    var doMatching: bool
    var numMatches: int
    /** Variables allocated so far. */
    var vars: nat

    ghost predicate Ok()
      reads this
    {
      && Valid(nodes) && Addressed(addr) && |addr| == |nodes| && LeavesWithin(nodes, vars)
      && HashConsed(nodes, addr)
    }

    ghost predicate Knows(e: Edge)
      reads this
    {
      Below(e, |nodes|) && (e.Leaf? ==> e.v <= vars)
    }

    constructor ()
      ensures Ok() && nodes == [] && doMatching && vars == 0
    {
      nodes, addr, doMatching, numMatches, vars := [], [], true, 0, 0;
    }

    method CreateVar() returns (r: Edge)
      requires Ok()
      modifies this`vars
      ensures Ok() && vars == old(vars) + 1 && r == Leaf(vars, false) && Knows(r)
    {
      vars := vars + 1;
      r := Leaf(vars, false);
    }

    /** Some address that is not in use. */
    method Allocate() returns (a: nat)
      requires Addressed(addr)
      ensures a >= 4 && a % 4 == 0 && a !in addr
    {
      a := 4;
      for i := 0 to |addr|
        invariant a >= 4 && a % 4 == 0 && forall k :: 0 <= k < i ==> addr[k] < a
      {
        if addr[i] >= a {
          a := addr[i] + 4;
        }
      }
    }

    /** The unique node with this operator and these arguments. */
    method UNode(op: Op, args: seq<Edge>) returns (r: Edge)
      requires Ok() && (forall i :: 0 <= i < |args| ==> Knows(args[i])) && Simplified(Node(op, args))
      requires op != Ite ==> StrictlySorted(addr, args)
      modifies this`nodes, this`addr
      ensures Ok() && Knows(r) && nodes == Intern(old(nodes), Node(op, args))
      ensures r == Link(InternId(old(nodes), Node(op, args)), false)
      ensures old(nodes) <= nodes && r.id < |nodes| && nodes[r.id] == Node(op, args)
    {
      hide HashConsed, StrictlySorted;
      var n := Node(op, args);
      InternValid(nodes, n);
      r := Link(InternId(nodes, n), false);
      if Find(nodes, n).None? {
        var a := Allocate();
        HashConsedGrows(nodes, addr, n, a);
        nodes, addr := nodes + [n], addr + [a];
      }
    }

    /** The conjunction of two edges. */
    method CreateAnd(x: Edge, y: Edge) returns (r: Edge)
      requires Ok() && Knows(x) && Knows(y)
      modifies this`nodes, this`addr, this`numMatches
      ensures Ok() && Knows(r) && KnowsAnd(old(nodes), nodes, r, x, y, doMatching)
      ensures AndIs(nodes, r, x, y, doMatching)
      decreases Weight(nodes, x) + Weight(nodes, y), 1
    {
      hide KnowsAnd, HashConsed, StrictlySorted, AndExact;
      var a, b := x, y;
      if Tagged(addr, a) > Tagged(addr, b) {
        a, b := b, a;
      }
      if IsConst(a) {
        r := if a == True then b else False;
        ConstantAnd(nodes, a, b, doMatching);
      } else if SameNode(a, b) {
        r := if a.neg == b.neg then b else False;
        SameNodeAnd(nodes, a, b, doMatching);
      } else {
        if IsConst(b) {
          ConstantsFirst(addr, a, b);
        }
        InOrder(addr, a, b);
        r := CreateProperAnd(a, b);
        KnownParts(old(nodes), nodes, r, a, b, doMatching);
      }
      if a != x {
        ConjunctionCommutes(old(nodes), nodes, r, a, b, doMatching);
        AndIsCommutes(nodes, r, a, b, doMatching);
      }
    }

    /** The conjunction of two edges that no simplification applies to. */
    method CreateProperAnd(a: Edge, b: Edge) returns (r: Edge)
      requires Ok() && Knows(a) && Knows(b) && Proper(a, b) && StrictlySorted(addr, [a, b])
      modifies this`nodes, this`addr, this`numMatches
      ensures Ok() && Knows(r) && KnowsAnd(old(nodes), nodes, r, a, b, doMatching)
      ensures AndExact(nodes, r, a, b, doMatching)
      decreases Weight(nodes, a) + Weight(nodes, b), 0
    {
      hide KnowsAnd, KnowsIte, Value, Weight, HashConsed, StrictlySorted, IteExact, AndExact;
      if doMatching && BothNegatedAnds(nodes, a, b) {
        numMatches := numMatches + 1;
        var m := FindMatch(nodes, a, b);
        if m.Matched? {
          MatchMeans(nodes, a, b);
          r := CreateIte(m.test, m.thenEdge, m.elseEdge);
          MatchedAnd(old(nodes), nodes, a, b, r);
          MatchedExact(old(nodes), nodes, a, b, r);
          r := Negate(r);
          return;
        }
        numMatches := numMatches - 1;
      }
      r := UNode(And, [a, b]);
      PlainAnd(old(nodes), nodes, r.id, a, b, doMatching);
      PlainExact(old(nodes), nodes, r, a, b, doMatching);
    }

    method CreateOr(a: Edge, b: Edge) returns (r: Edge)
      requires Ok() && Knows(a) && Knows(b)
      modifies this`nodes, this`addr, this`numMatches
      ensures Ok() && Knows(r) && KnowsAnd(old(nodes), nodes, Negate(r), Negate(a), Negate(b), doMatching)
      ensures AndIs(nodes, Negate(r), Negate(a), Negate(b), doMatching)
      decreases Weight(nodes, a) + Weight(nodes, b), 2
    {
      r := CreateAnd(Negate(a), Negate(b));
      r := Negate(r);
    }

    method CreateImpl(a: Edge, b: Edge) returns (r: Edge)
      requires Ok() && Knows(a) && Knows(b)
      modifies this`nodes, this`addr, this`numMatches
      ensures Ok() && Knows(r) && KnowsAnd(old(nodes), nodes, Negate(r), a, Negate(b), doMatching)
      ensures AndIs(nodes, Negate(r), a, Negate(b), doMatching)
      decreases Weight(nodes, a) + Weight(nodes, b), 2
    {
      r := CreateAnd(a, Negate(b));
      r := Negate(r);
    }

    /** If-then-else with test and first branch uncomplemented. */
    method CreatePositiveIte(tst: Edge, tt: Edge, ff: Edge) returns (r: Edge)
      requires Ok() && Knows(tst) && Knows(tt) && Knows(ff) && !tst.neg && !tt.neg
      modifies this`nodes, this`addr, this`numMatches
      ensures Ok() && Knows(r) && KnowsIte(old(nodes), nodes, r, tst, tt, ff)
      ensures PositiveIteIs(nodes, r, tst, tt, ff, doMatching)
      decreases Weight(nodes, tst) + Weight(nodes, tt) + Weight(nodes, ff), 3
    {
      hide KnowsIte, KnowsAnd, AndExact, AndIs, HashConsed, StrictlySorted, Value, Weight, Addressed, LeavesWithin,
           IsIff, Valid;
      ghost var g := nodes;
      if tst == True {
        r := tt;
        TrivialChoice(g, tst, tt, ff);
      } else if tt == True || tst == tt {
        r := CreateOr(tst, ff);
        OrIsChoice(g, nodes, r, tst, tt, ff, doMatching);
      } else if ff == True || SameNodeOppSign(tst, ff) {
        r := CreateImpl(tst, tt);
        ImplIsChoice(g, nodes, r, tst, tt, ff, doMatching);
      } else if ff == False || tst == ff {
        r := CreateAnd(tst, tt);
        AndIsChoice(g, nodes, r, tst, tt, ff, doMatching);
      } else if tt == ff {
        r := tt;
        TrivialChoice(g, tst, tt, ff);
      } else if SameNodeOppSign(tt, ff) {
        r := CreateIffNode(tst, tt);
        IffIsChoice(g, nodes, r, tst, tt, ff);
      } else {
        r := UNode(Ite, [tst, tt, ff]);
        IteIsChoice(g, nodes, r, tst, tt, ff);
      }
    }

    method CreateIffNode(a: Edge, b: Edge) returns (r: Edge)
      requires Ok() && Knows(a) && Knows(b) && Proper(a, b) && !a.neg && !b.neg
      modifies this`nodes, this`addr
      ensures Ok() && Knows(r) && old(nodes) <= nodes && r.Link? && !r.neg && r.id < |nodes|
      ensures IsIff(nodes, r, a, b) && (nodes[r.id] == Node(Iff, [a, b]) || nodes[r.id] == Node(Iff, [b, a]))
    {
      if Tagged(addr, a) < Tagged(addr, b) {
        r := UNode(Iff, [a, b]);
      } else {
        r := UNode(Iff, [b, a]);
      }
    }

    /** If-then-else. */
    method CreateIte(test: Edge, thenEdge: Edge, elseEdge: Edge) returns (r: Edge)
      requires Ok() && Knows(test) && Knows(thenEdge) && Knows(elseEdge)
      modifies this`nodes, this`addr, this`numMatches
      ensures Ok() && Knows(r) && KnowsIte(old(nodes), nodes, r, test, thenEdge, elseEdge)
      ensures IteExact(nodes, r, test, thenEdge, elseEdge, doMatching)
      decreases Weight(nodes, test) + Weight(nodes, thenEdge) + Weight(nodes, elseEdge), 4
    {
      hide KnowsIte, HashConsed, IteExact, PositiveIteIs, Value, Weight, Addressed, LeavesWithin;
      var tst, tt, ff := test, thenEdge, elseEdge;
      if tst.neg {
        tst, tt, ff := Negate(tst), ff, tt;
        NegateWeight(nodes, test, true);
      }
      ghost var a, b := tt, ff;
      var negate := tt.neg;
      if negate {
        tt, ff := Negate(tt), Negate(ff);
        NegateWeight(nodes, a, true);
        NegateWeight(nodes, b, true);
      }
      r := CreatePositiveIte(tst, tt, ff);
      ChosenParts(old(nodes), nodes, r, tst, tt, ff);
      if negate {
        NegatedBranches(old(nodes), nodes, r, tst, a, b);
        r := Negate(r);
      }
      ExactNegatedBranches(nodes, r, tst, a, b, doMatching);
      if test.neg {
        NegatedTest(old(nodes), nodes, r, test, thenEdge, elseEdge);
        ExactNegatedTest(nodes, r, test, thenEdge, elseEdge, doMatching);
      }
    }

    /** Equivalence. */
    method CreatePositiveIff(lhs: Edge, rhs: Edge) returns (e: Edge)
      requires Ok() && Knows(lhs) && Knows(rhs) && !lhs.neg && !rhs.neg
      modifies this`nodes, this`addr
      ensures Ok() && Knows(e) && old(nodes) <= nodes
      ensures forall w: Assignment :: Value(nodes, e, w) == (Value(nodes, lhs, w) == Value(nodes, rhs, w))
      ensures IffIs(nodes, e, lhs, rhs)
    {
      if lhs == rhs {
        e := True;
      } else if Tagged(addr, lhs) < Tagged(addr, rhs) {
        if IsConst(lhs) {
          e := rhs;
        } else {
          if IsConst(rhs) { ConstantsFirst(addr, lhs, rhs); }
          e := UNode(Iff, [lhs, rhs]);
          IffWeight(nodes, e.id, lhs, rhs);
        }
      } else {
        if IsConst(rhs) {
          e := lhs;
        } else {
          if IsConst(lhs) { ConstantsFirst(addr, rhs, lhs); }
          e := UNode(Iff, [rhs, lhs]);
          IffWeight(nodes, e.id, rhs, lhs);
        }
      }
    }

    method CreateIff(a: Edge, b: Edge) returns (r: Edge)
      requires Ok() && Knows(a) && Knows(b)
      modifies this`nodes, this`addr
      ensures Ok() && Knows(r) && old(nodes) <= nodes
      ensures forall w: Assignment :: Value(nodes, r, w) == (Value(nodes, a, w) == Value(nodes, b, w))
      ensures IffIs(nodes, r, a, b)
    {
      var negate := a.neg != b.neg;
      var e := CreatePositiveIff(Positive(a), Positive(b));
      r := NegateIf(e, negate);
      forall w: Assignment ensures Value(nodes, r, w) == (Value(nodes, a, w) == Value(nodes, b, w)) {
        NegateValue(nodes, e, negate, w);
        NegateValue(nodes, a, a.neg, w);
        NegateValue(nodes, b, b.neg, w);
      }
    }

    /** Drop the repeated edges of a sorted stretch, unless some edge meets its complement. */
    static method Compact(addr: seq<nat>, args: array<Edge>, lo: nat) returns (end: nat, conflict: bool)
      requires Addressed(addr) && lo < args.Length && AllBelow(args[..], |addr|)
      requires Sorting.SortedBetween(args[..], lo, args.Length, ByKey(addr))
      modifies args
      ensures lo < end <= args.Length
      ensures conflict ==> HasConflict(old(args[lo..]))
      ensures !conflict ==> SameElements(args[lo..end], old(args[lo..])) && StrictlySorted(addr, args[lo..end])
    {
      hide Sorting.SortedBetween, Addressed, HasConflict, Compacted;
      ghost var s := args[..];
      var outIdx := lo;
      conflict := false;
      CompactStarts(addr, s, lo);
      ghost var kept := [s[lo]];
      for i := lo + 1 to args.Length
        invariant lo <= outIdx < i && |kept| == outIdx + 1 - lo
        invariant forall k :: i <= k < args.Length ==> args[k] == s[k]
        invariant forall k :: 0 <= k < |kept| ==> args[lo + k] == kept[k]
        invariant Compacted(addr, s, lo, i, kept)
      {
        assert Below(s[i], |addr|);
        CompactStep(addr, s, lo, i, kept);
        if SameNode(args[outIdx], args[i]) {
          if args[outIdx].neg != args[i].neg {
            end, conflict := outIdx + 1, true;
            return;
          }
        } else {
          outIdx := outIdx + 1;
          args[outIdx] := args[i];
          kept := kept + [s[i]];
        }
      }
      end := outIdx + 1;
      CompactEnds(addr, s, lo, kept);
      assert args[lo..end] == kept;
    }

    /** The conjunction of a sorted stretch that does not start with true. */
    method CreateAndSorted(args: array<Edge>, lo: nat) returns (r: Edge)
      requires Ok() && lo <= args.Length && forall i :: 0 <= i < args.Length ==> Knows(args[i])
      requires Sorting.SortedBetween(args[..], lo, args.Length, ByKey(addr))
      requires lo < args.Length ==> args[lo] != True
      modifies this`nodes, this`addr, this`numMatches, args
      ensures Ok() && old(nodes) <= nodes && Knows(r)
      ensures ConjunctionOf(nodes, r, old(args[lo..])) && AndAllIs(nodes, old(addr), r, old(args[lo..]), doMatching)
    {
      hide AndAllIs, DistinctAndIs, Distinct, AndExact, StrictlySorted, HashConsed, HasConflict, Value, Addressed,
           LeavesWithin, Sorting.SortedBetween;
      ghost var all := args[lo..];
      if lo == args.Length {
        NoneIs(nodes, addr, all, doMatching);
        return True;
      } else if lo + 1 == args.Length {
        OneIs(nodes, addr, args[lo], all, doMatching);
        return args[lo];
      } else if args[lo] == False {
        FalseIs(nodes, addr, all, doMatching);
        return False;
      }
      NoConstants(addr, args[..], lo);
      var end, conflict := Compact(addr, args, lo);
      ghost var kept := args[lo..end];
      if conflict {
        ConflictIs(nodes, addr, all, doMatching);
        r := False;
      } else {
        KeptAreProper(addr, nodes, vars, all, kept);
        if end == lo + 1 {
          r := args[lo];
          OneIsAll(nodes, r, kept, all);
          SoleIs(nodes, r, kept, doMatching);
        } else if end == lo + 2 {
          assert kept == [args[lo], args[lo + 1]];
          assert Knows(kept[0]) && Knows(kept[1]);
          r := CreateProperAnd(args[lo], args[lo + 1]);
          AndParts(old(nodes), nodes, r, args[lo], args[lo + 1], doMatching);
          TwoAreAll(nodes, r, args[lo], args[lo + 1], kept, all);
          TwoIs(nodes, r, args[lo], args[lo + 1], kept, doMatching);
        } else {
          r := UNode(And, args[lo..end]);
          NodeIsAll(nodes, r.id, kept, all);
          ManyIs(nodes, r, kept, doMatching);
        }
        KeptIs(nodes, old(addr), r, kept, all, doMatching);
      }
    }

    /** The conjunction of many edges; none if there are too many, in which case the program ends. */
    method CreateAndAll(args: array<Edge>) returns (r: Option<Edge>)
      requires Ok() && forall i :: 0 <= i < args.Length ==> Knows(args[i])
      modifies this`nodes, this`addr, this`numMatches, args
      ensures Ok() && old(nodes) <= nodes
      ensures r.None? <==> args.Length > 65535
      ensures r.Some? ==> Knows(r.value) && ConjunctionOf(nodes, r.value, old(args[..]))
      ensures r.Some? ==> AndAllIs(nodes, old(addr), r.value, old(args[..]), doMatching)
    {
      if args.Length > 65535 {
        return None;
      }
      ghost var given := args[..];
      Sorting.Sort(args, 0, args.Length, ByKey(addr));
      ghost var sorted := args[..];
      SortedKnown(given, sorted);
      var lo := 0;
      while lo < args.Length && args[lo] == True
        invariant lo <= args.Length && forall k :: 0 <= k < lo ==> args[k] == True
      {
        lo := lo + 1;
      }
      var e := CreateAndSorted(args, lo);
      TrueDropped(nodes, e, given, sorted, lo);
      TrueAside(nodes, old(addr), e, given, sorted, lo, doMatching);
      r := Some(e);
    }

    /** The disjunction of many edges. */
    method CreateOrAll(args: array<Edge>) returns (r: Option<Edge>)
      requires Ok() && forall i :: 0 <= i < args.Length ==> Knows(args[i])
      modifies this`nodes, this`addr, this`numMatches, args
      ensures Ok() && old(nodes) <= nodes
      ensures r.None? <==> args.Length > 65535
      ensures r.Some? ==> Knows(r.value) && AllBelow(old(args[..]), |nodes|)
      ensures r.Some? ==> forall w: Assignment ::
        Value(nodes, r.value, w) <==> exists i :: 0 <= i < args.Length && Value(nodes, old(args[..])[i], w)
      ensures r.Some? ==>
        AndAllIs(nodes, old(addr), Negate(r.value), Complemented(old(args[..])), doMatching)
    {
      ghost var given := args[..];
      for i := 0 to args.Length
        modifies args
        invariant forall k :: 0 <= k < args.Length ==> args[k] == if k < i then Negate(given[k]) else given[k]
      {
        args[i] := Negate(args[i]);
      }
      ghost var negated := args[..];
      assert negated == Complemented(given);
      forall i | 0 <= i < args.Length ensures Knows(args[i]) {
        assert Knows(given[i]);
      }
      r := CreateAndAll(args);
      if r.Some? {
        ComplementedAll(nodes, r.value, given, negated);
        r := Some(Negate(r.value));
      }
    }

    lemma SortedKnown(s: seq<Edge>, t: seq<Edge>)
      requires multiset(s) == multiset(t) && forall i :: 0 <= i < |s| ==> Knows(s[i])
      ensures SameElements(s, t) && forall i :: 0 <= i < |t| ==> Knows(t[i])
    {
      forall e ensures e in s <==> e in t {
        assert e in s <==> e in multiset(s);
        assert e in t <==> e in multiset(t);
      }
      forall i | 0 <= i < |t| ensures Knows(t[i]) {
        assert t[i] in t;
      }
    }
  }
}
