/** The annotations of the CNF pass as a state, and the steps that keep it consistent. */
module CnfStates {
  import opened Literals
  import opened CnfFormulas
  import opened Dags
  import opened CnfInvariants

  /** What a pointer annotation of a node can hold in one polarity. */
  datatype Annot =
    | Null
    | Semneg(id: nat)   // the node that means the complement
    | Proxy(l: int)     // a literal
    | Expr(e: Cnf)      // an expression

  type Counts = map<Edge, nat>
  type Annots = map<Edge, Annot>

  function CountOf(count: Counts, u: Edge): nat {
    if u in count then count[u] else 0
  }

  function AnnotOf(annot: Annots, u: Edge): Annot {
    if u in annot then annot[u] else Null
  }

  ghost predicate AreNegations(g: Nodes, m: nat, n: nat)
    requires Valid(g)
  {
    && IsAndLink(g, Link(m, false)) && IsAndLink(g, Link(n, false))
    && Equivalent(g, Link(m, true), Link(n, false))
  }

  /** An annotation of the use `u` is right; an expression with literals is there for one use only. */
  ghost predicate AnnotOk(p: Problem, log: Log, up: set<Edge>, count: nat, u: Edge, x: Annot)
    requires Sane(p) && MeaningOk(p, log.meaning)
  {
    && IsAndLink(p.nodes, u)
    && match x
       case Null => true
       case Semneg(m) => AreNegations(p.nodes, u.id, m)
       case Proxy(l) => u in up && l != 0 && Represents(p, log, u, Unit(l))
       case Expr(e) => u in up && WellFormed(e) && Represents(p, log, u, e) && (e.litSize != 0 ==> count == 1)
  }

  ghost predicate StateOk(p: Problem, log: Log, annot: Annots, up: set<Edge>, count: Counts)
    requires Sane(p)
  {
    && LogOk(p, log)
    && forall u :: u in annot ==> AnnotOk(p, log, up, CountOf(count, u), u, annot[u])
  }

  /** Every finished use that is still wanted has its expression or its proxy at hand. */
  ghost predicate Ready(annot: Annots, up: set<Edge>, count: Counts) {
    forall u :: u in up && CountOf(count, u) > 0 ==> AnnotOf(annot, u).Proxy? || AnnotOf(annot, u).Expr?
  }

  /** The log is extended, and the proxies are within the allocated variables. */
  ghost predicate VarsOk(p: Problem, log: Log, vars: nat) {
    p.inputs <= vars && forall v :: v in log.meaning ==> v <= vars
  }

  lemma StateLogGrows(p: Problem, log: Log, log': Log, annot: Annots, up: set<Edge>, count: Counts)
    requires Sane(p) && StateOk(p, log, annot, up, count)
    requires LogOk(p, log') && LogExtends(log, log')
    ensures StateOk(p, log', annot, up, count)
  {
    forall u | u in annot ensures AnnotOk(p, log', up, CountOf(count, u), u, annot[u]) {
      assert AnnotOk(p, log, up, CountOf(count, u), u, annot[u]);
      match annot[u]
      case Proxy(l) => RepresentsGrows(p, log, log', u, Unit(l));
      case Expr(e) => RepresentsGrows(p, log, log', u, e);
      case _ =>
    }
  }

  /** One use is consumed; its annotation may be taken away with the last one. */
  lemma StateConsume(p: Problem, log: Log, annot: Annots, up: set<Edge>, count: Counts, u: Edge, take: bool)
    requires Sane(p) && StateOk(p, log, annot, up, count)
    requires IsAndLink(p.nodes, u) && CountOf(count, u) > 0 && (take ==> CountOf(count, u) == 1)
    requires AnnotOf(annot, u).Expr? && AnnotOf(annot, u).e.litSize != 0 ==> take
    ensures StateOk(p, log, if take then annot[u := Null] else annot, up, count[u := CountOf(count, u) - 1])
  {
    var annot' := if take then annot[u := Null] else annot;
    var count' := count[u := CountOf(count, u) - 1];
    forall w | w in annot' ensures AnnotOk(p, log, up, CountOf(count', w), w, annot'[w]) {
      if w in annot {
        assert AnnotOk(p, log, up, CountOf(count, w), w, annot[w]);
      }
    }
  }

  /** A use receives a proxy. */
  lemma StateProxy(p: Problem, log: Log, annot: Annots, up: set<Edge>, count: Counts, u: Edge, l: int)
    requires Sane(p) && StateOk(p, log, annot, up, count)
    requires IsAndLink(p.nodes, u) && u in up && l != 0 && Represents(p, log, u, Unit(l))
    ensures StateOk(p, log, annot[u := Proxy(l)], up, count)
  {
  }

  /** A polarity of a node is finished with an annotation. */
  lemma StateFinish(p: Problem, log: Log, annot: Annots, up: set<Edge>, count: Counts, u: Edge, x: Annot)
    requires Sane(p) && StateOk(p, log, annot, up, count)
    requires AnnotOk(p, log, up + {u}, CountOf(count, u), u, x) && (x.Proxy? || x.Expr?)
    ensures StateOk(p, log, annot[u := x], up + {u}, count)
  {
    var annot', up' := annot[u := x], up + {u};
    forall w | w in annot' ensures AnnotOk(p, log, up', CountOf(count, w), w, annot'[w]) {
      if w != u {
        assert AnnotOk(p, log, up, CountOf(count, w), w, annot[w]);
      }
    }
  }

  lemma ListedSize(cs: seq<Clause>)
    requires GoodClauses(cs)
    ensures cs != [] ==> TotalSize(cs) >= 2
  {
    if cs != [] {
      assert cs[0] in cs;
    }
  }

  lemma SingleLiteral(e: Cnf)
    requires WellFormed(e) && e.litSize == 1
    ensures |e.singles| == 1 && e == Unit(e.singles[0]) && e.singles[0] != 0
  {
    ListedSize(e.clauses);
    assert e.singles[0] in e.singles;
  }

  /** Marking a use as finished does not touch what the annotations mean. */
  lemma StateMarked(p: Problem, log: Log, annot: Annots, up: set<Edge>, count: Counts, u: Edge)
    requires Sane(p) && StateOk(p, log, annot, up, count)
    ensures StateOk(p, log, annot, up + {u}, count)
  {
    forall w | w in annot ensures AnnotOk(p, log, up + {u}, CountOf(count, w), w, annot[w]) {
      assert AnnotOk(p, log, up, CountOf(count, w), w, annot[w]);
    }
  }

  /** The node uses in a bag of edges. */
  function UsesIn(bag: multiset<Edge>, x: Edge): nat {
    if x.Link? then bag[x] else 0
  }

  /** The uses of `bag` were consumed, each once. */
  ghost predicate Spent(before: Counts, after: Counts, bag: multiset<Edge>) {
    forall x :: CountOf(after, x) + UsesIn(bag, x) == CountOf(before, x)
  }

  /** Every argument of `u` that is a node is finished, and has a use left for each occurrence. */
  ghost predicate ArgsReady(p: Problem, up: set<Edge>, count: Counts, u: Edge)
    requires u.Link? && u.id < |p.nodes|
  {
    var rs := ResolvedArgs(p, u);
    forall i :: 0 <= i < |rs| && rs[i].Link? ==>
      && IsAndLink(p.nodes, rs[i]) && rs[i] in up && Negate(rs[i]) in up
      && multiset(rs)[rs[i]] <= CountOf(count, rs[i])
  }

  /** An argument still to be taken is finished and has a use left. */
  lemma ArgIsReady(p: Problem, up: set<Edge>, before: Counts, count: Counts, u: Edge,
                   x: Edge, done: multiset<Edge>, rest: multiset<Edge>)
    requires Sane(p) && IsAndLink(p.nodes, u) && ArgsReady(p, up, before, u)
    requires done + (rest + multiset{x}) == multiset(ResolvedArgs(p, u)) && Spent(before, count, done)
    ensures IsEdge(p, x)
    ensures x.Link? ==> IsAndLink(p.nodes, x) && x in up && Negate(x) in up && CountOf(count, x) > 0
  {
    var rs := ResolvedArgs(p, u);
    assert x in multiset(rs);
    var i :| 0 <= i < |rs| && rs[i] == x;
    ResolvedArg(p, u, i);
    if x.Link? {
      assert CountOf(count, x) + UsesIn(done, x) == CountOf(before, x);
    }
  }

  /** What producing a use consumes: its arguments, if it is wanted at all. */
  ghost function BagOf(p: Problem, count: Counts, u: Edge): multiset<Edge>
    requires u.Link? && u.id < |p.nodes|
  {
    if CountOf(count, u) > 0 then multiset(ResolvedArgs(p, u)) else multiset{}
  }

  ghost function NodeBag(p: Problem, count: Counts, id: nat): multiset<Edge>
    requires id < |p.nodes|
  {
    BagOf(p, count, Link(id, false)) + BagOf(p, count, Link(id, true))
  }

  /** Every node that producing `id` consumes is finished, with enough uses left. */
  ghost predicate NodeReady(p: Problem, up: set<Edge>, count: Counts, id: nat)
    requires id < |p.nodes|
  {
    BagReady(p, up, count, NodeBag(p, count, id))
  }

  ghost predicate BagReady(p: Problem, up: set<Edge>, count: Counts, bag: multiset<Edge>) {
    forall x :: x in bag && x.Link? ==>
      IsAndLink(p.nodes, x) && x in up && Negate(x) in up && bag[x] <= CountOf(count, x)
  }

  lemma NotOwnArgument(p: Problem, u: Edge, w: Edge)
    requires Sane(p) && IsAndLink(p.nodes, u) && w.Link? && w.id == u.id
    ensures w !in ResolvedArgs(p, u)
  {
    var rs := ResolvedArgs(p, u);
    forall i | 0 <= i < |rs| ensures rs[i] != w {
      ResolvedArg(p, u, i);
      NegateWeight(p.nodes, w, u.neg != w.neg);
    }
  }

  /** Producing one polarity leaves the other one wanted as before, and ready. */
  lemma OtherPolarity(p: Problem, up: set<Edge>, before: Counts, count: Counts, id: nat)
    requires Sane(p) && IsAndLink(p.nodes, Link(id, false)) && NodeReady(p, up, before, id)
    requires Spent(before, count, BagOf(p, before, Link(id, false)))
    ensures CountOf(count, Link(id, false)) == CountOf(before, Link(id, false))
    ensures CountOf(count, Link(id, true)) == CountOf(before, Link(id, true))
    ensures CountOf(before, Link(id, true)) > 0 ==> ArgsReady(p, up, count, Link(id, true))
  {
    var pos, neg := Link(id, false), Link(id, true);
    NotOwnArgument(p, pos, pos);
    NotOwnArgument(p, pos, neg);
    assert CountOf(count, pos) + UsesIn(BagOf(p, before, pos), pos) == CountOf(before, pos);
    assert CountOf(count, neg) + UsesIn(BagOf(p, before, pos), neg) == CountOf(before, neg);
    if CountOf(before, neg) > 0 {
      var rs := ResolvedArgs(p, neg);
      forall i | 0 <= i < |rs| && rs[i].Link?
        ensures IsAndLink(p.nodes, rs[i]) && rs[i] in up && Negate(rs[i]) in up
        ensures multiset(rs)[rs[i]] <= CountOf(count, rs[i])
      {
        var x := rs[i];
        assert x in multiset(rs) && x in NodeBag(p, before, id);
        assert CountOf(count, x) + UsesIn(BagOf(p, before, pos), x) == CountOf(before, x);
      }
    }
  }

  lemma FirstPolarity(p: Problem, up: set<Edge>, count: Counts, id: nat)
    requires Sane(p) && IsAndLink(p.nodes, Link(id, false)) && NodeReady(p, up, count, id)
    requires CountOf(count, Link(id, false)) > 0
    ensures ArgsReady(p, up, count, Link(id, false))
  {
    var rs := ResolvedArgs(p, Link(id, false));
    forall i | 0 <= i < |rs| && rs[i].Link?
      ensures IsAndLink(p.nodes, rs[i]) && rs[i] in up && Negate(rs[i]) in up
      ensures multiset(rs)[rs[i]] <= CountOf(count, rs[i])
    {
      assert rs[i] in multiset(rs) && rs[i] in NodeBag(p, count, id);
    }
  }

  lemma SpentBoth(p: Problem, c0: Counts, c1: Counts, c2: Counts, id: nat)
    requires Sane(p) && IsAndLink(p.nodes, Link(id, false))
    requires Spent(c0, c1, BagOf(p, c0, Link(id, false))) && Spent(c1, c2, BagOf(p, c0, Link(id, true)))
    ensures Spent(c0, c2, NodeBag(p, c0, id))
    ensures CountOf(c2, Link(id, false)) == CountOf(c0, Link(id, false))
    ensures CountOf(c2, Link(id, true)) == CountOf(c0, Link(id, true))
  {
    var pos, neg := Link(id, false), Link(id, true);
    forall x ensures CountOf(c2, x) + UsesIn(NodeBag(p, c0, id), x) == CountOf(c0, x) {
      assert CountOf(c1, x) + UsesIn(BagOf(p, c0, pos), x) == CountOf(c0, x);
      assert CountOf(c2, x) + UsesIn(BagOf(p, c0, neg), x) == CountOf(c1, x);
    }
    NotOwnArgument(p, pos, pos);
    NotOwnArgument(p, pos, neg);
    NotOwnArgument(p, neg, pos);
    NotOwnArgument(p, neg, neg);
    assert CountOf(c2, pos) + UsesIn(NodeBag(p, c0, id), pos) == CountOf(c0, pos);
    assert CountOf(c2, neg) + UsesIn(NodeBag(p, c0, id), neg) == CountOf(c0, neg);
  }

  ghost function Elements(bag: multiset<Edge>): set<Edge> {
    set x | x in bag
  }

  /** The arguments of `done` have been consumed into `accum`; those of `rest` are still to come. */
  ghost predicate Taken(p: Problem, log: Log, u: Edge, before: Counts, count: Counts,
                        done: multiset<Edge>, rest: multiset<Edge>, accum: Cnf)
    requires Sane(p) && MeaningOk(p, log.meaning) && IsAndLink(p.nodes, u)
  {
    && done + rest == multiset(ResolvedArgs(p, u))
    && Spent(before, count, done)
    && WellFormed(accum)
    && AreEdges(p, Elements(done)) && RepresentsAll(p, log, !u.neg, Elements(done), accum)
  }

  /** Before the loop, only the expression that was set aside is taken. */
  lemma StartTaken(p: Problem, log: Log, u: Edge, before: Counts, count: Counts,
                   largest: Option<Cnf>, x: Edge, rest: multiset<Edge>)
    returns (done: multiset<Edge>)
    requires Sane(p) && MeaningOk(p, log.meaning) && IsAndLink(p.nodes, u)
    requires var bag := if largest.Some? then multiset{x} else multiset{};
      rest + bag == multiset(ResolvedArgs(p, u)) && Spent(before, count, bag)
    requires largest.Some? ==> IsEdge(p, x) && WellFormed(largest.value) && Represents(p, log, x, largest.value)
    ensures Taken(p, log, u, before, count, done, rest,
                  if largest.Some? then largest.value else if u.neg then FALSE else TRUE)
  {
    if largest.Some? {
      done := multiset{x};
      OneRepresented(p, log, !u.neg, x, largest.value);
      assert Elements(done) == {x};
    } else {
      done := multiset{};
      NothingRepresented(p, log, !u.neg);
      assert Elements(done) == {};
    }
  }

  lemma TakenOneMore(p: Problem, log: Log, u: Edge, before: Counts, count: Counts, count': Counts,
                     done: multiset<Edge>, rest: multiset<Edge>, x: Edge, accum: Cnf)
    requires Sane(p) && MeaningOk(p, log.meaning) && IsAndLink(p.nodes, u)
    requires done + (rest + multiset{x}) == multiset(ResolvedArgs(p, u))
    requires Spent(before, count, done) && Spent(count, count', multiset{x})
    requires IsEdge(p, x) && AreEdges(p, Elements(done))
    requires WellFormed(accum) && RepresentsAll(p, log, !u.neg, Elements(done) + {x}, accum)
    ensures Taken(p, log, u, before, count', done + multiset{x}, rest, accum)
  {
    assert Elements(done + multiset{x}) == Elements(done) + {x};
    assert done + multiset{x} + rest == done + (rest + multiset{x});
    forall y ensures CountOf(count', y) + UsesIn(done + multiset{x}, y) == CountOf(before, y) {
      assert CountOf(count', y) + UsesIn(multiset{x}, y) == CountOf(count, y);
      assert CountOf(count, y) + UsesIn(done, y) == CountOf(before, y);
    }
  }

  lemma TakenAll(p: Problem, log: Log, u: Edge, before: Counts, count: Counts, done: multiset<Edge>, accum: Cnf)
    requires Sane(p) && MeaningOk(p, log.meaning) && IsAndLink(p.nodes, u)
    requires Taken(p, log, u, before, count, done, multiset{}, accum)
    ensures Represents(p, log, u, accum) && Spent(before, count, multiset(ResolvedArgs(p, u)))
    ensures WellFormed(accum)
  {
    var rs := ResolvedArgs(p, u);
    assert done == multiset(rs);
    assert Elements(done) == set x | x in rs;
    NodeRepresented(p, log, u, Elements(done), accum);
  }

  /** The literal found by looking at the other polarity, or at the node of the complement. */
  function ReusedProxy(annot: Annots, up: set<Edge>, u: Edge): int {
    var other := Negate(u);
    if other in up then
      (var x := AnnotOf(annot, other); if x.Proxy? then -x.l else 0)
    else
      match AnnotOf(annot, u)
      case Semneg(m) =>
        if Link(m, u.neg) in up then
          (var x := AnnotOf(annot, Link(m, u.neg)); if x.Proxy? then -x.l else 0)
        else if Link(m, !u.neg) in up then
          (var x := AnnotOf(annot, Link(m, !u.neg)); if x.Proxy? then x.l else 0)
        else 0
      case _ => 0
  }

  /** The finished use `x` has the proxy `l`. */
  ghost predicate Proxied(annot: Annots, up: set<Edge>, x: Edge, l: int) {
    x in up && AnnotOf(annot, x) == Proxy(l)
  }

  /** `l` can stand for `u`: the other polarity has the proxy `-l`; or that is not finished and, of the node that
      means the complement, the same polarity has `-l`, or is not finished while the other one has `l`. */
  ghost predicate Reusable(annot: Annots, up: set<Edge>, u: Edge, l: int) {
    || Proxied(annot, up, Negate(u), -l)
    || (Negate(u) !in up && AnnotOf(annot, u).Semneg? &&
        var m := AnnotOf(annot, u).id;
        || Proxied(annot, up, Link(m, u.neg), -l)
        || (Link(m, u.neg) !in up && Proxied(annot, up, Link(m, !u.neg), l)))
  }

  /** The literal `l` introduced for `u`: one that can stand for it if there is any, a new variable otherwise. */
  ghost predicate Introduced(annot: Annots, up: set<Edge>, u: Edge, l: int, before: nat, after: nat) {
    if exists k :: Reusable(annot, up, u, k) then Reusable(annot, up, u, l) && after == before
    else l == after == before + 1
  }

  /** A reused literal mirrors the use: across polarities, and between the two expansions of one ITE. One is
      found whenever there is one. */
  lemma ReusedProxyMirrors(p: Problem, log: Log, annot: Annots, up: set<Edge>, count: Counts, u: Edge)
    requires Sane(p) && StateOk(p, log, annot, up, count) && IsAndLink(p.nodes, u)
    ensures var l := ReusedProxy(annot, up, u); l != 0 ==> Mirrors(p, log.meaning, u, l)
    ensures forall k :: Reusable(annot, up, u, k) <==> k == ReusedProxy(annot, up, u) != 0
  {
    ProxiesNotZero(p, log, annot, up, count);
    var l := ReusedProxy(annot, up, u);
    var other := Negate(u);
    if l != 0 {
      if other in up {
        assert AnnotOk(p, log, up, CountOf(count, other), other, annot[other]);
        RepresentingMirrors(p, log, other, -l);
        MirrorsNegated(p, log.meaning, other, -l, u);
      } else {
        var m := annot[u].id;
        assert AnnotOk(p, log, up, CountOf(count, u), u, annot[u]);
        NegationsOfUse(p.nodes, u, m);
        if Link(m, u.neg) in up {
          var w := Link(m, u.neg);
          assert AnnotOk(p, log, up, CountOf(count, w), w, annot[w]);
          RepresentingMirrors(p, log, w, -l);
          MirrorsNegated(p, log.meaning, w, -l, u);
        } else {
          var w := Link(m, !u.neg);
          assert AnnotOk(p, log, up, CountOf(count, w), w, annot[w]);
          RepresentingMirrors(p, log, w, l);
          MirrorsEquivalent(p, log.meaning, w, l, u);
        }
      }
    }
  }

  lemma FoundOrNew(annot: Annots, up: set<Edge>, u: Edge, l: int, before: nat, after: nat)
    requires forall k :: Reusable(annot, up, u, k) <==> k == ReusedProxy(annot, up, u) != 0
    requires if ReusedProxy(annot, up, u) != 0 then l == ReusedProxy(annot, up, u) && after == before
      else l == after == before + 1
    ensures Introduced(annot, up, u, l, before, after)
  {
    hide Reusable, ReusedProxy;
  }

  lemma ProxiesNotZero(p: Problem, log: Log, annot: Annots, up: set<Edge>, count: Counts)
    requires Sane(p) && StateOk(p, log, annot, up, count)
    ensures forall x :: AnnotOf(annot, x).Proxy? ==> AnnotOf(annot, x).l != 0
  {
    forall x | AnnotOf(annot, x).Proxy? ensures AnnotOf(annot, x).l != 0 {
      assert AnnotOk(p, log, up, CountOf(count, x), x, annot[x]);
    }
  }

  /** Only finished uses have an expression. */
  lemma NoExpYet(p: Problem, log: Log, annot: Annots, up: set<Edge>, count: Counts, u: Edge)
    requires Sane(p) && StateOk(p, log, annot, up, count) && u !in up
    ensures !AnnotOf(annot, u).Expr?
  {
    assert u in annot ==> AnnotOk(p, log, up, CountOf(count, u), u, annot[u]);
  }

  lemma NegationsOfUse(g: Nodes, u: Edge, m: nat)
    requires Valid(g) && IsAndLink(g, u) && AreNegations(g, u.id, m)
    ensures Equivalent(g, Negate(Link(m, u.neg)), u)
    ensures Equivalent(g, Link(m, !u.neg), u)
  {
    forall a: Assignment ensures Value(g, Link(m, !u.neg), a) == Value(g, u, a) {
      assert Value(g, Link(u.id, true), a) == Value(g, Link(m, false), a);
    }
  }
}
