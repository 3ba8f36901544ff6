/** Signed edges, the nodes they point to, and what an edge means. */
module Dags {
  import opened Literals

  datatype Op = And | Ite | Iff

  /** `Leaf(0, _)` is a constant, `Leaf(v, _)` a variable, `Link(n, _)` node number `n`. */
  datatype Edge = Leaf(v: nat, neg: bool) | Link(id: nat, neg: bool)

  datatype Node = Node(op: Op, args: seq<Edge>)

  /** Nodes in order of creation. */
  type Nodes = seq<Node>

  const True: Edge := Leaf(0, false)
  const False: Edge := Leaf(0, true)

  function Negate(e: Edge): Edge {
    NegateIf(e, true)
  }

  function NegateIf(e: Edge, n: bool): Edge {
    match e
    case Leaf(v, neg) => Leaf(v, neg != n)
    case Link(id, neg) => Link(id, neg != n)
  }

  function Positive(e: Edge): Edge {
    NegateIf(e, e.neg)
  }

  predicate IsConst(e: Edge) { e.Leaf? && e.v == 0 }

  predicate SameNode(e: Edge, f: Edge) { Positive(e) == Positive(f) }

  predicate SameNodeOppSign(e: Edge, f: Edge) { e == Negate(f) }

  // ----- well-formed node tables -----

  predicate Below(e: Edge, n: nat) { e.Link? ==> e.id < n }

  ghost predicate AllBelow(es: seq<Edge>, n: nat) {
    forall i :: 0 <= i < |es| ==> Below(es[i], n)
  }

  /** What the constructors keep about the arguments of a node. */
  ghost predicate Simplified(n: Node) {
    && (forall i :: 0 <= i < |n.args| ==> !IsConst(n.args[i]))
    && (forall i, j :: 0 <= i < j < |n.args| ==> !SameNode(n.args[i], n.args[j]))
    && match n.op
       case And => |n.args| >= 2
       case Ite => |n.args| == 3 && !n.args[0].neg && !n.args[1].neg
       case Iff => |n.args| == 2 && !n.args[0].neg && !n.args[1].neg
  }

  /** Every node points to earlier nodes only, and is simplified. */
  ghost predicate Valid(g: Nodes) {
    forall i :: 0 <= i < |g| ==> AllBelow(g[i].args, i) && Simplified(g[i])
  }

  // ----- meaning -----

  function Height(e: Edge): nat {
    if e.Link? then e.id + 1 else 0
  }

  ghost function Value(g: Nodes, e: Edge, a: Assignment): bool
    requires Valid(g) && Below(e, |g|)
    decreases Height(e), 0
  {
    match e
    case Leaf(v, neg) => (v == 0 || v in a) != neg
    case Link(id, neg) => NodeValue(g, id, a) != neg
  }

  ghost function NodeValue(g: Nodes, id: nat, a: Assignment): bool
    requires Valid(g) && id < |g|
    decreases id, 1
  {
    var args := g[id].args;
    assert AllBelow(args, id) && Simplified(g[id]);
    match g[id].op
    case And => forall i :: 0 <= i < |args| ==> Value(g, args[i], a)
    case Ite => if Value(g, args[0], a) then Value(g, args[1], a) else Value(g, args[2], a)
    case Iff => Value(g, args[0], a) == Value(g, args[1], a)
  }

  lemma NegateValue(g: Nodes, e: Edge, n: bool, a: Assignment)
    requires Valid(g) && Below(e, |g|)
    ensures Value(g, NegateIf(e, n), a) == (Value(g, e, a) != n)
  {
  }

  lemma {:induction false} ValueExtends(g: Nodes, h: Nodes, e: Edge, a: Assignment)
    requires Valid(g) && Valid(h) && g <= h && Below(e, |g|)
    ensures Value(g, e, a) == Value(h, e, a)
    decreases Height(e)
  {
    if e.Link? {
      var args := g[e.id].args;
      assert g[e.id] == h[e.id];
      assert AllBelow(args, e.id) && Simplified(g[e.id]);
      forall i | 0 <= i < |args| ensures Value(g, args[i], a) == Value(h, args[i], a) {
        ValueExtends(g, h, args[i], a);
      }
    }
  }

  /** Equal meaning under every assignment. */
  ghost predicate Equivalent(g: Nodes, e: Edge, f: Edge)
    requires Valid(g) && Below(e, |g|) && Below(f, |g|)
  {
    forall a: Assignment :: Value(g, e, a) == Value(g, f, a)
  }

  // ----- weight -----

  /** A measure that drops from a node to its arguments, and from an ITE or IFF to its expansion. */
  ghost function Weight(g: Nodes, e: Edge): nat
    requires Valid(g) && Below(e, |g|)
    decreases Height(e), 0
  {
    if e.Leaf? then 0
    else
      var args := g[e.id].args;
      assert AllBelow(args, e.id) && Simplified(g[e.id]);
      match g[e.id].op
      case And => 1 + WeightOfAll(g, args, e.id)
      case Ite => 4 + 3 * Weight(g, args[0]) + Weight(g, args[1]) + Weight(g, args[2])
      case Iff => 4 + 3 * Weight(g, args[0]) + 3 * Weight(g, args[1])
  }

  ghost function WeightOfAll(g: Nodes, es: seq<Edge>, n: nat): nat
    requires Valid(g) && n <= |g| && AllBelow(es, n)
    decreases n, |es| + 1
  {
    if es == [] then 0 else Weight(g, es[0]) + WeightOfAll(g, es[1..], n)
  }

  lemma {:induction false} WeightExtends(g: Nodes, h: Nodes, e: Edge)
    requires Valid(g) && Valid(h) && g <= h && Below(e, |g|)
    ensures Weight(g, e) == Weight(h, e)
    decreases Height(e), 0
  {
    if e.Link? {
      var args := g[e.id].args;
      assert g[e.id] == h[e.id];
      assert AllBelow(args, e.id) && Simplified(g[e.id]);
      match g[e.id].op
      case And => WeightOfAllExtends(g, h, args, e.id);
      case Ite =>
        WeightExtends(g, h, args[0]);
        WeightExtends(g, h, args[1]);
        WeightExtends(g, h, args[2]);
      case Iff =>
        WeightExtends(g, h, args[0]);
        WeightExtends(g, h, args[1]);
    }
  }

  lemma {:induction false} WeightOfAllExtends(g: Nodes, h: Nodes, es: seq<Edge>, n: nat)
    requires Valid(g) && Valid(h) && g <= h && n <= |g| && AllBelow(es, n)
    ensures WeightOfAll(g, es, n) == WeightOfAll(h, es, n)
    decreases n, |es| + 1
  {
    if es != [] {
      WeightExtends(g, h, es[0]);
      WeightOfAllExtends(g, h, es[1..], n);
    }
  }

  lemma NegateWeight(g: Nodes, e: Edge, n: bool)
    requires Valid(g) && Below(e, |g|)
    ensures Weight(g, NegateIf(e, n)) == Weight(g, e)
  {
  }

  lemma {:induction false} WeightOfArg(g: Nodes, es: seq<Edge>, n: nat, i: nat)
    requires Valid(g) && n <= |g| && AllBelow(es, n) && i < |es|
    ensures Weight(g, es[i]) <= WeightOfAll(g, es, n)
    decreases |es|
  {
    if i > 0 {
      WeightOfArg(g, es[1..], n, i - 1);
    }
  }

  // ----- the variables of a table -----

  ghost predicate LeavesWithin(g: Nodes, n: nat) {
    forall i, k :: 0 <= i < |g| && 0 <= k < |g[i].args| && g[i].args[k].Leaf? ==> g[i].args[k].v <= n
  }

  ghost predicate SameInputs(a: Assignment, b: Assignment, n: nat) {
    forall v :: 1 <= v <= n ==> (v in a <==> v in b)
  }

  /** An edge's value depends on the input variables only. */
  lemma {:induction false} ValueOfInputs(g: Nodes, e: Edge, n: nat, a: Assignment, b: Assignment)
    requires Valid(g) && Below(e, |g|) && LeavesWithin(g, n) && (e.Leaf? ==> e.v <= n)
    requires SameInputs(a, b, n)
    ensures Value(g, e, a) == Value(g, e, b)
    decreases Height(e)
  {
    if e.Link? {
      var args := g[e.id].args;
      assert AllBelow(args, e.id) && Simplified(g[e.id]);
      forall i | 0 <= i < |args| ensures Value(g, args[i], a) == Value(g, args[i], b) {
        ValueOfInputs(g, args[i], n, a, b);
      }
    }
  }
}
