/** CNF expressions in memory: a singleton vector beside a singly linked list of clauses with head,
    tail and running totals, updated in place. Each operation is proved against its value. */
module CnfExpressions {
  import opened Literals
  import opened LitVectors
  import opened CnfFormulas
  import opened WriteBacks

  class Node {
    var lits: Clause
    var next: Node?

    constructor (lits: Clause, next: Node?)
      ensures this.lits == lits && this.next == next
    {
      this.lits, this.next := lits, next;
    }
  }

  /** Following `next` from `from` visits exactly `ns` and then reaches `to`. */
  ghost predicate Chain(ns: seq<Node>, from: Node?, to: Node?)
    reads ns`next
  {
    && (forall i, j :: 0 <= i < j < |ns| ==> ns[i] != ns[j])
    && from == Nth(ns, 0, to)
    && forall i :: 0 <= i < |ns| ==> ns[i].next == Nth(ns, i + 1, to)
  }

  ghost function Nth(ns: seq<Node>, i: nat, to: Node?): Node? {
    if i < |ns| then ns[i] else to
  }

  lemma NthOutside(ns: seq<Node>, i: nat, to: Node?)
    requires to == null || to !in ns
    ensures Nth(ns, i, to) == to <==> i >= |ns|
  {
  }

  ghost function Lits(ns: seq<Node>): (cs: seq<Clause>)
    reads ns`lits
    ensures |cs| == |ns| && forall i :: 0 <= i < |ns| ==> cs[i] == ns[i].lits
  {
    if ns == [] then [] else [ns[0].lits] + Lits(ns[1..])
  }

  lemma LitsNil()
    ensures Lits([]) == []
  {
  }

  ghost function Last(ns: seq<Node>): Node? {
    if ns == [] then null else ns[|ns| - 1]
  }

  ghost predicate Among(ns: seq<Node>, ms: seq<Node>) {
    forall n :: n in ns ==> n in ms
  }

  ghost predicate Apart(ns: seq<Node>, ms: seq<Node>) {
    forall n :: n in ns ==> n !in ms
  }

  lemma ChainPrepended(n: Node, ns: seq<Node>)
    requires Chain(ns, n.next, null) && n !in ns
    ensures Chain([n] + ns, n, null)
    ensures Last([n] + ns) == if ns == [] then n else Last(ns)
    ensures Lits([n] + ns) == [n.lits] + Lits(ns)
  {
    var ms := [n] + ns;
    assert ms[1..] == ns;
    forall i | 0 <= i < |ms| ensures ms[i].next == Nth(ms, i + 1, null) {
      assert Nth(ms, i + 1, null) == Nth(ns, i, null);
    }
  }

  lemma PushRowStep(k: Joining, cs: seq<Clause>, i: nat, d: Clause, acc: seq<Clause>)
    requires i <= |cs| && (k.OneLiteral? ==> |d| == 1)
    ensures PushRow(k, cs[i..], d, acc)
            == if i == |cs| then acc else PushRow(k, cs[i + 1..], d, Push(Join(k, cs[i], d), acc))
  {
    if i < |cs| {
      assert cs[i..][1..] == cs[i + 1..];
    }
  }

  lemma ChainAt(ns: seq<Node>, from: Node?, to: Node?, i: nat)
    requires Chain(ns, from, to) && i <= |ns|
    ensures from == Nth(ns, 0, to)
    ensures i < |ns| ==> ns[i].next == Nth(ns, i + 1, to)
  {
  }

  /** What one joined clause contributes. */
  function Kept(c: Clause): seq<Clause> {
    if c == [] then [] else [c]
  }

  lemma KeepRowStep(k: Joining, cs: seq<Clause>, i: nat, d: Clause, out: seq<Clause>)
    requires i < |cs| && (k.OneLiteral? ==> |d| == 1)
    ensures out + KeepRow(k, cs[i..], d) == out + Kept(Join(k, cs[i], d)) + KeepRow(k, cs[i + 1..], d)
    ensures cs[i..][0] == cs[i] && cs[i..][1..] == cs[i + 1..]
    ensures TotalSize(cs[i..]) == |cs[i]| + TotalSize(cs[i + 1..])
  {
    hide Join;
    assert cs[i..][1..] == cs[i + 1..];
  }

  lemma KeepRowEnd(k: Joining, cs: seq<Clause>, d: Clause, out: seq<Clause>)
    requires k.OneLiteral? ==> |d| == 1
    ensures out + KeepRow(k, cs[|cs|..], d) == out && TotalSize(cs[|cs|..]) == 0
  {
  }

  /** A list up to its last node. */
  lemma ChainInit(ns: seq<Node>, from: Node?)
    requires Chain(ns, from, null) && ns != []
    ensures Chain(ns[..|ns| - 1], from, Last(ns)) && Last(ns) !in ns[..|ns| - 1]
  {
    hide Lits;
    var ms := ns[..|ns| - 1];
    forall i | 0 <= i < |ms| ensures ms[i].next == Nth(ms, i + 1, Last(ns)) {
      assert ms[i] == ns[i] && Nth(ms, i + 1, Last(ns)) == Nth(ns, i + 1, null);
    }
  }

  lemma LitsInit(ns: seq<Node>)
    requires ns != []
    ensures Lits(ns[..|ns| - 1]) == Lits(ns)[..|ns| - 1] && Last(ns).lits == Lits(ns)[|ns| - 1]
  {
  }

  lemma ChainNil(from: Node?)
    ensures Chain([], from, from)
  {
  }

  /** The first node of a list is not among the others, which form a list again. */
  lemma ChainTail(ns: seq<Node>, from: Node?)
    requires Chain(ns, from, null) && ns != []
    ensures from == ns[0] && ns[0] !in ns[1..] && Chain(ns[1..], ns[0].next, null)
  {
    forall i | 0 <= i < |ns[1..]| ensures ns[1..][i].next == Nth(ns[1..], i + 1, null) {
      assert ns[1..][i] == ns[i + 1];
    }
  }

  /** A node that the last one leads to, added behind it. */
  lemma ChainExtended(ns: seq<Node>, from: Node?, n: Node)
    requires Chain(ns, from, n) && n !in ns
    ensures Chain(ns + [n], from, n.next)
    ensures Lits(ns + [n]) == Lits(ns) + [n.lits]
  {
    var ms := ns + [n];
    forall i | 0 <= i < |ms| ensures ms[i].next == Nth(ms, i + 1, n.next) {
      assert i < |ns| ==> ms[i] == ns[i] && Nth(ms, i + 1, n.next) == Nth(ns, i + 1, n);
    }
  }

  lemma TotalSizeNil()
    ensures TotalSize([]) == 0
  {
  }

  lemma CountKept(n: Node, ns: seq<Node>)
    ensures TotalSize(Lits(ns + [n])) == TotalSize(Lits(ns)) + |n.lits|
    ensures Lits(ns + [n]) == Lits(ns) + [n.lits]
  {
    TotalSizeConcat(Lits(ns), [n.lits]);
    assert Lits(ns + [n]) == Lits(ns) + [n.lits];
  }

  /** Making the last node lead elsewhere, to a list apart. */
  method Redirect(h: Node?, prev: Node?, to: Node?, ghost ns: seq<Node>, ghost was: Node?, ghost ms: seq<Node>)
    returns (h': Node?)
    requires Chain(ns, h, was) && prev == Last(ns) && Chain(ms, to, null) && Apart(ms, ns)
    modifies ns`next
    ensures Chain(ns, h', to) && Chain(ms, to, null)
  {
    h' := h;
    if prev == null {
      h' := to;
    } else {
      forall i | 0 <= i < |ms| ensures ms[i] != prev {
        assert ms[i] in ms;
      }
      prev.next := to;
    }
  }

  lemma ChainJoined(ns: seq<Node>, h: Node?, ms: seq<Node>, m: Node?)
    requires Chain(ns, h, m) && Chain(ms, m, null) && Apart(ns, ms)
    ensures Chain(ns + ms, h, null)
    ensures Last(ns + ms) == if ms == [] then Last(ns) else Last(ms)
  {
    var x := ns + ms;
    forall i | 0 <= i < |x| ensures x[i].next == Nth(x, i + 1, null) {
      if i < |ns| {
        assert Nth(x, i + 1, null) == Nth(ns, i + 1, m);
      } else {
        assert x[i] == ms[i - |ns|] && Nth(x, i + 1, null) == Nth(ms, i - |ns| + 1, null);
      }
    }
    forall i, j | 0 <= i < j < |x| ensures x[i] != x[j] {
      if j < |ns| {
        assert x[i] == ns[i] && x[j] == ns[j];
      } else if i < |ns| {
        assert x[i] == ns[i] && x[j] == ms[j - |ns|] && ns[i] in ns && ms[j - |ns|] in ms;
      } else {
        assert x[i] == ms[i - |ns|] && x[j] == ms[j - |ns|];
      }
    }
  }

  lemma LitsJoined(ns: seq<Node>, ms: seq<Node>)
    ensures Lits(ns + ms) == Lits(ns) + Lits(ms)
  {
  }

  /** A walk over the list `ns` that stands at `iter`, index `i`, and has kept the nodes `kept`. */
  ghost predicate Walking(ns: seq<Node>, i: nat, iter: Node?, kept: seq<Node>, h: Node?, t: Node?)
    reads kept`next, ns`next
  {
    && i <= |ns| && Chain(kept, h, iter) && Chain(ns[i..], iter, null) && t == Last(kept)
    && Apart(ns[i..], kept) && Among(kept, ns)
  }

  lemma WalkStarts(ns: seq<Node>, from: Node?)
    requires Chain(ns, from, null)
    ensures Walking(ns, 0, from, [], from, null)
  {
    assert ns[0..] == ns;
  }

  lemma WalkEnds(ns: seq<Node>, i: nat, iter: Node?, kept: seq<Node>, h: Node?, t: Node?)
    requires Walking(ns, i, iter, kept, h, t)
    ensures iter == null <==> i == |ns|
    ensures i < |ns| ==> iter == ns[i]
    ensures Among(kept, ns)
  {
    assert iter == Nth(ns[i..], 0, null);
  }

  lemma WalkOpens(ns: seq<Node>, i: nat, iter: Node?, kept: seq<Node>, h: Node?, t: Node?)
    requires Walking(ns, i, iter, kept, h, t) && i < |ns|
    ensures ns[i..][1..] == ns[i + 1..] && ns[i..][0] == iter && iter in ns
    ensures Chain(kept, h, iter) && Chain(ns[i..], iter, null) && t == Last(kept)
    ensures Apart(ns[i..], kept) && Among(kept, ns)
    ensures Lits(ns[i..]) == [ns[i].lits] + Lits(ns[i + 1..])
  {
    assert iter == Nth(ns[i..], 0, null);
    assert ns[i..][1..] == ns[i + 1..];
  }

  lemma WalkCloses(ns: seq<Node>, i: nat, iter: Node, kept: seq<Node>, next: Node?, kept': seq<Node>, h: Node?,
                   t: Node?)
    requires i < |ns| && ns[i] == iter && ns[i..][1..] == ns[i + 1..]
    requires Apart(ns[i..], kept) && Among(kept, ns) && iter !in ns[i + 1..]
    requires kept' == kept || kept' == kept + [iter]
    requires Chain(kept', h, next) && Chain(ns[i + 1..], next, null) && t == Last(kept')
    ensures Walking(ns, i + 1, next, kept', h, t)
  {
    TailIn(ns[i..]);
  }

  lemma WalkDone(ns: seq<Node>, iter: Node?, kept: seq<Node>, h: Node?, t: Node?)
    requires Walking(ns, |ns|, iter, kept, h, t)
    ensures Chain(kept, h, null) && t == Last(kept) && Among(kept, ns)
  {
  }

  /** Join one clause of a list with `d` where it stands, and unlink it when that is a tautology. */
  method JoinNode(k: Joining, d: Clause, h: Node?, prev: Node?, iter: Node, ghost done: seq<Node>,
                  ghost todo: seq<Node>)
      returns (h': Node?, prev': Node?, next: Node?, ghost done': seq<Node>)
    requires Chain(done, h, iter) && Chain(todo, iter, null) && todo != [] && prev == Last(done) && Apart(todo, done)
    requires k.OneLiteral? ==> |d| == 1
    modifies iter`lits, done`next
    ensures iter == todo[0] && iter !in done && iter !in todo[1..]
    ensures iter.lits == Join(k, old(iter.lits), d)
    ensures done' == done + if iter.lits == [] then [] else [iter]
    ensures prev' == Last(done') && Chain(done', h', next) && Chain(todo[1..], next, null)
    ensures Lits(done) == old(Lits(done)) && Lits(todo[1..]) == old(Lits(todo[1..]))
  {
    hide Chain, Join, Lits;
    ChainTail(todo, iter);
    TailIn(todo);
    iter.lits := Join(k, iter.lits, d);
    h', prev', next, done' := h, prev, iter.next, done;
    if iter.lits == [] {
      h' := Redirect(h, prev, next, done, iter, todo[1..]);
    } else {
      prev', done' := iter, done + [iter];
      ChainExtended(done, h, iter);
    }
  }

  // ----- one step of each row, of the pairs and of the matches -----

  ghost predicate AllSingle(ds: seq<Clause>) {
    forall d :: d in ds ==> |d| == 1
  }

  lemma PushRowsStep(k: Joining, cs: seq<Clause>, ds: seq<Clause>, i: nat, acc: seq<Clause>)
    requires i < |ds| && (k.OneLiteral? ==> AllSingle(ds[i..]))
    ensures k.OneLiteral? ==> AllSingle(ds[i + 1..]) && |ds[i]| == 1
    ensures PushRows(k, cs, ds[i..], acc) == PushRows(k, cs, ds[i + 1..], CnfFormulas.PushRow(k, cs, ds[i], acc))
  {
    assert ds[i..][1..] == ds[i + 1..] && ds[i..][0] == ds[i];
    TailIn(ds[i..]);
  }

  lemma PushRowsEnd(k: Joining, cs: seq<Clause>, ds: seq<Clause>, acc: seq<Clause>)
    requires k.OneLiteral? ==> AllSingle(ds[|ds|..])
    ensures PushRows(k, cs, ds[|ds|..], acc) == acc
  {
  }

  lemma {:induction false} PushRowsNone(k: Joining, ds: seq<Clause>, acc: seq<Clause>)
    requires k.OneLiteral? ==> AllSingle(ds)
    ensures PushRows(k, [], ds, acc) == acc
    decreases |ds|
  {
    if ds != [] {
      TailIn(ds);
      PushRowsNone(k, ds[1..], acc);
    }
  }

  lemma CrossStep(s: Clause, u: Clause, i: nat, m: Clause, acc: seq<Clause>)
    requires i < |s|
    ensures m + AllMatches(s[i..], u) == m + Matches(s[i], u) + AllMatches(s[i + 1..], u)
    ensures PushAllPairs(s[i..], u, acc) == PushAllPairs(s[i + 1..], u, PushPairs(s[i], u, acc))
  {
    assert s[i..][1..] == s[i + 1..] && s[i..][0] == s[i];
  }

  lemma CrossEnd(s: Clause, u: Clause, m: Clause, acc: seq<Clause>)
    ensures m + AllMatches(s[|s|..], u) == m && PushAllPairs(s[|s|..], u, acc) == acc
  {
  }

  lemma {:induction false} CrossNone(s: Clause, acc: seq<Clause>)
    ensures AllMatches(s, []) == [] && PushAllPairs(s, [], acc) == acc
    decreases |s|
  {
    if s != [] {
      CrossNone(s[1..], acc);
    }
  }

  lemma PairStep(l: int, u: Clause, j: nat, m: Clause, acc: seq<Clause>)
    requires j < |u| && Matches(l, u) == m + Matches(l, u[j..])
    ensures m + Matches(l, u[j..]) == m + (if u[j] == l then [l] else []) + Matches(l, u[j + 1..])
    ensures PushPairs(l, u[j..], acc)
            == PushPairs(l, u[j + 1..], if l == u[j] || l == -u[j] then acc else Push(Pair(l, u[j]), acc))
  {
    assert u[j..][1..] == u[j + 1..] && u[j..][0] == u[j];
  }

  lemma PairEnd(l: int, u: Clause, m: Clause, acc: seq<Clause>)
    ensures m + Matches(l, u[|u|..]) == m && PushPairs(l, u[|u|..], acc) == acc
  {
  }

  // ----- the cross product in two parts -----

  /** `cs` against every clause and singleton of `x` but the one that is joined in place. */
  ghost function AllButLast(cs: seq<Clause>, x: Cnf): seq<Clause> {
    if x.singles != [] then
      PushRows(OneLiteral, cs, Units(x.singles[1..]), PushRows(Fresh, cs, x.clauses, []))
    else if x.clauses != [] then PushRows(Fresh, cs, x.clauses[..|x.clauses| - 1], [])
    else []
  }

  ghost function LastJoined(cs: seq<Clause>, x: Cnf): seq<Clause> {
    if x.singles != [] then CnfFormulas.KeepRow(OneLiteral, cs, [x.singles[0]])
    else if x.clauses != [] then CnfFormulas.KeepRow(InPlace, cs, x.clauses[|x.clauses| - 1])
    else []
  }

  lemma CrossSplit(e: Cnf, x: Cnf)
    ensures CrossProduct(e, x)
      == Make(AllMatches(e.singles, x.singles),
              PushAllPairs(e.singles, x.singles,
                           PushRows(OneLiteral, x.clauses, Units(e.singles),
                                    LastJoined(e.clauses, x) + AllButLast(e.clauses, x))))
  {
    hide PushRows, KeepRow;
    assert CrossListed(e, x) == LastJoined(e.clauses, x) + AllButLast(e.clauses, x);
  }

  lemma LiteralStep(k: int, l: int, acc: seq<Clause>)
    ensures Matches(k, [l]) == if k == l then [l] else []
    ensures PushPairs(k, [l], acc) == if k == l || k == -l then acc else Push(Pair(k, l), acc)
  {
    assert [l][1..] == [];
  }

  lemma NoListed(e: Cnf)
    requires WellFormed(e) && e.litSize == 0
    ensures e.singles == [] && e.clauses == []
  {
    assert e.clauses != [] ==> GoodClause(e.clauses[0]);
  }

  lemma AddToNothing(l: int)
    ensures AddLit([], l) == [l]
  {
  }

  lemma ReverseStep(cs: seq<Clause>, i: nat, acc: seq<Clause>)
    requires i < |cs|
    ensures Reverse(cs[i..]) + acc == Reverse(cs[i + 1..]) + ([cs[i]] + acc)
    ensures TotalSize(cs[i..]) == |cs[i]| + TotalSize(cs[i + 1..])
  {
    assert cs[i..][1..] == cs[i + 1..] && cs[i..][0] == cs[i];
    assert Reverse(cs[i + 1..]) + [cs[i]] + acc == Reverse(cs[i + 1..]) + ([cs[i]] + acc);
  }

  lemma ReverseEnd(cs: seq<Clause>, acc: seq<Clause>)
    ensures Reverse(cs[|cs|..]) + acc == acc && TotalSize(cs[|cs|..]) == 0
  {
    assert cs[|cs|..] == [];
    assert Reverse<Clause>([]) + acc == acc;
  }

  // ----- conjunction -----

  /** What copying `cs` in front of `acc` leaves uncounted. */
  ghost function Lost(acc: seq<Clause>, cs: seq<Clause>): seq<Clause> {
    if acc == [] && cs != [] then [cs[0]] else []
  }

  lemma LitsTail(ns: seq<Node>)
    requires ns != []
    ensures Lits(ns) == [ns[0].lits] + Lits(ns[1..]) && Lits(ns[1..]) == Lits(ns)[1..]
    ensures Lost([], Lits(ns)) == [ns[0].lits] && TotalSize([ns[0].lits]) == |ns[0].lits|
  {
  }

  lemma LitsLost(ns: seq<Node>, acc: seq<Clause>)
    requires ns == [] || acc != []
    ensures Lost(acc, Lits(ns)) == []
  {
  }

  /** The conjunction of two expressions with literals, by its parts and totals. */
  ghost function BothParts(e: Cnf, x: Cnf, destroy: bool): Cnf {
    var s := if x.singles == [] then e.singles else Plus(e.singles, x.singles);
    var lost := if destroy then [] else Lost(e.clauses, x.clauses);
    if s == [] && e.singles != [] && x.singles != [] then FALSE
    else Cnf(|s| + TotalSize(e.clauses) + TotalSize(x.clauses) - TotalSize(lost),
             |s| + |e.clauses| + |x.clauses| - |lost|,
             s, if destroy then e.clauses + x.clauses else Reverse(x.clauses) + e.clauses)
  }

  ghost function Copied(x: Cnf, destroy: bool): Cnf {
    if destroy then x else x.(clauses := Reverse(x.clauses))
  }

  lemma ConjoinCases(e: Cnf, x: Cnf, destroy: bool)
    requires WellFormed(e) && WellFormed(x)
    ensures x.litSize == 0 ==> CnfFormulas.Conjoin(e, x, destroy) == if x.clauseSize == 0 then FALSE else e
    ensures x.litSize != 0 && e.litSize == 0 && e.clauseSize == 0 ==> CnfFormulas.Conjoin(e, x, destroy) == e
    ensures x.litSize != 0 && e.litSize == 0 && e.clauseSize != 0 ==>
      CnfFormulas.Conjoin(e, x, destroy) == Copied(x, destroy)
    ensures x.litSize != 0 && e.litSize != 0 ==> CnfFormulas.Conjoin(e, x, destroy) == BothParts(e, x, destroy)
  {
    if x.litSize != 0 && e.litSize != 0 {
      SomethingLeft(e, x);
      TotalSizeConcat(e.clauses, x.clauses);
      TotalSizeConcat(Reverse(x.clauses), e.clauses);
      ReverseSize(x.clauses);
      ReverseIn(x.clauses);
      if x.clauses != [] {
        assert x.clauses[..1] == [x.clauses[0]];
      }
    }
  }

  lemma SomethingLeft(e: Cnf, x: Cnf)
    requires WellFormed(e) && WellFormed(x) && e.litSize != 0
    ensures var s := if x.singles == [] then e.singles else Plus(e.singles, x.singles);
      s == [] ==> (e.singles != [] && x.singles != []) || e.clauses != []
  {
    TotalSizeNil();
  }

  class CnfExp {
    var litSize: int
    var clauseSize: int
    var singles: Clause
    var head: Node?
    var tail: Node?
    ghost var spine: seq<Node>

    ghost predicate Valid()
      reads this, spine
    {
      Chain(spine, head, null) && tail == Last(spine)
    }

    ghost function Listed(): seq<Clause>
      reads this, spine
    {
      Lits(spine)
    }

    ghost function Value(): Cnf
      reads this, spine
    {
      Cnf(litSize, clauseSize, singles, Listed())
    }

    /** How far the totals are ahead of the list. */
    ghost function LitsAhead(): int
      reads this, spine
    {
      litSize - TotalSize(Listed())
    }

    ghost function ClausesAhead(): int
      reads this, spine
    {
      clauseSize - |spine|
    }

    constructor Constant(isTrue: bool)
      ensures Valid() && spine == [] && Value() == if isTrue then TRUE else FALSE
    {
      litSize, clauseSize, singles, head, tail := 0, if isTrue then 1 else 0, [], null, null;
      spine := [];
    }

    constructor Literal(l: int)
      ensures Valid() && spine == [] && Value() == Unit(l)
    {
      litSize, clauseSize, singles, head, tail := 1, 1, [l], null, null;
      spine := [];
    }

    method Clear(isTrue: bool)
      modifies this
      ensures Valid() && spine == [] && Value() == if isTrue then TRUE else FALSE
    {
      singles, head, tail, spine := [], null, null, [];
      litSize, clauseSize := 0, if isTrue then 1 else 0;
    }

    // ----- building the list -----

    /** A new clause at the head of the list. */
    method Prepend(c: Clause)
      requires Valid()
      modifies this`head, this`tail, this`spine
      ensures Valid() && |spine| == |old(spine)| + 1 && fresh(spine[0]) && spine[1..] == old(spine)
      ensures Listed() == [c] + old(Listed())
    {
      hide Chain, Lits;
      var n := new Node(c, head);
      ChainPrepended(n, spine);
      head := n;
      if tail == null {
        tail := head;
      }
      spine := [n] + spine;
    }

    /** A new clause at the head of the list, counted, unless it is a tautology. */
    method PushClause(c: Clause)
      requires Valid()
      modifies this`head, this`tail, this`spine, this`litSize, this`clauseSize
      ensures Valid() && forall n :: n in spine ==> n in old(spine) || fresh(n)
      ensures Listed() == Push(c, old(Listed()))
      ensures LitsAhead() == old(LitsAhead()) && ClausesAhead() == old(ClausesAhead())
    {
      hide Chain, Last, Lits;
      if c != [] {
        Prepend(c);
        assert spine == [spine[0]] + old(spine);
        litSize, clauseSize := litSize + |c|, clauseSize + 1;
      }
    }

    /** Join every clause of the list at `from` with `d` where it stands; the result is counted. */
    method KeepRow(k: Joining, from: Node?, ghost ns: seq<Node>, d: Clause)
      returns (h: Node?, t: Node?, ghost kept: seq<Node>)
      requires Chain(ns, from, null) && (k.OneLiteral? ==> |d| == 1)
      modifies this`litSize, this`clauseSize, ns
      ensures Chain(kept, h, null) && t == Last(kept) && Among(kept, ns)
      ensures Lits(kept) == CnfFormulas.KeepRow(k, old(Lits(ns)), d)
      ensures litSize == old(litSize) + TotalSize(Lits(kept)) && clauseSize == old(clauseSize) + |kept|
    {
      hide Walking, Chain, TotalSize, CnfFormulas.KeepRow, Join;
      ghost var cs, i := Lits(ns), 0;
      var iter := from;
      h, t, kept := from, null, [];
      WalkStarts(ns, from);
      WalkEnds(ns, i, iter, kept, h, t);
      TotalSizeNil();
      assert ns[0..] == ns && cs[0..] == cs && Lits([]) == [];
      while iter != null
        invariant Walking(ns, i, iter, kept, h, t) && i <= |ns| && (iter == null <==> i == |ns|)
        invariant Lits(ns[i..]) == cs[i..]
        invariant CnfFormulas.KeepRow(k, cs, d) == Lits(kept) + CnfFormulas.KeepRow(k, cs[i..], d)
        invariant litSize == old(litSize) + TotalSize(Lits(kept)) && clauseSize == old(clauseSize) + |kept|
        decreases |ns| - i
      {
        KeepRowStep(k, cs, i, d, Lits(kept));
        h, t, iter, kept := KeepOne(k, d, ns, i, iter, kept, h, t);
        i := i + 1;
        WalkEnds(ns, i, iter, kept, h, t);
      }
      KeepRowEnd(k, cs, d, Lits(kept));
      WalkDone(ns, iter, kept, h, t);
    }

    method KeepOne(k: Joining, d: Clause, ghost ns: seq<Node>, ghost i: nat, iter: Node, ghost kept: seq<Node>,
                   h: Node?, t: Node?)
        returns (h': Node?, t': Node?, next: Node?, ghost kept': seq<Node>)
      requires i < |ns| && Walking(ns, i, iter, kept, h, t) && (k.OneLiteral? ==> |d| == 1)
      modifies this`litSize, this`clauseSize, ns
      ensures Walking(ns, i + 1, next, kept', h', t')
      ensures Lits(kept') == old(Lits(kept)) + Kept(Join(k, old(Lits(ns[i..]))[0], d))
      ensures Lits(ns[i + 1..]) == old(Lits(ns[i..]))[1..]
      ensures litSize - TotalSize(Lits(kept')) == old(litSize - TotalSize(Lits(kept)))
      ensures clauseSize - |kept'| == old(clauseSize) - |kept|
    {
      hide Walking, Chain, TotalSize, Join, Apart, Last, Lits;
      WalkOpens(ns, i, iter, kept, h, t);
      assert iter in ns;
      assert forall j :: 0 <= j < |kept| ==> kept[j] in ns;
      h', t', next, kept' := JoinNode(k, d, h, t, iter, kept, ns[i..]);
      CountKept(iter, kept);
      WalkCloses(ns, i, iter, kept, next, kept', h', t');
      litSize := litSize + |iter.lits|;
      if iter.lits != [] {
        clauseSize := clauseSize + 1;
      }
    }

    /** Join every clause of the list at `from` with `d` and push the results. */
    method PushRow(k: Joining, from: Node?, ghost ns: seq<Node>, d: Clause)
      requires Valid() && Chain(ns, from, null) && (k.OneLiteral? ==> |d| == 1)
      modifies this`head, this`tail, this`spine, this`litSize, this`clauseSize
      ensures Valid() && forall n :: n in spine ==> n in old(spine) || fresh(n)
      ensures Listed() == CnfFormulas.PushRow(k, Lits(ns), d, old(Listed()))
      ensures LitsAhead() == old(LitsAhead()) && ClausesAhead() == old(ClausesAhead())
    {
      hide Chain, TotalSize, CnfFormulas.PushRow;
      var iter := from;
      ghost var i, cs := 0, Lits(ns);
      ChainAt(ns, from, null, 0);
      assert cs[0..] == cs;
      while iter != null
        invariant i <= |ns| && iter == Nth(ns, i, null)
        invariant Valid() && forall n :: n in spine ==> n in old(spine) || fresh(n)
        invariant CnfFormulas.PushRow(k, cs, d, old(Listed())) == CnfFormulas.PushRow(k, cs[i..], d, Listed())
        invariant LitsAhead() == old(LitsAhead()) && ClausesAhead() == old(ClausesAhead())
        decreases |ns| - i
      {
        ChainAt(ns, from, null, i);
        PushRowStep(k, cs, i, d, Listed());
        PushClause(Join(k, iter.lits, d));
        iter, i := iter.next, i + 1;
      }
      PushRowStep(k, cs, i, d, Listed());
    }

    /** Join every clause of the list at `from`, which is counted already, with `l` where it stands. */
    method Rejoin(l: int, from: Node?, ghost ns: seq<Node>) returns (h: Node?, t: Node?, ghost kept: seq<Node>)
      requires Chain(ns, from, null)
      modifies this`litSize, this`clauseSize, ns
      ensures Chain(kept, h, null) && t == Last(kept) && Among(kept, ns)
      ensures Lits(kept) == CnfFormulas.KeepRow(OneLiteral, old(Lits(ns)), [l])
      ensures litSize - TotalSize(Lits(kept)) == old(litSize - TotalSize(Lits(ns)))
      ensures clauseSize - |kept| == old(clauseSize) - |ns|
    {
      hide Walking, Chain, TotalSize, CnfFormulas.KeepRow, Join, Kept, Apart, Last;
      ghost var cs, i := Lits(ns), 0;
      var iter := from;
      h, t, kept := from, null, [];
      WalkStarts(ns, from);
      WalkEnds(ns, i, iter, kept, h, t);
      TotalSizeNil();
      assert ns[0..] == ns && cs[0..] == cs && Lits([]) == [];
      while iter != null
        invariant Walking(ns, i, iter, kept, h, t) && i <= |ns| && (iter == null <==> i == |ns|)
        invariant Lits(ns[i..]) == cs[i..]
        invariant CnfFormulas.KeepRow(OneLiteral, cs, [l]) == Lits(kept) + CnfFormulas.KeepRow(OneLiteral, cs[i..], [l])
        invariant litSize - TotalSize(Lits(kept)) - TotalSize(cs[i..]) == old(litSize - TotalSize(Lits(ns)))
        invariant clauseSize - |kept| - (|ns| - i) == old(clauseSize) - |ns|
        decreases |ns| - i
      {
        KeepRowStep(OneLiteral, cs, i, [l], Lits(kept));
        h, t, iter, kept := RejoinOne(l, ns, i, iter, kept, h, t);
        i := i + 1;
        WalkEnds(ns, i, iter, kept, h, t);
      }
      KeepRowEnd(OneLiteral, cs, [l], Lits(kept));
      WalkDone(ns, iter, kept, h, t);
    }

    method RejoinOne(l: int, ghost ns: seq<Node>, ghost i: nat, iter: Node, ghost kept: seq<Node>, h: Node?, t: Node?)
        returns (h': Node?, t': Node?, next: Node?, ghost kept': seq<Node>)
      requires i < |ns| && Walking(ns, i, iter, kept, h, t)
      modifies this`litSize, this`clauseSize, ns
      ensures Walking(ns, i + 1, next, kept', h', t')
      ensures Lits(kept') == old(Lits(kept)) + Kept(Join(OneLiteral, old(Lits(ns[i..]))[0], [l]))
      ensures Lits(ns[i + 1..]) == old(Lits(ns[i..]))[1..]
      ensures litSize - TotalSize(Lits(kept')) == old(litSize - TotalSize(Lits(kept)) - |Lits(ns[i..])[0]|)
      ensures clauseSize - |kept'| == old(clauseSize) - |kept| - 1
    {
      hide Walking, Chain, TotalSize, Join, Apart, Last, Kept;
      WalkOpens(ns, i, iter, kept, h, t);
      litSize, clauseSize := litSize - |iter.lits|, clauseSize - 1;
      h', t', next, kept' := KeepOne(OneLiteral, [l], ns, i, iter, kept, h, t);
    }

    /** Join every listed clause with `l`. */
    method JoinListed(l: int)
      requires Valid()
      modifies this`head, this`tail, this`spine, this`litSize, this`clauseSize, spine
      ensures Valid() && Among(spine, old(spine)) && Listed() == CnfFormulas.KeepRow(OneLiteral, old(Listed()), [l])
      ensures LitsAhead() == old(LitsAhead()) && ClausesAhead() == old(ClausesAhead())
    {
      hide Chain, TotalSize, CnfFormulas.KeepRow, Lits;
      head, tail, spine := Rejoin(l, head, spine);
    }

    /** Put a finished list in front of this one. */
    method Splice(h: Node?, t: Node?, ghost ns: seq<Node>)
      requires Valid() && Chain(ns, h, null) && t == Last(ns) && Apart(ns, spine)
      modifies this`head, this`tail, this`spine, ns
      ensures Valid() && spine == ns + old(spine) && Listed() == old(Lits(ns)) + old(Listed())
    {
      hide Lits, Chain;
      LitsJoined(ns, spine);
      ChainAt(spine, head, null, 0);
      assert ns == [] ==> ns + spine == spine;
      if t != null {
        if head == null {
          tail := t;
        }
        ghost var m := head;
        head := Redirect(h, t, head, ns, null, spine);
        ChainJoined(ns, head, spine, m);
      }
      spine := ns + spine;
    }

    // ----- rows of joined clauses -----

    /** Every clause of the list at `from` joined with every literal of `ls`. */
    method PushLits(from: Node?, ghost ns: seq<Node>, ls: Clause)
      requires Valid() && Chain(ns, from, null)
      modifies this`head, this`tail, this`spine, this`litSize, this`clauseSize
      ensures Valid() && forall n :: n in spine ==> n in old(spine) || fresh(n)
      ensures Listed() == PushRows(OneLiteral, Lits(ns), Units(ls), old(Listed()))
      ensures LitsAhead() == old(LitsAhead()) && ClausesAhead() == old(ClausesAhead())
    {
      hide Chain, TotalSize, PushRows, CnfFormulas.PushRow, Lits;
      ghost var cs, us := Lits(ns), Units(ls);
      assert us[0..] == us;
      for i := 0 to |ls|
        invariant Valid() && forall n :: n in spine ==> n in old(spine) || fresh(n)
        invariant Lits(ns) == cs && Chain(ns, from, null)
        invariant AllSingle(us[i..])
        invariant PushRows(OneLiteral, cs, us, old(Listed())) == PushRows(OneLiteral, cs, us[i..], Listed())
        invariant LitsAhead() == old(LitsAhead()) && ClausesAhead() == old(ClausesAhead())
      {
        PushRowsStep(OneLiteral, cs, us, i, Listed());
        PushRow(OneLiteral, from, ns, [ls[i]]);
      }
      PushRowsEnd(OneLiteral, cs, us, Listed());
    }

    /** Every clause of the list at `from` joined with every clause from `first` up to but not including `end`. */
    method PushLists(from: Node?, ghost ns: seq<Node>, first: Node?, end: Node?, ghost ms: seq<Node>)
      requires Valid() && Chain(ns, from, null) && Chain(ms, first, end) && (end == null || end !in ms)
      modifies this`head, this`tail, this`spine, this`litSize, this`clauseSize
      ensures Valid() && forall n :: n in spine ==> n in old(spine) || fresh(n)
      ensures Listed() == PushRows(Fresh, Lits(ns), Lits(ms), old(Listed()))
      ensures LitsAhead() == old(LitsAhead()) && ClausesAhead() == old(ClausesAhead())
    {
      hide Chain, TotalSize, PushRows, CnfFormulas.PushRow, Lits;
      ghost var cs, ds, i := Lits(ns), Lits(ms), 0;
      assert ds[0..] == ds;
      var iter := first;
      ChainAt(ms, first, end, 0);
      while iter != end
        invariant i <= |ms| && iter == Nth(ms, i, end)
        invariant Valid() && forall n :: n in spine ==> n in old(spine) || fresh(n)
        invariant Lits(ns) == cs && Chain(ns, from, null) && Lits(ms) == ds && Chain(ms, first, end)
        invariant PushRows(Fresh, cs, ds, old(Listed())) == PushRows(Fresh, cs, ds[i..], Listed())
        invariant LitsAhead() == old(LitsAhead()) && ClausesAhead() == old(ClausesAhead())
        decreases |ms| - i
      {
        PushRowsStep(Fresh, cs, ds, i, Listed());
        ChainAt(ms, first, end, i);
        PushRow(Fresh, from, ns, iter.lits);
        iter, i := iter.next, i + 1;
      }
      NthOutside(ms, i, end);
      PushRowsEnd(Fresh, cs, ds, Listed());
    }

    // ----- singletons against singletons -----

    /** Pair the singletons with those of `u`, writing matches back over the singletons. The program
        asserts that it stays within the vector; that fails, and the call with it, unless there is room. */
    method CrossSingles(u: Clause) returns (ok: bool)
      requires Valid()
      modifies this
      ensures ok <==> Roomy(old(singles), u)
      ensures ok ==> Valid() && forall n :: n in spine ==> n in old(spine) || fresh(n)
      ensures ok ==> singles == AllMatches(old(singles), u)
      ensures ok ==> Listed() == PushAllPairs(old(singles), u, old(Listed()))
      ensures ok ==> LitsAhead() == old(LitsAhead()) + |singles| && ClausesAhead() == old(ClausesAhead()) + |singles|
    {
      hide Chain, TotalSize, AllMatches, PushAllPairs, PushPairs, Lits, Roomy, Round, Matches;
      ghost var s, acc := singles, Listed();
      var out := 0;
      WithinIff(s, u, acc);
      for i := 0 to |singles|
        invariant Valid() && forall n :: n in spine ==> n in old(spine) || fresh(n)
        invariant |singles| == |s| && 0 <= out <= |s| && Progress(singles, out, Listed()) == Rounds(s, u, acc, i)
        invariant LitsAhead() == old(LitsAhead()) + out && ClausesAhead() == old(ClausesAhead()) + out
      {
        OnlyMore(s, u, acc, i + 1, |s|);
        ok, out := CrossOne(i, u, out);
        if !ok {
          return;
        }
      }
      LoopRight(s, u, acc);
      singles := singles[..out];
      ok := true;
    }

    /** Pair the singleton at index `i` with those of `u`, writing matches from index `out` on. */
    method CrossOne(i: nat, u: Clause, out: nat) returns (ok: bool, out': nat)
      requires Valid() && i < |singles| && out <= |singles|
      modifies this
      ensures ok <==> out + |Matches(old(singles)[i], u)| <= |old(singles)|
      ensures ok ==> Valid() && forall n :: n in spine ==> n in old(spine) || fresh(n)
      ensures ok ==> singles == Round(old(singles), i, u, out) && out' == out + |Matches(old(singles)[i], u)|
      ensures ok ==> Listed() == PushPairs(old(singles)[i], u, old(Listed()))
      ensures ok ==> LitsAhead() == old(LitsAhead()) + out' - out && ClausesAhead() == old(ClausesAhead()) + out' - out
    {
      hide Chain, TotalSize, Matches, PushPairs, Lits;
      ghost var l, m: Clause := singles[i], [];
      out' := out;
      assert u[0..] == u;
      for j := 0 to |u|
        invariant Valid() && forall n :: n in spine ==> n in old(spine) || fresh(n)
        invariant |singles| == |old(singles)| && out' == out + |m| <= |singles| && singles[i] == l
        invariant forall k :: 0 <= k < |singles| ==> singles[k] == if out <= k < out' then l else old(singles)[k]
        invariant Matches(l, u) == m + Matches(l, u[j..])
        invariant PushPairs(l, u, old(Listed())) == PushPairs(l, u[j..], Listed())
        invariant LitsAhead() == old(LitsAhead()) + |m| && ClausesAhead() == old(ClausesAhead()) + |m|
      {
        PairStep(l, u, j, m, Listed());
        if singles[i] == u[j] {
          litSize, clauseSize := litSize + 1, clauseSize + 1;
          if out' == |singles| {
            return false, out';
          }
          singles, out' := singles[out' := u[j]], out' + 1;
          m := m + [l];
        } else if singles[i] != -u[j] {
          PushClause(Pair(singles[i], u[j]));
        }
      }
      PairEnd(l, u, m, Listed());
      ok := true;
    }

    // ----- the cross product -----

    /** The clauses of the list at `from` against all clauses and singletons of `exp` but the last. */
    method PushAllButLast(exp: CnfExp, from: Node?, ghost ns: seq<Node>)
      requires Valid() && spine == [] && exp.Valid() && exp != this && Chain(ns, from, null)
      modifies this`head, this`tail, this`spine, this`litSize, this`clauseSize
      ensures Valid() && forall n :: n in spine ==> fresh(n)
      ensures Listed() == AllButLast(Lits(ns), exp.Value())
      ensures LitsAhead() == old(LitsAhead()) && ClausesAhead() == old(ClausesAhead())
    {
      hide Chain, TotalSize, PushRows, Lits, CnfFormulas.PushRow, CnfFormulas.KeepRow;
      if exp.singles != [] {
        PushLists(from, ns, exp.head, null, exp.spine);
        PushLits(from, ns, exp.singles[1..]);
      } else if exp.tail != null {
        ChainInit(exp.spine, exp.head);
        LitsInit(exp.spine);
        PushLists(from, ns, exp.head, exp.tail, exp.spine[..|exp.spine| - 1]);
      }
    }

    /** The last clause or singleton of `exp` joins the list at `from` in place. */
    method JoinLast(exp: CnfExp, from: Node?, ghost ns: seq<Node>) returns (h: Node?, t: Node?, ghost kept: seq<Node>)
      requires exp.Valid() && exp != this && Chain(ns, from, null) && Apart(ns, exp.spine)
      modifies this`litSize, this`clauseSize, ns
      ensures Chain(kept, h, null) && t == Last(kept) && Among(kept, ns)
      ensures Lits(kept) == LastJoined(old(Lits(ns)), old(exp.Value()))
      ensures exp.Valid() && exp.Value() == old(exp.Value())
      ensures litSize == old(litSize) + TotalSize(Lits(kept)) && clauseSize == old(clauseSize) + |kept|
    {
      hide Chain, CnfFormulas.KeepRow, TotalSize, Lits;
      assert forall i :: 0 <= i < |exp.spine| ==> exp.spine[i] in exp.spine && exp.spine[i] !in ns;
      TotalSizeNil();
      LitsNil();
      h, t, kept := null, null, [];
      ChainNil(null);
      if exp.singles != [] {
        h, t, kept := KeepRow(OneLiteral, from, ns, [exp.singles[0]]);
      } else if exp.tail != null {
        LitsInit(exp.spine);
        h, t, kept := KeepRow(InPlace, from, ns, exp.tail.lits);
      }
    }

    /** The clauses of the list at `from`, which is no longer this list, against all of `exp`. */
    method CrossLists(exp: CnfExp, from: Node?, ghost ns: seq<Node>)
      requires Valid() && spine == [] && exp.Valid() && exp != this && Chain(ns, from, null) && Apart(ns, exp.spine)
      modifies this`head, this`tail, this`spine, this`litSize, this`clauseSize, ns
      ensures Valid() && forall n :: n in spine ==> n in ns || fresh(n)
      ensures Listed() == old(LastJoined(Lits(ns), exp.Value()) + AllButLast(Lits(ns), exp.Value()))
      ensures exp.Valid() && exp.Value() == old(exp.Value())
      ensures LitsAhead() == old(LitsAhead()) && ClausesAhead() == old(ClausesAhead())
    {
      hide Chain, TotalSize, LastJoined, AllButLast, Lits, Last;
      PushAllButLast(exp, from, ns);
      ghost var pushed := Listed();
      assert Apart(spine, ns);
      assert forall i :: 0 <= i < |spine| ==> spine[i] in spine && spine[i] !in ns;
      var h, t, kept := JoinLast(exp, from, ns);
      assert Valid() && Listed() == pushed;
      assert forall i :: 0 <= i < |kept| ==> kept[i] in ns;
      TotalSizeConcat(Lits(kept), pushed);
      Splice(h, t, kept);
    }

    /** The singletons against all of `exp`. */
    method CrossRest(exp: CnfExp) returns (ok: bool)
      requires Valid() && exp.Valid() && exp != this
      modifies this
      ensures ok <==> Roomy(old(singles), exp.singles)
      ensures ok ==> Valid() && forall n :: n in spine ==> n in old(spine) || fresh(n)
      ensures ok ==> singles == AllMatches(old(singles), exp.singles)
      ensures ok ==> Listed() == PushAllPairs(old(singles), exp.singles,
                                              PushRows(OneLiteral, exp.Listed(), Units(old(singles)), old(Listed())))
      ensures ok ==> LitsAhead() == old(LitsAhead()) + |singles| && ClausesAhead() == old(ClausesAhead()) + |singles|
    {
      hide Chain, TotalSize, PushRows, AllMatches, PushAllPairs, Lits, Roomy;
      ChainAt(exp.spine, exp.head, null, 0);
      if exp.head != null {
        PushLits(exp.head, exp.spine, singles);
      } else {
        LitsNil();
        PushRowsNone(OneLiteral, Units(singles), Listed());
      }
      if exp.singles != [] {
        ok := CrossSingles(exp.singles);
      } else {
        CrossNone(singles, Listed());
        NothingIsRoomy(singles);
        singles := [];
        ok := true;
      }
    }

    /** Disjoin with `exp` clause by clause, reusing the clause list and the singleton vector. */
    method CrossProductWith(exp: CnfExp) returns (ok: bool)
      requires Valid() && exp.Valid() && exp != this && Apart(spine, exp.spine)
      modifies this, spine
      ensures ok <==> Roomy(old(singles), old(exp.singles))
      ensures ok ==> Valid() && forall n :: n in spine ==> n in old(spine) || fresh(n)
      ensures ok ==> Value() == old(CrossProduct(Value(), exp.Value()))
      ensures exp.Valid() && exp.Value() == old(exp.Value())
    {
      hide Chain, TotalSize, PushRows, AllMatches, PushAllPairs, Lits, AllButLast, LastJoined, CrossProduct, Make,
           Roomy, Last, Apart;
      CrossSplit(Value(), exp.Value());
      CrossListed(exp);
      ok := CrossRest(exp);
      if ok {
        Settle();
      }
    }

    /** Replace the list by its clauses against all of `exp`. */
    method CrossListed(exp: CnfExp)
      requires Valid() && exp.Valid() && exp != this && Apart(spine, exp.spine)
      modifies this`head, this`tail, this`spine, this`litSize, this`clauseSize, spine
      ensures Valid() && forall n :: n in spine ==> n in old(spine) || fresh(n)
      ensures Listed() == old(LastJoined(Listed(), exp.Value()) + AllButLast(Listed(), exp.Value()))
      ensures LitsAhead() == ClausesAhead() == 0
      ensures exp.Valid() && exp.Value() == old(exp.Value())
    {
      hide Chain, TotalSize, Lits, AllButLast, LastJoined;
      var oldHead := head;
      ghost var ns := spine;
      StartOver();
      CrossLists(exp, oldHead, ns);
    }

    /** Nothing left is true. */
    method Settle()
      requires Valid() && LitsAhead() == ClausesAhead() == |singles|
      modifies this`clauseSize
      ensures Valid() && Value() == Make(singles, Listed())
    {
      ChainAt(spine, head, null, 0);
      TotalSizeNil();
      LitsNil();
      if head == null && singles == [] {
        clauseSize := 1;
      }
    }

    /** Let go of the list and of the totals. */
    method StartOver()
      modifies this`head, this`tail, this`spine, this`litSize, this`clauseSize
      ensures Valid() && spine == [] && LitsAhead() == ClausesAhead() == 0
    {
      head, tail, spine, litSize, clauseSize := null, null, [], 0, 0;
    }

    // ----- the operations -----

    method ConjoinLit(l: int)
      requires Valid() && WellFormed(Value())
      modifies this
      ensures Valid() && forall n :: n in spine ==> n in old(spine)
      ensures Value() == CnfFormulas.ConjoinLit(old(Value()), l)
    {
      hide Chain, Lits, WindowSorted, AddLit;
      TotalSizeNil();
      if litSize == 0 {
        NoListed(Value());
        if clauseSize == 0 {
          return;
        }
        clauseSize := 0;
      }
      litSize, clauseSize := litSize - |singles|, clauseSize - |singles|;
      singles := AddLit(singles, l);
      if singles == [] {
        Clear(false);
      } else {
        litSize, clauseSize := litSize + |singles|, clauseSize + |singles|;
      }
    }

    /** Turn every singleton but the copies of `l` into a pair with `l`; the totals count them already. */
    method PairSingles(l: int)
      requires Valid()
      modifies this
      ensures Valid() && forall n :: n in spine ==> n in old(spine) || fresh(n)
      ensures singles == Copies(old(singles), l)
      ensures Listed() == PushAllPairs(old(singles), [l], old(Listed()))
      ensures LitsAhead() == old(LitsAhead()) - |old(singles)| + |singles|
      ensures ClausesAhead() == old(ClausesAhead()) - |old(singles)| + |singles|
    {
      hide Chain, TotalSize, AllMatches, PushAllPairs, Lits;
      ghost var s := singles;
      assert s[0..] == s;
      var out := 0;
      for i := 0 to |singles|
        invariant Valid() && forall n :: n in spine ==> n in old(spine) || fresh(n)
        invariant 0 <= out <= i <= |singles| == |s| && singles[i..] == s[i..]
        invariant AllMatches(s, [l]) == singles[..out] + AllMatches(s[i..], [l])
        invariant PushAllPairs(s, [l], old(Listed())) == PushAllPairs(s[i..], [l], Listed())
        invariant LitsAhead() == old(LitsAhead()) - i + out && ClausesAhead() == old(ClausesAhead()) - i + out
      {
        CrossStep(s, [l], i, singles[..out], Listed());
        out := PairOne(i, l, out);
      }
      CrossEnd(s, [l], singles[..out], Listed());
      singles := singles[..out];
    }

    method PairOne(i: nat, l: int, out: nat) returns (out': nat)
      requires Valid() && out <= i < |singles|
      modifies this
      ensures Valid() && forall n :: n in spine ==> n in old(spine) || fresh(n)
      ensures |singles| == |old(singles)| && out' <= i + 1 && singles[i + 1..] == old(singles)[i + 1..]
      ensures singles[..out'] == old(singles)[..out] + Matches(old(singles)[i], [l])
      ensures Listed() == PushPairs(old(singles)[i], [l], old(Listed()))
      ensures LitsAhead() == old(LitsAhead()) - 1 + out' - out && ClausesAhead() == old(ClausesAhead()) - 1 + out' - out
    {
      hide Chain, TotalSize, Matches, PushPairs, Lits;
      LiteralStep(singles[i], l, Listed());
      out' := out;
      if singles[i] == l {
        singles, out' := singles[out := l], out + 1;
      } else {
        litSize, clauseSize := litSize - 1, clauseSize - 1;
        if singles[i] != -l {
          PushClause(Pair(singles[i], l));
        }
      }
    }

    method DisjoinLit(l: int)
      requires Valid() && WellFormed(Value())
      modifies this, spine
      ensures Valid() && forall n :: n in spine ==> n in old(spine) || fresh(n)
      ensures Value() == CnfFormulas.DisjoinLit(old(Value()), l)
    {
      hide Chain, Lits, PushAllPairs, AllMatches, CnfFormulas.KeepRow, WindowSorted;
      TotalSizeNil();
      if litSize == 0 {
        if clauseSize == 0 {
          NoListed(Value());
          AddToNothing(l);
          singles := AddLit(singles, l);
          litSize, clauseSize := 1, 1;
        }
      } else {
        JoinListed(l);
        PairSingles(l);
        Settle();
      }
    }

    /** Copy the list at `from` to the head of this one, in reverse; only counted on demand. */
    method PushCopies(from: Node?, ghost ns: seq<Node>, counted: bool)
      requires Valid() && Chain(ns, from, null)
      modifies this`head, this`tail, this`spine, this`litSize, this`clauseSize
      ensures Valid() && forall n :: n in spine ==> n in old(spine) || fresh(n)
      ensures Listed() == Reverse(Lits(ns)) + old(Listed())
      ensures litSize == old(litSize) + if counted then TotalSize(Lits(ns)) else 0
      ensures clauseSize == old(clauseSize) + if counted then |ns| else 0
    {
      hide Chain, TotalSize, Reverse, Lits, Last;
      ghost var cs, i := Lits(ns), 0;
      var iter := from;
      ChainAt(ns, from, null, 0);
      assert cs[0..] == cs;
      while iter != null
        invariant i <= |ns| && iter == Nth(ns, i, null)
        invariant Valid() && forall n :: n in spine ==> n in old(spine) || fresh(n)
        invariant Lits(ns) == cs && Chain(ns, from, null)
        invariant Reverse(cs) + old(Listed()) == Reverse(cs[i..]) + Listed()
        invariant litSize == old(litSize) + if counted then TotalSize(cs) - TotalSize(cs[i..]) else 0
        invariant clauseSize == old(clauseSize) + if counted then i else 0
        decreases |ns| - i
      {
        ReverseStep(cs, i, Listed());
        ChainAt(ns, from, null, i);
        PushCopy(iter.lits, counted);
        iter, i := iter.next, i + 1;
      }
      ReverseEnd(cs, Listed());
    }

    method PushCopy(c: Clause, counted: bool)
      requires Valid()
      modifies this`head, this`tail, this`spine, this`litSize, this`clauseSize
      ensures Valid() && forall n :: n in spine ==> n in old(spine) || fresh(n)
      ensures Listed() == [c] + old(Listed())
      ensures litSize == old(litSize) + if counted then |c| else 0
      ensures clauseSize == old(clauseSize) + if counted then 1 else 0
    {
      hide Chain, Lits;
      Prepend(c);
      if counted {
        litSize, clauseSize := litSize + |c|, clauseSize + 1;
      }
    }

    /** Append the list of `exp`, which gives it up. */
    method Adopt(exp: CnfExp)
      requires Valid() && exp.Valid() && exp != this && Apart(spine, exp.spine)
      modifies this`head, this`tail, this`spine, exp`head, exp`tail, exp`spine, spine
      ensures Valid() && spine == old(spine) + old(exp.spine) && Listed() == old(Listed()) + old(exp.Listed())
    {
      hide Chain, Lits;
      LitsJoined(spine, exp.spine);
      ChainAt(exp.spine, exp.head, null, 0);
      ChainAt(spine, head, null, 0);
      assert spine + [] == spine;
      if exp.head != null {
        head := Redirect(head, tail, exp.head, spine, null, exp.spine);
        ChainJoined(spine, head, exp.spine, exp.head);
        tail := exp.tail;
      }
      spine := spine + exp.spine;
      exp.head, exp.tail, exp.spine := null, null, [];
    }

    /** Become a copy of `exp`, which gives up its list when it is destroyed. */
    method CopyExp(exp: CnfExp, destroy: bool)
      requires Valid() && exp.Valid() && exp != this && spine == []
      modifies this, exp
      ensures Valid() && forall n :: n in spine ==> n in old(exp.spine) || fresh(n)
      ensures Value() == Copied(old(exp.Value()), destroy)
      ensures !destroy ==> exp.Valid() && exp.Value() == old(exp.Value()) && exp.spine == old(exp.spine)
    {
      hide Chain, TotalSize, Lits, Reverse;
      clauseSize, litSize := exp.clauseSize, exp.litSize;
      if destroy {
        TakeOver(exp);
      } else {
        singles := exp.singles;
        LitsNil();
        PushCopies(exp.head, exp.spine, false);
        assert Reverse(exp.Listed()) + [] == Reverse(exp.Listed());
      }
    }

    /** Swap the singletons and take the list. */
    method TakeOver(exp: CnfExp)
      requires exp.Valid() && exp != this
      modifies this`head, this`tail, this`spine, this`singles, exp`head, exp`tail, exp`spine, exp`singles
      ensures Valid() && spine == old(exp.spine) && singles == old(exp.singles) && Listed() == old(exp.Listed())
    {
      hide Chain, Lits;
      head, tail, spine := exp.head, exp.tail, exp.spine;
      singles, exp.singles := exp.singles, singles;
      exp.head, exp.tail, exp.spine := null, null, [];
    }

    /** Conjoin the singletons of `exp`; contradictory ones leave none. */
    method ConjoinSingles(s: Clause) returns (had: bool)
      requires Valid()
      modifies this`litSize, this`clauseSize, this`singles
      ensures had <==> s != [] && old(singles) != []
      ensures singles == if s == [] then old(singles) else Plus(old(singles), s)
      ensures litSize - |singles| == old(litSize - |singles|) && clauseSize - |singles| == old(clauseSize - |singles|)
    {
      hide Plus;
      had := false;
      if s != [] {
        had := singles != [];
        litSize, clauseSize := litSize - |singles|, clauseSize - |singles|;
        singles := Plus(singles, s);
        litSize, clauseSize := litSize + |singles|, clauseSize + |singles|;
      }
    }

    /** Append the list of `exp` with its share of the totals. */
    method AppendList(exp: CnfExp)
      requires Valid() && exp.Valid() && exp != this && Apart(spine, exp.spine)
      requires exp.litSize - |exp.singles| == TotalSize(exp.Listed()) && exp.clauseSize - |exp.singles| == |exp.spine|
      modifies this`head, this`tail, this`spine, this`litSize, this`clauseSize, exp`head, exp`tail, exp`spine, spine
      ensures Valid() && spine == old(spine) + old(exp.spine) && Listed() == old(Listed()) + old(exp.Listed())
      ensures litSize == old(litSize) + TotalSize(old(exp.Listed())) && clauseSize == old(clauseSize) + |old(exp.spine)|
    {
      hide Chain, Lits, TotalSize;
      if exp.head != null {
        litSize, clauseSize := litSize + exp.litSize - |exp.singles|, clauseSize + exp.clauseSize - |exp.singles|;
      } else {
        ChainAt(exp.spine, exp.head, null, 0);
        LitsNil();
        TotalSizeNil();
      }
      Adopt(exp);
    }

    /** Copy the list of `exp` as it is written: the first copy into an empty list is not counted. */
    method CopyList(exp: CnfExp)
      requires Valid() && exp.Valid() && exp != this
      modifies this`head, this`tail, this`spine, this`litSize, this`clauseSize
      ensures Valid() && forall n :: n in spine ==> n in old(spine) || fresh(n)
      ensures Listed() == Reverse(exp.Listed()) + old(Listed())
      ensures litSize == old(litSize) + TotalSize(exp.Listed()) - TotalSize(Lost(old(Listed()), exp.Listed()))
      ensures clauseSize == old(clauseSize) + |exp.spine| - |Lost(old(Listed()), exp.Listed())|
    {
      hide Chain, Lits, TotalSize, Reverse;
      ghost var cs, acc := exp.Listed(), Listed();
      ChainAt(exp.spine, exp.head, null, 0);
      ChainAt(spine, head, null, 0);
      TotalSizeNil();
      if exp.head != null && head == null {
        LitsTail(exp.spine);
        LitsNil();
        ReverseStep(cs, 0, acc);
        assert cs[0..] == cs;
        ChainTail(exp.spine, exp.head);
        PushCopy(exp.head.lits, false);
        PushCopies(exp.head.next, exp.spine[1..], true);
      } else {
        PushCopies(exp.head, exp.spine, true);
        LitsLost(exp.spine, acc);
      }
    }

    /** Conjoin `exp`, handed over or shared. */
    method Conjoin(exp: CnfExp, destroy: bool)
      requires Valid() && exp.Valid() && exp != this && Apart(spine, exp.spine)
      requires WellFormed(Value()) && WellFormed(exp.Value())
      modifies this, exp, spine
      ensures Valid() && forall n :: n in spine ==> n in old(spine) || n in old(exp.spine) || fresh(n)
      ensures Value() == CnfFormulas.Conjoin(old(Value()), old(exp.Value()), destroy)
      ensures !destroy ==> exp.Valid() && exp.Value() == old(exp.Value())
    {
      hide Chain, Lits, TotalSize, Reverse, Plus, WindowSorted, CnfFormulas.Conjoin;
      ConjoinCases(Value(), exp.Value(), destroy);
      if exp.litSize == 0 {
        if exp.clauseSize == 0 {
          Clear(false);
        }
      } else if litSize == 0 {
        if clauseSize != 0 {
          NoListed(Value());
          CopyExp(exp, destroy);
        }
      } else {
        ConjoinLiterals(exp, destroy);
      }
    }

    method ConjoinLiterals(exp: CnfExp, destroy: bool)
      requires Valid() && exp.Valid() && exp != this && Apart(spine, exp.spine)
      requires WellFormed(Value()) && WellFormed(exp.Value()) && litSize != 0 && exp.litSize != 0
      modifies this, exp, spine
      ensures Valid() && forall n :: n in spine ==> n in old(spine) || n in old(exp.spine) || fresh(n)
      ensures Value() == BothParts(old(Value()), old(exp.Value()), destroy)
      ensures !destroy ==> exp.Valid() && exp.Value() == old(exp.Value())
    {
      hide Chain, Lits, TotalSize, Reverse, Plus, WindowSorted;
      var had := ConjoinSingles(exp.singles);
      if had && singles == [] {
        Clear(false);
      } else {
        TotalSizeNil();
        ConjoinLists(exp, destroy);
      }
    }

    method ConjoinLists(exp: CnfExp, destroy: bool)
      requires Valid() && exp.Valid() && exp != this && Apart(spine, exp.spine)
      requires exp.litSize - |exp.singles| == TotalSize(exp.Listed()) && exp.clauseSize - |exp.singles| == |exp.spine|
      modifies this`head, this`tail, this`spine, this`litSize, this`clauseSize, exp`head, exp`tail, exp`spine, spine
      ensures Valid() && forall n :: n in spine ==> n in old(spine) || n in old(exp.spine) || fresh(n)
      ensures Listed() == if destroy then old(Listed()) + old(exp.Listed())
                          else Reverse(old(exp.Listed())) + old(Listed())
      ensures litSize == old(litSize) + TotalSize(old(exp.Listed()))
                         - if destroy then 0 else TotalSize(Lost(old(Listed()), old(exp.Listed())))
      ensures clauseSize == old(clauseSize) + |old(exp.spine)|
                            - if destroy then 0 else |Lost(old(Listed()), old(exp.Listed()))|
      ensures !destroy ==> exp.Valid() && exp.Value() == old(exp.Value())
    {
      hide Chain, Lits, TotalSize, Reverse;
      if destroy {
        AppendList(exp);
      } else {
        CopyList(exp);
      }
    }

    /** Disjoin `exp`, handed over or shared; it fails only where the cross product of singletons does. */
    method Disjoin(exp: CnfExp, destroy: bool) returns (ok: bool)
      requires Valid() && exp.Valid() && exp != this && Apart(spine, exp.spine)
      requires WellFormed(Value()) && WellFormed(exp.Value())
      modifies this, exp, spine
      ensures ok <==> old(litSize == 0 || exp.litSize == 0 || Roomy(singles, exp.singles))
      ensures ok ==> Valid() && forall n :: n in spine ==> n in old(spine) || n in old(exp.spine) || fresh(n)
      ensures ok ==> Value() == CnfFormulas.Disjoin(old(Value()), old(exp.Value()), destroy)
      ensures !destroy ==> exp.Valid() && exp.Value() == old(exp.Value())
    {
      hide Chain, Lits, TotalSize, Reverse, WindowSorted, CrossProduct, Roomy;
      ok := true;
      if exp.litSize == 0 {
        if exp.clauseSize > 0 {
          Clear(true);
        }
      } else if litSize == 0 {
        if clauseSize == 0 {
          NoListed(Value());
          CopyExp(exp, destroy);
        }
      } else {
        ok := CrossProductWith(exp);
      }
    }
  }
}
