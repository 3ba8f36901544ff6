/** Adding original clauses, whatever their literals, and solving what was added. */
module Originals {
  import opened Sequences
  import opened Literals
  import opened Trails
  import opened Watches
  import opened PropagationSteps
  import opened Propagation
  import opened Attaching
  import opened DecisionHeap
  import opened Deciding
  import opened Search

  // ----- trivial clauses -----

  /** The place of a literal in memory: its variable, and then its sign. */
  function Key(l: int): nat {
    2 * Abs(l) + if l < 0 then 1 else 0
  }

  ghost predicate Ascending(s: Clause) {
    forall i, j :: 0 <= i < j < |s| ==> Key(s[i]) <= Key(s[j])
  }

  function InsertByKey(l: int, s: Clause): Clause {
    if s == [] || Key(l) <= Key(s[0]) then [l] + s else [s[0]] + InsertByKey(l, s[1..])
  }

  function SortByKey(c: Clause): Clause {
    if c == [] then [] else InsertByKey(c[0], SortByKey(c[1..]))
  }

  lemma {:induction false} InsertedByKey(l: int, s: Clause)
    requires Ascending(s)
    ensures var r := InsertByKey(l, s);
      Ascending(r) && |r| == |s| + 1 && forall x :: x in r <==> x == l || x in s
    decreases |s|
  {
    if s != [] && Key(l) > Key(s[0]) {
      InsertedByKey(l, s[1..]);
      assert s == [s[0]] + s[1..];
      var r := InsertByKey(l, s[1..]);
      forall j | 0 <= j < |r| ensures Key(s[0]) <= Key(r[j]) {
        assert r[j] in r;
      }
    }
  }

  lemma {:induction false} SortedByKey(c: Clause)
    ensures Ascending(SortByKey(c)) && forall x :: x in SortByKey(c) <==> x in c
    decreases |c|
  {
    if c != [] {
      SortedByKey(c[1..]);
      InsertedByKey(c[0], SortByKey(c[1..]));
      assert c == [c[0]] + c[1..];
    }
  }

  /** A literal is true for good, or occurs with both signs. */
  ghost predicate Trivial(t: Trail, c: Clause) {
    exists l :: l in c && (FixedTrue(t, l) || -l in c)
  }

  /** What the scan of the sorted literals has seen: nothing trivial, and every literal kept once. */
  ghost predicate Scanned(t: Trail, s: Clause, i: nat, kept: Clause)
    requires i <= |s|
  {
    && (forall j :: 0 <= j < i ==> !FixedTrue(t, s[j]))
    && (forall j, k :: 0 <= j < k < i ==> s[j] != -s[k])
    && NoRepeats(kept) && (forall l :: l in kept <==> l in s[..i])
    && (if i == 0 then kept == [] else kept != [] && kept[|kept| - 1] == s[i - 1])
  }

  /** Equal and complementary literals are neighbours. */
  lemma NewLiteral(s: Clause, i: nat)
    requires i < |s| && Ascending(s) && NonZero(s) && (i > 0 ==> s[i - 1] != s[i] && s[i - 1] != -s[i])
    ensures forall j :: 0 <= j < i ==> s[j] != s[i] && s[j] != -s[i]
  {
    assert s[i] in s;
    forall j | 0 <= j < i ensures s[j] != s[i] && s[j] != -s[i] {
      assert Key(s[j]) <= Key(s[i - 1]) <= Key(s[i]);
      assert s[j] in s && s[i - 1] in s;
    }
  }

  lemma ScannedOneMore(t: Trail, s: Clause, i: nat, kept: Clause)
    requires i < |s| && NonZero(s) && Scanned(t, s, i, kept) && !FixedTrue(t, s[i])
    requires forall j :: 0 <= j < i ==> s[j] != s[i] && s[j] != -s[i]
    ensures Scanned(t, s, i + 1, kept + [s[i]])
  {
    hide FixedTrue, NonZero;
    var more := kept + [s[i]];
    assert s[..i + 1] == s[..i] + [s[i]] && more[|more| - 1] == s[i];
    forall n | 0 <= n < |kept| ensures kept[n] != s[i] {
      assert kept[n] in kept;
      var j :| 0 <= j < |s[..i]| && s[..i][j] == kept[n];
    }
  }

  lemma ScannedAgain(t: Trail, s: Clause, i: nat, kept: Clause)
    requires 0 < i < |s| && Scanned(t, s, i, kept) && s[i - 1] == s[i] && NonZero(s)
    ensures Scanned(t, s, i + 1, kept)
  {
    assert s[..i + 1] == s[..i] + [s[i]];
    assert s[i - 1] == s[..i][i - 1];
    assert s[i] in s;
  }

  lemma ScannedAll(t: Trail, s: Clause, kept: Clause)
    requires NonZero(s) && Scanned(t, s, |s|, kept)
    ensures !Trivial(t, s) && forall l :: l in kept <==> l in s
  {
    assert s[..|s|] == s;
    forall j, k | 0 <= j < |s| && 0 <= k < |s| ensures s[j] != -s[k] {
      assert s[j] in s;
      assert k < j ==> s[k] != -s[j];
    }
  }

  /** Is the clause satisfied for good or a tautology? If not, its literals without repetition. */
  method TrivialClause(t: Trail, c: Clause) returns (trivial: bool, kept: Clause)
    requires NonZero(c)
    ensures trivial <==> Trivial(t, c)
    ensures !trivial ==> NoRepeats(kept) && forall l :: l in kept <==> l in c
  {
    hide Ascending, FixedTrue;
    var s := SortByKey(c);
    SortedByKey(c);
    assert Trivial(t, s) <==> Trivial(t, c);
    kept := [];
    for i := 0 to |s|
      invariant Scanned(t, s, i, kept)
    {
      if kept != [] && kept[|kept| - 1] == s[i] {
        ScannedAgain(t, s, i, kept);
        continue;
      }
      assert s[i] in s;
      if FixedTrue(t, s[i]) {
        return true, kept;
      }
      if kept != [] && kept[|kept| - 1] == -s[i] {
        assert s[i - 1] in s;
        return true, kept;
      }
      NewLiteral(s, i);
      ScannedOneMore(t, s, i, kept);
      kept := kept + [s[i]];
    }
    ScannedAll(t, s, kept);
    trivial := false;
  }

  // ----- shrinking -----

  /** The literals that are not false, in order. */
  function NotFalse(t: Trail, c: Clause): Clause {
    if c == [] then [] else (if False(t, c[0]) then [] else [c[0]]) + NotFalse(t, c[1..])
  }

  lemma {:induction false} NotFalseIn(t: Trail, c: Clause)
    ensures forall l :: l in NotFalse(t, c) <==> l in c && !False(t, l)
    ensures NoRepeats(c) ==> NoRepeats(NotFalse(t, c))
    decreases |c|
  {
    if c != [] {
      NotFalseIn(t, c[1..]);
      assert c == [c[0]] + c[1..];
    }
  }

  lemma FirstNotFalse(t: Trail, c: Clause)
    requires NotFalse(t, c) != []
    ensures NotFalse(t, c)[0] in c && !False(t, NotFalse(t, c)[0])
  {
    NotFalseIn(t, c);
    assert NotFalse(t, c)[0] in NotFalse(t, c);
  }

  /** Resolve away what is false. */
  method Shrink(t: Trail, c: Clause) returns (r: Clause)
    ensures r == NotFalse(t, c)
  {
    r := [];
    assert c[0..] == c;
    for i := 0 to |c|
      invariant NotFalse(t, c) == r + NotFalse(t, c[i..])
    {
      assert c[i..][1..] == c[i + 1..];
      if !False(t, c[i]) {
        r := r + [c[i]];
      }
    }
  }

  /** On level zero, what the trail says holds in every model. */
  lemma FixedForModels(t: Trail, cs: seq<Clause>, a: Assignment, l: int)
    requires TrailOk(t, cs, 0) && ClausesTrue(a, cs)
    ensures True(t, l) ==> LitTrue(a, l)
    ensures False(t, l) ==> !LitTrue(a, l)
  {
    forall i | 0 <= i < |t.lits| ensures LitTrue(a, t.lits[i]) {
      PosOf(t, i);
      AssignedKnown(t, Abs(t.lits[i]));
      assert LevelAt(t, i) <= 0;
      ForcedAgree(t, cs, 0, a, {}, Abs(t.lits[i]));
    }
    if False(t, l) {
      var i :| 0 <= i < |t.lits| && t.lits[i] == -l;
      assert LitTrue(a, -l) && l != 0;
    }
  }

  /** A trivial clause excludes no model. */
  lemma TrivialModels(t: Trail, cs: seq<Clause>, c: Clause)
    requires TrailOk(t, cs, 0) && NonZero(c) && Trivial(t, c)
    ensures SameModels(cs + [c], cs) && exists l :: l in c && !False(t, l)
  {
    hide TrailOk;
    var l :| l in c && (FixedTrue(t, l) || -l in c);
    forall a: Assignment | ClausesTrue(a, cs) ensures ClauseTrue(a, c) {
      FixedForModels(t, cs, a, l);
      assert LitTrue(a, l) || LitTrue(a, -l);
    }
    OneMoreModels(cs, c);
    NotBothFalse(t, cs, l);
  }

  lemma NotBothFalse(t: Trail, cs: seq<Clause>, l: int)
    requires TrailOk(t, cs, 0)
    ensures !False(t, l) || !False(t, -l)
    ensures True(t, l) ==> !False(t, l)
  {
    if False(t, l) {
      FalseAssigned(t, l);
    }
  }

  lemma OneMoreModels(cs: seq<Clause>, c: Clause)
    requires forall a: Assignment :: ClausesTrue(a, cs) ==> ClauseTrue(a, c)
    ensures SameModels(cs + [c], cs)
  {
    forall a: Assignment ensures ClausesTrue(a, cs + [c]) <==> ClausesTrue(a, cs) {
    }
  }

  /** Without the literals that are false for good, a clause excludes the same assignments. */
  lemma ShrunkModels(t: Trail, cs: seq<Clause>, c: Clause, d: Clause, more: seq<Clause>)
    requires TrailOk(t, cs, 0) && OneMore(cs, d, more) && forall l :: l in d <==> l in c && !False(t, l)
    ensures SameModels(cs + [c], more)
  {
    hide TrailOk;
    forall a: Assignment ensures ClausesTrue(a, cs + [c]) <==> ClausesTrue(a, more) {
      if ClausesTrue(a, cs) {
        ShrunkTrue(t, cs, a, c, d);
      }
    }
  }

  lemma ShrunkTrue(t: Trail, cs: seq<Clause>, a: Assignment, c: Clause, d: Clause)
    requires TrailOk(t, cs, 0) && ClausesTrue(a, cs) && forall l :: l in d <==> l in c && !False(t, l)
    ensures ClauseTrue(a, c) <==> ClauseTrue(a, d)
  {
    if ClauseTrue(a, c) {
      var l :| l in c && LitTrue(a, l);
      FixedForModels(t, cs, a, l);
      assert l in d;
    }
  }

  lemma NothingTrue(cs: seq<Clause>, more: seq<Clause>)
    requires OneMore(cs, [], more)
    ensures forall a: Assignment :: !ClausesTrue(a, more)
  {
    assert [] in more;
    forall a: Assignment ensures !ClausesTrue(a, more) {
      assert !ClauseTrue(a, []);
    }
  }

  lemma OpenOnZero(t: Trail, cs: seq<Clause>, c: Clause, d: Clause)
    requires TrailOk(t, cs, 0) && !Trivial(t, c) && forall l :: l in d <==> l in c && !False(t, l)
    ensures forall l :: l in d ==> Undefined(t, l)
  {
    forall l | l in d ensures Undefined(t, l) {
      if True(t, l) {
        TrueOnLevel(t, cs, 0, l);
        assert FixedTrue(t, l);
      }
    }
  }

  /** Add any clause on level zero: a trivial one is dropped, of others what is not false is added. Nothing
      may be left, and then there is no model. */
  method AddOriginal(p: Propagator, c: Clause) returns (ok: bool)
    requires p.Valid() && p.conflict.None? && p.top == 0 && NonZero(c) && ClauseBounded(c, p.maxVar)
    modifies p
    ensures p.Valid() && p.conflict.None? && p.top == 0 && old(p.t.lits) <= p.t.lits && p.decisions == old(p.decisions)
    ensures ok <==> exists l :: l in c && !False(old(p.t), l)
    ensures ok ==> SameModels(old(p.db + p.pairs) + [c], p.db + p.pairs)
    ensures !ok ==> forall a: Assignment :: !ClausesTrue(a, old(p.db + p.pairs) + [c])
  {
    hide Processed, BinProcessed, Watching, Permuted, BinOk, Bounded, UnitsFixed, TrailOk, SameModels, OneMore,
         NoRepeats, False;
    ghost var t, cs := p.t, p.db + p.pairs;
    var trivial, kept := TrivialClause(p.t, c);
    if trivial {
      TrivialModels(t, cs, c);
      return true;
    }
    var open := Shrink(p.t, kept);
    NotFalseIn(t, kept);
    OpenOnZero(t, cs, c, open);
    if open == [] {
      NothingLeft(t, cs, c);
      return false;
    }
    FirstNotFalse(t, kept);
    AddOpen(p, open);
    ShrunkModels(t, cs, c, open, p.db + p.pairs);
    ok := true;
  }

  lemma NothingLeft(t: Trail, cs: seq<Clause>, c: Clause)
    requires TrailOk(t, cs, 0) && forall l :: l in c ==> False(t, l)
    ensures forall a: Assignment :: !ClausesTrue(a, cs + [c])
  {
    ShrunkModels(t, cs, c, [], cs + [[]]);
    NothingTrue(cs, cs + [[]]);
  }

  // ----- from clauses to an answer -----

  /** Add clauses one after the other, until one leaves no model. */
  method AddAll(p: Propagator, cs: seq<Clause>) returns (ok: bool)
    requires p.Valid() && p.conflict.None? && p.top == 0 && p.db + p.pairs == []
    requires forall c :: c in cs ==> NonZero(c) && ClauseBounded(c, p.maxVar)
    modifies p
    ensures p.Valid() && p.conflict.None? && p.top == 0 && p.decisions == old(p.decisions)
    ensures ok ==> SameModels(cs, p.db + p.pairs)
    ensures !ok ==> forall a: Assignment :: !ClausesTrue(a, cs)
  {
    hide Processed, BinProcessed, Stocked, Bounded, UnitsFixed, ConflictOk;
    for i := 0 to |cs|
      invariant p.Valid() && p.conflict.None? && p.top == 0 && p.decisions == old(p.decisions)
      invariant SameModels(cs[..i], p.db + p.pairs)
    {
      assert cs[i] in cs;
      assert cs[..i + 1] == cs[..i] + [cs[i]];
      ghost var before := p.db + p.pairs;
      ok := AddOriginal(p, cs[i]);
      WithOneMore(cs[..i], before, cs[i]);
      if !ok {
        PrefixModels(cs, i + 1);
        return;
      }
      SameModelsAgain(cs[..i + 1], before + [cs[i]], p.db + p.pairs);
    }
    assert cs[..|cs|] == cs;
    ok := true;
  }

  lemma WithOneMore(cs: seq<Clause>, ds: seq<Clause>, c: Clause)
    requires SameModels(cs, ds)
    ensures SameModels(cs + [c], ds + [c])
  {
    forall a: Assignment ensures ClausesTrue(a, cs + [c]) <==> ClausesTrue(a, ds + [c]) {
      assert ClausesTrue(a, cs + [c]) <==> ClausesTrue(a, cs) && ClauseTrue(a, c);
      assert ClausesTrue(a, ds + [c]) <==> ClausesTrue(a, ds) && ClauseTrue(a, c);
    }
  }

  lemma SameModelsAgain(cs: seq<Clause>, ds: seq<Clause>, es: seq<Clause>)
    requires SameModels(cs, ds)
    ensures SameModels(ds, es) ==> SameModels(cs, es)
    ensures (forall a: Assignment :: !ClausesTrue(a, ds)) ==> forall a: Assignment :: !ClausesTrue(a, cs)
  {
    hide ClausesTrue;
  }

  lemma PrefixModels(cs: seq<Clause>, n: nat)
    requires n <= |cs|
    ensures (forall a: Assignment :: !ClausesTrue(a, cs[..n])) ==> forall a: Assignment :: !ClausesTrue(a, cs)
  {
    forall a: Assignment | ClausesTrue(a, cs) ensures ClausesTrue(a, cs[..n]) {
      assert forall c :: c in cs[..n] ==> c in cs;
    }
  }

  /** All variables in use are in the heap before the search. */
  method FillHeap(h: Heap, ghost t: Trail)
    requires h.Valid() && |h.pos| > 0 && forall r :: 0 <= r < |h.pos| ==> h.pos[r] == 0
    modifies h`heap, h`pos
    ensures h.Valid() && |h.pos| == old(|h.pos|) && Covers(h.pos, t)
  {
    hide Placed, Ordered;
    for v := 1 to |h.pos|
      invariant h.Valid() && |h.pos| == old(|h.pos|)
      invariant forall r :: 0 <= r < |h.pos| ==> (h.pos[r] > 0 <==> 1 <= r < v)
    {
      h.Push(v);
    }
  }

  /** Decide clauses, up to a number of decisions: "satisfiable" comes with a model of them, "unsatisfiable"
      only when there is none. The answer is open only after as many decisions as the limit allows. */
  method SolveClauses(cs: seq<Clause>, maxVar: nat, simplifying: bool, limit: int)
    returns (r: Result, ghost model: Assignment, ghost decisions: nat)
    requires forall c :: c in cs ==> NonZero(c) && ClauseBounded(c, maxVar)
    ensures r == Satisfiable ==> ClausesTrue(model, cs)
    ensures r == Unsatisfiable ==> forall a: Assignment :: !ClausesTrue(a, cs)
    ensures decisions <= if limit < 0 then INT_MAX else limit
    ensures r == Unknown ==> decisions == if limit < 0 then INT_MAX else limit
  {
    hide Processed, BinProcessed, Stocked, Bounded, UnitsFixed, ConflictOk, ModelOf, ClausesTrue;
    var p := new Propagator(simplifying, maxVar);
    model, decisions := iset{}, 0;
    var ok := AddAll(p, cs);
    if !ok {
      return Unsatisfiable, model, 0;
    }
    ghost var added := p.db + p.pairs;
    var h := new Heap(maxVar + 1);
    FillHeap(h, p.t);
    r := Solve(p, h, limit);
    model, decisions := ModelOf(p.t), p.decisions;
    SameModelsAgain(cs, added, added);
  }
}
