/** Partly sorted literal vectors with k-merging: the specification of what each merge yields. */
module LitVectors {
  import opened Sequences
  import opened Literals

  /** The configured merging length: only this many leading literals are kept sorted. */
  const MERGING: nat := 5

  function Window(n: nat): nat {
    if n < MERGING then n else MERGING
  }

  ghost predicate SortedUpTo(s: Clause, n: int) {
    forall i, j :: 0 <= i < j < |s| && j < n ==> Abs(s[i]) < Abs(s[j])
  }

  /** The leading `MERGING` literals are strictly increasing in absolute value. */
  ghost predicate WindowSorted(s: Clause) {
    SortedUpTo(s, MERGING)
  }

  lemma ShortIsDistinct(s: Clause)
    requires WindowSorted(s) && |s| <= MERGING
    ensures NoRepeats(s)
  {
  }

  /** First index of the window, from `i` on, whose variable is at least that of `l`. */
  function Slot(s: Clause, l: int, i: nat): (p: nat)
    requires i <= Window(|s|)
    ensures i <= p <= Window(|s|)
    ensures forall k :: i <= k < p ==> Abs(s[k]) < Abs(l)
    ensures p < Window(|s|) ==> Abs(l) <= Abs(s[p])
    decreases Window(|s|) - i
  {
    if i == Window(|s|) || Abs(l) <= Abs(s[i]) then i else Slot(s, l, i + 1)
  }

  function AddLit(s: Clause, l: int): Clause {
    var p := Slot(s, l, 0);
    if p < Window(|s|) && Abs(s[p]) == Abs(l) then
      (if s[p] == -l then [] else s)
    else if |s| < MERGING then s[..p] + [l] + s[p..]
    else s + [l]
  }

  /** What the window walk from (i, j) appends to `s`; none when it meets a complementary pair. */
  function Novel(s: Clause, t: Clause, i: nat, j: nat): Option<Clause>
    requires i <= Window(|s|) && j <= Window(|t|)
    decreases Window(|s|) - i + Window(|t|) - j
  {
    if i == Window(|s|) || j == Window(|t|) then Some(t[j..])
    else if Abs(s[i]) < Abs(t[j]) then Novel(s, t, i + 1, j)
    else if Abs(t[j]) < Abs(s[i]) then
      match Novel(s, t, i, j + 1)
      case None => None
      case Some(x) => Some([t[j]] + x)
    else if s[i] == t[j] then Novel(s, t, i + 1, j + 1)
    else None
  }

  /** The merge of the two windows from (i, j), then what is left of `t`, then what is left of `s`. */
  function Merged(s: Clause, t: Clause, i: nat, j: nat): Option<Clause>
    requires i <= Window(|s|) && j <= Window(|t|)
    decreases Window(|s|) - i + Window(|t|) - j
  {
    if i == Window(|s|) || j == Window(|t|) then Some(t[j..] + s[i..])
    else if Abs(s[i]) < Abs(t[j]) then
      match Merged(s, t, i + 1, j)
      case None => None
      case Some(x) => Some([s[i]] + x)
    else if Abs(t[j]) < Abs(s[i]) then
      match Merged(s, t, i, j + 1)
      case None => None
      case Some(x) => Some([t[j]] + x)
    else if s[i] == t[j] then
      match Merged(s, t, i + 1, j + 1)
      case None => None
      case Some(x) => Some([t[j]] + x)
    else None
  }

  function OrEmpty(r: Option<Clause>): Clause {
    match r
    case None => []
    case Some(x) => x
  }

  /** Appending to a vector whose window is already full. */
  function Append(s: Clause, t: Clause): Clause {
    match Novel(s, t, 0, 0)
    case None => []
    case Some(x) => s + x
  }

  function Merge(s: Clause, t: Clause): Clause {
    OrEmpty(Merged(s, t, 0, 0))
  }

  /** `s += t` */
  function Plus(s: Clause, t: Clause): Clause {
    if |s| >= MERGING then Append(s, t) else Merge(s, t)
  }

  /** A fresh vector made from two others. */
  function Combine(s: Clause, t: Clause): Clause {
    if |s| >= MERGING then Append(s, t)
    else if |t| >= MERGING then Append(t, s)
    else Merge(s, t)
  }

  /** A fresh vector made from two literals of different variables. */
  function Pair(k: int, l: int): Clause {
    if Abs(k) < Abs(l) then [k, l] else [l, k]
  }

  /** What every merge promises: the union of the literals, window kept sorted,
      or the empty vector on a complementary pair. */
  ghost predicate MergeOf(r: Clause, s: Clause, t: Clause) {
    && WindowSorted(r)
    && (IsUnion(r, s, t) || (r == [] && Complementary(s, t)))
  }

  lemma AddLitMerges(s: Clause, l: int)
    requires WindowSorted(s)
    ensures MergeOf(AddLit(s, l), s, [l])
  {
    var p := Slot(s, l, 0);
    if p < Window(|s|) && Abs(s[p]) == Abs(l) {
      if s[p] == -l {
        assert s[p] in s && -s[p] in [l];
      } else {
        assert s[p] == l;
      }
    } else if |s| < MERGING {
      InsertKeepsOrder(s, l, p);
      InsertIsUnion(s, l, p);
    } else {
      assert IsUnion(s + [l], s, [l]);
    }
  }

  lemma InsertKeepsOrder(s: Clause, l: int, p: nat)
    requires WindowSorted(s) && p <= |s| < MERGING
    requires forall k :: 0 <= k < p ==> Abs(s[k]) < Abs(l)
    requires p < |s| ==> Abs(l) < Abs(s[p])
    ensures WindowSorted(s[..p] + [l] + s[p..])
  {
    var r := s[..p] + [l] + s[p..];
    forall i, j | 0 <= i < j < |r| ensures Abs(r[i]) < Abs(r[j]) {
      assert r[j] == if j < p then s[j] else if j == p then l else s[j - 1];
      assert r[i] == if i < p then s[i] else if i == p then l else s[i - 1];
    }
  }

  lemma InsertIsUnion(s: Clause, l: int, p: nat)
    requires p <= |s|
    ensures IsUnion(s[..p] + [l] + s[p..], s, [l])
  {
    assert s == s[..p] + s[p..];
  }

  lemma {:induction false} NovelMerges(s: Clause, t: Clause, i: nat, j: nat)
    requires i <= Window(|s|) && j <= Window(|t|)
    ensures Novel(s, t, i, j).None? ==> Complementary(s, t)
    ensures Novel(s, t, i, j).Some? ==> IsUnion(s + Novel(s, t, i, j).value, s, t[j..])
    decreases Window(|s|) - i + Window(|t|) - j
  {
    if i == Window(|s|) || j == Window(|t|) {
    } else if Abs(s[i]) < Abs(t[j]) {
      NovelMerges(s, t, i + 1, j);
    } else {
      assert t[j..] == [t[j]] + t[j + 1..];
      if Abs(t[j]) < Abs(s[i]) {
        NovelMerges(s, t, i, j + 1);
      } else if s[i] == t[j] {
        NovelMerges(s, t, i + 1, j + 1);
      } else {
        assert s[i] in s && -s[i] in t;
      }
    }
  }

  lemma {:induction false} MergedMerges(s: Clause, t: Clause, i: nat, j: nat)
    requires i <= Window(|s|) && j <= Window(|t|)
    ensures Merged(s, t, i, j).None? ==> Complementary(s, t)
    ensures Merged(s, t, i, j).Some? ==> IsUnion(Merged(s, t, i, j).value, s[i..], t[j..])
    decreases Window(|s|) - i + Window(|t|) - j
  {
    if i == Window(|s|) || j == Window(|t|) {
    } else {
      assert s[i..] == [s[i]] + s[i + 1..];
      assert t[j..] == [t[j]] + t[j + 1..];
      if Abs(s[i]) < Abs(t[j]) {
        MergedMerges(s, t, i + 1, j);
      } else if Abs(t[j]) < Abs(s[i]) {
        MergedMerges(s, t, i, j + 1);
      } else if s[i] == t[j] {
        MergedMerges(s, t, i + 1, j + 1);
      } else {
        assert s[i] in s && -s[i] in t;
      }
    }
  }

  /** `r` is sorted among its first `n` literals and starts above `m`. */
  ghost predicate GoodTail(r: Option<Clause>, m: int, n: int) {
    r.Some? ==> SortedUpTo(r.value, n) && (|r.value| > 0 && 0 < n ==> m < Abs(r.value[0]))
  }

  lemma PrependKeepsOrder(l: int, r: Option<Clause>, m: int, n: int)
    requires GoodTail(r, Abs(l), n - 1) && m < Abs(l) && r.Some?
    ensures GoodTail(Some([l] + r.value), m, n)
  {
    var x := [l] + r.value;
    forall i, j | 0 <= i < j < |x| && j < n ensures Abs(x[i]) < Abs(x[j]) {
      assert x[j] == r.value[j - 1];
      assert 0 < n - 1;
    }
  }

  lemma SuffixKeepsOrder(s: Clause, i: nat, k: nat, m: int)
    requires WindowSorted(s) && i <= Window(|s|) && i <= k
    requires i < Window(|s|) ==> m < Abs(s[i])
    ensures GoodTail(Some(s[i..]), m, MERGING - k)
  {
    var x := s[i..];
    forall u, v | 0 <= u < v < |x| && v < MERGING - k ensures Abs(x[u]) < Abs(x[v]) {
      assert x[u] == s[i + u] && x[v] == s[i + v];
    }
  }

  lemma LeftoverKeepsOrder(s: Clause, t: Clause, i: nat, j: nat, k: nat, m: int)
    requires WindowSorted(s) && WindowSorted(t)
    requires i <= Window(|s|) && j <= Window(|t|) && i <= k && j <= k
    requires i < Window(|s|) ==> m < Abs(s[i])
    requires j < Window(|t|) ==> m < Abs(t[j])
    requires i == Window(|s|) || j == Window(|t|)
    ensures GoodTail(Some(t[j..] + s[i..]), m, MERGING - k)
  {
    if k < MERGING {
      if j == Window(|t|) {
        assert t[j..] + s[i..] == s[i..];
        SuffixKeepsOrder(s, i, k, m);
      } else {
        assert t[j..] + s[i..] == t[j..];
        SuffixKeepsOrder(t, j, k, m);
      }
    }
  }

  /** After `k` literals are out, what follows is sorted as far as the window still reaches,
      and starts above every bound `m` below both read positions. */
  lemma {:induction false} MergedSorted(s: Clause, t: Clause, i: nat, j: nat, k: nat, m: int)
    requires WindowSorted(s) && WindowSorted(t)
    requires i <= Window(|s|) && j <= Window(|t|) && i <= k && j <= k
    requires i < Window(|s|) ==> m < Abs(s[i])
    requires j < Window(|t|) ==> m < Abs(t[j])
    ensures GoodTail(Merged(s, t, i, j), m, MERGING - k)
    decreases Window(|s|) - i + Window(|t|) - j
  {
    if i == Window(|s|) || j == Window(|t|) {
      LeftoverKeepsOrder(s, t, i, j, k, m);
    } else {
      var u, v := if Abs(s[i]) <= Abs(t[j]) then i + 1 else i, if Abs(t[j]) <= Abs(s[i]) then j + 1 else j;
      var l := if Abs(s[i]) < Abs(t[j]) then s[i] else t[j];
      if Abs(s[i]) != Abs(t[j]) || s[i] == t[j] {
        MergedSorted(s, t, u, v, k + 1, Abs(l));
        var r := Merged(s, t, u, v);
        if r.Some? {
          PrependKeepsOrder(l, r, m, MERGING - k);
        }
      }
    }
  }

  lemma AppendMerges(s: Clause, t: Clause)
    requires WindowSorted(s) && |s| >= MERGING
    ensures MergeOf(Append(s, t), s, t)
  {
    NovelMerges(s, t, 0, 0);
    assert t[0..] == t;
  }

  lemma MergeMerges(s: Clause, t: Clause)
    requires WindowSorted(s) && WindowSorted(t)
    ensures MergeOf(Merge(s, t), s, t)
  {
    MergedMerges(s, t, 0, 0);
    MergedSorted(s, t, 0, 0, 0, -1);
    assert s[0..] == s && t[0..] == t;
  }

  lemma PlusMerges(s: Clause, t: Clause)
    requires WindowSorted(s) && WindowSorted(t)
    ensures MergeOf(Plus(s, t), s, t)
  {
    if |s| >= MERGING { AppendMerges(s, t); } else { MergeMerges(s, t); }
  }

  lemma CombineMerges(s: Clause, t: Clause)
    requires WindowSorted(s) && WindowSorted(t) && NonZero(s) && NonZero(t)
    ensures MergeOf(Combine(s, t), s, t)
  {
    if |s| >= MERGING {
      AppendMerges(s, t);
    } else if |t| >= MERGING {
      AppendMerges(t, s);
      if Complementary(t, s) {
        var l :| l in t && -l in s;
        assert -l in s && -(-l) in t;
      }
    } else {
      MergeMerges(s, t);
    }
  }

  lemma PairMerges(k: int, l: int)
    requires Abs(k) != Abs(l)
    ensures MergeOf(Pair(k, l), [k], [l]) && |Pair(k, l)| == 2
  {
  }

  // ----- what a merge leaves out -----

  /** The literals that both windows have, from (i, j) on. */
  ghost function Common(s: Clause, t: Clause, i: nat, j: nat): multiset<int>
    requires i <= Window(|s|) && j <= Window(|t|)
  {
    multiset(s[i..Window(|s|)]) * multiset(t[j..Window(|t|)])
  }

  /** A merge is empty when the windows hold a complementary pair, and otherwise leaves out one copy of every literal
      that both windows have, and nothing else. */
  ghost predicate ExactMerge(r: Clause, s: Clause, t: Clause) {
    if Complementary(s[..Window(|s|)], t[..Window(|t|)]) then r == []
    else multiset(r) + Common(s, t, 0, 0) == multiset(s) + multiset(t)
  }

  lemma ExactSize(r: Clause, s: Clause, t: Clause)
    requires ExactMerge(r, s, t)
    ensures |r| <= |s| + |t|
  {
    assert |multiset(r)| == |r| && |multiset(s) + multiset(t)| == |s| + |t|;
    assert multiset(r) <= multiset(r) + Common(s, t, 0, 0);
  }

  /** The rest of a window without its first literal. */
  lemma WindowTail(s: Clause, i: nat)
    requires i < Window(|s|) && WindowSorted(s)
    ensures var w := Window(|s|);
      && s[i..w] == [s[i]] + s[i + 1..w] && multiset(s[i..w]) == multiset{s[i]} + multiset(s[i + 1..w])
    ensures forall l :: l in s[i + 1..Window(|s|)] ==> Abs(l) > Abs(s[i])
  {
    var w := Window(|s|);
    assert s[i..w] == [s[i]] + s[i + 1..w];
    forall l | l in s[i + 1..w] ensures Abs(l) > Abs(s[i]) {
      var k :| 0 <= k < |s[i + 1..w]| && s[i + 1..w][k] == l;
    }
  }

  /** A literal whose variable is below all others of a window can be passed over. */
  lemma PassedOver(l: int, s: Clause, t: Clause)
    requires forall x :: x in t ==> Abs(x) > Abs(l)
    ensures multiset([l] + s) * multiset(t) == multiset(s) * multiset(t)
    ensures multiset(t) * multiset([l] + s) == multiset(t) * multiset(s)
    ensures Complementary([l] + s, t) <==> Complementary(s, t)
    ensures Complementary(t, [l] + s) <==> Complementary(t, s)
  {
    assert multiset([l] + s) == multiset{l} + multiset(s);
    assert l !in t && -l !in t;
    if Complementary(s, t) {
      var x :| x in s && -x in t;
      assert x in [l] + s;
    }
    if Complementary(t, s) {
      var x :| x in t && -x in s;
      assert -x in [l] + s;
    }
    if Complementary(t, [l] + s) {
      var x :| x in t && -x in [l] + s;
      assert x != -l;
    }
  }

  /** Equal heads are in common. */
  lemma EqualHeads(l: int, s: Clause, t: Clause)
    requires l != 0 && (forall x :: x in s ==> Abs(x) > Abs(l)) && forall x :: x in t ==> Abs(x) > Abs(l)
    ensures multiset([l] + s) * multiset([l] + t) == multiset{l} + multiset(s) * multiset(t)
    ensures Complementary([l] + s, [l] + t) <==> Complementary(s, t)
  {
    assert multiset([l] + s) == multiset{l} + multiset(s) && multiset([l] + t) == multiset{l} + multiset(t);
    if Complementary(s, t) {
      var x :| x in s && -x in t;
      assert x in [l] + s && -x in [l] + t;
    }
    if Complementary([l] + s, [l] + t) {
      var x :| x in [l] + s && -x in [l] + t;
      assert x in s && -x in t;
    }
  }

  lemma SuffixBag(s: Clause, i: nat)
    requires i < |s|
    ensures multiset(s[i..]) == multiset{s[i]} + multiset(s[i + 1..])
  {
    assert s[i..] == [s[i]] + s[i + 1..];
  }

  /** Some variable occurs with both signs in what is left of the windows. */
  ghost predicate Clash(s: Clause, t: Clause, i: nat, j: nat)
    requires i <= Window(|s|) && j <= Window(|t|)
  {
    Complementary(s[i..Window(|s|)], t[j..Window(|t|)])
  }

  lemma NoneInCommon(s: Clause, t: Clause, i: nat, j: nat)
    requires i <= Window(|s|) && j <= Window(|t|) && (i == Window(|s|) || j == Window(|t|))
    ensures Common(s, t, i, j) == multiset{} && !Clash(s, t, i, j)
  {
  }

  /** What a step of the walk does to what the windows have in common. */
  lemma CommonStep(s: Clause, t: Clause, i: nat, j: nat)
    requires WindowSorted(s) && WindowSorted(t) && NonZero(s) && i < Window(|s|) && j < Window(|t|)
    ensures Abs(s[i]) < Abs(t[j]) ==>
      Common(s, t, i, j) == Common(s, t, i + 1, j) && (Clash(s, t, i, j) <==> Clash(s, t, i + 1, j))
    ensures Abs(t[j]) < Abs(s[i]) ==>
      Common(s, t, i, j) == Common(s, t, i, j + 1) && (Clash(s, t, i, j) <==> Clash(s, t, i, j + 1))
    ensures s[i] == t[j] ==>
      Common(s, t, i, j) == multiset{t[j]} + Common(s, t, i + 1, j + 1) &&
      (Clash(s, t, i, j) <==> Clash(s, t, i + 1, j + 1))
    ensures Abs(s[i]) == Abs(t[j]) && s[i] != t[j] ==> Clash(s, t, i, j)
  {
    hide WindowSorted, Complementary;
    var v, w := Window(|s|), Window(|t|);
    assert s[i] in s;
    WindowTail(s, i);
    WindowTail(t, j);
    if Abs(s[i]) < Abs(t[j]) {
      PassedOver(s[i], s[i + 1..v], t[j..w]);
    } else if Abs(t[j]) < Abs(s[i]) {
      PassedOver(t[j], t[j + 1..w], s[i..v]);
    } else if s[i] == t[j] {
      EqualHeads(s[i], s[i + 1..v], t[j + 1..w]);
    } else {
      FoundPair(s[i], s[i..v], t[j..w]);
    }
  }

  lemma FoundPair(l: int, s: Clause, t: Clause)
    requires l in s && -l in t
    ensures Complementary(s, t)
  {
  }

  lemma Prepended(l: int, r: Option<Clause>)
    ensures r.Some? ==> multiset([l] + r.value) == multiset{l} + multiset(r.value)
  {
  }

  lemma {:induction false} NovelExact(s: Clause, t: Clause, i: nat, j: nat)
    requires WindowSorted(s) && WindowSorted(t) && NonZero(s) && i <= Window(|s|) && j <= Window(|t|)
    ensures Novel(s, t, i, j).None? <==> Clash(s, t, i, j)
    ensures Novel(s, t, i, j).Some? ==>
      multiset(Novel(s, t, i, j).value) + Common(s, t, i, j) == multiset(t[j..])
    decreases Window(|s|) - i + Window(|t|) - j
  {
    hide WindowSorted, Clash, Common;
    if i == Window(|s|) || j == Window(|t|) {
      NoneInCommon(s, t, i, j);
    } else {
      CommonStep(s, t, i, j);
      SuffixBag(t, j);
      if Abs(s[i]) < Abs(t[j]) {
        NovelExact(s, t, i + 1, j);
      } else if Abs(t[j]) < Abs(s[i]) {
        NovelExact(s, t, i, j + 1);
        Prepended(t[j], Novel(s, t, i, j + 1));
      } else if s[i] == t[j] {
        NovelExact(s, t, i + 1, j + 1);
      }
    }
  }

  /** What a merge and what the windows have in common make up both vectors. */
  ghost predicate Balanced(r: Option<Clause>, c: multiset<int>, a: multiset<int>, b: multiset<int>) {
    r.Some? ==> multiset(r.value) + c == a + b
  }

  lemma BalancedStep(l: int, r: Option<Clause>, r': Option<Clause>, c: multiset<int>, a: multiset<int>,
                     b: multiset<int>)
    requires Balanced(r, c, a, b) && (r'.Some? ==> r.Some? && r'.value == [l] + r.value)
    ensures Balanced(r', c, multiset{l} + a, b) && Balanced(r', c, a, multiset{l} + b)
    ensures Balanced(r', multiset{l} + c, multiset{l} + a, multiset{l} + b)
  {
    if r'.Some? {
      assert multiset(r'.value) == multiset{l} + multiset(r.value);
      assert multiset(r'.value) + c == multiset{l} + (multiset(r.value) + c);
      assert multiset(r'.value) + (multiset{l} + c) == multiset{l} + multiset{l} + (multiset(r.value) + c);
    }
  }

  lemma {:induction false} MergedExact(s: Clause, t: Clause, i: nat, j: nat)
    requires WindowSorted(s) && WindowSorted(t) && NonZero(s) && i <= Window(|s|) && j <= Window(|t|)
    ensures Merged(s, t, i, j).None? <==> Clash(s, t, i, j)
    ensures Balanced(Merged(s, t, i, j), Common(s, t, i, j), multiset(s[i..]), multiset(t[j..]))
    decreases Window(|s|) - i + Window(|t|) - j
  {
    hide WindowSorted, Clash, Common, Balanced;
    if i == Window(|s|) || j == Window(|t|) {
      NoneInCommon(s, t, i, j);
      BalancedEnd(s[i..], t[j..]);
    } else {
      CommonStep(s, t, i, j);
      SuffixBag(s, i);
      SuffixBag(t, j);
      var u, v := if Abs(s[i]) <= Abs(t[j]) then i + 1 else i, if Abs(t[j]) <= Abs(s[i]) then j + 1 else j;
      var l := if Abs(s[i]) < Abs(t[j]) then s[i] else t[j];
      if Abs(s[i]) != Abs(t[j]) || s[i] == t[j] {
        MergedExact(s, t, u, v);
        BalancedStep(l, Merged(s, t, u, v), Merged(s, t, i, j), Common(s, t, u, v), multiset(s[u..]), multiset(t[v..]));
      } else {
        BalancedNone(Common(s, t, i, j), multiset(s[i..]), multiset(t[j..]));
      }
    }
  }

  lemma BalancedEnd(s: Clause, t: Clause)
    ensures Balanced(Some(t + s), multiset{}, multiset(s), multiset(t))
  {
  }

  lemma BalancedNone(c: multiset<int>, a: multiset<int>, b: multiset<int>)
    ensures Balanced(None, c, a, b)
  {
  }

  lemma AppendExact(s: Clause, t: Clause)
    requires WindowSorted(s) && WindowSorted(t) && NonZero(s) && |s| >= MERGING
    ensures ExactMerge(Append(s, t), s, t)
  {
    NovelExact(s, t, 0, 0);
    assert t[0..] == t;
  }

  lemma MergeExact(s: Clause, t: Clause)
    requires WindowSorted(s) && WindowSorted(t) && NonZero(s)
    ensures ExactMerge(Merge(s, t), s, t)
  {
    MergedExact(s, t, 0, 0);
    assert s[0..] == s && t[0..] == t;
  }

  lemma ExactSwaps(r: Clause, s: Clause, t: Clause)
    requires ExactMerge(r, t, s)
    ensures ExactMerge(r, s, t)
  {
    var a, b := s[..Window(|s|)], t[..Window(|t|)];
    assert Complementary(a, b) <==> Complementary(b, a) by {
      if Complementary(a, b) {
        var l :| l in a && -l in b;
        assert -l in b && -(-l) in a;
      }
      if Complementary(b, a) {
        var l :| l in b && -l in a;
        assert -l in a && -(-l) in b;
      }
    }
    assert Common(s, t, 0, 0) == Common(t, s, 0, 0);
  }

  lemma PlusExact(s: Clause, t: Clause)
    requires WindowSorted(s) && WindowSorted(t) && NonZero(s)
    ensures ExactMerge(Plus(s, t), s, t)
  {
    if |s| >= MERGING { AppendExact(s, t); } else { MergeExact(s, t); }
  }

  lemma CombineExact(s: Clause, t: Clause)
    requires WindowSorted(s) && WindowSorted(t) && NonZero(s) && NonZero(t)
    ensures ExactMerge(Combine(s, t), s, t)
  {
    if |s| >= MERGING {
      AppendExact(s, t);
    } else if |t| >= MERGING {
      AppendExact(t, s);
      ExactSwaps(Append(t, s), s, t);
    } else {
      MergeExact(s, t);
    }
  }

  lemma AddLitExact(s: Clause, l: int)
    requires WindowSorted(s) && NonZero(s)
    ensures ExactMerge(AddLit(s, l), s, [l])
  {
    hide WindowSorted, ExactMerge;
    var p, w := Slot(s, l, 0), Window(|s|);
    SlotFinds(s, l);
    if p < w && Abs(s[p]) == Abs(l) {
      OnceInWindow(s, p);
      FoundExact(s, l, p);
    } else {
      NewExact(s, l, AddLit(s, l));
      assert s == s[..p] + s[p..];
    }
  }

  lemma FoundExact(s: Clause, l: int, p: nat)
    requires p < Window(|s|) && Abs(s[p]) == Abs(l) && NonZero(s) && multiset(s[..Window(|s|)])[s[p]] == 1
    requires forall k :: 0 <= k < Window(|s|) && k != p ==> Abs(s[k]) != Abs(l)
    ensures ExactMerge(if s[p] == -l then [] else s, s, [l])
  {
    var w := s[..Window(|s|)];
    assert s[0..Window(|s|)] == w && [l][0..Window(1)] == [l] && [l][..Window(1)] == [l];
    assert w[p] in s && w[p] in w;
    if s[p] == -l {
      FoundPair(-l, w, [l]);
    } else {
      assert multiset(w) * multiset{l} == multiset{l};
      assert -l !in w;
    }
  }

  lemma NewExact(s: Clause, l: int, r: Clause)
    requires forall x :: x in s[..Window(|s|)] ==> Abs(x) != Abs(l)
    ensures multiset(r) == multiset(s) + multiset{l} ==> ExactMerge(r, s, [l])
  {
    var w := s[..Window(|s|)];
    assert s[0..Window(|s|)] == w && [l][0..Window(1)] == [l] && [l][..Window(1)] == [l];
    assert l !in w && -l !in w;
    assert multiset(w) * multiset([l]) == multiset{};
  }

  /** A variable that the scan does not find is not in the window; one that it finds is there once. */
  lemma SlotFinds(s: Clause, l: int)
    requires WindowSorted(s)
    ensures var p, w := Slot(s, l, 0), Window(|s|);
      if p < w && Abs(s[p]) == Abs(l) then forall k :: 0 <= k < w && k != p ==> Abs(s[k]) != Abs(l)
      else forall x :: x in s[..w] ==> Abs(x) != Abs(l)
  {
    var p, w := Slot(s, l, 0), Window(|s|);
    assert forall k :: p < k < w ==> Abs(s[p]) < Abs(s[k]);
  }

  lemma OnceInWindow(s: Clause, p: nat)
    requires p < Window(|s|) && WindowSorted(s)
    ensures multiset(s[..Window(|s|)])[s[p]] == 1
  {
    var w := s[..Window(|s|)];
    assert w == w[..p] + [w[p]] + w[p + 1..];
    assert s[p] !in w[..p] && s[p] !in w[p + 1..];
  }
}
