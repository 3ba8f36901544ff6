/** Crossing singletons with singletons writes the matches back over the vector that is being read. */
module WriteBacks {
  import opened Sequences
  import opened Literals
  import opened LitVectors
  import opened CnfFormulas

  /** The vector after the literal at index `i` was paired with `u`: its copies in `u` are written from
      index `out` on. */
  function Round(buf: Clause, i: nat, u: Clause, out: nat): (r: Clause)
    requires i < |buf|
    ensures |r| == |buf|
  {
    seq(|buf|, k requires 0 <= k < |buf| => if out <= k < out + |Matches(buf[i], u)| then buf[i] else buf[k])
  }

  /** The vector, how many matches were written, and the pairs pushed on a list. */
  datatype Progress = Progress(buf: Clause, out: nat, pairs: seq<Clause>)

  /** The first `n` rounds of the loop, each reading what the earlier ones left. */
  function Rounds(s: Clause, u: Clause, acc: seq<Clause>, n: nat): (q: Progress)
    requires n <= |s|
    ensures |q.buf| == |s|
  {
    if n == 0 then Progress(s, 0, acc)
    else
      var q := Rounds(s, u, acc, n - 1);
      var l := q.buf[n - 1];
      Progress(Round(q.buf, n - 1, u, q.out), q.out + |Matches(l, u)|, PushPairs(l, u, q.pairs))
  }

  /** Any first part of `s` has no more matches than literals. */
  ghost predicate Roomy(s: Clause, u: Clause) {
    forall k :: 0 < k <= |s| ==> |AllMatches(s[..k], u)| <= k
  }

  lemma {:induction false} MatchesSplit(s: Clause, t: Clause, u: Clause)
    ensures AllMatches(s + t, u) == AllMatches(s, u) + AllMatches(t, u)
  {
    if s == [] {
      assert s + t == t;
    } else {
      assert (s + t)[1..] == s[1..] + t;
      MatchesSplit(s[1..], t, u);
    }
  }

  lemma {:induction false} PairsSplit(s: Clause, t: Clause, u: Clause, acc: seq<Clause>)
    ensures PushAllPairs(s + t, u, acc) == PushAllPairs(t, u, PushAllPairs(s, u, acc))
    decreases |s|
  {
    if s == [] {
      assert s + t == t;
    } else {
      assert (s + t)[1..] == s[1..] + t;
      PairsSplit(s[1..], t, u, PushPairs(s[0], u, acc));
    }
  }

  /** One literal more. */
  lemma NextLiteral(s: Clause, u: Clause, acc: seq<Clause>, n: nat)
    requires n < |s|
    ensures AllMatches(s[..n + 1], u) == AllMatches(s[..n], u) + Matches(s[n], u)
    ensures PushAllPairs(s[..n + 1], u, acc) == PushPairs(s[n], u, PushAllPairs(s[..n], u, acc))
  {
    assert s[..n + 1] == s[..n] + [s[n]];
    MatchesSplit(s[..n], [s[n]], u);
    PairsSplit(s[..n], [s[n]], u, acc);
    assert [s[n]][1..] == [];
    assert AllMatches([s[n]], u) == Matches(s[n], u);
  }

  lemma {:induction false} AllAlike(l: int, u: Clause)
    ensures forall k :: 0 <= k < |Matches(l, u)| ==> Matches(l, u)[k] == l
  {
    if u != [] {
      AllAlike(l, u[1..]);
    }
  }

  lemma {:induction false} FoundAgain(l: int, u: Clause)
    requires l in u
    ensures |Matches(l, u)| > 0
  {
    if u[0] != l {
      TailIn(u);
      FoundAgain(l, u[1..]);
    }
  }

  /** While the matches of every first part found room, nothing unread was overwritten. */
  lemma {:induction false} ReadIntact(s: Clause, u: Clause, acc: seq<Clause>, n: nat)
    requires n <= |s| && forall k :: 0 < k < n ==> |AllMatches(s[..k], u)| <= k
    ensures var q := Rounds(s, u, acc, n);
      && q.out == |AllMatches(s[..n], u)| && q.pairs == PushAllPairs(s[..n], u, acc)
      && (forall k :: n <= k < |s| && q.out <= k ==> q.buf[k] == s[k])
      && (forall k :: 0 <= k < q.out && k < |s| ==> q.buf[k] == AllMatches(s[..n], u)[k])
    decreases n
  {
    if n > 0 {
      ReadIntact(s, u, acc, n - 1);
      NextLiteral(s, u, acc, n - 1);
      AllAlike(s[n - 1], u);
      var q := Rounds(s, u, acc, n - 1);
      assert q.out <= n - 1 by {
        assert n - 1 == 0 ==> s[..n - 1] == [];
      }
      assert q.buf[n - 1] == s[n - 1];
    }
  }

  /** Once too many matches are written they stay ahead of the reader: what it reads is a match again. */
  lemma {:induction false} StaysAhead(s: Clause, u: Clause, acc: seq<Clause>, m: nat, n: nat)
    requires 0 < m <= n <= |s| && Rounds(s, u, acc, m).out > m
    requires forall k :: m <= k < Rounds(s, u, acc, m).out && k < |s| ==> Rounds(s, u, acc, m).buf[k] in u
    ensures var q := Rounds(s, u, acc, n); q.out > n && forall k :: n <= k < q.out && k < |s| ==> q.buf[k] in u
    decreases n
  {
    if n > m {
      StaysAhead(s, u, acc, m, n - 1);
      var q := Rounds(s, u, acc, n - 1);
      FoundAgain(q.buf[n - 1], u);
    }
  }

  lemma {:induction false} OnlyMore(s: Clause, u: Clause, acc: seq<Clause>, m: nat, n: nat)
    requires m <= n <= |s|
    ensures Rounds(s, u, acc, m).out <= Rounds(s, u, acc, n).out
    decreases n
  {
    if m < n {
      OnlyMore(s, u, acc, m, n - 1);
    }
  }

  /** The first part of `s` with more matches than literals. */
  lemma FirstCrowded(s: Clause, u: Clause, bound: nat) returns (m: nat)
    requires bound <= |s| && exists k :: 0 < k <= bound && |AllMatches(s[..k], u)| > k
    ensures 0 < m <= bound && |AllMatches(s[..m], u)| > m
    ensures forall k :: 0 < k < m ==> |AllMatches(s[..k], u)| <= k
  {
    m := 1;
    while |AllMatches(s[..m], u)| <= m
      invariant 0 < m <= bound && forall k :: 0 < k < m ==> |AllMatches(s[..k], u)| <= k
      decreases bound - m
    {
      m := m + 1;
    }
  }

  /** The loop writes within the vector exactly when every first part has room for its matches. */
  lemma WithinIff(s: Clause, u: Clause, acc: seq<Clause>)
    ensures Rounds(s, u, acc, |s|).out <= |s| <==> Roomy(s, u)
  {
    if Roomy(s, u) {
      ReadIntact(s, u, acc, |s|);
      assert s[..|s|] == s;
      assert s == [] ==> AllMatches(s[..|s|], u) == [];
    } else {
      var m := FirstCrowded(s, u, |s|);
      ReadIntact(s, u, acc, m);
      AllMatchesIn(s[..m], u);
      forall k | m <= k < Rounds(s, u, acc, m).out && k < |s| ensures Rounds(s, u, acc, m).buf[k] in u {
        assert AllMatches(s[..m], u)[k] in AllMatches(s[..m], u);
      }
      StaysAhead(s, u, acc, m, |s|);
    }
  }

  /** Within the vector, the loop leaves the matches in it and pushes the pairs of what was there first. */
  lemma LoopRight(s: Clause, u: Clause, acc: seq<Clause>)
    requires Roomy(s, u)
    ensures var q := Rounds(s, u, acc, |s|);
      q.out <= |s| && q.buf[..q.out] == AllMatches(s, u) && q.pairs == PushAllPairs(s, u, acc)
  {
    WithinIff(s, u, acc);
    ReadIntact(s, u, acc, |s|);
    assert s[..|s|] == s;
  }

  /** The first part without room is followed by an overwritten literal. */
  lemma OverwrittenAt(s: Clause, u: Clause, acc: seq<Clause>, m: nat)
    requires 0 < m < |s| && |AllMatches(s[..m], u)| > m && s[m] != s[m - 1]
    requires forall k :: 0 < k < m ==> |AllMatches(s[..k], u)| <= k
    ensures Rounds(s, u, acc, m).buf[m] != s[m]
  {
    ReadIntact(s, u, acc, m - 1);
    ReadIntact(s, u, acc, m);
    assert m - 1 == 0 ==> s[..m - 1] == [];
    var q := Rounds(s, u, acc, m - 1);
    assert q.out <= m - 1 && q.buf[m - 1] == s[m - 1];
  }

  /** Distinct singletons are all read as they were exactly when every proper first part has room. */
  lemma IntactIff(s: Clause, u: Clause, acc: seq<Clause>)
    requires NoRepeats(s)
    ensures (forall i :: 0 <= i < |s| ==> Rounds(s, u, acc, i).buf[i] == s[i])
      <==> (forall k :: 0 < k < |s| ==> |AllMatches(s[..k], u)| <= k)
  {
    if forall k :: 0 < k < |s| ==> |AllMatches(s[..k], u)| <= k {
      forall i | 0 <= i < |s| ensures Rounds(s, u, acc, i).buf[i] == s[i] {
        ReadIntact(s, u, acc, i);
        assert i == 0 ==> s[..i] == [];
      }
    } else {
      var m := FirstCrowded(s, u, |s| - 1);
      OverwrittenAt(s, u, acc, m);
    }
  }

  /** Distinct literals on the other side always leave room. */
  lemma DistinctIsRoomy(s: Clause, u: Clause)
    requires NoRepeats(u)
    ensures Roomy(s, u)
  {
    forall k | 0 < k <= |s| ensures |AllMatches(s[..k], u)| <= k {
      AllMatchesIn(s[..k], u);
    }
  }

  lemma NothingIsRoomy(s: Clause)
    ensures Roomy(s, [])
  {
    DistinctIsRoomy(s, []);
  }

  lemma {:induction false} MatchesLast(l: int, u: Clause, n: nat)
    requires n <= |u| && forall k :: 0 <= k < n ==> u[k] != l
    ensures Matches(l, u) == Matches(l, u[n..])
    decreases n
  {
    if n > 0 {
      assert u[1..][n - 1..] == u[n..];
      MatchesLast(l, u[1..], n - 1);
    }
  }

  lemma {:induction false} BehindWindow(s: Clause, l: int, i: nat)
    requires i <= Window(|s|) && forall k :: 0 <= k < Window(|s|) ==> Abs(s[k]) < Abs(l)
    ensures Slot(s, l, i) == Window(|s|)
    decreases Window(|s|) - i
  {
    if i < Window(|s|) {
      BehindWindow(s, l, i + 1);
    }
  }

  lemma CrowdedAtOnce(u: Clause)
    requires u == [1, 2, 3, 4, 5, 6, 6]
    ensures !Roomy([6, 7], u) && Rounds([6, 7], u, [], 1).buf == [6, 6]
  {
    var s := [6, 7];
    assert u[5..] == [6, 6] && [6, 6][1..] == [6] && [6][1..] == [];
    MatchesLast(6, u, 5);
    assert Matches(6, [6]) == [6];
    assert Matches(6, [6, 6]) == [6] + Matches(6, [6]);
    assert s[..1] == [6] && s[..0] == [];
    NextLiteral(s, u, [], 0);
    assert Rounds(s, u, [], 0).buf == s;
  }

  lemma AppendedAgain(t: Clause)
    requires t == [1, 2, 3, 4, 5, 6]
    ensures AddLit(t, 6) == t + [6]
  {
    BehindWindow(t, 6, 0);
  }

  /** Conjoining a literal twice behind the sorted window gives two well-formed expressions whose cross
      product goes wrong: the second singleton is overwritten before it is read. */
  lemma DuplicatesOverwrite()
    ensures var e, x := Make([6, 7], []), ConjoinLit(Make([1, 2, 3, 4, 5, 6], []), 6);
      && WellFormed(e) && WellFormed(x)
      && !Roomy(e.singles, x.singles) && Rounds(e.singles, x.singles, [], 1).buf == [6, 6]
  {
    hide AddLit, Roomy, Rounds, TotalSize;
    var s, t := [6, 7], [1, 2, 3, 4, 5, 6];
    assert WindowSorted(s) && WindowSorted(t) && NonZero(s) && NonZero(t);
    hide WindowSorted, NonZero;
    MakeSound(s, []);
    MakeSound(t, []);
    ConjoinLitMeans(iset{}, Make(t, []), 6);
    AppendedAgain(t);
    assert t + [6] == [1, 2, 3, 4, 5, 6, 6];
    CrowdedAtOnce(t + [6]);
  }
}
