/** Head and tail lists: which clause is on the list of which literal, and what the trail settles. */
module Watches {
  import opened Sequences
  import opened Literals
  import opened Trails

  /** For each literal the clauses on its list. */
  type Lists = map<int, seq<nat>>

  function On(m: Lists, w: int): seq<nat> {
    if w in m then m[w] else []
  }

  ghost predicate Listed(m: Lists, w: int, c: nat) {
    c in On(m, w)
  }

  /** The head and the tail of a clause are its first two literals. */
  ghost predicate Watched(c: Clause, w: int) {
    (|c| >= 1 && w == c[0]) || (|c| >= 2 && w == c[1])
  }

  ghost function Partner(c: Clause, w: int): int
    requires |c| >= 2
  {
    if w == c[0] then c[1] else c[0]
  }

  ghost predicate GoodLong(c: Clause) {
    |c| >= 1 && NonZero(c) && NoRepeats(c)
  }

  /** The clauses are those of the database up to the order of their literals. */
  ghost predicate Permuted(lits: seq<Clause>, db: seq<Clause>) {
    |lits| == |db| && forall c :: 0 <= c < |lits| ==> multiset(lits[c]) == multiset(db[c]) && GoodLong(lits[c])
  }

  /** A clause is on the lists of its head and its tail, except that a clause with a true watched literal
      may be parked with that literal, off the list of the other one. */
  ghost predicate Watching(lits: seq<Clause>, watch: Lists, off: Lists, t: Trail) {
    && (forall w :: NoRepeats(On(watch, w)) && NoRepeats(On(off, w)))
    && (forall w, c: nat :: Listed(watch, w, c) ==> c < |lits| && Watched(lits[c], w))
    && (forall c: nat, w :: c < |lits| && Watched(lits[c], w) ==> Listed(watch, w, c) || ParkedAway(lits, off, c, w))
    && (forall o, c: nat :: Listed(off, o, c) ==> Parked(lits, watch, t, o, c))
  }

  ghost predicate ParkedAway(lits: seq<Clause>, off: Lists, c: nat, w: int)
    requires c < |lits|
  {
    |lits[c]| >= 2 && Listed(off, Partner(lits[c], w), c)
  }

  ghost predicate Parked(lits: seq<Clause>, watch: Lists, t: Trail, o: int, c: nat) {
    && c < |lits| && |lits[c]| >= 2 && Watched(lits[c], o) && True(t, o)
    && Listed(watch, o, c) && !Listed(watch, Partner(lits[c], o), c)
  }

  /** True on no higher level than `w`. */
  ghost predicate TrueBelow(t: Trail, o: int, w: int) {
    True(t, o) && Abs(o) in t.level && Abs(w) in t.level && t.level[Abs(o)] <= t.level[Abs(w)]
  }

  /** A false watched literal is made up for by the other one. */
  ghost predicate Settled(t: Trail, c: Clause, w: int) {
    |c| >= 2 && TrueBelow(t, Partner(c, w), w)
  }

  ghost predicate FalseBefore(t: Trail, w: int, q: nat) {
    False(t, w) && Pos(t, Abs(w)) < q
  }

  /** On the conflict level a conflict excuses. */
  ghost predicate Excused(t: Trail, top: nat, conflicting: bool, w: int) {
    conflicting && Abs(w) in t.level && t.level[Abs(w)] == top
  }

  /** All watched literals falsified before position `q` are settled, but for the pending clauses of `falsified`. */
  ghost predicate Processed(lits: seq<Clause>, t: Trail, q: nat, top: nat, conflicting: bool, falsified: int,
                            pending: seq<nat>) {
    forall c: nat, w :: c < |lits| && Watched(lits[c], w) && FalseBefore(t, w, q) ==>
      Settled(t, lits[c], w) || Excused(t, top, conflicting, w) || (w == falsified && c in pending)
  }

  // ----- reordering within a clause -----

  ghost predicate SameWatches(c: Clause, d: Clause) {
    |c| == |d| && forall w :: Watched(c, w) <==> Watched(d, w)
  }

  lemma SamePartner(c: Clause, d: Clause, w: int)
    requires SameWatches(c, d) && |c| >= 2 && Watched(c, w) && GoodLong(c) && GoodLong(d)
    ensures Partner(c, w) == Partner(d, w)
  {
    assert Watched(c, c[0]) && Watched(c, c[1]) && Watched(d, d[0]) && Watched(d, d[1]);
  }

  lemma ReorderKeepsWatching(lits: seq<Clause>, watch: Lists, off: Lists, t: Trail, c: nat, d: Clause)
    requires Watching(lits, watch, off, t) && c < |lits| && SameWatches(lits[c], d) && GoodLong(lits[c]) && GoodLong(d)
    ensures Watching(lits[c := d], watch, off, t)
  {
    var changed := lits[c := d];
    forall o, k: nat | Listed(off, o, k) ensures Parked(changed, watch, t, o, k) {
      assert Parked(lits, watch, t, o, k);
      if k == c { SamePartner(lits[c], d, o); }
    }
    forall k: nat, w | k < |changed| && Watched(changed[k], w)
      ensures Listed(watch, w, k) || ParkedAway(changed, off, k, w)
    {
      assert Watched(lits[k], w);
      assert Listed(watch, w, k) || ParkedAway(lits, off, k, w);
      if k == c && |d| >= 2 { SamePartner(lits[c], d, w); }
    }
  }

  lemma ReorderKeepsProcessed(lits: seq<Clause>, t: Trail, q: nat, top: nat, conf: bool, falsified: int,
                              pending: seq<nat>, c: nat, d: Clause)
    requires Processed(lits, t, q, top, conf, falsified, pending) && c < |lits|
    requires SameWatches(lits[c], d) && GoodLong(lits[c]) && GoodLong(d)
    ensures Processed(lits[c := d], t, q, top, conf, falsified, pending)
  {
    var changed := lits[c := d];
    forall k: nat, w | k < |changed| && Watched(changed[k], w) && FalseBefore(t, w, q)
      ensures Settled(t, changed[k], w) || Excused(t, top, conf, w) || (w == falsified && k in pending)
    {
      assert Watched(lits[k], w);
      if k == c && |d| >= 2 { SamePartner(lits[c], d, w); }
    }
  }

  // ----- moving a clause between lists -----

  function RemoveAt(s: seq<nat>, i: nat): seq<nat>
    requires i < |s|
  {
    s[..i] + s[i + 1..]
  }

  lemma RemovedFrom(s: seq<nat>, i: nat)
    requires i < |s| && NoRepeats(s)
    ensures NoRepeats(RemoveAt(s, i)) && forall x :: x in RemoveAt(s, i) <==> x in s && x != s[i]
  {
    var r := RemoveAt(s, i);
    forall x | x in s && x != s[i] ensures x in r {
      var k :| 0 <= k < |s| && s[k] == x;
      assert r[if k < i then k else k - 1] == x;
    }
    forall x | x in r ensures x in s && x != s[i] {
      var k :| 0 <= k < |r| && r[k] == x;
      assert s[if k < i then k else k + 1] == x;
    }
    forall j, k | 0 <= j < k < |r| ensures r[j] != r[k] {
      assert r[j] == s[if j < i then j else j + 1] && r[k] == s[if k < i then k else k + 1];
    }
  }

  function Dropped(m: Lists, w: int, i: nat): Lists
    requires i < |On(m, w)|
  {
    m[w := RemoveAt(On(m, w), i)]
  }

  function Pushed(m: Lists, w: int, c: nat): Lists {
    m[w := [c] + On(m, w)]
  }

  lemma DroppedLists(m: Lists, w: int, i: nat)
    requires i < |On(m, w)| && forall v :: NoRepeats(On(m, v))
    ensures var d := Dropped(m, w, i);
      && (forall v :: NoRepeats(On(d, v)))
      && (forall v, c: nat :: Listed(d, v, c) <==> Listed(m, v, c) && !(v == w && c == On(m, w)[i]))
  {
    RemovedFrom(On(m, w), i);
    forall v ensures NoRepeats(On(Dropped(m, w, i), v)) {
      assert NoRepeats(On(m, v));
    }
  }

  lemma PushedLists(m: Lists, w: int, c: nat)
    requires !Listed(m, w, c) && forall v :: NoRepeats(On(m, v))
    ensures var p := Pushed(m, w, c);
      && (forall v :: NoRepeats(On(p, v)))
      && (forall v, k: nat :: Listed(p, v, k) <==> Listed(m, v, k) || (v == w && k == c))
  {
    forall v ensures NoRepeats(On(Pushed(m, w, c), v)) {
      assert NoRepeats(On(m, v));
    }
  }

  lemma ListedNotParked(lits: seq<Clause>, watch: Lists, off: Lists, t: Trail, w: int, c: nat)
    requires Watching(lits, watch, off, t) && Listed(watch, w, c) && c < |lits| && |lits[c]| >= 2 && GoodLong(lits[c])
    ensures Watched(lits[c], w) && Partner(lits[c], Partner(lits[c], w)) == w && !Listed(off, Partner(lits[c], w), c)
  {
  }

  lemma FalseNotParked(lits: seq<Clause>, watch: Lists, off: Lists, t: Trail, w: int, c: nat)
    requires Watching(lits, watch, off, t) && c < |lits| && |lits[c]| >= 2 && !True(t, Partner(lits[c], w))
    ensures !ParkedAway(lits, off, c, w)
  {
  }

  /** Park a clause with its true literal, off the list of the other watched one. */
  lemma ParkKeeps(lits: seq<Clause>, watch: Lists, off: Lists, t: Trail, w: int, i: nat)
    requires Watching(lits, watch, off, t) && i < |On(watch, w)|
    requires var c := On(watch, w)[i]; c < |lits| && |lits[c]| >= 2 && GoodLong(lits[c]) && True(t, Partner(lits[c], w))
    requires !True(t, w)
    ensures var c := On(watch, w)[i];
      Watching(lits, Dropped(watch, w, i), Pushed(off, Partner(lits[c], w), c), t)
  {
    hide True;
    var c := On(watch, w)[i];
    assert Listed(watch, w, c);
    var o := Partner(lits[c], w);
    DroppedLists(watch, w, i);
    ListedNotParked(lits, watch, off, t, w, c);
    FalseNotParked(lits, watch, off, t, o, c);
    assert Listed(watch, o, c) && o != w by {
      assert lits[c][0] != lits[c][1] && Watched(lits[c], o);
    }
    PushedLists(off, o, c);
    forall p, k: nat | Listed(Pushed(off, o, c), p, k) ensures Parked(lits, Dropped(watch, w, i), t, p, k) {
      if Listed(off, p, k) {
        assert Parked(lits, watch, t, p, k);
      }
    }
    forall k: nat, v | k < |lits| && Watched(lits[k], v)
      ensures Listed(Dropped(watch, w, i), v, k) || ParkedAway(lits, Pushed(off, o, c), k, v)
    {
      if !(v == w && k == c) && !Listed(watch, v, k) {
        assert ParkedAway(lits, off, k, v);
      }
    }
  }

  lemma FirstTwoDiffer(c: Clause)
    requires GoodLong(c) && |c| >= 2
    ensures c[0] != c[1]
  {
  }

  /** Give a clause a new head in place of a false one. */
  lemma RelocateKeeps(lits: seq<Clause>, watch: Lists, off: Lists, t: Trail, w: int, i: nat, d: Clause)
    requires Watching(lits, watch, off, t) && i < |On(watch, w)|
    requires var c := On(watch, w)[i];
      && c < |lits| && |lits[c]| >= 2 && GoodLong(lits[c]) && GoodLong(d) && |d| == |lits[c]|
      && lits[c][0] == w && d[1] == lits[c][1] && d[0] != w
      && !True(t, w) && !True(t, lits[c][1])
    ensures var c := On(watch, w)[i]; Watching(lits[c := d], Pushed(Dropped(watch, w, i), d[0], c), off, t)
  {
    hide True, On, Pushed, Dropped, NoRepeats, Listed;
    var c := On(watch, w)[i];
    FirstTwoDiffer(d);
    FirstTwoDiffer(lits[c]);
    var changed := lits[c := d];
    var dropped := Dropped(watch, w, i);
    DroppedLists(watch, w, i);
    assert !Listed(dropped, d[0], c) by {
      assert !Watched(lits[c], d[0]);
    }
    var moved := Pushed(dropped, d[0], c);
    PushedLists(dropped, d[0], c);
    forall o, k: nat | Listed(off, o, k) ensures Parked(changed, moved, t, o, k) {
      assert Parked(lits, watch, t, o, k);
    }
    forall k: nat, v | k < |changed| && Watched(changed[k], v)
      ensures Listed(moved, v, k) || ParkedAway(changed, off, k, v)
    {
      if k != c {
        assert Listed(watch, v, k) || ParkedAway(lits, off, k, v);
      } else if v != d[0] {
        assert Watched(lits[c], v);
        assert Listed(watch, v, c) || ParkedAway(lits, off, c, v);
        FalseNotParked(lits, watch, off, t, v, c);
      }
    }
  }
}
