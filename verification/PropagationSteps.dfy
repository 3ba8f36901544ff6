/** What each step of visiting a falsified literal's clause list keeps. */
module PropagationSteps {
  import opened Literals
  import opened Trails
  import opened Watches

  /** The state while the list of the falsified literal `falsified`, at trail position `q - 1`, is visited up to
      index `i`. */
  ghost predicate Visiting(t: Trail, top: nat, q: nat, cs: seq<Clause>, db: seq<Clause>,
                           lits: seq<Clause>, watch: Lists, off: Lists, falsified: int, i: nat) {
    && TrailOk(t, cs, top) && db <= cs && Permuted(lits, db) && Watching(lits, watch, off, t)
    && FalsifiedAt(t, top, q, falsified)
    && i <= |On(watch, falsified)| && Processed(lits, t, q, top, false, falsified, On(watch, falsified)[i..])
  }

  ghost predicate FalsifiedAt(t: Trail, top: nat, q: nat, w: int) {
    0 < q <= |t.lits| && t.lits[q - 1] == -w && Abs(w) in t.level && t.level[Abs(w)] == top
  }

  lemma FalsifiedFacts(t: Trail, cs: seq<Clause>, top: nat, q: nat, w: int)
    requires TrailOk(t, cs, top) && FalsifiedAt(t, top, q, w)
    ensures False(t, w) && !True(t, w) && Pos(t, Abs(w)) == q - 1 && w != 0
  {
    PosOf(t, q - 1);
    FalseAssigned(t, w);
  }

  lemma StoredPermuted(lits: seq<Clause>, db: seq<Clause>, cs: seq<Clause>, c: nat)
    requires Permuted(lits, db) && db <= cs && c < |lits|
    ensures Stored(cs, lits[c])
  {
    assert db[c] == cs[c] && cs[c] in cs;
  }

  lemma TrueOnLevel(t: Trail, cs: seq<Clause>, top: nat, l: int)
    requires TrailOk(t, cs, top) && True(t, l)
    ensures Abs(l) in t.level && t.level[Abs(l)] <= top
  {
    var i :| 0 <= i < |t.lits| && t.lits[i] == l;
    assert LevelAt(t, i) <= top;
  }

  /** The visit of the first pending clause is over when it is settled or no longer watched. */
  lemma ProcessedNext(lits: seq<Clause>, t: Trail, q: nat, top: nat, w: int, pending: seq<nat>)
    requires Processed(lits, t, q, top, false, w, pending) && pending != []
    requires pending[0] < |lits| && Watched(lits[pending[0]], w) ==> Settled(t, lits[pending[0]], w)
    ensures Processed(lits, t, q, top, false, w, pending[1..])
  {
    assert pending == [pending[0]] + pending[1..];
  }

  /** The true partner settles the clause. */
  lemma KeepTrue(t: Trail, top: nat, q: nat, cs: seq<Clause>, db: seq<Clause>, lits: seq<Clause>, watch: Lists,
                 off: Lists, w: int, i: nat)
    requires Visiting(t, top, q, cs, db, lits, watch, off, w, i) && i < |On(watch, w)|
    requires var c := On(watch, w)[i]; c < |lits| && |lits[c]| >= 2 && True(t, Partner(lits[c], w))
    ensures Visiting(t, top, q, cs, db, lits, watch, off, w, i + 1)
  {
    hide Watching, Permuted, TrailOk;
    var c := On(watch, w)[i];
    TrueOnLevel(t, cs, top, Partner(lits[c], w));
    assert On(watch, w)[i..][1..] == On(watch, w)[i + 1..];
    ProcessedNext(lits, t, q, top, w, On(watch, w)[i..]);
  }

  lemma DroppedRest(m: Lists, w: int, i: nat)
    requires i < |On(m, w)|
    ensures On(Dropped(m, w, i), w)[i..] == On(m, w)[i..][1..]
  {
  }

  lemma ParkStep(t: Trail, top: nat, q: nat, cs: seq<Clause>, db: seq<Clause>, lits: seq<Clause>, watch: Lists,
                 off: Lists, w: int, i: nat)
    requires Visiting(t, top, q, cs, db, lits, watch, off, w, i) && i < |On(watch, w)|
    requires var c := On(watch, w)[i]; c < |lits| && |lits[c]| >= 2 && True(t, Partner(lits[c], w))
    ensures var c := On(watch, w)[i];
      Visiting(t, top, q, cs, db, lits, Dropped(watch, w, i), Pushed(off, Partner(lits[c], w), c), w, i)
  {
    var c := On(watch, w)[i];
    FalsifiedFacts(t, cs, top, q, w);
    ParkKeeps(lits, watch, off, t, w, i);
    hide Watching, Permuted, TrailOk;
    TrueOnLevel(t, cs, top, Partner(lits[c], w));
    DroppedRest(watch, w, i);
    ProcessedNext(lits, t, q, top, w, On(watch, w)[i..]);
  }

  /** Neither watched literal is true, and `d` has a literal that is not false in place of `w`. */
  ghost predicate Rotated(t: Trail, c: Clause, d: Clause, w: int) {
    && |c| >= 2 && GoodLong(c) && c[0] == w && !True(t, c[1])
    && multiset(d) == multiset(c) && |d| >= 2 && d[1] == c[1] && !False(t, d[0])
  }

  lemma RotatedGood(t: Trail, c: Clause, d: Clause, w: int)
    requires Rotated(t, c, d, w)
    ensures GoodLong(d) && |d| == |c|
  {
    GoodByContents(c, d);
  }

  lemma {:induction false} OnceEach(c: Clause, l: int)
    requires forall i, j :: 0 <= i < j < |c| ==> c[i] != c[j]
    ensures multiset(c)[l] <= 1
    decreases |c|
  {
    if c != [] {
      assert c == [c[0]] + c[1..];
      if l == c[0] {
        assert l !in c[1..];
      }
      OnceEach(c[1..], l);
    }
  }

  lemma RepeatsCount(c: Clause, i: nat, j: nat)
    requires i < j < |c| && c[i] == c[j]
    ensures multiset(c)[c[i]] >= 2
  {
    assert c == c[..j] + [c[j]] + c[j + 1..];
    assert c[i] in c[..j];
  }

  lemma GoodByContents(c: Clause, d: Clause)
    requires GoodLong(c) && multiset(d) == multiset(c)
    ensures GoodLong(d) && |d| == |c|
  {
    SameLiterals(c, d);
    forall i, j | 0 <= i < j < |d| ensures d[i] != d[j] {
      OnceEach(c, d[i]);
      if d[i] == d[j] {
        RepeatsCount(d, i, j);
      }
    }
  }

  lemma ProcessedRelocated(lits: seq<Clause>, t: Trail, q: nat, top: nat, w: int, pending: seq<nat>, d: Clause)
    requires Processed(lits, t, q, top, false, w, pending) && pending != [] && pending[0] < |lits|
    requires Rotated(t, lits[pending[0]], d, w) && !True(t, w) && GoodLong(d) && d[0] != w
    ensures Processed(lits[pending[0] := d], t, q, top, false, w, pending[1..])
  {
    var c := pending[0];
    var changed := lits[c := d];
    assert pending == [c] + pending[1..];
    forall k: nat, v | k < |changed| && Watched(changed[k], v) && FalseBefore(t, v, q)
      ensures Settled(t, changed[k], v) || (v == w && k in pending[1..])
    {
      if k == c {
        assert v == d[1];
        assert Watched(lits[c], v);
      }
    }
  }

  lemma RelocateStep(t: Trail, top: nat, q: nat, cs: seq<Clause>, db: seq<Clause>, lits: seq<Clause>, watch: Lists,
                     off: Lists, w: int, i: nat, d: Clause)
    requires Visiting(t, top, q, cs, db, lits, watch, off, w, i) && i < |On(watch, w)|
    requires On(watch, w)[i] < |lits| && Rotated(t, lits[On(watch, w)[i]], d, w)
    ensures var c := On(watch, w)[i];
      Visiting(t, top, q, cs, db, lits[c := d], Pushed(Dropped(watch, w, i), d[0], c), off, w, i)
    ensures |On(Pushed(Dropped(watch, w, i), d[0], On(watch, w)[i]), w)| == |On(watch, w)| - 1
  {
    var c := On(watch, w)[i];
    FalsifiedFacts(t, cs, top, q, w);
    RotatedGood(t, lits[c], d, w);
    RelocateKeeps(lits, watch, off, t, w, i, d);
    hide Watching, TrailOk;
    DroppedRest(watch, w, i);
    ProcessedRelocated(lits, t, q, top, w, On(watch, w)[i..], d);
    var dropped := Dropped(watch, w, i);
    assert On(Pushed(dropped, d[0], c), w) == On(dropped, w);
  }

  // ----- assigning -----

  lemma GrownTrail(t: Trail, cs: seq<Clause>, top: nat, l: int, r: Option<Clause>, q: nat, v: int)
    requires TrailOk(t, cs, top) && l != 0 && Undefined(t, l) && q <= |t.lits|
    ensures var u := Assigning(t, l, top, r);
      && (True(t, v) ==> True(u, v)) && (False(t, v) ==> False(u, v)) && (FalseBefore(u, v, q) ==> FalseBefore(t, v, q))
      && (True(t, v) || False(t, v) ==> Abs(v) in t.level && Abs(v) in u.level && u.level[Abs(v)] == t.level[Abs(v)])
  {
    var u := Assigning(t, l, top, r);
    AssigningConsistent(t, top, l, r);
    NotAmong(t, l);
    if FalseBefore(u, v, q) {
      FalseAssigned(u, v);
      var i := Pos(u, Abs(v));
      assert t.lits[i] == -v;
      PosOf(t, i);
    }
  }

  lemma GrownSettled(t: Trail, cs: seq<Clause>, top: nat, l: int, r: Option<Clause>, o: int, w: int)
    requires TrailOk(t, cs, top) && l != 0 && Undefined(t, l) && False(t, w) && TrueBelow(t, o, w)
    ensures TrueBelow(Assigning(t, l, top, r), o, w)
  {
    GrownTrail(t, cs, top, l, r, 0, o);
    GrownTrail(t, cs, top, l, r, 0, w);
  }

  lemma GrownWatching(t: Trail, cs: seq<Clause>, top: nat, l: int, r: Option<Clause>, lits: seq<Clause>, watch: Lists,
                      off: Lists)
    requires TrailOk(t, cs, top) && l != 0 && Undefined(t, l) && Watching(lits, watch, off, t)
    ensures Watching(lits, watch, off, Assigning(t, l, top, r))
  {
    var u := Assigning(t, l, top, r);
    forall o, c: nat | Listed(off, o, c) ensures Parked(lits, watch, u, o, c) {
      assert Parked(lits, watch, t, o, c);
    }
  }

  lemma GrownProcessed(t: Trail, cs: seq<Clause>, top: nat, l: int, r: Option<Clause>, lits: seq<Clause>, q: nat,
                       conf: bool, w: int, pending: seq<nat>)
    requires TrailOk(t, cs, top) && l != 0 && Undefined(t, l) && q <= |t.lits|
    requires Processed(lits, t, q, top, conf, w, pending)
    ensures Processed(lits, Assigning(t, l, top, r), q, top, conf, w, pending)
  {
    hide TrailOk, TrueBelow;
    var u := Assigning(t, l, top, r);
    forall k: nat, v | k < |lits| && Watched(lits[k], v) && FalseBefore(u, v, q)
      ensures Settled(u, lits[k], v) || Excused(u, top, conf, v) || (v == w && k in pending)
    {
      GrownTrail(t, cs, top, l, r, q, v);
      if Settled(t, lits[k], v) {
        GrownSettled(t, cs, top, l, r, Partner(lits[k], v), v);
      }
    }
  }

  /** All literals but the second are false, and the second is undefined. */
  ghost predicate UnitOn(t: Trail, c: Clause, w: int) {
    && |c| >= 2 && GoodLong(c) && c[0] == w && Undefined(t, c[1])
    && forall k :: 0 <= k < |c| && k != 1 ==> False(t, c[k])
  }

  lemma AssignStep(t: Trail, top: nat, q: nat, cs: seq<Clause>, db: seq<Clause>, lits: seq<Clause>, watch: Lists,
                   off: Lists, w: int, i: nat)
    requires Visiting(t, top, q, cs, db, lits, watch, off, w, i) && i < |On(watch, w)|
    requires On(watch, w)[i] < |lits| && UnitOn(t, lits[On(watch, w)[i]], w)
    ensures var c := lits[On(watch, w)[i]];
      Visiting(Assigning(t, c[1], top, Some(c)), top, q, cs, db, lits, watch, off, w, i + 1)
  {
    hide Watching, Permuted;
    var c := lits[On(watch, w)[i]];
    var u := Assigning(t, c[1], top, Some(c));
    StoredPermuted(lits, db, cs, On(watch, w)[i]);
    assert c[1] in c && c[1] != 0;
    AssigningOk(t, cs, top, c[1], c);
    GrownWatching(t, cs, top, c[1], Some(c), lits, watch, off);
    GrownProcessed(t, cs, top, c[1], Some(c), lits, q, false, w, On(watch, w)[i..]);
    hide TrailOk;
    FalsifiedFacts(t, cs, top, q, w);
    assert Abs(w) != Abs(c[1]);
    assert FalsifiedAt(u, top, q, w);
    assert TrueBelow(u, c[1], w);
    assert On(watch, w)[i..][1..] == On(watch, w)[i + 1..];
    ProcessedNext(lits, u, q, top, w, On(watch, w)[i..]);
  }

  lemma SwapStep(t: Trail, top: nat, q: nat, cs: seq<Clause>, db: seq<Clause>, lits: seq<Clause>, watch: Lists,
                 off: Lists, w: int, i: nat)
    requires Visiting(t, top, q, cs, db, lits, watch, off, w, i) && i < |On(watch, w)|
    requires On(watch, w)[i] < |lits| && |lits[On(watch, w)[i]]| >= 2
    ensures var c := On(watch, w)[i];
      Visiting(t, top, q, cs, db, lits[c := InFront(lits[c], w)], watch, off, w, i) && InFront(lits[c], w)[0] == w
  {
    var c := On(watch, w)[i];
    assert Listed(watch, w, c) && Watched(lits[c], w);
    var d := InFront(lits[c], w);
    FrontSame(lits[c], w);
    GoodByContents(lits[c], d);
    ReorderKeepsWatching(lits, watch, off, t, c, d);
    ReorderKeepsProcessed(lits, t, q, top, false, w, On(watch, w)[i..], c, d);
  }

  /** The watched literal `w` moved to the front. */
  function InFront(c: Clause, w: int): Clause
    requires |c| >= 2
  {
    if c[0] == w then c else [w, c[0]] + c[2..]
  }

  lemma FrontSame(c: Clause, w: int)
    requires |c| >= 2 && Watched(c, w)
    ensures SameWatches(c, InFront(c, w)) && multiset(InFront(c, w)) == multiset(c) && InFront(c, w)[0] == w
  {
    if c[0] != w {
      assert c == [c[0]] + [c[1]] + c[2..];
      assert InFront(c, w) == [c[1]] + [c[0]] + c[2..];
    }
  }

  // ----- the begin and the end of a visit -----

  lemma VisitBegins(t: Trail, top: nat, q: nat, cs: seq<Clause>, db: seq<Clause>, lits: seq<Clause>, watch: Lists,
                    off: Lists)
    requires TrailOk(t, cs, top) && db <= cs && Permuted(lits, db) && Watching(lits, watch, off, t)
    requires q < |t.lits| && LevelAt(t, q) == top && Processed(lits, t, q, top, false, 0, [])
    ensures Visiting(t, top, q + 1, cs, db, lits, watch, off, -t.lits[q], 0)
  {
    hide Permuted, Watching, TrailOk, Processed;
    BeginProcessed(t, top, q, cs, db, lits, watch, off);
    BeginAt(t, top, q, cs);
    assert On(watch, -t.lits[q])[0..] == On(watch, -t.lits[q]);
  }

  lemma BeginAt(t: Trail, top: nat, q: nat, cs: seq<Clause>)
    requires TrailOk(t, cs, top) && q < |t.lits| && LevelAt(t, q) == top
    ensures FalsifiedAt(t, top, q + 1, -t.lits[q])
  {
  }

  lemma BeginProcessed(t: Trail, top: nat, q: nat, cs: seq<Clause>, db: seq<Clause>, lits: seq<Clause>, watch: Lists,
                       off: Lists)
    requires TrailOk(t, cs, top) && Permuted(lits, db) && Watching(lits, watch, off, t)
    requires q < |t.lits| && LevelAt(t, q) == top && Processed(lits, t, q, top, false, 0, [])
    ensures Processed(lits, t, q + 1, top, false, -t.lits[q], On(watch, -t.lits[q]))
  {
    hide Permuted, Watching, TrailOk, TrueBelow;
    var w := -t.lits[q];
    BeginAt(t, top, q, cs);
    forall c: nat, v | c < |lits| && Watched(lits[c], v) && FalseBefore(t, v, q + 1)
      ensures Settled(t, lits[c], v) || (v == w && c in On(watch, w))
    {
      NextPosition(t, cs, top, q, v);
      if v == w && !Listed(watch, w, c) {
        UnlistedSettled(t, cs, top, lits, watch, off, w, c);
      }
    }
  }

  lemma NextPosition(t: Trail, cs: seq<Clause>, top: nat, q: nat, v: int)
    requires TrailOk(t, cs, top) && q < |t.lits| && FalseBefore(t, v, q + 1)
    ensures FalseBefore(t, v, q) || v == -t.lits[q]
  {
    FalseAssigned(t, v);
  }

  lemma UnlistedSettled(t: Trail, cs: seq<Clause>, top: nat, lits: seq<Clause>, watch: Lists, off: Lists, w: int,
                        c: nat)
    requires TrailOk(t, cs, top) && Watching(lits, watch, off, t) && c < |lits| && Watched(lits[c], w)
    requires !Listed(watch, w, c)
    requires Abs(w) in t.level && t.level[Abs(w)] == top
    ensures Settled(t, lits[c], w)
  {
    assert ParkedAway(lits, off, c, w);
    assert Parked(lits, watch, t, Partner(lits[c], w), c);
    hide Watching;
    TrueOnLevel(t, cs, top, Partner(lits[c], w));
  }

  lemma VisitEnds(t: Trail, top: nat, q: nat, cs: seq<Clause>, db: seq<Clause>, lits: seq<Clause>, watch: Lists,
                  off: Lists, w: int, i: nat)
    requires Visiting(t, top, q, cs, db, lits, watch, off, w, i)
    ensures i == |On(watch, w)| ==> Processed(lits, t, q, top, false, 0, [])
    ensures Processed(lits, t, q, top, true, 0, [])
  {
    hide Permuted, Watching, TrailOk, Settled;
  }

  // ----- binary clauses -----

  /** For each literal the other literals of its binary clauses. */
  type Implications = map<int, seq<int>>

  function Imp(m: Implications, w: int): seq<int> {
    if w in m then m[w] else []
  }

  ghost predicate BinOk(impls: Implications, pairs: seq<Clause>) {
    && (forall w, o :: o in Imp(impls, w) <==> [w, o] in pairs || [o, w] in pairs)
    && forall p :: p in pairs ==> |p| == 2 && p[0] != 0 && p[1] != 0 && p[0] != p[1]
  }

  /** As for the long clauses; of those of `w` the first `n` are pending. */
  ghost predicate BinProcessed(impls: Implications, t: Trail, q: nat, top: nat, conflicting: bool, w: int, n: nat) {
    forall v, o :: o in Imp(impls, v) && FalseBefore(t, v, q) ==>
      || TrueBelow(t, o, v) || Excused(t, top, conflicting, v)
      || (v == w && n <= |Imp(impls, w)| && o in Imp(impls, w)[..n])
  }

  lemma BinStored(impls: Implications, pairs: seq<Clause>, cs: seq<Clause>, w: int, o: int)
    requires BinOk(impls, pairs) && o in Imp(impls, w) && forall p :: p in pairs ==> p in cs
    ensures Stored(cs, [w, o]) && w != 0 && o != 0
  {
    if [o, w] in pairs {
      assert multiset([o, w]) == multiset([w, o]);
      assert [o, w][0] == o && [o, w][1] == w;
    } else {
      assert [w, o] in pairs;
      assert [w, o][0] == w && [w, o][1] == o;
    }
  }

  lemma BinBegins(impls: Implications, t: Trail, cs: seq<Clause>, q: nat, top: nat, conf: bool)
    requires TrailOk(t, cs, top) && q < |t.lits| && BinProcessed(impls, t, q, top, conf, 0, 0)
    ensures var w := -t.lits[q]; BinProcessed(impls, t, q + 1, top, conf, w, |Imp(impls, w)|)
  {
    hide TrailOk, TrueBelow, FalseBefore;
    var w := -t.lits[q];
    assert Imp(impls, w)[..|Imp(impls, w)|] == Imp(impls, w);
    forall v, o | o in Imp(impls, v) && FalseBefore(t, v, q + 1)
      ensures TrueBelow(t, o, v) || Excused(t, top, conf, v) || (v == w && o in Imp(impls, w))
    {
      NextPosition(t, cs, top, q, v);
    }
  }

  lemma BinNext(impls: Implications, t: Trail, q: nat, top: nat, conf: bool, w: int, n: nat)
    requires n < |Imp(impls, w)| && BinProcessed(impls, t, q, top, conf, w, n + 1)
    requires TrueBelow(t, Imp(impls, w)[n], w) || Excused(t, top, conf, w)
    ensures BinProcessed(impls, t, q, top, conf, w, n)
  {
    assert Imp(impls, w)[..n + 1] == Imp(impls, w)[..n] + [Imp(impls, w)[n]];
  }

  lemma BinGrown(impls: Implications, t: Trail, cs: seq<Clause>, top: nat, l: int, r: Option<Clause>, q: nat,
                 conf: bool, w: int, n: nat)
    requires TrailOk(t, cs, top) && l != 0 && Undefined(t, l) && q <= |t.lits|
    requires BinProcessed(impls, t, q, top, conf, w, n)
    ensures BinProcessed(impls, Assigning(t, l, top, r), q, top, conf, w, n)
  {
    hide TrailOk, TrueBelow;
    var u := Assigning(t, l, top, r);
    forall v, o | o in Imp(impls, v) && FalseBefore(u, v, q)
      ensures
        || TrueBelow(u, o, v) || Excused(u, top, conf, v)
        || (v == w && n <= |Imp(impls, w)| && o in Imp(impls, w)[..n])
    {
      GrownTrail(t, cs, top, l, r, q, v);
      if TrueBelow(t, o, v) {
        GrownSettled(t, cs, top, l, r, o, v);
      }
    }
  }

  lemma ConflictExcuses(lits: seq<Clause>, impls: Implications, t: Trail, q: nat, q2: nat, top: nat, conf: bool, w: int,
                        n: nat)
    requires Processed(lits, t, q, top, conf, 0, [])
    ensures Processed(lits, t, q, top, true, 0, [])
    ensures BinProcessed(impls, t, q2, top, conf, w, n) ==> BinProcessed(impls, t, q2, top, true, w, n)
  {
    hide Settled, TrueBelow;
  }
}
