/** The node table: open addressing with odd increments over a prime capacity, refining hash-consing. */
module GlobalTables {
  import opened Literals
  import opened Dags
  import opened NumberTheory
  import opened Probing
  import opened Construction

  datatype Entry = Entry(hashVal: nat, key: Option<nat>)

  const EMPTY: Entry := Entry(0, None)

  /** The table `t` holds the ids of `at`, the id of hash `hs[id]` after `at[id]` probes, and nothing else;
      every slot probed on the way is taken. */
  ghost predicate Placed(t: seq<Entry>, hs: seq<nat>, at: map<nat, nat>) {
    && |t| > 0
    && (forall id :: id in at ==> id < |hs| && t[Probe(hs[id], at[id], |t|)] == Entry(hs[id], Some(id)))
    && (forall id, j: nat :: id in at && j < at[id] ==> t[Probe(hs[id], j, |t|)].key.Some?)
    && (forall i :: 0 <= i < |t| && t[i].key.Some? ==> Owned(t, hs, at, i))
  }

  ghost predicate Owned(t: seq<Entry>, hs: seq<nat>, at: map<nat, nat>, i: nat)
    requires i < |t| && t[i].key.Some?
  {
    var id := t[i].key.value;
    id in at && id < |hs| && i == Probe(hs[id], at[id], |t|)
  }

  lemma EntryOwned(t: seq<Entry>, hs: seq<nat>, at: map<nat, nat>, i: nat)
    requires Placed(t, hs, at) && i < |t| && t[i].key.Some?
    ensures var id := t[i].key.value;
      id in at && id < |hs| && i == Probe(hs[id], at[id], |t|) && t[i].hashVal == hs[id]
    ensures forall id :: id in at ==> id < |hs| && (Probe(hs[id], at[id], |t|) == i ==> id == t[i].key.value)
  {
    assert Owned(t, hs, at, i);
  }

  lemma EntryMissing(t: seq<Entry>, hs: seq<nat>, at: map<nat, nat>, i: nat)
    requires Placed(t, hs, at) && i < |t| && t[i].key.None?
    ensures forall id :: id in at ==> id < |hs| && Probe(hs[id], at[id], |t|) != i
  {
  }

  ghost function Taken(t: seq<Entry>): set<nat> {
    set i | 0 <= i < |t| && t[i].key.Some?
  }

  lemma {:induction false} ImageSmall<T>(s: set<T>, f: T -> nat, image: set<nat>)
    requires forall y :: y in image ==> exists x :: x in s && f(x) == y
    ensures |image| <= |s|
    decreases |s|
  {
    if image != {} {
      var y :| y in image;
      var x :| x in s && f(x) == y;
      forall z | z in image - {y} ensures exists x' :: x' in s - {x} && f(x') == z {
        var x' :| x' in s && f(x') == z;
      }
      ImageSmall(s - {x}, f, image - {y});
    }
  }

  lemma {:induction false} BoundedSet(s: set<nat>, n: nat)
    requires forall x :: x in s ==> x < n
    ensures |s| <= n
    decreases n
  {
    if n > 0 {
      BoundedSet(s - {n - 1}, n - 1);
    } else {
      assert s == {} by {
        forall x | x in s ensures false {
        }
      }
    }
  }

  /** No more slots are taken than there are nodes. */
  lemma TakenFew(t: seq<Entry>, hs: seq<nat>, at: map<nat, nat>)
    requires Placed(t, hs, at)
    ensures |Taken(t)| <= |hs|
  {
    var f := id => if id in at && id < |hs| then Probe(hs[id], at[id], |t|) else 0;
    forall i | i in Taken(t) ensures exists id :: id in at.Keys && f(id) == i {
      assert Owned(t, hs, at, i);
      assert f(t[i].key.value) == i;
    }
    ImageSmall(at.Keys, f, Taken(t));
    BoundedSet(at.Keys, |hs|);
  }

  /** All slots up to the `k`-th probe are taken. */
  ghost predicate Passed(t: seq<Entry>, h: nat, k: nat)
    requires |t| > 0
  {
    forall j: nat :: j < k ==> t[Probe(h, j, |t|)].key.Some?
  }

  lemma PlacedInsert(t: seq<Entry>, hs: seq<nat>, at: map<nat, nat>, id: nat, k: nat)
    requires Placed(t, hs, at) && id < |hs| && id !in at
    requires Passed(t, hs[id], k) && t[Probe(hs[id], k, |t|)].key.None?
    ensures Placed(t[Probe(hs[id], k, |t|) := Entry(hs[id], Some(id))], hs, at[id := k])
  {
    var p := Probe(hs[id], k, |t|);
    var u, au := t[p := Entry(hs[id], Some(id))], at[id := k];
    forall i | 0 <= i < |u| && u[i].key.Some? ensures Owned(u, hs, au, i) {
      if i != p {
        assert Owned(t, hs, at, i);
      }
    }
  }

  lemma PlacedExtends(t: seq<Entry>, hs: seq<nat>, at: map<nat, nat>, h: nat)
    requires Placed(t, hs, at)
    ensures Placed(t, hs + [h], at)
  {
    forall i | 0 <= i < |t| && t[i].key.Some? ensures Owned(t, hs + [h], at, i) {
      assert Owned(t, hs, at, i);
    }
  }

  lemma PlacedEmpty(t: seq<Entry>, hs: seq<nat>)
    requires |t| > 0 && forall i :: 0 <= i < |t| ==> t[i] == EMPTY
    ensures Placed(t, hs, map[])
  {
  }

  ghost function Hashes(g: Nodes, hash: Node -> nat): (hs: seq<nat>)
    ensures |hs| == |g| && forall i :: 0 <= i < |g| ==> hs[i] == hash(g[i])
  {
    seq(|g|, i requires 0 <= i < |g| => hash(g[i]))
  }

  ghost predicate NoTwins(g: Nodes) {
    forall i, j :: 0 <= i < j < |g| ==> g[i] != g[j]
  }

  ghost predicate UsablePrimes(primes: seq<nat>) {
    && |primes| > 0
    && (forall i :: 0 <= i < |primes| ==> primes[i] > 4 && Prime(primes[i]))
    && (forall i, j :: 0 <= i < j < |primes| ==> primes[i] < primes[j])
  }

  /** None of the first `k` probes holds `n`. */
  ghost predicate PassedOthers(t: seq<Entry>, g: Nodes, n: Node, h: nat, k: nat)
    requires |t| > 0
  {
    forall j: nat :: j < k ==> Other(t[Probe(h, j, |t|)], g, n)
  }

  ghost predicate Other(e: Entry, g: Nodes, n: Node) {
    e.key.Some? ==> e.key.value < |g| && g[e.key.value] != n
  }

  /** A probe sequence that meets a free slot before `n` proves that `n` is not stored. */
  lemma NotStored(t: seq<Entry>, g: Nodes, hash: Node -> nat, at: map<nat, nat>, n: Node, k: nat)
    requires Placed(t, Hashes(g, hash), at) && forall id :: 0 <= id < |g| ==> id in at
    requires PassedOthers(t, g, n, hash(n), k) && t[Probe(hash(n), k, |t|)].key.None?
    ensures n !in g
  {
    forall id | 0 <= id < |g| ensures g[id] != n {
      if hash(g[id]) == hash(n) {
        MetBefore(t, Hashes(g, hash), at, id, k);
        assert Other(t[Probe(hash(n), at[id], |t|)], g, n);
      }
    }
  }

  lemma MetBefore(t: seq<Entry>, hs: seq<nat>, at: map<nat, nat>, id: nat, k: nat)
    requires Placed(t, hs, at) && id in at && t[Probe(hs[id], k, |t|)].key.None?
    ensures at[id] < k && t[Probe(hs[id], at[id], |t|)] == Entry(hs[id], Some(id))
  {
  }

  lemma InternTwinless(g: Nodes, n: Node)
    requires NoTwins(g)
    ensures NoTwins(Intern(g, n)) && g <= Intern(g, n)
    ensures InternId(g, n) < |Intern(g, n)| && Intern(g, n)[InternId(g, n)] == n
    ensures forall id :: 0 <= id < |g| && g[id] == n ==> Intern(g, n) == g && InternId(g, n) == id
    ensures n !in g ==> Intern(g, n) == g + [n] && InternId(g, n) == |g|
  {
  }

  lemma FreshId(t: seq<Entry>, hs: seq<nat>, at: map<nat, nat>)
    requires Placed(t, hs, at)
    ensures |hs| !in at
  {
  }

  lemma CapacityPrime(primes: seq<nat>, cap: nat)
    requires UsablePrimes(primes) && cap in primes
    ensures Prime(cap)
  {
  }

  /** A new capacity is no smaller than the old one. */
  lemma CapacityFits(primes: seq<nat>, cap: nat, n: nat, c: nat)
    requires UsablePrimes(primes) && (cap == 0 || cap in primes) && cap <= n
    requires c in primes && (c > n || c == primes[|primes| - 1])
    ensures c >= cap && c > 4 && Prime(c)
    ensures n < primes[|primes| - 1] ==> c > n
  {
    if c <= n && cap > 0 {
      var i :| 0 <= i < |primes| && primes[i] == cap;
    }
  }

  lemma LargestCapacity(primes: seq<nat>, cap: nat)
    requires UsablePrimes(primes) && cap in primes
    ensures cap <= primes[|primes| - 1]
  {
  }

  /** How many probes lead to some free slot. */
  lemma SomeFree(t: seq<Entry>, h: nat, hs: seq<nat>, at: map<nat, nat>) returns (k: nat)
    requires Prime(|t|) && Placed(t, hs, at) && |hs| <= |t| / 2
    ensures t[Probe(h, k, |t|)].key.None?
  {
    TakenFew(t, hs, at);
    k := FreeSlot(h, |t|, Taken(t));
  }

  class GlobalTable {
    const primes: seq<nat>
    const hash: Node -> nat
    var table: array<Entry>
    var size: nat
    var maxSize: nat
    var nodes: Nodes
    ghost var at: map<nat, nat>

    ghost predicate Filled()
      reads this, table
    {
      && table.Length in primes && maxSize == table.Length / 2 - 1
      && Placed(table[..], Hashes(nodes, hash), at) && forall id :: 0 <= id < |nodes| ==> id in at
    }

    ghost predicate Sound()
      reads this, table
    {
      && UsablePrimes(primes) && NoTwins(nodes) && size == |nodes| <= maxSize
      && if table.Length == 0 then maxSize == 0 else Filled()
    }

    ghost predicate Valid()
      reads this, table
    {
      Sound() && table.Length > 0
    }

    /** The table of the largest capacity would have room for another node. */
    ghost predicate Room()
      reads this
      requires |primes| > 0
    {
      size + 1 < primes[|primes| - 1] / 2
    }

    constructor (primes: seq<nat>, hash: Node -> nat)
      requires UsablePrimes(primes)
      ensures Valid() && nodes == [] && this.primes == primes
    {
      this.primes, this.hash := primes, hash;
      table := new Entry[0];
      size, maxSize, nodes, at := 0, 0, [], map[];
      new;
      this.Grow(1);
    }

    /** The first listed capacity above `n`, or the last one. */
    method NewCapacity(n: nat) returns (c: nat)
      requires UsablePrimes(primes)
      ensures c in primes && (c > n || c == primes[|primes| - 1])
    {
      c := primes[0];
      var i := 1;
      while c <= n && i < |primes|
        invariant 1 <= i <= |primes| && c == primes[i - 1]
      {
        c := primes[i];
        i := i + 1;
      }
    }

    /** Walk to the first free slot of the probe sequence of `h`. */
    method FirstFree(t: array<Entry>, h: nat, ghost hs: seq<nat>, ghost at: map<nat, nat>)
      returns (index: nat, ghost k: nat)
      requires Prime(t.Length) && Placed(t[..], hs, at) && |hs| <= t.Length / 2
      ensures index == Probe(h, k, t.Length) && Passed(t[..], h, k) && t[index].key.None?
    {
      hide Placed, Prime;
      ghost var bound := SomeFree(t[..], h, hs, at);
      var incr := 1;
      index, k := h % t.Length, 0;
      while t[index].key.Some?
        invariant k <= bound && index == Probe(h, k, t.Length) && incr == 2 * k + 1
        invariant Passed(t[..], h, k)
        decreases bound - k
      {
        ProbeStep(h, k, t.Length);
        index, incr, k := (index + incr) % t.Length, incr + 2, k + 1;
      }
    }

    /** Move one entry into the table `t`. */
    method Reinsert(t: array<Entry>, e: Entry, ghost hs: seq<nat>, ghost placed: map<nat, nat>)
      returns (ghost placed': map<nat, nat>)
      requires Prime(t.Length) && Placed(t[..], hs, placed) && |hs| <= t.Length / 2
      requires e.key.Some? && e.key.value < |hs| && e.key.value !in placed && e.hashVal == hs[e.key.value]
      modifies t
      ensures Placed(t[..], hs, placed') && placed'.Keys == placed.Keys + {e.key.value}
    {
      hide Placed, Prime;
      var index, k := FirstFree(t, e.hashVal, hs, placed);
      PlacedInsert(t[..], hs, placed, e.key.value, k);
      t[index] := e;
      placed' := placed[e.key.value := k];
    }

    /** Move all entries into the larger table `t`. */
    method Rehash(t: array<Entry>) returns (ghost placed: map<nat, nat>)
      requires t != table && t.Length > 0 && Prime(t.Length) && |nodes| <= t.Length / 2
      requires forall i :: 0 <= i < t.Length ==> t[i] == EMPTY
      requires table.Length > 0 ==>
        Placed(table[..], Hashes(nodes, hash), at) && forall id :: 0 <= id < |nodes| ==> id in at
      requires table.Length == 0 ==> nodes == []
      modifies t
      ensures Placed(t[..], Hashes(nodes, hash), placed) && forall id :: 0 <= id < |nodes| ==> id in placed
    {
      hide Prime, Placed, Owned;
      ghost var hs, old' := Hashes(nodes, hash), table[..];
      placed := map[];
      PlacedEmpty(t[..], hs);
      for i := 0 to table.Length
        invariant Placed(t[..], hs, placed) && table[..] == old'
        invariant i > 0 ==> forall id :: 0 <= id < |nodes| && Probe(hs[id], at[id], table.Length) < i ==> id in placed
        invariant forall id :: id in placed ==>
          i > 0 && id in at && id < |hs| && Probe(hs[id], at[id], table.Length) < i
      {
        if table[i].key.Some? {
          EntryOwned(old', hs, at, i);
          placed := Reinsert(t, table[i], hs, placed);
        } else {
          EntryMissing(old', hs, at, i);
        }
      }
    }

    method Grow(numElems: nat)
      requires Sound()
      modifies this
      ensures Valid() && nodes == old(nodes) && (table == old(table) || fresh(table))
      ensures numElems < maxSize || maxSize == primes[|primes| - 1] / 2 - 1
    {
      hide Placed, Prime, NoTwins;
      var wanted := 2 * (numElems + 2);
      if wanted < table.Length {
        return;
      }
      var newCap := NewCapacity(wanted);
      CapacityFits(primes, table.Length, wanted, newCap);
      var bigger := new Entry[newCap](_ => EMPTY);
      ghost var placed := Rehash(bigger);
      table, at, maxSize := bigger, placed, newCap / 2 - 1;
    }

    /** Compare argument lists one by one. */
    static method SameArgs(s: seq<Edge>, t: seq<Edge>) returns (same: bool)
      ensures same <==> s == t
    {
      if |s| != |t| {
        return false;
      }
      for i := 0 to |s|
        invariant forall j :: 0 <= j < i ==> s[j] == t[j]
      {
        if s[i] != t[i] {
          return false;
        }
      }
      return true;
    }

    /** Does the entry hold this node? The hash values are compared first. */
    method Matches(e: Entry, hashVal: nat, n: Node) returns (same: bool)
      requires e.key.Some? && e.key.value < |nodes| && e.hashVal == hash(nodes[e.key.value]) && hashVal == hash(n)
      ensures same <==> nodes[e.key.value] == n
    {
      var m := nodes[e.key.value];
      same := false;
      if e.hashVal == hashVal && m.op == n.op {
        same := SameArgs(m.args, n.args);
      }
    }

    /** Probe for a node until it or a free slot is met. */
    method Lookup(hashVal: nat, n: Node) returns (found: bool, index: nat, ghost k: nat)
      requires Valid() && hashVal == hash(n)
      ensures index < table.Length
      ensures found ==> table[index].key.Some? && table[index].key.value < |nodes| && nodes[table[index].key.value] == n
      ensures !found ==> n !in nodes && table[index].key.None? && index == Probe(hashVal, k, table.Length)
      ensures !found ==> Passed(table[..], hashVal, k)
    {
      hide Placed, Prime, NoTwins, UsablePrimes;
      ghost var t, hs := table[..], Hashes(nodes, hash);
      CapacityPrime(primes, table.Length);
      ghost var bound := SomeFree(t, hashVal, hs, at);
      var incr := 1;
      index, k := hashVal % table.Length, 0;
      while table[index].key.Some?
        invariant k <= bound && index == Probe(hashVal, k, table.Length) && incr == 2 * k + 1
        invariant Passed(t, hashVal, k) && PassedOthers(t, nodes, n, hashVal, k)
        decreases bound - k
      {
        EntryOwned(t, hs, at, index);
        found := Matches(table[index], hashVal, n);
        if found {
          return;
        }
        ProbeStep(hashVal, k, table.Length);
        index, incr, k := (index + incr) % table.Length, incr + 2, k + 1;
      }
      found := false;
      NotStored(t, nodes, hash, at, n, k);
    }

    /** The unique node with this operator and these arguments. The program asserts that the table is not
        full after growing; that fails, and the call with it, unless there is room. */
    method UNode(op: Op, args: seq<Edge>) returns (ok: bool, r: Edge)
      requires Valid()
      modifies this, table
      ensures Valid() && (ok <==> old(Room()))
      ensures if ok then nodes == Intern(old(nodes), Node(op, args)) else nodes == old(nodes)
      ensures ok ==> r == Link(InternId(old(nodes), Node(op, args)), false)
    {
      hide Placed, Prime, NoTwins;
      LargestCapacity(primes, table.Length);
      if size == maxSize {
        Grow(size + 1);
        LargestCapacity(primes, table.Length);
      }
      ok := size < maxSize;
      if ok {
        r := Share(Node(op, args));
      } else {
        r := True;
      }
    }

    method Share(n: Node) returns (r: Edge)
      requires Valid() && size < maxSize
      modifies this`nodes, this`size, this`at, table
      ensures Valid() && nodes == Intern(old(nodes), n) && r == Link(InternId(old(nodes), n), false)
    {
      hide Placed, Prime, UsablePrimes;
      var hashVal := hash(n);
      var found, index, k := Lookup(hashVal, n);
      InternTwinless(nodes, n);
      if !found {
        PlacedExtends(table[..], Hashes(nodes, hash), at, hashVal);
        ghost var hs := Hashes(nodes, hash) + [hashVal];
        FreshId(table[..], Hashes(nodes, hash), at);
        PlacedInsert(table[..], hs, at, |nodes|, k);
        table[index] := Entry(hashVal, Some(|nodes|));
        at := at[|nodes| := k];
        nodes, size := nodes + [n], size + 1;
        assert Hashes(nodes, hash) == hs;
      }
      r := Link(table[index].key.value, false);
    }
  }

  // ----- canonicity over runs -----

  /** The node tables along a sequence of requests. */
  function After(g: Nodes, requests: seq<Node>): Nodes {
    if requests == [] then g else Intern(After(g, requests[..|requests| - 1]), requests[|requests| - 1])
  }

  /** What the request at index `i` is answered with. */
  function Answer(g: Nodes, requests: seq<Node>, i: nat): Edge
    requires i < |requests|
  {
    Link(InternId(After(g, requests[..i]), requests[i]), false)
  }

  lemma {:induction false} AfterGrows(g: Nodes, requests: seq<Node>, i: nat)
    requires NoTwins(g) && i <= |requests|
    ensures NoTwins(After(g, requests)) && After(g, requests[..i]) <= After(g, requests)
    decreases |requests|
  {
    if i < |requests| {
      var init := requests[..|requests| - 1];
      assert init[..i] == requests[..i];
      AfterGrows(g, init, i);
      InternTwinless(After(g, init), requests[|requests| - 1]);
    } else {
      assert requests[..i] == requests;
      if requests != [] {
        AfterGrows(g, requests[..i - 1], i - 1);
        InternTwinless(After(g, requests[..i - 1]), requests[i - 1]);
      }
    }
  }

  /** Two requests get the same edge exactly when operator and arguments agree, whatever lies between them. */
  lemma Canonical(g: Nodes, requests: seq<Node>, i: nat, j: nat)
    requires NoTwins(g) && i <= j < |requests|
    ensures Answer(g, requests, i) == Answer(g, requests, j) <==> requests[i] == requests[j]
  {
    hide Intern, InternId, NoTwins;
    var first, later := After(g, requests[..i]), After(g, requests[..j]);
    AfterGrows(g, requests[..i], 0);
    AfterGrows(g, requests[..j], 0);
    InternTwinless(first, requests[i]);
    InternTwinless(later, requests[j]);
    if i < j {
      AfterNext(g, requests, i);
      assert requests[..j][..i + 1] == requests[..i + 1];
      AfterGrows(g, requests[..j], i + 1);
    }
  }

  lemma AfterNext(g: Nodes, requests: seq<Node>, i: nat)
    requires i < |requests|
    ensures After(g, requests[..i + 1]) == Intern(After(g, requests[..i]), requests[i])
  {
    assert requests[..i + 1][..i] == requests[..i];
  }
}
