/** The heap of decision variables, ordered by score, with the position of each rank kept inverse. */
module DecisionHeap {

  /** The greater of two ranks: by score, and by the smaller index among equals. */
  predicate Above(score: seq<nat>, r: nat, s: nat) {
    r < |score| && s < |score| && (score[r] > score[s] || (score[r] == score[s] && r < s))
  }

  /** Slots from 1 on hold the ranks whose position they are; position zero means absent. */
  ghost predicate Placed(heap: seq<nat>, pos: seq<nat>) {
    && |heap| >= 1
    && (forall i :: 1 <= i < |heap| ==> heap[i] < |pos| && pos[heap[i]] == i)
    && (forall r :: 0 <= r < |pos| && pos[r] > 0 ==> pos[r] < |heap| && heap[pos[r]] == r)
  }

  ghost predicate Below(score: seq<nat>, heap: seq<nat>, i: nat, j: nat) {
    1 <= i < |heap| && j < |heap| && Above(score, heap[i], heap[j])
  }

  ghost predicate Ordered(score: seq<nat>, heap: seq<nat>) {
    forall i :: 2 <= i < |heap| ==> Below(score, heap, i / 2, i)
  }

  /** Ordered but that slot `k` may rise above its ancestors. */
  ghost predicate OrderedUp(score: seq<nat>, heap: seq<nat>, k: nat) {
    && (forall i :: 2 <= i < |heap| && i != k ==> Below(score, heap, i / 2, i))
    && (forall i :: 2 <= i < |heap| && i / 2 == k && k >= 2 ==> Below(score, heap, k / 2, i))
  }

  /** Ordered but that slot `k` may sink below its descendants. */
  ghost predicate OrderedDown(score: seq<nat>, heap: seq<nat>, k: nat) {
    && (forall i :: 2 <= i < |heap| && i / 2 != k ==> Below(score, heap, i / 2, i))
    && (forall i :: 2 <= i < |heap| && i / 2 == k && k >= 2 ==> Below(score, heap, k / 2, i))
  }

  ghost predicate SameMembers(pos: seq<nat>, was: seq<nat>) {
    |pos| == |was| && forall r :: 0 <= r < |pos| ==> (pos[r] > 0 <==> was[r] > 0)
  }

  function Swapped(heap: seq<nat>, j: nat, k: nat): seq<nat>
    requires j < |heap| && k < |heap|
  {
    heap[j := heap[k]][k := heap[j]]
  }

  function Moved(pos: seq<nat>, heap: seq<nat>, j: nat, k: nat): seq<nat>
    requires j < |heap| && k < |heap| && heap[j] < |pos| && heap[k] < |pos|
  {
    pos[heap[j] := k][heap[k] := j]
  }

  lemma SwapPlaced(heap: seq<nat>, pos: seq<nat>, j: nat, k: nat)
    requires Placed(heap, pos) && 1 <= j < k < |heap|
    ensures Placed(Swapped(heap, j, k), Moved(pos, heap, j, k)) && SameMembers(Moved(pos, heap, j, k), pos)
  {
  }

  lemma AboveOther(score: seq<nat>, r: nat, s: nat)
    requires r < |score| && s < |score| && r != s
    ensures Above(score, r, s) <==> !Above(score, s, r)
  {
  }

  /** Rising by one level. */
  lemma SwapUp(score: seq<nat>, heap: seq<nat>, k: nat)
    requires 2 <= k < |heap| && OrderedUp(score, heap, k) && Above(score, heap[k], heap[k / 2])
    ensures OrderedUp(score, Swapped(heap, k / 2, k), k / 2)
  {
    var u := k / 2;
    var h := Swapped(heap, u, k);
    forall i | 2 <= i < |h| && i != u ensures Below(score, h, i / 2, i) {
      assert i != k ==> Below(score, heap, i / 2, i);
      if i / 2 == k {
        assert Below(score, heap, u, i);
      }
    }
    forall i | 2 <= i < |h| && i / 2 == u && u >= 2 ensures Below(score, h, u / 2, i) {
      assert Below(score, heap, u / 2, u);
      assert i != k ==> Below(score, heap, u, i);
    }
  }

  /** Sinking by one level, to the greater child. */
  lemma SwapDown(score: seq<nat>, heap: seq<nat>, k: nat, c: nat)
    requires 1 <= k && c < |heap| && c / 2 == k && OrderedDown(score, heap, k) && Above(score, heap[c], heap[k])
    requires forall i :: 2 <= i < |heap| && i / 2 == k && i != c ==> Above(score, heap[c], heap[i])
    ensures OrderedDown(score, Swapped(heap, k, c), c)
  {
    var h := Swapped(heap, k, c);
    forall i | 2 <= i < |h| && i / 2 != c ensures Below(score, h, i / 2, i) {
      if i / 2 == k {
      } else {
        assert Below(score, heap, i / 2, i);
        if i == k {
          assert Below(score, heap, k / 2, c);
        }
      }
    }
    forall i | 2 <= i < |h| && i / 2 == c ensures Below(score, h, k, i) {
      assert Below(score, heap, c, i);
    }
  }

  /** The root of an ordered heap is the greatest. */
  lemma {:induction false} RootGreatest(score: seq<nat>, heap: seq<nat>, i: nat)
    requires Ordered(score, heap) && 2 <= i < |heap|
    ensures Above(score, heap[1], heap[i])
    decreases i
  {
    assert Below(score, heap, i / 2, i);
    if i / 2 >= 2 {
      RootGreatest(score, heap, i / 2);
    }
  }

  lemma HoleRises(heap: seq<nat>, pos: seq<nat>, v: nat, j: nat, k: nat)
    requires 1 <= j < k < |heap| && v < |pos| && Placed(heap[k := v], pos[v := k])
    ensures heap[j] < |pos| && heap[j] != v
    ensures heap[k := heap[j]][j := v] == Swapped(heap[k := v], j, k)
    ensures pos[heap[j] := k][v := j] == Moved(pos[v := k], heap[k := v], j, k)
  {
    var h, q := heap[k := v], pos[v := k];
    assert h[j] == heap[j] && h[k] == v && q[h[j]] == j && q[h[k]] == k;
  }

  lemma HoleSinks(heap: seq<nat>, pos: seq<nat>, v: nat, k: nat, c: nat)
    requires 1 <= k < c < |heap| && v < |pos| && Placed(heap[k := v], pos[v := k])
    ensures heap[c] < |pos| && heap[c] != v
    ensures heap[k := heap[c]][c := v] == Swapped(heap[k := v], k, c)
    ensures pos[heap[c] := k][v := c] == Moved(pos[v := k], heap[k := v], k, c)
  {
    var h, q := heap[k := v], pos[v := k];
    assert h[c] == heap[c] && h[k] == v && q[h[c]] == c && q[h[k]] == k;
  }

  /** With `v` put into slot `k`, everything is in place except the order upwards from there. */
  ghost predicate Rising(score: seq<nat>, heap: seq<nat>, pos: seq<nat>, v: nat, k: nat) {
    && 1 <= k < |heap| && v < |pos| && |score| == |pos|
    && Placed(heap[k := v], pos[v := k]) && OrderedUp(score, heap[k := v], k)
  }

  ghost predicate Sinking(score: seq<nat>, heap: seq<nat>, pos: seq<nat>, v: nat, k: nat) {
    && 1 <= k < |heap| && v < |pos| && |score| == |pos|
    && Placed(heap[k := v], pos[v := k]) && OrderedDown(score, heap[k := v], k)
  }

  lemma RiseStep(score: seq<nat>, heap: seq<nat>, pos: seq<nat>, v: nat, k: nat)
    requires Rising(score, heap, pos, v, k) && k > 1 && !Above(score, heap[k / 2], v)
    ensures heap[k / 2] < |pos| && Rising(score, heap[k := heap[k / 2]], pos[heap[k / 2] := k], v, k / 2)
    ensures SameMembers(pos[heap[k / 2] := k][v := k / 2], pos[v := k])
  {
    var h := heap[k := v];
    HoleRises(heap, pos, v, k / 2, k);
    SwapPlaced(h, pos[v := k], k / 2, k);
    AboveOther(score, v, heap[k / 2]);
    SwapUp(score, h, k);
  }

  lemma RiseEnds(score: seq<nat>, heap: seq<nat>, pos: seq<nat>, v: nat, k: nat)
    requires Rising(score, heap, pos, v, k) && (k == 1 || Above(score, heap[k / 2], v))
    ensures Ordered(score, heap[k := v])
  {
  }

  lemma SinkStep(score: seq<nat>, heap: seq<nat>, pos: seq<nat>, v: nat, k: nat, c: nat)
    requires Sinking(score, heap, pos, v, k) && c < |heap| && c / 2 == k && Above(score, heap[c], v)
    requires forall i :: 2 <= i < |heap| && i / 2 == k && i != c ==> Above(score, heap[c], heap[i])
    ensures heap[c] < |pos| && Sinking(score, heap[k := heap[c]], pos[heap[c] := k], v, c)
    ensures SameMembers(pos[heap[c] := k][v := c], pos[v := k])
  {
    var h := heap[k := v];
    HoleSinks(heap, pos, v, k, c);
    SwapPlaced(h, pos[v := k], k, c);
    SwapDown(score, h, k, c);
  }

  lemma SinkEnds(score: seq<nat>, heap: seq<nat>, pos: seq<nat>, v: nat, k: nat)
    requires Sinking(score, heap, pos, v, k)
    requires forall i :: 2 <= i < |heap| && i / 2 == k ==> Above(score, v, heap[i])
    ensures Ordered(score, heap[k := v])
  {
    var h := heap[k := v];
    forall i | 2 <= i < |h| ensures Below(score, h, i / 2, i) {
      assert i / 2 != k ==> Below(score, h, i / 2, i);
    }
  }

  lemma ChildrenKnown(score: seq<nat>, heap: seq<nat>, pos: seq<nat>, v: nat, k: nat)
    requires Sinking(score, heap, pos, v, k)
    ensures forall i :: 2 <= i < |heap| && i / 2 == k ==> heap[i] < |score| && heap[i] != v
    ensures 2 * k + 1 < |heap| ==> heap[2 * k] != heap[2 * k + 1]
  {
    var h, q := heap[k := v], pos[v := k];
    forall i | 2 <= i < |heap| && i / 2 == k ensures heap[i] < |score| && heap[i] != v {
      assert h[i] == heap[i] && q[h[i]] == i && h[k] == v;
    }
    if 2 * k + 1 < |heap| {
      assert h[2 * k] == heap[2 * k] && h[2 * k + 1] == heap[2 * k + 1] && q[h[2 * k]] == 2 * k;
    }
  }

  class Heap {
    var score: seq<nat>
    var pos: seq<nat>
    var heap: seq<nat>

    ghost predicate Valid()
      reads this
    {
      |score| == |pos| && Placed(heap, pos) && Ordered(score, heap)
    }

    ghost predicate Holds(r: nat)
      reads this
    {
      r < |pos| && pos[r] > 0
    }

    constructor (n: nat)
      ensures Valid() && pos == seq(n, _ => 0) && forall r :: !Holds(r)
    {
      score, pos, heap := seq(n, _ => 0), seq(n, _ => 0), [0];
    }

    method Up(v: nat)
      requires v < |pos| && pos[v] > 0 && |score| == |pos| && Placed(heap, pos) && OrderedUp(score, heap, pos[v])
      modifies this`heap, this`pos
      ensures Valid() && SameMembers(pos, old(pos)) && |heap| == old(|heap|)
    {
      hide OrderedUp, Placed;
      var vpos := Slot(v);
      assert heap[vpos := v] == heap && pos[v := vpos] == pos;
      while vpos > 1
        invariant Rising(score, heap, pos, v, vpos) && SameMembers(pos[v := vpos], old(pos)) && |heap| == old(|heap|)
        decreases vpos
      {
        var upos := vpos / 2;
        var u := heap[upos];
        if Above(score, u, v) {
          break;
        }
        RiseStep(score, heap, pos, v, vpos);
        heap, pos := heap[vpos := u], pos[u := vpos];
        vpos := upos;
      }
      RiseEnds(score, heap, pos, v, vpos);
      heap, pos := heap[vpos := v], pos[v := vpos];
    }

    method Slot(v: nat) returns (k: nat)
      requires v < |pos| && pos[v] > 0 && Placed(heap, pos)
      ensures k == pos[v] && 1 <= k < |heap| && heap[k] == v
    {
      k := pos[v];
    }

    method Down(r: nat)
      requires r < |pos| && pos[r] > 0 && |score| == |pos| && Placed(heap, pos) && OrderedDown(score, heap, pos[r])
      modifies this`heap, this`pos
      ensures Valid() && SameMembers(pos, old(pos)) && |heap| == old(|heap|)
    {
      hide OrderedDown, Placed, Above;
      var rpos := Slot(r);
      assert heap[rpos := r] == heap && pos[r := rpos] == pos;
      while true
        invariant Sinking(score, heap, pos, r, rpos) && SameMembers(pos[r := rpos], old(pos)) && |heap| == old(|heap|)
        decreases |heap| - rpos
      {
        var c := Child(r, rpos);
        if c == 0 {
          break;
        }
        SinkStep(score, heap, pos, r, rpos, c);
        var child := heap[c];
        heap, pos := heap[rpos := child], pos[child := rpos];
        rpos := c;
      }
      SinkEnds(score, heap, pos, r, rpos);
      heap, pos := heap[rpos := r], pos[r := rpos];
    }

    /** The slot of the greater child, if it is above `r`; zero when none is. */
    method Child(r: nat, rpos: nat) returns (c: nat)
      requires Sinking(score, heap, pos, r, rpos)
      ensures c == 0 ==> forall i :: 2 <= i < |heap| && i / 2 == rpos ==> Above(score, r, heap[i])
      ensures c != 0 ==> c < |heap| && c / 2 == rpos && rpos < c && Above(score, heap[c], r)
      ensures c != 0 ==> forall i :: 2 <= i < |heap| && i / 2 == rpos && i != c ==> Above(score, heap[c], heap[i])
    {
      ChildrenKnown(score, heap, pos, r, rpos);
      c := 2 * rpos;
      if c >= |heap| {
        return 0;
      }
      var o := c + 1;
      if Above(score, heap[c], r) {
        if o < |heap| && Above(score, heap[o], heap[c]) {
          c := o;
        }
      } else if o < |heap| && Above(score, heap[o], r) {
        c := o;
      } else {
        c := 0;
      }
    }

    /** Raise a score. */
    method Raise(r: nat, s: nat)
      requires Valid() && r < |score| && score[r] <= s
      modifies this
      ensures Valid() && score == old(score)[r := s] && SameMembers(pos, old(pos))
    {
      RaiseKeeps(score, heap, pos, r, s);
      score := score[r := s];
      if pos[r] > 0 {
        Up(r);
      }
    }

    method Push(r: nat)
      requires Valid() && r < |pos| && !Holds(r)
      modifies this`heap, this`pos
      ensures Valid() && SameMembers(pos, old(pos)[r := 1])
    {
      PushKeeps(score, heap, pos, r);
      pos := pos[r := |heap|];
      heap := heap + [r];
      Up(r);
    }

    /** Take out the greatest rank. */
    method Pop() returns (res: nat)
      requires Valid() && |heap| > 1
      modifies this`heap, this`pos
      ensures Valid() && old(Holds(res)) && SameMembers(pos, old(pos)[res := 0])
      ensures res == old(heap[1]) && |heap| == old(|heap|) - 1
      ensures forall s :: old(Holds(s)) && s != res ==> Above(score, res, s)
    {
      RootAbove(score, heap, pos);
      res := heap[1];
      var end := |heap| - 1;
      PopKeeps(score, heap, pos);
      if end == 1 {
        pos, heap := pos[res := 0], heap[..end];
        return;
      }
      var last := heap[end];
      pos, heap := pos[res := 0][last := 1], heap[..end][1 := last];
      Down(last);
    }
  }

  lemma RaiseKeeps(score: seq<nat>, heap: seq<nat>, pos: seq<nat>, r: nat, s: nat)
    requires |score| == |pos| && Placed(heap, pos) && Ordered(score, heap) && r < |score| && score[r] <= s
    ensures pos[r] > 0 ==> OrderedUp(score[r := s], heap, pos[r])
    ensures pos[r] == 0 ==> Ordered(score[r := s], heap)
  {
    var k := pos[r];
    var raised := score[r := s];
    forall i | 2 <= i < |heap| && (i != k || k == 0) ensures Below(raised, heap, i / 2, i) {
      assert Below(score, heap, i / 2, i);
    }
    if k >= 2 {
      forall i | 2 <= i < |heap| && i / 2 == k ensures Below(raised, heap, k / 2, i) {
        assert Below(score, heap, k, i) && Below(score, heap, k / 2, k);
      }
    }
  }

  lemma PushKeeps(score: seq<nat>, heap: seq<nat>, pos: seq<nat>, r: nat)
    requires |score| == |pos| && Placed(heap, pos) && Ordered(score, heap) && r < |pos| && pos[r] == 0
    ensures Placed(heap + [r], pos[r := |heap|]) && OrderedUp(score, heap + [r], |heap|)
  {
    var h := heap + [r];
    forall i | 2 <= i < |h| && i != |heap| ensures Below(score, h, i / 2, i) {
      assert Below(score, heap, i / 2, i);
    }
  }

  lemma PopKeeps(score: seq<nat>, heap: seq<nat>, pos: seq<nat>)
    requires |score| == |pos| && Placed(heap, pos) && Ordered(score, heap) && |heap| > 1
    ensures var end, res := |heap| - 1, heap[1];
      && heap[end] < |pos| && res < |pos| && pos[res] == 1
      && (end == 1 ==> Placed(heap[..end], pos[res := 0]) && Ordered(score, heap[..end]))
      && (end > 1 ==> res != heap[end] && Placed(heap[..end][1 := heap[end]], pos[res := 0][heap[end] := 1]))
      && (end > 1 ==> OrderedDown(score, heap[..end][1 := heap[end]], 1))
  {
    var end, res := |heap| - 1, heap[1];
    if end > 1 {
      var h := heap[..end][1 := heap[end]];
      assert pos[heap[end]] == end;
      forall i | 2 <= i < |h| && i / 2 != 1 ensures Below(score, h, i / 2, i) {
        assert Below(score, heap, i / 2, i);
      }
    }
  }

  lemma RootAbove(score: seq<nat>, heap: seq<nat>, pos: seq<nat>)
    requires |score| == |pos| && Placed(heap, pos) && Ordered(score, heap) && |heap| > 1
    ensures forall s :: 0 <= s < |pos| && pos[s] > 0 && s != heap[1] ==> Above(score, heap[1], s)
  {
    forall s | 0 <= s < |pos| && pos[s] > 0 && s != heap[1] ensures Above(score, heap[1], s) {
      RootGreatest(score, heap, pos[s]);
    }
  }
}
