/** The in-place sort that n-ary construction relies on: selection sort for short stretches,
    partitioning around the middle element for long ones. */
module Sorting {

  ghost predicate SortedBetween<T>(s: seq<T>, lo: nat, hi: nat, key: T -> int)
    requires lo <= hi <= |s|
  {
    forall i, j :: lo <= i < j < hi ==> key(s[i]) <= key(s[j])
  }

  /** `t` rearranges `s` between `lo` and `hi`, and agrees with it elsewhere. */
  ghost predicate Rearranges<T>(s: seq<T>, t: seq<T>, lo: nat, hi: nat)
    requires lo <= hi <= |s|
  {
    && |t| == |s| && multiset(t) == multiset(s)
    && t[..lo] == s[..lo] && t[hi..] == s[hi..]
  }

  lemma RearrangesTransitive<T>(s: seq<T>, t: seq<T>, u: seq<T>, lo: nat, hi: nat)
    requires lo <= hi <= |s| && Rearranges(s, t, lo, hi) && Rearranges(t, u, lo, hi)
    ensures Rearranges(s, u, lo, hi)
  {
  }

  lemma RearrangesWider<T>(s: seq<T>, t: seq<T>, lo: nat, hi: nat, lo': nat, hi': nat)
    requires lo' <= lo <= hi <= hi' <= |s| && Rearranges(s, t, lo, hi)
    ensures Rearranges(s, t, lo', hi')
  {
    assert t[..lo'] == t[..lo][..lo'] && s[..lo'] == s[..lo][..lo'];
    assert t[hi'..] == t[hi..][hi' - hi..] && s[hi'..] == s[hi..][hi' - hi..];
  }

  lemma SliceMultiset<T>(s: seq<T>, t: seq<T>, lo: nat, hi: nat)
    requires lo <= hi <= |s| && Rearranges(s, t, lo, hi)
    ensures multiset(t[lo..hi]) == multiset(s[lo..hi])
  {
    assert s == s[..lo] + s[lo..hi] + s[hi..];
    assert t == t[..lo] + t[lo..hi] + t[hi..];
    assert multiset(s) == multiset(s[..lo]) + multiset(s[lo..hi]) + multiset(s[hi..]);
    assert multiset(t) == multiset(t[..lo]) + multiset(t[lo..hi]) + multiset(t[hi..]);
    assert t[..lo] == s[..lo] && t[hi..] == s[hi..];
    MiddleSame(multiset(s[..lo]), multiset(s[lo..hi]), multiset(t[lo..hi]), multiset(s[hi..]));
  }

  lemma MiddleSame<T>(a: multiset<T>, b: multiset<T>, c: multiset<T>, d: multiset<T>)
    requires a + b + d == a + c + d
    ensures b == c
  {
    forall x ensures b[x] == c[x] {
      assert (a + b + d)[x] == (a + c + d)[x];
    }
  }

  /** What holds of all elements of a stretch still holds after it is rearranged. */
  lemma BoundsKept<T>(s: seq<T>, t: seq<T>, lo: nat, hi: nat, key: T -> int, m: int, below: bool)
    requires lo <= hi <= |s| && Rearranges(s, t, lo, hi)
    requires forall k :: lo <= k < hi ==> if below then key(s[k]) <= m else m <= key(s[k])
    ensures forall k :: lo <= k < hi ==> if below then key(t[k]) <= m else m <= key(t[k])
  {
    SliceMultiset(s, t, lo, hi);
    forall k | lo <= k < hi ensures if below then key(t[k]) <= m else m <= key(t[k]) {
      assert t[k] == t[lo..hi][k - lo];
      assert t[k] in multiset(s[lo..hi]);
      var j :| 0 <= j < hi - lo && s[lo..hi][j] == t[k];
      assert s[lo + j] == t[k];
    }
  }

  method Swap<T>(a: array<T>, i: nat, j: nat, ghost lo: nat, ghost hi: nat)
    requires lo <= i < hi <= a.Length && lo <= j < hi
    modifies a
    ensures a[i] == old(a[j]) && a[j] == old(a[i])
    ensures forall k :: 0 <= k < a.Length && k != i && k != j ==> a[k] == old(a[k])
    ensures Rearranges(old(a[..]), a[..], lo, hi)
  {
    a[i], a[j] := a[j], a[i];
  }

  method SelectionSort<T>(a: array<T>, lo: nat, hi: nat, key: T -> int)
    requires lo <= hi <= a.Length
    modifies a
    ensures Rearranges(old(a[..]), a[..], lo, hi) && SortedBetween(a[..], lo, hi, key)
  {
    ghost var s := a[..];
    var i := lo;
    while i + 1 < hi
      invariant lo <= i <= hi && Rearranges(s, a[..], lo, hi)
      invariant forall k, m :: lo <= k < i && k < m < hi ==> key(a[k]) <= key(a[m])
    {
      var best := i;
      for j := i + 1 to hi
        invariant i <= best < hi
        invariant forall m :: i <= m < j ==> key(a[best]) <= key(a[m])
      {
        if key(a[j]) < key(a[best]) {
          best := j;
        }
      }
      ghost var t := a[..];
      Swap(a, i, best, lo, hi);
      RearrangesTransitive(s, t, a[..], lo, hi);
      i := i + 1;
    }
  }

  lemma RearrangesItself<T>(s: seq<T>, lo: nat, hi: nat)
    requires lo <= hi <= |s|
    ensures Rearranges(s, s, lo, hi)
  {
  }

  /** The first position from `i` on that is not below the pivot; one at `up` is certain to stop the scan. */
  method ScanUp<T>(a: array<T>, i: nat, ghost up: nat, pivot: int, key: T -> int) returns (r: nat)
    requires i <= up < a.Length && pivot <= key(a[up])
    ensures i <= r <= up && pivot <= key(a[r]) && forall k :: i <= k < r ==> key(a[k]) < pivot
  {
    r := i;
    while key(a[r]) < pivot
      invariant i <= r <= up && forall k :: i <= k < r ==> key(a[k]) < pivot
      decreases up - r
    {
      r := r + 1;
    }
  }

  method ScanDown<T>(a: array<T>, j: nat, ghost dn: nat, pivot: int, key: T -> int) returns (r: nat)
    requires dn <= j < a.Length && key(a[dn]) <= pivot
    ensures dn <= r <= j && key(a[r]) <= pivot && forall k :: r < k <= j ==> pivot < key(a[k])
  {
    r := j;
    while pivot < key(a[r])
      invariant dn <= r <= j && forall k :: r < k <= j ==> pivot < key(a[k])
      decreases r
    {
      r := r - 1;
    }
  }

  /** Two scans from both sides over the same stretch cannot pass each other by more than one. */
  lemma ScansMeet<T>(s: seq<T>, lo: nat, i: nat, j: nat, hi: nat, pivot: int, key: T -> int)
    requires lo <= i <= hi + 1 <= |s| && lo <= j + 1 <= hi + 1
    requires forall k :: lo <= k < i ==> key(s[k]) < pivot
    requires forall k :: j < k <= hi ==> pivot < key(s[k])
    ensures i <= j + 1
  {
    var meeting := if j + 1 < |s| then key(s[j + 1]) else pivot;
  }

  /** Split a stretch around its middle element. */
  method Partition<T>(a: array<T>, lo: nat, hi: nat, key: T -> int) returns (m: nat, ghost bound: int)
    requires lo + 2 <= hi <= a.Length
    modifies a
    ensures lo < m < hi && Rearranges(old(a[..]), a[..], lo, hi)
    ensures forall k :: lo <= k < m ==> key(a[k]) <= bound
    ensures forall k :: m <= k < hi ==> bound <= key(a[k])
  {
    hide Rearranges;
    ghost var s := a[..];
    RearrangesItself(s, lo, hi);
    assert a.Length == |s|;
    var pivot := key(a[lo + (hi - lo) / 2]);
    var i := ScanUp(a, lo, lo + (hi - lo) / 2, pivot, key);
    var j := ScanDown(a, hi - 1, lo + (hi - lo) / 2, pivot, key);
    while i < j
      invariant lo <= i < hi && lo <= j < hi && i <= j + 1 && Rearranges(s, a[..], lo, hi)
      invariant forall k :: lo <= k < i ==> key(a[k]) <= pivot
      invariant forall k :: j < k < hi ==> pivot <= key(a[k])
      invariant pivot <= key(a[i]) && key(a[j]) <= pivot
      invariant i >= j ==> lo < i
      decreases j + 1 - i
    {
      ghost var t := a[..];
      i, j := SwapAndScan(a, lo, hi, i, j, pivot, key);
      RearrangesTransitive(s, t, a[..], lo, hi);
    }
    m, bound := i, pivot;
  }

  /** Exchange two elements that are on the wrong sides and scan on from both. */
  method SwapAndScan<T>(a: array<T>, lo: nat, hi: nat, i: nat, j: nat, pivot: int, key: T -> int)
    returns (i': nat, j': nat)
    requires lo <= i < j < hi <= a.Length && pivot <= key(a[i]) && key(a[j]) <= pivot
    requires forall k :: lo <= k < i ==> key(a[k]) <= pivot
    requires forall k :: j < k < hi ==> pivot <= key(a[k])
    modifies a
    ensures i < i' <= j && i <= j' < j && i' <= j' + 1 && Rearranges(old(a[..]), a[..], lo, hi)
    ensures forall k :: lo <= k < i' ==> key(a[k]) <= pivot
    ensures forall k :: j' < k < hi ==> pivot <= key(a[k])
    ensures pivot <= key(a[i']) && key(a[j']) <= pivot
  {
    hide Rearranges;
    Swap(a, i, j, lo, hi);
    i' := ScanUp(a, i + 1, j, pivot, key);
    j' := ScanDown(a, j - 1, i, pivot, key);
    ScansMeet(a[..], i + 1, i', j', j - 1, pivot, key);
  }

  method Sort<T>(a: array<T>, lo: nat, hi: nat, key: T -> int)
    requires lo <= hi <= a.Length
    modifies a
    ensures Rearranges(old(a[..]), a[..], lo, hi) && SortedBetween(a[..], lo, hi, key)
    decreases hi - lo
  {
    if hi - lo <= 15 {
      SelectionSort(a, lo, hi, key);
      return;
    }
    var m, bound := Partition(a, lo, hi, key);
    ghost var s, t := old(a[..]), a[..];
    Sort(a, lo, m, key);
    ghost var u := a[..];
    Sort(a, m, hi, key);
    SortedHalves(s, t, u, a[..], lo, m, hi, key, bound);
  }

  /** Sorting the two sides of a partition sorts the whole stretch. */
  lemma SortedHalves<T>(s: seq<T>, t: seq<T>, u: seq<T>, v: seq<T>, lo: nat, m: nat, hi: nat, key: T -> int, bound: int)
    requires lo < m < hi <= |s| && Rearranges(s, t, lo, hi) && Rearranges(t, u, lo, m) && Rearranges(u, v, m, hi)
    requires forall k :: lo <= k < m ==> key(t[k]) <= bound
    requires forall k :: m <= k < hi ==> bound <= key(t[k])
    requires SortedBetween(u, lo, m, key) && SortedBetween(v, m, hi, key)
    ensures Rearranges(s, v, lo, hi) && SortedBetween(v, lo, hi, key)
  {
    RearrangesWider(t, u, lo, m, lo, hi);
    RearrangesWider(u, v, m, hi, lo, hi);
    RearrangesTransitive(s, t, u, lo, hi);
    RearrangesTransitive(s, u, v, lo, hi);
    BoundsKept(t, u, lo, m, key, bound, true);
    forall k | m <= k < hi ensures u[k] == t[k] {
      assert u[m..][k - m] == t[m..][k - m];
    }
    BoundsKept(u, v, m, hi, key, bound, false);
    forall k | lo <= k < m ensures v[k] == u[k] {
      assert v[..m][k] == u[..m][k];
    }
  }
}
