/** Literal vectors in memory: the in-place merges over one buffer, with the size as output cursor. */
module LitArrays {
  import opened Literals
  import LV = LitVectors

  /** The smallest buffer. */
  const MIN_LITVEC_SIZE := 2

  function After(out: Clause, r: Option<Clause>): Option<Clause> {
    match r
    case None => None
    case Some(x) => Some(out + x)
  }

  lemma AfterNothing(r: Option<Clause>)
    ensures After([], r) == r
  {
    if r.Some? {
      assert [] + r.value == r.value;
    }
  }

  lemma AfterOne(out: Clause, l: int, r: Option<Clause>)
    ensures After(out, After([l], r)) == After(out + [l], r)
  {
    if r.Some? {
      assert out + ([l] + r.value) == out + [l] + r.value;
    }
  }

  /** The larger of two capacities, doubled when `n` literals do not fit; once doubled they do. */
  function Capacity(a: nat, b: nat, n: nat): (c: nat)
    requires n <= a + b
    ensures n <= c && a <= c && b <= c
  {
    var larger := if a < b then b else a;
    if larger < n then 2 * larger else larger
  }

  lemma MergeStep(s: Clause, u: Clause, i: nat, j: nat, out: Clause)
    requires i < LV.Window(|s|) && j < LV.Window(|u|)
    ensures Abs(s[i]) == Abs(u[j]) && s[i] != u[j] ==> After(out, LV.Merged(s, u, i, j)).None?
    ensures Abs(s[i]) != Abs(u[j]) || s[i] == u[j] ==>
      After(out, LV.Merged(s, u, i, j))
      == After(out + [if Abs(s[i]) < Abs(u[j]) then s[i] else u[j]],
               LV.Merged(s, u, if Abs(s[i]) <= Abs(u[j]) then i + 1 else i,
                         if Abs(u[j]) <= Abs(s[i]) then j + 1 else j))
  {
    if Abs(s[i]) != Abs(u[j]) || s[i] == u[j] {
      var l := if Abs(s[i]) < Abs(u[j]) then s[i] else u[j];
      AfterOne(out, l, LV.Merged(s, u, if Abs(s[i]) <= Abs(u[j]) then i + 1 else i,
                                 if Abs(u[j]) <= Abs(s[i]) then j + 1 else j));
    }
  }

  lemma MergeEnd(s: Clause, u: Clause, i: nat, j: nat, out: Clause)
    requires i <= LV.Window(|s|) && j <= LV.Window(|u|) && (i == LV.Window(|s|) || j == LV.Window(|u|))
    ensures After(out, LV.Merged(s, u, i, j)) == Some(out + (u[j..] + s[i..]))
  {
  }

  class LitVector {
    var lits: array<int>
    var size: nat

    ghost predicate Valid()
      reads this
    {
      size <= lits.Length && lits.Length >= MIN_LITVEC_SIZE
    }

    ghost function Contents(): Clause
      requires Valid()
      reads this, lits
    {
      lits[..size]
    }

    constructor ()
      ensures Valid() && fresh(lits) && Contents() == []
    {
      lits := new int[MIN_LITVEC_SIZE];
      size := 0;
    }

    /** Move to a buffer of `n` literals, keeping the contents. */
    method Realloc(n: nat)
      requires Valid() && n >= lits.Length
      modifies this`lits
      ensures Valid() && fresh(lits) && lits.Length == n && Contents() == old(Contents())
    {
      var bigger := new int[n];
      forall k | 0 <= k < size {
        bigger[k] := lits[k];
      }
      lits := bigger;
    }

    /** Linear search of the sorted window. */
    method FindSlot(l: int) returns (i: nat)
      requires Valid()
      ensures i == LV.Slot(Contents(), l, 0)
    {
      ghost var s := Contents();
      var ub := if LV.MERGING > size then size else LV.MERGING;
      i := 0;
      while i < ub && Abs(lits[i]) < Abs(l)
        invariant i <= ub && LV.Slot(s, l, 0) == LV.Slot(s, l, i)
      {
        i := i + 1;
      }
    }

    /** Put `l` at index `i`, moving up what stands there. */
    method OpenGap(i: nat, l: int)
      requires Valid() && i <= size < lits.Length
      modifies this`size, lits
      ensures Valid() && Contents() == old(Contents())[..i] + [l] + old(Contents())[i..]
    {
      forall k | i <= k < size {
        lits[k + 1] := lits[k];
      }
      lits[i] := l;
      size := size + 1;
    }

    /** Insert one literal where it belongs in the sorted window, or append it behind the window. */
    method Insert(l: int)
      requires Valid() && size < lits.Length
      modifies this`size, lits
      ensures Valid() && Contents() == LV.AddLit(old(Contents()), l)
    {
      hide LV.Slot;
      var i := FindSlot(l);
      if i < size && i < LV.MERGING && Abs(lits[i]) == Abs(l) {
        if lits[i] == -l {
          size := 0;
        }
      } else if size < LV.MERGING {
        OpenGap(i, l);
      } else {
        lits[size] := l;
        size := size + 1;
      }
    }

    /** `+=` of a literal. */
    method AddLit(l: int)
      requires Valid()
      modifies this, lits
      ensures Valid() && (lits == old(lits) || fresh(lits))
      ensures Contents() == LV.AddLit(old(Contents()), l)
    {
      if size == lits.Length {
        Realloc(2 * lits.Length);
      }
      Insert(l);
    }

    /** Walk both windows, appending the literals of `t` that are new; the first window is full. */
    method AppendWindow(t: LitVector) returns (j: nat, ok: bool)
      requires Valid() && t.Valid() && t.lits != lits && t != this
      requires size >= LV.MERGING && size + t.size <= lits.Length
      modifies this`size, lits
      ensures Valid()
      ensures !ok ==> size == 0 && LV.Novel(old(Contents()), t.Contents(), 0, 0).None?
      ensures ok ==> j <= t.size && old(size) <= size <= old(size) + j && lits[..old(size)] == old(Contents())
      ensures ok ==> LV.Novel(old(Contents()), t.Contents(), 0, 0) == Some(lits[old(size)..size] + t.Contents()[j..])
    {
      ghost var s, u := Contents(), t.Contents();
      var i := 0;
      j, ok := 0, true;
      AfterNothing(LV.Novel(s, u, 0, 0));
      assert lits[|s|..size] == [];
      var iUb, jUb := LV.MERGING, if LV.MERGING > t.size then t.size else LV.MERGING;
      while i < iUb && j < jUb
        invariant i <= iUb == LV.Window(|s|) && j <= jUb == LV.Window(|u|)
        invariant |s| <= size <= |s| + j && lits[..|s|] == s
        invariant LV.Novel(s, u, 0, 0) == After(lits[|s|..size], LV.Novel(s, u, i, j))
        decreases iUb - i + jUb - j
      {
        assert lits[i] == s[i] && t.lits[j] == u[j];
        ghost var out := lits[|s|..size];
        if Abs(lits[i]) < Abs(t.lits[j]) {
          i := i + 1;
        } else if Abs(t.lits[j]) < Abs(lits[i]) {
          AfterOne(out, u[j], LV.Novel(s, u, i, j + 1));
          lits[size] := t.lits[j];
          size, j := size + 1, j + 1;
          assert lits[|s|..size] == out + [u[j - 1]];
        } else if lits[i] == t.lits[j] {
          i, j := i + 1, j + 1;
        } else {
          size, ok := 0, false;
          return;
        }
      }
    }

    /** Append the literals of `t` that are not in the window; the window is full already. */
    method AppendVector(t: LitVector)
      requires Valid() && t.Valid() && t.lits != lits && t != this
      requires size >= LV.MERGING && size + t.size <= lits.Length
      modifies this`size, lits
      ensures Valid() && Contents() == LV.Append(old(Contents()), t.Contents())
    {
      ghost var s, u := Contents(), t.Contents();
      var j, ok := AppendWindow(t);
      if ok {
        ghost var out := lits[|s|..size];
        assert lits[..size] == s + out;
        CopyTail(t, j);
        assert lits[..size] == s + (out + u[j..]);
      }
    }

    /** Copy what is left of `t` from `j` on behind the contents. */
    method CopyTail(t: LitVector, j: nat)
      requires Valid() && t.Valid() && t.lits != lits && t != this && j <= t.size && size + t.size - j <= lits.Length
      modifies this`size, lits
      ensures Valid() && lits[..size] == old(lits[..size]) + t.lits[j..t.size]
      ensures forall k :: size <= k < lits.Length ==> lits[k] == old(lits[k])
    {
      forall k | j <= k < t.size {
        lits[size + k - j] := t.lits[k];
      }
      size := size + t.size - j;
    }

    /** Put out the literal of the smaller variable and step over it, on both sides when both have it;
        a complementary pair empties the vector. */
    method MergeOne(t: LitVector, i: nat, j: nat) returns (i': nat, j': nat, ok: bool)
      requires t.Valid() && t.lits != lits && t != this
      requires i < lits.Length && j < t.size && size < lits.Length
      modifies this`size, lits
      ensures ok <==> !(Abs(old(lits[i])) == Abs(t.lits[j]) && old(lits[i]) != t.lits[j])
      ensures !ok ==> size == 0
      ensures ok ==> size == old(size) + 1
      ensures ok ==> lits[old(size)] == if Abs(old(lits[i])) < Abs(t.lits[j]) then old(lits[i]) else t.lits[j]
      ensures forall k :: 0 <= k < lits.Length && k != old(size) ==> lits[k] == old(lits[k])
      ensures i' == if ok && Abs(old(lits[i])) <= Abs(t.lits[j]) then i + 1 else i
      ensures j' == if ok && Abs(t.lits[j]) <= Abs(old(lits[i])) then j + 1 else j
    {
      i', j', ok := i, j, true;
      if Abs(lits[i]) < Abs(t.lits[j]) {
        lits[size] := lits[i];
        size, i' := size + 1, i + 1;
      } else if Abs(t.lits[j]) < Abs(lits[i]) {
        lits[size] := t.lits[j];
        size, j' := size + 1, j + 1;
      } else if lits[i] == t.lits[j] {
        lits[size] := t.lits[j];
        size, i', j' := size + 1, i + 1, j + 1;
      } else {
        size, ok := 0, false;
      }
    }

    /** Merge the window of `t` with that of the `n` literals that wait at position `t.size` of this
        very buffer. The output cursor never passes the reading position. */
    method MergeWindows(t: LitVector, ghost s: Clause, ghost u: Clause, n: nat)
      returns (i: nat, j: nat, ok: bool, ghost out: Clause)
      requires lits.Length >= MIN_LITVEC_SIZE && t.Valid() && t.lits != lits && t != this
      requires n == |s| < LV.MERGING && t.size + n <= lits.Length && |u| == t.size
      requires forall k :: 0 <= k < n ==> lits[t.size + k] == s[k]
      requires forall k :: 0 <= k < t.size ==> t.lits[k] == u[k]
      modifies this`size, lits
      ensures size <= lits.Length
      ensures !ok ==> size == 0 && LV.Merged(s, u, 0, 0).None?
      ensures ok ==> t.size <= i <= t.size + n && j <= t.size && size <= i - t.size + j
      ensures ok ==> forall k :: i - t.size <= k < n ==> lits[t.size + k] == s[k]
      ensures ok ==> |out| == size && forall k :: 0 <= k < size ==> lits[k] == out[k]
      ensures ok ==> LV.Merged(s, u, 0, 0) == Some(out + (u[j..] + s[i - t.size..]))
    {
      hide LV.Merged, After;
      var m := t.size;
      out := [];
      i, j, ok := m, 0, true;
      var iUb, jUb := m + n, if LV.MERGING > m then m else LV.MERGING;
      size := 0;
      AfterNothing(LV.Merged(s, u, 0, 0));
      while i < iUb && j < jUb
        invariant m <= i <= iUb && j <= jUb == LV.Window(|u|) && size <= i - m + j && size <= lits.Length
        invariant |out| == size && forall k :: 0 <= k < size ==> lits[k] == out[k]
        invariant forall k :: i - m <= k < n ==> lits[m + k] == s[k]
        invariant LV.Merged(s, u, 0, 0) == After(out, LV.Merged(s, u, i - m, j))
        decreases iUb - i + jUb - j
      {
        assert lits[m + (i - m)] == s[i - m];
        MergeStep(s, u, i - m, j, out);
        ghost var l := if Abs(lits[i]) < Abs(u[j]) then lits[i] else u[j];
        i, j, ok := MergeOne(t, i, j);
        if !ok {
          return;
        }
        out := out + [l];
      }
      MergeEnd(s, u, i - m, j, out);
    }

    /** Merge `t` with `n` literals that wait at position `t.size` of this very buffer. */
    method MergeVector(t: LitVector, n: nat)
      requires lits.Length >= MIN_LITVEC_SIZE && t.Valid() && t.lits != lits && t != this
      requires n < LV.MERGING && t.size + n <= lits.Length
      modifies this`size, lits
      ensures Valid() && Contents() == LV.Merge(old(lits[t.size..t.size + n]), t.Contents())
    {
      hide LV.Merged;
      ghost var s := lits[t.size..t.size + n];
      var i, j, ok, out := MergeWindows(t, s, t.Contents(), n);
      if ok {
        assert lits[i..t.size + n] == s[i - t.size..];
        assert Contents() == out;
        FinishMerge(t, n, i, j);
      }
    }

    /** `+=` of a vector: append when the window is full already, else set the own literals aside
        behind where the result can reach and merge. */
    method PlusVector(t: LitVector)
      requires Valid() && t.Valid() && t.lits != lits && t != this
      modifies this, lits
      ensures Valid() && (lits == old(lits) || fresh(lits))
      ensures Contents() == LV.Plus(old(Contents()), t.Contents())
    {
      Reserve(Capacity(lits.Length, t.lits.Length, size + t.size));
      if size >= LV.MERGING {
        AppendVector(t);
      } else {
        ghost var s := Contents();
        SetAside(t.size);
        assert lits[t.size..t.size + size] == s;
        MergeVector(t, size);
      }
    }

    /** Make room for at least `n` literals. */
    method Reserve(n: nat)
      requires Valid()
      modifies this`lits
      ensures Valid() && (lits == old(lits) || fresh(lits)) && n <= lits.Length
      ensures Contents() == old(Contents())
    {
      if n > lits.Length {
        Realloc(n);
      }
    }

    /** Move the contents up to position `k`, where they overlap themselves when `k` is small. */
    method SetAside(k: nat)
      requires Valid() && k + size <= lits.Length
      modifies lits
      ensures lits[k..k + size] == old(Contents())
    {
      forall i | 0 <= i < size {
        lits[k + i] := lits[i];
      }
    }

    /** Fill a vector, whatever it held, from two others, of which the fuller one is copied first. */
    method InitTwo(s: LitVector, t: LitVector)
      requires Valid() && s.Valid() && t.Valid()
      requires s.lits != lits && t.lits != lits && s != this && t != this
      modifies this, lits
      ensures Valid() && (lits == old(lits) || fresh(lits))
      ensures Contents() == LV.Combine(s.Contents(), t.Contents())
    {
      hide LV.Merge, LV.Append;
      size := 0;
      Reserve(Capacity(s.lits.Length, t.lits.Length, s.size + t.size));
      if s.size >= LV.MERGING {
        Become(s);
        AppendVector(t);
      } else if t.size >= LV.MERGING {
        Become(t);
        AppendVector(s);
      } else {
        CopyFrom(s, t.size);
        assert lits[t.size..t.size + s.size] == s.Contents();
        MergeVector(t, s.size);
      }
    }

    method Become(s: LitVector)
      requires Valid() && s.Valid() && s.lits != lits && s != this && s.size <= lits.Length
      modifies this`size, lits
      ensures Valid() && Contents() == s.Contents()
    {
      CopyFrom(s, 0);
      size := s.size;
    }

    method CopyFrom(s: LitVector, k: nat)
      requires s.Valid() && s.lits != lits && k + s.size <= lits.Length
      modifies lits
      ensures lits[k..k + s.size] == s.Contents()
    {
      forall i | 0 <= i < s.size {
        lits[k + i] := s.lits[i];
      }
    }

    /** Fill a vector, whatever it held, from two literals of different variables. */
    method InitPair(k: int, l: int)
      requires Valid()
      modifies this`size, lits
      ensures Valid() && Contents() == LV.Pair(k, l)
    {
      size := 2;
      if Abs(k) < Abs(l) {
        lits[0], lits[1] := k, l;
      } else {
        lits[0], lits[1] := l, k;
      }
    }

    /** Append what is left of `t` from `j` on and then what waits from `i` on. */
    method FinishMerge(t: LitVector, n: nat, i: nat, j: nat)
      requires Valid() && t.Valid() && t.lits != lits && t != this && t.size + n <= lits.Length
      requires t.size <= i <= t.size + n && j <= t.size && size <= i - t.size + j
      modifies this`size, lits
      ensures Valid() && Contents() == old(Contents()) + (t.lits[j..t.size] + old(lits[i..t.size + n]))
    {
      ghost var waiting, out := lits[i..t.size + n], Contents();
      CopyTail(t, j);
      assert lits[i..t.size + n] == waiting;
      assert lits[..size] == out + t.lits[j..t.size];
      MoveDown(i, t.size + n - i);
      assert lits[..size] == out + t.lits[j..t.size] + waiting;
      assert out + t.lits[j..t.size] + waiting == out + (t.lits[j..t.size] + waiting);
    }

    /** Move `n` literals that wait at position `i` down behind the contents. */
    method MoveDown(i: nat, n: nat)
      requires Valid() && size <= i && i + n <= lits.Length
      modifies this`size, lits
      ensures Valid() && lits[..size] == old(lits[..size]) + old(lits[i..i + n])
    {
      forall k | 0 <= k < n {
        lits[size + k] := lits[i + k];
      }
      size := size + n;
    }
  }
}
