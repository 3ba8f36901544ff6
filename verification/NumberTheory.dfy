/** Divisibility, primes and the pigeonhole principle, as far as probing and stride walks need them. */
module NumberTheory {
  import opened Sequences

  ghost predicate Divides(d: int, n: int)
  {
    exists q: int :: n == d * q
  }

  ghost predicate Prime(p: nat) {
    p >= 2 && forall d: nat :: 1 < d < p ==> !Divides(d, p)
  }

  lemma DividesSum(d: int, m: int, n: int)
    requires Divides(d, m) && Divides(d, n)
    ensures Divides(d, m + n) && Divides(d, m - n)
  {
    var q :| m == d * q;
    var r :| n == d * r;
    assert m + n == d * (q + r);
    assert m - n == d * (q - r);
  }

  lemma DividesProduct(d: int, m: int, k: int)
    requires Divides(d, m)
    ensures Divides(d, m * k)
  {
    var q :| m == d * q;
    assert m * k == d * (q * k);
  }

  lemma DividesSmall(d: nat, n: nat)
    requires Divides(d, n) && n < d
    ensures n == 0
  {
    var q :| n == d * q;
    if q > 0 {
      MultiplyAtLeast(d, q);
    }
  }

  lemma MultiplyAtLeast(d: nat, q: int)
    requires q > 0
    ensures d * q >= d
  {
  }

  /** Euclid's lemma by his algorithm: remainders of `p` go down to one. */
  lemma {:induction false} PrimeDividesFactor(p: nat, m: nat, b: int)
    requires Prime(p) && 0 < m < p && Divides(p, m * b)
    ensures Divides(p, b)
    decreases m
  {
    if m == 1 {
      assert m * b == b;
    } else {
      var q, r := p / m, p % m;
      assert p == m * q + r;
      if r == 0 {
        assert p == m * q;
        assert Divides(m, p);
      }
      DividesProduct(p, m * b, q);
      assert Divides(p, p * b);
      DividesSum(p, p * b, m * b * q);
      RemainderTimes(p, m, q, r, b);
      PrimeDividesFactor(p, r, b);
    }
  }

  lemma RemainderTimes(p: int, m: int, q: int, r: int, b: int)
    requires p == m * q + r
    ensures r * b == p * b - m * b * q
  {
    assert p * b == (m * q + r) * b == m * q * b + r * b;
    assert m * q * b == m * b * q by {
      assert m * q * b == m * (q * b) == m * (b * q) == m * b * q;
    }
  }

  lemma ModEqual(p: nat, m: nat, n: nat)
    requires p > 0 && m % p == n % p
    ensures Divides(p, n - m)
  {
    assert m == p * (m / p) + m % p && n == p * (n / p) + n % p;
    assert n - m == p * (n / p - m / p);
  }

  lemma ModAdd(p: nat, m: nat, n: nat)
    requires p > 0
    ensures (m % p + n) % p == (m + n) % p
  {
    assert m == p * (m / p) + m % p;
    ModMultiple(p, m % p + n, m / p);
  }

  lemma ModMultiple(p: nat, m: nat, q: int)
    requires p > 0
    ensures (p * q + m) % p == m % p
  {
    assert m == p * (m / p) + m % p;
    assert p * q + m == p * (q + m / p) + m % p;
    RemainderUnique(p, q + m / p, m % p);
  }

  lemma RemainderUnique(p: nat, q: int, r: nat)
    requires r < p
    ensures (p * q + r) / p == q && (p * q + r) % p == r
  {
    var n := p * q + r;
    var k := n / p - q;
    assert p * k == p * (n / p) - p * q;
    assert p * k == r - n % p;
    if k > 0 {
      MultiplyAtLeast(p, k);
    } else if k < 0 {
      MultiplyAtLeast(p, -k);
    }
  }

  // ----- pigeonholes -----

  ghost predicate AllUnder(s: seq<nat>, n: nat) {
    forall i :: 0 <= i < |s| ==> s[i] < n
  }

  lemma FirstUnder(s: seq<nat>, n: nat)
    requires |s| > 0 && AllUnder(s, n)
    ensures n > 0
  {
    assert s[0] < n;
  }

  /** Distinct numbers below `n` are at most `n`. */
  lemma {:induction false} Pigeonhole(s: seq<nat>, n: nat)
    requires NoRepeats(s) && AllUnder(s, n)
    ensures |s| <= n
    decreases n
  {
    if n > 0 {
      if i :| 0 <= i < |s| && s[i] == n - 1 {
        var t := s[..i] + s[i + 1..];
        assert forall k :: 0 <= k < |t| ==> t[k] == s[if k < i then k else k + 1];
        Pigeonhole(t, n - 1);
      } else {
        Pigeonhole(s, n - 1);
      }
    } else if |s| > 0 {
      FirstUnder(s, n);
    }
  }

  // ----- powers of two -----

  function Pow2(k: nat): (p: nat)
    ensures p > 0
  {
    if k == 0 then 1 else 2 * Pow2(k - 1)
  }

  lemma Remainder(d: nat, q: nat, r: nat, n: nat)
    requires r < d && n == d * q + r
    ensures n % d == r && n / d == q
  {
    RemainderUnique(d, q, r);
  }

  lemma TwiceProduct(x: nat, y: nat)
    ensures 2 * (x * y) == 2 * x * y
  {
  }

  lemma {:induction false} PowSum(j: nat, k: nat)
    ensures Pow2(j + k) == Pow2(j) * Pow2(k)
    decreases j
  {
    if j == 0 {
      assert Pow2(0) == 1;
    } else {
      PowSum(j - 1, k);
      TwiceProduct(Pow2(j - 1), Pow2(k));
      assert Pow2(j + k) == 2 * Pow2(j - 1 + k) && Pow2(j) == 2 * Pow2(j - 1);
    }
  }

  lemma Monotone(d: nat, x: nat, y: nat)
    requires x <= y
    ensures d * x <= d * y
  {
    assert d * y == d * x + d * (y - x);
  }

  function Quotient(n: nat, p: nat): nat
    requires p > 0
  {
    n / p
  }

  function Times(n: nat, p: nat): nat {
    n * p
  }

  function ShiftedUp(n: nat, k: nat): nat {
    Times(n, Pow2(k))
  }
}
