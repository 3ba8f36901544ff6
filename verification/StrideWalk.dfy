/** Random decisions: a stride coprime to the number of variables, and the walk it drives. */
module StrideWalk {
  import opened NumberTheory

  function Gcd(a: nat, b: nat): nat
    decreases b
  {
    if b == 0 then a else Gcd(b, a % b)
  }

  /** The greatest common divisor is one, and a combination of both numbers. */
  ghost predicate IsGcd(g: nat, a: nat, b: nat) {
    && Divides(g, a) && Divides(g, b)
    && (forall d: nat :: Divides(d, a) && Divides(d, b) ==> Divides(d, g))
    && exists x: int, y: int :: Combines(g, a, b, x, y)
  }

  ghost predicate Combines(g: int, a: int, b: int, x: int, y: int) {
    g == a * x + b * y
  }

  lemma {:induction false} GcdIs(a: nat, b: nat)
    ensures IsGcd(Gcd(a, b), a, b)
    decreases b
  {
    if b == 0 {
      assert a == a * 1 && 0 == a * 0;
      assert Combines(a, a, b, 1, 0);
    } else {
      GcdIs(b, a % b);
      RemainderGcd(Gcd(b, a % b), a, b);
    }
  }

  lemma RemainderGcd(g: nat, a: nat, b: nat)
    requires b > 0 && IsGcd(g, b, a % b)
    ensures IsGcd(g, a, b)
  {
    hide Divides, Combines;
    var q, r := a / b, a % b;
    assert a == b * q + r;
    DividesProduct(g, b, q);
    DividesSum(g, b * q, r);
    forall d: nat | Divides(d, a) && Divides(d, b) ensures Divides(d, g) {
      DividesProduct(d, b, q);
      DividesSum(d, a, b * q);
    }
    var x: int, y: int :| Combines(g, b, r, x, y);
    CombineStep(g, a, b, q, r, x, y);
  }

  lemma GcdSwap(a: nat, b: nat)
    requires a < b
    ensures Gcd(a, b) == Gcd(b, a)
  {
    RemainderUnique(b, 0, a);
  }

  lemma CombineStep(g: int, a: int, b: int, q: int, r: int, x: int, y: int)
    requires Combines(g, b, r, x, y) && a == b * q + r
    ensures Combines(g, a, b, y, x - q * y)
  {
    assert r * y == (a - b * q) * y == a * y - b * q * y;
    assert b * (x - q * y) == b * x - b * (q * y);
    assert b * q * y == b * (q * y);
  }

  /** Euclid's algorithm, the larger number first. */
  method ComputeGcd(a0: nat, b0: nat) returns (g: nat)
    requires a0 > 0 && b0 > 0
    ensures g == Gcd(a0, b0) && IsGcd(g, a0, b0)
  {
    hide IsGcd;
    var a, b := a0, b0;
    if a < b {
      GcdSwap(a, b);
      a, b := b, a;
    }
    while b != 0
      invariant a >= b && Gcd(a, b) == Gcd(a0, b0)
      decreases b
    {
      a, b := b, a % b;
    }
    g := a;
    GcdIs(a0, b0);
  }

  /** The largest number up to the proposed one that is coprime to `n`. */
  ghost predicate LargestCoprime(delta: nat, proposed: nat, n: nat) {
    1 <= delta <= proposed && Gcd(delta, n) == 1 && forall d :: delta < d <= proposed ==> Gcd(d, n) != 1
  }

  /** Count the proposed stride down to one that is coprime to the number of variables. */
  method Stride(proposed: nat, maxVar: nat) returns (delta: nat)
    requires 1 <= proposed <= maxVar
    ensures LargestCoprime(delta, proposed, maxVar)
  {
    delta := proposed;
    GcdOne(maxVar);
    var g := ComputeGcd(delta, maxVar);
    while g != 1
      invariant 1 <= delta <= proposed && g == Gcd(delta, maxVar)
      invariant forall d :: delta < d <= proposed ==> Gcd(d, maxVar) != 1
      decreases delta
    {
      delta := delta - 1;
      g := ComputeGcd(delta, maxVar);
    }
  }

  lemma GcdOne(n: nat)
    requires n > 0
    ensures Gcd(1, n) == 1
  {
    GcdIs(1, n);
    var q: int :| 1 == Gcd(1, n) * q;
    if Gcd(1, n) > 1 {
      DividesSmall(Gcd(1, n), 1);
    }
  }

  /** A product that `n` divides, with a factor coprime to `n`. */
  lemma CoprimeFactor(n: nat, delta: nat, k: int)
    requires Gcd(delta, n) == 1 && Divides(n, k * delta)
    ensures Divides(n, k)
  {
    GcdIs(delta, n);
    var x: int, y: int :| Combines(1, delta, n, x, y);
    Distribute(k, delta, x, n, y);
    DividesProduct(n, k * delta, x);
    assert Divides(n, n * (k * y));
    DividesSum(n, k * delta * x, n * (k * y));
  }

  lemma Distribute(k: int, a: int, x: int, n: int, y: int)
    requires a * x + n * y == 1
    ensures k == k * a * x + n * (k * y)
  {
    assert k * (a * x + n * y) == k * (a * x) + k * (n * y);
    assert k * (a * x) == k * a * x;
    assert k * (n * y) == n * (k * y);
  }

  // ----- the walk -----

  /** Where the walk from `start` is after `i` strides. */
  function At(start: nat, delta: nat, n: nat, i: nat): nat
    requires n > 0 && start >= 1
  {
    (start - 1 + i * delta) % n + 1
  }

  lemma StepsDiffer(start: nat, delta: nat, n: nat, i: nat, j: nat)
    requires n > 0 && start >= 1 && Gcd(delta, n) == 1 && i < j < n
    ensures At(start, delta, n, i) != At(start, delta, n, j)
  {
    hide Divides, Gcd;
    if At(start, delta, n, i) == At(start, delta, n, j) {
      ModEqual(n, start - 1 + i * delta, start - 1 + j * delta);
      Difference(start - 1, i, j, delta);
      CoprimeFactor(n, delta, j - i);
      DividesSmall(n, j - i);
    }
  }

  lemma Difference(m: int, i: int, j: int, delta: int)
    ensures (m + j * delta) - (m + i * delta) == (j - i) * delta
  {
  }

  /** Within as many strides as there are variables the walk comes by every variable. */
  lemma WalkCovers(start: nat, delta: nat, n: nat, v: nat) returns (i: nat)
    requires n > 0 && start >= 1 && Gcd(delta, n) == 1 && 1 <= v <= n
    ensures i < n && At(start, delta, n, i) == v
  {
    if forall j: nat :: j < n ==> At(start, delta, n, j) != v {
      var s: seq<nat> := seq(n, j requires 0 <= j < n => At(start, delta, n, j) - 1) + [v - 1];
      forall j, k | 0 <= j < k < |s| ensures s[j] != s[k] {
        if k < n {
          StepsDiffer(start, delta, n, j, k);
        }
      }
      Pigeonhole(s, n);
    }
    i :| i < n && At(start, delta, n, i) == v;
  }

  lemma AtStep(start: nat, delta: nat, n: nat, i: nat)
    requires n > 0 && start >= 1 && delta <= n
    ensures var here := At(start, delta, n, i);
      At(start, delta, n, i + 1) == if here + delta > n then here + delta - n else here + delta
  {
    assert start - 1 + (i + 1) * delta == start - 1 + i * delta + delta;
    ModStep(n, start - 1 + i * delta, delta);
  }

  lemma ModStep(n: nat, m: nat, delta: nat)
    requires n > 0 && delta <= n
    ensures (m + delta) % n + 1 == if m % n + 1 + delta > n then m % n + 1 + delta - n else m % n + 1 + delta
  {
    ModAdd(n, m, delta);
    var r := m % n;
    if r + delta >= n {
      RemainderUnique(n, 1, r + delta - n);
    } else {
      RemainderUnique(n, 0, r + delta);
    }
  }

  lemma AtStart(start: nat, delta: nat, n: nat)
    requires 1 <= start <= n
    ensures At(start, delta, n, 0) == start
  {
    RemainderUnique(n, 0, start - 1);
  }

  lemma AtWithin(start: nat, delta: nat, n: nat, i: nat)
    requires n > 0 && start >= 1
    ensures 1 <= At(start, delta, n, i) <= n
  {
  }

  /** After `j` strides the walk is at a variable that is assigned. */
  ghost predicate ComesByAssigned(start: nat, delta: nat, undefined: seq<bool>, j: nat)
    requires |undefined| > 1 && start >= 1
  {
    !undefined[At(start, delta, |undefined| - 1, j)]
  }

  /** Walk from a variable that is assigned to the first one that is not. */
  method Walk(start: nat, delta: nat, undefined: seq<bool>) returns (idx: nat, ghost i: nat)
    requires 1 <= start < |undefined| && 1 <= delta < |undefined| && Gcd(delta, |undefined| - 1) == 1
    requires !undefined[start] && exists v :: 1 <= v < |undefined| && undefined[v]
    ensures 1 <= idx < |undefined| && undefined[idx]
    ensures i < |undefined| - 1 && idx == At(start, delta, |undefined| - 1, i)
    ensures forall j :: 0 <= j < i ==> ComesByAssigned(start, delta, undefined, j)
  {
    hide At, Gcd;
    var n := |undefined| - 1;
    ghost var v :| 1 <= v < |undefined| && undefined[v];
    ghost var last := WalkCovers(start, delta, n, v);
    i := 0;
    idx := start;
    AtStart(start, delta, n);
    while !undefined[idx]
      invariant 1 <= idx <= n && idx == At(start, delta, n, i) && i <= last
      invariant forall j :: 0 <= j < i ==> ComesByAssigned(start, delta, undefined, j)
      decreases last - i
    {
      AtStep(start, delta, n, i);
      AtWithin(start, delta, n, i + 1);
      idx, i := idx + delta, i + 1;
      if idx > n {
        idx := idx - n;
      }
    }
  }

  /** Decide on a random variable: the one drawn when it is open, else the first open one of the walk from it
      with the largest coprime stride up to the proposed one. */
  method RandomVariable(drawn: nat, proposed: nat, undefined: seq<bool>)
    returns (idx: nat, ghost delta: nat, ghost i: nat)
    requires 1 <= drawn < |undefined| && 1 <= proposed < |undefined|
    requires exists v :: 1 <= v < |undefined| && undefined[v]
    ensures 1 <= idx < |undefined| && undefined[idx] && (undefined[drawn] ==> idx == drawn)
    ensures !undefined[drawn] ==> LargestCoprime(delta, proposed, |undefined| - 1)
    ensures i < |undefined| - 1 && idx == At(drawn, delta, |undefined| - 1, i)
    ensures forall j :: 0 <= j < i ==> ComesByAssigned(drawn, delta, undefined, j)
  {
    hide Gcd, At;
    idx, delta, i := drawn, 1, 0;
    GcdOne(|undefined| - 1);
    AtStart(drawn, delta, |undefined| - 1);
    if !undefined[idx] {
      var stride := Stride(proposed, |undefined| - 1);
      delta := stride;
      idx, i := Walk(drawn, stride, undefined);
    }
  }
}
