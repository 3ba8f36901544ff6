/** Literals, assignments and clauses, shared by the CNF compiler and the solver kernel. */
module Literals {

  /** An assignment is the set of variables it makes true. */
  type Assignment = iset<int>

  type Clause = seq<int>

  datatype Option<+T> = None | Some(value: T)

  function Abs(l: int): nat {
    if l < 0 then -l else l
  }

  /** The value of a nonzero literal: a positive literal names a variable, a negative one its complement. */
  ghost predicate LitTrue(a: Assignment, l: int) {
    if l > 0 then l in a else -l !in a
  }

  /** The disjunction of the literals of `c`. */
  ghost predicate ClauseTrue(a: Assignment, c: Clause) {
    exists l :: l in c && LitTrue(a, l)
  }

  /** The conjunction of the literals of `c`. */
  ghost predicate AllTrue(a: Assignment, c: Clause) {
    forall l :: l in c ==> LitTrue(a, l)
  }

  ghost predicate ClausesTrue(a: Assignment, cs: seq<Clause>) {
    forall c :: c in cs ==> ClauseTrue(a, c)
  }

  ghost predicate NonZero(c: Clause) {
    forall l :: l in c ==> l != 0
  }

  /** `r` holds exactly the literals of `s` and of `t`. */
  ghost predicate IsUnion(r: Clause, s: Clause, t: Clause) {
    forall l :: l in r <==> l in s || l in t
  }

  /** Some variable occurs in `s` with one sign and in `t` with the other. */
  ghost predicate Complementary(s: Clause, t: Clause) {
    exists l :: l in s && -l in t
  }

  lemma UnionTrue(a: Assignment, r: Clause, s: Clause, t: Clause)
    requires IsUnion(r, s, t)
    ensures ClauseTrue(a, r) <==> ClauseTrue(a, s) || ClauseTrue(a, t)
    ensures AllTrue(a, r) <==> AllTrue(a, s) && AllTrue(a, t)
  {
  }

  lemma ComplementaryTrue(a: Assignment, s: Clause, t: Clause)
    requires Complementary(s, t) && NonZero(s)
    ensures ClauseTrue(a, s) || ClauseTrue(a, t)
    ensures !(AllTrue(a, s) && AllTrue(a, t))
  {
    var l :| l in s && -l in t;
    assert LitTrue(a, l) != LitTrue(a, -l);
  }
}
