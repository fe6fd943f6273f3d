/** Clauses over signed integer literals and their truth under an assignment
    of the boolean variables, as the SAT solver reads them. */
module Cnf {
  import opened Lattices

  /** A disjunction of literals: v stands for variable v, -v for its negation. */
  type Clause = seq<int>

  /** The truth value of every boolean variable. */
  type Assignment = int -> bool

  predicate LitTrue(m: Assignment, l: int) {
    (l > 0 && m(l)) || (l < 0 && !m(-l))
  }

  predicate ClauseTrue(m: Assignment, c: Clause) {
    exists k :: 0 <= k < |c| && LitTrue(m, c[k])
  }

  predicate AllTrue(m: Assignment, cs: seq<Clause>) {
    forall k :: 0 <= k < |cs| ==> ClauseTrue(m, cs[k])
  }

  lemma AllTrueAppend(m: Assignment, a: seq<Clause>, b: seq<Clause>)
    ensures AllTrue(m, a + b) <==> AllTrue(m, a) && AllTrue(m, b)
  {
    if AllTrue(m, a) && AllTrue(m, b) {
      forall k | 0 <= k < |a + b| ensures ClauseTrue(m, (a + b)[k]) {
        if k < |a| { assert (a + b)[k] == a[k]; } else { assert (a + b)[k] == b[k - |a|]; }
      }
    }
    if AllTrue(m, a + b) {
      forall k | 0 <= k < |a| ensures ClauseTrue(m, a[k]) { assert (a + b)[k] == a[k]; }
      forall k | 0 <= k < |b| ensures ClauseTrue(m, b[k]) { assert (a + b)[|a| + k] == b[k]; }
    }
  }

  /** Under m, slot `id` holds qualifier q and no other qualifier of the lattice. */
  predicate Holds(m: Assignment, n: nat, id: nat, q: Qualifier) {
    && q < n
    && m(Encode(n, id, q))
    && forall p: Qualifier | p < n && p != q :: !m(Encode(n, id, p))
  }

  /** Under m, slot `id` holds exactly one qualifier of the lattice. */
  ghost predicate ExactlyOne(m: Assignment, n: nat, id: nat) {
    exists q: Qualifier :: Holds(m, n, id, q)
  }

  /** For qualifiers of the lattice, "id holds q" is the truth of its variable. */
  lemma HoldsVariable(m: Assignment, n: nat, id: nat, q: Qualifier, p: Qualifier)
    requires Holds(m, n, id, q) && p < n
    ensures m(Encode(n, id, p)) <==> p == q
  {
  }
}
