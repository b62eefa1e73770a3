// Clauses in the solver's notation: a literal is a non-zero integer, v for
// "variable v is true" and -v for "variable v is false"; an assignment is the
// set of variables that are true.
module Formula {

  type Clause = seq<int>

  predicate LitTrue(l: int, t: set<int>)
  {
    if l > 0 then l in t else -l !in t
  }

  /** A clause holds when one of its literals does; the empty clause never holds. */
  predicate SatClause(c: Clause, t: set<int>)
  {
    exists l :: l in c && LitTrue(l, t)
  }

  /** A formula holds when each of its clauses does. */
  predicate SatAll(cs: seq<Clause>, t: set<int>)
  {
    forall c :: c in cs ==> SatClause(c, t)
  }

  function Abs(l: int): nat
  {
    if l < 0 then -l else l
  }

  /** Every literal of the formula is non-zero and names a variable of vars. */
  predicate VarsWithin(cs: seq<Clause>, vars: set<int>)
  {
    forall c, l :: c in cs && l in c ==> l != 0 && Abs(l) in vars
  }

  /** [-v for v in c] */
  function Negated(c: Clause): Clause
  {
    seq(|c|, i requires 0 <= i < |c| => -c[i])
  }

  /** Whether a formula holds depends only on the variables it mentions. */
  lemma RestrictAssignment(cs: seq<Clause>, vars: set<int>, t: set<int>)
    requires VarsWithin(cs, vars)
    ensures SatAll(cs, t) <==> SatAll(cs, t * vars)
  {
    forall c | c in cs
      ensures SatClause(c, t) <==> SatClause(c, t * vars)
    {
      forall l | l in c
        ensures LitTrue(l, t) <==> LitTrue(l, t * vars)
      {
        assert Abs(l) in vars;
      }
    }
  }
}
