// The SAT oracle the enumerator talks to. Only its contract matters to the
// enumerator: clauses are only ever added, and a solve either returns a model
// of every clause added so far or reports that none exists. The body here
// meets that contract by trying every assignment of the variables in use.
module SatOracle {
  import opened Formula
  import opened Allocation

  datatype Option<T> = None | Some(value: T)

  /** The largest variable a clause mentions (0 for the empty clause). */
  function MaxVar(c: Clause): nat
  {
    if c == [] then 0
    else if Abs(c[0]) > MaxVar(c[1..]) then Abs(c[0]) else MaxVar(c[1..])
  }

  lemma {:induction false} MaxVarBound(c: Clause)
    ensures forall l :: l in c ==> Abs(l) <= MaxVar(c)
  {
    if c != [] {
      MaxVarBound(c[1..]);
      assert forall l :: l in c ==> l == c[0] || l in c[1..];
    }
  }

  /** A bound on every literal bounds their maximum. */
  lemma {:induction false} MaxVarAtMost(c: Clause, n: nat)
    requires forall l :: l in c ==> Abs(l) <= n
    ensures MaxVar(c) <= n
  {
    if c != [] {
      assert c[0] in c;
      assert forall l :: l in c[1..] ==> l in c;
      MaxVarAtMost(c[1..], n);
    }
  }

  /** The variable count after adding the clauses cs, one by one, to a
      solver that counted n: the largest of n and every variable mentioned. */
  function MaxVarAll(cs: seq<Clause>, n: nat): nat
  {
    if cs == [] then n
    else
      var m := MaxVarAll(cs[..|cs| - 1], n);
      if MaxVar(cs[|cs| - 1]) > m then MaxVar(cs[|cs| - 1]) else m
  }

  /** That count bounds n and every variable the clauses mention. */
  lemma {:induction false} MaxVarAllBound(cs: seq<Clause>, n: nat)
    ensures n <= MaxVarAll(cs, n)
    ensures forall c, l :: c in cs && l in c ==> Abs(l) <= MaxVarAll(cs, n)
  {
    if cs != [] {
      var front := cs[..|cs| - 1];
      MaxVarAllBound(front, n);
      MaxVarBound(cs[|cs| - 1]);
      assert forall c :: c in cs ==> c in front || c == cs[|cs| - 1];
    }
  }

  /** The variables true in a model list. */
  function TrueSet(model: seq<int>): set<int>
  {
    set v | v in model && v > 0
  }

  /** The model list of assignment s over the variables 1..n: v when v is
      true, -v when it is false. */
  function ModelOf(s: set<int>, n: nat): seq<int>
  {
    seq(n, i requires 0 <= i < n => if i + 1 in s then i + 1 else -(i + 1))
  }

  lemma ModelOfTrueSet(s: set<int>, n: nat)
    requires s <= Range(n)
    ensures TrueSet(ModelOf(s, n)) == s
    ensures forall l :: l in ModelOf(s, n) ==> l != 0 && Abs(l) <= n
  {
    var m := ModelOf(s, n);
    forall v | v in s
      ensures v in TrueSet(m)
    {
      assert m[v - 1] == v;
    }
  }

  /** Every assignment of the variables 1..n. */
  function AllSubsets(n: nat): set<set<int>>
  {
    if n == 0 then {{}}
    else AllSubsets(n - 1) + set s | s in AllSubsets(n - 1) :: s + {n}
  }

  /** Every candidate is a subset of 1..n. */
  lemma {:induction false} AllSubsetsWithin(n: nat, s: set<int>)
    requires s in AllSubsets(n)
    ensures s <= Range(n)
  {
    if n > 0 {
      if s in AllSubsets(n - 1) {
        AllSubsetsWithin(n - 1, s);
      } else {
        var s' :| s' in AllSubsets(n - 1) && s == s' + {n};
        AllSubsetsWithin(n - 1, s');
      }
    }
  }

  /** Every subset of 1..n is a candidate. */
  lemma {:induction false} AllSubsetsComplete(n: nat, s: set<int>)
    requires s <= Range(n)
    ensures s in AllSubsets(n)
  {
    if n == 0 {
      assert s == {};
    } else if n in s {
      AllSubsetsComplete(n - 1, s - {n});
      assert s == (s - {n}) + {n};
    } else {
      AllSubsetsComplete(n - 1, s);
    }
  }

  lemma AllSubsetsMembers(n: nat, s: set<int>)
    ensures s in AllSubsets(n) <==> s <= Range(n)
  {
    if s in AllSubsets(n) {
      AllSubsetsWithin(n, s);
    }
    if s <= Range(n) {
      AllSubsetsComplete(n, s);
    }
  }

  class Oracle {
    /** Every clause added so far. */
    var clauses: seq<Clause>
    /** The number of variables in use: the largest one mentioned so far. */
    var nv: nat

    ghost predicate Valid()
      reads this
    {
      VarsWithin(clauses, Range(nv))
    }

    constructor ()
      ensures Valid() && clauses == [] && nv == 0
    {
      clauses := [];
      nv := 0;
    }

    method AddClause(c: Clause)
      requires Valid() && forall l :: l in c ==> l != 0
      modifies this
      ensures Valid() && clauses == old(clauses) + [c]
      ensures nv == if MaxVar(c) > old(nv) then MaxVar(c) else old(nv)
    {
      MaxVarBound(c);
      clauses := clauses + [c];
      if MaxVar(c) > nv {
        nv := MaxVar(c);
      }
    }

    method AppendFormula(cs: seq<Clause>)
      requires Valid() && forall c, l :: c in cs && l in c ==> l != 0
      modifies this
      ensures Valid() && clauses == old(clauses) + cs && nv == MaxVarAll(cs, old(nv))
    {
      for i := 0 to |cs|
        invariant Valid() && clauses == old(clauses) + cs[..i] && nv == MaxVarAll(cs[..i], old(nv))
      {
        assert cs[i] in cs;
        assert cs[..i + 1][..i] == cs[..i];
        AddClause(cs[i]);
        assert cs[..i + 1] == cs[..i] + [cs[i]];
      }
      assert cs[..|cs|] == cs;
    }

    /** A model of every clause added so far, over the variables 1..nv, or
        None when there is none. */
    method Solve() returns (model: Option<seq<int>>)
      requires Valid()
      ensures model.Some? ==> SatAll(clauses, TrueSet(model.value))
      ensures model.Some? ==> TrueSet(model.value) <= Range(nv) && forall l :: l in model.value ==> l != 0 && Abs(l) <= nv
      ensures model.None? ==> forall t :: !SatAll(clauses, t)
    {
      var candidates := AllSubsets(nv);
      while candidates != {}
        invariant candidates <= AllSubsets(nv)
        invariant forall s :: s in AllSubsets(nv) && s !in candidates ==> !SatAll(clauses, s)
        decreases |candidates|
      {
        var s :| s in candidates;
        if SatAll(clauses, s) {
          AllSubsetsMembers(nv, s);
          ModelOfTrueSet(s, nv);
          return Some(ModelOf(s, nv));
        }
        candidates := candidates - {s};
      }
      forall t
        ensures !SatAll(clauses, t)
      {
        AllSubsetsMembers(nv, t * Range(nv));
        RestrictAssignment(clauses, Range(nv), t);
      }
      return None;
    }
  }
}
