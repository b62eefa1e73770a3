// All-solutions enumeration by blocking clauses: after each model, forbid
// every later model whose true puzzle variables include this model's.
module Enumeration {
  import opened Formula
  import opened Allocation
  import opened SatOracle

  /** The blocking clause of a model: the negations of its true variables
      that belong to vals, in model order. */
  function Blocking(model: seq<int>, vals: set<int>): Clause
  {
    if model == [] then []
    else (if model[0] > 0 && model[0] in vals then [-model[0]] else []) + Blocking(model[1..], vals)
  }

  /** The blocking clause negates exactly the true variables of the model
      that lie in vals. */
  lemma {:induction false} BlockingMembers(model: seq<int>, vals: set<int>, l: int)
    ensures l in Blocking(model, vals) <==> l < 0 && -l in TrueSet(model) * vals
  {
    if model != [] {
      BlockingMembers(model[1..], vals, l);
      assert forall v :: v in model <==> v == model[0] || v in model[1..];
    }
  }

  /** An assignment satisfies the blocking clause exactly when its true set
      does not include the model's true variables from vals; in particular
      the model itself never does, and a model with no true variable in vals
      gives the empty clause. */
  lemma BlockingMeaning(model: seq<int>, vals: set<int>, s: set<int>)
    ensures SatClause(Blocking(model, vals), s) <==> !(TrueSet(model) * vals <= s)
    ensures Blocking(model, vals) == [] <==> TrueSet(model) * vals == {}
  {
    var c := Blocking(model, vals);
    if SatClause(c, s) {
      var l :| l in c && LitTrue(l, s);
      BlockingMembers(model, vals, l);
    }
    if !(TrueSet(model) * vals <= s) {
      var v :| v in TrueSet(model) * vals && v !in s;
      BlockingMembers(model, vals, -v);
      assert LitTrue(-v, s);
    }
    if c != [] {
      BlockingMembers(model, vals, c[0]);
    }
    if TrueSet(model) * vals != {} {
      var v :| v in TrueSet(model) * vals;
      BlockingMembers(model, vals, -v);
    }
  }

  /** The blocking clauses of the models, in order. */
  function Blockings(models: seq<seq<int>>, vals: set<int>): seq<Clause>
  {
    seq(|models|, i requires 0 <= i < |models| => Blocking(models[i], vals))
  }

  /** The assignments of 1..n that satisfy cs: the ones a solve could still
      return. */
  ghost function Unblocked(cs: seq<Clause>, n: nat): set<set<int>>
  {
    set s | s in AllSubsets(n) && SatAll(cs, s)
  }

  lemma {:induction false} SubsetCard<T>(a: set<T>, b: set<T>)
    requires a <= b
    ensures |a| <= |b|
    decreases |b|
  {
    if a != {} {
      var x :| x in a;
      SubsetCard(a - {x}, b - {x});
    }
  }

  /** Blocking a model of cs removes at least that model from the
      assignments a solve could still return. */
  lemma BlockShrinks(cs: seq<Clause>, n: nat, model: seq<int>, vals: set<int>)
    requires SatAll(cs, TrueSet(model)) && TrueSet(model) <= Range(n)
    ensures |Unblocked(cs + [Blocking(model, vals)], n)| < |Unblocked(cs, n)|
  {
    var before, after := Unblocked(cs, n), Unblocked(cs + [Blocking(model, vals)], n);
    AllSubsetsMembers(n, TrueSet(model));
    assert TrueSet(model) in before;
    BlockingMeaning(model, vals, TrueSet(model));
    forall s | s in after
      ensures s in before - {TrueSet(model)}
    {
      assert forall c :: c in cs ==> c in cs + [Blocking(model, vals)];
      assert Blocking(model, vals) in cs + [Blocking(model, vals)];
    }
    SubsetCard(after, before - {TrueSet(model)});
  }

  /** The blocking clause of a model over 1..n mentions only 1..n. */
  lemma BlockingBound(model: seq<int>, vals: set<int>, n: nat)
    requires forall l :: l in model ==> l != 0 && Abs(l) <= n
    ensures forall l :: l in Blocking(model, vals) ==> l != 0
    ensures MaxVar(Blocking(model, vals)) <= n
  {
    forall l | l in Blocking(model, vals)
      ensures l != 0 && Abs(l) <= n
    {
      BlockingMembers(model, vals, l);
    }
    MaxVarAtMost(Blocking(model, vals), n);
  }

  lemma BlockingsAppend(models: seq<seq<int>>, model: seq<int>, vals: set<int>)
    ensures Blockings(models + [model], vals) == Blockings(models, vals) + [Blocking(model, vals)]
  {
  }

  /** Once cnf plus the blocking clauses is unsatisfiable, every assignment
      satisfying cnf includes the true vals-variables of some model. */
  lemma Exhausted(cnf: seq<Clause>, models: seq<seq<int>>, vals: set<int>, t: set<int>)
    requires !SatAll(cnf + Blockings(models, vals), t) && SatAll(cnf, t)
    ensures exists i :: 0 <= i < |models| && TrueSet(models[i]) * vals <= t
  {
    var blocks := Blockings(models, vals);
    var c :| c in cnf + blocks && !SatClause(c, t);
    assert c !in cnf;
    var i :| 0 <= i < |blocks| && blocks[i] == c;
    BlockingMeaning(models[i], vals, t);
  }

  /** The solve loop: ask for a model, record it, block it, and repeat until
      the oracle reports unsatisfiable. Every recorded model satisfies cnf;
      each later model escapes the blocking clause of each earlier one; and
      every assignment satisfying cnf includes the true vals-variables of some
      recorded model. */
  method EnumerateModels(cnf: seq<Clause>, vals: set<int>) returns (allModels: seq<seq<int>>)
    requires forall c, l :: c in cnf && l in c ==> l != 0
    ensures forall i :: 0 <= i < |allModels| ==> SatAll(cnf, TrueSet(allModels[i]))
    ensures forall i, j :: 0 <= i < j < |allModels| ==> !(TrueSet(allModels[i]) * vals <= TrueSet(allModels[j]))
    ensures forall t :: SatAll(cnf, t) ==> exists i :: 0 <= i < |allModels| && TrueSet(allModels[i]) * vals <= t
  {
    var solver := new Oracle();
    solver.AppendFormula(cnf);
    allModels := [];
    var result := solver.Solve();
    while result.Some?
      invariant solver.Valid() && solver.clauses == cnf + Blockings(allModels, vals)
      invariant forall i :: 0 <= i < |allModels| ==> SatAll(cnf, TrueSet(allModels[i]))
      invariant forall i, j :: 0 <= i < j < |allModels| ==> !(TrueSet(allModels[i]) * vals <= TrueSet(allModels[j]))
      invariant result.Some? ==> SatAll(solver.clauses, TrueSet(result.value))
      invariant result.Some? ==> TrueSet(result.value) <= Range(solver.nv) && forall l :: l in result.value ==> l != 0 && Abs(l) <= solver.nv
      invariant result.None? ==> forall t :: !SatAll(solver.clauses, t)
      decreases if result.Some? then |Unblocked(solver.clauses, solver.nv)| + 1 else 0
    {
      var model := result.value;
      ModelStep(solver.clauses, cnf, allModels, model, vals);
      BlockShrinks(solver.clauses, solver.nv, model, vals);
      BlockingsAppend(allModels, model, vals);
      allModels := allModels + [model];
      var blockingClause := Blocking(model, vals);
      BlockingBound(model, vals, solver.nv);
      solver.AddClause(blockingClause);
      result := solver.Solve();
    }
    forall t | SatAll(cnf, t)
      ensures exists i :: 0 <= i < |allModels| && TrueSet(allModels[i]) * vals <= t
    {
      Exhausted(cnf, allModels, vals, t);
    }
  }

  /** A model of cnf plus the earlier blocking clauses satisfies cnf and
      includes no earlier model's true vals-variables. */
  lemma ModelStep(clauses: seq<Clause>, cnf: seq<Clause>, models: seq<seq<int>>, model: seq<int>, vals: set<int>)
    requires clauses == cnf + Blockings(models, vals) && SatAll(clauses, TrueSet(model))
    ensures SatAll(cnf, TrueSet(model))
    ensures forall i :: 0 <= i < |models| ==> !(TrueSet(models[i]) * vals <= TrueSet(model))
  {
    forall i | 0 <= i < |models|
      ensures !(TrueSet(models[i]) * vals <= TrueSet(model))
    {
      assert Blockings(models, vals)[i] in clauses;
      BlockingMeaning(models[i], vals, TrueSet(model));
    }
  }
}
