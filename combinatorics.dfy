// k-subsets of a list in the order itertools.combinations yields them, and
// the exact-N-of-K encoding built from them.
module Combinatorics {
  import opened Formula

  /** The binomial coefficient, by Pascal's rule. */
  function Choose(n: nat, k: nat): nat
  {
    if k == 0 then 1 else if n == 0 then 0 else Choose(n - 1, k - 1) + Choose(n - 1, k)
  }

  /** [[x] + c for c in cs] */
  function WithHead(x: int, cs: seq<seq<int>>): (r: seq<seq<int>>)
    ensures |r| == |cs|
    ensures forall i :: 0 <= i < |cs| ==> r[i] == [x] + cs[i]
  {
    seq(|cs|, i requires 0 <= i < |cs| => [x] + cs[i])
  }

  /** The k-element selections of s by position, in lexicographic order of
      positions: those that take s[0] first, then those that skip it. For
      k > |s| there are none, for k == 0 exactly one, the empty selection. */
  function Combinations(s: seq<int>, k: nat): seq<seq<int>>
    decreases |s|
  {
    if k == 0 then [[]]
    else if s == [] then []
    else WithHead(s[0], Combinations(s[1..], k - 1)) + Combinations(s[1..], k)
  }

  /** There are C(|s|, k) selections. */
  lemma {:induction false} CombinationsCount(s: seq<int>, k: nat)
    ensures |Combinations(s, k)| == Choose(|s|, k)
    decreases |s|
  {
    if k == 0 {
      assert Combinations(s, k) == [[]];
    } else if s == [] {
      assert Combinations(s, k) == [];
    } else {
      var n := |s| - 1;
      assert |s[1..]| == n;
      CombinationsCount(s[1..], k - 1);
      CombinationsCount(s[1..], k);
      CombinationsLength(s, k);
      assert Choose(n + 1, k) == Choose(n, k - 1) + Choose(n, k);
    }
  }

  lemma CombinationsLength(s: seq<int>, k: nat)
    requires k > 0 && s != []
    ensures |Combinations(s, k)| == |Combinations(s[1..], k - 1)| + |Combinations(s[1..], k)|
  {
    var with, without := Combinations(s[1..], k - 1), Combinations(s[1..], k);
    assert Combinations(s, k) == WithHead(s[0], with) + without;
  }

  /** Each selection has k elements. */
  lemma {:induction false} CombinationsSize(s: seq<int>, k: nat)
    ensures forall c :: c in Combinations(s, k) ==> |c| == k
    decreases |s|
  {
    if k > 0 && s != [] {
      var with, without := Combinations(s[1..], k - 1), Combinations(s[1..], k);
      CombinationsSize(s[1..], k - 1);
      CombinationsSize(s[1..], k);
      WithHeadSizes(s[0], with, k - 1);
      ConcatSizes(WithHead(s[0], with), without, k);
      assert Combinations(s, k) == WithHead(s[0], with) + without;
    }
  }

  lemma WithHeadSizes(x: int, cs: seq<seq<int>>, k: nat)
    requires forall c :: c in cs ==> |c| == k
    ensures forall d :: d in WithHead(x, cs) ==> |d| == k + 1
  {
    forall d | d in WithHead(x, cs)
      ensures |d| == k + 1
    {
      var i :| 0 <= i < |cs| && WithHead(x, cs)[i] == d;
      assert cs[i] in cs;
    }
  }

  lemma ConcatSizes(a: seq<seq<int>>, b: seq<seq<int>>, k: nat)
    requires forall c :: c in a ==> |c| == k
    requires forall c :: c in b ==> |c| == k
    ensures forall c :: c in a + b ==> |c| == k
  {
  }

  /** A selection takes its elements from s. */
  lemma {:induction false} CombinationsSubset(s: seq<int>, k: nat)
    ensures forall c, x :: c in Combinations(s, k) && x in c ==> x in s
    decreases |s|
  {
    if k > 0 && s != [] {
      var with := Combinations(s[1..], k - 1);
      CombinationsSubset(s[1..], k - 1);
      CombinationsSubset(s[1..], k);
      forall i, x | 0 <= i < |with| && x in WithHead(s[0], with)[i]
        ensures x in s
      {
        assert with[i] in with;
        assert x == s[0] || x in with[i];
      }
    }
  }

  /** Every element is a (positive) variable. */
  predicate AllPositive(s: seq<int>)
  {
    forall i :: 0 <= i < |s| ==> s[i] > 0
  }

  /** A selection of variables holds only variables. */
  lemma {:induction false} CombinationsPositive(s: seq<int>, k: nat)
    requires AllPositive(s)
    ensures forall c :: c in Combinations(s, k) ==> AllPositive(c)
    decreases |s|
  {
    if k > 0 && s != [] {
      var with := Combinations(s[1..], k - 1);
      CombinationsPositive(s[1..], k - 1);
      CombinationsPositive(s[1..], k);
      forall i | 0 <= i < |with|
        ensures AllPositive(WithHead(s[0], with)[i])
      {
        assert with[i] in with;
      }
    }
  }

  /** The number of positions of s whose membership in t is pol. */
  function CountWhere(s: seq<int>, t: set<int>, pol: bool): nat
  {
    if s == [] then 0 else (if (s[0] in t) == pol then 1 else 0) + CountWhere(s[1..], t, pol)
  }

  /** Counting is additive over concatenation. */
  lemma {:induction false} CountConcat(a: seq<int>, b: seq<int>, t: set<int>, pol: bool)
    ensures CountWhere(a + b, t, pol) == CountWhere(a, t, pol) + CountWhere(b, t, pol)
  {
    if a != [] {
      CountConcat(a[1..], b, t, pol);
      assert (a + b)[1..] == a[1..] + b;
    } else {
      assert a + b == b;
    }
  }

  /** c has an element whose membership in t is pol. */
  predicate Hit(c: seq<int>, t: set<int>, pol: bool)
  {
    exists x :: x in c && (x in t) == pol
  }

  lemma {:induction false} CountSplit(s: seq<int>, t: set<int>)
    ensures CountWhere(s, t, true) + CountWhere(s, t, false) == |s|
  {
    if s != [] {
      CountSplit(s[1..], t);
    }
  }

  /** Every selection in cs hits. */
  predicate AllHit(cs: seq<seq<int>>, t: set<int>, pol: bool)
  {
    forall c :: c in cs ==> Hit(c, t, pol)
  }

  lemma AllHitConcat(a: seq<seq<int>>, b: seq<seq<int>>, t: set<int>, pol: bool)
    ensures AllHit(a + b, t, pol) <==> AllHit(a, t, pol) && AllHit(b, t, pol)
  {
    assert forall c :: c in a + b <==> c in a || c in b;
  }

  lemma WithHeadHit(x: int, cs: seq<seq<int>>, t: set<int>, pol: bool)
    ensures AllHit(WithHead(x, cs), t, pol) <==> (x in t) == pol || AllHit(cs, t, pol)
  {
    forall d | d in cs
      ensures Hit([x] + d, t, pol) <==> (x in t) == pol || Hit(d, t, pol)
    {
      assert forall y :: y in [x] + d <==> y == x || y in d;
    }
    if AllHit(WithHead(x, cs), t, pol) {
      forall d | d in cs
        ensures (x in t) == pol || Hit(d, t, pol)
      {
        var i :| 0 <= i < |cs| && cs[i] == d;
        assert WithHead(x, cs)[i] in WithHead(x, cs);
      }
    }
  }

  /** Every k-selection of s holds an element of membership pol exactly when
      fewer than k positions of s have the other membership. */
  lemma {:induction false} EveryCombinationHit(s: seq<int>, k: nat, t: set<int>, pol: bool)
    ensures AllHit(Combinations(s, k), t, pol) <==> CountWhere(s, t, !pol) < k
    decreases |s|
  {
    var all := Combinations(s, k);
    if k == 0 {
      assert all == [[]];
      assert !Hit([], t, pol);
    } else if s == [] {
      assert all == [];
    } else {
      var with, without := Combinations(s[1..], k - 1), Combinations(s[1..], k);
      var count, rest := CountWhere(s, t, !pol), CountWhere(s[1..], t, !pol);
      assert all == WithHead(s[0], with) + without;
      EveryCombinationHit(s[1..], k - 1, t, pol);
      EveryCombinationHit(s[1..], k, t, pol);
      WithHeadHit(s[0], with, t, pol);
      AllHitConcat(WithHead(s[0], with), without, t, pol);
      if (s[0] in t) == pol {
        assert count == rest;
      } else {
        assert count == rest + 1;
      }
    }
  }

  /** There are no selections of more elements than the sequence has. */
  lemma {:induction false} CombinationsBeyond(s: seq<int>, k: nat)
    requires k > |s|
    ensures Combinations(s, k) == []
    decreases |s|
  {
    if s != [] {
      CombinationsBeyond(s[1..], k - 1);
      CombinationsBeyond(s[1..], k);
    }
  }

  /** "At most n of nb": every (n+1)-selection of nb, negated. */
  function AtMostClauses(nb: seq<int>, n: nat): seq<Clause>
  {
    var combos := Combinations(nb, n + 1);
    seq(|combos|, i requires 0 <= i < |combos| => Negated(combos[i]))
  }

  /** "At least n of nb": every (|nb|-n+1)-selection of nb, as it is. */
  function AtLeastClauses(nb: seq<int>, n: nat): seq<Clause>
    requires n <= |nb| + 1
  {
    Combinations(nb, |nb| - n + 1)
  }

  /** The "at most" family has C(|nb|, n+1) clauses. */
  lemma AtMostCount(nb: seq<int>, n: nat)
    ensures |AtMostClauses(nb, n)| == Choose(|nb|, n + 1)
  {
    CombinationsCount(nb, n + 1);
  }

  /** Each "at most" clause has n+1 literals, all negative. */
  lemma AtMostShape(nb: seq<int>, n: nat)
    requires AllPositive(nb)
    ensures forall c :: c in AtMostClauses(nb, n) ==> |c| == n + 1 && forall i :: 0 <= i < |c| ==> c[i] < 0
  {
    var combos := Combinations(nb, n + 1);
    CombinationsSize(nb, n + 1);
    CombinationsPositive(nb, n + 1);
    forall c | c in AtMostClauses(nb, n)
      ensures |c| == n + 1 && forall i :: 0 <= i < |c| ==> c[i] < 0
    {
      var j :| 0 <= j < |combos| && AtMostClauses(nb, n)[j] == c;
      assert combos[j] in combos;
    }
  }

  /** The "at least" family has C(|nb|, |nb|-n+1) clauses. */
  lemma AtLeastCount(nb: seq<int>, n: nat)
    requires n <= |nb| + 1
    ensures |AtLeastClauses(nb, n)| == Choose(|nb|, |nb| - n + 1)
  {
    CombinationsCount(nb, |nb| - n + 1);
  }

  /** Each "at least" clause has |nb|-n+1 literals, all positive. */
  lemma AtLeastShape(nb: seq<int>, n: nat)
    requires AllPositive(nb) && n <= |nb| + 1
    ensures forall c :: c in AtLeastClauses(nb, n) ==> |c| == |nb| - n + 1 && AllPositive(c)
  {
    var k: nat := |nb| - n + 1;
    var cs := Combinations(nb, k);
    CombinationsSize(nb, k);
    CombinationsPositive(nb, k);
    forall c | c in AtLeastClauses(nb, n)
      ensures |c| == k && AllPositive(c)
    {
      assert c in cs;
    }
  }

  /** The negation of a selection of variables holds exactly when one of the
      variables is false. */
  lemma NegatedHit(c: seq<int>, t: set<int>)
    requires AllPositive(c)
    ensures SatClause(Negated(c), t) <==> Hit(c, t, false)
  {
    if Hit(c, t, false) {
      var x :| x in c && x !in t;
      var j :| 0 <= j < |c| && c[j] == x;
      assert Negated(c)[j] == -x;
      assert -x in Negated(c) && LitTrue(-x, t);
    }
    if SatClause(Negated(c), t) {
      var l :| l in Negated(c) && LitTrue(l, t);
      var j :| 0 <= j < |c| && Negated(c)[j] == l;
      assert c[j] in c && c[j] !in t;
    }
  }

  /** The "at most" family holds exactly when at most n of nb are true. */
  lemma AtMostMeaning(nb: seq<int>, n: nat, t: set<int>)
    requires AllPositive(nb)
    ensures SatAll(AtMostClauses(nb, n), t) <==> CountWhere(nb, t, true) <= n
  {
    var combos := Combinations(nb, n + 1);
    var clauses := AtMostClauses(nb, n);
    CombinationsPositive(nb, n + 1);
    EveryCombinationHit(nb, n + 1, t, false);
    if AllHit(combos, t, false) {
      forall c | c in clauses
        ensures SatClause(c, t)
      {
        var i :| 0 <= i < |clauses| && clauses[i] == c;
        assert combos[i] in combos;
        NegatedHit(combos[i], t);
      }
    }
    if SatAll(clauses, t) {
      forall c | c in combos
        ensures Hit(c, t, false)
      {
        var i :| 0 <= i < |combos| && combos[i] == c;
        assert clauses[i] in clauses;
        NegatedHit(c, t);
      }
    }
  }

  /** A selection of variables, as a clause, holds exactly when one of the
      variables is true. */
  lemma PositiveHit(c: seq<int>, t: set<int>)
    requires AllPositive(c)
    ensures SatClause(c, t) <==> Hit(c, t, true)
  {
    if SatClause(c, t) {
      var l :| l in c && LitTrue(l, t);
      var j :| 0 <= j < |c| && c[j] == l;
    }
  }

  /** The "at least" family holds exactly when at least n of nb are true. */
  lemma AtLeastMeaning(nb: seq<int>, n: nat, t: set<int>)
    requires AllPositive(nb) && n <= |nb| + 1
    ensures SatAll(AtLeastClauses(nb, n), t) <==> CountWhere(nb, t, true) >= n
  {
    var k: nat := |nb| - n + 1;
    var combos := Combinations(nb, k);
    assert AtLeastClauses(nb, n) == combos;
    CountSplit(nb, t);
    CombinationsPositive(nb, k);
    EveryCombinationHit(nb, k, t, true);
    forall c | c in combos
      ensures SatClause(c, t) <==> Hit(c, t, true)
    {
      PositiveHit(c, t);
    }
  }

  /** The exact-N-of-K encoding: for N <= K + 1 the two families together hold
      exactly when N of the K variables are true. */
  lemma ExactlyN(nb: seq<int>, n: nat, t: set<int>)
    requires AllPositive(nb) && n <= |nb| + 1
    ensures SatAll(AtMostClauses(nb, n) + AtLeastClauses(nb, n), t) <==> CountWhere(nb, t, true) == n
  {
    AtMostMeaning(nb, n, t);
    AtLeastMeaning(nb, n, t);
    var a, b := AtMostClauses(nb, n), AtLeastClauses(nb, n);
    assert forall c :: c in a + b <==> c in a || c in b;
  }
}
