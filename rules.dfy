// The puzzle's rules stated directly on the board, and the theorem that the
// compiled formula holds exactly for the bulb placements that obey them.
module Rules {
  import opened Grid
  import opened Allocation
  import opened Visibility
  import opened Formula
  import opened Combinatorics
  import opened Compiler
  import opened ClauseFacts

  /** Under assignment t, the '.' cell q holds a bulb. */
  ghost predicate Bulb(b: Board, t: set<int>, q: Pos)
  {
    q in VarMap(b) && VarMap(b)[q] in t
  }

  /** p holds a bulb or sees a cell that does. */
  ghost predicate Illuminated(b: Board, t: set<int>, p: Pos)
  {
    Bulb(b, t, p) || exists q :: Sees(b, p, q) && Bulb(b, t, q)
  }

  /** Every '.' cell is lit. */
  ghost predicate AllLit(b: Board, t: set<int>)
  {
    forall p :: IsVarCell(b, p) ==> Illuminated(b, t, p)
  }

  /** No two bulbs see each other. */
  ghost predicate NoAttack(b: Board, t: set<int>)
  {
    forall p, q :: Bulb(b, t, p) && Bulb(b, t, q) ==> !Sees(b, p, q)
  }

  /** The bulbs orthogonally adjacent to p. */
  ghost function AdjacentBulbs(b: Board, t: set<int>, p: Pos): set<Pos>
  {
    set q | q in VarMap(b) && Adjacent(p, q) && VarMap(b)[q] in t
  }

  /** Every numbered wall has as many bulbs beside it as its number. */
  ghost predicate WallsExact(b: Board, t: set<int>)
  {
    forall p :: IsWallCell(b, p) ==> |AdjacentBulbs(b, t, p)| == Clue(b, p)
  }

  /** A solved puzzle. */
  ghost predicate IsSolution(b: Board, t: set<int>)
  {
    AllLit(b, t) && NoAttack(b, t) && WallsExact(b, t)
  }

  /** A bulb sits on a '.' cell. */
  lemma BulbCell(b: Board, t: set<int>, q: Pos)
    requires b.Valid() && Bulb(b, t, q)
    ensures IsVarCell(b, q) && VarMap(b)[q] > 0
  {
    VarMapIds(b);
    VarMapInjective(b, q, q);
  }

  /** q as a set when it holds a bulb, else the empty set. */
  ghost function BulbAt(b: Board, t: set<int>, q: Pos): set<Pos>
  {
    if Bulb(b, t, q) then {q} else {}
  }

  /** A candidate neighbour counts one true id exactly when it holds a bulb. */
  lemma BulbAtCount(b: Board, t: set<int>, q: Pos)
    requires b.Valid()
    ensures CountWhere(IdIfCell(b, q), t, true) == |BulbAt(b, t, q)|
  {
    MapCell(b, q);
    if InBounds(b, q.0, q.1) && q in VarMap(b) {
      assert CountWhere(IdIfCell(b, q), t, true) == (if VarMap(b)[q] in t then 1 else 0) + CountWhere([], t, true);
    }
  }

  /** The adjacent bulbs are those among the up, down, left and right cells. */
  lemma AdjacentBulbsParts(b: Board, t: set<int>, p: Pos)
    ensures AdjacentBulbs(b, t, p) == BulbAt(b, t, (p.0 - 1, p.1)) + BulbAt(b, t, (p.0 + 1, p.1))
                                    + BulbAt(b, t, (p.0, p.1 - 1)) + BulbAt(b, t, (p.0, p.1 + 1))
  {
  }

  /** The count of true neighbour ids that the wall clauses constrain is the
      number of bulbs beside the wall on the board. */
  lemma AdjacentBulbCount(b: Board, t: set<int>, p: Pos)
    requires b.Valid()
    ensures CountWhere(Neighbors(b, p), t, true) == |AdjacentBulbs(b, t, p)|
  {
    var u, d, l, r := (p.0 - 1, p.1), (p.0 + 1, p.1), (p.0, p.1 - 1), (p.0, p.1 + 1);
    NeighborsParts(b, p);
    CountConcat(IdIfCell(b, u), IdIfCell(b, d), t, true);
    CountConcat(IdIfCell(b, u) + IdIfCell(b, d), IdIfCell(b, l), t, true);
    CountConcat(IdIfCell(b, u) + IdIfCell(b, d) + IdIfCell(b, l), IdIfCell(b, r), t, true);
    BulbAtCount(b, t, u);
    BulbAtCount(b, t, d);
    BulbAtCount(b, t, l);
    BulbAtCount(b, t, r);
    AdjacentBulbsParts(b, t, p);
    var su, sd, sl, sr := BulbAt(b, t, u), BulbAt(b, t, d), BulbAt(b, t, l), BulbAt(b, t, r);
    assert su * sd == {};
    assert (su + sd) * sl == {};
    assert (su + sd + sl) * sr == {};
  }

  // ---------------------------------------------------------------------
  // Non-attack

  /** Two '.' cells that see each other are never both true in an
      assignment that satisfies the non-attack family. */
  lemma PairExcluded(b: Board, t: set<int>, p: Pos, q: Pos)
    requires b.Valid() && SatAll(NonAttack(b), t)
    requires Sees(b, p, q) && p in VarMap(b) && q in VarMap(b)
    ensures !(VarMap(b)[p] in t && VarMap(b)[q] in t)
  {
    var vm := VarMap(b);
    VarMapIds(b);
    VarMapInjective(b, p, q);
    VarMapInjective(b, q, p);
    SeesSymmetric(b, p, q);
    var lo, hi := if vm[p] < vm[q] then p else q, if vm[p] < vm[q] then q else p;
    var c := [-vm[lo], -vm[hi]];
    PairInNonAttack(b, lo, hi, c);
    assert SatClause(c, t);
    var l :| l in c && LitTrue(l, t);
  }

  /** The non-attack family holds exactly when no two bulbs see each other. */
  lemma NonAttackMeaning(b: Board, t: set<int>)
    requires b.Valid()
    ensures SatAll(NonAttack(b), t) <==> NoAttack(b, t)
  {
    var vm := VarMap(b);
    if SatAll(NonAttack(b), t) {
      forall p, q | Sees(b, p, q) && p in vm && q in vm
        ensures !(vm[p] in t && vm[q] in t)
      {
        PairExcluded(b, t, p, q);
      }
    }
    if NoAttack(b, t) {
      forall c | c in NonAttack(b)
        ensures SatClause(c, t)
      {
        var p, q := NonAttackPair(b, c);
        VarMapInjective(b, p, q);
        VarMapInjective(b, q, p);
        if vm[p] !in t {
          assert LitTrue(c[0], t);
        } else {
          assert LitTrue(c[1], t);
        }
      }
    }
  }

  // ---------------------------------------------------------------------
  // Coverage

  /** The coverage clause of a '.' cell holds exactly when the cell is lit. */
  lemma IllumClauseMeaning(b: Board, t: set<int>, p: Pos)
    requires IsVarCell(b, p)
    ensures SatClause(IllumVars(b, p), t) <==> Illuminated(b, t, p)
  {
    var c := IllumVars(b, p);
    IllumVarsShape(b, p);
    if SatClause(c, t) {
      var l :| l in c && LitTrue(l, t);
      var i :| 0 <= i < |c| && c[i] == l;
      assert l > 0 && l in t;
      if !HasId(b, p, l) {
        var q :| IsVarCell(b, q) && Sees(b, p, q) && HasId(b, q, l);
        assert Bulb(b, t, q);
      }
    }
    if Illuminated(b, t, p) {
      if Bulb(b, t, p) {
        assert LitTrue(c[0], t);
      } else {
        var q :| Sees(b, p, q) && Bulb(b, t, q);
        BulbCell(b, t, q);
        var x := VarMap(b)[q];
        assert x in c;
        assert LitTrue(x, t);
      }
    }
  }

  /** The coverage family holds exactly when every '.' cell is lit. */
  lemma CoverageMeaning(b: Board, t: set<int>)
    requires b.Valid()
    ensures SatAll(Coverage(b), t) <==> AllLit(b, t)
  {
    if SatAll(Coverage(b), t) {
      forall p | IsVarCell(b, p)
        ensures Illuminated(b, t, p)
      {
        CoverageMembers(b, IllumVars(b, p));
        IllumClauseMeaning(b, t, p);
      }
    }
    if AllLit(b, t) {
      forall c | c in Coverage(b)
        ensures SatClause(c, t)
      {
        CoverageMembers(b, c);
        var p :| IsVarCell(b, p) && c == IllumVars(b, p);
        IllumClauseMeaning(b, t, p);
      }
    }
  }

  // ---------------------------------------------------------------------
  // Walls

  /** The clauses of one wall hold exactly when the wall has as many bulbs
      beside it as its number. */
  lemma WallClauseMeaning(b: Board, t: set<int>, p: Pos)
    requires IsWallCell(b, p) && !TooFew(b, p)
    ensures SatAll(WallClauses(b, p), t) <==> |AdjacentBulbs(b, t, p)| == Clue(b, p)
  {
    NeighborsFacts(b, p);
    ExactlyN(Neighbors(b, p), Clue(b, p), t);
    AdjacentBulbCount(b, t, p);
  }

  /** Under an assignment satisfying the wall family, a wall that is not bad
      has as many bulbs beside it as its number. */
  lemma WallSatisfied(b: Board, t: set<int>, p: Pos)
    requires b.Valid() && SatAll(Walls(b), t) && IsWallCell(b, p) && !TooFew(b, p)
    ensures |AdjacentBulbs(b, t, p)| == Clue(b, p)
  {
    forall c | c in WallClauses(b, p)
      ensures SatClause(c, t)
    {
      WallInWalls(b, p, c);
    }
    WallClauseMeaning(b, t, p);
  }

  /** When every wall has its number of bulbs, each wall clause holds. */
  lemma WallClauseSatisfied(b: Board, t: set<int>, c: Clause)
    requires b.Valid() && WallsExact(b, t) && c in Walls(b)
    ensures SatClause(c, t)
  {
    var p := WallOf(b, c);
    WallClauseMeaning(b, t, p);
  }

  /** Without a bad wall, the wall family holds exactly when every numbered
      wall has as many bulbs beside it as its number. */
  lemma WallsMeaning(b: Board, t: set<int>)
    requires b.Valid() && !HasBadWall(b)
    ensures SatAll(Walls(b), t) <==> WallsExact(b, t)
  {
    if SatAll(Walls(b), t) {
      forall p | IsWallCell(b, p)
        ensures |AdjacentBulbs(b, t, p)| == Clue(b, p)
      {
        assert !TooFew(b, (p.0, p.1));
        WallSatisfied(b, t, p);
      }
    }
    if WallsExact(b, t) {
      forall c | c in Walls(b)
        ensures SatClause(c, t)
      {
        WallClauseSatisfied(b, t, c);
      }
    }
  }

  /** A wall demanding more bulbs than it has free neighbours (a bad wall
      among them) can never be satisfied. */
  lemma TooFewUnsolvable(b: Board, t: set<int>, p: Pos)
    requires IsWallCell(b, p) && Clue(b, p) > |Neighbors(b, p)|
    ensures !IsSolution(b, t)
  {
    CountSplit(Neighbors(b, p), t);
    AdjacentBulbCount(b, t, p);
  }

  /** So a board with a bad wall has no solution at all. */
  lemma BadWallUnsolvable(b: Board, t: set<int>)
    requires HasBadWall(b)
    ensures !IsSolution(b, t)
  {
    var i, j :| IsWallCell(b, (i, j)) && TooFew(b, (i, j));
    TooFewUnsolvable(b, t, (i, j));
  }

  // ---------------------------------------------------------------------
  // The whole formula

  /** The compiled formula holds exactly for the solutions of the puzzle. */
  lemma CnfMeaning(b: Board, t: set<int>)
    requires b.Valid() && !HasBadWall(b)
    ensures SatAll(Cnf(b), t) <==> IsSolution(b, t)
  {
    NonAttackMeaning(b, t);
    CoverageMeaning(b, t);
    WallsMeaning(b, t);
    var a, c, w := NonAttack(b), Coverage(b), Walls(b);
    assert forall x :: x in a + c + w <==> x in a || x in c || x in w;
  }

  /** No solution places its bulbs on a strict subset of another's: a bulb
      added to a solution lights nothing new, because its cell was lit
      already, and so the bulb that lit it sees the added one. */
  lemma SolutionsAntichain(b: Board, s: set<int>, t: set<int>)
    requires b.Valid() && IsSolution(b, s) && IsSolution(b, t)
    requires s * Range(NumVars(b)) <= t
    ensures s * Range(NumVars(b)) == t * Range(NumVars(b))
  {
    var vars := Range(NumVars(b));
    forall x | x in t * vars
      ensures x in s
    {
      VarMapValues(b);
      assert x in VarMap(b).Values;
      var q :| q in VarMap(b) && VarMap(b)[q] == x;
      assert Bulb(b, t, q);
      BulbCell(b, t, q);
      forall q' | Sees(b, q, q')
        ensures !Bulb(b, s, q')
      {
        assert !Bulb(b, t, q');
        if q' in VarMap(b) {
          IdInRange(b, q');
        }
      }
      assert Illuminated(b, s, q);
    }
  }
}
