// What the clause families contain, independently of any assignment: which
// clauses occur, how many, of what size and over which variables.
module ClauseFacts {
  import opened Grid
  import opened Allocation
  import opened Visibility
  import opened Formula
  import opened Combinatorics
  import opened Compiler

  // ---------------------------------------------------------------------
  // Ids

  /** Distinct '.' cells receive distinct ids, and every id is positive. */
  lemma VarMapInjective(b: Board, p: Pos, q: Pos)
    requires b.Valid() && p in VarMap(b) && q in VarMap(b)
    ensures VarMap(b)[p] > 0
    ensures p != q ==> VarMap(b)[p] != VarMap(b)[q]
  {
    VarMapValues(b);
    assert VarMap(b)[p] in VarMap(b).Values;
    if p != q {
      VarMapOrder(b, p, q);
      VarMapOrder(b, q, p);
    }
  }

  /** q is a '.' cell with id x. */
  ghost predicate HasId(b: Board, q: Pos, x: int)
  {
    q in VarMap(b) && VarMap(b)[q] == x
  }

  /** The k-th cell of the scan is a '.' cell with id k + 1. */
  lemma EmptyCellId(b: Board, k: nat)
    requires b.Valid() && k < NumVars(b)
    ensures IsVarCell(b, EmptyCells(b)[k]) && HasId(b, EmptyCells(b)[k], k + 1)
  {
    VarMapIds(b);
  }

  /** The ids of a duplicate-free list of '.' cells are positive and distinct,
      and each names one of the cells. */
  lemma IdsFacts(b: Board, qs: seq<Pos>)
    requires b.Valid() && Distinct(qs) && forall q :: q in qs ==> q in VarMap(b)
    ensures Distinct(Ids(VarMap(b), qs)) && AllPositive(Ids(VarMap(b), qs))
    ensures forall x :: x in Ids(VarMap(b), qs) <==> exists q :: q in qs && x == VarMap(b)[q]
  {
    var vm := VarMap(b);
    var ids := Ids(vm, qs);
    forall i | 0 <= i < |qs|
      ensures ids[i] > 0
    {
      VarMapInjective(b, qs[i], qs[i]);
    }
    forall i, j | 0 <= i < j < |qs|
      ensures ids[i] != ids[j]
    {
      VarMapInjective(b, qs[i], qs[j]);
    }
    forall x | x in ids
      ensures exists q :: q in qs && x == vm[q]
    {
      var i :| 0 <= i < |ids| && ids[i] == x;
      assert qs[i] in qs;
    }
    forall x | exists q :: q in qs && x == vm[q]
      ensures x in ids
    {
      var q :| q in qs && x == vm[q];
      var i :| 0 <= i < |qs| && qs[i] == q;
      assert ids[i] == x;
    }
  }

  // ---------------------------------------------------------------------
  // Non-attack pairs

  /** c is the clause [-v1, -v2] of the pair p, q with v1 < v2. */
  ghost predicate PairOf(b: Board, p: Pos, q: Pos, c: Clause)
  {
    && p in VarMap(b) && q in VarMap(b)
    && VarMap(b)[p] < VarMap(b)[q]
    && c == [-VarMap(b)[p], -VarMap(b)[q]]
  }

  lemma {:induction false} PairClausesMembers(b: Board, p: Pos, qs: seq<Pos>, c: Clause)
    requires p in VarMap(b) && forall q :: q in qs ==> q in VarMap(b)
    ensures c in PairClauses(VarMap(b), VarMap(b)[p], qs) <==> exists q :: q in qs && PairOf(b, p, q, c)
  {
    if qs != [] {
      var front, last := qs[..|qs| - 1], qs[|qs| - 1];
      PairClausesMembers(b, p, front, c);
      if exists q :: q in qs && PairOf(b, p, q, c) {
        var q :| q in qs && PairOf(b, p, q, c);
        if q != last {
          assert q in front;
        }
      }
    }
  }

  /** One origin's clauses are duplicate-free when its line of sight is. */
  lemma {:induction false} PairClausesDistinct(b: Board, p: Pos, qs: seq<Pos>)
    requires b.Valid() && p in VarMap(b) && Distinct(qs) && forall q :: q in qs ==> q in VarMap(b)
    ensures Distinct(PairClauses(VarMap(b), VarMap(b)[p], qs))
  {
    if qs != [] {
      var front, last := qs[..|qs| - 1], qs[|qs| - 1];
      var vm := VarMap(b);
      assert Distinct(front) by {
        forall i, j | 0 <= i < j < |front| ensures front[i] != front[j] {
          assert front[i] == qs[i] && front[j] == qs[j];
        }
      }
      PairClausesDistinct(b, p, front);
      forall c | c in PairClauses(vm, vm[p], front)
        ensures c != [-vm[p], -vm[last]]
      {
        PairClausesMembers(b, p, front, c);
        var q :| q in front && PairOf(b, p, q, c);
        var i :| 0 <= i < |front| && front[i] == q;
        assert q == qs[i] && q != last;
        VarMapInjective(b, q, last);
      }
      DistinctConcat(PairClauses(vm, vm[p], front), if vm[p] < vm[last] then [[-vm[p], -vm[last]]] else []);
    }
  }

  lemma PairsOfMembers(b: Board, p: Pos, c: Clause)
    requires b.Valid() && p in VarMap(b)
    ensures c in PairsOf(b, p) <==> exists q :: q in Los(b, p) && PairOf(b, p, q, c)
  {
    LosInMap(b, p);
    PairClausesMembers(b, p, Los(b, p), c);
  }

  /** Every clause emitted for the first k items of the variable map comes
      from one of those items and a cell of its line of sight. */
  lemma {:induction false} NonAttackUpToOrigin(b: Board, k: nat, c: Clause) returns (i: nat, q: Pos)
    requires b.Valid() && k <= NumVars(b) && c in NonAttackUpTo(b, k)
    ensures i < k && q in Los(b, EmptyCells(b)[i]) && PairOf(b, EmptyCells(b)[i], q, c)
  {
    var e := EmptyCells(b);
    assert k > 0;
    EmptyCellsInMap(b);
    assert NonAttackUpTo(b, k) == NonAttackUpTo(b, k - 1) + PairsOf(b, e[k - 1]);
    if c in PairsOf(b, e[k - 1]) {
      PairsOfMembers(b, e[k - 1], c);
      i := k - 1;
      q :| q in Los(b, e[i]) && PairOf(b, e[i], q, c);
    } else {
      i, q := NonAttackUpToOrigin(b, k - 1, c);
    }
  }

  /** Conversely, the clause of such a pair is emitted by the time its item
      has been visited. */
  lemma {:induction false} NonAttackUpToHas(b: Board, k: nat, i: nat, q: Pos, c: Clause)
    requires b.Valid() && i < k <= NumVars(b)
    requires q in Los(b, EmptyCells(b)[i]) && PairOf(b, EmptyCells(b)[i], q, c)
    ensures c in NonAttackUpTo(b, k)
  {
    var e := EmptyCells(b);
    EmptyCellsInMap(b);
    assert NonAttackUpTo(b, k) == NonAttackUpTo(b, k - 1) + PairsOf(b, e[k - 1]);
    if i == k - 1 {
      PairsOfMembers(b, e[i], c);
    } else {
      NonAttackUpToHas(b, k - 1, i, q, c);
    }
  }

  /** The pair of '.' cells, seeing each other, that a non-attack clause
      forbids. */
  lemma NonAttackPair(b: Board, c: Clause) returns (p: Pos, q: Pos)
    requires b.Valid() && c in NonAttack(b)
    ensures IsVarCell(b, p) && IsVarCell(b, q) && Sees(b, p, q) && PairOf(b, p, q, c)
  {
    var i;
    i, q := NonAttackUpToOrigin(b, NumVars(b), c);
    p := EmptyCells(b)[i];
    EmptyCellId(b, i);
    LosMembers(b, p, q);
  }

  /** The clause of a pair of '.' cells that see each other is in the
      non-attack family. */
  lemma PairInNonAttack(b: Board, p: Pos, q: Pos, c: Clause)
    requires IsVarCell(b, p) && IsVarCell(b, q) && Sees(b, p, q) && PairOf(b, p, q, c)
    ensures c in NonAttack(b)
  {
    var e := EmptyCells(b);
    EmptyUpToMembers(b, b.rows, 0, p);
    var i :| 0 <= i < |e| && e[i] == p;
    LosMembers(b, p, q);
    NonAttackUpToHas(b, NumVars(b), i, q, c);
  }

  /** The non-attack family holds exactly the clauses [-v1, -v2], v1 < v2, of
      the pairs of '.' cells that see each other. */
  lemma NonAttackMembers(b: Board, c: Clause)
    requires b.Valid()
    ensures c in NonAttack(b) <==>
            exists p, q :: IsVarCell(b, p) && IsVarCell(b, q) && Sees(b, p, q) && PairOf(b, p, q, c)
  {
    if c in NonAttack(b) {
      var p, q := NonAttackPair(b, c);
    }
    if exists p, q :: IsVarCell(b, p) && IsVarCell(b, q) && Sees(b, p, q) && PairOf(b, p, q, c) {
      var p, q :| IsVarCell(b, p) && IsVarCell(b, q) && Sees(b, p, q) && PairOf(b, p, q, c);
      PairInNonAttack(b, p, q, c);
    }
  }

  /** The clauses of one origin are duplicate-free pairs led by its own
      negated id. */
  lemma PairsOfShape(b: Board, p: Pos)
    requires IsVarCell(b, p) && p in VarMap(b)
    ensures Distinct(PairsOf(b, p))
    ensures forall c :: c in PairsOf(b, p) ==> |c| == 2 && c[0] == -VarMap(b)[p]
  {
    LosInMap(b, p);
    LosDistinct(b, p);
    PairClausesDistinct(b, p, Los(b, p));
    forall c | c in PairsOf(b, p)
      ensures |c| == 2 && c[0] == -VarMap(b)[p]
    {
      PairClausesMembers(b, p, Los(b, p), c);
    }
  }

  /** Every non-attack clause emitted up to the k-th item starts with one of
      the literals -1 .. -k, and none occurs twice. */
  lemma {:induction false} NonAttackUpToDistinct(b: Board, k: nat)
    requires b.Valid() && k <= NumVars(b)
    ensures Distinct(NonAttackUpTo(b, k))
    ensures forall c :: c in NonAttackUpTo(b, k) ==> |c| == 2 && c[0] < 0 && c[0] + k >= 0
  {
    if k > 0 {
      var p := EmptyCells(b)[k - 1];
      EmptyCellId(b, k - 1);
      NonAttackUpToDistinct(b, k - 1);
      var front, block := NonAttackUpTo(b, k - 1), PairsOf(b, p);
      assert NonAttackUpTo(b, k) == front + block;
      PairsOfShape(b, p);
      forall c | c in front
        ensures c !in block
      {
        assert c[0] + (k - 1) >= 0;
      }
      DistinctConcat(front, block);
    }
  }

  /** No non-attack clause occurs twice, so each pair of '.' cells that see
      each other has exactly one clause. */
  lemma NonAttackDistinct(b: Board)
    requires b.Valid()
    ensures Distinct(NonAttack(b))
  {
    NonAttackUpToDistinct(b, NumVars(b));
  }

  // ---------------------------------------------------------------------
  // Coverage

  /** The coverage clauses of the cells of e, in order. */
  function IllumOf(b: Board, e: seq<Pos>): seq<Clause>
    requires b.Valid()
  {
    seq(|e|, k requires 0 <= k < |e| => IllumVars(b, e[k]))
  }

  lemma IllumOfAppend(b: Board, e: seq<Pos>, q: Pos)
    requires b.Valid()
    ensures IllumOf(b, e + [q]) == IllumOf(b, e) + [IllumVars(b, q)]
  {
  }

  lemma {:induction false} CoverageUpTo(b: Board, r: nat, c: nat)
    requires b.Valid() && c <= b.cols
    ensures RowMajor(b.cols, CoveragePiece(b), r, c) == IllumOf(b, EmptyUpTo(b, r, c))
    decreases r, c
  {
    if c > 0 {
      CoverageUpTo(b, r, c - 1);
      var front := EmptyUpTo(b, r, c - 1);
      var q := (r, c - 1);
      assert RowMajor(b.cols, CoveragePiece(b), r, c) == RowMajor(b.cols, CoveragePiece(b), r, c - 1) + CoveragePiece(b)(r, c - 1);
      assert EmptyUpTo(b, r, c) == front + EmptyPiece(b)(r, c - 1);
      if IsVarCell(b, q) {
        IllumOfAppend(b, front, q);
      } else {
        assert EmptyUpTo(b, r, c) == front;
      }
    } else if r > 0 {
      CoverageUpTo(b, r - 1, b.cols);
    }
  }

  /** There is exactly one coverage clause per '.' cell: the k-th clause
      belongs to the k-th cell of the scan, the cell whose id is k + 1. */
  lemma CoverageIndexed(b: Board)
    requires b.Valid()
    ensures |Coverage(b)| == NumVars(b)
    ensures forall k :: 0 <= k < NumVars(b) ==> Coverage(b)[k] == IllumVars(b, EmptyCells(b)[k])
  {
    CoverageUpTo(b, b.rows, 0);
  }

  /** The coverage clause of a '.' cell is non-empty, starts with the cell's
      own variable, repeats no variable, and holds besides exactly the
      variables of the cells the cell sees. */
  lemma IllumVarsShape(b: Board, p: Pos)
    requires IsVarCell(b, p)
    ensures |IllumVars(b, p)| >= 1 && HasId(b, p, IllumVars(b, p)[0])
    ensures Distinct(IllumVars(b, p)) && AllPositive(IllumVars(b, p))
    ensures forall x :: x in IllumVars(b, p) <==>
              HasId(b, p, x) || exists q :: IsVarCell(b, q) && Sees(b, p, q) && HasId(b, q, x)
  {
    var vm := VarMap(b);
    VarMapIds(b);
    LosInMap(b, p);
    LosVarCells(b, p);
    LosDistinct(b, p);
    IdsFacts(b, Los(b, p));
    var own, rest := [vm[p]], Ids(vm, Los(b, p));
    assert IllumVars(b, p) == own + rest;
    VarMapInjective(b, p, p);
    forall x | x in rest
      ensures x != vm[p]
    {
      var q :| q in Los(b, p) && x == vm[q];
      VarMapInjective(b, p, q);
    }
    DistinctConcat(own, rest);
    forall q
      ensures q in Los(b, p) <==> IsVarCell(b, q) && Sees(b, p, q)
    {
      LosMembers(b, p, q);
    }
  }

  // ---------------------------------------------------------------------
  // Walls

  /** Two cells side by side. */
  predicate Adjacent(p: Pos, q: Pos)
  {
    q == (p.0 - 1, p.1) || q == (p.0 + 1, p.1) || q == (p.0, p.1 - 1) || q == (p.0, p.1 + 1)
  }

  /** The neighbour list is the up, down, left and right candidates in turn. */
  lemma NeighborsParts(b: Board, p: Pos)
    ensures Neighbors(b, p) == IdIfCell(b, (p.0 - 1, p.1)) + IdIfCell(b, (p.0 + 1, p.1))
                             + IdIfCell(b, (p.0, p.1 - 1)) + IdIfCell(b, (p.0, p.1 + 1))
  {
    assert NeighborsUpTo(b, p, 1) == IdIfCell(b, (p.0 - 1, p.1));
    assert NeighborsUpTo(b, p, 2) == NeighborsUpTo(b, p, 1) + IdIfCell(b, (p.0 + 1, p.1));
    assert NeighborsUpTo(b, p, 3) == NeighborsUpTo(b, p, 2) + IdIfCell(b, (p.0, p.1 - 1));
  }

  /** A candidate contributes the id of a '.' cell and nothing else. */
  lemma IdIfCellMembers(b: Board, q: Pos, x: int)
    requires b.Valid()
    ensures x in IdIfCell(b, q) <==> IsVarCell(b, q) && HasId(b, q, x)
    ensures x in IdIfCell(b, q) ==> x > 0
  {
    MapCell(b, q);
    if q in VarMap(b) {
      VarMapInjective(b, q, q);
    }
  }

  /** Two different candidates never contribute the same id. */
  lemma IdIfCellDisjoint(b: Board, q1: Pos, q2: Pos, x: int)
    requires b.Valid() && q1 != q2
    ensures !(x in IdIfCell(b, q1) && x in IdIfCell(b, q2))
  {
    if q1 in VarMap(b) && q2 in VarMap(b) {
      VarMapInjective(b, q1, q2);
    }
  }

  /** The neighbour list holds the ids of exactly the '.' cells beside p, each
      once. */
  lemma NeighborsFacts(b: Board, p: Pos)
    requires b.Valid()
    ensures Distinct(Neighbors(b, p)) && AllPositive(Neighbors(b, p))
    ensures forall x :: x in Neighbors(b, p) <==> exists q :: IsVarCell(b, q) && Adjacent(p, q) && HasId(b, q, x)
  {
    var up, down, left, right := (p.0 - 1, p.1), (p.0 + 1, p.1), (p.0, p.1 - 1), (p.0, p.1 + 1);
    var u, d, l, r := IdIfCell(b, up), IdIfCell(b, down), IdIfCell(b, left), IdIfCell(b, right);
    NeighborsParts(b, p);
    forall x
      ensures x in u + d + l + r <==> x in u || x in d || x in l || x in r
      ensures !(x in u && x in d) && !(x in u && x in l) && !(x in u && x in r)
      ensures !(x in d && x in l) && !(x in d && x in r) && !(x in l && x in r)
      ensures x in u + d + l + r ==> x > 0
      ensures x in u + d + l + r <==> exists q :: IsVarCell(b, q) && Adjacent(p, q) && HasId(b, q, x)
    {
      IdIfCellMembers(b, up, x);
      IdIfCellMembers(b, down, x);
      IdIfCellMembers(b, left, x);
      IdIfCellMembers(b, right, x);
      IdIfCellDisjoint(b, up, down, x);
      IdIfCellDisjoint(b, up, left, x);
      IdIfCellDisjoint(b, up, right, x);
      IdIfCellDisjoint(b, down, left, x);
      IdIfCellDisjoint(b, down, right, x);
      IdIfCellDisjoint(b, left, right, x);
      if x in u {
        assert Adjacent(p, up);
      } else if x in d {
        assert Adjacent(p, down);
      } else if x in l {
        assert Adjacent(p, left);
      } else if x in r {
        assert Adjacent(p, right);
      }
    }
    assert |u| <= 1 && |d| <= 1 && |l| <= 1 && |r| <= 1;
    DistinctConcat(u, d);
    DistinctConcat(u + d, l);
    DistinctConcat(u + d + l, r);
    forall i | 0 <= i < |u + d + l + r|
      ensures (u + d + l + r)[i] > 0
    {
      assert (u + d + l + r)[i] in u + d + l + r;
    }
  }

  /** Each clause of a wall with clue N and K free neighbours: the (N+1)-
      clauses are all negative, the (K-N+1)-clauses all positive. */
  lemma WallShape(b: Board, p: Pos)
    requires IsWallCell(b, p) && !TooFew(b, p)
    ensures var nb, n := Neighbors(b, p), Clue(b, p);
            && WallClauses(b, p) == AtMostClauses(nb, n) + AtLeastClauses(nb, n)
            && (forall c :: c in AtMostClauses(nb, n) ==> |c| == n + 1 && forall i :: 0 <= i < |c| ==> c[i] < 0)
            && (forall c :: c in AtLeastClauses(nb, n) ==> |c| == |nb| - n + 1 && AllPositive(c))
  {
    var nb, n := Neighbors(b, p), Clue(b, p);
    NeighborsFacts(b, p);
    AtMostShape(nb, n);
    AtLeastShape(nb, n);
  }

  /** A wall with clue N and K free neighbours contributes C(K, N+1) +
      C(K, K-N+1) clauses. */
  lemma WallCount(b: Board, p: Pos)
    requires IsWallCell(b, p) && !TooFew(b, p)
    ensures var nb, n := Neighbors(b, p), Clue(b, p);
            |WallClauses(b, p)| == Choose(|nb|, n + 1) + Choose(|nb|, |nb| - n + 1)
  {
    var nb, n := Neighbors(b, p), Clue(b, p);
    AtMostCount(nb, n);
    AtLeastCount(nb, n);
  }

  /** A wall whose clue is one more than its free neighbours contributes the
      empty clause, so no assignment satisfies the formula. */
  lemma WallEmptyClause(b: Board, p: Pos, t: set<int>)
    requires IsWallCell(b, p) && Clue(b, p) == |Neighbors(b, p)| + 1
    ensures [] in Cnf(b) && !SatAll(Cnf(b), t)
  {
    var nb, n := Neighbors(b, p), Clue(b, p);
    assert AtLeastClauses(nb, n) == [[]];
    assert [] in WallClauses(b, p);
    assert [] in WallPiece(b)(p.0, p.1);
    RowMajorMembers(b.cols, WallPiece(b), b.rows, 0, []);
    assert [] in Walls(b);
    assert !SatClause([], t);
  }

  /** Each clause of a wall that is not bad is in the wall family. */
  lemma WallInWalls(b: Board, p: Pos, c: Clause)
    requires b.Valid() && IsWallCell(b, p) && !TooFew(b, p) && c in WallClauses(b, p)
    ensures c in Walls(b)
  {
    assert c in WallPiece(b)(p.0, p.1);
    RowMajorMembers(b.cols, WallPiece(b), b.rows, 0, c);
  }

  /** The wall that contributed a clause of the wall family. */
  lemma WallOf(b: Board, c: Clause) returns (p: Pos)
    requires b.Valid() && c in Walls(b)
    ensures IsWallCell(b, p) && !TooFew(b, p) && c in WallClauses(b, p)
  {
    RowMajorMembers(b.cols, WallPiece(b), b.rows, 0, c);
    var i, j :| 0 <= i && 0 <= j < b.cols && Before(i, j, b.rows, 0) && c in WallPiece(b)(i, j);
    p := (i, j);
  }

  /** The wall family holds exactly the clauses of the walls. */
  lemma WallsMembers(b: Board, c: Clause)
    requires b.Valid()
    ensures c in Walls(b) <==> exists i, j :: IsWallCell(b, (i, j)) && !TooFew(b, (i, j)) && c in WallClauses(b, (i, j))
  {
    if c in Walls(b) {
      var p := WallOf(b, c);
      assert IsWallCell(b, (p.0, p.1));
    }
    if exists i, j :: IsWallCell(b, (i, j)) && !TooFew(b, (i, j)) && c in WallClauses(b, (i, j)) {
      var i, j :| IsWallCell(b, (i, j)) && !TooFew(b, (i, j)) && c in WallClauses(b, (i, j));
      WallInWalls(b, (i, j), c);
    }
  }

  /** The coverage family holds exactly the clauses of the '.' cells. */
  lemma CoverageMembers(b: Board, c: Clause)
    requires b.Valid()
    ensures c in Coverage(b) <==> exists p :: IsVarCell(b, p) && c == IllumVars(b, p)
  {
    RowMajorMembers(b.cols, CoveragePiece(b), b.rows, 0, c);
    if exists p :: IsVarCell(b, p) && c == IllumVars(b, p) {
      var p :| IsVarCell(b, p) && c == IllumVars(b, p);
      assert c in CoveragePiece(b)(p.0, p.1);
    }
  }

  /** Ids lie in 1..n. */
  lemma IdInRange(b: Board, q: Pos)
    requires b.Valid() && q in VarMap(b)
    ensures VarMap(b)[q] in Range(NumVars(b))
  {
    VarMapValues(b);
    assert VarMap(b)[q] in VarMap(b).Values;
  }

  /** Every literal of the formula is non-zero and names one of the ids 1..n. */
  lemma LiteralBounds(b: Board)
    requires b.Valid()
    ensures VarsWithin(Cnf(b), Range(NumVars(b)))
  {
    NonAttackBounds(b);
    CoverageBounds(b);
    WallsBounds(b);
    var a, c, w := NonAttack(b), Coverage(b), Walls(b);
    assert forall x :: x in a + c + w <==> x in a || x in c || x in w;
  }

  lemma NonAttackBounds(b: Board)
    requires b.Valid()
    ensures VarsWithin(NonAttack(b), Range(NumVars(b)))
  {
    forall c, l | c in NonAttack(b) && l in c
      ensures l != 0 && Abs(l) in Range(NumVars(b))
    {
      var p, q := NonAttackPair(b, c);
      IdInRange(b, p);
      IdInRange(b, q);
    }
  }

  lemma CoverageBounds(b: Board)
    requires b.Valid()
    ensures VarsWithin(Coverage(b), Range(NumVars(b)))
  {
    forall c, l | c in Coverage(b) && l in c
      ensures l != 0 && Abs(l) in Range(NumVars(b))
    {
      CoverageMembers(b, c);
      var p :| IsVarCell(b, p) && c == IllumVars(b, p);
      IllumVarsShape(b, p);
      if HasId(b, p, l) {
        IdInRange(b, p);
      } else {
        var q :| IsVarCell(b, q) && Sees(b, p, q) && HasId(b, q, l);
        IdInRange(b, q);
      }
    }
  }

  lemma WallsBounds(b: Board)
    requires b.Valid()
    ensures VarsWithin(Walls(b), Range(NumVars(b)))
  {
    forall c, l | c in Walls(b) && l in c
      ensures l != 0 && Abs(l) in Range(NumVars(b))
    {
      var p := WallOf(b, c);
      WallLiteral(b, p, c, l);
    }
  }

  lemma WallLiteral(b: Board, p: Pos, c: Clause, l: int)
    requires IsWallCell(b, p) && !TooFew(b, p) && c in WallClauses(b, p) && l in c
    ensures l != 0 && Abs(l) in Range(NumVars(b))
  {
    var nb, n := Neighbors(b, p), Clue(b, p);
    NeighborsFacts(b, p);
    assert Abs(l) in nb by {
      var combos := Combinations(nb, n + 1);
      CombinationsSubset(nb, n + 1);
      CombinationsSubset(nb, |nb| - n + 1);
      if c in AtMostClauses(nb, n) {
        var j :| 0 <= j < |combos| && AtMostClauses(nb, n)[j] == c;
        var i :| 0 <= i < |c| && c[i] == l;
        assert combos[j] in combos && combos[j][i] in combos[j];
      }
    }
    var q :| IsVarCell(b, q) && Adjacent(p, q) && HasId(b, q, Abs(l));
    IdInRange(b, q);
  }
}
