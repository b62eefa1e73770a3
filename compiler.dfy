// The puzzle-to-CNF compiler: the non-attack pairs, one coverage clause per
// '.' cell, and the exact-N-of-K encoding of every numbered wall. Each family
// is specified by a function and built by a method with the loops of the
// Python solver.
module Compiler {
  import opened Grid
  import opened Allocation
  import opened Visibility
  import opened Formula
  import opened Combinatorics

  datatype Result<T> = Ok(value: T) | Err(msg: string)

  // ---------------------------------------------------------------------
  // Non-attack pairs

  /** [-v1, -v2] for every q of qs, in order, whose id v2 exceeds v1. */
  function PairClauses(vm: map<Pos, int>, v1: int, qs: seq<Pos>): seq<Clause>
    requires forall q :: q in qs ==> q in vm
  {
    if qs == [] then []
    else
      var q := qs[|qs| - 1];
      PairClauses(vm, v1, qs[..|qs| - 1]) + (if v1 < vm[q] then [[-v1, -vm[q]]] else [])
  }

  /** The clauses for the first m + 1 cells of qs, appended to done, extend
      those for the first m cells by the clause of the (m + 1)-th, if any. */
  lemma PairClausesSnoc(vm: map<Pos, int>, v1: int, qs: seq<Pos>, m: nat, done: seq<Clause>)
    requires m < |qs| && forall q :: q in qs ==> q in vm
    ensures forall q :: q in qs[..m] ==> q in vm
    ensures forall q :: q in qs[..m + 1] ==> q in vm
    ensures v1 < vm[qs[m]] ==> done + PairClauses(vm, v1, qs[..m + 1]) == (done + PairClauses(vm, v1, qs[..m])) + [[-v1, -vm[qs[m]]]]
    ensures v1 >= vm[qs[m]] ==> done + PairClauses(vm, v1, qs[..m + 1]) == done + PairClauses(vm, v1, qs[..m])
  {
    assert qs[..m + 1][..m] == qs[..m];
    SnocStep(done, PairClauses(vm, v1, qs[..m]), if v1 < vm[qs[m]] then [[-v1, -vm[qs[m]]]] else [],
             PairClauses(vm, v1, qs[..m + 1]));
  }

  /** What the non-attack loop has emitted after the first k items of the
      variable map (which lists the '.' cells in row-major order). */
  function NonAttackUpTo(b: Board, k: nat): seq<Clause>
    requires b.Valid() && k <= NumVars(b)
  {
    if k == 0 then []
    else
      EmptyCellsInMap(b);
      NonAttackUpTo(b, k - 1) + PairsOf(b, EmptyCells(b)[k - 1])
  }

  /** The clauses emitted for the item (p, v1) of the variable map. */
  function PairsOf(b: Board, p: Pos): seq<Clause>
    requires b.Valid() && p in VarMap(b)
  {
    LosInMap(b, p);
    PairClauses(VarMap(b), VarMap(b)[p], Los(b, p))
  }

  lemma EmptyCellsInMap(b: Board)
    requires b.Valid()
    ensures forall k :: 0 <= k < NumVars(b) ==> EmptyCells(b)[k] in VarMap(b)
  {
    VarMapIds(b);
  }

  lemma LosInMap(b: Board, p: Pos)
    requires b.Valid()
    ensures forall q :: q in Los(b, p) ==> q in VarMap(b)
  {
    VarMapIds(b);
    LosVarCells(b, p);
  }

  function NonAttack(b: Board): seq<Clause>
    requires b.Valid()
  {
    NonAttackUpTo(b, NumVars(b))
  }

  /** For each (cell, v1) of the variable map and each cell of its line of
      sight with a larger id v2, the clause [-v1, -v2]. */
  method BuildNonAttack(b: Board, varMap: map<Pos, int>, order: seq<Pos>) returns (cnf: seq<Clause>)
    requires b.Valid() && varMap == VarMap(b) && order == EmptyCells(b)
    ensures cnf == NonAttack(b)
  {
    EmptyCellsInMap(b);
    cnf := [];
    for k := 0 to |order|
      invariant cnf == NonAttackUpTo(b, k)
    {
      var p := order[k];
      var v1 := varMap[p];
      var sight := LineOfSight(b, varMap, p.0, p.1);
      assert (p.0, p.1) == p;
      LosInMap(b, p);
      ghost var done := cnf;
      for m := 0 to |sight|
        invariant cnf == done + PairClauses(varMap, v1, sight[..m])
      {
        var q := sight[m];
        var v2 := varMap[q];
        PairClausesSnoc(varMap, v1, sight, m, done);
        if v1 < v2 {
          assert v2 == varMap[sight[m]];
          cnf := cnf + [[-v1, -v2]];
          assert cnf == (done + PairClauses(varMap, v1, sight[..m])) + [[-v1, -varMap[sight[m]]]];
          assert cnf == done + PairClauses(varMap, v1, sight[..m + 1]);
        } else {
          assert cnf == done + PairClauses(varMap, v1, sight[..m + 1]);
        }
      }
      assert sight[..|sight|] == sight;
    }
  }

  // ---------------------------------------------------------------------
  // Coverage

  /** The ids of the cells qs, in order. */
  function Ids(vm: map<Pos, int>, qs: seq<Pos>): seq<int>
    requires forall q :: q in qs ==> q in vm
  {
    seq(|qs|, i requires 0 <= i < |qs| => vm[qs[i]])
  }

  /** The variables that can light (r, c): its own when it has one, then
      those of its line of sight. */
  function IllumVars(b: Board, p: Pos): seq<int>
    requires b.Valid()
  {
    LosInMap(b, p);
    (if p in VarMap(b) then [VarMap(b)[p]] else []) + Ids(VarMap(b), Los(b, p))
  }

  /** The list builder for one cell. It skips line-of-sight cells equal to
      the origin, which never occur, so the filter changes nothing. */
  method IlluminatedVars(b: Board, varMap: map<Pos, int>, r: int, c: int) returns (vars: seq<int>)
    requires b.Valid() && varMap == VarMap(b)
    ensures vars == IllumVars(b, (r, c))
  {
    vars := [];
    if (r, c) in varMap {
      vars := vars + [varMap[(r, c)]];
    }
    var own := vars;
    var sight := LineOfSight(b, varMap, r, c);
    LosInMap(b, (r, c));
    LosVarCells(b, (r, c));
    for m := 0 to |sight|
      invariant vars == own + Ids(varMap, sight[..m])
    {
      var q := sight[m];
      assert q in Los(b, (r, c));
      assert Ids(varMap, sight[..m + 1]) == Ids(varMap, sight[..m]) + [varMap[q]];
      if q != (r, c) {
        vars := vars + [varMap[q]];
      }
      assert vars == own + (Ids(varMap, sight[..m]) + [varMap[q]]);
    }
    assert sight[..|sight|] == sight;
  }

  function CoveragePiece(b: Board): (int, int) -> seq<Clause>
  {
    (i, j) => if IsVarCell(b, (i, j)) then [IllumVars(b, (i, j))] else []
  }

  /** One clause per '.' cell, in row-major order. */
  function Coverage(b: Board): seq<Clause>
    requires b.Valid()
  {
    RowMajor(b.cols, CoveragePiece(b), b.rows, 0)
  }

  method BuildCoverage(b: Board, varMap: map<Pos, int>) returns (cnf: seq<Clause>)
    requires b.Valid() && varMap == VarMap(b)
    ensures cnf == Coverage(b)
  {
    cnf := [];
    for r := 0 to b.rows
      invariant cnf == RowMajor(b.cols, CoveragePiece(b), r, 0)
    {
      for c := 0 to b.cols
        invariant cnf == RowMajor(b.cols, CoveragePiece(b), r, c)
      {
        if b.cells[r][c] == '.' {
          var clause := IlluminatedVars(b, varMap, r, c);
          cnf := cnf + [clause];
        }
      }
    }
  }

  // ---------------------------------------------------------------------
  // Numbered walls

  /** The id of q when q is an in-bounds '.' cell, as a list of at most one. */
  function IdIfCell(b: Board, q: Pos): seq<int>
  {
    if InBounds(b, q.0, q.1) && q in VarMap(b) then [VarMap(b)[q]] else []
  }

  /** The ids of the '.' cells among the first k orthogonal neighbours of p. */
  function NeighborsUpTo(b: Board, p: Pos, k: nat): seq<int>
    requires k <= |Dirs|
  {
    if k == 0 then []
    else NeighborsUpTo(b, p, k - 1) + IdIfCell(b, (p.0 + Dirs[k - 1].0, p.1 + Dirs[k - 1].1))
  }

  /** The ids of p's '.' neighbours, up, down, left, right. */
  function Neighbors(b: Board, p: Pos): seq<int>
  {
    NeighborsUpTo(b, p, |Dirs|)
  }

  method WallNeighbors(b: Board, varMap: map<Pos, int>, r: int, c: int) returns (neighbors: seq<int>)
    requires varMap == VarMap(b)
    ensures neighbors == Neighbors(b, (r, c))
  {
    neighbors := [];
    for k := 0 to |Dirs|
      invariant neighbors == NeighborsUpTo(b, (r, c), k)
    {
      var (dr, dc) := Dirs[k];
      var nr, nc := r + dr, c + dc;
      if InBounds(b, nr, nc) && (nr, nc) in varMap {
        neighbors := neighbors + [varMap[(nr, nc)]];
      }
    }
  }

  /** The number a wall demands. */
  function Clue(b: Board, p: Pos): nat
    requires IsWallCell(b, p)
  {
    Digit(b.cells[p.0][p.1])
  }

  /** A wall demanding more than one bulb beyond its free neighbours: the
      "at least" family would need selections of negative size. */
  predicate TooFew(b: Board, p: Pos)
    requires IsWallCell(b, p)
  {
    Clue(b, p) > |Neighbors(b, p)| + 1
  }

  ghost predicate HasBadWall(b: Board)
  {
    exists i, j :: IsWallCell(b, (i, j)) && TooFew(b, (i, j))
  }

  /** The at-most and at-least families of one wall. */
  function WallClauses(b: Board, p: Pos): seq<Clause>
    requires IsWallCell(b, p) && !TooFew(b, p)
  {
    var nb, n := Neighbors(b, p), Clue(b, p);
    AtMostClauses(nb, n) + AtLeastClauses(nb, n)
  }

  function WallPiece(b: Board): (int, int) -> seq<Clause>
  {
    (i, j) => if IsWallCell(b, (i, j)) && !TooFew(b, (i, j)) then WallClauses(b, (i, j)) else []
  }

  /** The wall clauses, wall by wall in row-major order. */
  function Walls(b: Board): seq<Clause>
    requires b.Valid()
  {
    RowMajor(b.cols, WallPiece(b), b.rows, 0)
  }

  /** No wall before (r, c) is a bad one. */
  ghost predicate NoBadWallBefore(b: Board, r: int, c: int)
  {
    forall i, j :: IsWallCell(b, (i, j)) && Before(i, j, r, c) ==> !TooFew(b, (i, j))
  }

  lemma NoBadWallStep(b: Board, r: int, c: int)
    requires b.Valid() && 0 <= c < b.cols && NoBadWallBefore(b, r, c)
    requires IsWallCell(b, (r, c)) ==> !TooFew(b, (r, c))
    ensures NoBadWallBefore(b, r, c + 1)
    ensures c + 1 == b.cols ==> NoBadWallBefore(b, r + 1, 0)
  {
    forall i, j | IsWallCell(b, (i, j)) && Before(i, j, r, c + 1)
      ensures !TooFew(b, (i, j))
    {
      if (i, j) != (r, c) {
        assert Before(i, j, r, c);
      }
    }
    if c + 1 == b.cols {
      forall i, j | IsWallCell(b, (i, j)) && Before(i, j, r + 1, 0)
        ensures !TooFew(b, (i, j))
      {
        assert Before(i, j, r, c + 1);
      }
    }
  }

  lemma NoBadWallAll(b: Board)
    requires b.Valid() && NoBadWallBefore(b, b.rows, 0)
    ensures !HasBadWall(b)
  {
  }

  /** The clauses of the wall at (r, c): every (N+1)-selection of its
      neighbours negated, then every (K-N+1)-selection as it is. A negative
      selection size is an error. */
  method WallClausesAt(b: Board, varMap: map<Pos, int>, r: int, c: int) returns (res: Result<seq<Clause>>)
    requires IsWallCell(b, (r, c)) && varMap == VarMap(b)
    ensures res.Ok? <==> !TooFew(b, (r, c))
    ensures res.Ok? ==> res.value == WallClauses(b, (r, c))
  {
    var cnf := [];
    var n := Digit(b.cells[r][c]);
    var neighbors := WallNeighbors(b, varMap, r, c);
    var atMost := Combinations(neighbors, n + 1);
    for i := 0 to |atMost|
      invariant |cnf| == i && forall k :: 0 <= k < i ==> cnf[k] == Negated(atMost[k])
    {
      cnf := cnf + [Negated(atMost[i])];
    }
    assert cnf == AtMostClauses(neighbors, n);
    if |neighbors| - n + 1 < 0 {
      return Err("r must be non-negative");
    }
    var atLeast := Combinations(neighbors, |neighbors| - n + 1);
    for i := 0 to |atLeast|
      invariant cnf == AtMostClauses(neighbors, n) + atLeast[..i]
    {
      cnf := cnf + [atLeast[i]];
    }
    assert atLeast[..|atLeast|] == atLeast;
    return Ok(cnf);
  }

  /** The wall loop; the first bad wall abandons the whole compilation. */
  method BuildWalls(b: Board, varMap: map<Pos, int>) returns (res: Result<seq<Clause>>)
    requires b.Valid() && varMap == VarMap(b)
    ensures res.Ok? <==> !HasBadWall(b)
    ensures res.Ok? ==> res.value == Walls(b)
  {
    var cnf := [];
    for r := 0 to b.rows
      invariant cnf == RowMajor(b.cols, WallPiece(b), r, 0)
      invariant NoBadWallBefore(b, r, 0)
    {
      for c := 0 to b.cols
        invariant cnf == RowMajor(b.cols, WallPiece(b), r, c)
        invariant NoBadWallBefore(b, r, c)
      {
        if IsNumber(b.cells[r][c]) {
          var wall := WallClausesAt(b, varMap, r, c);
          if wall.Err? {
            assert IsWallCell(b, (r, c)) && TooFew(b, (r, c));
            return Err(wall.msg);
          }
          cnf := cnf + wall.value;
        }
        NoBadWallStep(b, r, c);
      }
    }
    NoBadWallAll(b);
    return Ok(cnf);
  }

  // ---------------------------------------------------------------------
  // The whole formula

  function Cnf(b: Board): seq<Clause>
    requires b.Valid()
  {
    NonAttack(b) + Coverage(b) + Walls(b)
  }

  /** The three families in the order the compiler appends them. */
  method BuildCnf(b: Board, varMap: map<Pos, int>, order: seq<Pos>) returns (res: Result<seq<Clause>>)
    requires b.Valid() && varMap == VarMap(b) && order == EmptyCells(b)
    ensures res.Ok? <==> !HasBadWall(b)
    ensures res.Ok? ==> res.value == Cnf(b)
  {
    var nonAttack := BuildNonAttack(b, varMap, order);
    var coverage := BuildCoverage(b, varMap);
    var walls := BuildWalls(b, varMap);
    if walls.Err? {
      return Err(walls.msg);
    }
    return Ok(nonAttack + coverage + walls.value);
  }
}
