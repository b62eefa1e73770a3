// Line of sight: from a cell, walk up, down, left and right until the boundary
// or the first opaque cell, collecting the '.' cells passed on the way.
module Visibility {
  import opened Grid
  import opened Allocation

  predicate IsDir(dr: int, dc: int)
  {
    (dr, dc) in Dirs
  }

  /** How many cells a walk from (r, c) in direction (dr, dc) can still visit. */
  function StepsLeft(b: Board, r: int, c: int, dr: int, dc: int): int
  {
    if dr == 1 then b.rows - r
    else if dr == -1 then r + 1
    else if dc == 1 then b.cols - c
    else c + 1
  }

  /** The '.' cells met when walking from (r, c) in direction (dr, dc),
      (r, c) included, until the boundary or an opaque cell. */
  function Walk(b: Board, r: int, c: int, dr: int, dc: int): seq<Pos>
    requires b.Valid() && IsDir(dr, dc)
    decreases StepsLeft(b, r, c, dr, dc)
  {
    if !InBounds(b, r, c) || IsOpaque(b.cells[r][c]) then []
    else (if b.cells[r][c] == '.' then [(r, c)] else []) + Walk(b, r + dr, c + dc, dr, dc)
  }

  /** The walks from the neighbours of (r, c) in the first k directions. */
  function LosUpTo(b: Board, r: int, c: int, k: nat): seq<Pos>
    requires b.Valid() && k <= |Dirs|
  {
    if k == 0 then []
    else
      var (dr, dc) := Dirs[k - 1];
      LosUpTo(b, r, c, k - 1) + Walk(b, r + dr, c + dc, dr, dc)
  }

  /** Everything the generator yields for origin p, in order. */
  function Los(b: Board, p: Pos): seq<Pos>
    requires b.Valid()
  {
    LosUpTo(b, p.0, p.1, |Dirs|)
  }

  /** One step of a walk over a cell that does not block it: the cell is
      yielded exactly when it has a variable. */
  lemma WalkStep(b: Board, r: int, c: int, dr: int, dc: int)
    requires b.Valid() && IsDir(dr, dc) && InBounds(b, r, c) && !IsOpaque(b.cells[r][c])
    ensures (r, c) in VarMap(b) ==> Walk(b, r, c, dr, dc) == [(r, c)] + Walk(b, r + dr, c + dc, dr, dc)
    ensures (r, c) !in VarMap(b) ==> Walk(b, r, c, dr, dc) == Walk(b, r + dr, c + dc, dr, dc)
  {
    MapCell(b, (r, c));
  }

  /** The generator of lines of sight: the four walks, each stepping until it
      leaves the board or meets an opaque cell, yielding the cells that have a
      variable. */
  method LineOfSight(b: Board, varMap: map<Pos, int>, r: int, c: int) returns (cells: seq<Pos>)
    requires b.Valid() && varMap == VarMap(b)
    ensures cells == Los(b, (r, c))
  {
    cells := [];
    for k := 0 to |Dirs|
      invariant cells == LosUpTo(b, r, c, k)
    {
      var (dr, dc) := Dirs[k];
      var nr, nc := r + dr, c + dc;
      while InBounds(b, nr, nc) && !IsOpaque(b.cells[nr][nc])
        invariant cells + Walk(b, nr, nc, dr, dc) == LosUpTo(b, r, c, k + 1)
        decreases StepsLeft(b, nr, nc, dr, dc)
      {
        WalkStep(b, nr, nc, dr, dc);
        if (nr, nc) in varMap {
          AppendStep(cells, [(nr, nc)], Walk(b, nr + dr, nc + dc, dr, dc), Walk(b, nr, nc, dr, dc), LosUpTo(b, r, c, k + 1));
          cells := cells + [(nr, nc)];
        }
        nr, nc := nr + dr, nc + dc;
      }
    }
  }

  /** x lies strictly between a and z. */
  predicate Between(a: int, x: int, z: int)
  {
    a < x < z || z < x < a
  }

  /** No opaque cell lies strictly between p and q on their common row or column. */
  ghost predicate Clear(b: Board, p: Pos, q: Pos)
    requires b.Valid() && InBounds(b, p.0, p.1) && InBounds(b, q.0, q.1)
  {
    && (p.0 == q.0 ==> forall y :: Between(p.1, y, q.1) ==> !IsOpaque(b.cells[p.0][y]))
    && (p.1 == q.1 ==> forall x :: Between(p.0, x, q.0) ==> !IsOpaque(b.cells[x][p.1]))
  }

  /** p and q are distinct cells on one row or column with nothing opaque between them. */
  ghost predicate Sees(b: Board, p: Pos, q: Pos)
  {
    && b.Valid() && InBounds(b, p.0, p.1) && InBounds(b, q.0, q.1)
    && p != q && (p.0 == q.0 || p.1 == q.1)
    && Clear(b, p, q)
  }

  /** q lies beyond p in direction (dr, dc). */
  predicate Ahead(p: Pos, q: Pos, dr: int, dc: int)
  {
    if dr == -1 then q.1 == p.1 && q.0 < p.0
    else if dr == 1 then q.1 == p.1 && q.0 > p.0
    else if dc == -1 then q.0 == p.0 && q.1 < p.1
    else q.0 == p.0 && q.1 > p.1
  }

  /** The walk that starts next to o yields exactly the '.' cells beyond o in
      its direction that o sees. */
  lemma {:induction false} WalkMembers(b: Board, o: Pos, dr: int, dc: int, q: Pos)
    requires b.Valid() && IsDir(dr, dc) && InBounds(b, o.0, o.1)
    ensures q in Walk(b, o.0 + dr, o.1 + dc, dr, dc) <==>
            IsVarCell(b, q) && Ahead(o, q, dr, dc) && Clear(b, o, q)
    decreases StepsLeft(b, o.0 + dr, o.1 + dc, dr, dc)
  {
    var s := (o.0 + dr, o.1 + dc);
    if !InBounds(b, s.0, s.1) || IsOpaque(b.cells[s.0][s.1]) {
      if IsVarCell(b, q) && Ahead(o, q, dr, dc) {
        assert InBounds(b, s.0, s.1) && q != s;
        assert if dr != 0 then Between(o.0, s.0, q.0) else Between(o.1, s.1, q.1);
      }
    } else {
      WalkMembers(b, s, dr, dc, q);
      if IsVarCell(b, q) && Ahead(o, q, dr, dc) && q != s {
        assert Ahead(s, q, dr, dc);
      }
    }
  }

  /** The generator's output is the four walks, up, down, left, right. */
  lemma LosParts(b: Board, p: Pos)
    requires b.Valid()
    ensures Los(b, p) == Walk(b, p.0 - 1, p.1, -1, 0) + Walk(b, p.0 + 1, p.1, 1, 0)
                       + Walk(b, p.0, p.1 - 1, 0, -1) + Walk(b, p.0, p.1 + 1, 0, 1)
  {
    assert LosUpTo(b, p.0, p.1, 1) == Walk(b, p.0 - 1, p.1, -1, 0);
    assert LosUpTo(b, p.0, p.1, 2) == LosUpTo(b, p.0, p.1, 1) + Walk(b, p.0 + 1, p.1, 1, 0);
    assert LosUpTo(b, p.0, p.1, 3) == LosUpTo(b, p.0, p.1, 2) + Walk(b, p.0, p.1 - 1, 0, -1);
  }

  /** The line of sight of p holds exactly the '.' cells that p sees; in
      particular never p itself. */
  lemma LosMembers(b: Board, p: Pos, q: Pos)
    requires b.Valid() && InBounds(b, p.0, p.1)
    ensures q in Los(b, p) <==> IsVarCell(b, q) && Sees(b, p, q)
  {
    LosParts(b, p);
    WalkMembers(b, p, -1, 0, q);
    WalkMembers(b, p, 1, 0, q);
    WalkMembers(b, p, 0, -1, q);
    WalkMembers(b, p, 0, 1, q);
  }

  /** A walk never yields a cell twice. */
  lemma {:induction false} WalkDistinct(b: Board, o: Pos, dr: int, dc: int)
    requires b.Valid() && IsDir(dr, dc) && InBounds(b, o.0, o.1)
    ensures Distinct(Walk(b, o.0 + dr, o.1 + dc, dr, dc))
    decreases StepsLeft(b, o.0 + dr, o.1 + dc, dr, dc)
  {
    var s := (o.0 + dr, o.1 + dc);
    if InBounds(b, s.0, s.1) && !IsOpaque(b.cells[s.0][s.1]) {
      var rest := Walk(b, s.0 + dr, s.1 + dc, dr, dc);
      WalkDistinct(b, s, dr, dc);
      forall x | x in rest
        ensures x != s
      {
        WalkMembers(b, s, dr, dc, x);
      }
      DistinctConcat(if b.cells[s.0][s.1] == '.' then [s] else [], rest);
    }
  }

  /** Every cell a walk yields lies beyond its origin in the walk's direction. */
  lemma WalkAhead(b: Board, o: Pos, r: int, c: int, dr: int, dc: int)
    requires b.Valid() && IsDir(dr, dc) && InBounds(b, o.0, o.1) && r == o.0 + dr && c == o.1 + dc
    ensures forall x :: x in Walk(b, r, c, dr, dc) ==> Ahead(o, x, dr, dc)
  {
    forall x | x in Walk(b, r, c, dr, dc)
      ensures Ahead(o, x, dr, dc)
    {
      WalkMembers(b, o, dr, dc, x);
    }
  }

  /** The generator never yields a cell twice. */
  lemma LosDistinct(b: Board, p: Pos)
    requires b.Valid() && InBounds(b, p.0, p.1)
    ensures Distinct(Los(b, p))
  {
    var up, down := Walk(b, p.0 - 1, p.1, -1, 0), Walk(b, p.0 + 1, p.1, 1, 0);
    var left, right := Walk(b, p.0, p.1 - 1, 0, -1), Walk(b, p.0, p.1 + 1, 0, 1);
    LosParts(b, p);
    WalkDistinct(b, p, -1, 0);
    WalkDistinct(b, p, 1, 0);
    WalkDistinct(b, p, 0, -1);
    WalkDistinct(b, p, 0, 1);
    WalkAhead(b, p, p.0 - 1, p.1, -1, 0);
    WalkAhead(b, p, p.0 + 1, p.1, 1, 0);
    WalkAhead(b, p, p.0, p.1 - 1, 0, -1);
    WalkAhead(b, p, p.0, p.1 + 1, 0, 1);
    DistinctConcat(up, down);
    forall x | x in up + down
      ensures x !in left
    {
      assert x in up || x in down;
    }
    DistinctConcat(up + down, left);
    forall x | x in up + down + left
      ensures x !in right
    {
      assert x in up || x in down || x in left;
    }
    DistinctConcat(up + down + left, right);
  }

  /** Seeing is symmetric. */
  lemma SeesSymmetric(b: Board, p: Pos, q: Pos)
    requires Sees(b, p, q)
    ensures Sees(b, q, p)
  {
  }

  /** Line of sight is symmetric between '.' cells. */
  lemma LosSymmetric(b: Board, p: Pos, q: Pos)
    requires IsVarCell(b, p) && IsVarCell(b, q)
    ensures q in Los(b, p) <==> p in Los(b, q)
  {
    LosMembers(b, p, q);
    LosMembers(b, q, p);
  }

  /** A walk yields only '.' cells. */
  lemma {:induction false} WalkVarCells(b: Board, r: int, c: int, dr: int, dc: int)
    requires b.Valid() && IsDir(dr, dc)
    ensures forall q :: q in Walk(b, r, c, dr, dc) ==> IsVarCell(b, q)
    decreases StepsLeft(b, r, c, dr, dc)
  {
    if InBounds(b, r, c) && !IsOpaque(b.cells[r][c]) {
      WalkVarCells(b, r + dr, c + dc, dr, dc);
    }
  }

  /** Whatever the origin, the generator yields only cells that have a
      variable, and never the origin itself. */
  lemma LosVarCells(b: Board, p: Pos)
    requires b.Valid()
    ensures forall q :: q in Los(b, p) ==> IsVarCell(b, q) && q != p
  {
    LosParts(b, p);
    WalkVarCells(b, p.0 - 1, p.1, -1, 0);
    WalkVarCells(b, p.0 + 1, p.1, 1, 0);
    WalkVarCells(b, p.0, p.1 - 1, 0, -1);
    WalkVarCells(b, p.0, p.1 + 1, 0, 1);
    if InBounds(b, p.0, p.1) {
      forall q | q in Los(b, p)
        ensures q != p
      {
        LosMembers(b, p, q);
      }
    }
  }
}
