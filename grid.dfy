// The puzzle board as the solver reads it, and the row-major scan that every
// stage of the compiler performs over it.
module Grid {

  /** A cell coordinate (row, column). */
  type Pos = (int, int)

  /** A rows x cols grid of one-character cell tags: '.' is a cell that may hold
      a bulb, '0'..'4' a numbered wall, 'B' a plain wall; any other tag (the
      editor stores 'w' and 's') lets light through and never holds a bulb. */
  datatype Board = Board(rows: nat, cols: nat, cells: seq<seq<char>>)
  {
    predicate Valid()
    {
      |cells| == rows && forall r :: 0 <= r < rows ==> |cells[r]| == cols
    }
  }

  predicate InBounds(b: Board, r: int, c: int)
  {
    0 <= r < b.rows && 0 <= c < b.cols
  }

  /** Tags that stop a line of sight: the numbered walls and 'B'. */
  predicate IsOpaque(ch: char)
  {
    IsNumber(ch) || ch == 'B'
  }

  /** Tags of numbered walls: '0' to '4'. */
  predicate IsNumber(ch: char)
  {
    ch == '0' || ch == '1' || ch == '2' || ch == '3' || ch == '4'
  }

  /** The count a numbered wall demands. */
  function Digit(ch: char): (n: nat)
    requires IsNumber(ch)
    ensures n <= 4
  {
    (ch as int) - ('0' as int)
  }

  /** A cell that gets a boolean variable: an in-bounds '.' cell. */
  predicate IsVarCell(b: Board, p: Pos)
  {
    b.Valid() && InBounds(b, p.0, p.1) && b.cells[p.0][p.1] == '.'
  }

  /** A numbered-wall cell. */
  predicate IsWallCell(b: Board, p: Pos)
  {
    b.Valid() && InBounds(b, p.0, p.1) && IsNumber(b.cells[p.0][p.1])
  }

  /** The four scan directions, in the order up, down, left, right. */
  const Dirs: seq<(int, int)> := [(-1, 0), (1, 0), (0, -1), (0, 1)]

  /** (i, j) comes before (r, c) in row-major order. */
  predicate Before(i: int, j: int, r: int, c: int)
  {
    i < r || (i == r && j < c)
  }

  /** The concatenation of piece(i, j) over every cell (i, j) of a grid with
      `cols` columns that precedes (r, c) in row-major order: what a
      `for r in range(H): for c in range(W):` loop has appended when it is
      about to visit (r, c). */
  function RowMajor<T>(cols: nat, piece: (int, int) -> seq<T>, r: nat, c: nat): seq<T>
    requires c <= cols
    decreases r, c
  {
    if c > 0 then RowMajor(cols, piece, r, c - 1) + piece(r, c - 1)
    else if r > 0 then RowMajor(cols, piece, r - 1, cols)
    else []
  }

  /** An element is in the scan exactly when some earlier cell's piece holds it. */
  lemma {:induction false} RowMajorMembers<T>(cols: nat, piece: (int, int) -> seq<T>, r: nat, c: nat, x: T)
    requires c <= cols
    ensures x in RowMajor(cols, piece, r, c) <==>
            exists i, j :: 0 <= i && 0 <= j < cols && Before(i, j, r, c) && x in piece(i, j)
    decreases r, c
  {
    if c > 0 {
      RowMajorMembers(cols, piece, r, c - 1, x);
      if x in RowMajor(cols, piece, r, c) && x !in RowMajor(cols, piece, r, c - 1) {
        assert x in piece(r, c - 1);
      }
    } else if r > 0 {
      RowMajorMembers(cols, piece, r - 1, cols, x);
      if exists i, j :: 0 <= i && 0 <= j < cols && Before(i, j, r, c) && x in piece(i, j) {
        var i, j :| 0 <= i && 0 <= j < cols && Before(i, j, r, c) && x in piece(i, j);
        assert Before(i, j, r - 1, cols);
      }
    }
  }

  /** When every element names the cell whose piece holds it (`key`), and each
      piece is duplicate-free, the whole scan is duplicate-free. */
  lemma {:induction false} RowMajorDistinct<T>(cols: nat, piece: (int, int) -> seq<T>, key: T -> Pos, r: nat, c: nat)
    requires c <= cols
    requires forall i, j :: 0 <= i && 0 <= j < cols ==> Distinct(piece(i, j))
    requires forall i, j, x :: 0 <= i && 0 <= j < cols && x in piece(i, j) ==> key(x) == (i, j)
    ensures Distinct(RowMajor(cols, piece, r, c))
    decreases r, c
  {
    if c > 0 {
      RowMajorDistinct(cols, piece, key, r, c - 1);
      var front := RowMajor(cols, piece, r, c - 1);
      forall x | x in front
        ensures x !in piece(r, c - 1)
      {
        RowMajorMembers(cols, piece, r, c - 1, x);
        var i, j :| 0 <= i && 0 <= j < cols && Before(i, j, r, c - 1) && x in piece(i, j);
        assert key(x) == (i, j);
      }
      DistinctConcat(front, piece(r, c - 1));
    } else if r > 0 {
      RowMajorDistinct(cols, piece, key, r - 1, cols);
    }
  }

  /** No element occurs twice. */
  predicate Distinct<T(==)>(s: seq<T>)
  {
    forall i, j :: 0 <= i < j < |s| ==> s[i] != s[j]
  }

  lemma DistinctConcat<T>(a: seq<T>, b: seq<T>)
    requires Distinct(a) && Distinct(b)
    requires forall x :: x in a ==> x !in b
    ensures Distinct(a + b)
  {
    forall i, j | 0 <= i < j < |a + b|
      ensures (a + b)[i] != (a + b)[j]
    {
      if i < |a| && j >= |a| {
        assert (a + b)[i] in a && (a + b)[j] in b;
      }
    }
  }

  /** Moving the head x of what is still to come onto what is done keeps
      their concatenation. */
  lemma AppendStep<T>(done: seq<T>, x: seq<T>, rest: seq<T>, w: seq<T>, target: seq<T>)
    requires done + w == target && w == x + rest
    ensures (done + x) + rest == target
  {
    assert (done + x) + rest == done + (x + rest);
  }

  /** Appending x to what is done extends it by the next piece of a whole. */
  lemma SnocStep<T>(done: seq<T>, front: seq<T>, x: seq<T>, whole: seq<T>)
    requires whole == front + x
    ensures (done + front) + x == done + whole
    ensures x == [] ==> done + front == done + whole
  {
    assert (done + front) + x == done + (front + x);
  }
}
