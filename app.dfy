// The solver object: it owns the board and the variable map, and its
// enumeration compiles the board, runs the blocking-clause loop and returns
// every solution.
module App {
  import opened Grid
  import opened Allocation
  import opened Formula
  import opened Compiler
  import opened ClauseFacts
  import opened Rules
  import opened SatOracle
  import opened Enumeration

  /** A rows x cols board of '.' cells. */
  function BlankBoard(rows: nat, cols: nat): (b: Board)
    ensures b.Valid() && b.rows == rows && b.cols == cols
    ensures forall r, c :: InBounds(b, r, c) ==> b.cells[r][c] == '.'
  {
    Board(rows, cols, seq(rows, _ => seq(cols, _ => '.')))
  }

  /** What the enumerator promises, read on a board without a bad wall: each
      model is a solution, no two share their bulbs, and every solution has
      the bulbs of one of them. */
  lemma ModelsAreSolutions(b: Board, models: seq<seq<int>>)
    requires b.Valid() && !HasBadWall(b)
    requires forall i :: 0 <= i < |models| ==> SatAll(Cnf(b), TrueSet(models[i]))
    requires forall i, j :: 0 <= i < j < |models| ==> !(TrueSet(models[i]) * Range(NumVars(b)) <= TrueSet(models[j]))
    requires forall t :: SatAll(Cnf(b), t) ==> exists i :: 0 <= i < |models| && TrueSet(models[i]) * Range(NumVars(b)) <= t
    ensures forall i :: 0 <= i < |models| ==> IsSolution(b, TrueSet(models[i]))
    ensures forall i, j :: 0 <= i < j < |models| ==>
              TrueSet(models[i]) * Range(NumVars(b)) != TrueSet(models[j]) * Range(NumVars(b))
    ensures forall t :: IsSolution(b, t) ==>
              exists i :: 0 <= i < |models| && TrueSet(models[i]) * Range(NumVars(b)) == t * Range(NumVars(b))
  {
    var vars := Range(NumVars(b));
    forall i | 0 <= i < |models|
      ensures IsSolution(b, TrueSet(models[i]))
    {
      CnfMeaning(b, TrueSet(models[i]));
    }
    forall t | IsSolution(b, t)
      ensures exists i :: 0 <= i < |models| && TrueSet(models[i]) * vars == t * vars
    {
      CnfMeaning(b, t);
      var i :| 0 <= i < |models| && TrueSet(models[i]) * vars <= t;
      CnfMeaning(b, TrueSet(models[i]));
      SolutionsAntichain(b, TrueSet(models[i]), t);
    }
  }

  class AkariApp {
    /** The cell tags, edited through the keyboard. */
    var board: Board
    /** The id of every '.' cell, rebuilt by each enumeration. */
    var varMap: map<Pos, int>

    ghost predicate Valid()
      reads this
    {
      board.Valid()
    }

    /** A fresh solver starts on an all-'.' board of the given size
        with no variables. */
    constructor (rows: nat, cols: nat)
      ensures Valid() && board == BlankBoard(rows, cols) && varMap == map[]
    {
      board := BlankBoard(rows, cols);
      varMap := map[];
    }

    /** Every solution of the current board, as solver models; an error when
        a numbered wall demands more than one bulb beyond its free
        neighbours. The variable map is rebuilt either way. */
    method EnumerateSolutions() returns (res: Result<seq<seq<int>>>)
      requires Valid()
      modifies this`varMap
      ensures varMap == VarMap(board)
      ensures res.Ok? <==> !HasBadWall(board)
      ensures res.Ok? ==> forall i :: 0 <= i < |res.value| ==> IsSolution(board, TrueSet(res.value[i]))
      ensures res.Ok? ==> forall i, j :: 0 <= i < j < |res.value| ==>
                TrueSet(res.value[i]) * Range(NumVars(board)) != TrueSet(res.value[j]) * Range(NumVars(board))
      ensures res.Ok? ==> forall t :: IsSolution(board, t) ==>
                exists i :: 0 <= i < |res.value| && TrueSet(res.value[i]) * Range(NumVars(board)) == t * Range(NumVars(board))
    {
      var order;
      varMap, order := AllocateVars(board);
      var cnf := BuildCnf(board, varMap, order);
      if cnf.Err? {
        return Err(cnf.msg);
      }
      LiteralBounds(board);
      VarMapValues(board);
      var models := EnumerateModels(cnf.value, varMap.Values);
      ModelsAreSolutions(board, models);
      return Ok(models);
    }
  }
}
