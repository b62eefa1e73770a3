// Variable allocation: a row-major scan hands out the ids 1, 2, 3, ... to the
// '.' cells, and to no other cell.
module Allocation {
  import opened Grid

  /** A '.' cell contributes itself to the scan; every other cell nothing. */
  function EmptyPiece(b: Board): (int, int) -> seq<Pos>
  {
    (i, j) => if IsVarCell(b, (i, j)) then [(i, j)] else []
  }

  /** The '.' cells that precede (r, c) in row-major order. */
  function EmptyUpTo(b: Board, r: nat, c: nat): seq<Pos>
    requires c <= b.cols
  {
    RowMajor(b.cols, EmptyPiece(b), r, c)
  }

  /** All '.' cells in row-major order: the order in which they enter the
      variable map, and so the order in which the map lists its items. */
  function EmptyCells(b: Board): seq<Pos>
  {
    EmptyUpTo(b, b.rows, 0)
  }

  /** The map built by inserting e[0], e[1], ... with ids 1, 2, ... */
  function VarMapOf(e: seq<Pos>): map<Pos, int>
  {
    if e == [] then map[] else VarMapOf(e[..|e| - 1])[e[|e| - 1] := |e|]
  }

  /** The variable of every '.' cell. */
  function VarMap(b: Board): map<Pos, int>
  {
    VarMapOf(EmptyCells(b))
  }

  /** The number of variables handed out. */
  function NumVars(b: Board): nat
  {
    |EmptyCells(b)|
  }

  /** The ids 1..n. */
  function Range(n: nat): (s: set<int>)
    ensures forall v :: v in s <==> 1 <= v <= n
  {
    if n == 0 then {} else Range(n - 1) + {n}
  }

  /** The scan that fills the variable map. Besides the map it returns the
      order in which keys were inserted, which is the order of the map's items. */
  method AllocateVars(b: Board) returns (varMap: map<Pos, int>, order: seq<Pos>)
    requires b.Valid()
    ensures varMap == VarMap(b) && order == EmptyCells(b)
  {
    varMap, order := map[], [];
    var varId := 1;
    for r := 0 to b.rows
      invariant varMap == VarMapOf(EmptyUpTo(b, r, 0)) && order == EmptyUpTo(b, r, 0)
      invariant varId == |order| + 1
    {
      for c := 0 to b.cols
        invariant varMap == VarMapOf(EmptyUpTo(b, r, c)) && order == EmptyUpTo(b, r, c)
        invariant varId == |order| + 1
      {
        if b.cells[r][c] == '.' {
          assert EmptyUpTo(b, r, c + 1) == order + [(r, c)];
          assert (order + [(r, c)])[..|order|] == order;
          varMap := varMap[(r, c) := varId];
          order := order + [(r, c)];
          varId := varId + 1;
        } else {
          assert EmptyUpTo(b, r, c + 1) == order;
        }
      }
    }
  }

  /** Strictly increasing in row-major order. */
  predicate Sorted(e: seq<Pos>)
  {
    forall i, j :: 0 <= i < j < |e| ==> Before(e[i].0, e[i].1, e[j].0, e[j].1)
  }

  /** The scan up to (r, c) holds exactly the '.' cells before (r, c). */
  lemma EmptyUpToMembers(b: Board, r: nat, c: nat, p: Pos)
    requires b.Valid() && c <= b.cols
    ensures p in EmptyUpTo(b, r, c) <==> IsVarCell(b, p) && Before(p.0, p.1, r, c)
  {
    RowMajorMembers(b.cols, EmptyPiece(b), r, c, p);
    if IsVarCell(b, p) && Before(p.0, p.1, r, c) {
      assert p in EmptyPiece(b)(p.0, p.1);
    }
  }

  /** The scan lists the '.' cells in strictly increasing row-major order. */
  lemma {:induction false} EmptyUpToSorted(b: Board, r: nat, c: nat)
    requires b.Valid() && c <= b.cols
    ensures Sorted(EmptyUpTo(b, r, c))
    decreases r, c
  {
    if c > 0 {
      EmptyUpToSorted(b, r, c - 1);
      var front := EmptyUpTo(b, r, c - 1);
      if IsVarCell(b, (r, c - 1)) {
        assert EmptyUpTo(b, r, c) == front + [(r, c - 1)];
        forall i | 0 <= i < |front|
          ensures Before(front[i].0, front[i].1, r, c - 1)
        {
          EmptyUpToMembers(b, r, c - 1, front[i]);
        }
      } else {
        assert EmptyUpTo(b, r, c) == front;
      }
    } else if r > 0 {
      EmptyUpToSorted(b, r - 1, b.cols);
    }
  }

  /** Inserting a duplicate-free list gives e[k] the id k + 1, and nothing else a key. */
  lemma {:induction false} VarMapOfIndex(e: seq<Pos>)
    requires Distinct(e)
    ensures forall k :: 0 <= k < |e| ==> e[k] in VarMapOf(e) && VarMapOf(e)[e[k]] == k + 1
    ensures forall p :: p in VarMapOf(e) ==> p in e
  {
    if e != [] {
      var front := e[..|e| - 1];
      VarMapOfIndex(front);
      forall k | 0 <= k < |e|
        ensures e[k] in VarMapOf(e) && VarMapOf(e)[e[k]] == k + 1
      {
        if k < |e| - 1 {
          assert e[k] == front[k] && e[k] != e[|e| - 1];
        }
      }
    }
  }

  /** Every id handed out names one '.' cell: the k-th cell of the scan gets k + 1. */
  lemma VarMapIds(b: Board)
    requires b.Valid()
    ensures forall p :: p in VarMap(b) <==> IsVarCell(b, p)
    ensures forall k :: 0 <= k < NumVars(b) ==> EmptyCells(b)[k] in VarMap(b) && VarMap(b)[EmptyCells(b)[k]] == k + 1
    ensures Sorted(EmptyCells(b))
  {
    var e := EmptyCells(b);
    EmptyUpToSorted(b, b.rows, 0);
    assert Distinct(e) by {
      forall i, j | 0 <= i < j < |e| ensures e[i] != e[j] {
        assert Before(e[i].0, e[i].1, e[j].0, e[j].1);
      }
    }
    VarMapOfIndex(e);
    forall p
      ensures p in VarMap(b) <==> IsVarCell(b, p)
    {
      EmptyUpToMembers(b, b.rows, 0, p);
    }
  }

  /** The map's keys are the '.' cells. */
  lemma MapCell(b: Board, q: Pos)
    requires b.Valid()
    ensures q in VarMap(b) <==> IsVarCell(b, q)
  {
    VarMapIds(b);
  }

  /** Ids follow row-major order. */
  lemma VarMapOrder(b: Board, p: Pos, q: Pos)
    requires b.Valid() && p in VarMap(b) && q in VarMap(b)
    ensures VarMap(b)[p] < VarMap(b)[q] <==> Before(p.0, p.1, q.0, q.1)
  {
    var e := EmptyCells(b);
    VarMapIds(b);
    EmptyUpToMembers(b, b.rows, 0, p);
    EmptyUpToMembers(b, b.rows, 0, q);
    var i :| 0 <= i < |e| && e[i] == p;
    var j :| 0 <= j < |e| && e[j] == q;
    assert VarMap(b)[p] == i + 1 && VarMap(b)[q] == j + 1;
    if i < j {
      assert Before(p.0, p.1, q.0, q.1);
    } else if j < i {
      assert Before(q.0, q.1, p.0, p.1);
    }
  }

  /** The ids handed out are exactly 1..n. */
  lemma VarMapValues(b: Board)
    requires b.Valid()
    ensures VarMap(b).Values == Range(NumVars(b))
  {
    var e, m := EmptyCells(b), VarMap(b);
    VarMapIds(b);
    forall v | v in m.Values
      ensures v in Range(|e|)
    {
      var p :| p in m && m[p] == v;
      EmptyUpToMembers(b, b.rows, 0, p);
      var i :| 0 <= i < |e| && e[i] == p;
    }
    forall v | v in Range(|e|)
      ensures v in m.Values
    {
      assert m[e[v - 1]] == v;
    }
  }

  /** Allocation is a bijection between the '.' cells and the ids 1..n that
      follows row-major order, so equal boards receive equal maps. */
  lemma AllocationBijection(b: Board)
    requires b.Valid()
    ensures forall p :: p in VarMap(b) <==> IsVarCell(b, p)
    ensures forall p, q :: p in VarMap(b) && q in VarMap(b) ==>
              (VarMap(b)[p] < VarMap(b)[q] <==> Before(p.0, p.1, q.0, q.1))
    ensures VarMap(b).Values == Range(NumVars(b))
  {
    VarMapIds(b);
    VarMapValues(b);
    forall p, q | p in VarMap(b) && q in VarMap(b)
      ensures VarMap(b)[p] < VarMap(b)[q] <==> Before(p.0, p.1, q.0, q.1)
    {
      VarMapOrder(b, p, q);
    }
  }
}
