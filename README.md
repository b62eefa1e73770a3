# Akari solver: compilation to CNF and all-solutions enumeration

This project models the core of AkariSolver, a small Akari (Light Up) puzzle
solver. The core is `AkariApp.enumerate_solutions`. It does four things:

- It numbers the empty `'.'` cells of the board in row-major order as SAT
  variables 1..n.
- It compiles the puzzle's rules into a CNF formula with three families of
  clauses:
  - non-attack: no two bulbs see each other;
  - coverage: every empty cell is lit;
  - walls: each numbered wall has exactly its number of bulbs beside it.
- It hands the formula to a SAT solver.
- It enumerates every model by adding, after each model, a blocking clause
  that negates the model's true puzzle variables.

The board holds one character tag per cell:

- `'.'` is an empty cell and is the only kind of cell that gets a variable.
- `'0'`..`'4'` are numbered walls.
- `'B'` is an unnumbered wall.
- The digits and `'B'` block sight.
- `'w'` and `'s'` are transparent cells without a variable.

The keyboard handler stores the key `b` as `'B'`.

Modules, one per concern of the Python program:

- `Grid`: the board, its cell tags, and row-major concatenation.
- `Allocation`: the variable map (`var_map`).
- `Visibility`: `line_of_sight`.
- `Formula`: clauses and their pysat literal semantics. An assignment is the
  set of its true variables.
- `Combinatorics`: `itertools.combinations` and the at-most/at-least
  encoding.
- `Compiler`: `illuminated_vars` and the three clause families, each as an
  imperative method proved equal to a specification function.
- `ClauseFacts`: what the compiled clauses contain.
- `Rules`: the puzzle's rules stated on the board. It proves that the
  formula holds exactly for the solutions.
- `SatOracle`: the solver object the loop talks to.
- `Enumeration`: the blocking-clause loop.
- `App`: the `AkariApp` object.

Behaviour that follows the code:

- A numbered wall whose number exceeds its free neighbours by two or more
  makes `combinations` receive a negative size. Python raises `ValueError`
  there. The model returns `Err("r must be non-negative")`, and
  `EnumerateSolutions` reports that error. An alternative would report such
  a grid as unsatisfiable; the Python code raises instead, and this model
  follows the code.
- A wall that exceeds its neighbours by exactly one yields the empty clause.
  The formula is then unsatisfiable and the result is an empty list.
- A board with no variables and no clauses has exactly one model, the empty
  one.

## Model

| member | source | states |
|---|---|---|
| App.AkariApp.constructor | main.py:15-34 | a new solver holds an all-`'.'` board of the given size and an empty variable map |
| App.BlankBoard | main.py:17 | the initial board is well formed, has the configured size and every cell is `'.'` |
| App.AkariApp.EnumerateSolutions | main.py:108-180 | rebuilds the variable map; fails exactly when some numbered wall exceeds its free neighbours by two or more; otherwise every returned model is a puzzle solution, no two models agree on the puzzle variables, and every solution agrees with some model on them |
| App.ModelsAreSolutions | main.py:170-180 | what the blocking loop guarantees about the formula's models, read through the formula's meaning, gives soundness, distinctness and completeness for puzzle solutions |
| Grid.InBounds | main.py:119-120 | `in_bounds`: 0 <= r < rows and 0 <= c < cols |
| Grid.IsOpaque | main.py:125 | the tags that stop a line of sight: `'0'`..`'4'` and `'B'` |
| Grid.IsNumber | main.py:156 | the numbered-wall tags `'0'`..`'4'` |
| Grid.Digit | main.py:157 | a numbered wall's value is at most 4 |
| Grid.RowMajorMembers | main.py:113-114 | the row-major scan up to (r, c) visits exactly the cells strictly before (r, c) |
| Grid.RowMajorDistinct | main.py:113-114 | a row-major scan whose per-cell pieces are duplicate-free and keyed by their cell has no duplicates |
| Allocation.AllocateVars | main.py:111-117 | the scan builds the variable map and the insertion order of the specification |
| Allocation.Range | main.py:112-117 | the ids handed out are exactly 1..n |
| Allocation.EmptyUpToMembers | main.py:113-116 | the cells numbered before (r, c) are exactly the `'.'` cells before it in row-major order |
| Allocation.EmptyUpToSorted | main.py:113-116 | the numbering order is strictly row-major |
| Allocation.VarMapOfIndex | main.py:116-117 | the k-th inserted cell gets id k+1, and only inserted cells get ids |
| Allocation.VarMapIds | main.py:111-117 | the map's keys are exactly the `'.'` cells; the k-th empty cell in row-major order has id k+1 |
| Allocation.MapCell | main.py:113-116 | a cell is a key of the map exactly when it is an in-bounds `'.'` cell |
| Allocation.VarMapOrder | main.py:113-117 | ids increase exactly along row-major order |
| Allocation.VarMapValues | main.py:112-117 | the map's values are exactly 1..n |
| Allocation.AllocationBijection | main.py:111-117 | the map is a bijection from the `'.'` cells onto 1..n that preserves row-major order |
| ClauseFacts.VarMapInjective | main.py:116-117 | ids are positive and distinct cells get distinct ids |
| ClauseFacts.EmptyCellId | main.py:115-117 | the k-th empty cell is a `'.'` cell with id k+1 |
| Visibility.LineOfSight | main.py:119-129 | the walk in the four directions yields the specification's line of sight, in the same order |
| Visibility.WalkStep | main.py:125-129 | one step over a cell that does not block sight yields that cell exactly when it is in the map, then walks on |
| Visibility.WalkMembers | main.py:124-129 | one direction's walk yields exactly the `'.'` cells ahead with no wall in between |
| Visibility.LosParts | main.py:123 | the line of sight is the up, down, left and right walks in that order |
| Visibility.LosMembers | main.py:122-129 | q is yielded from p exactly when q is a `'.'` cell that p sees |
| Visibility.WalkDistinct | main.py:124-129 | one direction's walk yields no cell twice |
| Visibility.WalkAhead | main.py:124-129 | every cell a walk yields lies beyond its origin in the walk's direction |
| Visibility.LosDistinct | main.py:122-129 | the line of sight yields no cell twice |
| Visibility.LosSymmetric | main.py:122-129 | between `'.'` cells, q is in p's line of sight exactly when p is in q's |
| Visibility.WalkVarCells | main.py:125-127 | a walk yields only `'.'` cells |
| Visibility.LosVarCells | main.py:122-129 | the line of sight yields only `'.'` cells and never the origin |
| Compiler.IlluminatedVars | main.py:131-138 | the list built with the `!= (r, c)` filter equals the own id followed by the ids of the line of sight, with no filter |
| ClauseFacts.IllumVarsShape | main.py:131-138 | a coverage clause is non-empty, starts with the cell's own id, repeats no id, and holds exactly the ids of the cell and of the `'.'` cells it sees |
| ClauseFacts.IdsFacts | main.py:135-137 | mapping distinct mapped cells to ids gives distinct positive ids, exactly those of the cells |
| Compiler.BuildNonAttack | main.py:142-146 | the loop over the map's items builds the non-attack family |
| Compiler.PairClausesSnoc | main.py:143-146 | visiting one more cell of the line of sight appends its pair clause exactly when its id is larger, and nothing otherwise |
| ClauseFacts.PairClausesMembers | main.py:143-146 | one cell's pair clauses are exactly `[-v1, -v2]` for the cells it sees with a larger id |
| ClauseFacts.PairClausesDistinct | main.py:143-146 | one cell's pair clauses are distinct |
| ClauseFacts.PairsOfMembers | main.py:143-146 | the pair clauses of a cell come from its line of sight |
| ClauseFacts.PairsOfShape | main.py:143-146 | every pair clause of a cell is binary and starts with the negated id of that cell |
| ClauseFacts.NonAttackUpToOrigin | main.py:142-146 | every clause emitted for the first k items is the pair clause of one of those items and a cell of its line of sight |
| ClauseFacts.NonAttackUpToHas | main.py:142-146 | the pair clause of an item among the first k and a cell of its line of sight is emitted by then |
| ClauseFacts.NonAttackPair | main.py:142-146 | every non-attack clause is `[-id p, -id q]` for `'.'` cells p, q that see each other, with id p < id q |
| ClauseFacts.PairInNonAttack | main.py:142-146 | the clause of every such pair is in the non-attack family |
| ClauseFacts.NonAttackUpToDistinct | main.py:142-146 | after k cells, the clauses are distinct binary clauses whose first literal is one of the first k ids, negated |
| ClauseFacts.NonAttackMembers | main.py:142-146 | a clause is in the non-attack family exactly when it is `[-id p, -id q]` for `'.'` cells p, q that see each other, with id p < id q |
| ClauseFacts.NonAttackDistinct | main.py:142-146 | each mutually visible pair is emitted once |
| Compiler.BuildCoverage | main.py:148-152 | the row-major loop builds the coverage family |
| ClauseFacts.CoverageUpTo | main.py:148-152 | the coverage clauses up to (r, c) are those of the empty cells before (r, c), in order |
| ClauseFacts.CoverageIndexed | main.py:148-152 | there is one coverage clause per `'.'` cell, the k-th for the cell with id k+1 |
| ClauseFacts.CoverageMembers | main.py:148-152 | a clause is in the coverage family exactly when it is some `'.'` cell's illumination clause |
| Compiler.WallNeighbors | main.py:158-162 | the four-direction scan yields the specification's neighbour ids, in the same order |
| ClauseFacts.NeighborsFacts | main.py:158-162 | neighbour ids are distinct, positive, and exactly those of the orthogonally adjacent `'.'` cells |
| ClauseFacts.NeighborsParts | main.py:159-162 | the neighbour list is the up, down, left and right candidates in that order, each present only when it is an in-bounds mapped cell |
| ClauseFacts.IdIfCellMembers | main.py:161-162 | a candidate contributes exactly the id of an in-bounds `'.'` cell, and that id is positive |
| Combinatorics.Combinations | main.py:163-166 | `itertools.combinations`: the k-selections in lexicographic order of positions (those with the head first), `[[]]` for k = 0 |
| Combinatorics.CombinationsBeyond | main.py:163-166 | `combinations(s, k)` yields nothing when k exceeds len s |
| Combinatorics.CombinationsCount | main.py:163-166 | `combinations(s, k)` yields C(len s, k) tuples |
| Combinatorics.CombinationsLength | main.py:163-166 | the combinations of a non-empty list are those with its head plus those without it |
| Combinatorics.CombinationsSize | main.py:164-167 | every combination has exactly k elements, as the source asserts |
| Combinatorics.CombinationsSubset | main.py:163-166 | every element of a combination comes from the input |
| Combinatorics.CombinationsPositive | main.py:163-168 | combinations of positive ids are positive |
| Combinatorics.CountSplit | main.py:163-168 | true and false neighbours together count all neighbours |
| Combinatorics.CountConcat | main.py:158-162 | counting true ids is additive over concatenation |
| Combinatorics.EveryCombinationHit | main.py:163-168 | every k-combination contains an element of the given polarity exactly when fewer than k elements have the other polarity |
| Combinatorics.AtMostClauses | main.py:163-165 | one clause per (N+1)-selection of the neighbours, in `combinations` order, each with every literal negated |
| Combinatorics.AtLeastClauses | main.py:166-168 | the (K-N+1)-selections of the neighbours, in `combinations` order, as they are |
| Formula.Negated | main.py:165 | the clause `[-v for v in combo]` |
| Combinatorics.AtMostCount | main.py:163-165 | the at-most part has C(K, N+1) clauses |
| Combinatorics.AtMostShape | main.py:163-165 | every at-most clause has N+1 literals, all negative |
| Combinatorics.AtLeastCount | main.py:166-168 | the at-least part has C(K, K-N+1) clauses |
| Combinatorics.AtLeastShape | main.py:166-168 | every at-least clause has K-N+1 literals, all positive |
| Combinatorics.NegatedHit | main.py:165 | a negated selection holds exactly when one of its variables is false |
| Combinatorics.PositiveHit | main.py:168 | a positive selection holds exactly when one of its variables is true |
| Combinatorics.AtMostMeaning | main.py:163-165 | the at-most clauses hold exactly when at most N neighbours are true |
| Combinatorics.AtLeastMeaning | main.py:166-168 | the at-least clauses hold exactly when at least N neighbours are true, for N <= K+1 |
| Combinatorics.ExactlyN | main.py:163-168 | a wall's clauses hold exactly when exactly N neighbours are true, for N <= K+1 |
| Compiler.WallClausesAt | main.py:156-168 | one wall fails exactly when its number exceeds its neighbours by two or more, and otherwise gives the at-most clauses followed by the at-least clauses |
| Compiler.BuildWalls | main.py:154-168 | the row-major loop fails exactly when some wall is bad, and otherwise builds the wall family |
| Compiler.NoBadWallStep | main.py:154-156 | a wall scan that gets past (r, c) has met no bad wall up to and including it |
| Compiler.NoBadWallAll | main.py:154-156 | a wall scan that completes has met no bad wall on the board |
| ClauseFacts.WallShape | main.py:157-168 | a wall's clauses are the at-most clauses, of N+1 negative literals, followed by the at-least clauses, of K-N+1 positive literals |
| ClauseFacts.WallCount | main.py:163-168 | a wall contributes C(K, N+1) + C(K, K-N+1) clauses |
| ClauseFacts.WallEmptyClause | main.py:166-168 | a wall with one more than its neighbours puts the empty clause in the formula, which then has no model |
| ClauseFacts.WallOf | main.py:154-168 | every clause of the wall family comes from some good numbered wall |
| ClauseFacts.WallInWalls | main.py:154-168 | every clause of a good numbered wall is in the wall family |
| ClauseFacts.WallsMembers | main.py:154-168 | a clause is in the wall family exactly when it is a clause of some good numbered wall |
| ClauseFacts.WallLiteral | main.py:163-168 | wall clause literals are non-zero puzzle variables |
| Compiler.BuildCnf | main.py:140-168 | compilation fails exactly on a bad wall, and otherwise gives non-attack, then coverage, then walls |
| ClauseFacts.IdInRange | main.py:116-117 | every id lies in 1..n |
| ClauseFacts.NonAttackBounds | main.py:142-146 | non-attack literals are variables in 1..n |
| ClauseFacts.CoverageBounds | main.py:148-152 | coverage literals are variables in 1..n |
| ClauseFacts.WallsBounds | main.py:154-168 | wall literals are variables in 1..n |
| ClauseFacts.LiteralBounds | main.py:140-168 | every literal of the formula is a variable in 1..n |
| Rules.BulbCell | main.py:115-117 | a true variable of the map marks a `'.'` cell with a positive id |
| Rules.PairExcluded | main.py:142-146 | under the non-attack family, two cells that see each other are never both bulbs |
| Rules.NonAttackMeaning | main.py:142-146 | the non-attack family holds exactly when no two bulbs see each other |
| Rules.IllumClauseMeaning | main.py:131-138 | a cell's coverage clause holds exactly when the cell has a bulb or sees one |
| Rules.CoverageMeaning | main.py:148-152 | the coverage family holds exactly when every `'.'` cell is lit |
| Rules.BulbAtCount | main.py:159-162 | a candidate neighbour contributes one true id exactly when it is a `'.'` cell holding a bulb |
| Rules.AdjacentBulbsParts | main.py:159 | the bulbs beside a cell are those on its up, down, left and right cells |
| Rules.AdjacentBulbCount | main.py:158-162 | the number of true neighbour ids the wall clauses constrain equals the number of bulbs beside the wall on the board |
| Rules.WallClauseMeaning | main.py:157-168 | a good wall's clauses hold exactly when the number of bulbs beside it on the board equals its number |
| Rules.WallSatisfied | main.py:154-168 | under the wall family, each good wall has its number of adjacent bulbs |
| Rules.WallClauseSatisfied | main.py:154-168 | when every wall has its number of adjacent bulbs, every wall clause holds |
| Rules.WallsMeaning | main.py:154-168 | without a bad wall, the wall family holds exactly when every numbered wall has its number of adjacent bulbs |
| Rules.TooFewUnsolvable | main.py:166 | a wall whose number exceeds its neighbours admits no solution |
| Rules.BadWallUnsolvable | main.py:166 | a board on which compilation fails has no solution |
| Rules.CnfMeaning | main.py:140-168 | without a bad wall, an assignment satisfies the formula exactly when its bulbs solve the puzzle |
| Rules.SolutionsAntichain | main.py:177-178 | a solution whose bulbs lie within another solution's bulbs has the same bulbs |
| Formula.RestrictAssignment | main.py:174 | a formula over some variables has the same value under an assignment and under its restriction to them |
| SatOracle.MaxVarBound | main.py:171-178 | every literal of a clause is bounded by the largest variable it mentions |
| SatOracle.MaxVarAtMost | main.py:171-178 | a bound on every literal bounds the largest variable |
| SatOracle.AllSubsetsWithin | main.py:174 | every candidate assignment is a subset of 1..n |
| SatOracle.AllSubsetsComplete | main.py:174 | every subset of 1..n is a candidate assignment |
| SatOracle.ModelOfTrueSet | main.py:175 | a model list over 1..n has exactly the assignment's variables true, and all its literals are in range |
| SatOracle.AllSubsetsMembers | main.py:174 | the candidate assignments are exactly the subsets of 1..n |
| SatOracle.MaxVarAllBound | main.py:171 | after appending a formula the variable count bounds the old count and every variable of the formula |
| SatOracle.Oracle.constructor | main.py:170 | a new solver has no clauses and no variables |
| SatOracle.Oracle.AppendFormula | main.py:171 | appending a formula adds its clauses in order, and the variable count becomes the larger of the old count and the largest variable of the formula |
| SatOracle.Oracle.AddClause | main.py:178 | adding a clause appends it and raises the variable count to its largest variable |
| SatOracle.Oracle.Solve | main.py:174-175 | a solve returns a model of every added clause over 1..nv, or reports that none exists |
| SatOracle.TrueSet | main.py:177 | the variables of a model list that are positive, i.e. true |
| Enumeration.Blocking | main.py:177 | the negations of the model's positive entries that are puzzle variables, in model order |
| Enumeration.BlockingMembers | main.py:177 | the blocking clause holds exactly the negations of the model's true puzzle variables |
| Enumeration.BlockingMeaning | main.py:177-178 | an assignment satisfies the blocking clause exactly when its true set does not include the model's true puzzle variables; the clause is empty exactly when there are none |
| Enumeration.BlockingBound | main.py:177-178 | a blocking clause mentions only variables already in use |
| Enumeration.BlockShrinks | main.py:174-178 | blocking a model strictly shrinks the set of assignments a solve can still return, so the loop ends |
| Enumeration.Exhausted | main.py:174 | when the loop stops, every model of the formula includes the puzzle variables of some recorded model |
| Enumeration.ModelStep | main.py:174-178 | a new model satisfies the formula and escapes every earlier blocking clause |
| Enumeration.EnumerateModels | main.py:170-180 | every recorded model satisfies the formula; no later model includes an earlier one's true puzzle variables; every model of the formula includes those of some recorded model |

## Left out

- The Tkinter interface is left out: drawing, clicks, the keyboard handler, `solve`, `show_next_solution` and the main block (main.py:1-13, 36-106, 183-189). The board is a field that the interface would edit.
- Glucose3 is replaced by `SatOracle.Oracle`. The enumerator relies only on its contract. The order in which the real solver returns models is not modelled. The oracle's body tries every assignment of 1..nv.
- SatOracle.Oracle.Solve: the returned model lists every variable 1..nv once, signed by its value. The contract states only its true set and its literal bounds, because the enumerator reads nothing else.
- `EnumerateSolutions` returns a list, not a lazy generator. The Python function also returns a list. `line_of_sight` is a generator in Python; it is modelled as the sequence it yields.
- The board size is a constructor parameter. The Python program reads it from the module constants ROWS and COLS, which are 3 and meant to be changed freely (main.py:8-10); every proof holds for any well-formed board.
- The `ValueError` of `itertools.combinations` is modelled as an `Err` result carrying its message. The Python traceback is not modelled.
- The puzzle variables (`var_map.values()`) are passed to the enumeration loop as a set, since the loop only asks whether an id is among them.
