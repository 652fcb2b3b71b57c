# Game of Life as a constraint model

This project models gameoflife-csp, a program that plays Conway's Game of Life
by posting each generation as a constraint satisfaction problem to the Gecode
solver. It proves what those constraints mean.

One round of the program works on a `GameOfLife` space. The space holds:

- two `length × length` boards of {0,1} variables. `_localBoard` is the
  generation to start from and `_board` is the generation to produce;
- the activation list `_setValues`, which holds the keys `x * length + y`;
- the board length.

`activate(x, y)` pins a local cell to 1 and records its key.
`activateFromPreviousBoard` pins every interior local cell to the value it had
on the previous round's solved next board, and records the keys of the nonzero
ones. `setContraints` posts three rules:

- the border rule: both boards are 0 on the first and last rows and columns;
- the closure rule: an interior cell whose key was never recorded is 0 on the
  local board;
- the transition rule: for every interior cell, the XOR of Conway's four cases
  over the count of live Moore neighbours.

The driver does four things. It rejects length 0. It reads `length²` tokens
row by row and activates each cell whose token is nonzero. It then plays the
rounds: each round solves its space, emits the next board, and seeds a fresh
space from that board.

The model is split into five modules:

- `Grid` (grid.dfy) holds cells, flat boards and keys, and the reference
  simulation `LifeStep`.
- `GameOfLife` (game_of_life.dfy) holds the space as a value: variable domains,
  the activation list and the list of posted constraints. It also defines the
  source's operations as functions on that value, and what it means for an
  assignment to satisfy the posted constraints (`Holds`).
- `Solutions` (solutions.dfy) proves what the constraints mean:
  - the XOR equals the case split;
  - a space built by `activate` or `activateFromPreviousBoard` and then
    constrained has exactly one solution when no cell on the border was pinned
    to 1, and its next board is `LifeStep` of its local board
    (`UniqueSolution`, which requires such a space: `WellFormed`);
  - a border activation makes the space unsatisfiable;
  - chaining through `activateFromPreviousBoard` loses nothing.
- `Driver` (driver.dfy) holds the `main` loop:
  - the length guard;
  - the row-major input walk, as a method with loop invariants;
  - the round loop. When no nonzero token lies on the border, round k emits
    `LifeStep^k` of the input (`RunComputesLife`). When one does, the first
    round has no solution, so nothing is emitted and the run stops, as the
    source does after printing "Not any solution found." (`RunBorderTokenStops`).
- `Output` (output.dfy) gives the order in which a solved board is printed.
  See Findings.

A board is a flat `seq<int>`, and cell (x, y) sits at index `x * L + y`. That
index is the same number the source records as the cell's key, so "key" and
"flat index" coincide in the model. The search engine is a ghost function,
`Driver.Search`, which returns some solution or reports that there is none.
Because every space the program builds has at most one solution, which
solution the engine picks does not matter.

## Model

| member | source | states |
|---|---|---|
| Grid.KeyInjective | src/GameOfLife.cpp:155-160 | two in-range cells have the same key `x * length + y` exactly when they are the same cell, so the membership test on the activation list identifies one cell |
| Grid.CellAtKey | src/GameOfLife.hh:160-164 | the key of an in-range cell can be decoded back to that cell |
| Grid.NeighboursRange | src/GameOfLife.cpp:192-195 | on a 0/1 board the 3×3 slice sum minus the centre lies in 0..8 |
| Grid.LifeStep | src/GameOfLife.cpp:145-196 | the reference generation has length² cells, a dead border, and cells in {0,1} when its input has them |
| Grid.DeadStaysDead | src/GameOfLife.cpp:192 | an all-dead board stays all dead, because no cell has enough neighbours to be born |
| Grid.StepCommutesWithTranspose | src/GameOfLife.cpp:192-195 | the rule counts the 3×3 slice, which is symmetric, so stepping the mirrored board gives the mirrored step |
| Grid.IterateCommutesWithTranspose | src/GameOfLife.cpp:192-195 | k generations of the mirrored board are the mirror of k generations of the board |
| GameOfLife.NewModel | src/GameOfLife.cpp:28-48 | a new space has the given length, an empty activation list and nothing posted |
| GameOfLife.NewModelDomains | src/GameOfLife.cpp:39-46 | both variable arrays of a new space admit exactly the 0/1 boards of length² cells |
| GameOfLife.Activate | src/GameOfLife.cpp:50-65 | activation leaves the length and both variable arrays unchanged and records the cell's key |
| GameOfLife.ActivateMeaning | src/GameOfLife.cpp:59-64 | activation appends exactly the key `x * length + y`, and a solution satisfies the new constraints iff it satisfies the old ones and local(x, y) == 1 |
| GameOfLife.ActivateAllContents | src/GameOfLife.hh:68-74 | activating a list of cells on a new space posts local(c) == 1 for each cell and records each key, in order |
| GameOfLife.InteriorCellsMembers | src/GameOfLife.cpp:82-83 | the copy loop visits exactly the cells with 1 ≤ i, j ≤ length − 2 |
| GameOfLife.AllCellsMembers | src/GameOfLife.cpp:142-143 | the constraint loop visits exactly the in-range cells |
| GameOfLife.ActivateFromPreviousBoard | src/GameOfLife.cpp:67-98 | seeding keeps the length and both variable arrays, and for length < 3 it changes nothing |
| GameOfLife.CopyCellsPosts | src/GameOfLife.cpp:87-90 | each copied cell adds exactly the requirement local(c) == prev(c) |
| GameOfLife.CopyCellsKeys | src/GameOfLife.cpp:92-95 | a copied cell's key is recorded iff its previous value is nonzero |
| GameOfLife.ActivateFromPreviousMeaning | src/GameOfLife.hh:76-81 | a solution satisfies the seeded space iff its local board equals the previous board on every interior cell; a key is recorded iff its cell is interior and was alive |
| GameOfLife.CellConstraintsMeaning | src/GameOfLife.cpp:145-196 | the constraints posted for one cell hold iff that cell is dead on both boards (border), or else it is recorded or dead on the local board and satisfies the XOR rule |
| GameOfLife.PostAllMeaning | src/GameOfLife.cpp:142-199 | the constraints posted for a list of cells hold iff each cell's rules hold |
| GameOfLife.PostAllTransitions | src/GameOfLife.cpp:147-196 | a transition constraint is posted for a listed cell iff the cell is off the border |
| GameOfLife.SetConstraintsTransitions | src/GameOfLife.cpp:142-199 | after setContraints every interior cell, and no border cell, carries a transition constraint |
| GameOfLife.SetConstraints | src/GameOfLife.cpp:131-200 | setContraints keeps the earlier constraints as a prefix and leaves the activation list unchanged |
| GameOfLife.SetConstraintsMeaning | src/GameOfLife.cpp:131-200 | a solution satisfies the constrained space iff it satisfies the earlier constraints, the border rule, the closure rule and the transition rule |
| Solutions.ExactlyOneCase | src/GameOfLife.cpp:175-185 | exactly one of N < 2, N == 2, N == 3, N > 3 holds for every count |
| Solutions.XorIsCaseSplit | src/GameOfLife.cpp:187-196 | the XOR of the four guarded cases holds iff next is 0 for N < 2 or N > 3, equals local for N == 2, and is 1 for N == 3 |
| Solutions.TransitionIsLifeStep | src/GameOfLife.cpp:145-196 | the transition rule on every interior cell plus a dead next border holds iff next == LifeStep(local) |
| Solutions.BorderActivationUnsat | src/GameOfLife.cpp:147-149 | if a border cell was pinned to 1 by activate (line 61), the border pin to 0 leaves the constrained space with no solution |
| Solutions.SolutionLocalIsDetermined | src/GameOfLife.cpp:152-170 | in every solution, the local board is alive exactly on the recorded interior cells |
| Solutions.DeterminedSatisfiesPins | src/GameOfLife.cpp:59-61 | that determined board satisfies every pin posted by activate or activateFromPreviousBoard when no pin puts a 1 on the border |
| Solutions.UniqueSolution | src/GameOfLife.cpp:142-199 | for a space of the shape activate and activateFromPreviousBoard build (fresh 0/1 arrays, only local pins, a pin is 1 exactly when its key was recorded) with no pin of 1 on the border, the constrained space has exactly one solution: the determined local board and its LifeStep |
| Solutions.ActivateAllWellFormed | src/Main.cpp:69-86 | activating the read cells gives a well-formed space, which has no border activation iff no read cell is on the border |
| Solutions.InitialSolution | src/Main.cpp:88-89 | the first round with only interior activations has exactly one solution |
| Solutions.InitialBorderUnsat | src/Main.cpp:75-79 | the first round with an activated border cell has no solution |
| Solutions.FromPreviousWellFormed | src/GameOfLife.cpp:82-97 | seeding from a 0/1 board gives a well-formed space with no border activation |
| Solutions.FromPreviousPin | src/GameOfLife.cpp:87-90 | every seeded pin is local(c) == prev(c) on an interior cell |
| Solutions.ChainLossless | src/GameOfLife.cpp:82-97 | the local board the seeded space determines equals the previous board on every interior cell, and everywhere when the previous border is dead |
| Solutions.ChainedSolution | src/Main.cpp:119-128 | the next round's space, seeded from a 0/1 board with a dead border, has exactly one solution: that board and its LifeStep |
| Driver.ReadCells | src/Main.cpp:72-79 | every activated cell is in range and has a nonzero token |
| Driver.ReadCellsSpec | src/Main.cpp:69-86 | the walk activates exactly the in-range cells with a nonzero token among the positions read, each once, in increasing key order |
| Driver.WalkStep | src/Main.cpp:81-85 | (u, v) is the in-range cell at position u * length + v, and the next (u, v), with v wrapped to 0 and u advanced at the end of a row, is the cell at the next position |
| Driver.ReadModelStep | src/Main.cpp:72-79 | reading one position activates (u, v) iff its token is nonzero and otherwise leaves the space alone |
| Driver.ReadInitialBoard | src/Main.cpp:69-86 | the input loop builds the space obtained by activating the nonzero-token cells in reading order |
| Driver.Search | src/Main.cpp:108-116 | the engine returns a satisfying assignment, or reports none only when none exists |
| Driver.SearchUnique | src/Main.cpp:108 | a space with one solution yields that solution |
| Driver.Rounds | src/Main.cpp:100-135 | exactly nbRound boards are emitted unless the run stopped on a round with no solution, in which case fewer; every emitted board is 0/1 |
| Driver.Run | src/Main.cpp:54-58 | the run reports an invalid length iff length is 0; otherwise it emits at most nbRound boards |
| Driver.InputBoard | src/Main.cpp:72-79 | the board read from the tokens is a 0/1 board |
| Driver.KeyRecorded | src/GameOfLife.cpp:156-160 | an in-range cell's key is in the activation list iff the cell was activated |
| Driver.InitialSpace | src/Main.cpp:69-89 | with no nonzero token on the border, the first space determines exactly the board read from the tokens |
| Driver.RoundsStep | src/Main.cpp:108-128 | a space with a unique solution emits its next board and hands on the space seeded from it |
| Driver.NextRoundUnique | src/Main.cpp:119-128 | the seeded space of the next round again has exactly one solution |
| Driver.RoundsIterate | src/Main.cpp:100-135 | from a space whose only solution is (g, LifeStep(g)), n rounds emit LifeStep(g), ..., LifeStep^n(g) and never stop |
| Driver.RunComputesLife | src/Main.cpp:54-135 | with no nonzero token on the border, round k emits LifeStep^k of the input board for every requested round, and the run never stops early |
| Driver.RunBorderTokenStops | src/Main.cpp:112-115 | a nonzero token on the border makes the first round find no solution, so nothing is emitted and the run stops |
| Driver.RunZeroRounds | src/Main.cpp:101 | zero rounds emit nothing |
| Output.PrintedAsWritten | src/GameOfLife.cpp:225-247 | the printer emits length² values in storage order |
| Output.PrintedAsWrittenTransposes | src/GameOfLife.cpp:225-247 | reading the printed values back with the input walk gives the board mirrored in its diagonal |
| Output.BlinkerPrintedSideways | src/GameOfLife.cpp:225-247 | the vertical blinker on a 5×5 board is printed as the horizontal one |
| Output.PrintedReadsBack | src/Main.cpp:69-86 | printed in reading order, a 0/1 board reads back as itself through the input walk |

## Left out

- The Gecode propagation and search engine, the DFS searcher and the branching heuristics are left out. They are a foreign library (src/GameOfLife.cpp:202-212, src/Main.cpp:96-98, 131-133). `Driver.Search` stands for "some solution, or none". Every space the program builds has at most one solution, so this loses nothing.
- The copy constructors, `copy()` and the `GECODE_VERSION_NUMBER` variants are left out. They are an artefact of the engine's copy-on-branch protocol, not Game of Life logic.
- The cross-space copy of the previous `_board` is left out (src/GameOfLife.cpp:71-72). The model reads the previous round's solved values as a plain board.
- Printing format is left out: the labels, line breaks and the `E` marker for unassigned values. Only the order of the printed values is modelled, in `Output`.
- CLI plumbing is left out: `argc`, the usage message, `atoi`, reading from stdin, and the smart pointers. The token stream is a `seq<int>`, a missing token reads as 0 (as `tValue` starts at 0), and the round count is a `nat`.
- Grid.Key: unsigned 32-bit arithmetic is not modelled. `length * length` and `x * length + y` are unbounded here, whereas the source wraps them for length ≥ 65536.
- GameOfLife.Activate: requires the cell to be in range. The source does no bounds check and would index outside the matrix; every caller in the program passes an in-range cell.
- GameOfLife.ActivateFromPreviousBoard: requires length ≥ 1. For length 0 the unsigned bound `_length - 1` wraps around; the driver never builds such a space, because it rejects length 0 first.
- Driver.Search: a ghost choice, so the model does not say which of several solutions the engine would return. It only matters for spaces with several solutions, and no space the program builds has more than one.
- The general property that round k emits `LifeStep^k(initial)` is proved. Concrete boards such as the blinker are not proved to step as expected, because evaluating `LifeStep` on a concrete 5×5 board is too costly for the solver.

## Findings

| source | as written | input that shows it | evidently intended | confidence | as-written member | corrected member |
|---|---|---|---|---|---|---|
| src/GameOfLife.cpp:225-247 | `print` walks the variable array in storage order. The matrix view stores cell (x, y) at offset y * length + x, but the input walk at src/Main.cpp:69-86 gives token u * length + v to cell (u, v). So printed row r, column c shows the cell read at row c, column r. | length 5, a horizontal blinker at row 2, columns 1-3. Round 1's board is the vertical blinker, which `print` shows as the horizontal one, so round 1 prints identical to the input. Every printed round is the mirror image of the true board; the printed rounds still alternate. | each round printed in the same orientation as the input grid | medium, not executed; depends on the library's matrix view storing (column, row) | Output.PrintedAsWritten, with Output.PrintedAsWrittenTransposes and Output.BlinkerPrintedSideways | Output.Printed, with Output.PrintedReadsBack |

Because of `Grid.IterateCommutesWithTranspose`, the printed sequence is still a valid Game of Life run: it is the run of the mirrored input.
