# Conway's Game of Life kernel: a Dafny model

This project models the generation kernel of a C program that runs Conway's
Game of Life on a `size × size` grid of `int` cells (1 alive, 0 dead). The
program allocates two zero-filled grids and seeds the same random interior
cells to 1 in both. It then runs the time-step loop. Each step rewrites every
interior cell of `current` from its 3×3 neighbourhood in `previous`, and then
the two grid pointers swap roles. Border rows and columns are never written.

The model is split in four modules:

- `LifeRules` (life_rules.dfy) holds the rule on grid values (`seq<seq<int>>`).
  It defines the neighbour sum, the cell rule, one step into a target grid
  (`StepInto`), the next generation (`NextGen`), its t-fold iterate and the
  (previous, current) pair reached after t rounds of step-and-swap
  (`Generations`). Lemmas cover border invariance, 0/1 cells, extinction,
  locality and the link between the swap loop and iteration.
- `LifePatterns` (life_patterns.dfy) holds the blinker (period 2) and the
  block (still life), proved against the rule.
- `Seeding` (seeding.dfy) maps one raw random draw to an interior cell, as
  the seeding loop does. It proves that this map lands in the interior, that
  it reaches every interior cell and that it is one-to-one on
  `[0, (size-2)^2)`. It also defines the seeded grid.
- `GameOfLife` (game_of_life.dfy) is the imperative program over
  `array2<int>`: allocation, seeding of both grids, the step, the sequential
  step-and-swap loop, and `RunGame`, which chains them as `main` does.

Two points where the model follows the code rather than the usual statement
of the game:

- The code's cell rule is `neighbors == 3 || previous + neighbors == 3`, with
  no separate "alive and two neighbours" test. The model uses that expression.
  `RuleIsConway` shows it is the textbook rule on 0/1 cells.
- The code's parallel directive sits on the time-step loop. The model runs
  that loop sequentially, as the algorithm requires (see Left out).

Every grid size is accepted. Below size 4 the seeding loop runs
`size*size/10 = 0` times, so no draw is taken and seeding changes nothing
(`SmallSizeNoDraws`, `SeedSmallGrid`). Below size 3 the grid has no
interior, so a step writes nothing.

## Model

| member | source | states |
|---|---|---|
| LifeRules.Neighbors | GameOfLife.cpp:36-38 | the eight-cell sum lies in 0..8 when cells are 0/1, and is 0 in an all-dead grid |
| LifeRules.Rule | GameOfLife.cpp:40-43 | the value written into a cell is always 0 or 1 |
| LifeRules.RuleIsConway | GameOfLife.cpp:40 | on a 0/1 cell the rule gives 1 exactly when a live cell has 2 or 3 live neighbours or a dead cell has exactly 3 |
| LifeRules.StepInto | GameOfLife.cpp:34-45 | one step keeps the grid size, leaves every border cell of the written grid as it was, and writes 0 or 1 into every interior cell |
| LifeRules.NextGen | GameOfLife.cpp:34-45 | the next generation agrees with the previous one on every border cell |
| LifeRules.Iterate | GameOfLife.cpp:33-50 | any number of generations keeps the grid square and of the same size |
| LifeRules.Generations | GameOfLife.cpp:33-49 | both buffers keep the starting size through any number of step-and-swap rounds |
| LifeRules.StepIntoMatchingBorder | GameOfLife.cpp:34-45 | stepping into a grid that shares the previous grid's border gives exactly the next generation of the previous grid, whatever its interior held |
| LifeRules.NextCellIsLocal | GameOfLife.cpp:36-40 | a cell's new value depends only on its 3x3 window in the grid read, never on the target grid or on other new values |
| LifeRules.StepFromDead | GameOfLife.cpp:40-43 | reading an all-dead grid writes 0 into every interior cell |
| LifeRules.StepIntoBinary | GameOfLife.cpp:41-43 | if the written grid holds only 0/1 before a step, it holds only 0/1 after |
| LifeRules.GenerationsSnoc | GameOfLife.cpp:47-49 | round t+1 steps the pair reached after t rounds, then the grid just written becomes previous and the grid just read becomes current |
| LifeRules.GenerationsIterate | GameOfLife.cpp:33-49 | with equal starting borders, previous after t rounds is the t-th generation of the start, and the two buffers still share their border |
| LifeRules.IterateKeepsBorder | GameOfLife.cpp:34-35 | border cells are the same after any number of generations |
| LifeRules.IterateBinary | GameOfLife.cpp:41-43 | a 0/1 grid stays 0/1 across any number of generations |
| LifeRules.IterateFixedPoint | GameOfLife.cpp:33-49 | a grid that one step maps to itself is unchanged after any number of steps |
| LifeRules.Extinction | GameOfLife.cpp:36-43 | an all-dead grid stays all-dead forever |
| LifeRules.ZeroGrid | GameOfLife.cpp:70-72 | the zero grid has the requested size, is all dead and is 0/1 |
| LifePatterns.BlinkerRowToColumn | GameOfLife.cpp:34-45 | on a 5x5 grid, live cells (2,1),(2,2),(2,3) become exactly (1,2),(2,2),(3,2) after one step |
| LifePatterns.BlinkerColumnToRow | GameOfLife.cpp:34-45 | the vertical blinker becomes the horizontal one after one step |
| LifePatterns.BlinkerPeriod | GameOfLife.cpp:33-49 | the blinker is horizontal after every even number of steps and vertical after every odd number |
| LifePatterns.BlockStep | GameOfLife.cpp:34-45 | a 2x2 block surrounded by dead cells is unchanged by one step |
| LifePatterns.BlockIsStill | GameOfLife.cpp:33-49 | the block is unchanged after any number of steps |
| Seeding.Target | GameOfLife.cpp:88-89 | a draw always selects an interior cell, so seeding never touches the border |
| Seeding.Targets | GameOfLife.cpp:87-90 | every cell the draws select is interior |
| Seeding.Seed | GameOfLife.cpp:87-91 | seeding keeps the grid size and border, every selected cell is 1, and every cell no draw selects keeps its value |
| Seeding.SmallSizeNoDraws | GameOfLife.cpp:87 | below size 4 the seeding loop runs zero times, so no draw is reduced modulo (size-2)^2 |
| Seeding.SeedSmallGrid | GameOfLife.cpp:87-91 | a grid smaller than 3x3 is left unchanged by seeding |
| Seeding.TargetOnto | GameOfLife.cpp:88-89 | every interior cell is selected by some draw in [0,(size-2)^2) |
| Seeding.TargetInjective | GameOfLife.cpp:88-89 | two draws in [0,(size-2)^2) that select the same cell are equal |
| Seeding.TargetsSnoc | GameOfLife.cpp:87-90 | one more loop iteration adds exactly the cell its draw selects |
| Seeding.SeedBinary | GameOfLife.cpp:89-90 | seeding a 0/1 grid leaves a 0/1 grid |
| Seeding.SeedFromDead | GameOfLife.cpp:89-90 | seeding a fresh all-dead grid makes a cell alive exactly when some draw selects it |
| GameOfLife.AllocateArray | GameOfLife.cpp:63-75 | returns a fresh size x size grid whose every cell is 0 |
| GameOfLife.InitializeRandom | GameOfLife.cpp:84-91 | both grids receive the same writes: each becomes its own seeded version, and two grids that start equal are still equal |
| GameOfLife.Step | GameOfLife.cpp:34-45 | current becomes the one-step image of previous, with current's border kept; previous is not changed |
| GameOfLife.Simulate | GameOfLife.cpp:33-50 | after steps rounds, the references hold the pair given by Generations and have swapped steps times; with equal starting borders, previous holds the steps-th generation of the start |
| GameOfLife.RunGame | GameOfLife.cpp:23-50 | allocating, seeding and running leaves previous equal to the steps-th generation of the seeded grid, with only 0/1 cells and a dead border |

## Left out

- Concurrency: the `#pragma omp parallel for` on the time-step loop and `omp_set_num_threads` are not modelled. As written, threads would race on the shared grid pointers. The model runs the time steps strictly one after another. So "the same result for every thread count" holds trivially and is not stated separately.
- The outer loop over thread counts 1 to 8 only reruns the simulation for timing and is not modelled. The code does not reset the grids between these runs, so the carry-over from one run to the next is not modelled either.
- Timing (`clock`, elapsed seconds) and console input/output are not modelled. `size` and `steps` are parameters, and `steps` is a `nat` (a negative count read from input would run zero iterations in C).
- `srand`/`rand` are replaced by a parameter `draws` holding the non-negative values `rand()` would return. There is one draw per loop iteration, `size*size/10` in all.
- `free_array` and `malloc` are not modelled. Each grid is one Dafny `array2<int>` rather than an array of row pointers.
- C `int` overflow is not modelled: `size*size`, `(size-2)*(size-2)` and the neighbour sum are unbounded integers. On 0/1 grids the sum is at most 8.
- GameOfLife.Step: it requires `previous` and `current` to be distinct objects, as the program's two separate allocations guarantee. With one shared grid, a step would read cells it has already rewritten.
- GameOfLife.Simulate: it requires its two grids to be distinct objects, for the same reason as `Step`.
- Seeding.TargetOnto: it states that the draw-to-cell map reaches every interior cell. The program itself may not: `rand()` only returns values up to `RAND_MAX`, which can be as small as 32767. When `(size-2)^2` exceeds `RAND_MAX + 1`, some interior cells can never be seeded. The model's `draws` are unbounded naturals and do not capture this bound.
