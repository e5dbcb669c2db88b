/** The simulation as the program runs it: two size x size grids of int,
    a step that rewrites every interior cell of "current" from "previous",
    and a loop that steps and then swaps the two grid references. */
module GameOfLife {
  import opened LifeRules
  import opened Seeding

  /** The grid value an array holds. */
  ghost function Cells(a: array2<int>): (g: Grid)
    reads a
    ensures |g| == a.Length0
    ensures forall i :: 0 <= i < |g| ==> |g[i]| == a.Length1
    ensures forall i, j :: 0 <= i < a.Length0 && 0 <= j < a.Length1 ==> g[i][j] == a[i, j]
  {
    seq(a.Length0, i requires 0 <= i < a.Length0 reads a =>
      seq(a.Length1, j requires 0 <= j < a.Length1 reads a => a[i, j]))
  }

  /** A size x size grid with every cell 0. */
  method AllocateArray(size: nat) returns (a: array2<int>)
    ensures fresh(a) && a.Length0 == size && a.Length1 == size
    ensures Cells(a) == ZeroGrid(size)
  {
    a := new int[size, size];
    var i := 0;
    while i < size
      invariant 0 <= i <= size
      invariant forall x, y :: 0 <= x < i && 0 <= y < size ==> a[x, y] == 0
    {
      var j := 0;
      while j < size
        invariant 0 <= j <= size
        invariant forall x, y :: 0 <= x < i && 0 <= y < size ==> a[x, y] == 0
        invariant forall y :: 0 <= y < j ==> a[i, y] == 0
      {
        a[i, j] := 0;
        j := j + 1;
      }
      i := i + 1;
    }
    GridsEqual(Cells(a), ZeroGrid(size));
  }

  /** Seeds both grids with the same cells: one draw per iteration, size*size/10
      iterations, each setting the selected interior cell to 1 in both. */
  method InitializeRandom(grid1: array2<int>, grid2: array2<int>, size: nat, draws: seq<nat>)
    requires |draws| == size * size / 10
    requires grid1.Length0 == size && grid1.Length1 == size
    requires grid2.Length0 == size && grid2.Length1 == size
    modifies grid1, grid2
    ensures Cells(grid1) == Seed(old(Cells(grid1)), draws)
    ensures Cells(grid2) == Seed(old(Cells(grid2)), draws)
    ensures old(Cells(grid1)) == old(Cells(grid2)) ==> Cells(grid1) == Cells(grid2)
  {
    ghost var g1, g2 := Cells(grid1), Cells(grid2);
    ghost var chosen: set<(int, int)> := {};
    if size < 4 {
      SmallSizeNoDraws(size);
    }
    var m, count := size - 2, size * size / 10;
    var k := 0;
    while k < count
      invariant 0 <= k <= |draws| == count
      invariant chosen == Targets(size, draws[..k])
      invariant forall x, y :: 0 <= x < size && 0 <= y < size ==>
        grid1[x, y] == if (x, y) in chosen then 1 else g1[x][y]
      invariant forall x, y :: 0 <= x < size && 0 <= y < size ==>
        grid2[x, y] == if (x, y) in chosen then 1 else g2[x][y]
    {
      assert size >= 4;
      var position := draws[k] % (m * m);
      var row, col := position % m + 1, position / m + 1;
      assert (row, col) == Target(size, draws[k]);
      grid1[row, col] := 1;
      grid2[row, col] := 1;
      TargetsSnoc(size, draws, k);
      chosen := chosen + {(row, col)};
      k := k + 1;
    }
    assert draws[..k] == draws;
    SeededCells(grid1, g1, draws);
    SeededCells(grid2, g2, draws);
  }

  /** An array holding 1 on the selected cells and g elsewhere holds Seed(g, d). */
  lemma SeededCells(a: array2<int>, g: Grid, d: seq<nat>)
    requires Square(g) && a.Length0 == |g| && a.Length1 == |g|
    requires forall x, y :: 0 <= x < |g| && 0 <= y < |g| ==>
      a[x, y] == if (x, y) in Targets(|g|, d) then 1 else g[x][y]
    ensures Cells(a) == Seed(g, d)
  {
    GridsEqual(Cells(a), Seed(g, d));
  }

  /** One generation: every interior cell of current gets the rule applied to
      its neighbourhood in previous; previous and the border of current are
      left as they were. */
  method Step(previous: array2<int>, current: array2<int>, size: nat)
    requires previous != current
    requires previous.Length0 == size && previous.Length1 == size
    requires current.Length0 == size && current.Length1 == size
    modifies current
    ensures Cells(current) == StepInto(old(Cells(previous)), old(Cells(current)))
    ensures Cells(previous) == old(Cells(previous))
  {
    ghost var p, c := Cells(previous), Cells(current);
    var i := 1;
    while i < size - 1
      invariant 1 <= i && (size >= 2 ==> i <= size - 1)
      invariant forall x, y :: 0 <= x < size && 0 <= y < size ==>
        current[x, y] == if x < i then NextCell(p, c, x, y) else c[x][y]
    {
      var j := 1;
      while j < size - 1
        invariant 1 <= j <= size - 1
        invariant forall x, y :: 0 <= x < size && 0 <= y < size ==>
          current[x, y] == if x < i || (x == i && y < j) then NextCell(p, c, x, y) else c[x][y]
      {
        var neighbors := previous[i + 1, j + 1] + previous[i + 1, j] + previous[i + 1, j - 1] +
                         previous[i, j - 1] + previous[i, j + 1] +
                         previous[i - 1, j - 1] + previous[i - 1, j] + previous[i - 1, j + 1];
        assert neighbors == Neighbors(p, i, j);
        if neighbors == 3 || previous[i, j] + neighbors == 3 {
          current[i, j] := 1;
        } else {
          current[i, j] := 0;
        }
        j := j + 1;
      }
      i := i + 1;
    }
    GridsEqual(Cells(current), StepInto(p, c));
  }

  /** The time-step loop run sequentially: steps times, step previous into
      current and then swap the two references. Returns the references in
      their final roles. */
  method Simulate(grid0: array2<int>, grid1: array2<int>, size: nat, steps: nat)
    returns (previous: array2<int>, current: array2<int>)
    requires grid0 != grid1
    requires grid0.Length0 == size && grid0.Length1 == size
    requires grid1.Length0 == size && grid1.Length1 == size
    modifies grid0, grid1
    ensures if steps % 2 == 0 then previous == grid0 && current == grid1
            else previous == grid1 && current == grid0
    ensures (Cells(previous), Cells(current)) == Generations(old(Cells(grid0)), old(Cells(grid1)), steps)
    ensures SameBorder(old(Cells(grid0)), old(Cells(grid1))) ==>
      Cells(previous) == Iterate(old(Cells(grid0)), steps)
  {
    ghost var p0, c0 := Cells(grid0), Cells(grid1);
    previous, current := grid0, grid1;
    var t := 0;
    while t < steps
      invariant 0 <= t <= steps
      invariant if t % 2 == 0 then previous == grid0 && current == grid1
                else previous == grid1 && current == grid0
      invariant (Cells(previous), Cells(current)) == Generations(p0, c0, t)
    {
      Step(previous, current, size);
      GenerationsSnoc(p0, c0, t);
      var temp := current;
      current := previous;
      previous := temp;
      t := t + 1;
    }
    if SameBorder(p0, c0) {
      GenerationsIterate(p0, c0, steps);
    }
  }

  /** The program's simulation from allocation to the last generation:
      allocate both grids, seed them identically from the draws, then run
      the time-step loop. The grid left in the "previous" role holds the
      steps-th generation of the seeded grid; its cells are 0 or 1 and its
      border is dead. */
  method RunGame(size: nat, steps: nat, draws: seq<nat>) returns (previous: array2<int>, current: array2<int>)
    requires |draws| == size * size / 10
    ensures previous.Length0 == size && previous.Length1 == size
    ensures current.Length0 == size && current.Length1 == size
    ensures Cells(previous) == Iterate(Seed(ZeroGrid(size), draws), steps)
    ensures Binary(Cells(previous))
    ensures forall i, j :: 0 <= i < size && 0 <= j < size && !Interior(size, i, j) ==> previous[i, j] == 0
  {
    current := AllocateArray(size);
    previous := AllocateArray(size);
    InitializeRandom(previous, current, size, draws);
    ghost var start := Cells(previous);
    previous, current := Simulate(previous, current, size, steps);
    SeedBinary(ZeroGrid(size), draws);
    IterateBinary(start, steps);
    IterateKeepsBorder(start, steps);
  }
}
