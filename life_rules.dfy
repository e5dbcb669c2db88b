/** The Game of Life transition rule on square grids held as values.
    A grid is a sequence of rows; cell (i, j) is g[i][j], 1 for alive and
    0 for dead. Only interior cells (neither row nor column 0 or size-1)
    are ever recomputed; border cells keep whatever the target grid held. */
module LifeRules {

  type Grid = seq<seq<int>>

  /** Every row is as long as the grid has rows. */
  predicate Square(g: Grid) {
    forall i :: 0 <= i < |g| ==> |g[i]| == |g|
  }

  /** Two square grids of the same size. */
  predicate SameShape(g: Grid, h: Grid) {
    Square(g) && Square(h) && |g| == |h|
  }

  /** (i, j) is a cell the step recomputes in a size-n grid. */
  predicate Interior(n: int, i: int, j: int) {
    1 <= i <= n - 2 && 1 <= j <= n - 2
  }

  /** Every cell is 0 or 1. */
  predicate Binary(g: Grid) {
    forall i, j :: 0 <= i < |g| && 0 <= j < |g[i]| ==> g[i][j] == 0 || g[i][j] == 1
  }

  /** Every cell is 0. */
  predicate AllZero(g: Grid) {
    forall i, j :: 0 <= i < |g| && 0 <= j < |g[i]| ==> g[i][j] == 0
  }

  /** g and h have the same size and agree on every border cell. */
  predicate SameBorder(g: Grid, h: Grid) {
    SameShape(g, h) &&
    forall i, j :: 0 <= i < |g| && 0 <= j < |g| && !Interior(|g|, i, j) ==> g[i][j] == h[i][j]
  }

  /** The size-n grid whose cells are all dead. */
  function ZeroGrid(n: nat): (g: Grid)
    ensures |g| == n && Square(g) && AllZero(g) && Binary(g)
  {
    seq(n, i => seq(n, j => 0))
  }

  /** Sum of the eight cells around (i, j), in the order the kernel adds them. */
  function Neighbors(g: Grid, i: int, j: int): (sum: int)
    requires Square(g) && Interior(|g|, i, j)
    ensures Binary(g) ==> 0 <= sum <= 8
    ensures AllZero(g) ==> sum == 0
  {
    g[i + 1][j + 1] + g[i + 1][j] + g[i + 1][j - 1] +
    g[i][j - 1] + g[i][j + 1] +
    g[i - 1][j - 1] + g[i - 1][j] + g[i - 1][j + 1]
  }

  /** The kernel's cell rule: alive when the neighbour sum is 3, or when the
      cell itself plus that sum is 3. */
  function Rule(cell: int, neighbors: int): (next: int)
    ensures next == 0 || next == 1
  {
    if neighbors == 3 || cell + neighbors == 3 then 1 else 0
  }

  /** New value of cell (i, j) when p is read and c is written. */
  function NextCell(p: Grid, c: Grid, i: int, j: int): int
    requires SameShape(p, c) && 0 <= i < |p| && 0 <= j < |p|
  {
    if Interior(|p|, i, j) then Rule(p[i][j], Neighbors(p, i, j)) else c[i][j]
  }

  /** One step of the kernel reading generation p and writing into grid c:
      every interior cell follows the rule on p, every border cell keeps
      its value in c. */
  function StepInto(p: Grid, c: Grid): (r: Grid)
    requires SameShape(p, c)
    ensures SameShape(r, p)
    ensures SameBorder(r, c)
    ensures forall i, j :: Interior(|p|, i, j) ==> r[i][j] == 0 || r[i][j] == 1
  {
    seq(|p|, i requires 0 <= i < |p| =>
      seq(|p|, j requires 0 <= j < |p| => NextCell(p, c, i, j)))
  }

  /** The next generation of g, borders taken from g itself. */
  function NextGen(g: Grid): (r: Grid)
    requires Square(g)
    ensures SameBorder(r, g)
  {
    StepInto(g, g)
  }

  /** NextGen applied t times. */
  function Iterate(g: Grid, t: nat): (r: Grid)
    requires Square(g)
    ensures SameShape(r, g)
    decreases t
  {
    if t == 0 then g else Iterate(NextGen(g), t - 1)
  }

  /** The (previous, current) pair after t rounds of "step p into c, then
      swap the two roles", starting from previous p and current c. */
  function Generations(p: Grid, c: Grid, t: nat): (r: (Grid, Grid))
    requires SameShape(p, c)
    ensures SameShape(r.0, p) && SameShape(r.1, p)
    decreases t
  {
    if t == 0 then (p, c) else Generations(StepInto(p, c), p, t - 1)
  }

  /** Two grids equal cell by cell are equal. */
  lemma GridsEqual(g: Grid, h: Grid)
    requires SameShape(g, h)
    requires forall i, j :: 0 <= i < |g| && 0 <= j < |g| ==> g[i][j] == h[i][j]
    ensures g == h
  {
    forall i | 0 <= i < |g|
      ensures g[i] == h[i]
    {
      assert forall j :: 0 <= j < |g| ==> g[i][j] == h[i][j];
    }
  }

  /** Read as the textbook rule on 0/1 cells: a live cell survives with two
      or three live neighbours, a dead cell is born with exactly three. */
  lemma RuleIsConway(cell: int, neighbors: int)
    requires cell == 0 || cell == 1
    ensures Rule(cell, neighbors) == 1 <==>
      (cell == 1 && (neighbors == 2 || neighbors == 3)) || (cell == 0 && neighbors == 3)
  {
  }

  /** A step only reads the previous generation: when the target grid
      already carries p's border, stepping into it yields NextGen(p). */
  lemma StepIntoMatchingBorder(p: Grid, c: Grid)
    requires SameBorder(p, c)
    ensures StepInto(p, c) == NextGen(p)
  {
    GridsEqual(StepInto(p, c), NextGen(p));
  }

  /** A cell's new value depends only on the 3x3 window around it in the
      generation read, never on any other cell, old or new. */
  lemma NextCellIsLocal(p: Grid, c: Grid, q: Grid, d: Grid, i: int, j: int)
    requires SameShape(p, c) && SameShape(q, d) && |p| == |q|
    requires Interior(|p|, i, j)
    requires forall x, y :: i - 1 <= x <= i + 1 && j - 1 <= y <= j + 1 ==> p[x][y] == q[x][y]
    ensures StepInto(p, c)[i][j] == StepInto(q, d)[i][j]
  {
    assert p[i][j] == q[i][j];
    assert Neighbors(p, i, j) == Neighbors(q, i, j) by {
      assert p[i + 1][j + 1] == q[i + 1][j + 1] && p[i + 1][j] == q[i + 1][j];
      assert p[i + 1][j - 1] == q[i + 1][j - 1] && p[i][j - 1] == q[i][j - 1];
      assert p[i][j + 1] == q[i][j + 1] && p[i - 1][j - 1] == q[i - 1][j - 1];
      assert p[i - 1][j] == q[i - 1][j] && p[i - 1][j + 1] == q[i - 1][j + 1];
    }
  }

  /** A step that reads an all-dead generation writes 0 into every interior
      cell, whatever the target grid held. */
  lemma StepFromDead(p: Grid, c: Grid)
    requires SameShape(p, c) && AllZero(p)
    ensures forall i, j :: Interior(|p|, i, j) ==> StepInto(p, c)[i][j] == 0
  {
    forall i, j | Interior(|p|, i, j)
      ensures StepInto(p, c)[i][j] == 0
    {
      assert p[i][j] == 0 && Neighbors(p, i, j) == 0;
    }
  }

  /** Stepping keeps every cell 0 or 1 as long as the written grid is. */
  lemma StepIntoBinary(p: Grid, c: Grid)
    requires SameShape(p, c) && Binary(c)
    ensures Binary(StepInto(p, c))
  {
    var r := StepInto(p, c);
    forall i, j | 0 <= i < |r| && 0 <= j < |r[i]|
      ensures r[i][j] == 0 || r[i][j] == 1
    {
      if !Interior(|p|, i, j) {
        assert r[i][j] == c[i][j];
      }
    }
  }

  /** One more round of the step-and-swap loop is one more step of the
      pair reached after t rounds. */
  lemma {:induction false} GenerationsSnoc(p: Grid, c: Grid, t: nat)
    requires SameShape(p, c)
    ensures var g := Generations(p, c, t);
      Generations(p, c, t + 1) == (StepInto(g.0, g.1), g.0)
    decreases t
  {
    if t > 0 {
      GenerationsSnoc(StepInto(p, c), p, t - 1);
    }
  }

  /** When the two buffers start with the same border, the buffer playing
      "previous" after t rounds holds the t-th generation of the start, and
      the two buffers still share that border. */
  lemma {:induction false} GenerationsIterate(p: Grid, c: Grid, t: nat)
    requires SameBorder(p, c)
    ensures Generations(p, c, t).0 == Iterate(p, t)
    ensures SameBorder(Generations(p, c, t).0, Generations(p, c, t).1)
    decreases t
  {
    if t > 0 {
      StepIntoMatchingBorder(p, c);
      GenerationsIterate(NextGen(p), p, t - 1);
    }
  }

  /** Border cells never change, however many generations are computed. */
  lemma {:induction false} IterateKeepsBorder(g: Grid, t: nat)
    requires Square(g)
    ensures SameBorder(Iterate(g, t), g)
    decreases t
  {
    if t > 0 {
      IterateKeepsBorder(NextGen(g), t - 1);
    }
  }

  /** Cells stay 0 or 1 across any number of generations. */
  lemma {:induction false} IterateBinary(g: Grid, t: nat)
    requires Square(g) && Binary(g)
    ensures Binary(Iterate(g, t))
    decreases t
  {
    if t > 0 {
      StepIntoBinary(g, g);
      IterateBinary(NextGen(g), t - 1);
    }
  }

  /** A pattern the rule maps to itself stays put forever. */
  lemma {:induction false} IterateFixedPoint(g: Grid, t: nat)
    requires Square(g) && NextGen(g) == g
    ensures Iterate(g, t) == g
    decreases t
  {
    if t > 0 {
      IterateFixedPoint(g, t - 1);
    }
  }

  /** An all-dead grid stays all-dead after any number of steps. */
  lemma Extinction(g: Grid, t: nat)
    requires Square(g) && AllZero(g)
    ensures Iterate(g, t) == g
  {
    StepFromDead(g, g);
    GridsEqual(NextGen(g), g);
    IterateFixedPoint(g, t);
  }
}
