/** Known patterns under the kernel's rule: the period-2 blinker and the
    block still life, placed away from the border. */
module LifePatterns {
  import opened LifeRules

  /** The 5x5 grid whose only live cells are (2,1), (2,2), (2,3). */
  function BlinkerRow(): (g: Grid)
    ensures |g| == 5 && Square(g)
  {
    [[0, 0, 0, 0, 0],
     [0, 0, 0, 0, 0],
     [0, 1, 1, 1, 0],
     [0, 0, 0, 0, 0],
     [0, 0, 0, 0, 0]]
  }

  /** The 5x5 grid whose only live cells are (1,2), (2,2), (3,2). */
  function BlinkerColumn(): (g: Grid)
    ensures |g| == 5 && Square(g)
  {
    [[0, 0, 0, 0, 0],
     [0, 0, 1, 0, 0],
     [0, 0, 1, 0, 0],
     [0, 0, 1, 0, 0],
     [0, 0, 0, 0, 0]]
  }

  /** The 6x6 grid whose only live cells are the 2x2 block at rows and
      columns 2 and 3. */
  function Block(): (g: Grid)
    ensures |g| == 6 && Square(g)
  {
    [[0, 0, 0, 0, 0, 0],
     [0, 0, 0, 0, 0, 0],
     [0, 0, 1, 1, 0, 0],
     [0, 0, 1, 1, 0, 0],
     [0, 0, 0, 0, 0, 0],
     [0, 0, 0, 0, 0, 0]]
  }

  /** One step turns the horizontal blinker into the vertical one. */
  lemma BlinkerRowToColumn()
    ensures NextGen(BlinkerRow()) == BlinkerColumn()
  {
    var h, v := BlinkerRow(), BlinkerColumn();
    forall i, j | 1 <= i <= 3 && 1 <= j <= 3
      ensures NextGen(h)[i][j] == v[i][j]
    {
      assert NextGen(h)[i][j] == NextCell(h, h, i, j);
    }
    GridsEqual(NextGen(h), v);
  }

  /** One step turns the vertical blinker back into the horizontal one. */
  lemma BlinkerColumnToRow()
    ensures NextGen(BlinkerColumn()) == BlinkerRow()
  {
    var h, v := BlinkerRow(), BlinkerColumn();
    forall i, j | 1 <= i <= 3 && 1 <= j <= 3
      ensures NextGen(v)[i][j] == h[i][j]
    {
      assert NextGen(v)[i][j] == NextCell(v, v, i, j);
    }
    GridsEqual(NextGen(v), h);
  }

  /** The blinker has period 2: after an even number of steps it is
      horizontal again, after an odd number it is vertical. */
  lemma {:induction false} BlinkerPeriod(k: nat)
    ensures Iterate(BlinkerRow(), 2 * k) == BlinkerRow()
    ensures Iterate(BlinkerRow(), 2 * k + 1) == BlinkerColumn()
    decreases k
  {
    BlinkerRowToColumn();
    BlinkerColumnToRow();
    if k > 0 {
      BlinkerPeriod(k - 1);
    }
  }

  /** Rows 1 and 2 of the block grid are unchanged by one step. */
  lemma BlockUpperStill()
    ensures forall i, j :: 1 <= i <= 2 && 1 <= j <= 4 ==> NextGen(Block())[i][j] == Block()[i][j]
  {
    var b := Block();
    forall i, j | 1 <= i <= 2 && 1 <= j <= 4
      ensures NextGen(b)[i][j] == b[i][j]
    {
      assert NextGen(b)[i][j] == NextCell(b, b, i, j);
    }
  }

  /** Rows 3 and 4 of the block grid are unchanged by one step. */
  lemma BlockLowerStill()
    ensures forall i, j :: 3 <= i <= 4 && 1 <= j <= 4 ==> NextGen(Block())[i][j] == Block()[i][j]
  {
    var b := Block();
    forall i, j | 3 <= i <= 4 && 1 <= j <= 4
      ensures NextGen(b)[i][j] == b[i][j]
    {
      assert NextGen(b)[i][j] == NextCell(b, b, i, j);
    }
  }

  /** One step leaves the block as it is. */
  lemma BlockStep()
    ensures NextGen(Block()) == Block()
  {
    BlockUpperStill();
    BlockLowerStill();
    GridsEqual(NextGen(Block()), Block());
  }

  /** The block is a still life: it is unchanged after any number of steps. */
  lemma BlockIsStill(t: nat)
    ensures Iterate(Block(), t) == Block()
  {
    BlockStep();
    IterateFixedPoint(Block(), t);
  }
}
