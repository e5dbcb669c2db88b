/** Random seeding of the starting generation. The pseudo-random source is
    replaced by the sequence of raw draws it would have returned (each a
    non-negative int, as rand() yields); the model reduces and maps them
    exactly as the seeding loop does. */
module Seeding {
  import opened LifeRules

  /** The interior cell one raw draw r selects in a size-n grid: the draw
      is reduced to a flat position in [0, (n-2)^2), whose remainder by n-2
      picks the row and whose quotient picks the column. r and the modulus
      are non-negative, so Dafny's % and / agree with C's here. */
  function Target(n: int, r: nat): (cell: (int, int))
    requires n >= 3
    ensures Interior(n, cell.0, cell.1)
  {
    var m := n - 2;
    var position := r % (m * m);
    QuotientBelow(position, m);
    (position % m + 1, position / m + 1)
  }

  /** The cells selected by the draws in d. A grid smaller than 3x3 has no
      interior, and nothing is selected in it. */
  function Targets(n: int, d: seq<nat>): (cells: set<(int, int)>)
    ensures forall c :: c in cells ==> Interior(n, c.0, c.1)
  {
    if n >= 3 then set k | 0 <= k < |d| :: Target(n, d[k]) else {}
  }

  /** g with every selected cell set to 1 and every other cell unchanged. */
  function Seed(g: Grid, d: seq<nat>): (r: Grid)
    requires Square(g)
    ensures SameShape(r, g)
    ensures SameBorder(r, g)
    ensures |g| >= 3 ==> forall k :: 0 <= k < |d| ==> r[Target(|g|, d[k]).0][Target(|g|, d[k]).1] == 1
    ensures forall i, j :: 0 <= i < |g| && 0 <= j < |g| && (i, j) !in Targets(|g|, d) ==> r[i][j] == g[i][j]
  {
    var n := |g|;
    var chosen := Targets(n, d);
    assert forall i, j :: !Interior(n, i, j) ==> (i, j) !in chosen;
    seq(n, i requires 0 <= i < n =>
      seq(n, j requires 0 <= j < n => if (i, j) in chosen then 1 else g[i][j]))
  }

  /** The seeding loop runs size*size/10 times, which is no time at all
      below size 4: no draw is taken and no modulus by zero is computed. */
  lemma SmallSizeNoDraws(size: nat)
    requires size < 4
    ensures size * size / 10 == 0
  {
    assert size * size <= 9 by {
      MulLeftMonotone(size + 1, size, 3);
      assert size * size <= size * 3;
    }
  }

  /** A grid without interior is left as it is by seeding. */
  lemma SeedSmallGrid(g: Grid, d: seq<nat>)
    requires Square(g) && |g| < 3
    ensures Seed(g, d) == g
  {
    GridsEqual(Seed(g, d), g);
  }

  lemma QuotientBelow(p: int, m: int)
    requires 0 < m && 0 <= p < m * m
    ensures 0 <= p / m < m
  {
    var q := p / m;
    assert m * q <= p;
    if q >= m {
      MulLeftMonotone(m, m, q);
      assert false;
    }
  }

  lemma MulLeftMonotone(m: int, a: int, b: int)
    requires 0 < m && a <= b
    ensures m * a <= m * b
  {
  }

  /** Quotient and remainder by a positive m are the unique q, s with
      r == q * m + s and 0 <= s < m. */
  lemma DivModUnique(r: int, m: int, q: int, s: int)
    requires 0 < m && 0 <= s < m && r == q * m + s
    ensures r / m == q && r % m == s
  {
    var q', s' := r / m, r % m;
    assert m * q' + s' == m * q + s;
    assert m * (q' - q) == s - s' && m * (q - q') == s' - s;
    if q' > q {
      MulLeftMonotone(m, 1, q' - q);
      assert false;
    }
    if q' < q {
      MulLeftMonotone(m, 1, q - q');
      assert false;
    }
  }

  /** A row offset a and column offset b in [0, m) flatten into [0, m*m). */
  lemma FlatBelow(m: int, a: int, b: int)
    requires 0 <= a < m && 0 <= b < m
    ensures 0 <= b * m + a < m * m
  {
    MulLeftMonotone(m, 0, b);
    MulLeftMonotone(m, b, m - 1);
    assert m * (m - 1) == m * m - m;
  }

  /** Every interior cell is selected by some draw below (n-2)^2: the one
      whose position is (column-1)*(n-2) + (row-1). */
  lemma TargetOnto(n: int, i: int, j: int)
    requires n >= 3 && Interior(n, i, j)
    ensures 0 <= (j - 1) * (n - 2) + (i - 1) < (n - 2) * (n - 2)
    ensures Target(n, (j - 1) * (n - 2) + (i - 1)) == (i, j)
  {
    var m := n - 2;
    var r := (j - 1) * m + (i - 1);
    FlatBelow(m, i - 1, j - 1);
    DivModUnique(r, m * m, 0, r);
    DivModUnique(r, m, j - 1, i - 1);
  }

  /** Within [0, (n-2)^2) no two draws select the same cell. */
  lemma TargetInjective(n: int, r1: nat, r2: nat)
    requires n >= 3
    requires r1 < (n - 2) * (n - 2) && r2 < (n - 2) * (n - 2)
    requires Target(n, r1) == Target(n, r2)
    ensures r1 == r2
  {
    var m := n - 2;
    DivModUnique(r1, m * m, 0, r1);
    DivModUnique(r2, m * m, 0, r2);
    assert r1 / m == r2 / m && r1 % m == r2 % m;
    assert r1 == m * (r1 / m) + r1 % m;
    assert r2 == m * (r2 / m) + r2 % m;
  }

  /** Adding one draw adds exactly the cell it selects. */
  lemma TargetsSnoc(n: int, d: seq<nat>, k: nat)
    requires n >= 3 && k < |d|
    ensures Targets(n, d[..k + 1]) == Targets(n, d[..k]) + {Target(n, d[k])}
  {
    var before, after := d[..k], d[..k + 1];
    forall c | c in Targets(n, after)
      ensures c in Targets(n, before) + {Target(n, d[k])}
    {
      var x :| 0 <= x < |after| && Target(n, after[x]) == c;
      if x < k {
        assert before[x] == after[x];
      }
    }
    forall c | c in Targets(n, before)
      ensures c in Targets(n, after)
    {
      var x :| 0 <= x < |before| && Target(n, before[x]) == c;
      assert after[x] == before[x];
    }
    assert after[k] == d[k];
  }

  /** Seeding a 0/1 grid leaves a 0/1 grid. */
  lemma SeedBinary(g: Grid, d: seq<nat>)
    requires Square(g) && Binary(g)
    ensures Binary(Seed(g, d))
  {
  }

  /** Seeding an all-dead grid leaves exactly the selected cells alive. */
  lemma SeedFromDead(n: nat, d: seq<nat>)
    ensures forall i, j :: 0 <= i < n && 0 <= j < n ==>
      (Seed(ZeroGrid(n), d)[i][j] == 1 <==> (i, j) in Targets(n, d))
  {
  }
}
