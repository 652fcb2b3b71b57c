/**
  Square Game of Life boards of side L, stored flat.

  Cell (x, y) of a board is stored at index `Key(L, (x, y)) = x * L + y`, which
  is also the value the model records for an activated cell. Boards hold
  integers; a well-formed board holds only 0 (dead) and 1 (alive).
  `LifeStep` is the direct, cell-by-cell simulation of one generation that the
  constraint model is proved equal to.
 */
module Grid {

  /** A cell coordinate, in the (x, y) order the model uses throughout. */
  datatype Cell = Cell(x: nat, y: nat)

  /** A flattened board: cell (x, y) of an L x L board is at index x * L + y. */
  type Board = seq<int>

  predicate InRange(L: nat, c: Cell) {
    c.x < L && c.y < L
  }

  /** First or last row or column. */
  predicate OnBorder(L: nat, c: Cell) {
    c.x == 0 || c.y == 0 || c.x == L - 1 || c.y == L - 1
  }

  /** A cell with a full 3 x 3 neighbourhood inside the board. */
  predicate Interior(L: nat, c: Cell) {
    1 <= c.x && c.x + 2 <= L && 1 <= c.y && c.y + 2 <= L
  }

  /** The activation key of a cell, which is also its index in a flat board. */
  function Key(L: nat, c: Cell): nat {
    c.x * L + c.y
  }

  /** The cell stored at flat index k. */
  function CellAt(L: nat, k: nat): Cell
    requires L > 0
  {
    Cell(k / L, k % L)
  }

  lemma InteriorIsInRangeOffBorder(L: nat, c: Cell)
    ensures Interior(L, c) <==> InRange(L, c) && !OnBorder(L, c)
  {
  }

  lemma KeyInRange(L: nat, c: Cell)
    requires InRange(L, c)
    ensures Key(L, c) < L * L
  {
    calc {
      c.x * L + c.y;
    <
      c.x * L + L;
    ==
      (c.x + 1) * L;
    <=  { MulMonotone(c.x + 1, L, L); }
      L * L;
    }
  }

  lemma MulMonotone(a: nat, b: nat, n: nat)
    requires a <= b
    ensures a * n <= b * n
  {
  }

  /** Keys and flat indices are two views of the same thing: CellAt undoes Key. */
  lemma {:induction false} CellAtKey(L: nat, c: Cell)
    requires InRange(L, c)
    ensures CellAt(L, Key(L, c)) == c
  {
    var k := Key(L, c);
    var q, r := k / L, k % L;
    assert k == q * L + r;
    assert (q - c.x) * L == c.y - r;
    if q > c.x {
      MulMonotone(1, q - c.x, L);
      assert false;
    } else if q < c.x {
      MulMonotone(1, c.x - q, L);
      assert false;
    }
  }

  /** ... and Key undoes CellAt. */
  lemma KeyCellAt(L: nat, k: nat)
    requires k < L * L
    ensures L > 0 && InRange(L, CellAt(L, k)) && Key(L, CellAt(L, k)) == k
  {
    assert L > 0;
    if k / L >= L {
      MulMonotone(L, k / L, L);
      assert false;
    }
  }

  /** Distinct in-range cells have distinct keys. */
  lemma KeyInjective(L: nat, c: Cell, d: Cell)
    requires InRange(L, c) && InRange(L, d)
    ensures Key(L, c) == Key(L, d) <==> c == d
  {
    if Key(L, c) == Key(L, d) {
      CellAtKey(L, c);
      CellAtKey(L, d);
    }
  }

  /** The value of cell c of board g. */
  function At(g: Board, L: nat, c: Cell): int
    requires |g| == L * L && InRange(L, c)
  {
    KeyInRange(L, c);
    g[Key(L, c)]
  }

  /** Every cell of the board is 0 or 1, and the board has L * L cells. */
  predicate IsBoard(L: nat, g: Board) {
    |g| == L * L && forall k :: 0 <= k < |g| ==> g[k] == 0 || g[k] == 1
  }

  /** The board is dead on its first and last rows and columns. */
  ghost predicate BorderZero(L: nat, g: Board)
    requires |g| == L * L
  {
    forall c :: InRange(L, c) && OnBorder(L, c) ==> At(g, L, c) == 0
  }

  lemma IsBoardAt(L: nat, g: Board, c: Cell)
    requires IsBoard(L, g) && InRange(L, c)
    ensures At(g, L, c) == 0 || At(g, L, c) == 1
  {
    KeyInRange(L, c);
  }

  /** Two boards that agree on every in-range cell are equal. */
  lemma BoardExt(L: nat, g: Board, h: Board)
    requires |g| == L * L && |h| == L * L
    requires forall c :: InRange(L, c) ==> At(g, L, c) == At(h, L, c)
    ensures g == h
  {
    forall k | 0 <= k < L * L
      ensures g[k] == h[k]
    {
      KeyCellAt(L, k);
      assert At(g, L, CellAt(L, k)) == At(h, L, CellAt(L, k));
    }
  }

  /** Sum of row x of the 3 x 3 block centred on column y. */
  function RowOfThree(g: Board, L: nat, x: nat, y: nat): int
    requires |g| == L * L && x < L && 1 <= y && y + 2 <= L
  {
    At(g, L, Cell(x, y - 1)) + At(g, L, Cell(x, y)) + At(g, L, Cell(x, y + 1))
  }

  /** Sum of the 3 x 3 block centred on an interior cell. */
  function BlockSum(g: Board, L: nat, c: Cell): int
    requires |g| == L * L && Interior(L, c)
  {
    RowOfThree(g, L, c.x - 1, c.y) + RowOfThree(g, L, c.x, c.y) + RowOfThree(g, L, c.x + 1, c.y)
  }

  /** The number of live Moore neighbours: the 3 x 3 block minus its centre. */
  function Neighbours(g: Board, L: nat, c: Cell): int
    requires |g| == L * L && Interior(L, c)
  {
    BlockSum(g, L, c) - At(g, L, c)
  }

  /** On a 0/1 board the neighbour count lies in 0..8. */
  lemma NeighboursRange(g: Board, L: nat, c: Cell)
    requires IsBoard(L, g) && Interior(L, c)
    ensures 0 <= Neighbours(g, L, c) <= 8
  {
    forall dx: nat, dy: nat | c.x - 1 <= dx <= c.x + 1 && c.y - 1 <= dy <= c.y + 1
      ensures At(g, L, Cell(dx, dy)) == 0 || At(g, L, Cell(dx, dy)) == 1
    {
      IsBoardAt(L, g, Cell(dx, dy));
    }
  }

  /**
    Conway's rule as a plain case split: fewer than two neighbours dies, two
    keeps the current state, three is alive, more than three dies.
   */
  function LifeRule(alive: int, n: int): int {
    if n < 2 then 0
    else if n == 2 then alive
    else if n == 3 then 1
    else 0
  }

  /** The next state of one cell: border cells stay dead, interior cells follow LifeRule. */
  function StepCell(g: Board, L: nat, c: Cell): int
    requires |g| == L * L && InRange(L, c)
  {
    if OnBorder(L, c) then 0
    else
      InteriorIsInRangeOffBorder(L, c);
      LifeRule(At(g, L, c), Neighbours(g, L, c))
  }

  /** One generation by direct simulation. */
  function LifeStep(L: nat, g: Board): (r: Board)
    requires |g| == L * L
    ensures |r| == L * L
    ensures BorderZero(L, r)
    ensures IsBoard(L, g) ==> IsBoard(L, r)
  {
    var r := seq(L * L, k requires 0 <= k < L * L =>
                   KeyCellAt(L, k); StepCell(g, L, CellAt(L, k)));
    assert BorderZero(L, r) by {
      forall c | InRange(L, c) && OnBorder(L, c)
        ensures At(r, L, c) == 0
      {
        KeyInRange(L, c);
        CellAtKey(L, c);
      }
    }
    assert IsBoard(L, g) ==> IsBoard(L, r) by {
      if IsBoard(L, g) {
        forall k | 0 <= k < L * L
          ensures r[k] == 0 || r[k] == 1
        {
          KeyCellAt(L, k);
          var c := CellAt(L, k);
          if !OnBorder(L, c) {
            InteriorIsInRangeOffBorder(L, c);
            IsBoardAt(L, g, c);
          }
        }
      }
    }
    r
  }

  /** Cell c of the next generation is the rule applied to cell c. */
  lemma LifeStepAt(L: nat, g: Board, c: Cell)
    requires |g| == L * L && InRange(L, c)
    ensures At(LifeStep(L, g), L, c) == StepCell(g, L, c)
  {
    KeyInRange(L, c);
    CellAtKey(L, c);
  }

  /** k generations of direct simulation. */
  function Iterate(L: nat, g: Board, k: nat): (r: Board)
    requires |g| == L * L
    ensures |r| == L * L
    ensures IsBoard(L, g) ==> IsBoard(L, r)
    decreases k
  {
    if k == 0 then g else Iterate(L, LifeStep(L, g), k - 1)
  }

  // ---------------------------------------------------------------------------
  // Facts about the reference step

  /** The all-dead board. */
  function Dead(L: nat): (g: Board)
    ensures IsBoard(L, g)
  {
    seq(L * L, k => 0)
  }

  /** Nothing is born without live neighbours: the dead board stays dead. */
  lemma DeadStaysDead(L: nat)
    ensures LifeStep(L, Dead(L)) == Dead(L)
  {
    var g := Dead(L);
    forall c | InRange(L, c)
      ensures At(LifeStep(L, g), L, c) == At(g, L, c)
    {
      KeyInRange(L, c);
      LifeStepAt(L, g, c);
      if !OnBorder(L, c) {
        InteriorIsInRangeOffBorder(L, c);
        forall dx: nat, dy: nat | c.x - 1 <= dx <= c.x + 1 && c.y - 1 <= dy <= c.y + 1
          ensures At(g, L, Cell(dx, dy)) == 0
        {
          KeyInRange(L, Cell(dx, dy));
        }
      }
    }
    BoardExt(L, LifeStep(L, g), g);
  }

  /** The mirror image of a cell in the main diagonal. */
  function Swap(c: Cell): Cell {
    Cell(c.y, c.x)
  }

  /** The board mirrored in its main diagonal. */
  function Transpose(L: nat, g: Board): (t: Board)
    requires |g| == L * L
    ensures |t| == L * L
    ensures forall c :: InRange(L, c) ==> At(t, L, c) == At(g, L, Swap(c))
  {
    var t := seq(L * L, k requires 0 <= k < L * L => KeyCellAt(L, k); At(g, L, Swap(CellAt(L, k))));
    forall c | InRange(L, c)
      ensures At(t, L, c) == At(g, L, Swap(c))
    {
      KeyInRange(L, c);
      CellAtKey(L, c);
    }
    t
  }

  /**
    The rule only counts neighbours, so it does not see the orientation of the
    board: stepping commutes with transposition.
   */
  lemma StepCommutesWithTranspose(L: nat, g: Board)
    requires |g| == L * L
    ensures LifeStep(L, Transpose(L, g)) == Transpose(L, LifeStep(L, g))
  {
    var t := Transpose(L, g);
    forall c | InRange(L, c)
      ensures At(LifeStep(L, t), L, c) == At(Transpose(L, LifeStep(L, g)), L, c)
    {
      LifeStepAt(L, t, c);
      LifeStepAt(L, g, Swap(c));
      if !OnBorder(L, c) {
        InteriorIsInRangeOffBorder(L, c);
        assert Neighbours(t, L, c) == Neighbours(g, L, Swap(c));
      }
    }
    BoardExt(L, LifeStep(L, t), Transpose(L, LifeStep(L, g)));
  }

  /** Hence k generations of the mirrored board are the mirror of k generations of the board. */
  lemma {:induction false} IterateCommutesWithTranspose(L: nat, g: Board, k: nat)
    requires |g| == L * L
    ensures Iterate(L, Transpose(L, g), k) == Transpose(L, Iterate(L, g, k))
    decreases k
  {
    if k > 0 {
      var s := LifeStep(L, g);
      calc {
        Iterate(L, Transpose(L, g), k);
        Iterate(L, LifeStep(L, Transpose(L, g)), k - 1);
        { StepCommutesWithTranspose(L, g); }
        Iterate(L, Transpose(L, s), k - 1);
        { IterateCommutesWithTranspose(L, s, k - 1); }
        Transpose(L, Iterate(L, s, k - 1));
      }
    }
  }
}
