/**
  The order in which a solved board's values reach the output.

  The printer walks the variable array in storage order and breaks the line
  every `length` values. The matrix view the model is built through stores
  cell (x, y) at offset y * length + x, while the input walk hands token
  u * length + v to cell (u, v). So the printed grid is the input grid mirrored
  in its main diagonal. `PrintedAsWritten` is that order; `Printed` is the
  order that reads back as the board itself.
 */
module Output {
  import opened Grid
  import opened Driver

  /** The cell whose value the printer emits at position p: storage offset p of the matrix view. */
  function StorageCell(L: nat, p: nat): Cell
    requires L > 0
  {
    Cell(p % L, p / L)
  }

  /** The printed values, as the printer walks storage. */
  function PrintedAsWritten(L: nat, g: Board): (out: seq<int>)
    requires L >= 1 && |g| == L * L
    ensures |out| == L * L
  {
    seq(L * L, p requires 0 <= p < L * L =>
          KeyCellAt(L, p); assert InRange(L, StorageCell(L, p)); At(g, L, StorageCell(L, p)))
  }

  /** The printed values in the order the input walk reads them. */
  function Printed(L: nat, g: Board): (out: seq<int>)
    requires L >= 1 && |g| == L * L
    ensures |out| == L * L
  {
    seq(L * L, p requires 0 <= p < L * L => KeyCellAt(L, p); At(g, L, CellAt(L, p)))
  }

  /** Feeding the corrected output back in as input reproduces the board. */
  lemma PrintedReadsBack(L: nat, g: Board)
    requires L >= 1 && IsBoard(L, g)
    ensures InputBoard(L, Printed(L, g)) == g
  {
    forall k | 0 <= k < L * L
      ensures InputBoard(L, Printed(L, g))[k] == g[k]
    {
      KeyCellAt(L, k);
    }
  }

  /** Feeding the output as written back in as input gives the mirrored board. */
  lemma PrintedAsWrittenTransposes(L: nat, g: Board)
    requires L >= 1 && IsBoard(L, g)
    ensures InputBoard(L, PrintedAsWritten(L, g)) == Transpose(L, g)
  {
    var t := Transpose(L, g);
    forall k | 0 <= k < L * L
      ensures InputBoard(L, PrintedAsWritten(L, g))[k] == t[k]
    {
      KeyCellAt(L, k);
      var c := CellAt(L, k);
      assert t[k] == At(t, L, c) == At(g, L, Swap(c));
      assert StorageCell(L, k) == Swap(c);
      IsBoardAt(L, g, Swap(c));
    }
  }

  /** A vertical blinker through the centre of a 5 x 5 board, alive at (1, 2), (2, 2), (3, 2). */
  function VerticalBlinker(): Board {
    seq(25, k => if k == 7 || k == 12 || k == 17 then 1 else 0)
  }

  /** The horizontal blinker, alive at (2, 1), (2, 2), (2, 3). */
  function HorizontalBlinker(): Board {
    seq(25, k => if k == 11 || k == 12 || k == 13 then 1 else 0)
  }

  /**
    The vertical blinker, which is the first round's board for the horizontal
    blinker as input, is printed as the horizontal one.
   */
  lemma BlinkerPrintedSideways()
    ensures PrintedAsWritten(5, VerticalBlinker()) == HorizontalBlinker()
    ensures InputBoard(5, PrintedAsWritten(5, VerticalBlinker())) != VerticalBlinker()
  {
    var v, h := VerticalBlinker(), HorizontalBlinker();
    var out := PrintedAsWritten(5, v);
    forall p | 0 <= p < 25
      ensures out[p] == h[p]
    {
      KeyCellAt(5, p);
      assert StorageCell(5, p) == Cell(p % 5, p / 5);
      assert Key(5, StorageCell(5, p)) == (p % 5) * 5 + p / 5;
    }
    assert out == h;
    assert InputBoard(5, out)[7] == 0 != v[7];
  }
}
