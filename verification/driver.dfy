/**
  The program's driver: reject length 0, read length * length tokens in
  row-major order activating the nonzero ones, then play the rounds, each
  round solving its space and seeding the next space from the solved next
  board.

  The token stream is a sequence of integers; a missing token reads as 0.
  The search engine is abstracted as `Search`: it returns some solution of
  the space, or reports that there is none.
 */
module Driver {
  import opened Grid
  import opened GameOfLife
  import opened Solutions

  // ---------------------------------------------------------------------------
  // Reading the initial board

  /** The k-th token of the input; reading past the end leaves the value 0. */
  function Token(tokens: seq<int>, k: nat): int {
    if k < |tokens| then tokens[k] else 0
  }

  /** The cells whose token is nonzero among the first n positions, in reading order. */
  function ReadCells(L: nat, tokens: seq<int>, n: nat): (cells: seq<Cell>)
    requires n <= L * L
    ensures forall c :: c in cells ==> InRange(L, c) && Token(tokens, Key(L, c)) != 0
    decreases n
  {
    if n == 0 then []
    else
      KeyCellAt(L, n - 1);
      ReadCells(L, tokens, n - 1) + (if Token(tokens, n - 1) != 0 then [CellAt(L, n - 1)] else [])
  }

  /**
    The walk visits positions in row-major order: the cells read are exactly the
    in-range cells with a nonzero token, each once, in increasing key order.
   */
  lemma {:induction false} ReadCellsSpec(L: nat, tokens: seq<int>, n: nat)
    requires n <= L * L
    ensures forall c :: c in ReadCells(L, tokens, n)
              <==> InRange(L, c) && Key(L, c) < n && Token(tokens, Key(L, c)) != 0
    ensures forall i, j :: 0 <= i < j < |ReadCells(L, tokens, n)| ==>
              Key(L, ReadCells(L, tokens, n)[i]) < Key(L, ReadCells(L, tokens, n)[j])
    decreases n
  {
    if n > 0 {
      ReadCellsSpec(L, tokens, n - 1);
      KeyCellAt(L, n - 1);
      var last := CellAt(L, n - 1);
      forall c
        ensures c in ReadCells(L, tokens, n) <==> InRange(L, c) && Key(L, c) < n && Token(tokens, Key(L, c)) != 0
      {
        if InRange(L, c) {
          KeyInjective(L, c, last);
        }
      }
    }
  }

  /**
    One step of the (u, v) walk: (u, v) is the in-range cell at position
    u * L + v, and the next (u, v), with v wrapped to 0 and u advanced at the
    end of a row, is the cell at the next position.
   */
  lemma WalkStep(L: nat, u: nat, v: nat)
    requires v < L && u * L + v < L * L
    ensures InRange(L, Cell(u, v)) && CellAt(L, u * L + v) == Cell(u, v)
    ensures u * L + v + 1 < L * L ==>
              CellAt(L, u * L + v + 1) == if v + 1 == L then Cell(u + 1, 0) else Cell(u, v + 1)
  {
    if u >= L {
      MulMonotone(L, u, L);
    }
    CellAtKey(L, Cell(u, v));
    var next := if v + 1 == L then Cell(u + 1, 0) else Cell(u, v + 1);
    assert Key(L, next) == u * L + v + 1;
    if u * L + v + 1 < L * L {
      if next.x >= L {
        MulMonotone(L, next.x, L);
      }
      CellAtKey(L, next);
    }
  }

  lemma ActivateAllSnoc(m: Model, cells: seq<Cell>, c: Cell)
    requires forall d :: d in cells ==> InRange(m.length, d)
    requires InRange(m.length, c)
    ensures ActivateAll(m, cells + [c]) == Activate(ActivateAll(m, cells), c)
  {
    assert (cells + [c])[..|cells + [c]| - 1] == cells;
  }

  /** The space after reading the first k positions. */
  function ReadModel(L: nat, tokens: seq<int>, k: nat): Model
    requires k <= L * L
  {
    ActivateAll(NewModel(L), ReadCells(L, tokens, k))
  }

  /** Reading position k = u * L + v activates (u, v) exactly when its token is nonzero. */
  lemma ReadModelStep(L: nat, tokens: seq<int>, u: nat, v: nat)
    requires v < L && u * L + v < L * L
    ensures InRange(L, Cell(u, v))
    ensures ReadModel(L, tokens, u * L + v + 1)
         == if Token(tokens, u * L + v) != 0 then Activate(ReadModel(L, tokens, u * L + v), Cell(u, v))
            else ReadModel(L, tokens, u * L + v)
  {
    var k := u * L + v;
    WalkStep(L, u, v);
    KeyCellAt(L, k);
    var before := ReadCells(L, tokens, k);
    if Token(tokens, k) != 0 {
      assert ReadCells(L, tokens, k + 1) == before + [Cell(u, v)];
      ActivateAllSnoc(NewModel(L), before, Cell(u, v));
    } else {
      assert ReadCells(L, tokens, k + 1) == before + [];
      assert before + [] == before;
    }
  }

  /**
    The input loop: u, v walk the board row by row; a nonzero token at (u, v)
    activates that cell.
   */
  method ReadInitialBoard(L: nat, tokens: seq<int>) returns (m: Model)
    requires L >= 1
    ensures m == ActivateAll(NewModel(L), ReadCells(L, tokens, L * L))
  {
    m := NewModel(L);
    var u: nat, v: nat := 0, 0;
    ghost var k: nat := 0;
    while u * L + v < L * L
      invariant k == u * L + v
      invariant v < L && k <= L * L
      invariant m == ReadModel(L, tokens, k)
      decreases L * L - k
    {
      ReadModelStep(L, tokens, u, v);
      var t := Token(tokens, u * L + v);
      if t != 0 {
        m := Activate(m, Cell(u, v));
      }
      v := v + 1;
      if v == L {
        assert (u + 1) * L == u * L + v;
        u := u + 1;
        v := 0;
      }
      k := k + 1;
    }
  }

  // ---------------------------------------------------------------------------
  // Search and rounds

  datatype SearchResult = NoSolution | Found(solution: Assignment)

  /** The search engine: some solution of the space, or none when there is none. */
  ghost function Search(m: Model): (r: SearchResult)
    ensures r.Found? ==> Holds(m, r.solution)
    ensures r.NoSolution? ==> forall a :: !Holds(m, a)
  {
    if exists a :: Holds(m, a) then Found(var a :| Holds(m, a); a) else NoSolution
  }

  /** A space with a unique solution yields that solution. */
  lemma SearchUnique(m: Model, s: Assignment)
    requires Holds(m, s)
    requires forall a :: Holds(m, a) ==> a == s
    ensures Search(m) == Found(s)
  {
  }

  /**
    What a run produces: `InvalidLength` when the length is 0 (error, exit
    status 1); otherwise the next board of each completed round, and whether
    the run stopped on a round with no solution.
   */
  datatype Outcome = InvalidLength | Played(rounds: seq<Board>, stopped: bool)

  /**
    Play up to n rounds starting from the constrained space m: each round
    emits the solved next board and seeds a new space of the same length from it.
   */
  ghost function Rounds(L: nat, m: Model, n: nat): (r: Outcome)
    requires L >= 1 && m.length == L && m.board == VarArray(L * L, 0, 1)
    ensures r.Played?
    ensures |r.rounds| <= n
    ensures r.stopped ==> |r.rounds| < n
    ensures !r.stopped ==> |r.rounds| == n
    ensures forall i :: 0 <= i < |r.rounds| ==> IsBoard(L, r.rounds[i])
    decreases n
  {
    if n == 0 then Played([], false)
    else
      match Search(m)
      case NoSolution => Played([], true)
      case Found(a) =>
        NewModelDomains(L, a.next);
        var rest := Rounds(L, NextRoundModel(L, a.next), n - 1);
        Played([a.next] + rest.rounds, rest.stopped)
  }

  /** The whole program on a length, a token stream and a number of rounds. */
  ghost function Run(length: nat, tokens: seq<int>, nbRound: nat): (r: Outcome)
    ensures r.InvalidLength? <==> length == 0
    ensures r.Played? ==> |r.rounds| <= nbRound && (!r.stopped ==> |r.rounds| == nbRound)
  {
    if length == 0 then InvalidLength
    else
      ReadCellsSpec(length, tokens, length * length);
      var m := ActivateAll(NewModel(length), ReadCells(length, tokens, length * length));
      Rounds(length, SetConstraints(m), nbRound)
  }

  // ---------------------------------------------------------------------------
  // What a run computes

  /** The board as read: 1 where the token is nonzero, 0 elsewhere. */
  function InputBoard(L: nat, tokens: seq<int>): (g: Board)
    ensures IsBoard(L, g)
  {
    seq(L * L, k requires 0 <= k < L * L => if Token(tokens, k) != 0 then 1 else 0)
  }

  /** No nonzero token lies on the border. */
  ghost predicate BorderTokensZero(L: nat, tokens: seq<int>) {
    forall c :: InRange(L, c) && OnBorder(L, c) ==> Token(tokens, Key(L, c)) == 0
  }

  /** A space whose only solution is (g, LifeStep(g)) emits LifeStep(g) and hands on the space seeded from it. */
  lemma RoundsStep(L: nat, m: Model, g: Board, n: nat)
    requires L >= 1 && m.length == L && m.board == VarArray(L * L, 0, 1)
    requires IsBoard(L, g) && n >= 1
    requires forall a :: Holds(m, a) <==> a == Assignment(g, LifeStep(L, g))
    ensures var s := LifeStep(L, g);
            var rest := Rounds(L, NextRoundModel(L, s), n - 1);
            Rounds(L, m, n) == Played([s] + rest.rounds, rest.stopped)
  {
    SearchUnique(m, Assignment(g, LifeStep(L, g)));
  }

  /** The seeded space of the next round again has exactly one solution. */
  lemma NextRoundUnique(L: nat, s: Board)
    requires L >= 1 && IsBoard(L, s) && BorderZero(L, s)
    ensures forall a :: Holds(NextRoundModel(L, s), a) <==> a == Assignment(s, LifeStep(L, s))
  {
    forall a
      ensures Holds(NextRoundModel(L, s), a) <==> a == Assignment(s, LifeStep(L, s))
    {
      ChainedSolution(L, s, a);
    }
  }

  /** The generations after g are LifeStep(g) followed by the generations after LifeStep(g). */
  lemma IterateShift(L: nat, g: Board, n: nat)
    requires |g| == L * L && n >= 1
    ensures [LifeStep(L, g)] + seq(n - 1, j requires 0 <= j => Iterate(L, LifeStep(L, g), j + 1))
         == seq(n, j requires 0 <= j => Iterate(L, g, j + 1))
  {
    var s := LifeStep(L, g);
    var rest := seq(n - 1, j requires 0 <= j => Iterate(L, s, j + 1));
    var all := seq(n, j requires 0 <= j => Iterate(L, g, j + 1));
    forall j | 0 <= j < n
      ensures ([s] + rest)[j] == all[j]
    {
      assert all[j] == Iterate(L, s, j);
      if j > 0 {
        assert ([s] + rest)[j] == rest[j - 1];
      }
    }
  }

  /**
    From a space whose only solution is (g, LifeStep(g)), n rounds emit
    LifeStep(g), LifeStep^2(g), ..., LifeStep^n(g) and never stop early.
   */
  lemma {:induction false} RoundsIterate(L: nat, m: Model, g: Board, n: nat)
    requires L >= 1 && m.length == L && m.board == VarArray(L * L, 0, 1)
    requires IsBoard(L, g) && BorderZero(L, g)
    requires forall a :: Holds(m, a) <==> a == Assignment(g, LifeStep(L, g))
    ensures Rounds(L, m, n) == Played(seq(n, j requires 0 <= j => Iterate(L, g, j + 1)), false)
    decreases n
  {
    if n > 0 {
      var s := LifeStep(L, g);
      RoundsStep(L, m, g, n);
      NextRoundUnique(L, s);
      RoundsIterate(L, NextRoundModel(L, s), s, n - 1);
      IterateShift(L, g, n);
    }
  }

  /** Among in-range cells, a cell's key is recorded exactly when the cell was activated. */
  lemma KeyRecorded(L: nat, cells: seq<Cell>, c: Cell)
    requires forall d :: d in cells ==> InRange(L, d)
    requires InRange(L, c)
    ensures Key(L, c) in ActivateAll(NewModel(L), cells).setValues <==> c in cells
  {
    ActivateAllContents(L, cells);
    var keys := ActivateAll(NewModel(L), cells).setValues;
    if Key(L, c) in keys {
      var i :| 0 <= i < |keys| && keys[i] == Key(L, c);
      KeyInjective(L, c, cells[i]);
    }
    if c in cells {
      var i :| 0 <= i < |cells| && cells[i] == c;
      assert keys[i] == Key(L, c);
    }
  }

  /** The constrained first-round space of a run. */
  lemma InitialSpace(L: nat, tokens: seq<int>)
    requires L >= 1
    ensures forall c :: c in ReadCells(L, tokens, L * L) ==> InRange(L, c)
    ensures BorderTokensZero(L, tokens) ==>
              Determined(L, ActivateAll(NewModel(L), ReadCells(L, tokens, L * L)).setValues) == InputBoard(L, tokens)
  {
    var cells := ReadCells(L, tokens, L * L);
    ReadCellsSpec(L, tokens, L * L);
    if BorderTokensZero(L, tokens) {
      var keys := ActivateAll(NewModel(L), cells).setValues;
      var d, g := Determined(L, keys), InputBoard(L, tokens);
      forall c | InRange(L, c)
        ensures At(d, L, c) == At(g, L, c)
      {
        KeyInRange(L, c);
        DeterminedAt(L, keys, c);
        InteriorIsInRangeOffBorder(L, c);
        KeyRecorded(L, cells, c);
      }
      BoardExt(L, d, g);
    }
  }

  /**
    With no live border cell in the input, round k of the run emits
    LifeStep^k of the input board, for every requested round, and never
    reports a missing solution.
   */
  lemma RunComputesLife(L: nat, tokens: seq<int>, nbRound: nat)
    requires L >= 1 && BorderTokensZero(L, tokens)
    ensures Run(L, tokens, nbRound)
         == Played(seq(nbRound, j requires 0 <= j => Iterate(L, InputBoard(L, tokens), j + 1)), false)
  {
    var cells := ReadCells(L, tokens, L * L);
    InitialSpace(L, tokens);
    ReadCellsSpec(L, tokens, L * L);
    var m := ActivateAll(NewModel(L), cells);
    var g := InputBoard(L, tokens);
    forall c | c in cells
      ensures InRange(L, c) && !OnBorder(L, c)
    {
    }
    forall a
      ensures Holds(SetConstraints(m), a) <==> a == Assignment(g, LifeStep(L, g))
    {
      InitialSolution(L, cells, a);
    }
    forall c | InRange(L, c) && OnBorder(L, c)
      ensures At(g, L, c) == 0
    {
      KeyInRange(L, c);
    }
    RoundsIterate(L, SetConstraints(m), g, nbRound);
  }

  /** A live border cell in the input makes the first round fail: nothing is emitted and the run stops. */
  lemma RunBorderTokenStops(L: nat, tokens: seq<int>, nbRound: nat, c: Cell)
    requires InRange(L, c) && OnBorder(L, c) && Token(tokens, Key(L, c)) != 0
    requires nbRound >= 1
    ensures Run(L, tokens, nbRound) == Played([], true)
  {
    var cells := ReadCells(L, tokens, L * L);
    ReadCellsSpec(L, tokens, L * L);
    KeyInRange(L, c);
    var m := ActivateAll(NewModel(L), cells);
    forall a
      ensures !Holds(SetConstraints(m), a)
    {
      InitialBorderUnsat(L, cells, c, a);
    }
  }

  /** Zero rounds emit nothing. */
  lemma RunZeroRounds(L: nat, tokens: seq<int>)
    requires L >= 1
    ensures Run(L, tokens, 0) == Played([], false)
  {
  }
}
