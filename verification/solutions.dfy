/**
  What the posted constraint system means: the XOR-combined transition rule is
  the plain Game of Life case split; a model built by the source's operations
  has exactly one solution, whose next board is `LifeStep` of its local board,
  unless a border cell was activated, in which case it has none.
 */
module Solutions {
  import opened Grid
  import opened GameOfLife

  // ---------------------------------------------------------------------------
  // The transition rule

  /** Exactly one of the four guards of the transition constraint holds, for every count. */
  lemma ExactlyOneCase(n: int)
    ensures (n < 2 || n == 2 || n == 3 || n > 3)
    ensures !(n < 2 && n == 2) && !(n < 2 && n == 3) && !(n < 2 && n > 3)
    ensures !(n == 2 && n == 3) && !(n == 2 && n > 3) && !(n == 3 && n > 3)
  {
  }

  /** Hence the XOR of the four guarded cases is the same as the case split LifeRule. */
  lemma XorIsCaseSplit(cur: int, n: int, nx: int)
    ensures TransitionHolds(cur, n, nx) <==> nx == LifeRule(cur, n)
  {
    ExactlyOneCase(n);
  }

  /**
    The transition rule on every interior cell, together with a dead border on
    the next board, holds exactly when the next board is LifeStep of the local one.
   */
  lemma TransitionIsLifeStep(L: nat, a: Assignment)
    requires Sized(L, a)
    ensures TransitionRule(L, a) && BorderZero(L, a.next) <==> a.next == LifeStep(L, a.local)
  {
    var s := LifeStep(L, a.local);
    if TransitionRule(L, a) && BorderZero(L, a.next) {
      forall c | InRange(L, c)
        ensures At(a.next, L, c) == At(s, L, c)
      {
        LifeStepAt(L, a.local, c);
        InteriorIsInRangeOffBorder(L, c);
        if !OnBorder(L, c) {
          XorIsCaseSplit(At(a.local, L, c), Neighbours(a.local, L, c), At(a.next, L, c));
        }
      }
      BoardExt(L, a.next, s);
    }
    if a.next == s {
      forall c | Interior(L, c)
        ensures TransitionHolds(At(a.local, L, c), Neighbours(a.local, L, c), At(a.next, L, c))
      {
        InteriorIsInRangeOffBorder(L, c);
        LifeStepAt(L, a.local, c);
        XorIsCaseSplit(At(a.local, L, c), Neighbours(a.local, L, c), At(a.next, L, c));
      }
    }
  }

  // ---------------------------------------------------------------------------
  // Models built by activate / activateFromPreviousBoard

  /** A posted constraint of the kind activate and activateFromPreviousBoard post. */
  predicate IsPin(m: Model, k: Constraint) {
    && k.CellIs? && k.board == LocalBoard && InRange(m.length, k.cell)
    && (k.value == 0 || k.value == 1)
    && (k.value == 1 <==> Key(m.length, k.cell) in m.setValues)
  }

  /**
    The shape of every model the source builds before posting setContraints:
    fresh 0/1 variable arrays; only local-board pins posted, a pin is 1 exactly
    when its key was recorded; every recorded in-range key has a pin to 1.
   */
  ghost predicate WellFormed(m: Model) {
    && m.board == VarArray(m.length * m.length, 0, 1)
    && m.localBoard == VarArray(m.length * m.length, 0, 1)
    && (forall k :: k in m.posted ==> IsPin(m, k))
    && (forall c :: InRange(m.length, c) && Key(m.length, c) in m.setValues ==> CellIs(LocalBoard, c, 1) in m.posted)
  }

  /** No pin forces a border cell to 1. */
  ghost predicate NoBorderActivation(m: Model) {
    forall k :: k in m.posted && k.CellIs? && k.value == 1 ==> !OnBorder(m.length, k.cell)
  }

  /** The local board the constraints determine: alive exactly on the recorded interior cells. */
  function Determined(L: nat, keys: seq<nat>): (d: Board)
    ensures IsBoard(L, d)
  {
    seq(L * L, k requires 0 <= k < L * L =>
          KeyCellAt(L, k); if Interior(L, CellAt(L, k)) && k in keys then 1 else 0)
  }

  lemma DeterminedAt(L: nat, keys: seq<nat>, c: Cell)
    requires InRange(L, c)
    ensures At(Determined(L, keys), L, c) == if Interior(L, c) && Key(L, c) in keys then 1 else 0
  {
    KeyInRange(L, c);
    CellAtKey(L, c);
  }

  /**
    Activating a border cell makes the system unsatisfiable: activate's
    local == 1 clashes with setContraints' border local == 0.
   */
  lemma BorderActivationUnsat(m: Model, c: Cell, a: Assignment)
    requires InRange(m.length, c) && OnBorder(m.length, c)
    requires CellIs(LocalBoard, c, 1) in m.posted
    ensures !Holds(SetConstraints(m), a)
  {
    var L := m.length;
    if Holds(SetConstraints(m), a) {
      SetConstraintsMeaning(m, a);
      AllSatisfiedMember(m.posted, CellIs(LocalBoard, c, 1), L, a);
      assert false;
    }
  }

  /** The determined local board satisfies every pin of a well-formed model with no border activation. */
  lemma DeterminedSatisfiesPins(m: Model, a: Assignment)
    requires WellFormed(m) && NoBorderActivation(m) && Sized(m.length, a)
    requires a.local == Determined(m.length, m.setValues)
    ensures AllSatisfied(m.posted, m.length, a)
  {
    var L := m.length;
    forall k | k in m.posted
      ensures Satisfied(k, L, a)
    {
      assert IsPin(m, k);
      DeterminedAt(L, m.setValues, k.cell);
      InteriorIsInRangeOffBorder(L, k.cell);
    }
    AllSatisfiedAll(m.posted, L, a);
  }

  /** Any solution's local board is the determined one. */
  lemma SolutionLocalIsDetermined(m: Model, a: Assignment)
    requires WellFormed(m) && Holds(SetConstraints(m), a)
    ensures a.local == Determined(m.length, m.setValues)
  {
    var L, keys := m.length, m.setValues;
    var d := Determined(L, keys);
    SetConstraintsMeaning(m, a);
    forall c | InRange(L, c)
      ensures At(a.local, L, c) == At(d, L, c)
    {
      DeterminedAt(L, keys, c);
      InteriorIsInRangeOffBorder(L, c);
      if Interior(L, c) && Key(L, c) in keys {
        AllSatisfiedMember(m.posted, CellIs(LocalBoard, c, 1), L, a);
      }
    }
    BoardExt(L, a.local, d);
  }

  /**
    A well-formed model with no border activation has exactly one solution
    once setContraints has been posted: the determined local board and its
    LifeStep.
   */
  lemma UniqueSolution(m: Model, a: Assignment)
    requires WellFormed(m) && NoBorderActivation(m)
    ensures Holds(SetConstraints(m), a)
        <==> a == Assignment(Determined(m.length, m.setValues), LifeStep(m.length, Determined(m.length, m.setValues)))
  {
    var L, keys := m.length, m.setValues;
    var d := Determined(L, keys);
    var s := Assignment(d, LifeStep(L, d));
    NewModelDomains(L, a.local);
    NewModelDomains(L, a.next);
    if Holds(SetConstraints(m), a) {
      SolutionLocalIsDetermined(m, a);
      SetConstraintsMeaning(m, a);
      TransitionIsLifeStep(L, a);
    }
    if a == s {
      DeterminedSatisfiesPins(m, a);
      TransitionIsLifeStep(L, a);
      forall c | InRange(L, c) && OnBorder(L, c)
        ensures At(a.local, L, c) == 0
      {
        DeterminedAt(L, keys, c);
      }
      forall c | Interior(L, c) && Key(L, c) !in keys
        ensures At(a.local, L, c) == 0
      {
        DeterminedAt(L, keys, c);
      }
      SetConstraintsMeaning(m, a);
    }
  }

  // ---------------------------------------------------------------------------
  // The two ways the source builds a model

  /** Activating in-range cells on a new space gives a well-formed model. */
  lemma ActivateAllWellFormed(L: nat, cells: seq<Cell>)
    requires forall c :: c in cells ==> InRange(L, c)
    ensures WellFormed(ActivateAll(NewModel(L), cells))
    ensures NoBorderActivation(ActivateAll(NewModel(L), cells)) <==> forall c :: c in cells ==> !OnBorder(L, c)
  {
    var m := ActivateAll(NewModel(L), cells);
    ActivateAllContents(L, cells);
    forall k | k in m.posted
      ensures IsPin(m, k)
    {
      var i :| 0 <= i < |m.posted| && m.posted[i] == k;
      assert m.setValues[i] == Key(L, cells[i]);
    }
    forall c | InRange(L, c) && Key(L, c) in m.setValues
      ensures CellIs(LocalBoard, c, 1) in m.posted
    {
      var i :| 0 <= i < |m.setValues| && m.setValues[i] == Key(L, c);
      KeyInjective(L, c, cells[i]);
      assert m.posted[i] == CellIs(LocalBoard, c, 1);
    }
    if NoBorderActivation(m) {
      forall c | c in cells
        ensures !OnBorder(L, c)
      {
        var i :| 0 <= i < |cells| && cells[i] == c;
        assert m.posted[i] in m.posted;
      }
    }
  }

  /**
    The first round: activating interior cells gives exactly one solution, whose
    local board is alive exactly on the activated cells.
   */
  lemma InitialSolution(L: nat, cells: seq<Cell>, a: Assignment)
    requires forall c :: c in cells ==> InRange(L, c) && !OnBorder(L, c)
    ensures Holds(SetConstraints(ActivateAll(NewModel(L), cells)), a)
        <==> a == Assignment(Determined(L, ActivateAll(NewModel(L), cells).setValues),
                             LifeStep(L, Determined(L, ActivateAll(NewModel(L), cells).setValues)))
  {
    ActivateAllWellFormed(L, cells);
    UniqueSolution(ActivateAll(NewModel(L), cells), a);
  }

  /** The first round with a border cell among the activated ones has no solution. */
  lemma InitialBorderUnsat(L: nat, cells: seq<Cell>, c: Cell, a: Assignment)
    requires forall d :: d in cells ==> InRange(L, d)
    requires c in cells && OnBorder(L, c)
    ensures !Holds(SetConstraints(ActivateAll(NewModel(L), cells)), a)
  {
    ActivateAllContents(L, cells);
    var i :| 0 <= i < |cells| && cells[i] == c;
    assert ActivateAll(NewModel(L), cells).posted[i] == CellIs(LocalBoard, c, 1);
    BorderActivationUnsat(ActivateAll(NewModel(L), cells), c, a);
  }

  /** The model of round k + 1: a new space seeded from round k's next board, then constrained. */
  function NextRoundModel(L: nat, prev: Board): Model
    requires L >= 1 && |prev| == L * L
  {
    SetConstraints(ActivateFromPreviousBoard(NewModel(L), prev))
  }

  lemma FromPreviousWellFormed(L: nat, prev: Board)
    requires L >= 1 && IsBoard(L, prev)
    ensures WellFormed(ActivateFromPreviousBoard(NewModel(L), prev))
    ensures NoBorderActivation(ActivateFromPreviousBoard(NewModel(L), prev))
  {
    var m0 := NewModel(L);
    var m := ActivateFromPreviousBoard(m0, prev);
    assert forall c :: InRange(L, c) ==> Key(L, c) !in m0.setValues;
    forall c | c in InteriorCells(L)
      ensures InRange(L, c)
    {
      InteriorCellsMembers(L, c);
    }
    forall k | k in m.posted
      ensures IsPin(m, k) && (k.value == 1 ==> !OnBorder(L, k.cell))
    {
      FromPreviousPin(L, prev, k);
      ActivateFromPreviousMeaning(m0, prev, Assignment(prev, prev));
      IsBoardAt(L, prev, k.cell);
      InteriorIsInRangeOffBorder(L, k.cell);
    }
    forall c | InRange(L, c) && Key(L, c) in m.setValues
      ensures CellIs(LocalBoard, c, 1) in m.posted
    {
      ActivateFromPreviousMeaning(m0, prev, Assignment(prev, prev));
      IsBoardAt(L, prev, c);
      InteriorCellsMembers(L, c);
      CopyCellsPinMember(m0, prev, InteriorCells(L), c);
    }
  }

  /** Every pin activateFromPreviousBoard posts is an interior cell's previous value. */
  lemma FromPreviousPin(L: nat, prev: Board, k: Constraint)
    requires L >= 1 && |prev| == L * L
    requires k in ActivateFromPreviousBoard(NewModel(L), prev).posted
    ensures k.CellIs? && k.board == LocalBoard && Interior(L, k.cell) && k.value == At(prev, L, k.cell)
  {
    forall c | c in InteriorCells(L)
      ensures InRange(L, c) && Interior(L, c)
    {
      InteriorCellsMembers(L, c);
    }
    CopyCellsPinShape(NewModel(L), prev, InteriorCells(L), k);
  }

  lemma {:induction false} CopyCellsPinShape(m: Model, prev: Board, cells: seq<Cell>, k: Constraint)
    requires |prev| == m.length * m.length
    requires forall c :: c in cells ==> InRange(m.length, c)
    requires k in CopyCells(m, prev, cells).posted && k !in m.posted
    ensures k.CellIs? && k.board == LocalBoard && k.cell in cells && k.value == At(prev, m.length, k.cell)
    decreases |cells|
  {
    var init, last := cells[..|cells| - 1], cells[|cells| - 1];
    var mi := CopyCells(m, prev, init);
    if k in mi.posted {
      CopyCellsPinShape(m, prev, init, k);
    }
  }

  lemma {:induction false} CopyCellsPinMember(m: Model, prev: Board, cells: seq<Cell>, c: Cell)
    requires |prev| == m.length * m.length
    requires forall d :: d in cells ==> InRange(m.length, d)
    requires c in cells
    ensures CellIs(LocalBoard, c, At(prev, m.length, c)) in CopyCells(m, prev, cells).posted
    decreases |cells|
  {
    var init, last := cells[..|cells| - 1], cells[|cells| - 1];
    if c != last {
      assert c in init;
      CopyCellsPinMember(m, prev, init, c);
    }
  }

  /**
    Chaining is lossless on interior cells: the local board determined by
    activateFromPreviousBoard agrees with the previous board on every interior
    cell, and on the whole board when the previous border is dead.
   */
  lemma ChainLossless(L: nat, prev: Board)
    requires L >= 1 && IsBoard(L, prev)
    ensures forall c :: Interior(L, c) ==>
              At(Determined(L, ActivateFromPreviousBoard(NewModel(L), prev).setValues), L, c) == At(prev, L, c)
    ensures BorderZero(L, prev) ==> Determined(L, ActivateFromPreviousBoard(NewModel(L), prev).setValues) == prev
  {
    var m0 := NewModel(L);
    var keys := ActivateFromPreviousBoard(m0, prev).setValues;
    var d := Determined(L, keys);
    ActivateFromPreviousMeaning(m0, prev, Assignment(prev, prev));
    forall c | InRange(L, c)
      ensures At(d, L, c) == if Interior(L, c) then At(prev, L, c) else 0
    {
      DeterminedAt(L, keys, c);
      IsBoardAt(L, prev, c);
    }
    if BorderZero(L, prev) {
      forall c | InRange(L, c)
        ensures At(d, L, c) == At(prev, L, c)
      {
        InteriorIsInRangeOffBorder(L, c);
      }
      BoardExt(L, d, prev);
    }
  }

  /**
    Round k + 1 seeded from a 0/1 next board with a dead border has exactly one
    solution: that board and its LifeStep.
   */
  lemma ChainedSolution(L: nat, prev: Board, a: Assignment)
    requires L >= 1 && IsBoard(L, prev) && BorderZero(L, prev)
    ensures Holds(NextRoundModel(L, prev), a) <==> a == Assignment(prev, LifeStep(L, prev))
  {
    FromPreviousWellFormed(L, prev);
    ChainLossless(L, prev);
    UniqueSolution(ActivateFromPreviousBoard(NewModel(L), prev), a);
  }
}
