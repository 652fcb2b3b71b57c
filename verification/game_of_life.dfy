/**
  The constraint model of one Game of Life generation.

  A `Model` is the state of one solver space: the side length, the two
  variable arrays (`board`, the generation to produce, and `localBoard`, the
  generation to start from), the activation list `setValues` of keys
  x * length + y, and the relational constraints posted so far, in posting
  order. An `Assignment` gives every variable of both arrays a value; it is a
  solution when it lies in the variables' domains and satisfies every posted
  constraint (`Holds`).
 */
module GameOfLife {
  import opened Grid

  /** An array of `size` integer variables, each with domain lo..hi. */
  datatype VarArray = VarArray(size: nat, lo: int, hi: int)

  datatype BoardName = LocalBoard | NextBoard

  /** A posted relational constraint. */
  datatype Constraint =
    /** board(cell) == value */
    | CellIs(board: BoardName, cell: Cell, value: int)
    /** The XOR-combined Game of Life rule relating local and next at an interior cell. */
    | Transition(cell: Cell)

  datatype Model = Model(
    length: nat,
    board: VarArray,
    localBoard: VarArray,
    setValues: seq<nat>,
    posted: seq<Constraint>)

  /** Values for both variable arrays. */
  datatype Assignment = Assignment(local: Board, next: Board)

  /** The variables of `v` can take the values of `g`. */
  predicate Admits(v: VarArray, g: Board) {
    |g| == v.size && forall k :: 0 <= k < |g| ==> v.lo <= g[k] <= v.hi
  }

  predicate Sized(L: nat, a: Assignment) {
    |a.local| == L * L && |a.next| == L * L
  }

  /** A new space: two arrays of length * length variables with domain {0, 1}, nothing posted. */
  function NewModel(length: nat): (m: Model)
    ensures m.length == length && m.setValues == [] && m.posted == []
  {
    Model(length, VarArray(length * length, 0, 1), VarArray(length * length, 0, 1), [], [])
  }

  /** Both arrays of a new space admit exactly the 0/1 boards of length * length cells. */
  lemma NewModelDomains(length: nat, g: Board)
    ensures Admits(NewModel(length).localBoard, g) <==> IsBoard(length, g)
    ensures Admits(NewModel(length).board, g) <==> IsBoard(length, g)
  {
  }

  // ---------------------------------------------------------------------------
  // Meaning of constraints

  /** Gecode's binary `^` on Boolean expressions, applied left to right. */
  function Xor4(a: bool, b: bool, c: bool, d: bool): bool {
    ((a != b) != c) != d
  }

  /**
    The transition constraint for a cell with current value `cur`, neighbour
    count `n` and next value `nx`: the XOR of the four guarded cases.
   */
  predicate TransitionHolds(cur: int, n: int, nx: int) {
    Xor4(n < 2 && nx == 0, n == 2 && nx == cur, n == 3 && nx == 1, n > 3 && nx == 0)
  }

  function Value(a: Assignment, name: BoardName, L: nat, c: Cell): int
    requires Sized(L, a) && InRange(L, c)
  {
    match name
    case LocalBoard => At(a.local, L, c)
    case NextBoard => At(a.next, L, c)
  }

  predicate Satisfied(k: Constraint, L: nat, a: Assignment)
    requires Sized(L, a)
  {
    match k
    case CellIs(name, c, v) => InRange(L, c) && Value(a, name, L, c) == v
    case Transition(c) =>
      && Interior(L, c)
      && TransitionHolds(At(a.local, L, c), Neighbours(a.local, L, c), At(a.next, L, c))
  }

  /** Every constraint of the list is satisfied. */
  predicate AllSatisfied(cs: seq<Constraint>, L: nat, a: Assignment)
    requires Sized(L, a)
    decreases |cs|
  {
    cs == [] || (Satisfied(cs[0], L, a) && AllSatisfied(cs[1..], L, a))
  }

  /** `a` is a solution of the space `m`. */
  predicate Holds(m: Model, a: Assignment) {
    && Admits(m.localBoard, a.local)
    && Admits(m.board, a.next)
    && Sized(m.length, a)
    && AllSatisfied(m.posted, m.length, a)
  }

  lemma {:induction false} AllSatisfiedAppend(cs: seq<Constraint>, ds: seq<Constraint>, L: nat, a: Assignment)
    requires Sized(L, a)
    ensures AllSatisfied(cs + ds, L, a) <==> AllSatisfied(cs, L, a) && AllSatisfied(ds, L, a)
    decreases |cs|
  {
    if cs == [] {
      assert cs + ds == ds;
    } else {
      assert (cs + ds)[0] == cs[0];
      assert (cs + ds)[1..] == cs[1..] + ds;
      AllSatisfiedAppend(cs[1..], ds, L, a);
    }
  }

  /** A satisfied list satisfies each of its members. */
  lemma {:induction false} AllSatisfiedMember(cs: seq<Constraint>, k: Constraint, L: nat, a: Assignment)
    requires Sized(L, a) && AllSatisfied(cs, L, a) && k in cs
    ensures Satisfied(k, L, a)
    decreases |cs|
  {
    if k != cs[0] {
      assert k in cs[1..];
      AllSatisfiedMember(cs[1..], k, L, a);
    }
  }

  lemma {:induction false} AllSatisfiedAll(cs: seq<Constraint>, L: nat, a: Assignment)
    requires Sized(L, a)
    requires forall k :: k in cs ==> Satisfied(k, L, a)
    ensures AllSatisfied(cs, L, a)
    decreases |cs|
  {
    if cs != [] {
      assert forall k :: k in cs[1..] ==> k in cs;
      AllSatisfiedAll(cs[1..], L, a);
    }
  }

  // ---------------------------------------------------------------------------
  // activate

  /** Turn cell c on: post local(c) == 1 and record its key. */
  function Activate(m: Model, c: Cell): (r: Model)
    requires InRange(m.length, c)
    ensures r.length == m.length && r.board == m.board && r.localBoard == m.localBoard
    ensures Key(m.length, c) in r.setValues
  {
    m.(posted := m.posted + [CellIs(LocalBoard, c, 1)],
       setValues := m.setValues + [Key(m.length, c)])
  }

  /**
    Activation adds exactly one requirement on solutions, local(c) == 1, and
    appends exactly the key of c to the activation list.
   */
  lemma ActivateMeaning(m: Model, c: Cell, a: Assignment)
    requires InRange(m.length, c) && Sized(m.length, a)
    ensures Activate(m, c).setValues == m.setValues + [Key(m.length, c)]
    ensures AllSatisfied(Activate(m, c).posted, m.length, a)
        <==> AllSatisfied(m.posted, m.length, a) && At(a.local, m.length, c) == 1
  {
    var pin := CellIs(LocalBoard, c, 1);
    AllSatisfiedOne(pin, m.length, a);
    AllSatisfiedAppend(m.posted, [pin], m.length, a);
  }

  /** Activating the cells of a list in order. */
  function ActivateAll(m: Model, cells: seq<Cell>): (r: Model)
    requires forall c :: c in cells ==> InRange(m.length, c)
    ensures r.length == m.length && r.board == m.board && r.localBoard == m.localBoard
    decreases |cells|
  {
    if cells == [] then m
    else Activate(ActivateAll(m, cells[..|cells| - 1]), cells[|cells| - 1])
  }

  /**
    Activating a list of cells on a new space posts local(c) == 1 for each
    cell, in order, and records their keys, in order.
   */
  lemma {:induction false} ActivateAllContents(L: nat, cells: seq<Cell>)
    requires forall c :: c in cells ==> InRange(L, c)
    ensures ActivateAll(NewModel(L), cells).setValues == seq(|cells|, i requires 0 <= i < |cells| => Key(L, cells[i]))
    ensures ActivateAll(NewModel(L), cells).posted == seq(|cells|, i requires 0 <= i < |cells| => CellIs(LocalBoard, cells[i], 1))
    decreases |cells|
  {
    if cells != [] {
      var init := cells[..|cells| - 1];
      ActivateAllContents(L, init);
    }
  }

  // ---------------------------------------------------------------------------
  // Row-major cell enumerations (the nested loops of the source)

  /** Cells (i, j), (i, j + 1), ..., (i, hi - 1). */
  function RowCells(i: nat, j: nat, hi: nat): seq<Cell>
    decreases hi - j
  {
    if j >= hi then [] else [Cell(i, j)] + RowCells(i, j + 1, hi)
  }

  /** Rows i .. hi - 1, each holding columns lo .. hi - 1, in row-major order. */
  function Block(i: nat, lo: nat, hi: nat): seq<Cell>
    decreases hi - i
  {
    if i >= hi then [] else RowCells(i, lo, hi) + Block(i + 1, lo, hi)
  }

  lemma {:induction false} RowCellsMembers(i: nat, j: nat, hi: nat, c: Cell)
    ensures c in RowCells(i, j, hi) <==> c.x == i && j <= c.y < hi
    decreases hi - j
  {
    if j < hi {
      RowCellsMembers(i, j + 1, hi, c);
    }
  }

  lemma {:induction false} BlockMembers(i: nat, lo: nat, hi: nat, c: Cell)
    ensures c in Block(i, lo, hi) <==> i <= c.x < hi && lo <= c.y < hi
    decreases hi - i
  {
    if i < hi {
      RowCellsMembers(i, lo, hi, c);
      BlockMembers(i + 1, lo, hi, c);
    }
  }

  /** Every cell, visited as by `for i < length: for j < length`. */
  function AllCells(L: nat): seq<Cell> {
    Block(0, 0, L)
  }

  /** The interior cells, visited as by `for 1 <= i < length - 1: for 1 <= j < length - 1`. */
  function InteriorCells(L: nat): seq<Cell>
    requires L >= 1
  {
    Block(1, 1, L - 1)
  }

  lemma AllCellsMembers(L: nat, c: Cell)
    ensures c in AllCells(L) <==> InRange(L, c)
  {
    BlockMembers(0, 0, L, c);
  }

  lemma InteriorCellsMembers(L: nat, c: Cell)
    requires L >= 1
    ensures c in InteriorCells(L) <==> Interior(L, c)
  {
    BlockMembers(1, 1, L - 1, c);
  }

  // ---------------------------------------------------------------------------
  // activateFromPreviousBoard

  /** One iteration of the copy loop: post local(c) == prev(c), record c's key when prev(c) != 0. */
  function CopyCell(m: Model, prev: Board, c: Cell): Model
    requires |prev| == m.length * m.length && InRange(m.length, c)
  {
    var v := At(prev, m.length, c);
    m.(posted := m.posted + [CellIs(LocalBoard, c, v)],
       setValues := if v != 0 then m.setValues + [Key(m.length, c)] else m.setValues)
  }

  function CopyCells(m: Model, prev: Board, cells: seq<Cell>): (r: Model)
    requires |prev| == m.length * m.length
    requires forall c :: c in cells ==> InRange(m.length, c)
    ensures r.length == m.length && r.board == m.board && r.localBoard == m.localBoard
    decreases |cells|
  {
    if cells == [] then m
    else CopyCell(CopyCells(m, prev, cells[..|cells| - 1]), prev, cells[|cells| - 1])
  }

  /**
    Seed a space from the solved next board of the previous round: every
    interior cell is constrained equal to its previous value, and only the
    nonzero ones are recorded. The length must be at least 1: the source's
    unsigned bound `length - 1` wraps around for length 0.
   */
  function ActivateFromPreviousBoard(m: Model, prev: Board): (r: Model)
    requires m.length >= 1 && |prev| == m.length * m.length
    ensures r.length == m.length && r.board == m.board && r.localBoard == m.localBoard
    ensures m.length < 3 ==> r == m
  {
    forall c | c in InteriorCells(m.length)
      ensures InRange(m.length, c)
    {
      InteriorCellsMembers(m.length, c);
    }
    CopyCells(m, prev, InteriorCells(m.length))
  }

  /** Copying a list of cells posts one equality local(c) == prev(c) per cell and nothing else. */
  lemma {:induction false} CopyCellsPosts(m: Model, prev: Board, cells: seq<Cell>, a: Assignment)
    requires |prev| == m.length * m.length && Sized(m.length, a)
    requires forall c :: c in cells ==> InRange(m.length, c)
    ensures AllSatisfied(CopyCells(m, prev, cells).posted, m.length, a)
        <==> (&& AllSatisfied(m.posted, m.length, a)
              && forall c :: c in cells ==> At(a.local, m.length, c) == At(prev, m.length, c))
    decreases |cells|
  {
    if cells != [] {
      var L := m.length;
      var init, last := cells[..|cells| - 1], cells[|cells| - 1];
      assert forall c :: c in cells <==> c in init || c == last;
      CopyCellsPosts(m, prev, init, a);
      var mi := CopyCells(m, prev, init);
      var pin := CellIs(LocalBoard, last, At(prev, L, last));
      assert CopyCells(m, prev, cells).posted == mi.posted + [pin];
      AllSatisfiedOne(pin, L, a);
      AllSatisfiedAppend(mi.posted, [pin], L, a);
    }
  }

  /** Copying a list of cells records the keys of exactly the listed cells whose previous value is nonzero. */
  lemma {:induction false} CopyCellsKeys(m: Model, prev: Board, cells: seq<Cell>, c: Cell)
    requires |prev| == m.length * m.length && InRange(m.length, c)
    requires forall d :: d in cells ==> InRange(m.length, d)
    ensures Key(m.length, c) in CopyCells(m, prev, cells).setValues
        <==> (Key(m.length, c) in m.setValues || (c in cells && At(prev, m.length, c) != 0))
    decreases |cells|
  {
    if cells != [] {
      var L := m.length;
      var init, last := cells[..|cells| - 1], cells[|cells| - 1];
      assert c in cells <==> c in init || c == last;
      CopyCellsKeys(m, prev, init, c);
      KeyInjective(L, c, last);
    }
  }

  /**
    activateFromPreviousBoard constrains exactly the interior cells of the local
    board to their previous values, and records exactly the keys of the interior
    cells whose previous value is nonzero.
   */
  lemma ActivateFromPreviousMeaning(m: Model, prev: Board, a: Assignment)
    requires m.length >= 1 && |prev| == m.length * m.length && Sized(m.length, a)
    ensures AllSatisfied(ActivateFromPreviousBoard(m, prev).posted, m.length, a)
        <==> (&& AllSatisfied(m.posted, m.length, a)
              && forall c :: Interior(m.length, c) ==> At(a.local, m.length, c) == At(prev, m.length, c))
    ensures forall c :: InRange(m.length, c) ==>
              (Key(m.length, c) in ActivateFromPreviousBoard(m, prev).setValues <==>
                 (Key(m.length, c) in m.setValues || (Interior(m.length, c) && At(prev, m.length, c) != 0)))
  {
    var L := m.length;
    forall c
      ensures c in InteriorCells(L) <==> Interior(L, c)
    {
      InteriorCellsMembers(L, c);
    }
    CopyCellsPosts(m, prev, InteriorCells(L), a);
    forall c | InRange(L, c)
      ensures Key(L, c) in ActivateFromPreviousBoard(m, prev).setValues
              <==> (Key(L, c) in m.setValues || (Interior(L, c) && At(prev, L, c) != 0))
    {
      CopyCellsKeys(m, prev, InteriorCells(L), c);
    }
  }

  // ---------------------------------------------------------------------------
  // setContraints

  /** The constraints posted for one cell, given the activation list `keys`. */
  function CellConstraints(L: nat, keys: seq<nat>, c: Cell): seq<Constraint> {
    if OnBorder(L, c) then
      [CellIs(LocalBoard, c, 0), CellIs(NextBoard, c, 0)]
    else
      (if Key(L, c) in keys then [] else [CellIs(LocalBoard, c, 0)]) + [Transition(c)]
  }

  function PostAll(L: nat, keys: seq<nat>, cells: seq<Cell>): seq<Constraint>
    decreases |cells|
  {
    if cells == [] then [] else CellConstraints(L, keys, cells[0]) + PostAll(L, keys, cells[1..])
  }

  /** Post the border, closure and transition constraints for every cell. */
  function SetConstraints(m: Model): (r: Model)
    ensures r.length == m.length && r.board == m.board && r.localBoard == m.localBoard
    ensures r.setValues == m.setValues
    ensures |r.posted| >= |m.posted| && r.posted[..|m.posted|] == m.posted
  {
    m.(posted := m.posted + PostAll(m.length, m.setValues, AllCells(m.length)))
  }

  /** Border rule: both boards are dead on every border cell. */
  ghost predicate BorderRule(L: nat, a: Assignment)
    requires Sized(L, a)
  {
    forall c :: InRange(L, c) && OnBorder(L, c) ==> At(a.local, L, c) == 0 && At(a.next, L, c) == 0
  }

  /** Closure rule: an interior cell whose key was not recorded is dead on the local board. */
  ghost predicate ClosureRule(L: nat, keys: seq<nat>, a: Assignment)
    requires Sized(L, a)
  {
    forall c :: Interior(L, c) && Key(L, c) !in keys ==> At(a.local, L, c) == 0
  }

  /** Transition rule: every interior cell satisfies the XOR-combined Game of Life constraint. */
  ghost predicate TransitionRule(L: nat, a: Assignment)
    requires Sized(L, a)
  {
    forall c :: Interior(L, c) ==> TransitionHolds(At(a.local, L, c), Neighbours(a.local, L, c), At(a.next, L, c))
  }

  /** The per-cell meaning of CellConstraints. */
  ghost predicate CellRules(L: nat, keys: seq<nat>, c: Cell, a: Assignment)
    requires Sized(L, a) && InRange(L, c)
  {
    if OnBorder(L, c) then At(a.local, L, c) == 0 && At(a.next, L, c) == 0
    else
      InteriorIsInRangeOffBorder(L, c);
      && (Key(L, c) in keys || At(a.local, L, c) == 0)
      && TransitionHolds(At(a.local, L, c), Neighbours(a.local, L, c), At(a.next, L, c))
  }

  lemma AllSatisfiedOne(k: Constraint, L: nat, a: Assignment)
    requires Sized(L, a)
    ensures AllSatisfied([k], L, a) <==> Satisfied(k, L, a)
  {
    assert [k][1..] == [];
  }

  lemma AllSatisfiedTwo(k1: Constraint, k2: Constraint, L: nat, a: Assignment)
    requires Sized(L, a)
    ensures AllSatisfied([k1, k2], L, a) <==> Satisfied(k1, L, a) && Satisfied(k2, L, a)
  {
    assert [k1, k2][1..] == [k2];
    AllSatisfiedOne(k2, L, a);
  }

  /** The constraints of one cell mean exactly CellRules. */
  lemma CellConstraintsMeaning(L: nat, keys: seq<nat>, c: Cell, a: Assignment)
    requires Sized(L, a) && InRange(L, c)
    ensures AllSatisfied(CellConstraints(L, keys, c), L, a) <==> CellRules(L, keys, c, a)
  {
    InteriorIsInRangeOffBorder(L, c);
    var local0, next0 := CellIs(LocalBoard, c, 0), CellIs(NextBoard, c, 0);
    if OnBorder(L, c) {
      assert CellConstraints(L, keys, c) == [local0, next0];
      AllSatisfiedTwo(local0, next0, L, a);
    } else if Key(L, c) in keys {
      assert CellConstraints(L, keys, c) == [Transition(c)];
      AllSatisfiedOne(Transition(c), L, a);
    } else {
      assert CellConstraints(L, keys, c) == [local0, Transition(c)];
      AllSatisfiedTwo(local0, Transition(c), L, a);
    }
  }

  lemma {:induction false} PostAllMeaning(L: nat, keys: seq<nat>, cells: seq<Cell>, a: Assignment)
    requires Sized(L, a)
    requires forall c :: c in cells ==> InRange(L, c)
    ensures AllSatisfied(PostAll(L, keys, cells), L, a) <==> forall c :: c in cells ==> CellRules(L, keys, c, a)
    decreases |cells|
  {
    if cells != [] {
      var c := cells[0];
      PostAllMeaning(L, keys, cells[1..], a);
      AllSatisfiedAppend(CellConstraints(L, keys, c), PostAll(L, keys, cells[1..]), L, a);
      CellConstraintsMeaning(L, keys, c, a);
      assert forall d :: d in cells <==> d == c || d in cells[1..];
    }
  }

  /** The transition constraint is posted for exactly the listed cells that are off the border. */
  lemma {:induction false} PostAllTransitions(L: nat, keys: seq<nat>, cells: seq<Cell>, c: Cell)
    ensures Transition(c) in PostAll(L, keys, cells) <==> c in cells && !OnBorder(L, c)
    decreases |cells|
  {
    if cells != [] {
      PostAllTransitions(L, keys, cells[1..], c);
      assert c in cells <==> c == cells[0] || c in cells[1..];
    }
  }

  /**
    setContraints posts a transition constraint for every interior cell and
    for no border cell.
   */
  lemma SetConstraintsTransitions(m: Model, c: Cell)
    requires InRange(m.length, c)
    ensures Transition(c) in SetConstraints(m).posted <==> Transition(c) in m.posted || !OnBorder(m.length, c)
  {
    AllCellsMembers(m.length, c);
    PostAllTransitions(m.length, m.setValues, AllCells(m.length), c);
  }

  /** CellRules at every cell is the conjunction of the border, closure and transition rules. */
  lemma CellRulesEverywhere(L: nat, keys: seq<nat>, a: Assignment)
    requires Sized(L, a)
    ensures (forall c :: InRange(L, c) ==> CellRules(L, keys, c, a))
        <==> BorderRule(L, a) && ClosureRule(L, keys, a) && TransitionRule(L, a)
  {
    forall c
      ensures Interior(L, c) <==> InRange(L, c) && !OnBorder(L, c)
    {
      InteriorIsInRangeOffBorder(L, c);
    }
    if forall c :: InRange(L, c) ==> CellRules(L, keys, c, a) {
      forall c | InRange(L, c) && OnBorder(L, c)
        ensures At(a.local, L, c) == 0 && At(a.next, L, c) == 0
      {
        assert CellRules(L, keys, c, a);
      }
      forall c | Interior(L, c)
        ensures Key(L, c) in keys || At(a.local, L, c) == 0
        ensures TransitionHolds(At(a.local, L, c), Neighbours(a.local, L, c), At(a.next, L, c))
      {
        assert CellRules(L, keys, c, a);
      }
    }
  }

  /**
    The constraints setContraints posts mean exactly the three rules: border,
    closure and transition.
   */
  lemma SetConstraintsMeaning(m: Model, a: Assignment)
    requires Sized(m.length, a)
    ensures AllSatisfied(SetConstraints(m).posted, m.length, a)
        <==> && AllSatisfied(m.posted, m.length, a)
             && BorderRule(m.length, a)
             && ClosureRule(m.length, m.setValues, a)
             && TransitionRule(m.length, a)
  {
    var L, keys := m.length, m.setValues;
    forall c
      ensures c in AllCells(L) <==> InRange(L, c)
    {
      AllCellsMembers(L, c);
    }
    PostAllMeaning(L, keys, AllCells(L), a);
    AllSatisfiedAppend(m.posted, PostAll(L, keys, AllCells(L)), L, a);
    CellRulesEverywhere(L, keys, a);
  }
}
