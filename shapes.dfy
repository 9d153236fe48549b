/** The conventional optional value, used for the held piece, the hold flag and kick searches. */
module Options {
  datatype Option<T> = None | Some(value: T)
}

/**
  The tetromino catalog: the seven kinds, the ordered rotation grids of each
  kind, the colour tag of each kind, and the piece value the engine moves around.
*/
module Shapes {

  datatype Kind = I | O | T | S | Z | J | L

  /** The catalog's key order; a fresh bag is filled in this order before it is shuffled. */
  const AllKinds: seq<Kind> := [I, O, T, S, Z, J, L]

  /** A rotation state: rows of 0/1 cells, 1 meaning the piece has a block there. */
  type Grid = seq<seq<int>>

  // The curses colour numbers the catalog uses.
  const CursesRed := 1
  const CursesGreen := 2
  const CursesYellow := 3
  const CursesBlue := 4
  const CursesMagenta := 5
  const CursesCyan := 6
  const CursesWhite := 7

  /** Cell (r, c) of grid g exists and holds a block. */
  predicate OccupiedCell(g: Grid, r: int, c: int) {
    0 <= r < |g| && 0 <= c < |g[r]| && g[r][c] != 0
  }

  /** Number of blocks in one grid row. */
  function RowBlocks(row: seq<int>): nat {
    if row == [] then 0 else (if row[0] != 0 then 1 else 0) + RowBlocks(row[1..])
  }

  /** Number of blocks in a grid. */
  function GridBlocks(g: Grid): nat {
    if g == [] then 0 else RowBlocks(g[0]) + GridBlocks(g[1..])
  }

  /**
    A rotation grid as the catalog uses it: a non-empty rectangle of 0/1 cells
    whose bounding box is tight (its first and last rows and its first and last
    columns each hold a block).
  */
  ghost predicate TightGrid(g: Grid) {
    && 1 <= |g|
    && 1 <= |g[0]|
    && (forall r :: 0 <= r < |g| ==> |g[r]| == |g[0]|)
    && (forall r, c :: 0 <= r < |g| && 0 <= c < |g[r]| ==> g[r][c] == 0 || g[r][c] == 1)
    && RowHasBlock(g, 0)
    && RowHasBlock(g, |g| - 1)
    && ColumnHasBlock(g, 0)
    && ColumnHasBlock(g, |g[0]| - 1)
  }

  ghost predicate RowHasBlock(g: Grid, r: int) {
    exists c :: OccupiedCell(g, r, c)
  }

  ghost predicate ColumnHasBlock(g: Grid, c: int) {
    exists r :: OccupiedCell(g, r, c)
  }

  /** How many rotation states a kind has: O one, I, S and Z two, T, J and L four. */
  function RotationCount(k: Kind): nat {
    match k
    case O => 1
    case I | S | Z => 2
    case T | J | L => 4
  }

  /**
    The rotation states of a kind, in the order rotation indices refer to them:
    O has one state, I, S and Z have two, T, J and L have four.
  */
  function Rotations(k: Kind): (rs: seq<Grid>)
    ensures |rs| == RotationCount(k)
  {
    match k
    case I => [[[1, 1, 1, 1]], [[1], [1], [1], [1]]]
    case O => [[[1, 1], [1, 1]]]
    case T => [[[0, 1, 0], [1, 1, 1]], [[1, 0], [1, 1], [1, 0]], [[1, 1, 1], [0, 1, 0]], [[0, 1], [1, 1], [0, 1]]]
    case S => [[[0, 1, 1], [1, 1, 0]], [[1, 0], [1, 1], [0, 1]]]
    case Z => [[[1, 1, 0], [0, 1, 1]], [[0, 1], [1, 1], [1, 0]]]
    case J => [[[1, 0, 0], [1, 1, 1]], [[1, 1], [1, 0], [1, 0]], [[1, 1, 1], [0, 0, 1]], [[0, 1], [0, 1], [1, 1]]]
    case L => [[[0, 0, 1], [1, 1, 1]], [[1, 0], [1, 0], [1, 1]], [[1, 1, 1], [1, 0, 0]], [[1, 1], [0, 1], [0, 1]]]
  }

  /** Every rotation state in the catalog is a tight grid. */
  lemma RotationIsTight(k: Kind, i: nat)
    requires i < RotationCount(k)
    ensures TightGrid(Rotations(k)[i])
  {
    if k == T || k == J || k == L {
      CornerKindsTight(k, i);
    } else {
      StraightKindsTight(k, i);
    }
  }

  // One occupied cell on each side of the bounding box, rotation by rotation.

  lemma StraightKindsTight(k: Kind, i: nat)
    requires k == I || k == O || k == S || k == Z
    requires i < RotationCount(k)
    ensures TightGrid(Rotations(k)[i])
  {
    if k == I || k == O { LineAndSquareTight(k, i); } else { SkewKindsTight(k, i); }
  }

  lemma LineAndSquareTight(k: Kind, i: nat)
    requires k == I || k == O
    requires i < RotationCount(k)
    ensures TightGrid(Rotations(k)[i])
  {
    var g := Rotations(k)[i];
    if k == I {
      if i == 0 { assert OccupiedCell(g, 0, 0) && OccupiedCell(g, 0, 3); }
      else { assert OccupiedCell(g, 0, 0) && OccupiedCell(g, 3, 0); }
    } else {
      assert OccupiedCell(g, 0, 0) && OccupiedCell(g, 1, 0) && OccupiedCell(g, 0, 1);
    }
  }

  lemma SkewKindsTight(k: Kind, i: nat)
    requires k == S || k == Z
    requires i < RotationCount(k)
    ensures TightGrid(Rotations(k)[i])
  {
    var g := Rotations(k)[i];
    if k == S {
      if i == 0 { assert OccupiedCell(g, 0, 1) && OccupiedCell(g, 1, 0) && OccupiedCell(g, 0, 2); }
      else { assert OccupiedCell(g, 0, 0) && OccupiedCell(g, 2, 1) && OccupiedCell(g, 1, 1); }
    } else {
      if i == 0 { assert OccupiedCell(g, 0, 0) && OccupiedCell(g, 1, 1) && OccupiedCell(g, 1, 2); }
      else { assert OccupiedCell(g, 0, 1) && OccupiedCell(g, 2, 0) && OccupiedCell(g, 1, 0); }
    }
  }

  lemma CornerKindsTight(k: Kind, i: nat)
    requires k == T || k == J || k == L
    requires i < RotationCount(k)
    ensures TightGrid(Rotations(k)[i])
  {
    match k
    case T => TTight(i);
    case J => JTight(i);
    case L => LTight(i);
  }

  lemma TTight(i: nat)
    requires i < RotationCount(T)
    ensures TightGrid(Rotations(T)[i])
  {
    var g := Rotations(T)[i];
    if i == 0 { assert OccupiedCell(g, 0, 1) && OccupiedCell(g, 1, 0) && OccupiedCell(g, 1, 2); }
    else if i == 1 { assert OccupiedCell(g, 0, 0) && OccupiedCell(g, 2, 0) && OccupiedCell(g, 1, 1); }
    else if i == 2 { assert OccupiedCell(g, 0, 0) && OccupiedCell(g, 1, 1) && OccupiedCell(g, 0, 2); }
    else { assert OccupiedCell(g, 0, 1) && OccupiedCell(g, 2, 1) && OccupiedCell(g, 1, 0); }
  }

  lemma JTight(i: nat)
    requires i < RotationCount(J)
    ensures TightGrid(Rotations(J)[i])
  {
    var g := Rotations(J)[i];
    if i == 0 { assert OccupiedCell(g, 0, 0) && OccupiedCell(g, 1, 0) && OccupiedCell(g, 1, 2); }
    else if i == 1 { assert OccupiedCell(g, 0, 0) && OccupiedCell(g, 2, 0) && OccupiedCell(g, 0, 1); }
    else if i == 2 { assert OccupiedCell(g, 0, 0) && OccupiedCell(g, 1, 2) && OccupiedCell(g, 0, 2); }
    else { assert OccupiedCell(g, 0, 1) && OccupiedCell(g, 2, 0); }
  }

  lemma LTight(i: nat)
    requires i < RotationCount(L)
    ensures TightGrid(Rotations(L)[i])
  {
    var g := Rotations(L)[i];
    if i == 0 { assert OccupiedCell(g, 0, 2) && OccupiedCell(g, 1, 0); }
    else if i == 1 { assert OccupiedCell(g, 0, 0) && OccupiedCell(g, 2, 0) && OccupiedCell(g, 2, 1); }
    else if i == 2 { assert OccupiedCell(g, 0, 0) && OccupiedCell(g, 1, 0) && OccupiedCell(g, 0, 2); }
    else { assert OccupiedCell(g, 0, 0) && OccupiedCell(g, 2, 1) && OccupiedCell(g, 0, 1); }
  }

  /** No rotation state is empty: each has a first row, and that row a first cell. */
  lemma RotationNonEmpty(k: Kind, i: nat)
    requires i < RotationCount(k)
    ensures 1 <= |Rotations(k)[i]| && 1 <= |Rotations(k)[i][0]|
  {
  }

  /** Every rotation state holds exactly four blocks: each piece is a tetromino. */
  lemma RotationHasFourBlocks(k: Kind, i: nat)
    requires i < RotationCount(k)
    ensures GridBlocks(Rotations(k)[i]) == 4
  {
    match k
    case I | O | S | Z => StraightKindsFourBlocks(k, i);
    case T => TFourBlocks(i);
    case J => JFourBlocks(i);
    case L => LFourBlocks(i);
  }

  // Block counts, rotation by rotation.

  lemma StraightKindsFourBlocks(k: Kind, i: nat)
    requires k == I || k == O || k == S || k == Z
    requires i < RotationCount(k)
    ensures GridBlocks(Rotations(k)[i]) == 4
  {
    if k == I || k == O { LineAndSquareFourBlocks(k, i); } else { SkewKindsFourBlocks(k, i); }
  }

  lemma LineAndSquareFourBlocks(k: Kind, i: nat)
    requires k == I || k == O
    requires i < RotationCount(k)
    ensures GridBlocks(Rotations(k)[i]) == 4
  {
    if k == O { assert GridBlocks([[1, 1], [1, 1]]) == 4; }
    else if i == 0 { assert GridBlocks([[1, 1, 1, 1]]) == 4; }
    else { assert GridBlocks([[1], [1], [1], [1]]) == 4; }
  }

  lemma SkewKindsFourBlocks(k: Kind, i: nat)
    requires k == S || k == Z
    requires i < RotationCount(k)
    ensures GridBlocks(Rotations(k)[i]) == 4
  {
    if k == S {
      if i == 0 { assert GridBlocks([[0, 1, 1], [1, 1, 0]]) == 4; }
      else { assert GridBlocks([[1, 0], [1, 1], [0, 1]]) == 4; }
    } else {
      if i == 0 { assert GridBlocks([[1, 1, 0], [0, 1, 1]]) == 4; }
      else { assert GridBlocks([[0, 1], [1, 1], [1, 0]]) == 4; }
    }
  }

  lemma TFourBlocks(i: nat)
    requires i < RotationCount(T)
    ensures GridBlocks(Rotations(T)[i]) == 4
  {
    if i == 0 { assert GridBlocks([[0, 1, 0], [1, 1, 1]]) == 4; }
    else if i == 1 { assert GridBlocks([[1, 0], [1, 1], [1, 0]]) == 4; }
    else if i == 2 { assert GridBlocks([[1, 1, 1], [0, 1, 0]]) == 4; }
    else { assert GridBlocks([[0, 1], [1, 1], [0, 1]]) == 4; }
  }

  lemma JFourBlocks(i: nat)
    requires i < RotationCount(J)
    ensures GridBlocks(Rotations(J)[i]) == 4
  {
    if i == 0 { assert GridBlocks([[1, 0, 0], [1, 1, 1]]) == 4; }
    else if i == 1 { assert GridBlocks([[1, 1], [1, 0], [1, 0]]) == 4; }
    else if i == 2 { assert GridBlocks([[1, 1, 1], [0, 0, 1]]) == 4; }
    else { assert GridBlocks([[0, 1], [0, 1], [1, 1]]) == 4; }
  }

  lemma LFourBlocks(i: nat)
    requires i < RotationCount(L)
    ensures GridBlocks(Rotations(L)[i]) == 4
  {
    if i == 0 { assert GridBlocks([[0, 0, 1], [1, 1, 1]]) == 4; }
    else if i == 1 { assert GridBlocks([[1, 0], [1, 0], [1, 1]]) == 4; }
    else if i == 2 { assert GridBlocks([[1, 1, 1], [1, 0, 0]]) == 4; }
    else { assert GridBlocks([[1, 1], [0, 1], [0, 1]]) == 4; }
  }

  /** The colour tag of a kind: a non-zero curses colour number, so a stamped cell reads as filled. */
  function Color(k: Kind): (c: int)
    ensures 1 <= c <= 7
  {
    match k
    case I => CursesCyan
    case O => CursesYellow
    case T => CursesMagenta
    case S => CursesGreen
    case Z => CursesRed
    case J => CursesBlue
    case L => CursesWhite
  }

  /** Distinct kinds carry distinct colour tags. */
  lemma ColorsDistinct(k1: Kind, k2: Kind)
    ensures Color(k1) == Color(k2) ==> k1 == k2
  {
  }

  /** Width of a kind's rotation-0 grid, the width the spawn anchor is centred by. */
  function SpawnWidth(k: Kind): nat {
    match k
    case I => 4
    case O => 2
    case T | S | Z | J | L => 3
  }

  /** The spawn width of a kind is the width of its rotation-0 grid. */
  lemma SpawnWidthIsGridWidth(k: Kind)
    ensures SpawnWidth(k) == |Rotations(k)[0][0]|
  {
  }

  /** A piece: kind, top-left anchor of its rotation grid, rotation index and colour tag. */
  datatype Tetromino = Tetromino(shape: Kind, x: int, y: int, rotation: nat, colorId: int)
  {
    /** The rotation index names one of the kind's rotation states. */
    predicate Valid() {
      rotation < RotationCount(shape)
    }

    /** A piece as the engine creates it: a valid rotation and its kind's colour tag. */
    predicate WellFormed() {
      Valid() && colorId == Color(shape)
    }

    /** The rotation grid the piece currently uses. */
    function RotationGrid(): (g: Grid)
      requires Valid()
      ensures 1 <= |g| && 1 <= |g[0]|
    {
      RotationNonEmpty(shape, rotation);
      Rotations(shape)[rotation]
    }

    /** The piece puts a block on board cell (cx, cy). */
    predicate Covers(cx: int, cy: int)
      requires Valid()
    {
      OccupiedCell(RotationGrid(), cy - y, cx - x)
    }

    /**
      The same piece translated by (dx, dy): it keeps its kind, rotation and
      colour, and covers exactly the cells this piece covers, each shifted by (dx, dy).
    */
    function MovedBy(dx: int, dy: int): (p: Tetromino)
      ensures p.shape == shape && p.rotation == rotation && p.colorId == colorId
      ensures p.x - x == dx && p.y - y == dy
      ensures Valid() ==> p.Valid() && forall cx, cy :: p.Covers(cx + dx, cy + dy) <==> Covers(cx, cy)
    {
      this.(x := x + dx, y := y + dy)
    }
  }

  /** Column of the spawn anchor on a board of width w: the rotation-0 grid centred by integer halving. */
  function SpawnX(width: nat, k: Kind): int {
    width / 2 - SpawnWidth(k) / 2
  }

  /** A freshly generated piece: rotation 0 at the spawn anchor on row 0, with its kind's colour. */
  function Spawn(width: nat, k: Kind): (p: Tetromino)
    ensures p.WellFormed() && p.shape == k && p.rotation == 0 && p.y == 0
  {
    Tetromino(k, SpawnX(width, k), 0, 0, Color(k))
  }

  /** On a board at least four columns wide a freshly spawned piece's bounding box lies within the columns. */
  lemma SpawnFits(width: nat, k: Kind)
    requires width >= 4
    ensures var p := Spawn(width, k);
      0 <= p.x && p.x + |p.RotationGrid()[0]| <= width
  {
    SpawnWidthIsGridWidth(k);
  }
}
