/**
  Pure functions over the board grid: the collision scan, stamping a piece,
  finding and removing full rows, the row a falling piece first collides at,
  and the wall-kick search used by rotation.
*/
module Playfield {
  import opened Options
  import opened Shapes

  /** The board: rows of cells; 0 is empty, any other value is the colour tag of a settled block. */
  type Board = seq<seq<int>>

  /** The board has `h` rows of `w` cells each. */
  predicate IsGrid(b: Board, w: nat, h: nat) {
    |b| == h && forall y :: 0 <= y < h ==> |b[y]| == w
  }

  /** A fresh row of `w` empty cells. */
  function Zeros(w: nat): seq<int> {
    seq(w, _ => 0)
  }

  /** `n` fresh empty rows of width `w`. */
  function EmptyRows(n: nat, w: nat): Board {
    seq(n, _ => Zeros(w))
  }

  /** Rows made by EmptyRows have the requested shape and are empty. */
  lemma EmptyRowsShape(n: nat, w: nat)
    ensures IsGrid(EmptyRows(n, w), w, n) && IsEmpty(EmptyRows(n, w))
  {
  }

  /** Every cell of the board is empty. */
  predicate IsEmpty(b: Board) {
    forall y, x :: 0 <= y < |b| && 0 <= x < |b[y]| ==> b[y][x] == 0
  }

  /** Cell (x, y) cannot take a block: it lies off the board (left, right, above or below) or is filled. */
  predicate Blocked(b: Board, w: nat, h: nat, x: int, y: int)
    requires IsGrid(b, w, h)
  {
    !(0 <= x < w && 0 <= y < h) || b[y][x] != 0
  }

  // ---------------------------------------------------------------------------
  // Collision

  /**
    The inner loop of the collision scan: the cells of one shape row from column
    `dx` on, placed on board row `cy` with the grid's left edge at column `px`.
    A cell is a hit when it is off the board, or (behind the redundant row >= 0
    guard) on a filled cell.
  */
  function RowHits(b: Board, w: nat, h: nat, row: seq<int>, px: int, cy: int, dx: nat): bool
    requires IsGrid(b, w, h) && dx <= |row|
    decreases |row| - dx, |b|
  {
    if dx == |row| then false
    else if row[dx] != 0 && !(0 <= px + dx < w && 0 <= cy < h) then true
    else if row[dx] != 0 && cy >= 0 && b[cy][px + dx] != 0 then true
    else RowHits(b, w, h, row, px, cy, dx + 1)
  }

  /** The row scan hits exactly when a block of the row from column dx on is blocked. */
  lemma {:induction false} RowHitsMeaning(b: Board, w: nat, h: nat, row: seq<int>, px: int, cy: int, dx: nat)
    requires IsGrid(b, w, h) && dx <= |row|
    ensures RowHits(b, w, h, row, px, cy, dx) <==>
      exists c :: dx <= c < |row| && row[c] != 0 && Blocked(b, w, h, px + c, cy)
    decreases |row| - dx
  {
    if dx < |row| {
      RowHitsMeaning(b, w, h, row, px, cy, dx + 1);
      if exists c :: dx <= c < |row| && row[c] != 0 && Blocked(b, w, h, px + c, cy) {
        var c :| dx <= c < |row| && row[c] != 0 && Blocked(b, w, h, px + c, cy);
        if c != dx {
          assert dx + 1 <= c;
        }
      }
    }
  }

  /** The outer loop of the collision scan: shape rows `dy` on, the grid anchored at (px, py). */
  function GridHits(b: Board, w: nat, h: nat, g: Grid, px: int, py: int, dy: nat): bool
    requires IsGrid(b, w, h) && dy <= |g|
    decreases |g| - dy, |b|
  {
    if dy == |g| then false
    else RowHits(b, w, h, g[dy], px, py + dy, 0) || GridHits(b, w, h, g, px, py, dy + 1)
  }

  /** The grid scan hits exactly when a block in rows dy on is blocked. */
  lemma {:induction false} GridHitsMeaning(b: Board, w: nat, h: nat, g: Grid, px: int, py: int, dy: nat)
    requires IsGrid(b, w, h) && dy <= |g|
    ensures GridHits(b, w, h, g, px, py, dy) <==>
      exists r, c :: dy <= r && OccupiedCell(g, r, c) && Blocked(b, w, h, px + c, py + r)
    decreases |g| - dy
  {
    if dy < |g| {
      RowHitsMeaning(b, w, h, g[dy], px, py + dy, 0);
      GridHitsMeaning(b, w, h, g, px, py, dy + 1);
      GridRowSplit(b, w, h, g, px, py, dy);
    }
  }

  /** A blocked block in rows dy.. is one in row dy or one in rows dy + 1.. . */
  lemma GridRowSplit(b: Board, w: nat, h: nat, g: Grid, px: int, py: int, dy: nat)
    requires IsGrid(b, w, h) && dy < |g|
    ensures (exists r, c :: dy <= r && OccupiedCell(g, r, c) && Blocked(b, w, h, px + c, py + r)) <==>
      (exists c :: 0 <= c < |g[dy]| && g[dy][c] != 0 && Blocked(b, w, h, px + c, py + dy)) ||
      (exists r, c :: dy + 1 <= r && OccupiedCell(g, r, c) && Blocked(b, w, h, px + c, py + r))
  {
    if exists r, c :: dy <= r && OccupiedCell(g, r, c) && Blocked(b, w, h, px + c, py + r) {
      var r, c :| dy <= r && OccupiedCell(g, r, c) && Blocked(b, w, h, px + c, py + r);
      if r == dy {
        assert 0 <= c < |g[dy]| && g[dy][c] != 0;
      }
    }
    if exists c :: 0 <= c < |g[dy]| && g[dy][c] != 0 && Blocked(b, w, h, px + c, py + dy) {
      var c :| 0 <= c < |g[dy]| && g[dy][c] != 0 && Blocked(b, w, h, px + c, py + dy);
      assert OccupiedCell(g, dy, c);
    }
  }

  /** The collision scan over the piece's rotation grid, row by row. */
  function Collides(b: Board, w: nat, h: nat, p: Tetromino): (hit: bool)
    requires IsGrid(b, w, h) && p.Valid()
  {
    GridHits(b, w, h, p.RotationGrid(), p.x, p.y, 0)
  }

  /**
    The scan's verdict in board coordinates: the piece collides exactly when
    one of its blocks lies off the board (a row above 0 included) or on a
    filled cell.
  */
  lemma CollisionMeaning(b: Board, w: nat, h: nat, p: Tetromino)
    requires IsGrid(b, w, h) && p.Valid()
    ensures Collides(b, w, h, p) <==> exists cx, cy :: p.Covers(cx, cy) && Blocked(b, w, h, cx, cy)
  {
    var g := p.RotationGrid();
    GridHitsMeaning(b, w, h, g, p.x, p.y, 0);
    if GridHits(b, w, h, g, p.x, p.y, 0) {
      var r, c :| OccupiedCell(g, r, c) && Blocked(b, w, h, p.x + c, p.y + r);
      assert p.Covers(p.x + c, p.y + r);
    } else {
      forall cx, cy | p.Covers(cx, cy) ensures !Blocked(b, w, h, cx, cy) {
        assert OccupiedCell(g, cy - p.y, cx - p.x);
      }
    }
  }

  /** A piece that does not collide lies wholly on the board: its bounding box fits. */
  lemma NoCollisionInside(b: Board, w: nat, h: nat, p: Tetromino)
    requires IsGrid(b, w, h) && p.Valid() && !Collides(b, w, h, p)
    ensures 0 <= p.y && p.y + |p.RotationGrid()| <= h
    ensures 0 <= p.x && p.x + |p.RotationGrid()[0]| <= w
  {
    CollisionMeaning(b, w, h, p);
    RotationIsTight(p.shape, p.rotation);
    var g := p.RotationGrid();
    var top :| OccupiedCell(g, 0, top);
    assert p.Covers(p.x + top, p.y);
    var bottom :| OccupiedCell(g, |g| - 1, bottom);
    assert p.Covers(p.x + bottom, p.y + |g| - 1);
    var left :| OccupiedCell(g, left, 0);
    assert p.Covers(p.x, p.y + left);
    var right :| OccupiedCell(g, right, |g[0]| - 1);
    assert p.Covers(p.x + |g[0]| - 1, p.y + right);
  }

  /** On an empty board a piece collides exactly when its bounding box does not fit on the board. */
  lemma EmptyBoardCollision(w: nat, h: nat, p: Tetromino)
    requires p.Valid()
    ensures var g := p.RotationGrid();
      Collides(EmptyRows(h, w), w, h, p) <==>
        !(0 <= p.y && p.y + |g| <= h && 0 <= p.x && p.x + |g[0]| <= w)
  {
    var b, g := EmptyRows(h, w), p.RotationGrid();
    CollisionMeaning(b, w, h, p);
    if 0 <= p.y && p.y + |g| <= h && 0 <= p.x && p.x + |g[0]| <= w {
      forall cx, cy | p.Covers(cx, cy) ensures !Blocked(b, w, h, cx, cy) {
        assert OccupiedCell(g, cy - p.y, cx - p.x);
      }
    } else if !Collides(b, w, h, p) {
      NoCollisionInside(b, w, h, p);
    }
  }

  // ---------------------------------------------------------------------------
  // Placement

  /** Writes colour c into cell (x, y) when that cell lies on the board; off-board writes are dropped. */
  function Paint(b: Board, x: int, y: int, c: int): (r: Board)
    ensures |r| == |b|
  {
    if 0 <= y < |b| && 0 <= x < |b[y]| then b[y := b[y][x := c]] else b
  }

  /** The inner placement loop: paints the blocks of shape row dy of the piece from column dx on. */
  function StampCells(b: Board, p: Tetromino, row: seq<int>, dy: int, dx: nat): Board
    requires dx <= |row|
    decreases |row| - dx, |b|
  {
    if dx == |row| then b
    else StampCells(if row[dx] != 0 then Paint(b, p.x + dx, p.y + dy, p.colorId) else b, p, row, dy, dx + 1)
  }

  /** The outer placement loop: paints the rows of grid g from row dy on. */
  function StampRows(b: Board, p: Tetromino, g: Grid, dy: nat): Board
    requires dy <= |g|
    decreases |g| - dy, |b|
  {
    if dy == |g| then b else StampRows(StampCells(b, p, g[dy], dy, 0), p, g, dy + 1)
  }

  /** The board after placement: the piece's rotation grid painted at its anchor, row by row. */
  function Stamp(b: Board, w: nat, h: nat, p: Tetromino): (r: Board)
    requires IsGrid(b, w, h) && p.Valid()
    ensures IsGrid(r, w, h)
  {
    StampRowsMeaning(b, w, h, p, p.RotationGrid(), 0);
    StampRows(b, p, p.RotationGrid(), 0)
  }

  /** Painting one shape row changes exactly its blocks that lie on the board. */
  lemma {:induction false} StampCellsMeaning(b: Board, w: nat, h: nat, p: Tetromino, row: seq<int>, dy: int, dx: nat)
    requires IsGrid(b, w, h) && dx <= |row|
    ensures IsGrid(StampCells(b, p, row, dy, dx), w, h)
    ensures forall y, x :: 0 <= y < h && 0 <= x < w ==>
      StampCells(b, p, row, dy, dx)[y][x] ==
        if y == p.y + dy && dx <= x - p.x < |row| && row[x - p.x] != 0 then p.colorId else b[y][x]
    decreases |row| - dx
  {
    if dx < |row| {
      var next := if row[dx] != 0 then Paint(b, p.x + dx, p.y + dy, p.colorId) else b;
      assert IsGrid(next, w, h);
      StampCellsMeaning(next, w, h, p, row, dy, dx + 1);
    }
  }

  /** Painting the grid rows from dy on changes exactly their blocks that lie on the board. */
  lemma {:induction false} StampRowsMeaning(b: Board, w: nat, h: nat, p: Tetromino, g: Grid, dy: nat)
    requires IsGrid(b, w, h) && dy <= |g|
    ensures IsGrid(StampRows(b, p, g, dy), w, h)
    ensures forall y, x :: 0 <= y < h && 0 <= x < w ==>
      StampRows(b, p, g, dy)[y][x] ==
        if dy <= y - p.y && OccupiedCell(g, y - p.y, x - p.x) then p.colorId else b[y][x]
    decreases |g| - dy
  {
    if dy < |g| {
      StampCellsMeaning(b, w, h, p, g[dy], dy, 0);
      StampRowsMeaning(StampCells(b, p, g[dy], dy, 0), w, h, p, g, dy + 1);
    }
  }

  /**
    Placement keeps the board's shape, gives every on-board cell the piece
    covers the piece's colour tag, and leaves every other cell as it was.
  */
  lemma StampMeaning(b: Board, w: nat, h: nat, p: Tetromino)
    requires IsGrid(b, w, h) && p.Valid()
    ensures IsGrid(Stamp(b, w, h, p), w, h)
    ensures forall y, x :: 0 <= y < h && 0 <= x < w ==>
      Stamp(b, w, h, p)[y][x] == if p.Covers(x, y) then p.colorId else b[y][x]
  {
    StampRowsMeaning(b, w, h, p, p.RotationGrid(), 0);
  }

  /**
    Placing a piece that did not collide, with a non-zero colour, fills every
    cell it covers, so the same piece collides with the new board; cells it does
    not cover keep their value, and filled cells stay filled.
  */
  lemma StampedPieceCollides(b: Board, w: nat, h: nat, p: Tetromino)
    requires IsGrid(b, w, h) && p.Valid() && p.colorId != 0 && !Collides(b, w, h, p)
    ensures Collides(Stamp(b, w, h, p), w, h, p)
    ensures forall y, x :: 0 <= y < h && 0 <= x < w && b[y][x] != 0 ==> Stamp(b, w, h, p)[y][x] != 0
  {
    var g := p.RotationGrid();
    RotationIsTight(p.shape, p.rotation);
    StampMeaning(b, w, h, p);
    CollisionMeaning(Stamp(b, w, h, p), w, h, p);
    var top :| OccupiedCell(g, 0, top);
    assert p.Covers(p.x + top, p.y);
    NoCollisionInside(b, w, h, p);
  }

  // ---------------------------------------------------------------------------
  // Line clearing

  /** A row is full when every one of its cells is filled. */
  predicate IsFull(row: seq<int>) {
    forall x :: 0 <= x < |row| ==> row[x] != 0
  }

  /** The indices of the full rows in [lo, hi), scanned top to bottom. */
  function FullBetween(b: Board, lo: nat, hi: nat): seq<nat>
    requires lo <= hi <= |b|
    decreases hi
  {
    if hi == lo then []
    else FullBetween(b, lo, hi - 1) + (if IsFull(b[hi - 1]) then [hi - 1] else [])
  }

  /** The rows in [lo, hi) that are not full, in their original order. */
  function KeptBetween(b: Board, lo: nat, hi: nat): Board
    requires lo <= hi <= |b|
    decreases hi
  {
    if hi == lo then []
    else KeptBetween(b, lo, hi - 1) + (if IsFull(b[hi - 1]) then [] else [b[hi - 1]])
  }

  /** The indices of all full rows, top to bottom. */
  function FullRows(b: Board): seq<nat> {
    FullBetween(b, 0, |b|)
  }

  /**
    The board after clearing: every full row removed, the others kept in order,
    and as many empty rows as were removed inserted at the top.
  */
  function Cleared(b: Board, w: nat): Board {
    EmptyRows(|FullRows(b)|, w) + KeptBetween(b, 0, |b|)
  }

  /** The scan yields full rows of [lo, hi) only. */
  lemma {:induction false} FullBetweenRange(b: Board, lo: nat, hi: nat)
    requires lo <= hi <= |b|
    ensures forall i :: 0 <= i < |FullBetween(b, lo, hi)| ==>
      lo <= FullBetween(b, lo, hi)[i] < hi && IsFull(b[FullBetween(b, lo, hi)[i]])
    decreases hi
  {
    if hi > lo {
      FullBetweenRange(b, lo, hi - 1);
      var prev := FullBetween(b, lo, hi - 1);
      assert FullBetween(b, lo, hi) == prev + (if IsFull(b[hi - 1]) then [hi - 1] else []);
    }
  }

  /** Every row of [lo, hi) is either found full or kept. */
  lemma {:induction false} KeptCount(b: Board, lo: nat, hi: nat)
    requires lo <= hi <= |b|
    ensures |KeptBetween(b, lo, hi)| + |FullBetween(b, lo, hi)| == hi - lo
    decreases hi
  {
    if hi > lo {
      KeptCount(b, lo, hi - 1);
    }
  }

  /** The scan finds every full row of [lo, hi) and nothing else, in strictly increasing order. */
  lemma {:induction false} FullBetweenExact(b: Board, lo: nat, hi: nat)
    requires lo <= hi <= |b|
    ensures var ys := FullBetween(b, lo, hi);
      (forall i :: 0 <= i < |ys| ==> lo <= ys[i] < hi && IsFull(b[ys[i]])) &&
      (forall i, j :: 0 <= i < j < |ys| ==> ys[i] < ys[j]) &&
      (forall y :: lo <= y < hi ==> (IsFull(b[y]) <==> y in ys))
    decreases hi
  {
    FullBetweenRange(b, lo, hi);
    if hi > lo {
      FullBetweenExact(b, lo, hi - 1);
    }
  }

  /** The rows kept between lo and hi are rows of the board, none of them full. */
  lemma {:induction false} KeptRowsShape(b: Board, w: nat, lo: nat, hi: nat)
    requires IsGrid(b, w, |b|) && lo <= hi <= |b|
    ensures forall i :: 0 <= i < |KeptBetween(b, lo, hi)| ==>
      |KeptBetween(b, lo, hi)[i]| == w && !IsFull(KeptBetween(b, lo, hi)[i])
    decreases hi
  {
    if hi > lo {
      KeptRowsShape(b, w, lo, hi - 1);
      var rows := KeptBetween(b, lo, hi - 1);
      var last := if IsFull(b[hi - 1]) then [] else [b[hi - 1]];
      assert KeptBetween(b, lo, hi) == rows + last;
    }
  }

  /** Clearing keeps the board's size and leaves no full row (when rows have cells at all). */
  lemma ClearedShape(b: Board, w: nat, h: nat)
    requires IsGrid(b, w, h)
    ensures IsGrid(Cleared(b, w), w, h)
    ensures forall i :: 0 <= i < |FullRows(b)| ==> Cleared(b, w)[i] == Zeros(w)
    ensures w > 0 ==> forall y :: 0 <= y < h ==> !IsFull(Cleared(b, w)[y])
  {
    var r, n := Cleared(b, w), |FullRows(b)|;
    var kept := KeptBetween(b, 0, h);
    KeptCount(b, 0, h);
    KeptRowsShape(b, w, 0, h);
    forall y | 0 <= y < h ensures |r[y]| == w && (w > 0 ==> !IsFull(r[y])) {
      if y < n {
        assert r[y] == Zeros(w);
        if w > 0 { assert r[y][0] == 0; }
      } else {
        assert r[y] == kept[y - n];
      }
    }
  }

  /** Across rows none of which is full, the kept rows grow by exactly those rows. */
  lemma {:induction false} KeptSkip(b: Board, lo: nat, hi: nat)
    requires lo <= hi <= |b| && FullBetween(b, lo, hi) == []
    ensures KeptBetween(b, 0, hi) == KeptBetween(b, 0, lo) + b[lo..hi]
    decreases hi
  {
    if hi > lo {
      var last := if IsFull(b[hi - 1]) then [hi - 1] else [];
      assert FullBetween(b, lo, hi) == FullBetween(b, lo, hi - 1) + last;
      assert !IsFull(b[hi - 1]);
      KeptSkip(b, lo, hi - 1);
      assert b[lo..hi] == b[lo..hi - 1] + [b[hi - 1]];
    }
  }

  /** The full rows of [lo, hi) are those of [lo, mid) followed by those of [mid, hi). */
  lemma {:induction false} FullSplit(b: Board, lo: nat, mid: nat, hi: nat)
    requires lo <= mid <= hi <= |b|
    ensures FullBetween(b, lo, hi) == FullBetween(b, lo, mid) + FullBetween(b, mid, hi)
    decreases hi
  {
    if hi > mid {
      FullSplit(b, lo, mid, hi - 1);
    }
  }

  /** With no full row, clearing leaves the board as it was. */
  lemma NoFullRowsUnchanged(b: Board, w: nat)
    requires FullRows(b) == []
    ensures Cleared(b, w) == b
  {
    KeptSkip(b, 0, |b|);
  }

  /**
    With the full rows below m being exactly the first k, the next full row y
    lies at or after m, no row between m and y is full, and the full rows below
    y + 1 are the first k + 1.
  */
  lemma NextFullRow(b: Board, k: nat, m: nat)
    requires m <= |b| && k < |FullRows(b)| && FullBetween(b, 0, m) == FullRows(b)[..k]
    ensures var y := FullRows(b)[k];
      m <= y < |b| && FullBetween(b, m, y) == [] && IsFull(b[y]) &&
      FullBetween(b, 0, y + 1) == FullRows(b)[..k + 1]
  {
    var f, y := FullRows(b), FullRows(b)[k];
    var rest := NextFullRowIsFirstAfter(b, k, m);
    NoFullRowInGap(b, m, y, rest);
    FullSplit(b, 0, m, y + 1);
    FullSplit(b, m, y, y + 1);
    FullSingle(b, y);
    JoinFound(f, k, FullBetween(b, 0, y + 1), FullBetween(b, 0, m), FullBetween(b, m, y + 1),
      FullBetween(b, m, y), FullBetween(b, y, y + 1));
  }

  /** The first k found rows, then no row, then row f[k]: the first k + 1 found rows. */
  lemma JoinFound(f: seq<nat>, k: nat, whole: seq<nat>, pre: seq<nat>, post: seq<nat>, gap: seq<nat>, one: seq<nat>)
    requires k < |f| && pre == f[..k] && whole == pre + post && post == gap + one
    requires gap == [] && one == [f[k]]
    ensures whole == f[..k + 1]
  {
    assert f[..k + 1] == f[..k] + [f[k]];
  }

  /** A single full row is found by a scan of just that row. */
  lemma FullSingle(b: Board, y: nat)
    requires y < |b| && IsFull(b[y])
    ensures FullBetween(b, y, y + 1) == [y]
  {
    assert FullBetween(b, y, y) == [];
  }

  /** No row strictly between m and the first full row at or after m is full. */
  lemma NoFullRowInGap(b: Board, m: nat, y: nat, rest: seq<nat>)
    requires m <= y < |b| && rest == FullBetween(b, m, |b|) && rest != [] && rest[0] == y
    ensures FullBetween(b, m, y) == []
  {
    FullSplit(b, m, y, |b|);
    FullBetweenRange(b, m, y);
  }

  /** The full rows at or after m are the remaining ones, the first being FullRows(b)[k]. */
  lemma NextFullRowIsFirstAfter(b: Board, k: nat, m: nat) returns (rest: seq<nat>)
    requires m <= |b| && k < |FullRows(b)| && FullBetween(b, 0, m) == FullRows(b)[..k]
    ensures rest == FullBetween(b, m, |b|) && rest != [] && rest[0] == FullRows(b)[k]
    ensures m <= FullRows(b)[k] < |b| && IsFull(b[FullRows(b)[k]])
  {
    var f := FullRows(b);
    FullSplit(b, 0, m, |b|);
    FullBetweenRange(b, m, |b|);
    rest := FullBetween(b, m, |b|);
    assert f == f[..k] + rest;
    assert f[k] == rest[0];
  }

  /**
    One pass of the removal loop. Before it, the first k full rows (those above
    row m) have been popped and replaced by empty rows on top, and y is the next
    full row. Row y of the current board is still the original row y, and
    popping it and inserting an empty row on top leaves the same shape with
    k + 1 rows done.
  */
  lemma RemoveRowStep(b: Board, w: nat, k: nat, m: nat)
    requires m <= |b| && k < |FullRows(b)| && FullBetween(b, 0, m) == FullRows(b)[..k]
    ensures var y := FullRows(b)[k];
      var cur := EmptyRows(k, w) + KeptBetween(b, 0, m) + b[m..];
      m <= y < |b| && y < |cur| && cur[y] == b[y] && FullBetween(b, 0, y + 1) == FullRows(b)[..k + 1] &&
      [Zeros(w)] + (cur[..y] + cur[y + 1..]) == EmptyRows(k + 1, w) + KeptBetween(b, 0, y + 1) + b[y + 1..]
  {
    var y := FullRows(b)[k];
    NextFullRow(b, k, m);
    KeptCount(b, 0, m);
    KeptSkip(b, m, y);
    assert KeptBetween(b, 0, y + 1) == KeptBetween(b, 0, y);
    PopPush(b, w, k, m, y);
  }

  /** The sequence arithmetic of one pop at y followed by an insert at the top. */
  lemma PopPush(b: Board, w: nat, k: nat, m: nat, y: nat)
    requires m <= y < |b| && |KeptBetween(b, 0, m)| == m - k
    ensures var cur := EmptyRows(k, w) + KeptBetween(b, 0, m) + b[m..];
      y < |cur| && cur[y] == b[y] &&
      [Zeros(w)] + (cur[..y] + cur[y + 1..]) == EmptyRows(k + 1, w) + (KeptBetween(b, 0, m) + b[m..y]) + b[y + 1..]
  {
    var kept := KeptBetween(b, 0, m);
    var front := EmptyRows(k, w) + kept;
    var cur := front + b[m..];
    assert cur[..y] == front + b[m..y];
    assert cur[y + 1..] == b[y + 1..];
    assert [Zeros(w)] + EmptyRows(k, w) == EmptyRows(k + 1, w);
  }

  /** Once every full row has been popped, the loop's board is the cleared board. */
  lemma RemoveRowsDone(b: Board, w: nat, m: nat)
    requires m <= |b| && FullBetween(b, 0, m) == FullRows(b)
    ensures EmptyRows(|FullRows(b)|, w) + KeptBetween(b, 0, m) + b[m..] == Cleared(b, w)
  {
    FullSplit(b, 0, m, |b|);
    KeptSkip(b, m, |b|);
  }

  /** One step of the removal: row y is popped and an empty row is inserted on top. */
  function PopInsert(b: Board, y: nat, w: nat): (r: Board)
    requires y < |b|
    ensures |r| == |b|
  {
    [Zeros(w)] + (b[..y] + b[y + 1..])
  }

  /** The board after the first k full rows, top to bottom, have each been popped and replaced on top. */
  function AfterRemovals(b: Board, w: nat, k: nat): (r: Board)
    requires k <= |FullRows(b)|
    ensures |r| == |b|
    decreases k
  {
    if k == 0 then b
    else
      FullBetweenRange(b, 0, |b|);
      PopInsert(AfterRemovals(b, w, k - 1), FullRows(b)[k - 1], w)
  }

  /** The row just below the k-th full row, where the scan stands after k removals. */
  function ScanEnd(b: Board, k: nat): nat
    requires k <= |FullRows(b)|
  {
    if k == 0 then 0 else FullRows(b)[k - 1] + 1
  }

  /**
    After k removals the board is k empty rows, then the rows above the scan
    position that were not full, then the untouched rows from the scan position on.
  */
  lemma {:induction false} AfterRemovalsShape(b: Board, w: nat, k: nat)
    requires k <= |FullRows(b)|
    ensures ScanEnd(b, k) <= |b| && FullBetween(b, 0, ScanEnd(b, k)) == FullRows(b)[..k]
    ensures AfterRemovals(b, w, k) == EmptyRows(k, w) + KeptBetween(b, 0, ScanEnd(b, k)) + b[ScanEnd(b, k)..]
    decreases k
  {
    if k > 0 {
      AfterRemovalsShape(b, w, k - 1);
      var m, y := ScanEnd(b, k - 1), FullRows(b)[k - 1];
      var cur := EmptyRows(k - 1, w) + KeptBetween(b, 0, m) + b[m..];
      assert AfterRemovals(b, w, k - 1) == cur;
      RemoveRowStep(b, w, k - 1, m);
      assert ScanEnd(b, k) == y + 1;
      assert AfterRemovals(b, w, k) == PopInsert(cur, y, w);
    }
  }

  /** Popping every full row in turn, top to bottom, yields the cleared board. */
  lemma AllRemovalsCleared(b: Board, w: nat)
    ensures AfterRemovals(b, w, |FullRows(b)|) == Cleared(b, w)
  {
    var n := |FullRows(b)|;
    AfterRemovalsShape(b, w, n);
    assert FullRows(b)[..n] == FullRows(b);
    RemoveRowsDone(b, w, ScanEnd(b, n));
  }

  // ---------------------------------------------------------------------------
  // Falling

  /**
    The first row at or below y0 at which the piece, moved there, collides.
    Such a row always exists: a piece whose top is at or below the floor collides.
  */
  function FirstCollisionRow(b: Board, w: nat, h: nat, p: Tetromino, y0: int): int
    requires IsGrid(b, w, h) && p.Valid()
    decreases if y0 < h then h - y0 else 0
  {
    if Collides(b, w, h, p.(y := y0)) then y0
    else
      NoCollisionInside(b, w, h, p.(y := y0));
      FirstCollisionRow(b, w, h, p, y0 + 1)
  }

  /** The first collision row collides, lies at or below y0, and no row from y0 down to it collides. */
  lemma {:induction false} FirstCollisionRowMeaning(b: Board, w: nat, h: nat, p: Tetromino, y0: int)
    requires IsGrid(b, w, h) && p.Valid()
    ensures var r := FirstCollisionRow(b, w, h, p, y0);
      y0 <= r && Collides(b, w, h, p.(y := r)) &&
      forall y :: y0 <= y < r ==> !Collides(b, w, h, p.(y := y))
    decreases if y0 < h then h - y0 else 0
  {
    if !Collides(b, w, h, p.(y := y0)) {
      NoCollisionInside(b, w, h, p.(y := y0));
      FirstCollisionRowMeaning(b, w, h, p, y0 + 1);
    }
  }

  /** The first collision row is the only row that collides with no collision between y0 and it. */
  lemma {:induction false} FirstCollisionRowUnique(b: Board, w: nat, h: nat, p: Tetromino, y0: int, r: int)
    requires IsGrid(b, w, h) && p.Valid()
    requires y0 <= r && Collides(b, w, h, p.(y := r))
    requires forall y :: y0 <= y < r ==> !Collides(b, w, h, p.(y := y))
    ensures FirstCollisionRow(b, w, h, p, y0) == r
    decreases r - y0
  {
    if y0 < r {
      assert !Collides(b, w, h, p.(y := y0));
      FirstCollisionRowUnique(b, w, h, p, y0 + 1, r);
    }
  }

  /**
    On an empty board a piece whose bounding box fits first collides one row
    below the floor row of its box: it lands with its bottom on row h - 1.
  */
  lemma EmptyBoardLanding(w: nat, h: nat, p: Tetromino)
    requires p.Valid()
    requires var g := p.RotationGrid(); 0 <= p.y && p.y + |g| <= h && 0 <= p.x && p.x + |g[0]| <= w
    ensures FirstCollisionRow(EmptyRows(h, w), w, h, p, p.y) == h - |p.RotationGrid()| + 1
  {
    var b, g := EmptyRows(h, w), p.RotationGrid();
    var r := h - |g| + 1;
    EmptyBoardCollision(w, h, p.(y := r));
    forall y | p.y <= y < r ensures !Collides(b, w, h, p.(y := y)) {
      EmptyBoardCollision(w, h, p.(y := y));
    }
    FirstCollisionRowUnique(b, w, h, p, p.y, r);
  }

  // ---------------------------------------------------------------------------
  // Rotation

  /** The horizontal offsets tried, in order, when the rotated piece collides in place. */
  const WallKicks: seq<int> := [-1, 1, -2, 2]

  /** The piece turned to its next rotation state, the index taken modulo the kind's state count. */
  function Rotated(p: Tetromino): (q: Tetromino)
    requires p.Valid()
    ensures q.Valid() && q.x == p.x && q.y == p.y && q.shape == p.shape && q.colorId == p.colorId
    ensures q.rotation == (p.rotation + 1) % RotationCount(p.shape)
  {
    p.(rotation := (p.rotation + 1) % RotationCount(p.shape))
  }

  /**
    The first of the candidates q shifted by offsets[0], offsets[1], ... that
    does not collide, or None when every one collides.
  */
  function FirstFit(b: Board, w: nat, h: nat, q: Tetromino, offsets: seq<int>): (r: Option<Tetromino>)
    requires IsGrid(b, w, h) && q.Valid()
    ensures r.None? <==> forall i :: 0 <= i < |offsets| ==> Collides(b, w, h, q.MovedBy(offsets[i], 0))
    ensures r.Some? ==> exists i :: (0 <= i < |offsets| && r.value == q.MovedBy(offsets[i], 0) &&
      !Collides(b, w, h, r.value) && forall j :: 0 <= j < i ==> Collides(b, w, h, q.MovedBy(offsets[j], 0)))
  {
    if offsets == [] then None
    else if !Collides(b, w, h, q.MovedBy(offsets[0], 0)) then Some(q.MovedBy(offsets[0], 0))
    else
      var r := FirstFit(b, w, h, q, offsets[1..]);
      FirstFitSkip(b, w, h, q, offsets, r);
      r
  }

  /** When the first candidate collides, the search over the remaining offsets answers for all of them. */
  lemma FirstFitSkip(b: Board, w: nat, h: nat, q: Tetromino, offsets: seq<int>, r: Option<Tetromino>)
    requires IsGrid(b, w, h) && q.Valid() && offsets != []
    requires Collides(b, w, h, q.MovedBy(offsets[0], 0))
    requires var tail := offsets[1..];
      (r.None? <==> forall i :: 0 <= i < |tail| ==> Collides(b, w, h, q.MovedBy(tail[i], 0))) &&
      (r.Some? ==> exists i :: (0 <= i < |tail| && r.value == q.MovedBy(tail[i], 0) &&
        !Collides(b, w, h, r.value) && forall j :: 0 <= j < i ==> Collides(b, w, h, q.MovedBy(tail[j], 0))))
    ensures r.None? <==> forall i :: 0 <= i < |offsets| ==> Collides(b, w, h, q.MovedBy(offsets[i], 0))
    ensures r.Some? ==> exists i :: (0 <= i < |offsets| && r.value == q.MovedBy(offsets[i], 0) &&
      !Collides(b, w, h, r.value) && forall j :: 0 <= j < i ==> Collides(b, w, h, q.MovedBy(offsets[j], 0)))
  {
    var tail := offsets[1..];
    if r.Some? {
      var i :| 0 <= i < |tail| && r.value == q.MovedBy(tail[i], 0) &&
        !Collides(b, w, h, r.value) && forall j :: 0 <= j < i ==> Collides(b, w, h, q.MovedBy(tail[j], 0));
      forall j | 0 <= j < i + 1 ensures Collides(b, w, h, q.MovedBy(offsets[j], 0)) {
        if j > 0 { assert offsets[j] == tail[j - 1]; }
      }
      assert offsets[i + 1] == tail[i];
    } else {
      forall i | 0 <= i < |offsets| ensures Collides(b, w, h, q.MovedBy(offsets[i], 0)) {
        if i > 0 { assert offsets[i] == tail[i - 1]; }
      }
    }
  }

  /** A candidate that fits after all earlier ones collided is the one the search returns. */
  lemma {:induction false} FirstFitAt(b: Board, w: nat, h: nat, q: Tetromino, offsets: seq<int>, i: nat)
    requires IsGrid(b, w, h) && q.Valid() && i < |offsets|
    requires !Collides(b, w, h, q.MovedBy(offsets[i], 0))
    requires forall j :: 0 <= j < i ==> Collides(b, w, h, q.MovedBy(offsets[j], 0))
    ensures FirstFit(b, w, h, q, offsets) == Some(q.MovedBy(offsets[i], 0))
    decreases i
  {
    if i > 0 {
      var tail := offsets[1..];
      assert tail[i - 1] == offsets[i];
      forall j | 0 <= j < i - 1 ensures Collides(b, w, h, q.MovedBy(tail[j], 0)) {
        assert tail[j] == offsets[j + 1];
      }
      FirstFitAt(b, w, h, q, tail, i - 1);
    }
  }

  /**
    Where a rotation lands: the rotated piece in place, else shifted by the
    first wall kick that fits; None when nothing fits.
  */
  function RotationTarget(b: Board, w: nat, h: nat, p: Tetromino): Option<Tetromino>
    requires IsGrid(b, w, h) && p.Valid()
  {
    FirstFit(b, w, h, Rotated(p), [0] + WallKicks)
  }
}
