/**
  The game engine: the board, the falling piece, the preview queue, the hold
  slot, the 7-bag generator and the scoring counters, with the commands the
  player issues (move, rotate, soft drop, hard drop, hold) and the placement
  and line clearing they trigger.
*/
module Engine {
  import opened Options
  import opened Shapes
  import opened Playfield
  import opened Scoring

  /** The direction vector of a step down, used by the soft and hard drops. */
  const Down: (int, int) := (0, 1)

  /**
    A shuffled bag: seven pairwise distinct kinds, in the order the random
    shuffle left them. It stands for the outcome of the shuffle, which the
    engine does not control.
  */
  predicate IsShuffle(perm: seq<Kind>) {
    |perm| == |AllKinds| && forall i, j :: 0 <= i < j < |perm| ==> perm[i] != perm[j]
  }

  /** The bag a draw takes from: the current bag, or the fresh shuffle when it is empty. */
  function Refilled(bag: seq<Kind>, perm: seq<Kind>): (full: seq<Kind>)
    requires IsShuffle(perm)
    ensures full != []
  {
    if bag == [] then perm else bag
  }

  /**
    One draw from the preview queue: its head comes out as the piece next,
    the rest moves up, and a fresh piece of the kind drawn from the end of
    the 7-bag (refilled by the shuffle when empty) joins at the back; that
    kind leaves the bag.
  */
  predicate Drawn(w: nat, queue0: seq<Tetromino>, bag0: seq<Kind>, perm: seq<Kind>,
    next: Tetromino, queue: seq<Tetromino>, bag: seq<Kind>)
    requires IsShuffle(perm)
  {
    var full := Refilled(bag0, perm);
    queue0 != [] && next == queue0[0] && queue == queue0[1..] + [Spawn(w, full[|full| - 1])] &&
    bag == full[..|full| - 1]
  }

  /**
    The end-of-game check after a piece spawns: the game is over once the
    piece collides where it appears, and a score above the high score then
    becomes the high score.
  */
  predicate ToppedOut(b: Board, w: nat, h: nat, p: Tetromino, over0: bool, high0: int, score: int,
    over: bool, high: int)
    requires IsGrid(b, w, h) && p.Valid()
  {
    var collides := Collides(b, w, h, p);
    over == (over0 || collides) && high == if collides && score > high0 then score else high0
  }

  /** The kinds of n successive draws from a bag, refilled from the shuffle whenever it runs empty. */
  function DrawKinds(bag: seq<Kind>, perm: seq<Kind>, n: nat): (ks: seq<Kind>)
    requires IsShuffle(perm)
    ensures |ks| == n
    decreases n, |perm|
  {
    if n == 0 then []
    else
      var full := Refilled(bag, perm);
      [full[|full| - 1]] + DrawKinds(full[..|full| - 1], perm, n - 1)
  }

  /** Draining what is left of a shuffle yields its elements from the last one back. */
  lemma {:induction false} DrainShuffle(perm: seq<Kind>, m: nat)
    requires IsShuffle(perm) && 0 < m <= |perm|
    ensures forall i :: 0 <= i < m ==> DrawKinds(perm[..m], perm, m)[i] == perm[m - 1 - i]
    decreases m
  {
    var ks := DrawKinds(perm[..m], perm, m);
    assert Refilled(perm[..m], perm) == perm[..m];
    assert perm[..m][..m - 1] == perm[..m - 1];
    if m > 1 {
      DrainShuffle(perm, m - 1);
    }
  }

  /**
    The seven draws after the bag runs empty take the shuffle from its end:
    every kind comes exactly once.
  */
  lemma SevenDrawsAfterRefill(perm: seq<Kind>)
    requires IsShuffle(perm)
    ensures var ks := DrawKinds([], perm, 7);
      (forall i :: 0 <= i < 7 ==> ks[i] == perm[6 - i]) &&
      (forall i, j :: 0 <= i < j < 7 ==> ks[i] != ks[j]) &&
      (forall k: Kind :: k in ks)
  {
    var ks := DrawKinds([], perm, 7);
    assert perm[..7] == perm;
    assert ks == DrawKinds(perm[..7], perm, 7);
    DrainShuffle(perm, 7);
    ShuffleHasEveryKind(perm);
    forall k: Kind ensures k in ks {
      assert k in perm;
      var i :| 0 <= i < 7 && perm[i] == k;
      assert ks[6 - i] == k;
    }
  }

  /** The kinds occurring in a sequence. */
  function Elems(s: seq<Kind>): set<Kind> {
    set k | k in s
  }

  /** A sequence without repetitions has as many distinct elements as it is long. */
  lemma {:induction false} DistinctElems(s: seq<Kind>)
    requires forall i, j :: 0 <= i < j < |s| ==> s[i] != s[j]
    ensures |Elems(s)| == |s|
    decreases |s|
  {
    if s != [] {
      var front, last := s[..|s| - 1], s[|s| - 1];
      DistinctElems(front);
      assert Elems(s) == Elems(front) + {last};
      assert last !in Elems(front);
    }
  }

  /** All seven kinds but one. */
  lemma OthersAreSix(k: Kind) returns (rest: set<Kind>)
    ensures |rest| == 6 && k !in rest && forall x: Kind :: x != k ==> x in rest
  {
    var all: set<Kind> := {I, O, T, S, Z, J, L};
    assert |all| == 7;
    rest := all - {k};
    assert k in all by {
      assert k.I? || k.O? || k.T? || k.S? || k.Z? || k.J? || k.L?;
    }
    assert all == rest + {k} && k !in rest;
    forall x: Kind | x != k ensures x in rest {
      assert x.I? || x.O? || x.T? || x.S? || x.Z? || x.J? || x.L?;
    }
  }

  /** A sequence that misses some kind has at most six distinct kinds. */
  lemma MissingKindBound(s: seq<Kind>, k: Kind)
    ensures k !in s ==> |Elems(s)| <= 6
  {
    if k !in s {
      var rest := OthersAreSix(k);
      var e := Elems(s);
      assert e <= rest;
      assert rest == e + (rest - e) && e !! (rest - e);
    }
  }

  /** A shuffled bag holds every one of the seven kinds (each exactly once, being distinct). */
  lemma ShuffleHasEveryKind(perm: seq<Kind>)
    requires IsShuffle(perm)
    ensures forall k: Kind :: k in perm
  {
    DistinctElems(perm);
    forall k: Kind ensures k in perm {
      MissingKindBound(perm, k);
    }
  }

  /** Where the ghost of a piece is shown: its column, one row above the first row it collides at. */
  function GhostOf(b: Board, w: nat, h: nat, p: Tetromino): (int, int)
    requires IsGrid(b, w, h) && p.Valid()
  {
    (p.x, FirstCollisionRow(b, w, h, p, p.y) - 1)
  }

  /**
    The ghost of a piece that fits sits at or below it, fits there, and would
    collide one row lower: it is where the piece lands.
  */
  lemma GhostLands(b: Board, w: nat, h: nat, p: Tetromino)
    requires IsGrid(b, w, h) && p.Valid() && !Collides(b, w, h, p)
    ensures var g := GhostOf(b, w, h, p);
      g.0 == p.x && g.1 >= p.y &&
      !Collides(b, w, h, p.(y := g.1)) && Collides(b, w, h, p.(y := g.1 + 1))
  {
    FirstCollisionRowMeaning(b, w, h, p, p.y);
    assert p.(y := p.y) == p;
  }

  /** The row a hard drop brings a piece down to: the last row before the first collision below it. */
  function DropRow(b: Board, w: nat, h: nat, p: Tetromino): int
    requires IsGrid(b, w, h) && p.Valid()
  {
    FirstCollisionRow(b, w, h, p, p.y + 1) - 1
  }

  /**
    A hard drop never moves a piece up, stops on a row from which one more
    step down collides, and passes only rows that fit on the way.
  */
  lemma DropRowMeaning(b: Board, w: nat, h: nat, p: Tetromino)
    requires IsGrid(b, w, h) && p.Valid()
    ensures var y := DropRow(b, w, h, p);
      y >= p.y && Collides(b, w, h, p.(y := y + 1)) &&
      forall y' :: p.y < y' <= y ==> !Collides(b, w, h, p.(y := y'))
  {
    FirstCollisionRowMeaning(b, w, h, p, p.y + 1);
  }

  /** A piece that does not collide drops exactly to the row its ghost shows. */
  lemma DropMatchesGhost(b: Board, w: nat, h: nat, p: Tetromino)
    requires IsGrid(b, w, h) && p.Valid() && !Collides(b, w, h, p)
    ensures DropRow(b, w, h, p) == GhostOf(b, w, h, p).1
  {
    var r := FirstCollisionRow(b, w, h, p, p.y + 1);
    FirstCollisionRowMeaning(b, w, h, p, p.y + 1);
    assert p.(y := p.y) == p;
    FirstCollisionRowUnique(b, w, h, p, p.y, r);
  }

  class GameEngine {
    const width: nat
    const height: nat
    var board: Board
    var current: Tetromino
    /** The preview queue; its head is the next piece to fall. */
    var queue: seq<Tetromino>
    var held: Option<Tetromino>
    var score: int
    var level: int
    var linesClearedTotal: int
    var gameOver: bool
    /** The 7-bag; draws take its last element. */
    var bag: seq<Kind>
    /** The shuffle the bag was last refilled with; the bag is what is left of it. */
    ghost var refill: seq<Kind>
    var levelUp: bool
    var comboCount: nat
    var lastClearWasTetris: bool
    /** Delay between automatic drops, in hundredths of a second. */
    var fallDelay: int
    var highScore: int
    /** None until the first placement sets it: holding before that fails. */
    var canHold: Option<bool>
    var ghostPosition: (int, int)
    /** Row indices removed by the last clear that removed any; None before the first. */
    var clearedLines: Option<seq<nat>>

    /** The counters a line clear updates. */
    function Stats(): ClearStats
      reads this`score, this`comboCount, this`lastClearWasTetris, this`linesClearedTotal,
        this`level, this`levelUp, this`fallDelay
    {
      ClearStats(score, comboCount, lastClearWasTetris, linesClearedTotal, level, levelUp, fallDelay)
    }

    /** The board has the engine's dimensions. */
    predicate BoardShaped()
      reads this`board
    {
      IsGrid(board, width, height)
    }

    /** The preview holds three freshly spawned pieces. */
    predicate QueueFresh()
      reads this`queue
    {
      |queue| == 3 && forall i :: 0 <= i < |queue| ==> queue[i] == Spawn(width, queue[i].shape)
    }

    /** The falling piece and the held one have valid rotations and their kinds' colours. */
    predicate PiecesFormed()
      reads this`current, this`held
    {
      current.WellFormed() && (held.Some? ==> held.value.WellFormed())
    }

    /**
      The bag is a prefix of the shuffle it was last refilled with (draws pop
      from its end), so it never holds a kind twice nor one drawn since the refill.
    */
    ghost predicate BagInv()
      reads this`bag, this`refill
    {
      (refill == [] || IsShuffle(refill)) && |bag| <= |refill| && bag == refill[..|bag|]
    }

    /** The ghost shows where the falling piece would land. */
    predicate GhostCurrent()
      reads this`board, this`current, this`ghostPosition
    {
      IsGrid(board, width, height) && current.Valid() &&
      ghostPosition == GhostOf(board, width, height, current)
    }

    /**
      The engine's invariant, which every command keeps. The combo counter is
      zero between commands: a placement resets it after its clear.
    */
    ghost predicate Valid()
      reads this`board, this`queue, this`current, this`held, this`bag, this`refill,
        this`score, this`comboCount, this`lastClearWasTetris, this`linesClearedTotal,
        this`level, this`levelUp, this`fallDelay, this`ghostPosition
    {
      && BoardShaped()
      && QueueFresh()
      && PiecesFormed()
      && BagInv()
      && LevelConsistent(Stats())
      && comboCount == 0
      && GhostCurrent()
    }

    /**
      A new game: an empty board, the counters of the start level, three
      pieces queued and the fourth falling, all drawn from one shuffled bag
      (popped from its end), and the high score as loaded.
    */
    constructor (width: nat, height: nat, startLevel: int, savedHighScore: int, perm: seq<Kind>)
      requires IsShuffle(perm)
      ensures Valid()
      ensures this.width == width && this.height == height
      ensures board == EmptyRows(height, width) && IsEmpty(board)
      ensures Stats() == StartStats(startLevel)
      ensures current == Spawn(width, perm[6])
      ensures queue == [Spawn(width, perm[5]), Spawn(width, perm[4]), Spawn(width, perm[3])]
      ensures bag == perm[..3] && refill == perm
      ensures held == None && canHold == None && clearedLines == None
      ensures !gameOver && highScore == savedHighScore
    {
      this.width := width;
      this.height := height;
      board := EmptyRows(height, width);
      queue := [];
      held := None;
      score := 0;
      level := startLevel;
      linesClearedTotal := (startLevel - 1) * 10;
      gameOver := false;
      bag := [];
      refill := [];
      levelUp := false;
      comboCount := 0;
      lastClearWasTetris := false;
      fallDelay := FallDelay(startLevel);
      highScore := savedHighScore;
      canHold := None;
      clearedLines := None;
      new;
      EmptyRowsShape(height, width);
      DealPieces(perm);
    }

    /**
      The start of a game: three pieces are queued and a fourth starts
      falling, all from one shuffle of the empty 7-bag, and its ghost is shown.
    */
    method DealPieces(perm: seq<Kind>)
      requires queue == [] && bag == [] && refill == [] && IsShuffle(perm)
      requires IsGrid(board, width, height)
      modifies this`queue, this`bag, this`refill, this`current, this`ghostPosition
      ensures current == Spawn(width, perm[6])
      ensures queue == [Spawn(width, perm[5]), Spawn(width, perm[4]), Spawn(width, perm[3])]
      ensures bag == perm[..3] && refill == perm
      ensures QueueFresh() && BagInv() && current.WellFormed() && GhostCurrent()
    {
      FillPreview(perm);
      current := GetNextTetromino(perm);
      CalculateGhostPiecePosition();
    }

    /** Queues three pieces drawn from the empty 7-bag, which the shuffle refills once. */
    method FillPreview(perm: seq<Kind>)
      requires queue == [] && bag == [] && refill == [] && IsShuffle(perm)
      modifies this`queue, this`bag, this`refill
      ensures queue == [Spawn(width, perm[6]), Spawn(width, perm[5]), Spawn(width, perm[4])]
      ensures bag == perm[..4] && refill == perm && BagInv() && QueueFresh()
    {
      for i := 0 to 3
        invariant |queue| == i && BagInv()
        invariant i == 0 ==> bag == []
        invariant i > 0 ==> bag == perm[..7 - i] && refill == perm
        invariant forall j :: 0 <= j < i ==> queue[j] == Spawn(width, perm[6 - j])
      {
        var t := GenerateRandomTetromino(perm);
        queue := queue + [t];
      }
    }

    /**
      Draws the next kind from the 7-bag, refilling it with the shuffled
      seven kinds when it is empty, and returns a fresh piece of that kind.
    */
    method GenerateRandomTetromino(perm: seq<Kind>) returns (t: Tetromino)
      requires BagInv() && IsShuffle(perm)
      modifies this`bag, this`refill
      ensures var full := Refilled(old(bag), perm);
        t == Spawn(width, full[|full| - 1]) && bag == full[..|full| - 1]
      ensures refill == if old(bag) == [] then perm else old(refill)
      ensures t.shape !in bag
      ensures BagInv()
      ensures forall n: nat :: DrawKinds(old(bag), perm, n + 1) == [t.shape] + DrawKinds(bag, perm, n)
    {
      if bag == [] {
        bag := perm;
        refill := perm;
      }
      var shapeName := bag[|bag| - 1];
      bag := bag[..|bag| - 1];
      t := Tetromino(shapeName, SpawnX(width, shapeName), 0, 0, Color(shapeName));
    }

    /** Takes the head of the preview queue and appends a freshly drawn piece. */
    method GetNextTetromino(perm: seq<Kind>) returns (t: Tetromino)
      requires queue != [] && BagInv() && IsShuffle(perm)
      modifies this`queue, this`bag, this`refill
      ensures Drawn(width, old(queue), old(bag), perm, t, queue, bag)
      ensures refill == if old(bag) == [] then perm else old(refill)
      ensures BagInv()
      ensures old(QueueFresh()) ==> QueueFresh() && t.WellFormed()
    {
      t := queue[0];
      queue := queue[1..];
      var drawnPiece := GenerateRandomTetromino(perm);
      queue := queue + [drawnPiece];
    }

    /** Recomputes where the current piece would land, by stepping a copy down until it collides. */
    method CalculateGhostPiecePosition()
      requires IsGrid(board, width, height) && current.Valid()
      modifies this`ghostPosition
      ensures ghostPosition == GhostOf(board, width, height, current) && GhostCurrent()
    {
      var shadow := current;
      while !Collides(board, width, height, shadow)
        invariant shadow == current.(y := shadow.y) && current.y <= shadow.y
        invariant forall y :: current.y <= y < shadow.y ==> !Collides(board, width, height, current.(y := y))
        decreases height - shadow.y
      {
        NoCollisionInside(board, width, height, shadow);
        shadow := Tetromino(shadow.shape, shadow.x, shadow.y + 1, shadow.rotation, shadow.colorId);
      }
      FirstCollisionRowUnique(board, width, height, current, current.y, shadow.y);
      ghostPosition := (shadow.x, shadow.y - 1);
    }

    /**
      Removes every full row, inserting an empty row on top for each, and
      scores the clear. Answers whether any row was full.
    */
    method ClearLines() returns (any: bool)
      requires IsGrid(board, width, height)
      modifies this`board, this`score, this`comboCount, this`lastClearWasTetris,
        this`linesClearedTotal, this`level, this`levelUp, this`fallDelay, this`clearedLines
      ensures any <==> FullRows(old(board)) != []
      ensures board == Cleared(old(board), width) && IsGrid(board, width, height)
      ensures Stats() == ApplyClear(old(Stats()), |FullRows(old(board))|)
      ensures clearedLines == if any then Some(FullRows(old(board))) else old(clearedLines)
    {
      var indices := FindFullRows();
      if indices == [] {
        NoFullRowsUnchanged(board, width);
        lastClearWasTetris := false;
        return false;
      }
      RemoveRows(indices);
      ScoreClear(|indices|);
      clearedLines := Some(indices);
      return true;
    }

    /** Scans the board top to bottom and lists the rows in which every cell is filled. */
    method FindFullRows() returns (indices: seq<nat>)
      requires IsGrid(board, width, height)
      ensures indices == FullRows(board)
      ensures forall i :: 0 <= i < |indices| ==> indices[i] < height && IsFull(board[indices[i]])
      ensures forall y :: 0 <= y < height && IsFull(board[y]) ==> y in indices
    {
      indices := [];
      for y := 0 to height
        invariant indices == FullBetween(board, 0, y)
      {
        if IsFull(board[y]) {
          indices := indices + [y];
        }
      }
      FullBetweenExact(board, 0, height);
    }

    /**
      Removes the listed full rows from top to bottom, each time inserting an
      empty row on top, which leaves the rows below the removed one in place.
    */
    method RemoveRows(indices: seq<nat>)
      requires IsGrid(board, width, height) && indices == FullRows(board)
      modifies this`board
      ensures board == Cleared(old(board), width) && IsGrid(board, width, height)
    {
      ghost var b0 := board;
      FullBetweenRange(b0, 0, |b0|);
      for k := 0 to |indices|
        invariant board == AfterRemovals(b0, width, k)
      {
        var y := indices[k];
        board := [Zeros(width)] + (board[..y] + board[y + 1..]);
      }
      AllRemovalsCleared(b0, width);
      ClearedShape(b0, width, height);
    }

    /**
      The scoring part of a clear of n > 0 rows: line points plus the combo
      bonus, the back-to-back bonus, the combo and flag updates, and the new
      total, level, level-up flag and fall delay.
    */
    method ScoreClear(linesCleared: nat)
      requires linesCleared > 0
      modifies this`score, this`comboCount, this`lastClearWasTetris,
        this`linesClearedTotal, this`level, this`levelUp, this`fallDelay
      ensures Stats() == ApplyClear(old(Stats()), linesCleared)
    {
      var baseScore := LineScore(linesCleared);
      var comboBonus := 50 * comboCount;
      score := score + baseScore + comboBonus;
      comboCount := comboCount + 1;
      if linesCleared == 4 {
        if lastClearWasTetris {
          score := score + 400;
        }
        lastClearWasTetris := true;
      } else {
        lastClearWasTetris := false;
      }
      if linesCleared > 0 {
        linesClearedTotal := linesClearedTotal + linesCleared;
        var newLevel := 1 + linesClearedTotal / 10;
        if newLevel > level {
          levelUp := true;
        }
        level := newLevel;
        fallDelay := FallDelay(level);
      }
    }

    /** Writes the current piece's colour into every covered cell that lies on the board. */
    method StampCurrent()
      requires IsGrid(board, width, height) && current.Valid()
      modifies this`board
      ensures board == Stamp(old(board), width, height, current) && IsGrid(board, width, height)
    {
      var p := current;
      var shapeData := p.RotationGrid();
      var b := board;
      ghost var stamped := Stamp(board, width, height, p);
      for dy := 0 to |shapeData|
        invariant IsGrid(b, width, height)
        invariant StampRows(b, p, shapeData, dy) == stamped
      {
        b := StampRow(b, p, shapeData[dy], dy);
      }
      board := b;
    }

    /** Writes the piece's colour into the cells that one row of its shape covers on the board. */
    method StampRow(b: Board, p: Tetromino, row: seq<int>, dy: int) returns (r: Board)
      requires IsGrid(b, width, height)
      ensures IsGrid(r, width, height) && r == StampCells(b, p, row, dy, 0)
    {
      r := b;
      for dx := 0 to |row|
        invariant IsGrid(r, width, height)
        invariant StampCells(r, p, row, dy, dx) == StampCells(b, p, row, dy, 0)
      {
        if row[dx] != 0 {
          var boardX := p.x + dx;
          var boardY := p.y + dy;
          if 0 <= boardY < height && 0 <= boardX < width {
            r := r[boardY := r[boardY][boardX := p.colorId]];
          }
        }
      }
    }

    /**
      Settles the current piece: stamps it, clears full rows, then brings in
      the next piece (see SpawnNext). Answers whether rows were cleared.
    */
    method Place(perm: seq<Kind>) returns (linesCleared: bool)
      requires BoardShaped() && QueueFresh() && PiecesFormed() && BagInv() && LevelConsistent(Stats())
      requires IsShuffle(perm)
      modifies this`board, this`score, this`comboCount, this`lastClearWasTetris,
        this`linesClearedTotal, this`level, this`levelUp, this`fallDelay, this`clearedLines,
        this`current, this`queue, this`bag, this`refill, this`canHold, this`gameOver,
        this`highScore, this`ghostPosition
      ensures Valid()
      ensures var stamped := Stamp(old(board), width, height, old(current));
        board == Cleared(stamped, width) &&
        (linesCleared <==> FullRows(stamped) != []) &&
        Stats() == ApplyClear(old(Stats()), |FullRows(stamped)|).(comboCount := 0)
      ensures var stamped := Stamp(old(board), width, height, old(current));
        clearedLines == if linesCleared then Some(FullRows(stamped)) else old(clearedLines)
      ensures old(comboCount) == 0 ==>
        var n := |FullRows(Stamp(old(board), width, height, old(current)))|;
        score == old(score) + LineScore(n) + (if n == 4 && old(lastClearWasTetris) then 400 else 0)
      ensures Drawn(width, old(queue), old(bag), perm, current, queue, bag)
      ensures canHold == Some(true)
      ensures ToppedOut(board, width, height, current, old(gameOver), old(highScore), score, gameOver, highScore)
    {
      linesCleared := Settle();
      SpawnNext(perm);
    }

    /** The first half of a placement: the piece is stamped and full rows are cleared and scored. */
    method Settle() returns (linesCleared: bool)
      requires IsGrid(board, width, height) && current.Valid()
      modifies this`board, this`score, this`comboCount, this`lastClearWasTetris,
        this`linesClearedTotal, this`level, this`levelUp, this`fallDelay, this`clearedLines
      ensures var stamped := Stamp(old(board), width, height, current);
        board == Cleared(stamped, width) && IsGrid(board, width, height) &&
        (linesCleared <==> FullRows(stamped) != []) &&
        Stats() == ApplyClear(old(Stats()), |FullRows(stamped)|) &&
        clearedLines == if linesCleared then Some(FullRows(stamped)) else old(clearedLines)
    {
      StampCurrent();
      linesCleared := ClearLines();
    }

    /**
      The second half of a placement: the head of the preview queue becomes
      the falling piece, hold is re-enabled, the combo is reset, and when the
      new piece collides at once the game ends, recording a higher score.
    */
    method SpawnNext(perm: seq<Kind>)
      requires BoardShaped() && QueueFresh() && PiecesFormed() && BagInv() && LevelConsistent(Stats())
      requires IsShuffle(perm)
      modifies this`current, this`queue, this`bag, this`refill, this`canHold, this`comboCount,
        this`gameOver, this`highScore, this`ghostPosition
      ensures Valid()
      ensures Stats() == old(Stats()).(comboCount := 0)
      ensures Drawn(width, old(queue), old(bag), perm, current, queue, bag)
      ensures canHold == Some(true) && comboCount == 0
      ensures ToppedOut(board, width, height, current, old(gameOver), old(highScore), score, gameOver, highScore)
    {
      AdvanceQueue(perm);
      CheckTopOut();
      CalculateGhostPiecePosition();
    }

    /** The head of the preview queue starts falling, hold is re-enabled and the combo is reset. */
    method AdvanceQueue(perm: seq<Kind>)
      requires QueueFresh() && BagInv() && IsShuffle(perm)
      modifies this`current, this`queue, this`bag, this`refill, this`canHold, this`comboCount
      ensures QueueFresh() && BagInv() && current.WellFormed()
      ensures Drawn(width, old(queue), old(bag), perm, current, queue, bag)
      ensures canHold == Some(true) && Stats() == old(Stats()).(comboCount := 0)
    {
      current := GetNextTetromino(perm);
      canHold := Some(true);
      comboCount := 0;
    }

    /** Ends the game when the falling piece collides where it is, recording a higher score. */
    method CheckTopOut()
      requires IsGrid(board, width, height) && current.Valid()
      modifies this`gameOver, this`highScore
      ensures ToppedOut(board, width, height, current, old(gameOver), old(highScore), score, gameOver, highScore)
    {
      if Collides(board, width, height, current) {
        gameOver := true;
        if score > highScore {
          highScore := score;
        }
      }
    }

    /**
      Moves the current piece by (dx, dy) when the moved piece does not
      collide, and answers whether it moved; otherwise nothing changes.
    */
    method Move(dx: int, dy: int) returns (moved: bool)
      requires PiecesFormed() && GhostCurrent()
      modifies this`current, this`ghostPosition
      ensures PiecesFormed() && GhostCurrent()
      ensures moved <==> !Collides(board, width, height, old(current).MovedBy(dx, dy))
      ensures current == if moved then old(current).MovedBy(dx, dy) else old(current)
    {
      var newTetromino := Tetromino(current.shape, current.x + dx, current.y + dy, current.rotation, current.colorId);
      if !Collides(board, width, height, newTetromino) {
        current := newTetromino;
        CalculateGhostPiecePosition();
        return true;
      }
      return false;
    }

    /**
      Turns the current piece to its next rotation state, in place if it fits,
      else shifted by the first wall kick that fits; unchanged if none does.
    */
    method Rotate()
      requires Valid()
      modifies this`current, this`ghostPosition
      ensures Valid()
      ensures current == match RotationTarget(board, width, height, old(current))
        case Some(q) => q
        case None => old(current)
    {
      TryRotations();
      CalculateGhostPiecePosition();
    }

    /** The rotation attempt itself: the unkicked rotation first, then each wall kick in order. */
    method TryRotations()
      requires IsGrid(board, width, height) && current.WellFormed()
      modifies this`current
      ensures current.WellFormed()
      ensures current == match RotationTarget(board, width, height, old(current))
        case Some(q) => q
        case None => old(current)
    {
      var p := current;
      var nextRotation := (p.rotation + 1) % RotationCount(p.shape);
      var candidate := Tetromino(p.shape, p.x, p.y, nextRotation, p.colorId);
      var offsets := [0] + WallKicks;
      assert candidate == Rotated(p).MovedBy(offsets[0], 0);
      if !Collides(board, width, height, candidate) {
        current := candidate;
        FirstFitAt(board, width, height, Rotated(p), offsets, 0);
      } else {
        for i := 0 to |WallKicks|
          invariant current == p
          invariant forall j :: 0 <= j <= i ==> Collides(board, width, height, Rotated(p).MovedBy(offsets[j], 0))
        {
          var test := Tetromino(p.shape, p.x + WallKicks[i], p.y, nextRotation, p.colorId);
          assert test == Rotated(p).MovedBy(offsets[i + 1], 0);
          if !Collides(board, width, height, test) {
            current := test;
            FirstFitAt(board, width, height, Rotated(p), offsets, i + 1);
            break;
          }
        }
      }
    }

    /**
      Puts the current piece in the hold slot. With the slot empty the next
      queued piece falls; otherwise the held piece comes back, keeping its
      rotation, at the spawn column of its kind on row 0. Hold is then
      disabled until the next placement. When hold is disabled nothing
      happens, and before the first placement the flag is unset and the
      attempt raises.
    */
    method Hold(perm: seq<Kind>) returns (raised: bool)
      requires Valid() && IsShuffle(perm)
      modifies this`held, this`current, this`queue, this`bag, this`refill, this`canHold, this`ghostPosition
      ensures Valid()
      ensures raised <==> old(canHold).None?
      ensures old(canHold) != Some(true) ==>
        held == old(held) && current == old(current) && queue == old(queue) && bag == old(bag) && canHold == old(canHold)
      ensures old(canHold) == Some(true) ==> canHold == Some(false) && held == Some(old(current))
      ensures old(canHold) == Some(true) && old(held).None? ==>
        Drawn(width, old(queue), old(bag), perm, current, queue, bag)
      ensures old(canHold) == Some(true) && old(held).Some? ==>
        current == old(held).value.(x := SpawnX(width, old(held).value.shape), y := 0) &&
        queue == old(queue) && bag == old(bag)
    {
      if canHold.None? {
        return true;
      }
      if !canHold.value {
        return false;
      }
      SwapHeld(perm);
      return false;
    }

    /**
      A hold that is allowed: the current piece goes to the hold slot and the
      held piece, if any, comes back at its spawn position, else the next
      queued piece falls; then hold is disabled and the ghost follows.
    */
    method SwapHeld(perm: seq<Kind>)
      requires BoardShaped() && QueueFresh() && PiecesFormed() && BagInv() && IsShuffle(perm)
      modifies this`held, this`current, this`queue, this`bag, this`refill, this`canHold, this`ghostPosition
      ensures QueueFresh() && PiecesFormed() && BagInv() && GhostCurrent()
      ensures canHold == Some(false) && held == Some(old(current))
      ensures old(held).None? ==> Drawn(width, old(queue), old(bag), perm, current, queue, bag)
      ensures old(held).Some? ==>
        current == old(held).value.(x := SpawnX(width, old(held).value.shape), y := 0) &&
        queue == old(queue) && bag == old(bag)
    {
      if held.None? {
        held := Some(current);
        current := GetNextTetromino(perm);
      } else {
        var back := held.value;
        held := Some(current);
        current := back;
        current := current.(x := SpawnX(width, current.shape), y := 0);
      }
      canHold := Some(false);
      CalculateGhostPiecePosition();
    }

    /**
      Moves the current piece one row down; when it cannot move it is placed.
      Answers true only when that placement cleared rows.
    */
    method SoftDrop(perm: seq<Kind>) returns (r: bool)
      requires Valid() && IsShuffle(perm)
      modifies this`board, this`score, this`comboCount, this`lastClearWasTetris,
        this`linesClearedTotal, this`level, this`levelUp, this`fallDelay, this`clearedLines,
        this`current, this`queue, this`bag, this`refill, this`canHold, this`gameOver,
        this`highScore, this`ghostPosition
      ensures Valid()
      ensures !Collides(old(board), width, height, old(current).MovedBy(0, 1)) ==>
        !r && current == old(current).MovedBy(0, 1) && board == old(board) && Stats() == old(Stats()) &&
        queue == old(queue) && bag == old(bag) && held == old(held) && canHold == old(canHold) &&
        gameOver == old(gameOver) && highScore == old(highScore) && clearedLines == old(clearedLines)
      ensures Collides(old(board), width, height, old(current).MovedBy(0, 1)) ==>
        var stamped := Stamp(old(board), width, height, old(current));
        var n := |FullRows(stamped)|;
        board == Cleared(stamped, width) && current == old(queue)[0] &&
        (r <==> n > 0) &&
        Stats() == ApplyClear(old(Stats()), n).(comboCount := 0) &&
        score == old(score) + LineScore(n) + (if n == 4 && old(lastClearWasTetris) then 400 else 0) &&
        clearedLines == (if n > 0 then Some(FullRows(stamped)) else old(clearedLines)) &&
        Drawn(width, old(queue), old(bag), perm, current, queue, bag) && canHold == Some(true) &&
        ToppedOut(board, width, height, current, old(gameOver), old(highScore), score, gameOver, highScore)
    {
      var moved := Move(Down.0, Down.1);
      if !moved {
        assert current == old(current) && board == old(board) && Stats() == old(Stats());
        assert queue == old(queue) && bag == old(bag) && gameOver == old(gameOver) && highScore == old(highScore);
        var cleared := Place(perm);
        if cleared {
          return true;
        }
      }
      return false;
    }

    /**
      Moves the current piece down row by row while it fits, then places it
      where it stopped. Answers whether that placement cleared rows.
    */
    method HardDrop(perm: seq<Kind>) returns (r: bool)
      requires Valid() && IsShuffle(perm)
      modifies this`board, this`score, this`comboCount, this`lastClearWasTetris,
        this`linesClearedTotal, this`level, this`levelUp, this`fallDelay, this`clearedLines,
        this`current, this`queue, this`bag, this`refill, this`canHold, this`gameOver,
        this`highScore, this`ghostPosition
      ensures Valid()
      ensures var landed := old(current).(y := DropRow(old(board), width, height, old(current)));
        var stamped := Stamp(old(board), width, height, landed);
        var n := |FullRows(stamped)|;
        board == Cleared(stamped, width) && current == old(queue)[0] &&
        (r <==> n > 0) &&
        Stats() == ApplyClear(old(Stats()), n).(comboCount := 0) &&
        score == old(score) + LineScore(n) + (if n == 4 && old(lastClearWasTetris) then 400 else 0) &&
        clearedLines == (if n > 0 then Some(FullRows(stamped)) else old(clearedLines))
      ensures Drawn(width, old(queue), old(bag), perm, current, queue, bag) && canHold == Some(true)
      ensures ToppedOut(board, width, height, current, old(gameOver), old(highScore), score, gameOver, highScore)
      ensures !Collides(old(board), width, height, old(current)) ==>
        DropRow(old(board), width, height, old(current)) == old(ghostPosition).1
    {
      DropToBottom();
      r := Place(perm);
    }

    /** Moves the current piece down one row at a time for as long as the move succeeds. */
    method DropToBottom()
      requires PiecesFormed() && GhostCurrent()
      modifies this`current, this`ghostPosition
      ensures PiecesFormed() && GhostCurrent()
      ensures current == old(current).(y := DropRow(board, width, height, old(current)))
      ensures !Collides(board, width, height, old(current)) ==>
        DropRow(board, width, height, old(current)) == old(ghostPosition).1
    {
      ghost var p := current;
      var moved := Move(Down.0, Down.1);
      while moved
        invariant PiecesFormed() && GhostCurrent()
        invariant current == p.(y := current.y)
        invariant moved ==> !Collides(board, width, height, current)
        invariant !moved ==> Collides(board, width, height, p.(y := current.y + 1))
        invariant FirstCollisionRow(board, width, height, p, current.y + 1) ==
          FirstCollisionRow(board, width, height, p, p.y + 1)
        decreases height - current.y + (if moved then 1 else 0)
      {
        NoCollisionInside(board, width, height, current);
        moved := Move(Down.0, Down.1);
      }
      if !Collides(board, width, height, p) {
        DropMatchesGhost(board, width, height, p);
      }
    }
  }
}
