/** What each key does to a Tetris game, in terms of the cells of the board alone. */
module TetrisPlay {

  import opened Common
  import opened Words
  import opened Tetris

  // ---- where a piece can be ----

  /** All four cells of the piece on the 10 by 20 board, and on empty cells. */
  ghost predicate Free(b: Board, piece: nat, rotation: nat, x: int, y: int)
    requires Proper(b)
  {
    forall i :: 0 <= i < 4 ==>
      var block := Shape(piece, rotation)[i];
      0 <= x + block.dx < 10 && 0 <= y + block.dy < 20 && b[y + block.dy][x + block.dx] == 0
  }

  lemma FreeIff(b: Board, piece: nat, rotation: nat, x: int, y: int)
    requires Proper(b)
    ensures var blocks := Shape(piece, rotation);
            Free(b, piece, rotation, x, y) <==> InBounds(blocks, x, y) && Vacant(b, blocks, x, y)
  {}

  /** check_collision for the piece moved to (x, y) and turned to the given rotation. */
  lemma FreeIffNotBlocked(g: Game, dx: int, dy: int, dr: nat, rotation: nat, x: int, y: int)
    requires Proper(g.board) && rotation == (g.rotation + dr) % 4 && x == g.x + dx && y == g.y + dy >= 0
    ensures Free(g.board, g.piece, rotation, x, y) <==> !Blocked(g, dx, dy, dr)
  {
    FreeIff(g.board, g.piece, rotation, x, y);
    NotBlocked(g, dx, dy, dr);
  }

  // ---- one key press ----

  /** The tick counter is 32 bits wide. */
  function Ticked(g: Game): Game {
    g.(ticks := (g.ticks + 1) % 0x1_0000_0000)
  }

  lemma PressLeft(g: Game, h: Game)
    requires Proper(g.board) && g.rotation < 4 && g.y >= 0 && !g.gameOver && h == Ticked(g)
    ensures Update(g, Left) == if Free(g.board, g.piece, g.rotation, g.x - 1, g.y) then h.(x := g.x - 1) else h
  {
    assert Tick(g) == h;
    FreeIffNotBlocked(h, -1, 0, 0, h.rotation, h.x - 1, h.y);
  }

  lemma PressRight(g: Game, h: Game)
    requires Proper(g.board) && g.rotation < 4 && g.y >= 0 && !g.gameOver && h == Ticked(g)
    ensures Update(g, Right) == if Free(g.board, g.piece, g.rotation, g.x + 1, g.y) then h.(x := g.x + 1) else h
  {
    assert Tick(g) == h;
    FreeIffNotBlocked(h, 1, 0, 0, h.rotation, h.x + 1, h.y);
  }

  lemma PressUp(g: Game, h: Game, turned: nat)
    requires Proper(g.board) && g.y >= 0 && !g.gameOver && h == Ticked(g) && turned == (g.rotation + 1) % 4
    ensures Update(g, Up) == if Free(g.board, g.piece, turned, g.x, g.y) then h.(rotation := turned) else h
  {
    assert Tick(g) == h;
    FreeIffNotBlocked(h, 0, 0, 1, turned, h.x, h.y);
  }

  lemma Fall(g: Game, key: Key, h: Game)
    requires Proper(g.board) && g.rotation < 4 && g.y >= 0 && !g.gameOver && h == Ticked(g)
    requires key == Down || key == Enter || key == Other
    ensures Update(g, key) ==
      if key != Down && h.ticks % 20 != 0 then h
      else if Free(g.board, g.piece, g.rotation, g.x, g.y + 1) then h.(y := g.y + 1)
      else Lock(h)
  {
    assert Tick(g) == h;
    FreeIffNotBlocked(h, 0, 1, 0, h.rotation, h.x, h.y + 1);
  }

  /** Left and right move the piece by one column and up turns it on by one rotation, each exactly when the piece is
      free there; otherwise nothing but the tick changes. */
  lemma SteeringKeys(g: Game)
    requires Good(g) && !g.gameOver
    ensures Update(g, Left) ==
      if Free(g.board, g.piece, g.rotation, g.x - 1, g.y) then Ticked(g).(x := g.x - 1) else Ticked(g)
    ensures Update(g, Right) ==
      if Free(g.board, g.piece, g.rotation, g.x + 1, g.y) then Ticked(g).(x := g.x + 1) else Ticked(g)
    ensures Update(g, Up) ==
      if Free(g.board, g.piece, (g.rotation + 1) % 4, g.x, g.y) then Ticked(g).(rotation := (g.rotation + 1) % 4)
      else Ticked(g)
  {
    PressLeft(g, Ticked(g));
    PressRight(g, Ticked(g));
    PressUp(g, Ticked(g), (g.rotation + 1) % 4);
  }

  /** Down lowers the piece by one row when it is free there and locks it otherwise; enter and all other keys do the
      same on every twentieth tick, and nothing else but tick. */
  lemma FallingKeys(g: Game, key: Key)
    requires Good(g) && !g.gameOver && (key == Down || key == Enter || key == Other)
    ensures var next := Update(g, key);
            if key != Down && (g.ticks + 1) % 0x1_0000_0000 % 20 != 0 then next == Ticked(g)
            else if Free(g.board, g.piece, g.rotation, g.x, g.y + 1) then next == Ticked(g).(y := g.y + 1)
            else next == Lock(Ticked(g))
  {
    Fall(g, key, Ticked(g));
  }

  /** After the game is over enter starts a new one, and every other key only ticks. */
  lemma AfterTheEnd(g: Game, key: Key)
    requires g.gameOver
    ensures key != Enter ==> Update(g, key) == Ticked(g)
    ensures var next := Update(g, Enter);
            && |next.board| == 20 && (forall r :: 0 <= r < 20 ==> Empty(next.board[r]))
            && next.x == 3 && next.y == 0 && next.piece == 0 && next.rotation == 0
            && next.score == 0 && next.ticks == 0 && !next.gameOver
  {
    InitGood();
  }

  // ---- locking ----

  predicate Empty(row: seq<nat>) {
    |row| == 10 && forall c :: 0 <= c < 10 ==> row[c] == 0
  }

  predicate NoGap(row: seq<nat>) {
    forall c :: 0 <= c < |row| ==> row[c] > 0
  }

  /** Rows without a gap at or below row r. */
  function FullFrom(b: Board, r: nat): (n: nat)
    ensures r <= |b| ==> n <= |b| - r
    decreases |b| - r
  {
    if r >= |b| then 0 else (if NoGap(b[r]) then 1 else 0) + FullFrom(b, r + 1)
  }

  /** The four cells of a locked piece take its colour, one more than its number; all others stay. */
  lemma LockStamps(g: Game, r: nat, c: nat)
    requires Good(g) && r < 20 && c < 10
    ensures |Stamped(g)| == 20 && |Stamped(g)[r]| == 10
    ensures var covered := exists i :: 0 <= i < 4 &&
                             var block := Shape(g.piece, g.rotation)[i]; c == g.x + block.dx && r == g.y + block.dy;
            Stamped(g)[r][c] == if covered then g.piece + 1 else g.board[r][c]
  {
    StampProper(g.board, Blocks(g), g.x, g.y, g.piece + 1);
    StampAt(g.board, Blocks(g), g.x, g.y, g.piece + 1, c, r);
  }

  lemma {:induction false} FullFromEnd(b: Board, row: seq<nat>, r: nat)
    requires r <= |b|
    ensures FullFrom(b + [row], r) == FullFrom(b, r) + if NoGap(row) then 1 else 0
    decreases |b| - r
  {
    if r < |b| {
      FullFromEnd(b, row, r + 1);
    } else {
      assert FullFrom(b + [row], r + 1) == 0;
    }
  }

  lemma FullIff(row: seq<nat>)
    ensures Full(row) <==> NoGap(row)
  {}

  lemma {:induction false} KeptCounts(b: Board)
    ensures |b| - |Kept(b)| == FullFrom(b, 0)
  {
    if b != [] {
      var n := |b| - 1;
      KeptCounts(b[..n]);
      FullFromEnd(b[..n], b[n], 0);
      FullIff(b[n]);
      assert b == b[..n] + [b[n]];
    }
  }

  lemma {:induction false} KeptAt(b: Board, r: nat)
    requires r < |b| && !NoGap(b[r])
    ensures var k := r + FullFrom(b, r + 1) - FullFrom(b, 0); 0 <= k < |Kept(b)| && Kept(b)[k] == b[r]
    decreases |b|
  {
    var n := |b| - 1;
    var front := b[..n];
    assert b == front + [b[n]];
    FullFromEnd(front, b[n], 0);
    FullIff(b[n]);
    if r < n {
      FullFromEnd(front, b[n], r + 1);
      KeptAt(front, r);
    } else {
      KeptCounts(front);
    }
  }

  /** Locking: every row of the stamped board with a gap falls by the number of full rows under it, and the rows that
      this leaves at the top are blank. */
  lemma LockRows(g: Game)
    requires Good(g) && !g.gameOver
    ensures var b, next := Stamped(g), Lock(g);
            && |b| == 20 && Proper(next.board)
            && (forall r :: 0 <= r < 20 && !NoGap(b[r]) ==> next.board[r + FullFrom(b, r + 1)] == b[r])
            && (forall r :: 0 <= r < FullFrom(b, 0) ==> Empty(next.board[r]))
  {
    var b := Stamped(g);
    StampProper(g.board, Blocks(g), g.x, g.y, g.piece + 1);
    ClearedProper(b);
    ClearedRows(b);
    assert Lock(g).board == Cleared(b);
  }

  lemma RowFalls(b: Board, r: nat, to: nat)
    requires r < |b| && !NoGap(b[r]) && to == r + FullFrom(b, r + 1)
    ensures to < |b| && Cleared(b)[to] == b[r]
  {
    KeptCounts(b);
    KeptAt(b, r);
  }

  lemma TopIsBlank(b: Board, k: nat, r: nat)
    requires k == FullFrom(b, 0) && r < k
    ensures k <= |b| && Empty(Cleared(b)[r])
  {
    KeptCounts(b);
  }

  lemma ClearedRows(b: Board)
    ensures forall r :: 0 <= r < |b| && !NoGap(b[r]) ==> Cleared(b)[r + FullFrom(b, r + 1)] == b[r]
    ensures forall r :: 0 <= r < FullFrom(b, 0) ==> Empty(Cleared(b)[r])
  {
    forall r | 0 <= r < |b| && !NoGap(b[r]) ensures Cleared(b)[r + FullFrom(b, r + 1)] == b[r] {
      RowFalls(b, r, r + FullFrom(b, r + 1));
    }
    forall r | 0 <= r < FullFrom(b, 0) ensures Empty(Cleared(b)[r]) {
      TopIsBlank(b, FullFrom(b, 0), r);
    }
  }

  /** Each full row scores a hundred, in 32 bits, and the piece that the tick counter picks comes in at the top, the
      game being over exactly when it is not free there. */
  lemma LockSpawns(g: Game)
    requires Good(g) && !g.gameOver
    ensures var next := Lock(g);
            && next.score == (g.score + 100 * FullFrom(Stamped(g), 0)) % 0x1_0000_0000
            && next.ticks == g.ticks && next.piece == g.ticks % 7 && next.rotation == 0 && next.x == 3 && next.y == 0
            && Proper(next.board) && (next.gameOver <==> !Free(next.board, next.piece, 0, 3, 0))
  {
    var b := Stamped(g);
    StampProper(g.board, Blocks(g), g.x, g.y, g.piece + 1);
    ClearedProper(b);
    SpawnOver(g.(board := Cleared(b), score := ScoreAfter(g.score, LinesAt(g))));
    KeptCounts(b);
    LockScore(g, FullFrom(b, 0));
  }

  lemma LockScore(g: Game, k: nat)
    requires k == LinesAt(g)
    ensures Lock(g).score == (g.score + 100 * k) % 0x1_0000_0000
  {
    ScoreIs(g.score, k);
  }

  lemma SpawnOver(g: Game)
    requires Proper(g.board) && !g.gameOver
    ensures Spawn(g).gameOver <==> !Free(g.board, g.ticks % 7, 0, 3, 0)
  {
    var piece := g.ticks % 7;
    if Free(g.board, piece, 0, 3, 0) {
      assert forall i :: 0 <= i < 4 ==> CellAt(g.board, 3 + Shape(piece, 0)[i].dx, Shape(piece, 0)[i].dy) == 0;
    } else {
      var i :| 0 <= i < 4 && g.board[Shape(piece, 0)[i].dy][3 + Shape(piece, 0)[i].dx] != 0;
      assert CellAt(g.board, 3 + Shape(piece, 0)[i].dx, Shape(piece, 0)[i].dy) != 0;
    }
  }

  // ---- the pieces ----

  lemma OneOfFour(s: seq<Block>, block: Block)
    requires |s| == 4
    ensures block in s <==> block == s[0] || block == s[1] || block == s[2] || block == s[3]
  {}

  /** One shape turned clockwise by a quarter, inside a box of t + 1 cells, is the other. */
  ghost predicate Turned(s: seq<Block>, t: int, turned: seq<Block>, block: Block) {
    block in s <==> Block(t - block.dy, block.dx) in turned
  }

  lemma TurnI(rotation: nat, block: Block)
    requires rotation < 4
    ensures Turned(Shape(0, rotation), 3, Shape(0, (rotation + 1) % 4), block)
  {
    OneOfFour(Shape(0, rotation), block);
  }

  lemma TurnT(rotation: nat, block: Block)
    requires rotation < 4
    ensures Turned(Shape(2, rotation), 2, Shape(2, (rotation + 1) % 4), block)
  {
    OneOfFour(Shape(2, rotation), block);
  }

  lemma TurnS(rotation: nat, block: Block)
    requires rotation < 4
    ensures Turned(Shape(3, rotation), if rotation % 2 == 0 then 3 else 2, Shape(3, (rotation + 1) % 4), block)
  {
    OneOfFour(Shape(3, rotation), block);
  }

  lemma TurnZ(rotation: nat, block: Block)
    requires rotation < 4
    ensures Turned(Shape(4, rotation), if rotation % 2 == 0 then 3 else 2, Shape(4, (rotation + 1) % 4), block)
  {
    OneOfFour(Shape(4, rotation), block);
  }

  lemma TurnJ(rotation: nat, block: Block)
    requires rotation < 4
    ensures Turned(Shape(5, rotation), 2, Shape(5, (rotation + 1) % 4), block)
  {
    OneOfFour(Shape(5, rotation), block);
  }

  lemma TurnL(rotation: nat, block: Block)
    requires rotation < 4
    ensures Turned(Shape(6, rotation), 2, Shape(6, (rotation + 1) % 4), block)
  {
    OneOfFour(Shape(6, rotation), block);
  }

  /** Each rotation is the one before turned clockwise by a quarter, inside a box of 3 or 4 cells. */
  lemma QuarterTurn(piece: nat, rotation: nat, block: Block)
    requires piece < 7 && rotation < 4
    ensures var t := if piece < 2 || ((piece == 3 || piece == 4) && rotation % 2 == 0) then 3 else 2;
            block in Shape(piece, rotation) <==> Block(t - block.dy, block.dx) in Shape(piece, (rotation + 1) % 4)
  {
    if piece == 0 {
      TurnI(rotation, block);
    } else if piece == 2 {
      TurnT(rotation, block);
    } else if piece == 3 {
      TurnS(rotation, block);
    } else if piece == 4 {
      TurnZ(rotation, block);
    } else if piece == 5 {
      TurnJ(rotation, block);
    } else if piece == 6 {
      TurnL(rotation, block);
    }
  }

  /** The cells a new piece fills: I, O, T, S, Z, J and L in this order. */
  lemma StandingPiece(piece: nat, dx: int, dy: int)
    requires piece < 7
    ensures Block(dx, dy) in Shape(piece, 0) <==>
      if piece == 0 then 0 <= dx <= 3 && dy == 1
      else if piece == 1 then 1 <= dx <= 2 && 1 <= dy <= 2
      else if piece == 2 then (0 <= dx <= 2 && dy == 1) || (dx == 1 && dy == 0)
      else if piece == 3 then (1 <= dx <= 2 && dy == 1) || (0 <= dx <= 1 && dy == 2)
      else if piece == 4 then (0 <= dx <= 1 && dy == 1) || (1 <= dx <= 2 && dy == 2)
      else if piece == 5 then (0 <= dx <= 2 && dy == 1) || (dx == 0 && dy == 0)
      else (0 <= dx <= 2 && dy == 1) || (dx == 2 && dy == 0)
  {
    OneOfFour(Shape(piece, 0), Block(dx, dy));
  }
}
