/** The Tetris engine: falling piece, locking, line clearing and scoring. */
module Tetris {

  import opened Common
  import opened Words
  import opened Arithmetic

  const WIDTH: nat := 10
  const HEIGHT: nat := 20

  datatype Block = Block(dx: int, dy: int)

  datatype Key = Left | Right | Down | Up | Enter | Other

  /** Rows from the top; 0 is an empty cell. */
  type Board = seq<seq<nat>>

  datatype Game = Game(
    board: Board, x: int, y: int, piece: nat, rotation: nat, score: u32, ticks: u32, gameOver: bool)

  // ---- the piece table ----

  /** Four different cells of a 4 by 4 box, in its first three rows when not rotated. */
  ghost predicate ProperShape(s: seq<Block>, rotation: nat) {
    && |s| == 4 && Distinct(s)
    && forall i :: 0 <= i < 4 ==> 0 <= s[i].dx < 4 && 0 <= s[i].dy < if rotation == 0 then 3 else 4
  }

  function IPiece(rotation: nat): (r: seq<Block>)
    ensures ProperShape(r, rotation)
  {
    if rotation == 0 then [Block(0, 1), Block(1, 1), Block(2, 1), Block(3, 1)]
    else if rotation == 1 then [Block(2, 0), Block(2, 1), Block(2, 2), Block(2, 3)]
    else if rotation == 2 then [Block(0, 2), Block(1, 2), Block(2, 2), Block(3, 2)]
    else [Block(1, 0), Block(1, 1), Block(1, 2), Block(1, 3)]
  }

  function OPiece(): (r: seq<Block>)
    ensures ProperShape(r, 0)
  {
    [Block(1, 1), Block(1, 2), Block(2, 1), Block(2, 2)]
  }

  function TPiece(rotation: nat): (r: seq<Block>)
    ensures ProperShape(r, rotation)
  {
    if rotation == 0 then [Block(1, 0), Block(0, 1), Block(1, 1), Block(2, 1)]
    else if rotation == 1 then [Block(1, 0), Block(1, 1), Block(2, 1), Block(1, 2)]
    else if rotation == 2 then [Block(0, 1), Block(1, 1), Block(2, 1), Block(1, 2)]
    else [Block(1, 0), Block(0, 1), Block(1, 1), Block(1, 2)]
  }

  function SPiece(rotation: nat): (r: seq<Block>)
    ensures ProperShape(r, rotation)
  {
    if rotation == 0 then [Block(1, 1), Block(2, 1), Block(0, 2), Block(1, 2)]
    else if rotation == 1 then [Block(1, 0), Block(1, 1), Block(2, 1), Block(2, 2)]
    else if rotation == 2 then [Block(1, 1), Block(2, 1), Block(0, 2), Block(1, 2)]
    else [Block(1, 0), Block(1, 1), Block(2, 1), Block(2, 2)]
  }

  function ZPiece(rotation: nat): (r: seq<Block>)
    ensures ProperShape(r, rotation)
  {
    if rotation == 0 then [Block(0, 1), Block(1, 1), Block(1, 2), Block(2, 2)]
    else if rotation == 1 then [Block(2, 0), Block(1, 1), Block(2, 1), Block(1, 2)]
    else if rotation == 2 then [Block(0, 1), Block(1, 1), Block(1, 2), Block(2, 2)]
    else [Block(2, 0), Block(1, 1), Block(2, 1), Block(1, 2)]
  }

  function JPiece(rotation: nat): (r: seq<Block>)
    ensures ProperShape(r, rotation)
  {
    if rotation == 0 then [Block(0, 0), Block(0, 1), Block(1, 1), Block(2, 1)]
    else if rotation == 1 then [Block(1, 0), Block(2, 0), Block(1, 1), Block(1, 2)]
    else if rotation == 2 then [Block(0, 1), Block(1, 1), Block(2, 1), Block(2, 2)]
    else [Block(1, 0), Block(1, 1), Block(0, 2), Block(1, 2)]
  }

  function LPiece(rotation: nat): (r: seq<Block>)
    ensures ProperShape(r, rotation)
  {
    if rotation == 0 then [Block(2, 0), Block(0, 1), Block(1, 1), Block(2, 1)]
    else if rotation == 1 then [Block(1, 0), Block(1, 1), Block(1, 2), Block(2, 2)]
    else if rotation == 2 then [Block(0, 1), Block(1, 1), Block(2, 1), Block(0, 2)]
    else [Block(0, 0), Block(1, 0), Block(1, 1), Block(1, 2)]
  }

  /** TETROMINOES[piece][rotation] */
  function Shape(piece: nat, rotation: nat): (r: seq<Block>)
    ensures ProperShape(r, rotation)
  {
    if piece == 0 then IPiece(rotation)
    else if piece == 1 then OPiece()
    else if piece == 2 then TPiece(rotation)
    else if piece == 3 then SPiece(rotation)
    else if piece == 4 then ZPiece(rotation)
    else if piece == 5 then JPiece(rotation)
    else LPiece(rotation)
  }

  // ---- boards ----

  ghost predicate Proper(b: Board) {
    |b| == HEIGHT && forall r :: 0 <= r < |b| ==> |b[r]| == WIDTH
  }

  function Blank(): (r: seq<nat>)
    ensures |r| == WIDTH && forall c :: 0 <= c < WIDTH ==> r[c] == 0
  {
    seq(WIDTH, _ => 0)
  }

  function Blanks(n: nat): (r: Board)
    ensures |r| == n && forall i :: 0 <= i < n ==> r[i] == Blank()
  {
    seq(n, _ => Blank())
  }

  predicate Full(row: seq<nat>) {
    forall c :: 0 <= c < |row| ==> row[c] != 0
  }

  /** The rows that are not full, in order. */
  function Kept(b: Board): (r: Board)
    ensures |r| <= |b|
  {
    if b == [] then [] else Kept(b[..|b| - 1]) + if Full(b[|b| - 1]) then [] else [b[|b| - 1]]
  }

  /** Full rows dropped, the others kept in order, blank rows on top. */
  function Cleared(b: Board): (r: Board)
    ensures |r| == |b|
  {
    Blanks(|b| - |Kept(b)|) + Kept(b)
  }

  /** Filled cells of a row. */
  function RowCount(row: seq<nat>): nat {
    if row == [] then 0 else RowCount(row[..|row| - 1]) + if row[|row| - 1] != 0 then 1 else 0
  }

  /** Filled cells. */
  function Count(b: Board): nat {
    if b == [] then 0 else Count(b[..|b| - 1]) + RowCount(b[|b| - 1])
  }

  lemma {:induction false} KeptConcat(a: Board, b: Board)
    ensures Kept(a + b) == Kept(a) + Kept(b)
    decreases |b|
  {
    if b == [] {
      assert a + b == a;
    } else {
      var n := |b| - 1;
      assert (a + b)[..|a + b| - 1] == a + b[..n];
      KeptConcat(a, b[..n]);
    }
  }

  lemma KeptSingle(row: seq<nat>)
    ensures Kept([row]) == if Full(row) then [] else [row]
  {
    assert [row][..0] == [];
  }

  lemma {:induction false} KeptAll(b: Board)
    requires forall r :: 0 <= r < |b| ==> !Full(b[r])
    ensures Kept(b) == b
  {
    if b != [] {
      KeptAll(b[..|b| - 1]);
      assert b == b[..|b| - 1] + [b[|b| - 1]];
    }
  }

  lemma BlankNotFull()
    ensures !Full(Blank())
  {
    assert Blank()[0] == 0;
  }

  /** The board after row y is taken out and the rows above moved down. */
  function Dropped(b: Board, y: nat): (r: Board)
    requires y < |b|
    ensures |r| == |b|
  {
    [Blank()] + (b[..y] + b[y + 1..])
  }

  lemma KeptWithout(b: Board, row: seq<nat>)
    requires Full(row)
    ensures Kept(b + [row]) == Kept(b)
  {
    assert (b + [row])[..|b|] == b;
  }

  lemma KeptMiddle(above: Board, row: seq<nat>, below: Board)
    requires Full(row)
    ensures Kept(above + [row] + below) == Kept(above) + Kept(below)
  {
    KeptConcat(above + [row], below);
    KeptWithout(above, row);
  }

  lemma SplitAround<T>(s: seq<T>, y: nat)
    requires y < |s|
    ensures s == s[..y] + [s[y]] + s[y + 1..]
  {}

  lemma KeptTop(b: Board)
    ensures Kept([Blank()] + b) == [Blank()] + Kept(b)
  {
    BlankNotFull();
    KeptSingle(Blank());
    KeptConcat([Blank()], b);
  }

  /** Dropping a full row puts one more blank before the rows to keep. */
  lemma DropKeeps(b: Board, y: nat)
    requires y < |b| && Full(b[y])
    ensures Kept(Dropped(b, y)) == [Blank()] + Kept(b)
  {
    SplitAround(b, y);
    KeptMiddle(b[..y], b[y], b[y + 1..]);
    KeptConcat(b[..y], b[y + 1..]);
    KeptTop(b[..y] + b[y + 1..]);
  }

  // ---- counting cells ----

  lemma {:induction false} CountConcat(a: Board, b: Board)
    ensures Count(a + b) == Count(a) + Count(b)
    decreases |b|
  {
    if b == [] {
      assert a + b == a;
    } else {
      var n := |b| - 1;
      assert (a + b)[..|a + b| - 1] == a + b[..n];
      CountConcat(a, b[..n]);
    }
  }

  lemma CountSingle(row: seq<nat>)
    ensures Count([row]) == RowCount(row)
  {
    assert [row][..0] == [];
  }

  lemma {:induction false} RowCountFull(row: seq<nat>)
    ensures Full(row) ==> RowCount(row) == |row|
  {
    if row != [] { RowCountFull(row[..|row| - 1]); }
  }

  lemma {:induction false} RowCountBlank(row: seq<nat>)
    requires forall c :: 0 <= c < |row| ==> row[c] == 0
    ensures RowCount(row) == 0
  {
    if row != [] { RowCountBlank(row[..|row| - 1]); }
  }

  lemma {:induction false} CountBlanks(b: Board)
    requires forall r :: 0 <= r < |b| ==> b[r] == Blank()
    ensures Count(b) == 0
  {
    if b != [] {
      RowCountBlank(Blank());
      CountBlanks(b[..|b| - 1]);
    }
  }

  /** Ten cells go with every full row. */
  lemma {:induction false} KeptCount(b: Board)
    requires forall r :: 0 <= r < |b| ==> |b[r]| == WIDTH
    ensures Count(Kept(b)) + WIDTH * (|b| - |Kept(b)|) == Count(b)
  {
    if b != [] {
      var n := |b| - 1;
      KeptCount(b[..n]);
      RowCountFull(b[n]);
      CountConcat(Kept(b[..n]), [b[n]]);
      CountSingle(b[n]);
      assert Kept(b[..n]) + [] == Kept(b[..n]);
    }
  }

  lemma ClearedCount(b: Board)
    requires Proper(b)
    ensures Count(Cleared(b)) + WIDTH * (|b| - |Kept(b)|) == Count(b)
  {
    KeptCount(b);
    CountBlanks(Blanks(|b| - |Kept(b)|));
    CountConcat(Blanks(|b| - |Kept(b)|), Kept(b));
  }

  // ---- stamping a piece ----

  predicate Inside(b: Board, px: int, py: int) {
    0 <= py < |b| && 0 <= px < |b[py]|
  }

  function CellAt(b: Board, px: int, py: int): nat {
    if Inside(b, px, py) then b[py][px] else 0
  }

  function Put(row: seq<nat>, px: nat, v: nat): (r: seq<nat>)
    requires px < |row|
    ensures |r| == |row|
  {
    row[px := v]
  }

  function SetCell(b: Board, px: int, py: int, v: nat): (r: Board)
    ensures |r| == |b|
  {
    if Inside(b, px, py) then b[py := Put(b[py], px, v)] else b
  }

  lemma CellAtSet(b: Board, px: int, py: int, v: nat, qx: int, qy: int)
    requires Inside(b, px, py)
    ensures Inside(SetCell(b, px, py, v), qx, qy) <==> Inside(b, qx, qy)
    ensures CellAt(SetCell(b, px, py, v), qx, qy) == if qx == px && qy == py then v else CellAt(b, qx, qy)
  {}

  lemma {:induction false} RowCountUpdate(row: seq<nat>, px: nat, v: nat)
    requires px < |row| && row[px] == 0 && v != 0
    ensures RowCount(row[px := v]) == RowCount(row) + 1
  {
    var n := |row| - 1;
    if px == n {
      assert row[px := v][..n] == row[..n];
    } else {
      RowCountUpdate(row[..n], px, v);
      assert row[px := v][..n] == row[..n][px := v];
    }
  }

  lemma {:induction false} CountUpdate(b: Board, py: nat, row: seq<nat>)
    requires py < |b|
    ensures Count(b[py := row]) + RowCount(b[py]) == Count(b) + RowCount(row)
  {
    var n := |b| - 1;
    if py == n {
      assert b[py := row][..n] == b[..n];
    } else {
      CountUpdate(b[..n], py, row);
      assert b[py := row][..n] == b[..n][py := row];
    }
  }

  lemma SetCellCount(b: Board, px: int, py: int, v: nat)
    requires Inside(b, px, py) && CellAt(b, px, py) == 0 && v != 0
    ensures Count(SetCell(b, px, py, v)) == Count(b) + 1
  {
    RowCountUpdate(b[py], px, v);
    CountUpdate(b, py, Put(b[py], px, v));
  }

  /** The board with the blocks of a piece at (x, y) set to v. */
  function Stamp(b: Board, blocks: seq<Block>, x: int, y: int, v: nat): (r: Board)
    ensures |r| == |b|
  {
    if blocks == [] then b
    else
      var last := blocks[|blocks| - 1];
      SetCell(Stamp(b, blocks[..|blocks| - 1], x, y, v), x + last.dx, y + last.dy, v)
  }

  /** Every block inside the board. */
  ghost predicate InBounds(blocks: seq<Block>, x: int, y: int) {
    forall i :: 0 <= i < |blocks| ==> 0 <= x + blocks[i].dx < WIDTH && 0 <= y + blocks[i].dy < HEIGHT
  }

  ghost predicate Vacant(b: Board, blocks: seq<Block>, x: int, y: int) {
    forall i :: 0 <= i < |blocks| ==> CellAt(b, x + blocks[i].dx, y + blocks[i].dy) == 0
  }

  lemma StampGrows(b: Board, blocks: seq<Block>, x: int, y: int, v: nat, i: nat)
    requires i < |blocks|
    ensures Stamp(b, blocks[..i + 1], x, y, v)
         == SetCell(Stamp(b, blocks[..i], x, y, v), x + blocks[i].dx, y + blocks[i].dy, v)
  {
    assert blocks[..i + 1][..i] == blocks[..i];
  }

  ghost predicate Covers(blocks: seq<Block>, x: int, y: int, px: int, py: int) {
    exists i :: 0 <= i < |blocks| && x + blocks[i].dx == px && y + blocks[i].dy == py
  }

  lemma {:induction false} StampProper(b: Board, blocks: seq<Block>, x: int, y: int, v: nat)
    requires Proper(b)
    ensures Proper(Stamp(b, blocks, x, y, v))
  {
    if blocks != [] { StampProper(b, blocks[..|blocks| - 1], x, y, v); }
  }

  lemma CoversLast(blocks: seq<Block>, x: int, y: int, px: int, py: int)
    requires blocks != []
    ensures var n := |blocks| - 1;
            Covers(blocks, x, y, px, py) <==>
              Covers(blocks[..n], x, y, px, py) || (x + blocks[n].dx == px && y + blocks[n].dy == py)
  {
    var n := |blocks| - 1;
    var rest := blocks[..n];
    if Covers(blocks, x, y, px, py) && !(x + blocks[n].dx == px && y + blocks[n].dy == py) {
      var i :| 0 <= i < |blocks| && x + blocks[i].dx == px && y + blocks[i].dy == py;
      assert rest[i] == blocks[i];
    }
    if Covers(rest, x, y, px, py) {
      var i :| 0 <= i < |rest| && x + rest[i].dx == px && y + rest[i].dy == py;
      assert blocks[i] == rest[i];
    }
  }

  /** Exactly the piece's cells change. */
  lemma {:induction false} StampAt(b: Board, blocks: seq<Block>, x: int, y: int, v: nat, px: int, py: int)
    requires Proper(b) && InBounds(blocks, x, y)
    ensures CellAt(Stamp(b, blocks, x, y, v), px, py) == if Covers(blocks, x, y, px, py) then v else CellAt(b, px, py)
  {
    if blocks != [] {
      var n := |blocks| - 1;
      var rest := blocks[..n];
      StampAt(b, rest, x, y, v, px, py);
      StampProper(b, rest, x, y, v);
      CellAtSet(Stamp(b, rest, x, y, v), x + blocks[n].dx, y + blocks[n].dy, v, px, py);
      CoversLast(blocks, x, y, px, py);
    }
  }

  lemma LastNotCovered(blocks: seq<Block>, x: int, y: int)
    requires Distinct(blocks) && blocks != []
    ensures var n := |blocks| - 1; !Covers(blocks[..n], x, y, x + blocks[n].dx, y + blocks[n].dy)
  {
    var n := |blocks| - 1;
    forall i | 0 <= i < n ensures blocks[..n][i] == blocks[i] != blocks[n] {}
  }

  /** Stamping vacant cells fills one cell per block. */
  lemma {:induction false} StampCount(b: Board, blocks: seq<Block>, x: int, y: int, v: nat)
    requires Proper(b) && Distinct(blocks) && InBounds(blocks, x, y) && Vacant(b, blocks, x, y) && v != 0
    ensures Count(Stamp(b, blocks, x, y, v)) == Count(b) + |blocks|
  {
    if blocks != [] {
      var n := |blocks| - 1;
      var rest := blocks[..n];
      var px, py := x + blocks[n].dx, y + blocks[n].dy;
      assert InBounds(rest, x, y) && Vacant(b, rest, x, y);
      StampCount(b, rest, x, y, v);
      StampProper(b, rest, x, y, v);
      StampAt(b, rest, x, y, v, px, py);
      LastNotCovered(blocks, x, y);
      SetCellCount(Stamp(b, rest, x, y, v), px, py, v);
    }
  }

  // ---- the game ----

  /** Whether block i of the piece, moved by (dx, dy) and turned by dr, is outside the walls and floor or on a filled
      cell. */
  predicate BlockHits(g: Game, dx: int, dy: int, dr: nat, i: int)
    requires 0 <= i < 4
  {
    var block := Shape(g.piece, (g.rotation + dr) % 4)[i];
    var px, py := g.x + dx + block.dx, g.y + dy + block.dy;
    px < 0 || px >= WIDTH || py >= HEIGHT || CellAt(g.board, px, py) != 0
  }

  /** check_collision for the piece moved by (dx, dy) and turned by dr. */
  predicate Blocked(g: Game, dx: int, dy: int, dr: nat) {
    exists i :: 0 <= i < 4 && BlockHits(g, dx, dy, dr, i)
  }

  function Blocks(g: Game): (r: seq<Block>)
    ensures ProperShape(r, g.rotation)
  {
    Shape(g.piece, g.rotation)
  }

  /** Whether one of the first n blocks of a new piece stands on a filled cell. */
  predicate OverlapsBelow(b: Board, piece: nat, n: nat)
    requires piece < 7 && n <= 4
  {
    exists i :: 0 <= i < n && CellAt(b, 3 + Shape(piece, 0)[i].dx, Shape(piece, 0)[i].dy) != 0
  }

  /** spawn_piece */
  function Spawn(g: Game): Game {
    var piece := g.ticks % 7;
    g.(piece := piece, rotation := 0, x := 3, y := 0, gameOver := g.gameOver || OverlapsBelow(g.board, piece, 4))
  }

  /** tetris_app_init */
  function Init(): Game {
    Spawn(Game(Blanks(HEIGHT), 0, 0, 0, 0, 0, 0, false))
  }

  /** The score after k more rows, a hundred points each, in 32 bits. */
  function ScoreAfter(score: u32, k: nat): u32 {
    if k == 0 then score else (ScoreAfter(score, k - 1) + 100) % TWO_32
  }

  lemma {:induction false} ScoreIs(score: u32, k: nat)
    ensures ScoreAfter(score, k) == (score + 100 * k) % TWO_32
  {
    if k > 0 {
      ScoreIs(score, k - 1);
      WrapThenAdd(score + 100 * (k - 1));
    }
  }

  lemma WrapThenAdd(x: nat)
    ensures (x % TWO_32 + 100) % TWO_32 == (x + 100) % TWO_32
  {}

  /** The board with the falling piece stamped on it. */
  function Stamped(g: Game): (r: Board)
    ensures |r| == |g.board|
  {
    Stamp(g.board, Blocks(g), g.x, g.y, g.piece + 1)
  }

  /** Rows that locking the piece completes. */
  function LinesAt(g: Game): nat {
    |Stamped(g)| - |Kept(Stamped(g))|
  }

  /** lock_piece */
  function Lock(g: Game): Game {
    Spawn(g.(board := Cleared(Stamped(g)), score := ScoreAfter(g.score, LinesAt(g))))
  }

  /** One step down, or lock. */
  function Descend(g: Game): Game {
    if Blocked(g, 0, 1, 0) then Lock(g) else g.(y := g.y + 1)
  }

  function Tick(g: Game): Game {
    g.(ticks := (g.ticks + 1) % TWO_32)
  }

  /** Whether this key press moves the piece down or locks it. */
  predicate Descends(g: Game, key: Key) {
    !g.gameOver && (key.Down? || ((key.Enter? || key.Other?) && Tick(g).ticks % 20 == 0))
  }

  /** Moves to the side and turns, where nothing is in the way. */
  function Steer(g: Game, key: Key): Game {
    match key
    case Left => if Blocked(g, -1, 0, 0) then g else g.(x := g.x - 1)
    case Right => if Blocked(g, 1, 0, 0) then g else g.(x := g.x + 1)
    case Up =>
      if Blocked(g, 0, 0, 1) then g else g.(rotation := (g.rotation + 1) % 4)
    case _ => g
  }

  /** tetris_app_update */
  function Update(g0: Game, key: Key): Game {
    var g := Tick(g0);
    if g.gameOver then if key.Enter? then Init() else g
    else if Descends(g0, key) then Descend(g)
    else Steer(g, key)
  }

  /** What every reachable state satisfies. */
  ghost predicate Good(g: Game) {
    && Proper(g.board) && g.piece < 7 && g.rotation < 4 && g.y >= 0
    && (forall r :: 0 <= r < HEIGHT ==> !Full(g.board[r]))
    && InBounds(Blocks(g), g.x, g.y)
    && (!g.gameOver ==> Vacant(g.board, Blocks(g), g.x, g.y))
  }

  /** A position that does not collide is in bounds and vacant. */
  lemma NotBlocked(g: Game, dx: int, dy: int, dr: nat)
    requires g.y + dy >= 0
    ensures var blocks := Shape(g.piece, (g.rotation + dr) % 4);
      !Blocked(g, dx, dy, dr) <==> InBounds(blocks, g.x + dx, g.y + dy) && Vacant(g.board, blocks, g.x + dx, g.y + dy)
  {
    var blocks := Shape(g.piece, (g.rotation + dr) % 4);
    forall i | 0 <= i < 4
      ensures !BlockHits(g, dx, dy, dr, i) <==>
        0 <= g.x + dx + blocks[i].dx < WIDTH && 0 <= g.y + dy + blocks[i].dy < HEIGHT &&
        CellAt(g.board, g.x + dx + blocks[i].dx, g.y + dy + blocks[i].dy) == 0
    {}
  }

  lemma SpawnGood(g: Game)
    requires Proper(g.board) && !g.gameOver && forall r :: 0 <= r < HEIGHT ==> !Full(g.board[r])
    ensures Good(Spawn(g))
  {}

  lemma {:induction false} KeptNotFull(b: Board)
    ensures forall r :: 0 <= r < |Kept(b)| ==> !Full(Kept(b)[r])
    ensures (forall r :: 0 <= r < |b| ==> |b[r]| == WIDTH) ==> forall r :: 0 <= r < |Kept(b)| ==> |Kept(b)[r]| == WIDTH
  {
    if b != [] { KeptNotFull(b[..|b| - 1]); }
  }

  lemma ClearedProper(b: Board)
    requires Proper(b)
    ensures Proper(Cleared(b)) && forall r :: 0 <= r < HEIGHT ==> !Full(Cleared(b)[r])
  {
    BlankNotFull();
    KeptNotFull(b);
  }

  lemma LockGood(g: Game)
    requires Good(g) && !g.gameOver
    ensures Good(Lock(g))
  {
    StampProper(g.board, Blocks(g), g.x, g.y, g.piece + 1);
    ClearedProper(Stamped(g));
    SpawnGood(g.(board := Cleared(Stamped(g)), score := ScoreAfter(g.score, LinesAt(g))));
  }

  lemma InitGood()
    ensures Good(Init())
  {
    BlankNotFull();
    SpawnGood(Game(Blanks(HEIGHT), 0, 0, 0, 0, 0, 0, false));
  }

  function Moved(g: Game, dx: int, dy: int, dr: nat): Game {
    g.(x := g.x + dx, y := g.y + dy, rotation := (g.rotation + dr) % 4)
  }

  lemma MovedGood(g: Game, dx: int, dy: int, dr: nat)
    requires Good(g) && !g.gameOver && g.y + dy >= 0 && !Blocked(g, dx, dy, dr)
    ensures Good(Moved(g, dx, dy, dr))
  {
    NotBlocked(g, dx, dy, dr);
    var h := Moved(g, dx, dy, dr);
    assert h.board == g.board && h.gameOver == g.gameOver;
    assert Blocks(h) == Shape(g.piece, (g.rotation + dr) % 4);
    assert InBounds(Blocks(h), h.x, h.y) && Vacant(h.board, Blocks(h), h.x, h.y);
  }

  lemma DescendGood(g: Game)
    requires Good(g) && !g.gameOver
    ensures Good(Descend(g))
  {
    if Blocked(g, 0, 1, 0) {
      LockGood(g);
    } else {
      MovedGood(g, 0, 1, 0);
      assert Moved(g, 0, 1, 0) == g.(y := g.y + 1);
    }
  }

  lemma SteerGood(g: Game, key: Key)
    requires Good(g) && !g.gameOver
    ensures Good(Steer(g, key))
  {
    if key.Left? && !Blocked(g, -1, 0, 0) {
      MovedGood(g, -1, 0, 0);
      assert Moved(g, -1, 0, 0) == g.(x := g.x - 1);
    } else if key.Right? && !Blocked(g, 1, 0, 0) {
      MovedGood(g, 1, 0, 0);
      assert Moved(g, 1, 0, 0) == g.(x := g.x + 1);
    } else if key.Up? && !Blocked(g, 0, 0, 1) {
      MovedGood(g, 0, 0, 1);
    }
  }

  /** Every key press keeps the piece in bounds and, until the game is over, off the filled cells. */
  lemma UpdateGood(g0: Game, key: Key)
    requires Good(g0)
    ensures Good(Update(g0, key))
  {
    var g := Tick(g0);
    assert Good(g);
    if g.gameOver {
      InitGood();
    } else if Descends(g0, key) {
      DescendGood(g);
    } else {
      SteerGood(g, key);
    }
  }

  // ---- whole games ----

  /** A game with the number of pieces locked and rows cleared since its last start. */
  datatype Tally = Tally(game: Game, locked: nat, lines: nat)

  /** Whether this key press locks the piece. */
  predicate Locks(g0: Game, key: Key) {
    Descends(g0, key) && Blocked(Tick(g0), 0, 1, 0)
  }

  predicate Restarts(g0: Game, key: Key) {
    g0.gameOver && key.Enter?
  }

  function Play(t: Tally, key: Key): Tally {
    var next := Update(t.game, key);
    if Restarts(t.game, key) then Tally(next, 0, 0)
    else if Locks(t.game, key) then Tally(next, t.locked + 1, t.lines + LinesAt(Tick(t.game)))
    else t.(game := next)
  }

  function PlayAll(t: Tally, keys: seq<Key>): Tally
    decreases |keys|
  {
    if keys == [] then t else PlayAll(Play(t, keys[0]), keys[1..])
  }

  /** Four cells per locked piece, ten per cleared row, a hundred points per row. */
  ghost predicate Balanced(t: Tally) {
    && Count(t.game.board) + WIDTH * t.lines == 4 * t.locked
    && t.game.score == 100 * t.lines % TWO_32
  }

  lemma LockCount(g: Game)
    requires Good(g) && !g.gameOver
    ensures Count(Lock(g).board) + WIDTH * LinesAt(g) == Count(g.board) + 4
  {
    StampProper(g.board, Blocks(g), g.x, g.y, g.piece + 1);
    StampCount(g.board, Blocks(g), g.x, g.y, g.piece + 1);
    ClearedCount(Stamped(g));
  }

  lemma ScoreAdds(lines: nat, k: nat)
    ensures (100 * lines % TWO_32 + 100 * k) % TWO_32 == 100 * (lines + k) % TWO_32
  {
    var x: int, y: int := 100 * lines, 100 * k;
    DivModDefinition(x, TWO_32);
    ModAddMultiple(x % TWO_32 + y, x / TWO_32, TWO_32);
  }

  lemma InitBalanced()
    ensures Balanced(Tally(Init(), 0, 0))
  {
    CountBlanks(Blanks(HEIGHT));
  }

  lemma LockBalanced(t: Tally)
    requires Good(t.game) && Balanced(t) && !t.game.gameOver
    ensures var g := Tick(t.game); Balanced(Tally(Lock(g), t.locked + 1, t.lines + LinesAt(g)))
  {
    var g := Tick(t.game);
    LockCount(g);
    ScoreIs(g.score, LinesAt(g));
    ScoreAdds(t.lines, LinesAt(g));
  }

  lemma PlayLock(t: Tally, key: Key)
    requires Locks(t.game, key)
    ensures Play(t, key) == Tally(Lock(Tick(t.game)), t.locked + 1, t.lines + LinesAt(Tick(t.game)))
  {}

  lemma PlayQuiet(t: Tally, key: Key)
    requires !Restarts(t.game, key) && !Locks(t.game, key)
    ensures Play(t, key).game.board == t.game.board && Play(t, key).game.score == t.game.score
    ensures Play(t, key).locked == t.locked && Play(t, key).lines == t.lines
  {}

  lemma PlayRestart(t: Tally, key: Key)
    requires Restarts(t.game, key)
    ensures Play(t, key) == Tally(Init(), 0, 0)
  {}

  lemma PlayBalanced(t: Tally, key: Key)
    requires Good(t.game) && Balanced(t)
    ensures Balanced(Play(t, key))
  {
    if Restarts(t.game, key) {
      PlayRestart(t, key);
      InitBalanced();
    } else if Locks(t.game, key) {
      PlayLock(t, key);
      LockBalanced(t);
    } else {
      PlayQuiet(t, key);
    }
  }

  lemma {:induction false} PlayAllBalanced(t: Tally, keys: seq<Key>)
    requires Good(t.game) && Balanced(t)
    ensures Good(PlayAll(t, keys).game) && Balanced(PlayAll(t, keys))
    decreases |keys|
  {
    if keys != [] {
      UpdateGood(t.game, keys[0]);
      PlayBalanced(t, keys[0]);
      PlayAllBalanced(Play(t, keys[0]), keys[1..]);
    }
  }

  lemma UnwrappedScore(t: Tally)
    requires Balanced(t) && 100 * t.lines < TWO_32
    ensures Count(t.game.board) + t.game.score / 10 == 4 * t.locked
  {}

  /** Whatever keys are pressed: a live piece overlaps nothing, no row stays full, and the cells on the board plus a
      tenth of the score are four per locked piece until the score wraps. */
  lemma EveryGame(keys: seq<Key>)
    ensures var t := PlayAll(Tally(Init(), 0, 0), keys);
      && Good(t.game)
      && Count(t.game.board) + 10 * t.lines == 4 * t.locked
      && (100 * t.lines < 0x1_0000_0000 ==> Count(t.game.board) + t.game.score / 10 == 4 * t.locked)
  {
    InitGood();
    InitBalanced();
    PlayAllBalanced(Tally(Init(), 0, 0), keys);
    var t := PlayAll(Tally(Init(), 0, 0), keys);
    if 100 * t.lines < TWO_32 { UnwrappedScore(t); }
  }

  // ---- the code, on the board array ----

  lemma SameBoard(a: Board, b: Board)
    requires Proper(a) && Proper(b)
    requires forall r, c :: 0 <= r < HEIGHT && 0 <= c < WIDTH ==> a[r][c] == b[r][c]
    ensures a == b
  {
    forall r | 0 <= r < HEIGHT ensures a[r] == b[r] {
      assert forall c :: 0 <= c < WIDTH ==> a[r][c] == b[r][c];
    }
  }

  lemma DroppedAt(b: Board, y: nat, r: nat, c: nat)
    requires Proper(b) && y < HEIGHT && r < HEIGHT && c < WIDTH
    ensures Proper(Dropped(b, y))
    ensures Dropped(b, y)[r][c] == if r == 0 then 0 else if r <= y then b[r - 1][c] else b[r][c]
  {}

  /** Move the rows above y down by one and blank the top row. */
  method ShiftDown(m: array2<nat>, y: nat)
    requires m.Length0 == HEIGHT && m.Length1 == WIDTH && y < HEIGHT
    modifies m
    ensures Rows(m) == Dropped(old(Rows(m)), y)
  {
    ghost var b := Rows(m);
    var sy := y;
    while sy > 0
      invariant 0 <= sy <= y
      invariant forall r, c :: 0 <= r < HEIGHT && 0 <= c < WIDTH ==>
        m[r, c] == if sy < r <= y then b[r - 1][c] else b[r][c]
    {
      for sx := 0 to WIDTH
        invariant forall r, c :: 0 <= r < HEIGHT && 0 <= c < WIDTH ==>
          m[r, c] == if sy < r <= y || (r == sy && c < sx) then b[r - 1][c] else b[r][c]
      {
        m[sy, sx] := m[sy - 1, sx];
      }
      sy := sy - 1;
    }
    for sx := 0 to WIDTH
      invariant forall r, c :: 0 <= r < HEIGHT && 0 <= c < WIDTH ==>
        m[r, c] == if r == 0 && c < sx then 0 else if 0 < r <= y then b[r - 1][c] else b[r][c]
    {
      m[0, sx] := 0;
    }
    forall r, c | 0 <= r < HEIGHT && 0 <= c < WIDTH ensures Rows(m)[r][c] == Dropped(b, y)[r][c] {
      DroppedAt(b, y, r, c);
    }
    DroppedAt(b, y, 0, 0);
    SameBoard(Rows(m), Dropped(b, y));
  }

  method RowIsFull(m: array2<nat>, y: nat) returns (full: bool)
    requires m.Length0 == HEIGHT && m.Length1 == WIDTH && y < HEIGHT
    ensures full == Full(Rows(m)[y])
  {
    for x := 0 to WIDTH
      invariant forall c :: 0 <= c < x ==> m[y, c] != 0
    {
      if m[y, x] == 0 {
        assert Rows(m)[y][x] == 0;
        return false;
      }
    }
    return true;
  }

  /** What the clearing loop has done: k rows dropped so far, none full below y. */
  ghost predicate Clearing(b: Board, start: Board, k: nat, y: int) {
    && Proper(b) && Kept(b) == Blanks(k) + Kept(start)
    && forall r :: 0 <= r < HEIGHT && r > y ==> !Full(b[r])
  }

  lemma ClearingDrops(b: Board, start: Board, k: nat, y: nat)
    requires Clearing(b, start, k, y) && y < HEIGHT && Full(b[y])
    ensures Clearing(Dropped(b, y), start, k + 1, y)
    ensures |Kept(Dropped(b, y))| == |Kept(b)| + 1 <= HEIGHT
  {
    DropKeeps(b, y);
    assert [Blank()] + (Blanks(k) + Kept(start)) == Blanks(k + 1) + Kept(start);
    DroppedAt(b, y, 0, 0);
    forall r | y < r < HEIGHT ensures !Full(Dropped(b, y)[r]) { assert Dropped(b, y)[r] == b[r]; }
  }

  lemma ClearingDone(b: Board, start: Board, k: nat)
    requires Clearing(b, start, k, -1) && Proper(start)
    ensures b == Cleared(start) && k == |start| - |Kept(start)|
  {
    KeptAll(b);
  }

  class TetrisApp {
    const cells: array2<nat>
    var x: int
    var y: int
    var piece: nat
    var rotation: nat
    var score: u32
    var ticks: u32
    var gameOver: bool

    ghost predicate Valid()
      reads this
    {
      cells.Length0 == HEIGHT && cells.Length1 == WIDTH && piece < 7 && rotation < 4
    }

    ghost function Abstract(): Game
      reads this, cells
    {
      Game(Rows(cells), x, y, piece, rotation, score, ticks, gameOver)
    }

    constructor ()
      ensures Valid() && fresh(cells) && Abstract() == Init()
    {
      cells := new nat[HEIGHT, WIDTH]((_, _) => 0);
      x, y, piece, rotation, score, ticks, gameOver := 0, 0, 0, 0, 0, 0, false;
      new;
      SameBoard(Rows(cells), Blanks(HEIGHT));
      SpawnPiece();
    }

    method SpawnPiece()
      requires Valid()
      modifies this
      ensures Valid() && Abstract() == Spawn(old(Abstract()))
    {
      ghost var g := Abstract();
      piece := ticks % 7;
      rotation := 0;
      x := WIDTH / 2 - 2;
      y := 0;
      var blocks := Shape(piece, 0);
      var over := false;
      for i := 0 to 4
        invariant over == OverlapsBelow(g.board, piece, i)
      {
        var px, py := x + blocks[i].dx, y + blocks[i].dy;
        assert CellAt(g.board, px, py) == cells[py, px];
        if py >= 0 && cells[py, px] != 0 { over := true; }
      }
      gameOver := gameOver || over;
    }

    /** Whether the piece moved by (dx, dy) and turned by dr would hit something. */
    method CheckCollision(dx: int, dy: int, dr: nat) returns (hit: bool)
      requires Valid()
      ensures hit == Blocked(Abstract(), dx, dy, dr)
    {
      ghost var g := Abstract();
      var blocks := Shape(piece, (rotation + dr) % 4);
      for i := 0 to 4
        invariant forall j :: 0 <= j < i ==> !BlockHits(g, dx, dy, dr, j)
      {
        var px, py := x + dx + blocks[i].dx, y + dy + blocks[i].dy;
        if px < 0 || px >= WIDTH || py >= HEIGHT {
          assert BlockHits(g, dx, dy, dr, i);
          return true;
        }
        if py >= 0 && cells[py, px] != 0 {
          assert BlockHits(g, dx, dy, dr, i);
          return true;
        }
        assert !BlockHits(g, dx, dy, dr, i);
      }
      return false;
    }

    /** The first loop of lock_piece. */
    method StampPiece()
      requires Valid() && InBounds(Shape(piece, rotation), x, y)
      modifies cells
      ensures Rows(cells) == Stamped(old(Abstract()))
    {
      StampBlocks(Shape(piece, rotation));
    }

    method StampBlocks(blocks: seq<Block>)
      requires Valid() && InBounds(blocks, x, y)
      modifies cells
      ensures Rows(cells) == Stamp(old(Rows(cells)), blocks, x, y, piece + 1)
    {
      ghost var b := Rows(cells);
      for i := 0 to |blocks|
        invariant Rows(cells) == Stamp(b, blocks[..i], x, y, piece + 1)
      {
        StampBlock(x + blocks[i].dx, y + blocks[i].dy);
        StampGrows(b, blocks, x, y, piece + 1, i);
      }
      assert blocks[..|blocks|] == blocks;
    }

    /** One block of it. */
    method StampBlock(px: int, py: int)
      requires Valid() && 0 <= px < WIDTH && py < HEIGHT
      modifies cells
      ensures Rows(cells) == SetCell(old(Rows(cells)), px, py, piece + 1)
    {
      ghost var before := Rows(cells);
      if py >= 0 { cells[py, px] := piece + 1; }
      SameBoard(Rows(cells), SetCell(before, px, py, piece + 1));
    }

    /** Shift the rows above a full row onto it. */
    method DropRow(row: nat, ghost start: Board, ghost k: nat)
      requires Valid() && row < HEIGHT && Clearing(Rows(cells), start, k, row) && Full(Rows(cells)[row])
      modifies cells
      ensures Clearing(Rows(cells), start, k + 1, row)
      ensures old(|Kept(Rows(cells))|) < |Kept(Rows(cells))| <= HEIGHT
    {
      ClearingDrops(Rows(cells), start, k, row);
      ShiftDown(cells, row);
    }

    /** The full-row branch: score it and drop it. */
    method ClearFullRow(row: nat, ghost start: Board, ghost k: nat, ghost before: u32)
      requires Valid() && row < HEIGHT && Clearing(Rows(cells), start, k, row) && Full(Rows(cells)[row])
      requires score == ScoreAfter(before, k)
      modifies cells, this`score
      ensures Clearing(Rows(cells), start, k + 1, row) && score == ScoreAfter(before, k + 1)
      ensures old(|Kept(Rows(cells))|) < |Kept(Rows(cells))| <= HEIGHT
    {
      score := (score + 100) % TWO_32;
      DropRow(row, start, k);
    }

    /** One round of the clearing loop: a full row is scored and dropped and its place looked at again. */
    method ClearRow(row: nat, ghost start: Board, ghost k: nat, ghost before: u32) returns (next: int, ghost k1: nat)
      requires Valid() && row < HEIGHT && Clearing(Rows(cells), start, k, row) && score == ScoreAfter(before, k)
      modifies cells, this`score
      ensures -1 <= next < HEIGHT && Clearing(Rows(cells), start, k1, next) && score == ScoreAfter(before, k1)
      ensures || old(|Kept(Rows(cells))|) < |Kept(Rows(cells))| <= HEIGHT
              || (old(|Kept(Rows(cells))|) == |Kept(Rows(cells))| && next < row)
    {
      var full := RowIsFull(cells, row);
      if full {
        ClearFullRow(row, start, k, before);
        next, k1 := row, k + 1;
      } else {
        next, k1 := row - 1, k;
      }
    }

    /** The clearing loop of lock_piece. */
    method ClearLines()
      requires Valid()
      modifies cells, this`score
      ensures Rows(cells) == Cleared(old(Rows(cells)))
      ensures score == ScoreAfter(old(score), HEIGHT - |Kept(old(Rows(cells)))|)
    {
      ghost var start, before, k := Rows(cells), score, 0;
      var row: int := HEIGHT - 1;
      assert Blanks(0) + Kept(start) == Kept(start);
      while row >= 0
        invariant -1 <= row < HEIGHT && Clearing(Rows(cells), start, k, row) && score == ScoreAfter(before, k)
        decreases HEIGHT - |Kept(Rows(cells))|, row
      {
        row, k := ClearRow(row, start, k, before);
      }
      ClearingDone(Rows(cells), start, k);
    }

    method LockPiece()
      requires Valid() && InBounds(Shape(piece, rotation), x, y)
      modifies this, cells
      ensures Valid() && Abstract() == Lock(old(Abstract()))
    {
      StampPiece();
      ClearLines();
      SpawnPiece();
    }

    /** One step down, or lock. */
    method StepDown()
      requires Valid() && InBounds(Shape(piece, rotation), x, y)
      modifies this, cells
      ensures Valid() && Abstract() == Descend(old(Abstract()))
    {
      var hit := CheckCollision(0, 1, 0);
      if hit { LockPiece(); } else { y := y + 1; }
    }

    /** Move to the side or turn. */
    method Move(key: Key)
      requires Valid()
      modifies this`x, this`rotation
      ensures Valid() && Abstract() == Steer(old(Abstract()), key)
    {
      if key.Left? {
        var hit := CheckCollision(-1, 0, 0);
        if !hit { x := x - 1; }
      } else if key.Right? {
        var hit := CheckCollision(1, 0, 0);
        if !hit { x := x + 1; }
      } else if key.Up? {
        var hit := CheckCollision(0, 0, 1);
        if !hit { rotation := (rotation + 1) % 4; }
      }
    }

    method Restart()
      requires Valid()
      modifies this, cells
      ensures Valid() && Abstract() == Init()
    {
      for r := 0 to HEIGHT
        invariant Valid() && forall q, c :: 0 <= q < r && 0 <= c < WIDTH ==> cells[q, c] == 0
      {
        for c := 0 to WIDTH
          invariant Valid()
          invariant forall q, d :: 0 <= q < HEIGHT && 0 <= d < WIDTH && (q < r || (q == r && d < c)) ==>
            cells[q, d] == 0
        {
          cells[r, c] := 0;
        }
      }
      x, y, piece, rotation, score, ticks, gameOver := 0, 0, 0, 0, 0, 0, false;
      SameBoard(Rows(cells), Blanks(HEIGHT));
      SpawnPiece();
    }

    /** A key press in any reachable state, which leads to a reachable state again. */
    method Press(key: Key)
      requires Valid() && Good(Abstract())
      modifies this, cells
      ensures Valid() && Abstract() == Update(old(Abstract()), key) && Good(Abstract())
    {
      UpdateGood(Abstract(), key);
      AppUpdate(key);
    }

    /** tetris_app_update */
    method AppUpdate(key: Key)
      requires Valid() && InBounds(Shape(piece, rotation), x, y)
      modifies this, cells
      ensures Valid() && Abstract() == Update(old(Abstract()), key)
    {
      ticks := (ticks + 1) % TWO_32;
      if gameOver {
        if key.Enter? { Restart(); }
        return;
      }
      if key.Down? || ((key.Enter? || key.Other?) && ticks % 20 == 0) {
        StepDown();
      } else {
        Move(key);
      }
    }
  }
}
