/** The Snake engine of `setupSnakeGame`: a snake on a 10x10 board that
    advances one cell per tick, grows when its head reaches the food and
    stops the game when it leaves the board or runs into itself. */
module Snake {
  import opened Host

  const GridSize := 10

  /** A board cell, or a heading when used as a step `(dx, dy)`; `y` grows downwards. */
  datatype Pos = Pos(x: int, y: int)

  function Step(p: Pos, d: Pos): Pos {
    Pos(p.x + d.x, p.y + d.y)
  }

  predicate InGrid(p: Pos) {
    0 <= p.x < GridSize && 0 <= p.y < GridSize
  }

  /** One of the four headings (1,0), (-1,0), (0,1), (0,-1). */
  predicate IsUnit(d: Pos) {
    (d.x == 0 && (d.y == 1 || d.y == -1)) || (d.y == 0 && (d.x == 1 || d.x == -1))
  }

  function Opposite(d: Pos): Pos {
    Pos(-d.x, -d.y)
  }

  /** For headings: one is horizontal and the other vertical. */
  predicate Perpendicular(a: Pos, b: Pos) {
    (a.x == 0 && b.y == 0) || (a.y == 0 && b.x == 0)
  }

  /** Cells that share a side. */
  predicate Adjacent(p: Pos, q: Pos) {
    IsUnit(Pos(q.x - p.x, q.y - p.y))
  }

  /** A snake body: head first, on the board, no cell twice, each segment
      next to the one after it. */
  ghost predicate WellFormed(body: seq<Pos>)
    decreases |body|
  {
    && |body| >= 1
    && InGrid(body[0])
    && body[0] !in body[1..]
    && (|body| > 1 ==> Adjacent(body[0], body[1]) && WellFormed(body[1..]))
  }

  /** Read segment by segment: a well-formed body lies on the board and
      holds no cell twice. */
  lemma {:induction false} WellFormedSegments(body: seq<Pos>)
    requires WellFormed(body)
    ensures forall k :: 0 <= k < |body| ==> InGrid(body[k])
    ensures forall a, b :: 0 <= a < b < |body| ==> body[a] != body[b]
    ensures forall k :: 0 <= k < |body| - 1 ==> Adjacent(body[k], body[k + 1])
    decreases |body|
  {
    if |body| > 1 {
      var rest := body[1..];
      WellFormedSegments(rest);
      forall a, b | 0 <= a < b < |body| ensures body[a] != body[b] {
        if a == 0 {
          assert body[b] == rest[b - 1];
        } else {
          assert body[a] == rest[a - 1] && body[b] == rest[b - 1];
        }
      }
      forall k | 0 < k < |body| - 1 ensures Adjacent(body[k], body[k + 1]) {
        assert body[k] == rest[k - 1] && body[k + 1] == rest[k];
      }
    }
  }

  /** Dropping the tail of a longer body keeps it well formed. */
  lemma {:induction false} DropTailKeepsWellFormed(body: seq<Pos>)
    requires WellFormed(body) && |body| > 1
    ensures WellFormed(body[..|body| - 1])
    decreases |body|
  {
    var shorter := body[..|body| - 1];
    assert shorter[1..] == body[1..][..|body| - 2];
    assert body[0] !in shorter[1..] by {
      assert forall q :: q in shorter[1..] ==> q in body[1..];
    }
    if |body| > 2 {
      DropTailKeepsWellFormed(body[1..]);
    }
  }

  /** Moving the head onto a free neighbouring cell, and then either keeping
      the tail (growth) or dropping it, leaves a well-formed body that is one
      segment longer or as long as before. */
  lemma Advance(body: seq<Pos>, h: Pos, grow: bool)
    requires WellFormed(body)
    requires InGrid(h) && h !in body && Adjacent(h, body[0])
    ensures var next := if grow then [h] + body else ([h] + body)[..|body|];
      && next == [h] + (if grow then body else body[..|body| - 1])
      && WellFormed(next)
      && |next| == |body| + (if grow then 1 else 0)
  {
    var kept := if grow then body else body[..|body| - 1];
    assert ([h] + body)[..|body|] == [h] + body[..|body| - 1];
    if !grow && |body| > 1 {
      DropTailKeepsWellFormed(body);
    }
    assert ([h] + kept)[1..] == kept;
    assert h !in kept by {
      assert forall q :: q in kept ==> q in body;
    }
  }

  /** A tick that moves `body` by `d` ends the game: the new head leaves the
      board or lands on a segment, the tail included. */
  predicate Blocked(body: seq<Pos>, d: Pos)
    requires |body| > 0
  {
    var h := Step(body[0], d);
    !InGrid(h) || h in body
  }

  /** The tail cell counts as occupied even though the tail would leave it on
      this very tick: a square of four segments cannot chase its own tail. */
  lemma TailCellBlocks()
    ensures var body := [Pos(5, 5), Pos(5, 6), Pos(6, 6), Pos(6, 5)];
      WellFormed(body) && Blocked(body, Pos(1, 0))
  {
    var body := [Pos(5, 5), Pos(5, 6), Pos(6, 6), Pos(6, 5)];
    assert body[1..][1..][1..] == [Pos(6, 5)];
  }

  /** The heading an arrow key asks for. */
  function Heading(key: Key): (d: Pos)
    requires key != OtherKey
    ensures IsUnit(d)
  {
    match key
    case ArrowUp => Pos(0, -1)
    case ArrowDown => Pos(0, 1)
    case ArrowLeft => Pos(-1, 0)
    case ArrowRight => Pos(1, 0)
  }

  /** `snake.some(s => s.x === p.x && s.y === p.y)`: some segment lies on `p`. */
  function Occupies(body: seq<Pos>, p: Pos): (hit: bool)
    ensures hit <==> exists k :: 0 <= k < |body| && body[k] == p
  {
    if body == [] then false
    else body[0] == p || Occupies(body[1..], p)
  }

  // ---------------------------------------------------------------------
  // Rendering: `renderSnake` clears every cell, paints each segment in
  // order (index 0 as the head, the rest as body) and paints the food last.

  datatype Paint = Empty | Head | Body | Food

  /** `segment.y * gridSize + segment.x`. */
  function CellIndex(p: Pos): (i: int)
    ensures InGrid(p) ==> 0 <= i < GridSize * GridSize
  {
    p.y * GridSize + p.x
  }

  /** Paints `p`'s cell with `paint` when `cells[cellIndex]` exists. */
  function PaintAt(cells: seq<Paint>, p: Pos, paint: Paint): (r: seq<Paint>)
    ensures |r| == |cells|
    ensures forall i :: 0 <= i < |cells| && i != CellIndex(p) ==> r[i] == cells[i]
  {
    var i := CellIndex(p);
    if 0 <= i < |cells| then cells[i := paint] else cells
  }

  /** The board after painting the first `n` segments of `body` in order. */
  function PaintSegments(cells: seq<Paint>, body: seq<Pos>, n: nat): (r: seq<Paint>)
    requires n <= |body|
    ensures |r| == |cells|
  {
    if n == 0 then cells
    else PaintAt(PaintSegments(cells, body, n - 1), body[n - 1], if n == 1 then Head else Body)
  }

  function Blank(): seq<Paint> {
    seq(GridSize * GridSize, _ => Empty)
  }

  /** The class of every board cell, in `cells` order, as `renderSnake` leaves it. */
  function Render(body: seq<Pos>, food: Pos): (r: seq<Paint>)
    ensures |r| == GridSize * GridSize
  {
    PaintAt(PaintSegments(Blank(), body, |body|), food, Food)
  }

  /** What a cell shows: the food wins over any segment, then the head, then the body. */
  function Classify(body: seq<Pos>, food: Pos, p: Pos): Paint {
    if p == food then Food
    else if |body| > 0 && body[0] == p then Head
    else if p in body then Body
    else Empty
  }

  lemma CellIndexInjective(p: Pos, q: Pos)
    requires InGrid(p) && InGrid(q) && CellIndex(p) == CellIndex(q)
    ensures p == q
  {
  }

  lemma {:induction false} PaintSegmentsAt(body: seq<Pos>, n: nat, p: Pos)
    requires n <= |body| && WellFormed(body) && InGrid(p)
    ensures |PaintSegments(Blank(), body, n)| == GridSize * GridSize
    ensures PaintSegments(Blank(), body, n)[CellIndex(p)] ==
      if n > 0 && body[0] == p then Head
      else if n > 1 && p in body[1..n] then Body
      else Empty
  {
    WellFormedSegments(body);
    if n > 0 {
      PaintSegmentsAt(body, n - 1, p);
      var q := body[n - 1];
      if CellIndex(q) == CellIndex(p) {
        CellIndexInjective(p, q);
      } else if n > 2 {
        assert body[1..n] == body[1..n - 1] + [q];
      }
    }
  }

  /** Each cell of the rendered board shows exactly what `Classify` says:
      food over body, head at index 0, body for the other segments. */
  lemma RenderClassifies(body: seq<Pos>, food: Pos, p: Pos)
    requires WellFormed(body) && InGrid(food) && InGrid(p)
    ensures |Render(body, food)| == GridSize * GridSize
    ensures Render(body, food)[CellIndex(p)] == Classify(body, food, p)
  {
    PaintSegmentsAt(body, |body|, p);
    if p != food && CellIndex(p) == CellIndex(food) {
      CellIndexInjective(p, food);
    }
    assert body == [body[0]] + body[1..];
  }

  // ---------------------------------------------------------------------
  // The engine state held in the closure of `setupSnakeGame`.

  class SnakeGame {
    var gameActive: bool
    var snake: seq<Pos>
    var food: Pos
    var direction: Pos
    var nextDirection: Pos
    var score: int

    /** The body stays well formed, the score counts the growths, and while
        the game runs a buffered heading never turns a longer snake back
        onto its own neck. */
    ghost predicate Valid()
      reads this
    {
      && WellFormed(snake)
      && InGrid(food)
      && IsUnit(direction)
      && IsUnit(nextDirection)
      && |snake| == score + 1
      && (gameActive && |snake| > 1 ==> nextDirection != Opposite(direction))
    }

    /** The initial closure state. */
    constructor ()
      ensures Valid() && !gameActive
      ensures snake == [Pos(5, 5)] && food == Pos(8, 8)
      ensures direction == Pos(1, 0) && nextDirection == Pos(1, 0) && score == 0
    {
      gameActive := false;
      snake := [Pos(5, 5)];
      food := Pos(8, 8);
      direction := Pos(1, 0);
      nextDirection := Pos(1, 0);
      score := 0;
    }

    /** The start button: when no game runs, reset the body, the food, the
        heading and the score (but not the buffered heading) and run the
        first tick at once. */
    method Start(rx: real, ry: real)
      requires Valid() && IsRandom(rx) && IsRandom(ry)
      modifies this
      ensures Valid()
      ensures old(gameActive) ==> unchanged(this)
      ensures !old(gameActive) ==>
        && gameActive
        && snake == [Step(Pos(5, 5), old(nextDirection))]
        && food == Pos(8, 8)
        && direction == old(nextDirection) && nextDirection == old(nextDirection)
        && score == 0
    {
      if !gameActive {
        gameActive := true;
        snake := [Pos(5, 5)];
        food := Pos(8, 8);
        direction := Pos(1, 0);
        score := 0;
        Tick(rx, ry);
      }
    }

    /** An arrow key buffers its heading only while the game runs and only
        when that heading is perpendicular to the current one. */
    method KeyDown(key: Host.Key)
      requires Valid()
      modifies this`nextDirection
      ensures Valid()
      ensures
        if gameActive && key != OtherKey && Perpendicular(Heading(key), direction)
        then nextDirection == Heading(key)
        else nextDirection == old(nextDirection)
    {
      if !gameActive {
        return;
      }
      if key == ArrowUp && direction.y == 0 {
        nextDirection := Pos(0, -1);
      }
      if key == ArrowDown && direction.y == 0 {
        nextDirection := Pos(0, 1);
      }
      if key == ArrowLeft && direction.x == 0 {
        nextDirection := Pos(-1, 0);
      }
      if key == ArrowRight && direction.x == 0 {
        nextDirection := Pos(1, 0);
      }
    }

    /** One run of `gameLoop`. The draws `rx`, `ry` place new food when the
        head reaches the current food; they may land on the body. */
    method Tick(rx: real, ry: real)
      requires Valid() && IsRandom(rx) && IsRandom(ry)
      modifies this
      ensures Valid()
      ensures !old(gameActive) ==> unchanged(this)
      ensures old(gameActive) ==> direction == old(nextDirection) && nextDirection == old(nextDirection)
      ensures old(gameActive) && Blocked(old(snake), old(nextDirection)) ==>
        !gameActive && snake == old(snake) && food == old(food) && score == old(score)
      ensures old(gameActive) && !Blocked(old(snake), old(nextDirection)) ==>
        var h := Step(old(snake)[0], old(nextDirection));
        && gameActive
        && snake == [h] + (if h == old(food) then old(snake) else old(snake)[..|old(snake)| - 1])
        && score == old(score) + (if h == old(food) then 1 else 0)
        && food == (if h == old(food) then Pos(ScaledFloor(rx, GridSize), ScaledFloor(ry, GridSize)) else old(food))
    {
      if !gameActive {
        return;
      }
      // Taking the buffered heading keeps the no-reversal clause of Valid().
      assert nextDirection != Opposite(nextDirection);
      direction := nextDirection;
      var head := snake[0];
      var newHead := Step(head, direction);
      if newHead.x < 0 || newHead.x >= GridSize || newHead.y < 0 || newHead.y >= GridSize {
        gameActive := false;
        return;
      }
      if Occupies(snake, newHead) {
        gameActive := false;
        return;
      }
      var ate := newHead == food;
      var body := [newHead] + snake;
      if !ate {
        body := body[..|body| - 1];
      }
      Advance(snake, newHead, ate);
      snake := body;
      if ate {
        score := score + 1;
        food := Pos(ScaledFloor(rx, GridSize), ScaledFloor(ry, GridSize));
      }
    }
  }
}
