/** Client runs of the engine on fixed inputs: what a caller can conclude
    from the contracts of `Game` alone, for the worked cases of a 20 x 20
    board. The food is drawn at (0, 0), out of the way, unless a case says
    otherwise. */
module Scenarios {
  import opened Geometry
  import opened Engine

  /** The three-segment body lying on row 10 with its head at column
      10 + i. */
  function Row(i: int): seq<Point> {
    [Point(10 + i, 10), Point(9 + i, 10), Point(8 + i, 10)]
  }

  /** Moving the row body one cell right: the new head is free and the
      result is the row body one column on. */
  lemma RowMove(i: int)
    requires 0 <= i < 9
    ensures Classify(Row(i), Right, Point(0, 0)) == Move
    ensures Moved(Row(i), Add(Row(i)[0], Delta(Right))) == Row(i + 1)
  {
    assert Moved(Row(i), Point(11 + i, 10)) == [Point(11 + i, 10)] + Row(i)[..2];
  }

  /** A fresh game, started by steering right. */
  method StartRight() returns (g: Game)
    ensures fresh(g) && g.Valid() && g.state == Running && g.loopActive
    ensures g.dir == Right && g.nextDir == Right && g.food == Point(0, 0)
    ensures g.snake == Row(0) && g.score == 0
  {
    var start := [Point(0, 0)];
    assert start[0] !in INITIAL_SNAKE;
    g := new Game(start);
    assert g.food == Point(0, 0);
    g.Steer(Right, []);
  }

  /** While the head is not yet at the last column, a tick to the right
      shifts the whole body one cell right and drops the old tail. */
  method TickRight(g: Game, i: int)
    requires 0 <= i < 9
    requires g.Valid() && g.state == Running && g.nextDir == Right && g.food == Point(0, 0)
    requires g.snake == Row(i)
    modifies g
    ensures g.Valid() && g.state == Running && g.dir == Right && g.nextDir == Right
    ensures g.food == Point(0, 0) && g.snake == Row(i + 1) && g.score == old(g.score)
  {
    RowMove(i);
    g.Step([]);
  }

  /** Heading right from the start, nine ticks bring the head to the last
      column (19, 10); the tenth would put it at x = 20, off the board, so
      the game ends there with the body where it was and the timer stopped. */
  method WallHit() returns (g: Game)
    ensures fresh(g) && g.Valid() && g.state == Over && !g.loopActive
    ensures g.snake == [Point(19, 10), Point(18, 10), Point(17, 10)]
    ensures g.dir == Right && g.score == 0
  {
    g := StartRight();
    var i := 0;
    while i < 9
      invariant 0 <= i <= 9
      invariant g.Valid() && g.state == Running && g.nextDir == Right && g.food == Point(0, 0)
      invariant g.snake == Row(i) && g.score == 0
    {
      TickRight(g, i);
      i := i + 1;
    }
    assert !InBounds(Point(20, 10));
    g.Step([]);
  }

  /** Any direction other than straight back against the last committed
      one starts a finished game afresh: the starting body, idle, no
      score, the timer stopped, and the food at the first free draw. */
  method SteerRestarts(g: Game, d: Dir)
    requires g.Valid() && g.state == Over && !Reverses(g.dir, d)
    modifies g
    ensures g.Valid() && g.Fresh() && !g.loopActive
  {
    var start := [Point(0, 0)];
    assert start[0] !in INITIAL_SNAKE;
    g.Steer(d, start);
  }

  /** After the wall hit, input straight back against the last direction
      (left) leaves the finished game alone; steering up then restarts it. */
  method RestartAfterWall() returns (g: Game, stillOver: bool)
    ensures stillOver
    ensures g.Valid() && g.Fresh() && !g.loopActive
  {
    g := WallHit();
    g.Steer(Left, []);
    stillOver := g.state == Over;
    SteerRestarts(g, Up);
  }

  /** With the food at (11, 10), the first tick to the right eats it: the
      body grows to four segments, and of the draws (10, 10) and (5, 5)
      the new food is (5, 5), the first one off the grown body. */
  lemma EatAndGrow(pos: Point)
    ensures Classify(INITIAL_SNAKE, Right, Point(11, 10)) == Eat
    ensures Grown(INITIAL_SNAKE, Point(11, 10))
            == [Point(11, 10), Point(10, 10), Point(9, 10), Point(8, 10)]
    ensures Spawnable([Point(10, 10), Point(5, 5)], Grown(INITIAL_SNAKE, Point(11, 10)))
    ensures FirstFree([Point(10, 10), Point(5, 5)], Grown(INITIAL_SNAKE, Point(11, 10)), pos)
            <==> pos == Point(5, 5)
  {
    var draws, grown := [Point(10, 10), Point(5, 5)], Grown(INITIAL_SNAKE, Point(11, 10));
    assert draws[0] in grown && draws[1] !in grown;
  }

  /** A body curled into a square, head at (5, 5) and tail at (5, 6). */
  const SQUARE: seq<Point> := [Point(5, 5), Point(6, 5), Point(6, 6), Point(5, 6)]

  /** Moving down from the square puts the head on the tail cell. The tail
      would have moved away on this tick, but the collision test looks at
      the body before it moves, so the game ends. */
  lemma TailCellBites()
    ensures WellFormed(SQUARE)
    ensures Classify(SQUARE, Down, Point(0, 0)) == Bite
  {
    var s := SQUARE;
    assert s[1] == Add(s[0], Delta(Right)) && s[2] == Add(s[1], Delta(Down))
           && s[3] == Add(s[2], Delta(Left));
    assert Add(s[0], Delta(Down)) == s[3];
  }

  /** Steering straight back against the committed direction is ignored,
      even as the first input of an idle game: it does not start the game. */
  method ReverseIgnored() returns (state: Phase, pending: Dir, timer: bool)
    ensures state == Idle && pending == Right && !timer
  {
    var start := [Point(0, 0)];
    assert start[0] !in INITIAL_SNAKE;
    var g := new Game(start);
    g.Steer(Left, []);
    state, pending, timer := g.state, g.nextDir, g.loopActive;
  }
}
