/** The game engine of snake.js: the module-level state `snake, dir,
    nextDir, food, score, state, intervalId` as the fields of one `Game`
    object, with the engine's operations as its methods. The interval
    timer is the flag `loopActive`; the random cells the food placement
    loop draws are passed in as the sequence `draws`. */
module Engine {
  import opened Geometry

  datatype Phase = Idle | Running | Over

  /** The body a fresh game starts with, head first. */
  const INITIAL_SNAKE: seq<Point> := [Point(10, 10), Point(9, 10), Point(8, 10)]

  /** `draws` can feed the food placement loop for a body: every draw is a
      cell of the board (as `Math.floor(Math.random() * GRID)` gives) and
      at least one of them is free, so the loop stops. */
  predicate Spawnable(draws: seq<Point>, body: seq<Point>) {
    AllInBounds(draws) && exists k :: 0 <= k < |draws| && draws[k] !in body
  }

  /** `pos` is the first of `draws` that is off the body: every earlier
      draw was rejected. */
  predicate FirstFree(draws: seq<Point>, body: seq<Point>, pos: Point) {
    exists k :: 0 <= k < |draws| && pos == draws[k] && pos !in body
                && forall j :: 0 <= j < k ==> draws[j] in body
  }

  /** `spawnFood`: draw cells until one is off the body, by rejection
      sampling, and return it. */
  method SpawnFood(body: seq<Point>, draws: seq<Point>) returns (pos: Point)
    requires Spawnable(draws, body)
    ensures InBounds(pos) && pos !in body
    ensures FirstFree(draws, body, pos)
  {
    var k := 0;
    pos := draws[k];
    while pos in body
      invariant 0 <= k < |draws| && pos == draws[k]
      invariant forall j :: 0 <= j < k ==> draws[j] in body
      invariant exists i :: k <= i < |draws| && draws[i] !in body
      decreases |draws| - k
    {
      k := k + 1;
      pos := draws[k];
    }
  }

  /** The invariant of the engine state, on its values: a well-formed
      body, one point of score per segment grown, food on a free board
      cell, a pending direction that is never the reverse of the committed
      one, and the timer armed exactly while the game runs. */
  ghost predicate Consistent(snake: seq<Point>, dir: Dir, nextDir: Dir, food: Point,
                             score: int, state: Phase, loopActive: bool)
  {
    && WellFormed(snake)
    && score == |snake| - 3
    && InBounds(food) && food !in snake
    && !Reverses(dir, nextDir)
    && (state != Over ==> snake[0] == Add(snake[1], Delta(dir)))
    && (loopActive <==> state == Running)
  }

  /** The starting body is well formed: three distinct cells of the board
      in a row, each one step left of the one before. */
  lemma InitialShape()
    ensures WellFormed(INITIAL_SNAKE)
  {
    var s := INITIAL_SNAKE;
    assert s[1] == Add(s[0], Delta(Left)) && s[2] == Add(s[1], Delta(Left));
  }

  /** A tick that hits the wall or the body keeps the invariant: it only
      commits the pending direction, ends the game and stops the timer. */
  lemma HitKeepsInvariant(snake: seq<Point>, dir: Dir, nextDir: Dir, food: Point, score: int)
    requires Consistent(snake, dir, nextDir, food, score, Running, true)
    ensures Consistent(snake, nextDir, nextDir, food, score, Over, false)
  {
  }

  /** What one tick does, decided from the body, the direction it
      commits and the food: the wall test and the self-collision test of
      `step` (both against the body before it moves), then the food test. */
  datatype Tick = Wall | Bite | Eat | Move

  function Classify(snake: seq<Point>, d: Dir, food: Point): (t: Tick)
    requires |snake| > 0
    ensures t == Wall <==> !InBounds(Add(snake[0], Delta(d)))
    ensures t == Bite <==> InBounds(Add(snake[0], Delta(d)))
                           && exists i :: 0 <= i < |snake| && snake[i] == Add(snake[0], Delta(d))
    ensures t == Eat <==> Add(snake[0], Delta(d)) == food && InBounds(food) && food !in snake
    ensures t == Eat || t == Move ==> InBounds(Add(snake[0], Delta(d))) && Add(snake[0], Delta(d)) !in snake
  {
    var head := Add(snake[0], Delta(d));
    if !InBounds(head) then Wall
    else if head in snake then Bite
    else if head == food then Eat
    else Move
  }

  /** A tick onto a free cell that holds no food keeps the invariant. */
  lemma MoveKeepsInvariant(snake: seq<Point>, dir: Dir, nextDir: Dir, food: Point, score: int,
                           state: Phase, loopActive: bool)
    requires Consistent(snake, dir, nextDir, food, score, state, loopActive) && state == Running
    requires Classify(snake, nextDir, food) == Move
    ensures Consistent(Moved(snake, Add(snake[0], Delta(nextDir))), nextDir, nextDir, food, score,
                       state, loopActive)
  {
    var head := Add(snake[0], Delta(nextDir));
    assert InBounds(head) && head !in snake && head != food;
    StepBack(snake[0], nextDir);
    MoveKeepsShape(snake, head);
    MovedCells(snake, head, food);
    var moved := Moved(snake, head);
    assert moved[0] == head && moved[1] == snake[0];
  }

  /** A tick onto the food keeps the invariant once new food is drawn off
      the grown body. */
  lemma GrowKeepsInvariant(snake: seq<Point>, dir: Dir, nextDir: Dir, food: Point, score: int,
                           state: Phase, loopActive: bool, newFood: Point)
    requires Consistent(snake, dir, nextDir, food, score, state, loopActive) && state == Running
    requires Classify(snake, nextDir, food) == Eat
    requires InBounds(newFood) && newFood !in Grown(snake, food)
    ensures Consistent(Grown(snake, food), nextDir, nextDir, newFood, score + 1, state, loopActive)
  {
    StepBack(snake[0], nextDir);
    GrowKeepsShape(snake, food);
  }

  /** Eating needs a free cell for the new food, and one exists exactly
      while the grown body is shorter than the board has cells: eating the
      last free cell leaves the food placement loop nothing to find. */
  lemma RoomToEat(snake: seq<Point>, dir: Dir, nextDir: Dir, food: Point, score: int,
                  state: Phase, loopActive: bool)
    requires Consistent(snake, dir, nextDir, food, score, state, loopActive) && state == Running
    requires Classify(snake, nextDir, food) == Eat
    ensures (exists c :: InBounds(c) && c !in Grown(snake, food)) <==> |snake| + 1 < GRID * GRID
  {
    StepBack(snake[0], nextDir);
    GrowKeepsShape(snake, food);
    FreeCellIffShort(Grown(snake, food));
  }

  class Game {
    var snake: seq<Point>
    var dir: Dir
    var nextDir: Dir
    var food: Point
    var score: int
    var state: Phase
    var loopActive: bool

    /** What holds between any two operations. */
    ghost predicate Valid()
      reads this
    {
      Consistent(snake, dir, nextDir, food, score, state, loopActive)
    }

    /** The state `init` sets up, apart from the timer. */
    ghost predicate Fresh()
      reads this
    {
      && snake == INITIAL_SNAKE
      && dir == Right && nextDir == Right
      && score == 0 && state == Idle
      && InBounds(food) && food !in snake
    }

    /** Opening the game: `init` with no timer running. */
    constructor (draws: seq<Point>)
      requires Spawnable(draws, INITIAL_SNAKE)
      ensures Valid() && Fresh() && !loopActive
      ensures FirstFree(draws, INITIAL_SNAKE, food)
    {
      snake, dir, nextDir := INITIAL_SNAKE, Right, Right;
      food, score, state, loopActive := Point(0, 0), 0, Idle, false;
      new;
      Init(draws);
    }

    /** `init`: a new game with the starting body heading right, food on a
        free cell and a score of 0. It leaves the timer alone. */
    method Init(draws: seq<Point>)
      requires Spawnable(draws, INITIAL_SNAKE)
      modifies this
      ensures Fresh() && loopActive == old(loopActive)
      ensures FirstFree(draws, INITIAL_SNAKE, food)
      ensures !loopActive ==> Valid()
    {
      InitialShape();
      snake := INITIAL_SNAKE;
      dir := Right;
      nextDir := Right;
      food := SpawnFood(snake, draws);
      score := 0;
      state := Idle;
    }

    /** `startLoop`: (re)arm the timer. */
    method StartLoop()
      modifies this
      ensures loopActive
      ensures snake == old(snake) && dir == old(dir) && nextDir == old(nextDir)
      ensures food == old(food) && score == old(score) && state == old(state)
    {
      loopActive := true;
    }

    /** `stopLoop`: cancel the timer; stopping a stopped timer changes
        nothing. */
    method StopLoop()
      modifies this
      ensures !loopActive
      ensures snake == old(snake) && dir == old(dir) && nextDir == old(nextDir)
      ensures food == old(food) && score == old(score) && state == old(state)
    {
      loopActive := false;
    }

    /** `gameOver`: the game ends and the timer stops; nothing else
        changes. */
    method GameOver()
      modifies this
      ensures state == Over && !loopActive
      ensures snake == old(snake) && dir == old(dir) && nextDir == old(nextDir)
      ensures food == old(food) && score == old(score)
    {
      state := Over;
      StopLoop();
    }

    /** `step`, one tick of the timer. The pending direction is committed;
        a head off the board or on any current segment (the tail included:
        it has not moved yet) ends the game with the body, food and score
        untouched; a head on the food grows the body by one and draws new
        food; any other head moves the body, dropping its tail. */
    method Step(draws: seq<Point>)
      requires Valid() && state == Running
      requires Classify(snake, nextDir, food) == Eat ==> Spawnable(draws, Grown(snake, food))
      modifies this
      ensures Valid()
      ensures dir == old(nextDir) && nextDir == old(nextDir)
      ensures Classify(old(snake), old(nextDir), old(food)) in {Wall, Bite} ==>
        && state == Over && !loopActive
        && snake == old(snake) && food == old(food) && score == old(score)
      ensures Classify(old(snake), old(nextDir), old(food)) == Eat ==>
        && state == Running && loopActive
        && snake == Grown(old(snake), old(food)) && score == old(score) + 1
        && InBounds(food) && FirstFree(draws, Grown(old(snake), old(food)), food)
      ensures Classify(old(snake), old(nextDir), old(food)) == Move ==>
        && state == Running && loopActive
        && snake == Moved(old(snake), Add(old(snake)[0], Delta(old(nextDir))))
        && food == old(food) && score == old(score)
    {
      var head := Add(snake[0], Delta(nextDir));
      if !InBounds(head) || head in snake {
        HitKeepsInvariant(snake, dir, nextDir, food, score);
        dir := nextDir;
        GameOver();
      } else if head == food {
        var grown := Grown(snake, head);
        var pos := SpawnFood(grown, draws);
        GrowKeepsInvariant(snake, dir, nextDir, food, score, state, loopActive, pos);
        dir, snake, score, food := nextDir, grown, score + 1, pos;
      } else {
        MoveKeepsInvariant(snake, dir, nextDir, food, score, state, loopActive);
        dir, snake := nextDir, Moved(snake, head);
      }
    }

    /** `steer`: a direction opposite to the committed one is ignored.
        Otherwise it becomes the pending direction; an idle game starts
        running with its timer armed, and a finished game is stopped and
        started afresh. */
    method Steer(d: Dir, draws: seq<Point>)
      requires Valid()
      requires state == Over && !Reverses(dir, d) ==> Spawnable(draws, INITIAL_SNAKE)
      modifies this
      ensures Valid()
      ensures Reverses(old(dir), d) ==>
        && snake == old(snake) && dir == old(dir) && nextDir == old(nextDir)
        && food == old(food) && score == old(score) && state == old(state)
        && loopActive == old(loopActive)
      ensures !Reverses(old(dir), d) && old(state) == Idle ==>
        && nextDir == d && state == Running && loopActive
        && snake == old(snake) && dir == old(dir) && food == old(food) && score == old(score)
      ensures !Reverses(old(dir), d) && old(state) == Running ==>
        && nextDir == d && state == Running && loopActive
        && snake == old(snake) && dir == old(dir) && food == old(food) && score == old(score)
      ensures !Reverses(old(dir), d) && old(state) == Over ==>
        Fresh() && !loopActive && FirstFree(draws, INITIAL_SNAKE, food)
    {
      ReversesIsNegation(dir, d);
      if Delta(d) == Neg(Delta(dir)) {
        return;
      }
      nextDir := d;
      if state == Idle {
        state := Running;
        StartLoop();
      }
      if state == Over {
        StopLoop();
        Init(draws);
      }
    }

    /** The restart shared by the `r`/`R` key and the tap once the game is
        over: stop the timer and `init`. */
    method Restart(draws: seq<Point>)
      requires Spawnable(draws, INITIAL_SNAKE)
      modifies this
      ensures Valid() && Fresh() && !loopActive
      ensures FirstFree(draws, INITIAL_SNAKE, food)
    {
      StopLoop();
      Init(draws);
    }
  }
}
