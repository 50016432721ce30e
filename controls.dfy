/** The input-normalisation layer of snake.js: the keyboard table and the
    Escape / restart dispatch of the keydown handler, the d-pad table, the
    swipe classifier of the touchmove handler and the tap test of the
    touchend handler. Each maps an abstract input to a decision; the
    engine then acts on it. */
module Controls {
  import opened Geometry

  datatype Option<T> = None | Some(value: T)

  /** Distance, in pixels, a finger must travel on one axis before a
      touch counts as a swipe (`SWIPE_THRESHOLD`). */
  const SWIPE_THRESHOLD := 24

  const ARROW_KEYS: set<string> := {"ArrowUp", "ArrowDown", "ArrowLeft", "ArrowRight"}
  const PAD_NAMES: set<string> := {"up", "down", "left", "right"}

  /** What the keydown handler does with one key press. */
  datatype Command = OpenGame | CloseGame | Restart | Steer(d: Dir) | Ignore

  /** The arrow-key table of the keydown handler (`map[e.key]`). */
  function KeyDirection(key: string): (r: Option<Dir>)
    ensures r.Some? <==> key in ARROW_KEYS
  {
    if key == "ArrowUp" then Some(Up)
    else if key == "ArrowDown" then Some(Down)
    else if key == "ArrowLeft" then Some(Left)
    else if key == "ArrowRight" then Some(Right)
    else None
  }

  /** The d-pad table (`dirMap[btn.dataset.dir]`); a name outside the
      table gives no direction. */
  function PadDirection(name: string): (r: Option<Dir>)
    ensures r.Some? <==> name in PAD_NAMES
  {
    if name == "up" then Some(Up)
    else if name == "down" then Some(Down)
    else if name == "left" then Some(Left)
    else if name == "right" then Some(Right)
    else None
  }

  /** Both tables reach every one of the four directions, and the same
      direction is reached by exactly one arrow key and one pad button. */
  lemma TablesCoverDirections(d: Dir)
    ensures exists key :: KeyDirection(key) == Some(d)
    ensures exists name :: PadDirection(name) == Some(d)
    ensures forall k1, k2 :: KeyDirection(k1) == Some(d) && KeyDirection(k2) == Some(d) ==> k1 == k2
    ensures forall n1, n2 :: PadDirection(n1) == Some(d) && PadDirection(n2) == Some(d) ==> n1 == n2
  {
    match d
    case Up => assert KeyDirection("ArrowUp") == Some(d) && PadDirection("up") == Some(d);
    case Down => assert KeyDirection("ArrowDown") == Some(d) && PadDirection("down") == Some(d);
    case Left => assert KeyDirection("ArrowLeft") == Some(d) && PadDirection("left") == Some(d);
    case Right => assert KeyDirection("ArrowRight") == Some(d) && PadDirection("right") == Some(d);
  }

  /** The three input paths agree: an arrow key, the d-pad button of the
      same name and a swipe of the threshold length that way all give the
      same direction, with the vector the source writes for it. */
  lemma TablesAgreeWithSwipe()
    ensures KeyDirection("ArrowUp") == PadDirection("up") == Swipe(0, -SWIPE_THRESHOLD) == Some(Up)
            && Delta(Up) == Point(0, -1)
    ensures KeyDirection("ArrowDown") == PadDirection("down") == Swipe(0, SWIPE_THRESHOLD) == Some(Down)
            && Delta(Down) == Point(0, 1)
    ensures KeyDirection("ArrowLeft") == PadDirection("left") == Swipe(-SWIPE_THRESHOLD, 0) == Some(Left)
            && Delta(Left) == Point(-1, 0)
    ensures KeyDirection("ArrowRight") == PadDirection("right") == Swipe(SWIPE_THRESHOLD, 0) == Some(Right)
            && Delta(Right) == Point(1, 0)
  {
  }

  /** The decision the keydown handler takes. `overlayActive` is whether
      the game overlay is open; `over` is whether the game has ended. */
  function KeyCommand(key: string, overlayActive: bool, over: bool): (c: Command)
    ensures !overlayActive ==> c == (if key == "s" || key == "S" then OpenGame else Ignore)
    ensures c == OpenGame <==> !overlayActive && (key == "s" || key == "S")
    ensures c == CloseGame <==> overlayActive && key == "Escape"
    ensures c == Restart <==> overlayActive && over && (key == "r" || key == "R")
    ensures c.Steer? <==> overlayActive && key in ARROW_KEYS
    ensures c.Steer? ==> Some(c.d) == KeyDirection(key)
  {
    if (key == "s" || key == "S") && !overlayActive then OpenGame
    else if !overlayActive then Ignore
    else if key == "Escape" then CloseGame
    else if (key == "r" || key == "R") && over then Restart
    else match KeyDirection(key)
      case None => Ignore
      case Some(d) => Steer(d)
  }

  function Dot(a: Point, b: Point): int {
    a.x * b.x + a.y * b.y
  }

  /** A touch that moved less than the threshold on both axes. */
  predicate IsTap(dx: int, dy: int) {
    Abs(dx) < SWIPE_THRESHOLD && Abs(dy) < SWIPE_THRESHOLD
  }

  /** The swipe classifier of the touchmove handler: `(dx, dy)` is the
      finger's displacement from the touch origin, in whole pixels, with y
      growing downwards as on the board. */
  function Swipe(dx: int, dy: int): (r: Option<Dir>)
    ensures r.None? <==> IsTap(dx, dy)
    ensures r.Some? && Abs(dx) > Abs(dy) ==> Delta(r.value).y == 0 && (r.value == Right <==> dx > 0)
    ensures r.Some? && Abs(dx) <= Abs(dy) ==> Delta(r.value).x == 0 && (r.value == Down <==> dy > 0)
  {
    if IsTap(dx, dy) then None
    else if Abs(dx) > Abs(dy) then Some(if dx > 0 then Right else Left)
    else Some(if dy > 0 then Down else Up)
  }

  /** The swipe picks the direction that points most along the finger's
      movement: no unit direction has a larger component along it, and the
      chosen one's component is the larger of |dx| and |dy|. */
  lemma SwipeFollowsFinger(dx: int, dy: int, u: Dir)
    requires Swipe(dx, dy).Some?
    ensures Dot(Delta(Swipe(dx, dy).value), Point(dx, dy)) == if Abs(dx) > Abs(dy) then Abs(dx) else Abs(dy)
    ensures Dot(Delta(u), Point(dx, dy)) <= Dot(Delta(Swipe(dx, dy).value), Point(dx, dy))
  {
  }

  /** Every direction can be produced by some swipe. */
  lemma SwipeCoversDirections(d: Dir)
    ensures exists dx, dy :: Swipe(dx, dy) == Some(d)
  {
    var dx, dy := SWIPE_THRESHOLD * Delta(d).x, SWIPE_THRESHOLD * Delta(d).y;
    assert Swipe(dx, dy) == Some(d);
  }

  /** The touchend handler's decision: restart exactly when a touch origin
      was recorded, the finger was released within the threshold of it on
      both axes, and the game is over. */
  function TapRestarts(origin: Option<Point>, release: Point, over: bool): (restart: bool)
    ensures restart <==> over && origin.Some?
                         && Swipe(release.x - origin.value.x, release.y - origin.value.y).None?
  {
    origin.Some? && IsTap(release.x - origin.value.x, release.y - origin.value.y) && over
  }
}
