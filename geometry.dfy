/** The square board of the snake game: cells, unit directions, the bounds
    test, and the shape a living snake body keeps (distinct, in bounds,
    each segment one step from the next). */
module Geometry {

  /** Side of the square board (`GRID` in snake.js). */
  const GRID := 20

  /** A cell `{x, y}` of the board, or the sum of a cell and a
      direction vector. */
  datatype Point = Point(x: int, y: int)

  /** The four direction vectors `{x: 0, y: -1}`, `{x: 0, y: 1}`,
      `{x: -1, y: 0}` and `{x: 1, y: 0}`, the only ones the input tables
      produce; `Delta` gives each one's vector (y grows downwards). */
  datatype Dir = Up | Down | Left | Right

  function Delta(d: Dir): Point {
    match d
    case Up => Point(0, -1)
    case Down => Point(0, 1)
    case Left => Point(-1, 0)
    case Right => Point(1, 0)
  }

  function Add(p: Point, v: Point): Point {
    Point(p.x + v.x, p.y + v.y)
  }

  function Neg(v: Point): Point {
    Point(-v.x, -v.y)
  }

  /** `b` points straight back against `a`. */
  predicate Reverses(a: Dir, b: Dir) {
    match a
    case Up => b.Down?
    case Down => b.Up?
    case Left => b.Right?
    case Right => b.Left?
  }

  /** `Reverses` is the test `steer` makes on the vectors: each component
      of `b` is the negation of `a`'s. Every direction has exactly one
      reverse, and reversing is symmetric. */
  lemma ReversesIsNegation(a: Dir, b: Dir)
    ensures Reverses(a, b) <==> Delta(b) == Neg(Delta(a))
    ensures Reverses(a, b) <==> Reverses(b, a)
    ensures exists c :: Reverses(a, c)
    ensures forall c :: Reverses(a, b) && Reverses(a, c) ==> b == c
  {
    match a
    case Up => assert Reverses(a, Down);
    case Down => assert Reverses(a, Up);
    case Left => assert Reverses(a, Right);
    case Right => assert Reverses(a, Left);
  }

  function Abs(n: int): nat {
    if n < 0 then -n else n
  }

  predicate InBounds(p: Point)
  {
    0 <= p.x < GRID && 0 <= p.y < GRID
  }

  /** `b` is one step away from `a` in one of the four directions. */
  ghost predicate Adjacent(a: Point, b: Point) {
    exists d :: b == Add(a, Delta(d))
  }

  predicate Distinct(s: seq<Point>) {
    forall i, j :: 0 <= i < j < |s| ==> s[i] != s[j]
  }

  predicate AllInBounds(s: seq<Point>) {
    forall i :: 0 <= i < |s| ==> InBounds(s[i])
  }

  /** Each segment is one step from the next. The pair `i, j` with
      `j == i + 1` gives the quantifier the trigger `s[i], s[j]`. */
  ghost predicate Connected(s: seq<Point>) {
    forall i, j :: 0 <= i < j < |s| && j == i + 1 ==> Adjacent(s[i], s[j])
  }

  /** The shape every snake body keeps: at least the three starting
      segments, no cell twice, all on the board, and unbroken. */
  ghost predicate WellFormed(s: seq<Point>) {
    |s| >= 3 && Distinct(s) && AllInBounds(s) && Connected(s)
  }

  /** Moving without eating: the new head goes in front, the tail cell is
      dropped (`unshift` then `pop`). */
  function Moved(s: seq<Point>, head: Point): (r: seq<Point>)
    requires |s| > 0
    ensures |r| == |s| && r[0] == head
  {
    [head] + s[..|s| - 1]
  }

  /** Every segment behind the new head takes the place of the one in front
      of it; the old tail is gone. */
  lemma MovedShifts(s: seq<Point>, head: Point)
    requires |s| > 0
    ensures forall i :: 0 < i < |s| ==> Moved(s, head)[i] == s[i - 1]
    ensures forall c :: c in Moved(s, head) <==> c == head || c in s[..|s| - 1]
  {
  }

  /** Eating: the new head goes in front and no segment is dropped. */
  function Grown(s: seq<Point>, head: Point): (r: seq<Point>)
    ensures |r| == |s| + 1 && r[0] == head
  {
    [head] + s
  }

  /** Growing keeps every old segment, one place further back. */
  lemma GrownShifts(s: seq<Point>, head: Point)
    ensures forall i :: 0 < i <= |s| ==> Grown(s, head)[i] == s[i - 1]
    ensures forall c :: c in Grown(s, head) <==> c == head || c in s
  {
  }

  /** Stepping from `p` in direction `d` and then back in the opposite
      direction returns to `p`: the old head is next to the new one. */
  lemma StepBack(p: Point, d: Dir)
    ensures Adjacent(Add(p, Delta(d)), p)
  {
    ReversesIsNegation(d, d);
    var back :| Reverses(d, back);
    ReversesIsNegation(d, back);
    assert p == Add(Add(p, Delta(d)), Delta(back));
  }

  /** A legal move (the head lands on a free cell of the board next to the
      old head) keeps the body well formed. */
  lemma MoveKeepsShape(s: seq<Point>, head: Point)
    requires WellFormed(s) && InBounds(head) && head !in s && Adjacent(head, s[0])
    ensures WellFormed(Moved(s, head))
  {
    var r := Moved(s, head);
    forall i, j | 0 <= i < j < |r| ensures r[i] != r[j] {
      if i == 0 {
        assert r[j] == s[j - 1] && s[j - 1] in s;
      } else {
        assert r[i] == s[i - 1] && r[j] == s[j - 1];
      }
    }
    forall i, j | 0 <= i < j < |r| && j == i + 1 ensures Adjacent(r[i], r[j]) {
      if i > 0 {
        assert r[i] == s[i - 1] && r[j] == s[j - 1];
      }
    }
  }

  /** Growing onto a free cell next to the head keeps the body well formed. */
  lemma GrowKeepsShape(s: seq<Point>, head: Point)
    requires WellFormed(s) && InBounds(head) && head !in s && Adjacent(head, s[0])
    ensures WellFormed(Grown(s, head))
  {
    var r := Grown(s, head);
    forall i, j | 0 <= i < j < |r| ensures r[i] != r[j] {
      if i == 0 {
        assert r[j] == s[j - 1] && s[j - 1] in s;
      } else {
        assert r[i] == s[i - 1] && r[j] == s[j - 1];
      }
    }
    forall i, j | 0 <= i < j < |r| && j == i + 1 ensures Adjacent(r[i], r[j]) {
      if i > 0 {
        assert r[i] == s[i - 1] && r[j] == s[j - 1];
      }
    }
  }

  /** A cell left free by the dropped tail or never occupied: a cell off
      the old body is still off the moved body, unless it is the new head. */
  lemma MovedCells(s: seq<Point>, head: Point, c: Point)
    requires |s| > 0 && c !in s && c != head
    ensures c !in Moved(s, head)
  {
  }

  // ---- Counting the board ----------------------------------------------

  /** Every cell of the board. */
  ghost function AllCells(): set<Point> {
    set x, y | 0 <= x < GRID && 0 <= y < GRID :: Point(x, y)
  }

  /** The cells of the first `n` columns. */
  ghost function Columns(n: nat): set<Point> {
    set x, y | 0 <= x < n && 0 <= y < GRID :: Point(x, y)
  }

  /** The first `m` cells of column `x`. */
  ghost function ColumnPrefix(x: int, m: nat): set<Point> {
    set y | 0 <= y < m :: Point(x, y)
  }

  lemma {:induction false} ColumnPrefixSize(x: int, m: nat)
    ensures |ColumnPrefix(x, m)| == m
  {
    if m > 0 {
      ColumnPrefixSize(x, m - 1);
      assert ColumnPrefix(x, m) == ColumnPrefix(x, m - 1) + {Point(x, m - 1)};
      assert Point(x, m - 1) !in ColumnPrefix(x, m - 1);
    } else {
      assert ColumnPrefix(x, m) == {};
    }
  }

  lemma {:induction false} ColumnsSize(n: nat)
    ensures |Columns(n)| == n * GRID
  {
    if n > 0 {
      ColumnsSize(n - 1);
      ColumnPrefixSize(n - 1, GRID);
      assert Columns(n) == Columns(n - 1) + ColumnPrefix(n - 1, GRID);
      assert Columns(n - 1) !! ColumnPrefix(n - 1, GRID);
    } else {
      assert Columns(n) == {};
    }
  }

  /** The board has exactly GRID * GRID cells. */
  lemma BoardSize()
    ensures |AllCells()| == GRID * GRID
    ensures forall p :: p in AllCells() <==> InBounds(p)
  {
    ColumnsSize(GRID);
    assert AllCells() == Columns(GRID);
  }

  /** The set of cells a body occupies. */
  ghost function Cells(s: seq<Point>): set<Point> {
    set i | 0 <= i < |s| :: s[i]
  }

  /** A body without repeated cells occupies as many cells as it is long. */
  lemma {:induction false} DistinctCells(s: seq<Point>)
    requires Distinct(s)
    ensures |Cells(s)| == |s|
    ensures forall p :: p in Cells(s) <==> p in s
  {
    if s == [] {
      assert Cells(s) == {};
    } else {
      var t := s[1..];
      assert Distinct(t) by {
        forall i, j | 0 <= i < j < |t| ensures t[i] != t[j] {
          assert t[i] == s[i + 1] && t[j] == s[j + 1];
        }
      }
      DistinctCells(t);
      assert Cells(s) == {s[0]} + Cells(t) by {
        forall p ensures p in Cells(s) <==> p in {s[0]} + Cells(t) {
          if p in Cells(s) {
            var k :| 0 <= k < |s| && s[k] == p;
            if k > 0 { assert t[k - 1] == p; }
          }
          if p in Cells(t) {
            var k :| 0 <= k < |t| && t[k] == p;
            assert s[k + 1] == p;
          }
        }
      }
      assert s[0] !in Cells(t);
      forall p ensures p in Cells(s) <==> p in s {
        if p in s {
          var k :| 0 <= k < |s| && s[k] == p;
          assert p in Cells(s);
        }
      }
    }
  }

  /** A body of distinct on-board cells leaves a free cell on the board
      exactly when it is shorter than the board has cells: the condition
      under which the food placement loop can stop. */
  lemma FreeCellIffShort(s: seq<Point>)
    requires Distinct(s) && AllInBounds(s)
    ensures (exists c :: InBounds(c) && c !in s) <==> |s| < GRID * GRID
  {
    BoardSize();
    DistinctCells(s);
    var occupied := Cells(s);
    assert occupied <= AllCells() by {
      forall p | p in occupied ensures p in AllCells() {
        var k :| 0 <= k < |s| && s[k] == p;
      }
    }
    if |s| < GRID * GRID {
      var free := AllCells() - occupied;
      assert |free| > 0;
      var c :| c in free;
      assert InBounds(c) && c !in s;
    }
    if c :| InBounds(c) && c !in s {
      assert occupied + {c} <= AllCells();
      assert |occupied + {c}| == |s| + 1;
      assert |occupied + {c}| <= |AllCells()| by {
        SubsetSize(occupied + {c}, AllCells());
      }
    }
  }

  lemma SubsetSize<T>(a: set<T>, b: set<T>)
    requires a <= b
    ensures |a| <= |b|
  {
    assert b == a + (b - a);
  }
}
