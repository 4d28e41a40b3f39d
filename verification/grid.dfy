/** The playing field: a 20 x 20 torus of cells, the four directions of
    movement, and one step of the head with wrap-around at the edges. */
module Grid {

  const GridSize: int := 20
  const CellCount: int := GridSize * GridSize

  /** A position on the board; the `Position` record of the TypeScript component (`SnakeGame.tsx`). */
  datatype Cell = Cell(x: int, y: int)

  datatype Direction = Up | Down | Left | Right

  predicate InGrid(c: Cell) {
    0 <= c.x < GridSize && 0 <= c.y < GridSize
  }

  /** What one call of the random position generator can return. */
  type GridCell = c: Cell | InGrid(c) witness Cell(0, 0)

  /** The direction that would turn the snake straight back onto itself. */
  function Opposite(d: Direction): (r: Direction)
    ensures r != d
    ensures (d == Up || d == Down) <==> (r == Up || r == Down)
  {
    match d
    case Up => Down
    case Down => Up
    case Left => Right
    case Right => Left
  }

  lemma OppositeIsInvolution(d: Direction)
    ensures Opposite(Opposite(d)) == d
  {
  }

  /** JavaScript's `%` operator: the remainder truncates toward zero, so it
      takes the sign of the dividend (unlike Dafny's Euclidean `%`). */
  function JsRem(a: int, n: int): (r: int)
    requires n > 0
    ensures 0 <= a ==> r == a % n
    ensures a < 0 ==> -n < r <= 0
  {
    if a >= 0 then a % n else -((-a) % n)
  }

  /** One step of the head: UP decreases y, DOWN increases y, LEFT decreases
      x, RIGHT increases x, each coordinate wrapped with the formulas of
      `SnakeGame.tsx` (`(v - 1 + GRID_SIZE) % GRID_SIZE`, `(v + 1) % GRID_SIZE`). */
  function Move(c: Cell, d: Direction): (r: Cell)
    ensures InGrid(c) ==> InGrid(r)
    ensures d == Up || d == Down ==> r.x == c.x
    ensures d == Left || d == Right ==> r.y == c.y
  {
    match d
    case Up => c.(y := JsRem(c.y - 1 + GridSize, GridSize))
    case Down => c.(y := JsRem(c.y + 1, GridSize))
    case Left => c.(x := JsRem(c.x - 1 + GridSize, GridSize))
    case Right => c.(x := JsRem(c.x + 1, GridSize))
  }

  /** On the board, the two wrap formulas of `SnakeGame.tsx` add or subtract one
      and jump to the other edge only at the edge. */
  lemma WrapFormulas(v: int)
    requires 0 <= v < GridSize
    ensures JsRem(v + 1, GridSize) == if v == GridSize - 1 then 0 else v + 1
    ensures JsRem(v - 1 + GridSize, GridSize) == if v == 0 then GridSize - 1 else v - 1
  {
  }

  /** Horizontal and vertical offsets of a direction. */
  function Dx(d: Direction): int {
    match d
    case Left => -1
    case Right => 1
    case _ => 0
  }

  function Dy(d: Direction): int {
    match d
    case Up => -1
    case Down => 1
    case _ => 0
  }

  /** On the board, a step adds the direction's offset to one coordinate,
      modulo the grid size (Dafny's `%` is the mathematical modulus). */
  lemma MoveIsTorusStep(c: Cell, d: Direction)
    requires InGrid(c)
    ensures Move(c, d) == Cell((c.x + Dx(d)) % GridSize, (c.y + Dy(d)) % GridSize)
  {
    WrapFormulas(c.x);
    WrapFormulas(c.y);
  }

  /** Leaving the board on one edge re-enters it on the opposite edge. */
  lemma MoveWrapsAtEdges(c: Cell)
    requires InGrid(c)
    ensures c.x == 0 ==> Move(c, Left) == Cell(GridSize - 1, c.y)
    ensures c.x == GridSize - 1 ==> Move(c, Right) == Cell(0, c.y)
    ensures c.y == 0 ==> Move(c, Up) == Cell(c.x, GridSize - 1)
    ensures c.y == GridSize - 1 ==> Move(c, Down) == Cell(c.x, 0)
  {
    WrapFormulas(c.x);
    WrapFormulas(c.y);
  }

  /** A step never stays in place, and stepping back undoes it. */
  lemma MoveThenBack(c: Cell, d: Direction)
    requires InGrid(c)
    ensures Move(c, d) != c
    ensures Move(Move(c, d), Opposite(d)) == c
  {
    WrapFormulas(c.x);
    WrapFormulas(c.y);
  }

  /** Two steps that are not a reversal never return to the start cell:
      the torus is wider than two cells. */
  lemma NoReturnWithoutReversal(c: Cell, d: Direction, e: Direction)
    requires InGrid(c)
    requires e != Opposite(d)
    ensures Move(Move(c, d), e) != c
  {
    WrapFormulas(c.x);
    WrapFormulas(c.y);
  }

  // ---------------------------------------------------------------------
  // Counting cells: when does a free cell exist?

  predicate Distinct(s: seq<Cell>) {
    forall i, j :: 0 <= i < j < |s| ==> s[i] != s[j]
  }

  predicate AllInGrid(s: seq<Cell>) {
    forall i :: 0 <= i < |s| ==> InGrid(s[i])
  }

  /** Every cell of the board, row by row. */
  function AllCells(): seq<Cell> {
    seq(CellCount, i requires 0 <= i < CellCount => Cell(i % GridSize, i / GridSize))
  }

  lemma AllCellsEnumeratesBoard()
    ensures |AllCells()| == CellCount
    ensures Distinct(AllCells())
    ensures forall c :: InGrid(c) ==> c in AllCells()
  {
    var all := AllCells();
    forall c | InGrid(c) ensures c in all {
      var k := c.y * GridSize + c.x;
      assert k % GridSize == c.x && k / GridSize == c.y;
      assert all[k] == c;
    }
  }

  /** `s` with every occurrence of `b` removed. */
  function Without(s: seq<Cell>, b: Cell): (r: seq<Cell>)
    ensures forall c :: c in r <==> c in s && c != b
    ensures |r| <= |s|
    ensures b !in s ==> r == s
  {
    if s == [] then []
    else if s[0] == b then Without(s[1..], b)
    else [s[0]] + Without(s[1..], b)
  }

  /** Removing a cell from a list without repetitions keeps it without
      repetitions and shortens it by one exactly when the cell was there. */
  lemma {:induction false} WithoutDistinct(s: seq<Cell>, b: Cell)
    requires Distinct(s)
    ensures Distinct(Without(s, b))
    ensures |Without(s, b)| == if b in s then |s| - 1 else |s|
  {
    if s != [] {
      WithoutDistinct(s[1..], b);
      assert s == [s[0]] + s[1..];
      if s[0] != b {
        assert s[0] !in s[1..];
        assert s[0] !in Without(s[1..], b);
      }
    }
  }

  /** Pigeonhole: distinct cells drawn from a list of candidates are no
      more numerous than the candidates. */
  lemma {:induction false} DistinctWithinIsShorter(body: seq<Cell>, cands: seq<Cell>)
    requires Distinct(body) && Distinct(cands)
    requires forall i :: 0 <= i < |body| ==> body[i] in cands
    ensures |body| <= |cands|
  {
    if body != [] {
      var rest := Without(cands, body[0]);
      WithoutDistinct(cands, body[0]);
      forall i | 0 <= i < |body[1..]| ensures body[1..][i] in rest {
        assert body[1..][i] == body[i + 1] != body[0];
      }
      DistinctWithinIsShorter(body[1..], rest);
    }
  }

  /** A free cell exists exactly when the occupied cells (distinct, on the
      board) number fewer than the board holds. */
  lemma FreeCellExistsIff(body: seq<Cell>)
    requires Distinct(body) && AllInGrid(body)
    ensures (exists c :: InGrid(c) && c !in body) <==> |body| < CellCount
  {
    AllCellsEnumeratesBoard();
    var all := AllCells();
    if !(exists c :: InGrid(c) && c !in body) {
      forall i | 0 <= i < |all| ensures all[i] in body {
        assert InGrid(all[i]);
      }
      DistinctWithinIsShorter(all, body);
    }
    if c :| InGrid(c) && c !in body {
      var rest := Without(all, c);
      WithoutDistinct(all, c);
      forall i | 0 <= i < |body| ensures body[i] in rest {
        assert InGrid(body[i]) && body[i] in all;
      }
      DistinctWithinIsShorter(body, rest);
    }
  }
}
