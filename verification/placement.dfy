/** Food placement: draw random cells until one is off the snake.

    The random generator is abstracted as the finite stream of cells it
    produced, in order; every draw is a board cell, as
    `Math.floor(Math.random() * GRID_SIZE)` is for each coordinate. */
module Placement {
  import opened Grid

  /** Some draw of the stream lands off `body`: the rejection loop ends. */
  predicate HasFreeDraw(body: seq<Cell>, draws: seq<GridCell>) {
    exists k :: 0 <= k < |draws| && draws[k] !in body
  }

  /** The draw the rejection loop settles on: the first one off `body`,
      every earlier one having landed on it. */
  function FirstFreeDraw(body: seq<Cell>, draws: seq<GridCell>): (c: GridCell)
    requires HasFreeDraw(body, draws)
    ensures c !in body
    ensures exists i :: 0 <= i < |draws| && draws[i] == c &&
                        forall j :: 0 <= j < i ==> draws[j] in body
    decreases |draws|
  {
    if draws[0] !in body then draws[0]
    else
      assert HasFreeDraw(body, draws[1..]) by {
        var k :| 0 <= k < |draws| && draws[k] !in body;
        assert draws[1..][k - 1] == draws[k];
      }
      var c := FirstFreeDraw(body, draws[1..]);
      assert exists i :: 0 <= i < |draws| && draws[i] == c &&
                         forall j :: 0 <= j < i ==> draws[j] in body by {
        var i :| 0 <= i < |draws[1..]| && draws[1..][i] == c &&
                 forall j :: 0 <= j < i ==> draws[1..][j] in body;
        assert draws[i + 1] == c;
        forall j | 0 <= j < i + 1 ensures draws[j] in body {
          if j > 0 { assert draws[j] == draws[1..][j - 1]; }
        }
      }
      c
  }

  /** A stream contains at most one first free draw. */
  lemma FirstFreeDrawIsUnique(body: seq<Cell>, draws: seq<GridCell>, c: Cell, i: nat)
    requires i < |draws| && draws[i] == c && c !in body
    requires forall j :: 0 <= j < i ==> draws[j] in body
    ensures HasFreeDraw(body, draws) && FirstFreeDraw(body, draws) == c
  {
    var f := FirstFreeDraw(body, draws);
    var i' :| 0 <= i' < |draws| && draws[i'] == f &&
              forall j :: 0 <= j < i' ==> draws[j] in body;
    assert i' == i;
  }

  /** The resampling loop of `SnakeGame.tsx`, run on the given draws. */
  method ResampleFood(body: seq<Cell>, draws: seq<GridCell>) returns (food: GridCell)
    requires HasFreeDraw(body, draws)
    ensures food !in body
    ensures food == FirstFreeDraw(body, draws)
  {
    var i := 0;
    food := draws[0];
    while food in body
      invariant 0 <= i < |draws| && food == draws[i]
      invariant forall j :: 0 <= j < i ==> draws[j] in body
      invariant HasFreeDraw(body, draws[i..])
      decreases |draws| - i
    {
      assert HasFreeDraw(body, draws[i + 1..]) by {
        var k :| 0 <= k < |draws[i..]| && draws[i..][k] !in body;
        assert k != 0;
        assert draws[i + 1..][k - 1] == draws[i..][k];
      }
      i := i + 1;
      food := draws[i];
    }
    FirstFreeDrawIsUnique(body, draws, food, i);
  }

  /** On a board whose occupied cells are distinct, the loop can end with
      some stream exactly when fewer than all cells are occupied; with every
      cell occupied no stream of draws ends it. */
  lemma FreeDrawPossibleIff(body: seq<Cell>)
    requires Distinct(body) && AllInGrid(body)
    ensures (exists draws: seq<GridCell> :: HasFreeDraw(body, draws)) <==> |body| < CellCount
  {
    FreeCellExistsIff(body);
    if |body| < CellCount {
      var c :| InGrid(c) && c !in body;
      var draws: seq<GridCell> := [c];
      assert draws[0] !in body;
      assert HasFreeDraw(body, draws);
    }
    if draws: seq<GridCell> :| HasFreeDraw(body, draws) {
      var k :| 0 <= k < |draws| && draws[k] !in body;
      assert InGrid(draws[k]);
    }
  }
}
