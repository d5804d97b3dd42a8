/** The snake engine: a grid of cells, the snake body on it, a heading, a score and a game-over flag. */
module SnakeEngine {
  import opened SnakeTypes
  import opened SnakeBody

  /** Row-major order, the order in which the grid is scanned for empty cells. */
  predicate RowMajorBefore(a: Position, b: Position) {
    a.Row < b.Row || (a.Row == b.Row && a.Col < b.Col)
  }

  /** Every cell of a `rows` by `cols` grid. */
  ghost function GridCells(rows: int, cols: int): (cells: set<Position>) {
    set r, c | 0 <= r < rows && 0 <= c < cols :: Position(r, c)
  }

  /** The cells of one row of a grid `cols` wide. */
  ghost function RowCells(row: int, cols: int): (cells: set<Position>) {
    set c | 0 <= c < cols :: Position(row, c)
  }

  lemma {:induction false} RowCellCount(row: int, cols: nat)
    ensures |RowCells(row, cols)| == cols
  {
    if cols == 0 {
      assert RowCells(row, cols) == {};
    } else {
      RowCellCount(row, cols - 1);
      assert RowCells(row, cols) == RowCells(row, cols - 1) + {Position(row, cols - 1)};
    }
  }

  /** A grid has exactly `rows * cols` cells. */
  lemma {:induction false} GridCellCount(rows: nat, cols: nat)
    ensures |GridCells(rows, cols)| == rows * cols
  {
    if rows == 0 {
      assert GridCells(rows, cols) == {};
    } else {
      GridCellCount(rows - 1, cols);
      RowCellCount(rows - 1, cols);
      assert GridCells(rows, cols) == GridCells(rows - 1, cols) + RowCells(rows - 1, cols);
      assert GridCells(rows - 1, cols) * RowCells(rows - 1, cols) == {};
      assert (rows - 1) * cols + cols == rows * cols;
    }
  }

  class GameState {
    const Rows: int
    const Cols: int
    const Grid: array2<GridValue>
    var Dir: Direction
    var Score: int
    var GameOver: bool
    /** The body, head first and tail last. */
    var snakePositions: seq<Position>

    /** The grid has the dimensions the game was created with. */
    predicate Shaped() {
      Grid.Length0 == Rows && Grid.Length1 == Cols
    }

    /** Inside the grid means a valid index of Grid. */
    predicate OutsideGrid(pos: Position)
      ensures Shaped() ==>
        (!OutsideGrid(pos) <==> 0 <= pos.Row < Grid.Length0 && 0 <= pos.Col < Grid.Length1)
    {
      pos.Row < 0 || pos.Row >= Rows || pos.Col < 0 || pos.Col >= Cols
    }

    /** No two cells hold food. */
    ghost predicate AtMostOneFood()
      reads Grid
      requires Shaped()
    {
      forall r1, c1 :: 0 <= r1 < Rows && 0 <= c1 < Cols && Grid[r1, c1] == Food ==>
        forall r2, c2 :: 0 <= r2 < Rows && 0 <= c2 < Cols && Grid[r2, c2] == Food ==>
          r1 == r2 && c1 == c2
    }

    ghost predicate HasEmpty()
      reads Grid
      requires Shaped()
    {
      exists r, c :: 0 <= r < Rows && 0 <= c < Cols && Grid[r, c] == Empty
    }

    ghost predicate HasFood()
      reads Grid
      requires Shaped()
    {
      exists r, c :: 0 <= r < Rows && 0 <= c < Cols && Grid[r, c] == Food
    }

    /** The cells of the grid that are marked Snake. */
    ghost function SnakeCells(): (cells: set<Position>)
      reads Grid
      requires Shaped()
    {
      set r, c | 0 <= r < Rows && 0 <= c < Cols && Grid[r, c] == Snake :: Position(r, c)
    }

    /**
     * Grid and body agree: the Snake cells are exactly the body's cells, the body
     * lies inside the grid without repeating a cell, no cell stores Outside, and
     * at most one cell holds food.
     */
    ghost predicate Consistent()
      reads this, Grid
    {
      Shaped() &&
      (forall r, c :: 0 <= r < Rows && 0 <= c < Cols ==> Grid[r, c] != Outside) &&
      (forall i :: 0 <= i < |snakePositions| ==> !OutsideGrid(snakePositions[i])) &&
      Distinct(snakePositions) &&
      (forall r, c :: 0 <= r < Rows && 0 <= c < Cols ==>
        (Grid[r, c] == Snake <==> Position(r, c) in snakePositions)) &&
      AtMostOneFood()
    }

    /**
     * The state between ticks: consistent, a connected body, one point per segment
     * beyond the initial three, and food on the grid unless no cell is empty.
     */
    ghost predicate Valid()
      reads this, Grid
    {
      Consistent() &&
      Chain(snakePositions) &&
      0 <= Score == |snakePositions| - 3 &&
      (HasFood() || !HasEmpty())
    }

    constructor (rows: int, cols: int)
      requires rows >= 1 && cols >= 4
      ensures Rows == rows && Cols == cols && fresh(Grid)
      ensures Valid()
      ensures Dir == Right && Score == 0 && !GameOver
      ensures snakePositions == [Position(rows / 2, 3), Position(rows / 2, 2), Position(rows / 2, 1)]
      ensures Grid[rows / 2, 1] == Snake && Grid[rows / 2, 2] == Snake && Grid[rows / 2, 3] == Snake
      ensures HasFood() && AtMostOneFood()
      ensures forall r, c :: 0 <= r < rows && 0 <= c < cols && !(r == rows / 2 && 1 <= c <= 3) ==>
        Grid[r, c] == Empty || Grid[r, c] == Food
    {
      Rows := rows;
      Cols := cols;
      Grid := new GridValue[rows, cols]((r, c) => Empty);
      Dir := Right;
      Score := 0;
      GameOver := false;
      snakePositions := [];
      new;
      AddSnake();
      InitialLayout();
      label Laid:
      ghost var placed := AddFood();
      FirstFoodKeepsConsistent@Laid(placed);
    }

    /** Food placed on an empty cell of a consistent grid without food keeps it consistent. */
    twostate lemma FirstFoodKeepsConsistent(placed: Option<Position>)
      requires old(Consistent()) && !old(HasFood())
      requires unchanged(this) && Shaped()
      requires placed.Some? ==> (!OutsideGrid(placed.value) &&
        old(Grid[placed.value.Row, placed.value.Col]) == Empty)
      requires forall r, c :: 0 <= r < Rows && 0 <= c < Cols ==>
        Grid[r, c] == if placed == Some(Position(r, c)) then Food else old(Grid[r, c])
      ensures Consistent()
    {
      if placed.Some? {
        assert placed.value !in snakePositions;
      }
    }

    /** The freshly laid snake on an otherwise empty grid is consistent and leaves room for food. */
    lemma InitialLayout()
      requires Shaped() && Rows >= 1 && Cols >= 4
      requires snakePositions == [Position(Rows / 2, 3), Position(Rows / 2, 2), Position(Rows / 2, 1)]
      requires forall r, c :: 0 <= r < Rows && 0 <= c < Cols ==>
        Grid[r, c] == if r == Rows / 2 && 1 <= c <= 3 then Snake else Empty
      ensures Consistent() && Chain(snakePositions) && !HasFood() && HasEmpty()
    {
      var m := Rows / 2;
      assert snakePositions[1..] == [Position(m, 2), Position(m, 1)];
      assert snakePositions[1..][1..] == [Position(m, 1)];
      assert Distinct([Position(m, 1)]) by {
        assert [Position(m, 1)][1..] == [];
      }
      assert Grid[m, 0] == Empty;
    }

    /** Lays a three-cell snake on the middle row, columns 1 to 3, head at column 3. */
    method AddSnake()
      requires Shaped() && Rows >= 1 && Cols >= 4
      modifies this`snakePositions, Grid
      ensures snakePositions ==
        [Position(Rows / 2, 3), Position(Rows / 2, 2), Position(Rows / 2, 1)] + old(snakePositions)
      ensures forall r, c :: 0 <= r < Rows && 0 <= c < Cols ==>
        Grid[r, c] == if r == Rows / 2 && 1 <= c <= 3 then Snake else old(Grid[r, c])
    {
      var middleRow := Rows / 2;
      for col := 1 to 4
        invariant |snakePositions| == col - 1 + |old(snakePositions)|
        invariant forall i :: 0 <= i < col - 1 ==> snakePositions[i] == Position(middleRow, col - 1 - i)
        invariant snakePositions[col - 1..] == old(snakePositions)
        invariant forall r, c :: 0 <= r < Rows && 0 <= c < Cols ==>
          Grid[r, c] == if r == middleRow && 1 <= c < col then Snake else old(Grid[r, c])
      {
        Grid[middleRow, col] := Snake;
        snakePositions := [Position(middleRow, col)] + snakePositions;
      }
    }

    /** The empty cells, each once, in row-major order. */
    method EmptyPositions() returns (empties: seq<Position>)
      requires Shaped()
      ensures forall p :: p in empties <==> !OutsideGrid(p) && Grid[p.Row, p.Col] == Empty
      ensures forall i, j :: 0 <= i < j < |empties| ==> RowMajorBefore(empties[i], empties[j])
    {
      empties := [];
      var row := 0;
      while row < Rows
        invariant 0 <= row <= Rows
        invariant forall p :: p in empties <==>
          0 <= p.Row < row && 0 <= p.Col < Cols && Grid[p.Row, p.Col] == Empty
        invariant forall i, j :: 0 <= i < j < |empties| ==> RowMajorBefore(empties[i], empties[j])
        invariant forall i :: 0 <= i < |empties| ==> RowMajorBefore(empties[i], Position(row, 0))
      {
        var col := 0;
        while col < Cols
          invariant 0 <= col <= Cols
          invariant forall p :: p in empties <==>
            0 <= p.Row && 0 <= p.Col < Cols && (p.Row < row || (p.Row == row && p.Col < col)) &&
            Grid[p.Row, p.Col] == Empty
          invariant forall i, j :: 0 <= i < j < |empties| ==> RowMajorBefore(empties[i], empties[j])
          invariant forall i :: 0 <= i < |empties| ==> RowMajorBefore(empties[i], Position(row, col))
        {
          if Grid[row, col] == Empty {
            empties := empties + [Position(row, col)];
          }
          col := col + 1;
        }
        row := row + 1;
      }
    }

    /**
     * Puts food on an arbitrary empty cell; a full
     * grid is left as it is.
     */
    method AddFood() returns (ghost placed: Option<Position>)
      requires Shaped()
      modifies Grid
      ensures placed.None? <==> !old(HasEmpty())
      ensures placed.Some? ==> (!OutsideGrid(placed.value) &&
        old(Grid[placed.value.Row, placed.value.Col]) == Empty)
      ensures forall r, c :: 0 <= r < Rows && 0 <= c < Cols ==>
        Grid[r, c] == if placed == Some(Position(r, c)) then Food else old(Grid[r, c])
      ensures HasFood() || !HasEmpty()
    {
      placed := None;
      var empties := EmptyPositions();
      if |empties| == 0 {
        assert !HasEmpty() by {
          forall r, c | 0 <= r < Rows && 0 <= c < Cols ensures Grid[r, c] != Empty {
            assert Position(r, c) !in empties;
          }
        }
        return;
      }
      var i :| 0 <= i < |empties|;
      var pos := empties[i];
      Grid[pos.Row, pos.Col] := Food;
      placed := Some(pos);
      assert Grid[pos.Row, pos.Col] == Food;
    }

    /** The head: in a valid state an in-grid Snake cell that no other segment occupies. */
    function HeadPosition(): (p: Position)
      reads this, Grid
      requires |snakePositions| > 0
      ensures Valid() ==> !OutsideGrid(p) && Grid[p.Row, p.Col] == Snake && p !in snakePositions[1..]
    {
      snakePositions[0]
    }

    /** The tail: in a valid state an in-grid Snake cell, and in a repeat-free body the only segment there. */
    function TailPosition(): (p: Position)
      reads this, Grid
      requires |snakePositions| > 0
      ensures Valid() ==> !OutsideGrid(p) && Grid[p.Row, p.Col] == Snake
      ensures Distinct(snakePositions) ==> p !in snakePositions[..|snakePositions| - 1]
    {
      DistinctTail(snakePositions);
      snakePositions[|snakePositions| - 1]
    }

    /** The body, head first; in a valid state it is the set of Snake cells, without repeats. */
    function SnakePositions(): (s: seq<Position>)
      reads this, Grid
      ensures Valid() ==> |s| >= 3 && Distinct(s) && Chain(s)
      ensures Valid() ==> forall i :: 0 <= i < |s| ==> !OutsideGrid(s[i]) && Grid[s[i].Row, s[i].Col] == Snake
    {
      snakePositions
    }

    method AddHead(pos: Position)
      requires Shaped() && !OutsideGrid(pos)
      modifies this`snakePositions, Grid
      ensures snakePositions == [pos] + old(snakePositions)
      ensures forall r, c :: 0 <= r < Rows && 0 <= c < Cols ==>
        Grid[r, c] == if Position(r, c) == pos then Snake else old(Grid[r, c])
    {
      snakePositions := [pos] + snakePositions;
      Grid[pos.Row, pos.Col] := Snake;
    }

    method RemoveTail()
      requires Shaped() && |snakePositions| > 0 && !OutsideGrid(TailPosition())
      modifies this`snakePositions, Grid
      ensures snakePositions == old(snakePositions[..|snakePositions| - 1])
      ensures forall r, c :: 0 <= r < Rows && 0 <= c < Cols ==>
        Grid[r, c] == if Position(r, c) == old(TailPosition()) then Empty else old(Grid[r, c])
    {
      var tail := snakePositions[|snakePositions| - 1];
      Grid[tail.Row, tail.Col] := Empty;
      snakePositions := snakePositions[..|snakePositions| - 1];
    }

    /** Overwrites the heading; nothing else changes. */
    method ChangeDirection(dir: Direction)
      modifies this`Dir
      ensures Dir == dir
      ensures old(Valid()) ==> Valid()
    {
      Dir := dir;
    }

    /**
     * What the head would run into at `newHeadPos`: Outside off the grid, Empty on
     * the current tail (it moves away in the same tick), otherwise the cell's content.
     */
    function WillHit(newHeadPos: Position): (hit: GridValue)
      reads this, Grid
      requires Shaped() && |snakePositions| > 0
      ensures OutsideGrid(newHeadPos) ==> hit == Outside
      ensures !OutsideGrid(newHeadPos) && newHeadPos == TailPosition() ==> hit == Empty
      ensures Consistent() ==> (hit == Outside <==> OutsideGrid(newHeadPos))
      ensures Consistent() ==>
        (hit == Snake <==> newHeadPos in snakePositions[..|snakePositions| - 1])
      ensures Consistent() && hit == Food ==>
        newHeadPos !in snakePositions && Grid[newHeadPos.Row, newHeadPos.Col] == Food
      ensures Consistent() && hit == Empty ==>
        newHeadPos !in snakePositions[..|snakePositions| - 1] &&
        (Grid[newHeadPos.Row, newHeadPos.Col] == Empty || newHeadPos == TailPosition())
    {
      DistinctTail(snakePositions);
      if OutsideGrid(newHeadPos) then
        Outside
      else if newHeadPos == TailPosition() then
        Empty
      else
        Grid[newHeadPos.Row, newHeadPos.Col]
    }

    /** Advances the game one tick in the current heading. */
    method Move()
      requires Valid()
      modifies this`snakePositions, this`Score, this`GameOver, Grid
      ensures Valid()
      ensures Score >= old(Score) && (old(GameOver) ==> GameOver)
      ensures var nh := old(HeadPosition().Translate(Dir));
        var hit := old(WillHit(nh));
        hit == Outside || hit == Snake ==>
          GameOver && Score == old(Score) && snakePositions == old(snakePositions) &&
          forall r, c :: 0 <= r < Rows && 0 <= c < Cols ==> Grid[r, c] == old(Grid[r, c])
      ensures var nh := old(HeadPosition().Translate(Dir));
        var tail := old(TailPosition());
        old(WillHit(nh)) == Empty ==>
          GameOver == old(GameOver) && Score == old(Score) &&
          snakePositions == [nh] + old(snakePositions[..|snakePositions| - 1]) &&
          forall r, c :: 0 <= r < Rows && 0 <= c < Cols ==>
            Grid[r, c] == (if Position(r, c) == nh then Snake
                           else if Position(r, c) == tail then Empty
                           else old(Grid[r, c]))
      ensures var nh := old(HeadPosition().Translate(Dir));
        old(WillHit(nh)) == Food ==>
          GameOver == old(GameOver) && Score == old(Score) + 1 &&
          snakePositions == [nh] + old(snakePositions) &&
          Grid[nh.Row, nh.Col] == Snake &&
          forall r, c :: (0 <= r < Rows && 0 <= c < Cols && Position(r, c) != nh &&
            Grid[r, c] != old(Grid[r, c])) ==> old(Grid[r, c]) == Empty && Grid[r, c] == Food
    {
      var newHeadPos := HeadPosition().Translate(Dir);
      var hit := WillHit(newHeadPos);

      if hit == Outside || hit == Snake {
        GameOver := true;
      } else if hit == Empty {
        RemoveTail();
        AddHead(newHeadPos);
        SlideKeepsValid(newHeadPos);
      } else if hit == Food {
        AddHead(newHeadPos);
        Score := Score + 1;
        ghost var placed := AddFood();
        GrowKeepsValid(placed);
      }
    }

    /** The state after sliding onto an empty cell (or the tail) is again valid. */
    twostate lemma SlideKeepsValid(nh: Position)
      requires old(Valid()) && old(WillHit(nh)) == Empty && Adjacent(old(HeadPosition()), nh)
      requires Shaped() && Score == old(Score)
      requires snakePositions == [nh] + old(snakePositions[..|snakePositions| - 1])
      requires forall r, c :: 0 <= r < Rows && 0 <= c < Cols ==>
        Grid[r, c] == (if Position(r, c) == nh then Snake
                       else if Position(r, c) == old(TailPosition()) then Empty
                       else old(Grid[r, c]))
      ensures Valid()
    {
      ghost var body := old(snakePositions);
      ghost var n := |body|;
      DistinctPrefix(body, n - 1);
      DistinctTail(body);
      assert snakePositions[1..] == body[..n - 1];
      forall r, c | 0 <= r < Rows && 0 <= c < Cols
        ensures Grid[r, c] == Snake <==> Position(r, c) in snakePositions
      {
        if Position(r, c) != nh && Position(r, c) != body[n - 1] {
          assert Position(r, c) in body <==> Position(r, c) in body[..n - 1] by {
            assert body == body[..n - 1] + [body[n - 1]];
          }
        }
      }
      assert Consistent();
      SlideKeepsChain(body, nh);
      if old(HasFood()) {
        var fr, fc :| 0 <= fr < Rows && 0 <= fc < Cols && old(Grid[fr, fc]) == Food;
        assert Grid[fr, fc] == Food;
      } else {
        assert nh == old(TailPosition());
        assert !HasEmpty() by {
          forall r, c | 0 <= r < Rows && 0 <= c < Cols ensures Grid[r, c] != Empty {
            assert Grid[r, c] == old(Grid[r, c]);
          }
        }
      }
    }

    /** The state after eating and placing new food is again valid; the new head is the cell eaten. */
    twostate lemma GrowKeepsValid(placed: Option<Position>)
      requires old(Valid()) && Shaped() && |snakePositions| > 0
      requires var nh := HeadPosition(); old(WillHit(nh)) == Food && Adjacent(old(HeadPosition()), nh)
      requires Score == old(Score) + 1 && snakePositions[1..] == old(snakePositions)
      requires placed.Some? ==> (!OutsideGrid(placed.value) && placed.value != HeadPosition() &&
        old(Grid[placed.value.Row, placed.value.Col]) == Empty)
      requires forall r, c :: 0 <= r < Rows && 0 <= c < Cols && Position(r, c) != HeadPosition() ==>
        placed.Some? || old(Grid[r, c]) != Empty
      requires forall r, c :: 0 <= r < Rows && 0 <= c < Cols ==>
        Grid[r, c] == (if placed == Some(Position(r, c)) then Food
                       else if Position(r, c) == HeadPosition() then Snake
                       else old(Grid[r, c]))
      ensures Valid()
    {
      ghost var nh := HeadPosition();
      assert snakePositions == [nh] + old(snakePositions);
      ghost var body := old(snakePositions);
      assert snakePositions[1..] == body;
      assert nh !in body;
      assert old(Grid[nh.Row, nh.Col]) == Food;
      assert forall r, c :: 0 <= r < Rows && 0 <= c < Cols && old(Grid[r, c]) == Food ==>
        r == nh.Row && c == nh.Col;
      assert Consistent();
      GrowKeepsChain(body, nh);
      if placed.Some? {
        assert Grid[placed.value.Row, placed.value.Col] == Food;
      } else {
        assert !HasEmpty() by {
          forall r, c | 0 <= r < Rows && 0 <= c < Cols ensures Grid[r, c] != Empty {
          }
        }
      }
    }

    /** A consistent grid has exactly as many Snake cells as the body has segments. */
    lemma SnakeCellCount()
      requires Consistent()
      ensures |SnakeCells()| == |snakePositions|
    {
      assert SnakeCells() == Elements(snakePositions);
      DistinctCellCount(snakePositions);
    }

    /**
     * The score never exceeds the number of cells not taken by the initial body,
     * so the 32-bit increment cannot wrap on any grid with fewer than 2^31 cells.
     */
    lemma ScoreBounded()
      requires Valid()
      ensures Score <= Rows * Cols - 3
    {
      DistinctCellCount(snakePositions);
      GridCellCount(Rows, Cols);
      ghost var body := Elements(snakePositions);
      ghost var all := GridCells(Rows, Cols);
      assert body <= all by {
        forall p | p in body ensures p in all {
          var i :| 0 <= i < |snakePositions| && snakePositions[i] == p;
          assert !OutsideGrid(snakePositions[i]);
        }
      }
      assert all == body + (all - body);
    }

    /**
     * Moving onto the current tail is possible only for a body of even length, so
     * never on the initial three-cell snake.
     */
    lemma TailExceptionNeedsEvenLength()
      requires Valid()
      requires HeadPosition().Translate(Dir) == TailPosition()
      ensures |snakePositions| % 2 == 0 && |snakePositions| >= 4
    {
      HeadTouchesTailOnlyIfEven(snakePositions);
    }
  }
}
