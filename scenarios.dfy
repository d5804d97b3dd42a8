/** Concrete runs of the engine that follow from the contracts alone. */
module SnakeScenarios {
  import opened SnakeTypes
  import opened SnakeEngine

  /**
   * Turning straight back on a fresh game is fatal: the engine does not reject a
   * reversal, and the head then runs into the segment behind it.
   */
  method ReversalIsFatal() returns (g: GameState)
    ensures g.GameOver && g.Score == 0
    ensures g.SnakePositions() == [Position(2, 3), Position(2, 2), Position(2, 1)]
  {
    g := new GameState(5, 5);
    g.ChangeDirection(Left);
    g.Move();
  }

  /**
   * On a fresh 1 by 4 grid the only free cell is column 0, so the food lies there and
   * the first move to the right runs off the grid.
   */
  method FirstMoveOffNarrowGrid() returns (g: GameState)
    ensures g.GameOver && g.Score == 0
    ensures g.Shaped() && g.Rows == 1 && g.Cols == 4 && g.Grid[0, 0] == Food
  {
    g := new GameState(1, 4);
    g.Move();
  }

  /**
   * A fatal move changes only the game-over flag, so another move with the same
   * heading reaches the same verdict and leaves the body and score as they were.
   */
  method FatalMoveRepeats() returns (g: GameState)
    ensures g.GameOver && g.Score == 0
    ensures g.SnakePositions() == [Position(2, 3), Position(2, 2), Position(2, 1)]
  {
    g := new GameState(5, 5);
    g.ChangeDirection(Left);
    g.Move();
    g.Move();
  }

  /**
   * The engine does not check the game-over flag: after a fatal reversal, turning
   * Up and moving still advances the head to the free cell above it.
   */
  method TurnAfterGameOverStillMoves() returns (g: GameState)
    ensures g.GameOver
    ensures |g.SnakePositions()| >= 3 && g.SnakePositions()[0] == Position(1, 3)
  {
    g := new GameState(5, 5);
    g.ChangeDirection(Left);
    g.Move();
    TurnUpAndMove(g);
  }

  /** From the body (2,3), (2,2), (2,1) on a 5 by 5 grid, a move Up puts the head on (1,3). */
  method TurnUpAndMove(g: GameState)
    requires g.Valid() && g.Rows == 5 && g.Cols == 5
    requires g.SnakePositions() == [Position(2, 3), Position(2, 2), Position(2, 1)]
    modifies g, g.Grid
    ensures g.GameOver == old(g.GameOver)
    ensures |g.SnakePositions()| >= 3 && g.SnakePositions()[0] == Position(1, 3)
  {
    g.ChangeDirection(Up);
    var target := g.HeadPosition().Translate(g.Dir);
    assert target == Position(1, 3);
    var hit := g.WillHit(target);
    assert hit == Empty || hit == Food;
    g.Move();
  }
}
