/** Value types of the snake engine: headings, grid positions and cell contents. */
module SnakeTypes {

  /** The heading of the snake; each one is a unit step in row or column. */
  datatype Direction = Up | Down | Left | Right {

    function RowOffset(): (r: int)
      ensures -1 <= r <= 1
      ensures r != 0 <==> this == Up || this == Down
    {
      match this
      case Up => -1
      case Down => 1
      case Left => 0
      case Right => 0
    }

    function ColOffset(): (r: int)
      ensures -1 <= r <= 1
      ensures r != 0 <==> this == Left || this == Right
    {
      match this
      case Up => 0
      case Down => 0
      case Left => -1
      case Right => 1
    }
  }

  datatype Option<T> = None | Some(value: T)

  /** What a grid cell holds. Outside is never stored: it is only a collision verdict. */
  datatype GridValue = Empty | Snake | Food | Outside

  function Abs(x: int): (r: int) { if x < 0 then -x else x }

  /** A grid cell, compared structurally. */
  datatype Position = Position(Row: int, Col: int) {

    /** The neighbouring cell one step towards `dir`. */
    function Translate(dir: Direction): (r: Position)
      ensures Adjacent(this, r)
    {
      Position(Row + dir.RowOffset(), Col + dir.ColOffset())
    }
  }

  /** Cells that share an edge. */
  predicate Adjacent(a: Position, b: Position) {
    Abs(a.Row - b.Row) + Abs(a.Col - b.Col) == 1
  }

  /** The colour of a cell on a chequerboard colouring of the grid. */
  function Parity(p: Position): (r: int)
    ensures r == 0 || r == 1
  {
    (p.Row + p.Col) % 2
  }

  lemma AdjacentFlipsParity(a: Position, b: Position)
    requires Adjacent(a, b)
    ensures Parity(a) != Parity(b)
  {
  }
}
