/** Integer grid cells and the four unit headings of the snake. */
module Grid {

  /** A cell of the n_rows x n_rows board. Cells are values: equality is componentwise. */
  datatype Pos = Pos(x: int, y: int)

  function Add(p: Pos, q: Pos): Pos {
    Pos(p.x + q.x, p.y + q.y)
  }

  function Neg(p: Pos): Pos {
    Pos(-p.x, -p.y)
  }

  // Screen coordinates: y grows downwards.
  const DirUp := Pos(0, -1)
  const DirDown := Pos(0, 1)
  const DirLeft := Pos(-1, 0)
  const DirRight := Pos(1, 0)

  /** One of the four unit vectors the snake can head in. */
  predicate IsDirection(d: Pos) {
    d == DirUp || d == DirDown || d == DirLeft || d == DirRight
  }
}
