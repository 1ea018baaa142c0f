/**
 * The board rules of the game handler: the playable interior, the
 * out-of-bounds test and the rejection sampling that places the snack.
 */
module Board {
  import opened Grid
  import opened SnakeModel

  /** Rows and columns 0 and n_rows-1 are the border; only [1, n_rows-2]² is playable. */
  predicate InInterior(p: Pos, nRows: int) {
    1 <= p.x <= nRows - 2 && 1 <= p.y <= nRows - 2
  }

  predicate AllInterior(cells: seq<Pos>, nRows: int) {
    forall i :: 0 <= i < |cells| ==> InInterior(cells[i], nRows)
  }

  /** is_head_outside, on the head's cell. */
  function IsOutside(head: Pos, nRows: int): (r: bool)
    ensures r <==> head.x < 1 || head.x > nRows - 2 || head.y < 1 || head.y > nRows - 2
    ensures r <==> !InInterior(head, nRows)
  {
    !(1 <= head.x < nRows - 1 && 1 <= head.y < nRows - 1)
  }

  /** Outcome of drawing snack positions. Undecided: the supplied draws ran
      out while the loop would still draw again. */
  datatype SnackDraw = Placed(snack: Pos) | Exhausted | Undecided

  /** Index of the first draw that lies on no node; |draws| when there is none. */
  function FirstFree(nodes: seq<Pos>, draws: seq<Pos>): (k: nat)
    ensures k <= |draws|
    ensures forall j :: 0 <= j < k ==> draws[j] in nodes
    ensures k < |draws| ==> draws[k] !in nodes
  {
    if draws == [] then 0
    else if Matches(nodes, draws[0]) == 0 then 0
    else 1 + FirstFree(nodes, draws[1..])
  }

  /** The draws examined when at most `maxTries` are allowed. */
  function CappedPlacement(nodes: seq<Pos>, draws: seq<Pos>, maxTries: nat): (r: SnackDraw)
    requires |draws| >= maxTries
    ensures r != Undecided
    ensures r.Placed? <==> exists j :: 0 <= j < maxTries && draws[j] !in nodes
    ensures r.Placed? ==> r.snack !in nodes && r.snack in draws[..maxTries]
  {
    var k := FirstFree(nodes, draws[..maxTries]);
    if k < maxTries then Placed(draws[k]) else Exhausted
  }

  /** add_random_snack as written: the try counter is never incremented, so
      the cap only matters when it is zero and the loop draws until a free
      cell comes up. */
  method AddRandomSnackAsWritten(nRows: int, nodes: seq<Pos>, draws: seq<Pos>, maxTries: nat)
    returns (r: SnackDraw)
    requires nRows >= 3
    requires AllInterior(draws, nRows)
    ensures maxTries == 0 <==> r == Exhausted
    ensures maxTries > 0 ==>
      r == (var k := FirstFree(nodes, draws); if k < |draws| then Placed(draws[k]) else Undecided)
    ensures r.Placed? ==> InInterior(r.snack, nRows) && r.snack !in nodes
  {
    var nTries := 0;
    var i := 0;
    while nTries < maxTries
      invariant 0 <= i <= |draws|
      invariant forall j :: 0 <= j < i ==> draws[j] in nodes
      decreases |draws| - i
    {
      if i == |draws| {
        return Undecided;
      }
      var candidate := draws[i];
      i := i + 1;
      if Matches(nodes, candidate) == 0 {
        return Placed(candidate);
      }
    }
    return Exhausted;
  }

  /** add_random_snack with the try counter incremented on every draw: the
      first free draw among the first `maxTries`, or Exhausted. */
  method AddRandomSnack(nRows: int, nodes: seq<Pos>, draws: seq<Pos>, maxTries: nat)
    returns (r: SnackDraw)
    requires nRows >= 3
    requires AllInterior(draws, nRows) && |draws| >= maxTries
    ensures r == CappedPlacement(nodes, draws, maxTries)
    ensures r.Placed? ==> InInterior(r.snack, nRows) && r.snack !in nodes
  {
    var nTries := 0;
    while nTries < maxTries
      invariant 0 <= nTries <= maxTries
      invariant forall j :: 0 <= j < nTries ==> draws[j] in nodes
    {
      var candidate := draws[nTries];
      nTries := nTries + 1;
      if Matches(nodes, candidate) == 0 {
        assert draws[..maxTries][nTries - 1] == candidate;
        return Placed(candidate);
      }
    }
    return Exhausted;
  }

  /** When the nodes cover every interior cell, no draw is ever accepted. */
  lemma FullBoardRejectsAll(nRows: int, nodes: seq<Pos>, draws: seq<Pos>)
    requires AllInterior(draws, nRows)
    requires forall p :: InInterior(p, nRows) ==> p in nodes
    ensures FirstFree(nodes, draws) == |draws|
  {
  }

  /** On a 4 x 4 board a 3-node snake [(1,2), (1,1), (2,1)] heading right
      eats the snack on (2,2), the last free interior cell, and grows to
      cover the whole interior. As written the placement loop is still
      drawing after more rejected draws than the cap; with the counter
      incremented it reports exhaustion at the cap. */
  method FullBoardDemo() returns (asWritten: SnackDraw, corrected: SnackDraw)
    ensures asWritten == Undecided && corrected == Exhausted
  {
    var grown := Advanced([Pos(1, 2), Pos(1, 1), Pos(2, 1)], DirRight) + [Pos(2, 1)];
    assert grown == [Pos(2, 2), Pos(1, 2), Pos(1, 1), Pos(2, 1)];
    var draws := [Pos(1, 1), Pos(2, 2), Pos(1, 2), Pos(2, 1)];
    asWritten := AddRandomSnackAsWritten(4, grown, draws, 2);
    corrected := AddRandomSnack(4, grown, draws, 2);
  }

  // ---- Counting cells: a snake of (n_rows-2)² distinct interior cells fills the board.

  /** The cells of the rectangle [x0, x1) x [y0, y1). */
  ghost function Block(x0: int, x1: int, y0: int, y1: int): set<Pos> {
    set x, y | x0 <= x < x1 && y0 <= y < y1 :: Pos(x, y)
  }

  ghost function Column(x: int, y0: int, y1: int): set<Pos> {
    set y | y0 <= y < y1 :: Pos(x, y)
  }

  lemma {:induction false} ColumnSize(x: int, y0: int, y1: int)
    requires y0 <= y1
    ensures |Column(x, y0, y1)| == y1 - y0
    decreases y1 - y0
  {
    if y1 == y0 {
      assert Column(x, y0, y1) == {};
    } else {
      ColumnSize(x, y0, y1 - 1);
      assert Column(x, y0, y1) == Column(x, y0, y1 - 1) + {Pos(x, y1 - 1)};
    }
  }

  lemma {:induction false} BlockSize(x0: int, x1: int, y0: int, y1: int)
    requires x0 <= x1 && y0 <= y1
    ensures |Block(x0, x1, y0, y1)| == (x1 - x0) * (y1 - y0)
    decreases x1 - x0
  {
    if x1 == x0 {
      assert Block(x0, x1, y0, y1) == {};
    } else {
      BlockSize(x0, x1 - 1, y0, y1);
      ColumnSize(x1 - 1, y0, y1);
      assert Block(x0, x1, y0, y1) == Block(x0, x1 - 1, y0, y1) + Column(x1 - 1, y0, y1);
      assert Block(x0, x1 - 1, y0, y1) !! Column(x1 - 1, y0, y1);
      assert (x1 - x0) * (y1 - y0) == (x1 - 1 - x0) * (y1 - y0) + (y1 - y0);
    }
  }

  /** No two nodes share a cell. */
  ghost predicate Distinct(cells: seq<Pos>) {
    forall i, j :: 0 <= i < j < |cells| ==> cells[i] != cells[j]
  }

  ghost function CellSet(cells: seq<Pos>): set<Pos> {
    set p | p in cells
  }

  lemma {:induction false} DistinctCellCount(cells: seq<Pos>)
    requires Distinct(cells)
    ensures |CellSet(cells)| == |cells|
  {
    if cells != [] {
      var init := cells[..|cells| - 1];
      var last := cells[|cells| - 1];
      DistinctCellCount(init);
      assert CellSet(cells) == CellSet(init) + {last} by {
        assert cells == init + [last];
      }
      assert last !in CellSet(init);
    }
  }

  lemma {:induction false} SubsetSize(a: set<Pos>, b: set<Pos>)
    requires a <= b
    ensures |a| <= |b|
    decreases a
  {
    if a != {} {
      var p :| p in a;
      SubsetSize(a - {p}, b - {p});
    }
  }

  /** A snake of at least (n_rows-2)² distinct interior cells covers every interior cell. */
  lemma FullBoard(nRows: int, cells: seq<Pos>)
    requires nRows >= 2
    requires Distinct(cells) && AllInterior(cells, nRows)
    requires |cells| >= (nRows - 2) * (nRows - 2)
    ensures forall p :: InInterior(p, nRows) ==> p in cells
  {
    var inner := Block(1, nRows - 1, 1, nRows - 1);
    BlockSize(1, nRows - 1, 1, nRows - 1);
    DistinctCellCount(cells);
    var occupied := CellSet(cells);
    assert occupied <= inner by {
      forall p | p in occupied ensures p in inner {
        var i :| 0 <= i < |cells| && cells[i] == p;
        assert InInterior(cells[i], nRows);
      }
    }
    forall p | InInterior(p, nRows) ensures p in cells {
      if p !in cells {
        assert p in inner;
        SubsetSize(occupied, inner - {p});
        assert false;
      }
    }
  }
}
