/**
 * The game handler's state machine: one tick of main_loop (steer, move,
 * eat and respawn the snack, then the loss and win checks), specified as a
 * function on game snapshots and performed in place by GameHandler.Tick.
 */
module Game {
  import opened Grid
  import opened SnakeModel
  import opened Board

  /** The default cap of add_random_snack. */
  const MaxSnackTries: nat := 1000000

  /** PlacementFailed: the snack could not be respawned within the cap. */
  datatype Status = Playing | Lost | Won | PlacementFailed

  /** What a tick reads and writes: the snake's body and heading, the snack, the status. */
  datatype World = World(body: seq<Pos>, heading: Pos, snack: Pos, status: Status)

  /** The snake length that wins: every interior cell. */
  function WinLength(nRows: int): int {
    (nRows - 2) * (nRows - 2)
  }

  /** The terminal checks of a tick: loss (outside or overlapping) is decided
      before the win by length. */
  function Verdict(nRows: int, body: seq<Pos>): (s: Status)
    requires |body| >= 1
    ensures s != PlacementFailed
    ensures s == Lost <==> !InInterior(body[0], nRows) || Overlaps(body)
    ensures s == Won ==> InInterior(body[0], nRows) && !Overlaps(body) && |body| >= WinLength(nRows)
    ensures s == Playing ==> InInterior(body[0], nRows) && !Overlaps(body) && |body| < WinLength(nRows)
  {
    if IsOutside(body[0], nRows) || Overlaps(body) then Lost
    else if |body| >= WinLength(nRows) then Won
    else Playing
  }

  /** One pass of the main_loop body on a snapshot, with the tick's key
      presses and the candidate snack draws as inputs. The new head lands in
      front of the whole old body when it reaches the snack, in front of all
      but the old tail otherwise; the status is the placement failure or
      else the verdict on the new body. */
  function Step(nRows: int, w: World, keys: seq<Key>, draws: seq<Pos>, maxTries: nat): (r: World)
    requires |w.body| >= 1 && |draws| >= maxTries
    ensures r.heading == SteerAll(w.heading, keys)
    ensures var head := Add(w.body[0], r.heading);
            && (head == w.snack ==> r.body == [head] + w.body)
            && (head != w.snack ==> r.body == [head] + w.body[..|w.body| - 1] && r.snack == w.snack)
    ensures r.status == PlacementFailed <==>
              |r.body| == |w.body| + 1 && forall j :: 0 <= j < maxTries ==> draws[j] in r.body
    ensures r.status == PlacementFailed ==> r.snack == w.snack
    ensures r.status != PlacementFailed ==> r.status == Verdict(nRows, r.body)
    ensures var head := Add(w.body[0], r.heading);
            head == w.snack && r.status != PlacementFailed ==>
              && r.snack == CappedPlacement(r.body, draws, maxTries).snack
              && r.snack !in r.body
              && r.snack in draws[..maxTries]
  {
    var heading := SteerAll(w.heading, keys);
    var moved := Advanced(w.body, heading);
    if moved[0] == w.snack then
      var grown := moved + [w.body[|w.body| - 1]];
      AdvanceThenGrow(w.body, heading);
      match CappedPlacement(grown, draws, maxTries)
      case Placed(p) => World(grown, heading, p, Verdict(nRows, grown))
      case _ => World(grown, heading, w.snack, PlacementFailed)
    else
      World(moved, heading, w.snack, Verdict(nRows, moved))
  }

  /** The snapshot right after construction: a one-node snake in the middle
      of the board heading right, and a snack off the snake. */
  function Initial(nRows: int, draws: seq<Pos>, maxTries: nat): (r: World)
    requires nRows % 2 == 0 && |draws| >= maxTries
    ensures r.body == [Pos(nRows / 2, nRows / 2)] && r.heading == DirRight
    ensures r.status == Playing || r.status == PlacementFailed
    ensures r.status == Playing <==> exists j :: 0 <= j < maxTries && draws[j] != Pos(nRows / 2, nRows / 2)
    ensures r.status == Playing ==> r.snack == CappedPlacement(r.body, draws, maxTries).snack
    ensures r.status == Playing ==> r.snack !in r.body && r.snack in draws[..maxTries]
  {
    var body := [Pos(nRows / 2, nRows / 2)];
    match CappedPlacement(body, draws, maxTries)
    case Placed(p) => World(body, DirRight, p, Playing)
    case _ => World(body, DirRight, Pos(0, 0), PlacementFailed)
  }

  /** The game invariant between ticks: the snake is inside and never crosses
      itself, the snack is inside and off the snake, and the board is not full. */
  ghost predicate Inv(nRows: int, w: World) {
    && nRows >= 3
    && w.status == Playing
    && |w.body| >= 1
    && IsDirection(w.heading)
    && Distinct(w.body)
    && AllInterior(w.body, nRows)
    && InInterior(w.snack, nRows)
    && w.snack !in w.body
    && |w.body| < WinLength(nRows)
  }

  /** The start cell of an even board is interior, and the board holds at least four interior cells. */
  lemma CentreStart(nRows: int)
    requires nRows >= 4 && nRows % 2 == 0
    ensures InInterior(Pos(nRows / 2, nRows / 2), nRows)
    ensures WinLength(nRows) >= 4
  {
    var m := nRows - 2;
    assert m * m >= 2 * m by {
      assert m >= 2;
    }
  }

  lemma InitialInvariant(nRows: int, draws: seq<Pos>, maxTries: nat)
    requires nRows >= 4 && nRows % 2 == 0
    requires AllInterior(draws, nRows) && |draws| >= maxTries
    ensures var w := Initial(nRows, draws, maxTries);
            w.status == Playing ==> Inv(nRows, w)
  {
    var w := Initial(nRows, draws, maxTries);
    if w.status == Playing {
      CentreStart(nRows);
      var j :| 0 <= j < maxTries && draws[j] == w.snack;
      assert InInterior(draws[j], nRows);
    }
  }

  /** A tick that keeps playing keeps the invariant. */
  lemma StepKeepsInvariant(nRows: int, w: World, keys: seq<Key>, draws: seq<Pos>, maxTries: nat)
    requires Inv(nRows, w)
    requires AllInterior(draws, nRows) && |draws| >= maxTries
    ensures var r := Step(nRows, w, keys, draws, maxTries);
            r.status == Playing ==> Inv(nRows, r)
  {
    var r := Step(nRows, w, keys, draws, maxTries);
    if r.status == Playing {
      var head := r.body[0];
      assert InInterior(head, nRows) && !Overlaps(r.body);
      assert forall i :: 1 <= i < |r.body| ==> r.body[i] in w.body;
      assert Distinct(r.body) by {
        forall i, j | 0 <= i < j < |r.body| ensures r.body[i] != r.body[j] {
          if i > 0 {
            assert r.body[i] == w.body[i - 1] && r.body[j] == w.body[j - 1];
          }
        }
      }
    }
  }

  /** From any state satisfying the invariant, a tick never reports a win:
      the growth that fills the board leaves no free cell for the snack. */
  lemma WinUnreachable(nRows: int, w: World, keys: seq<Key>, draws: seq<Pos>, maxTries: nat)
    requires Inv(nRows, w)
    requires AllInterior(draws, nRows) && |draws| >= maxTries
    ensures Step(nRows, w, keys, draws, maxTries).status != Won
  {
    var r := Step(nRows, w, keys, draws, maxTries);
    var head := Add(w.body[0], SteerAll(w.heading, keys));
    if head == w.snack && |r.body| >= WinLength(nRows) {
      assert r.body == [head] + w.body;
      assert AllInterior(r.body, nRows);
      assert Distinct(r.body) by {
        forall i, j | 0 <= i < j < |r.body| ensures r.body[i] != r.body[j] {
          if i > 0 {
            assert r.body[i] == w.body[i - 1] && r.body[j] == w.body[j - 1];
          } else {
            assert r.body[j] in w.body;
          }
        }
      }
      FullBoard(nRows, r.body);
      FullBoardRejectsAll(nRows, r.body, draws[..maxTries]);
    }
  }

  /** Starting in the middle of a 6 x 6 board heading right with no key
      presses, the second tick puts the head on the border column and loses. */
  lemma BorderScenario()
    ensures var w0 := World([Pos(3, 3)], DirRight, Pos(1, 1), Playing);
            var w1 := Step(6, w0, [], [], 0);
            && w1 == World([Pos(4, 3)], DirRight, Pos(1, 1), Playing)
            && Step(6, w1, [], [], 0).status == Lost
  {
    assert SteerAll(DirRight, []) == DirRight;
    assert Advanced([Pos(3, 3)], DirRight) == [Pos(4, 3)];
    assert Verdict(6, [Pos(4, 3)]) == Playing;
    assert Advanced([Pos(4, 3)], DirRight) == [Pos(5, 3)];
    assert Verdict(6, [Pos(5, 3)]) == Lost;
  }

  /** The one game object: the snake, the snack and the tick loop's outcome. */
  class GameHandler {
    const nRows: int
    var snake: Snake
    var snack: Pos
    var status: Status

    ghost predicate Valid()
      reads this, snake
    {
      nRows >= 3 && snake.Valid()
    }

    function State(): World
      reads this, snake
    {
      World(snake.nodes, snake.heading, snack, status)
    }

    /** A one-node snake in the middle of the board and a first snack. */
    constructor (nRows: int, draws: seq<Pos>)
      requires nRows >= 4 && nRows % 2 == 0
      requires AllInterior(draws, nRows) && |draws| >= MaxSnackTries
      ensures Valid() && fresh(snake) && this.nRows == nRows
      ensures State() == Initial(nRows, draws, MaxSnackTries)
      ensures snake.prevFreed == None
    {
      this.nRows := nRows;
      var s := new Snake(Pos(nRows / 2, nRows / 2));
      snake := s;
      var placed := AddRandomSnack(nRows, s.nodes, draws, MaxSnackTries);
      if placed.Placed? {
        snack := placed.snack;
        status := Playing;
      } else {
        snack := Pos(0, 0);
        status := PlacementFailed;
      }
    }

    /** update_events: hand each key press of the tick to key_response, in
        arrival order; only the snake's heading changes. */
    method UpdateEvents(keys: seq<Key>)
      modifies snake`heading
      ensures snake.heading == SteerAll(old(snake.heading), keys)
    {
      for i := 0 to |keys|
        invariant snake.heading == SteerAll(old(snake.heading), keys[..i])
      {
        assert keys[..i + 1][..i] == keys[..i];
        snake.KeyResponse(keys[i]);
      }
      assert keys[..|keys|] == keys;
    }

    /** One pass of main_loop: apply the key presses, move, eat and respawn
        the snack, then decide loss before win. */
    method Tick(keys: seq<Key>, draws: seq<Pos>)
      requires Valid() && status == Playing
      requires AllInterior(draws, nRows) && |draws| >= MaxSnackTries
      modifies this, snake
      ensures Valid() && snake == old(snake)
      ensures State() == Step(nRows, old(State()), keys, draws, MaxSnackTries)
      ensures snake.prevFreed == Some(old(snake.nodes)[|old(snake.nodes)| - 1])
    {
      UpdateEvents(keys);
      snake.MoveOneStep();
      if snake.Head() == snack {
        snake.Grow();
        var placed := AddRandomSnack(nRows, snake.nodes, draws, MaxSnackTries);
        if !placed.Placed? {
          status := PlacementFailed;
          return;
        }
        snack := placed.snack;
      }
      if IsOutside(snake.Head(), nRows) || Overlaps(snake.nodes) {
        status := Lost;
      } else if snake.Len() >= WinLength(nRows) {
        status := Won;
      }
    }
  }
}
