/**
 * The snake: an ordered body of cells, head first, with a heading and the
 * cell its tail vacated on the last move. The pure functions below specify
 * the body operations; the class Snake performs them in place.
 */
module SnakeModel {
  import opened Grid

  datatype Option<T> = None | Some(value: T)

  /** A key press: the four arrow keys, and every other key as Other. */
  datatype Key = Left | Right | Up | Down | Other

  /** How many of `cells` lie on `p`: the length of the filtered node list. */
  function Matches(cells: seq<Pos>, p: Pos): (n: nat)
    ensures n <= |cells|
    ensures n == 0 <==> p !in cells
  {
    if cells == [] then 0
    else
      assert cells == [cells[0]] + cells[1..];
      (if cells[0] == p then 1 else 0) + Matches(cells[1..], p)
  }

  /** check_overlap: the head shares its cell with some other node. */
  function Overlaps(body: seq<Pos>): (r: bool)
    requires |body| >= 1
    ensures r <==> exists i :: 1 <= i < |body| && body[i] == body[0]
    ensures |body| == 1 ==> !r
  {
    Matches(body[1..], body[0]) > 0
  }

  /** The body after move_one_step: each node takes its predecessor's cell
      and the head steps by `heading`. */
  function Advanced(body: seq<Pos>, heading: Pos): (r: seq<Pos>)
    requires |body| >= 1
    ensures |r| == |body|
    ensures r[0] == Add(body[0], heading)
    ensures forall i :: 1 <= i < |r| ==> r[i] == body[i - 1]
  {
    [Add(body[0], heading)] + body[..|body| - 1]
  }

  /** A move followed by growth at the vacated tail cell puts the new head
      in front of the entire old body. */
  lemma AdvanceThenGrow(body: seq<Pos>, heading: Pos)
    requires |body| >= 1
    ensures Advanced(body, heading) + [body[|body| - 1]] == [Add(body[0], heading)] + body
  {
    assert body[..|body| - 1] + [body[|body| - 1]] == body;
  }

  /** set_direction_if_not_reverse: a request to reverse is ignored. */
  function Steered(heading: Pos, d: Pos): (r: Pos)
    ensures r == heading || r == d
    ensures d != Neg(heading) ==> r == d
    ensures heading != Pos(0, 0) ==> r != Neg(heading)
  {
    if d == Neg(heading) then heading else d
  }

  /** The direction an arrow key requests. */
  function ArrowDirection(k: Key): (d: Pos)
    requires k != Other
    ensures IsDirection(d)
  {
    match k
    case Left => DirLeft
    case Right => DirRight
    case Up => DirUp
    case Down => DirDown
  }

  /** key_response: arrow keys request their direction, other keys do nothing. */
  function KeyHeading(heading: Pos, k: Key): (r: Pos)
    ensures k == Other ==> r == heading
    ensures k != Other && ArrowDirection(k) != Neg(heading) ==> r == ArrowDirection(k)
    ensures k != Other && ArrowDirection(k) == Neg(heading) ==> r == heading
    ensures IsDirection(heading) ==> IsDirection(r) && r != Neg(heading)
  {
    if k == Other then heading
    else
      assert IsDirection(heading) ==> heading != Pos(0, 0);
      Steered(heading, ArrowDirection(k))
  }

  /** Some arrow key among `keys` requests direction `d`. */
  predicate Pressed(keys: seq<Key>, d: Pos) {
    exists i :: 0 <= i < |keys| && keys[i] != Other && ArrowDirection(keys[i]) == d
  }

  /** The heading after the key presses of one tick, applied in arrival order:
      the old heading or the direction of one of the arrow keys pressed, and
      the last key, when it is an arrow, is taken unless it asks to reverse. */
  function SteerAll(heading: Pos, keys: seq<Key>): (r: Pos)
    ensures IsDirection(heading) ==> IsDirection(r)
    ensures (forall i :: 0 <= i < |keys| ==> keys[i] == Other) ==> r == heading
    ensures r == heading || Pressed(keys, r)
    ensures |keys| > 0 && keys[|keys| - 1] != Other ==>
              r == ArrowDirection(keys[|keys| - 1]) || r == Neg(ArrowDirection(keys[|keys| - 1]))
    ensures |keys| > 0 && keys[|keys| - 1] != Other ==>
              (r == Neg(ArrowDirection(keys[|keys| - 1])) <==>
                 ArrowDirection(keys[|keys| - 1]) == Neg(SteerAll(heading, keys[..|keys| - 1])))
  {
    if keys == [] then heading
    else KeyHeading(SteerAll(heading, keys[..|keys| - 1]), keys[|keys| - 1])
  }

  /** The rule compares against the current heading only: two presses in one
      tick can turn a snake moving right into one moving left. */
  lemma TwoKeysCanReverse()
    ensures SteerAll(DirRight, [Up, Left]) == Neg(DirRight)
  {
    assert [Up, Left][..1] == [Up];
    assert [Up][..0] == [];
    assert SteerAll(DirRight, [Up]) == DirUp;
  }

  class Snake {
    var nodes: seq<Pos>
    var heading: Pos
    /** The cell the tail left on the last move; None before the first move. */
    var prevFreed: Option<Pos>

    ghost predicate Valid()
      reads this
    {
      |nodes| >= 1
    }

    constructor (start: Pos)
      ensures Valid()
      ensures nodes == [start] && heading == DirRight && prevFreed == None
    {
      nodes := [start];
      heading := DirRight;
      prevFreed := None;
    }

    /** __len__: the number of nodes, which is the score. */
    function Len(): (n: nat)
      reads this
      ensures n == |nodes|
      ensures Valid() ==> n >= 1
    {
      |nodes|
    }

    /** get_head: the first node's cell. */
    function Head(): (p: Pos)
      reads this
      requires Valid()
      ensures p == nodes[0] && p in nodes
    {
      nodes[0]
    }

    /** move_one_step: remember the tail's cell, shift every node onto its
        predecessor's cell from the tail forwards, then step the head. */
    method MoveOneStep()
      requires Valid()
      modifies this
      ensures Valid()
      ensures nodes == Advanced(old(nodes), heading)
      ensures prevFreed == Some(old(nodes)[|old(nodes)| - 1])
      ensures heading == old(heading)
    {
      prevFreed := Some(nodes[|nodes| - 1]);
      var i := |nodes| - 1;
      while i > 0
        invariant 0 <= i < |nodes| == |old(nodes)|
        invariant forall j :: 0 <= j <= i ==> nodes[j] == old(nodes)[j]
        invariant forall j :: i < j < |nodes| ==> nodes[j] == old(nodes)[j - 1]
        invariant prevFreed == Some(old(nodes)[|old(nodes)| - 1]) && heading == old(heading)
      {
        nodes := nodes[i := nodes[i - 1]];
        i := i - 1;
      }
      nodes := nodes[0 := Add(nodes[0], heading)];
    }

    /** grow: append a new tail node on the cell the last move vacated. */
    method Grow()
      requires Valid() && prevFreed.Some?
      modifies this`nodes
      ensures Valid()
      ensures nodes == old(nodes) + [prevFreed.value]
    {
      nodes := nodes + [prevFreed.value];
    }

    /** set_direction_if_not_reverse */
    method SetDirectionIfNotReverse(d: Pos)
      modifies this`heading
      ensures heading == Steered(old(heading), d)
      ensures d == Neg(old(heading)) ==> heading == old(heading)
      ensures d != Neg(old(heading)) ==> heading == d
    {
      if d != Neg(heading) {
        heading := d;
      }
    }

    /** key_response */
    method KeyResponse(k: Key)
      modifies this`heading
      ensures heading == KeyHeading(old(heading), k)
    {
      match k
      case Left => SetDirectionIfNotReverse(DirLeft);
      case Right => SetDirectionIfNotReverse(DirRight);
      case Up => SetDirectionIfNotReverse(DirUp);
      case Down => SetDirectionIfNotReverse(DirDown);
      case Other =>
    }
  }
}
