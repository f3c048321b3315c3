/** The snake: a head-first list of cells, a target length, the current
    direction and the direction the player asked for on this frame. */
module Snakes {
  import opened Wrappers
  import opened Field

  /** The snake's fields as one value. */
  datatype SnakeState = SnakeState(
    length: int,
    positions: seq<Cell>,
    direction: Direction,
    nextDirection: Option<Direction>)

  /** The centre cell of the screen, where every snake starts. */
  const StartCell: Cell := ((ScreenWidth / 2 / GridSize) * GridSize,
                            (ScreenHeight / 2 / GridSize) * GridSize)

  /** The state the constructor builds and `reset` restores. */
  function Initial(): (s: SnakeState)
    ensures s.length == 1 && s.positions == [(320, 240)]
    ensures s.direction == Right && s.nextDirection == None
  {
    SnakeState(1, [StartCell], Right, None)
  }

  /** What holds between frames: at least one segment, never more segments
      than the target length, and every segment on a grid cell. */
  predicate Invariant(s: SnakeState)
  {
    1 <= |s.positions| <= s.length &&
    forall i :: 0 <= i < |s.positions| ==> OnGrid(s.positions[i])
  }

  lemma InitialInvariant()
    ensures Invariant(Initial())
  {
  }

  function Head(s: SnakeState): Cell
    requires s.positions != []
  {
    s.positions[0]
  }

  /** Applying the requested direction: the request is always consumed, and it
      becomes the direction unless it points straight back. */
  function Latched(s: SnakeState): (r: SnakeState)
    ensures r.nextDirection == None
    ensures r.length == s.length && r.positions == s.positions
    ensures s.nextDirection.Some? && s.nextDirection.value != Opposite(s.direction) ==>
              r.direction == s.nextDirection.value
    ensures s.nextDirection.None? || s.nextDirection.value == Opposite(s.direction) ==>
              r.direction == s.direction
  {
    match s.nextDirection
    case None => s
    case Some(requested) =>
      ReversalIsOpposite(requested, s.direction);
      if IsReversal(requested, s.direction) then s.(nextDirection := None)
      else s.(direction := requested, nextDirection := None)
  }

  /** One step forward: the wrapped next cell goes in front of the old
      segments, and the last segment is dropped when the list would otherwise
      be longer than the target length. */
  function Moved(s: SnakeState): (r: SnakeState)
    requires s.positions != []
    ensures r.length == s.length && r.direction == s.direction
    ensures r.nextDirection == s.nextDirection
    ensures r.positions != [] && r.positions[0] == NextHead(Head(s), s.direction)
    ensures r.positions[1..] <= s.positions
    ensures |r.positions| == |s.positions| + 1 <==> |s.positions| + 1 <= s.length
    ensures |r.positions| == |s.positions| <==> |s.positions| + 1 > s.length
  {
    var grown := [NextHead(Head(s), s.direction)] + s.positions;
    if |grown| > s.length then s.(positions := grown[..|grown| - 1])
    else s.(positions := grown)
  }

  /** A step keeps the invariant, and with a full list the number of
      segments stays the same. */
  lemma MovedInvariant(s: SnakeState)
    requires Invariant(s)
    ensures Invariant(Moved(s))
    ensures |Moved(s).positions| == if |s.positions| < s.length then |s.positions| + 1
                                    else |s.positions|
  {
    NextHeadIsModular(Head(s), s.direction);
  }

  /** Growing the target length by one never breaks the invariant. */
  lemma GrownInvariant(s: SnakeState)
    requires Invariant(s)
    ensures Invariant(s.(length := s.length + 1))
  {
  }

  /** The snake object, updated in place once per frame. */
  class Snake {
    var length: int
    var positions: seq<Cell>
    var direction: Direction
    var nextDirection: Option<Direction>

    function Model(): SnakeState
      reads this
    {
      SnakeState(length, positions, direction, nextDirection)
    }

    predicate Valid()
      reads this
    {
      Invariant(Model())
    }

    /** A new snake: one segment in the centre, heading right, no request. */
    constructor ()
      ensures Model() == Initial() && Valid()
    {
      length := 1;
      positions := [StartCell];
      direction := Right;
      nextDirection := None;
    }

    method HeadPosition() returns (head: Cell)
      requires positions != []
      ensures head == Head(Model())
    {
      head := positions[0];
    }

    method UpdateDirection()
      modifies this
      ensures Model() == Latched(old(Model()))
      ensures nextDirection == None
      ensures old(nextDirection).Some? && old(nextDirection).value != Opposite(old(direction)) ==>
                direction == old(nextDirection).value
      ensures old(nextDirection).None? || old(nextDirection).value == Opposite(old(direction)) ==>
                direction == old(direction)
    {
      if nextDirection == None {
        return;
      }
      var requested := nextDirection.value;
      if IsReversal(requested, direction) {
        nextDirection := None;
        return;
      }
      direction := requested;
      nextDirection := None;
    }

    method Move()
      requires positions != []
      modifies this
      ensures Model() == Moved(old(Model()))
      ensures positions[0] == NextHead(old(positions[0]), direction)
      ensures positions[1..] <= old(positions)
      ensures length == old(length) && direction == old(direction)
      ensures nextDirection == old(nextDirection)
      ensures old(Valid()) ==> Valid()
    {
      ghost var before := Model();
      var head := HeadPosition();
      var (dx, dy) := Delta(direction);
      var newX := head.0 + dx * GridSize;
      var newY := head.1 + dy * GridSize;

      if newX < 0 {
        newX := ScreenWidth - GridSize;
      } else if newX >= ScreenWidth {
        newX := 0;
      }
      if newY < 0 {
        newY := ScreenHeight - GridSize;
      } else if newY >= ScreenHeight {
        newY := 0;
      }
      var newHead := (newX, newY);
      assert newHead == NextHead(head, direction);

      positions := [newHead] + positions;
      if |positions| > length {
        positions := positions[..|positions| - 1];
      }
      if Invariant(before) {
        MovedInvariant(before);
      }
    }

    method Reset()
      modifies this
      ensures Model() == Initial() && Valid()
    {
      length := 1;
      positions := [StartCell];
      direction := Right;
      nextDirection := None;
    }
  }
}
