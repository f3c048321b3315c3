/** One frame of the game loop, after input: latch the requested direction,
    move, eat the apple if the head reached it, and reset on self-collision. */
module Game {
  import opened Wrappers
  import opened Field
  import opened Snakes
  import opened Apples
  import opened Input

  /** A grid column and row, as drawn by the random source. */
  type GridIndex = (int, int)

  predicate InRange(g: GridIndex)
  {
    0 <= g.0 < GridWidth && 0 <= g.1 < GridHeight
  }

  /** The apple can be relocated twice in one frame: once when eaten, once
      when the snake resets. Each relocation draws its own cell. */
  datatype Rolls = Rolls(onEat: GridIndex, onReset: GridIndex)

  predicate RollsInRange(rolls: Rolls)
  {
    InRange(rolls.onEat) && InRange(rolls.onReset)
  }

  /** Everything the frame reads and writes. */
  datatype World = World(snake: SnakeState, apple: Cell)

  predicate WorldInvariant(w: World)
  {
    Invariant(w.snake) && OnGrid(w.apple)
  }

  /** The snake after the direction latch and the step. */
  function AfterMove(w: World): SnakeState
    requires w.snake.positions != []
  {
    Moved(Latched(w.snake))
  }

  /** The head lands on the apple. */
  predicate Eats(w: World)
    requires w.snake.positions != []
  {
    Head(AfterMove(w)) == w.apple
  }

  /** The head lands on one of the other segments (growth does not move any
      segment, so this is the same before and after eating). */
  predicate Collides(w: World)
    requires w.snake.positions != []
  {
    Head(AfterMove(w)) in AfterMove(w).positions[1..]
  }

  /** The frame, in the order the game loop runs it. */
  function Ticked(w: World, rolls: Rolls): (r: World)
    requires w.snake.positions != [] && RollsInRange(rolls)
    ensures r.snake.positions != []
  {
    var moved := AfterMove(w);
    var (fed, apple) :=
      if Head(moved) == w.apple
      then (moved.(length := moved.length + 1), CellAt(rolls.onEat.0, rolls.onEat.1))
      else (moved, w.apple);
    if Head(fed) in fed.positions[1..] then World(Initial(), CellAt(rolls.onReset.0, rolls.onReset.1))
    else World(fed, apple)
  }

  /** A frame keeps the snake's invariant and keeps the apple on the grid. */
  lemma TickedInvariant(w: World, rolls: Rolls)
    requires WorldInvariant(w) && RollsInRange(rolls)
    ensures WorldInvariant(Ticked(w, rolls))
  {
    MovedInvariant(Latched(w.snake));
    GrownInvariant(AfterMove(w));
  }

  /** Eating without colliding: the target length grows by exactly one, the
      segments are those of the step, and the apple moves to the drawn cell. */
  lemma TickEats(w: World, rolls: Rolls)
    requires w.snake.positions != [] && RollsInRange(rolls)
    requires Eats(w) && !Collides(w)
    ensures Ticked(w, rolls).snake.length == w.snake.length + 1
    ensures Ticked(w, rolls).snake == AfterMove(w).(length := AfterMove(w).length + 1)
    ensures Ticked(w, rolls).apple == CellAt(rolls.onEat.0, rolls.onEat.1)
  {
  }

  /** Neither eating nor colliding: the target length and the apple stay. */
  lemma TickMisses(w: World, rolls: Rolls)
    requires w.snake.positions != [] && RollsInRange(rolls)
    requires !Eats(w) && !Collides(w)
    ensures Ticked(w, rolls).snake.length == w.snake.length
    ensures Ticked(w, rolls).snake == AfterMove(w)
    ensures Ticked(w, rolls).apple == w.apple
  {
  }

  /** Colliding resets the snake and relocates the apple, whatever the length
      and even when the apple was eaten earlier in the same frame. */
  lemma TickCollides(w: World, rolls: Rolls)
    requires w.snake.positions != [] && RollsInRange(rolls)
    requires Collides(w)
    ensures Ticked(w, rolls) == World(Initial(), CellAt(rolls.onReset.0, rolls.onReset.1))
  {
  }

  /** After a meal the next step keeps the tail, whatever keys the next frame
      handles: the list grows by one segment, because the target length grew
      before the list could catch up. */
  lemma FedSnakeKeepsTail(w: World, rolls: Rolls, events: seq<Event>)
    requires WorldInvariant(w) && RollsInRange(rolls)
    requires Eats(w) && !Collides(w)
    ensures var t := Ticked(w, rolls);
            var h := Handled(t, events);
            |AfterMove(h).positions| == |t.snake.positions| + 1 &&
            AfterMove(h).positions[1..] == t.snake.positions
  {
    var t := Ticked(w, rolls).snake;
    MovedInvariant(Latched(w.snake));
    assert |t.positions| + 1 <= t.length;
  }

  /** One pass of the game loop: the key events handled first, then the
      cells drawn for the apple in that frame. */
  datatype Frame = Frame(events: seq<Event>, rolls: Rolls)

  predicate FramesInRange(frames: seq<Frame>)
  {
    forall i :: 0 <= i < |frames| ==> RollsInRange(frames[i].rolls)
  }

  /** The world once a frame's key events are handled: only the requested
      direction can change, so every invariant survives. */
  function Handled(w: World, events: seq<Event>): (r: World)
    ensures r.apple == w.apple && r.snake.length == w.snake.length
    ensures r.snake.positions == w.snake.positions && r.snake.direction == w.snake.direction
    ensures WorldInvariant(w) ==> WorldInvariant(r)
  {
    World(w.snake.(nextDirection := Pending(BeforeQuit(events), w.snake.nextDirection)), w.apple)
  }

  /** The game loop over a finite list of frames. A frame with a quit event
      ends the program once its events are handled. */
  function Run(w: World, frames: seq<Frame>): (r: World)
    requires WorldInvariant(w) && FramesInRange(frames)
    ensures WorldInvariant(r)
    decreases |frames|
  {
    if frames == [] then w
    else
      var h := Handled(w, frames[0].events);
      if Quit in frames[0].events then h
      else
        TickedInvariant(h, frames[0].rolls);
        Run(Ticked(h, frames[0].rolls), frames[1..])
  }

  /** The number of frames of a run in which the snake eats the apple. */
  function Meals(w: World, frames: seq<Frame>): (n: nat)
    requires WorldInvariant(w) && FramesInRange(frames)
    ensures n <= |frames|
    decreases |frames|
  {
    if frames == [] || Quit in frames[0].events then 0
    else
      var h := Handled(w, frames[0].events);
      TickedInvariant(h, frames[0].rolls);
      (if Eats(h) then 1 else 0) + Meals(Ticked(h, frames[0].rolls), frames[1..])
  }

  /** No frame of the run ends in a self-collision. */
  predicate NoCollision(w: World, frames: seq<Frame>)
    requires WorldInvariant(w) && FramesInRange(frames)
    decreases |frames|
  {
    frames == [] || Quit in frames[0].events ||
    (var h := Handled(w, frames[0].events);
     !Collides(h) &&
     (TickedInvariant(h, frames[0].rolls);
      NoCollision(Ticked(h, frames[0].rolls), frames[1..])))
  }

  /** Without a self-collision, the target length at the end of a run is the
      length at its start plus the number of meals, whatever frames without a
      meal and whatever turns come between them. */
  lemma {:induction false} RunLengthCountsMeals(w: World, frames: seq<Frame>)
    requires WorldInvariant(w) && FramesInRange(frames)
    requires NoCollision(w, frames)
    ensures Run(w, frames).snake.length == w.snake.length + Meals(w, frames)
    decreases |frames|
  {
    if frames != [] && Quit !in frames[0].events {
      var h := Handled(w, frames[0].events);
      TickedInvariant(h, frames[0].rolls);
      if Eats(h) {
        TickEats(h, frames[0].rolls);
      } else {
        TickMisses(h, frames[0].rolls);
      }
      RunLengthCountsMeals(Ticked(h, frames[0].rolls), frames[1..]);
    }
  }

  /** A key pressed in a later frame turns the snake: after one frame heading
      right, the up arrow sends the head one cell up. */
  lemma RunTurnsOnKey()
    ensures var w := World(SnakeState(1, [(100, 100)], Right, None), (0, 0));
            var rolls := Rolls((0, 0), (0, 0));
            var r := Run(w, [Frame([], rolls), Frame([OtherEvent, KeyPress(ArrowUp)], rolls)]);
            r.snake.positions == [(120, 80)] && r.snake.direction == Up
  {
    var w := World(SnakeState(1, [(100, 100)], Right, None), (0, 0));
    var rolls := Rolls((0, 0), (0, 0));
    var second := Frame([OtherEvent, KeyPress(ArrowUp)], rolls);
    var frames := [Frame([], rolls), second];
    var t := Ticked(Handled(w, []), rolls);
    assert t.snake == SnakeState(1, [(120, 100)], Right, None);
    assert Run(w, frames) == Run(t, [second]);
    assert BeforeQuit(second.events) == second.events;
    assert Pending(second.events, None) == Some(Up);
    var h := Handled(t, second.events);
    assert h.snake == SnakeState(1, [(120, 100)], Right, Some(Up));
    assert Run(t, [second]) == Run(Ticked(h, rolls), []);
  }

  /** One pass of the game loop on the two objects: handle the events, and
      unless one of them quits, run the frame. */
  method RunFrame(snake: Snake, apple: Apple, events: seq<Event>, rolls: Rolls) returns (quit: bool)
    requires snake.positions != [] && RollsInRange(rolls)
    modifies snake, apple
    ensures quit <==> Quit in events
    ensures var h := Handled(old(World(snake.Model(), apple.position)), events);
            World(snake.Model(), apple.position) == if quit then h else Ticked(h, rolls)
  {
    quit := HandleKeys(snake, events);
    if !quit {
      Tick(snake, apple, rolls);
    }
  }

  /** The frame on the two objects, in the order of the game loop. */
  method Tick(snake: Snake, apple: Apple, rolls: Rolls)
    requires snake.positions != [] && RollsInRange(rolls)
    modifies snake, apple
    ensures World(snake.Model(), apple.position) ==
            Ticked(old(World(snake.Model(), apple.position)), rolls)
    ensures old(snake.Valid() && OnGrid(apple.position)) ==> snake.Valid() && OnGrid(apple.position)
  {
    ghost var before := World(snake.Model(), apple.position);
    snake.UpdateDirection();
    snake.Move();

    var head := snake.HeadPosition();
    if head == apple.position {
      snake.length := snake.length + 1;
      apple.RandomizePosition(rolls.onEat.0, rolls.onEat.1);
    }

    head := snake.HeadPosition();
    if head in snake.positions[1..] {
      snake.Reset();
      apple.RandomizePosition(rolls.onReset.0, rolls.onReset.1);
    }
    if WorldInvariant(before) {
      TickedInvariant(before, rolls);
    }
  }

  /** Nothing keeps the apple off the snake: here the apple is eaten and the
      new one is drawn on the segment just behind the head. */
  lemma AppleMayLandOnBody()
    ensures var w := World(SnakeState(2, [(320, 240), (300, 240)], Right, None), (340, 240));
            var rolls := Rolls((16, 12), (0, 0));
            WorldInvariant(w) && Eats(w) && !Collides(w) &&
            Ticked(w, rolls).apple == Ticked(w, rolls).snake.positions[1]
  {
  }

  /** Moving left from the left edge reappears on the last column, same row. */
  lemma LeftEdgeWraps()
    ensures var w := World(SnakeState(1, [(0, 100)], Left, None), (300, 300));
            Head(Ticked(w, Rolls((0, 0), (0, 0))).snake) == (ScreenWidth - GridSize, 100)
  {
  }

  /** A snake of three segments heading right eats the apple ahead: the target
      becomes four, and the following frame keeps all four segments. */
  lemma ThreeSegmentsEat()
    ensures var w := World(SnakeState(3, [(100, 100), (80, 100), (60, 100)], Right, None), (120, 100));
            var t := Ticked(w, Rolls((0, 0), (0, 0)));
            var u := Ticked(t, Rolls((0, 0), (0, 0)));
            t.snake.positions == [(120, 100), (100, 100), (80, 100)] && t.snake.length == 4 &&
            u.snake.positions == [(140, 100), (120, 100), (100, 100), (80, 100)] && u.snake.length == 4
  {
  }

  /** A snake of five segments turning into its own body resets to the start. */
  lemma TurnIntoBodyResets()
    ensures var w := World(SnakeState(5, [(120, 100), (120, 120), (100, 120), (100, 100), (80, 100)],
                                      Up, Some(Left)), (0, 0));
            var t := Ticked(w, Rolls((0, 0), (3, 4)));
            t.snake == Initial() && t.snake.length == 1 && t.apple == (60, 80)
  {
    var w := World(SnakeState(5, [(120, 100), (120, 120), (100, 120), (100, 100), (80, 100)],
                              Up, Some(Left)), (0, 0));
    var moved := AfterMove(w);
    assert moved.positions == [(100, 100), (120, 100), (120, 120), (100, 120), (100, 100)];
    assert moved.positions[1..][3] == (100, 100);
  }
}
