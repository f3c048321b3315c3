/** Keyboard input: the events of one frame turned into the direction the
    snake is asked to take next. Polling the window is outside the model; the
    frame's events arrive as a sequence. */
module Input {
  import opened Wrappers
  import opened Field
  import opened Snakes

  /** The arrow keys, their WASD equivalents, and every other key. */
  datatype Key = ArrowUp | KeyW | ArrowDown | KeyS | ArrowLeft | KeyA | ArrowRight | KeyD | OtherKey

  datatype Event = Quit | KeyPress(key: Key) | OtherEvent

  /** The direction a key asks for, if it asks for one. */
  function KeyDirection(k: Key): (r: Option<Direction>)
    ensures r.None? <==> k == OtherKey
    ensures r == Some(Up) <==> k in {ArrowUp, KeyW}
    ensures r == Some(Down) <==> k in {ArrowDown, KeyS}
    ensures r == Some(Left) <==> k in {ArrowLeft, KeyA}
    ensures r == Some(Right) <==> k in {ArrowRight, KeyD}
  {
    if k == ArrowUp || k == KeyW then Some(Up)
    else if k == ArrowDown || k == KeyS then Some(Down)
    else if k == ArrowLeft || k == KeyA then Some(Left)
    else if k == ArrowRight || k == KeyD then Some(Right)
    else assert k.OtherKey?; None
  }

  /** The direction an event asks for, if it asks for one. */
  function Request(e: Event): Option<Direction>
  {
    if e.KeyPress? then KeyDirection(e.key) else None
  }

  /** The events handled before a quit event ends the program: the longest
      prefix without a quit. */
  function BeforeQuit(events: seq<Event>): (r: seq<Event>)
    ensures r <= events && Quit !in r
    ensures |r| < |events| ==> events[|r|] == Quit
  {
    if events == [] || events[0] == Quit then []
    else [events[0]] + BeforeQuit(events[1..])
  }

  /** The requested direction after handling `events`, read from the end of
      the batch: the request of the last key that asks for one, or `pending`
      when none does. */
  function Pending(events: seq<Event>, pending: Option<Direction>): Option<Direction>
  {
    if events == [] then pending
    else if Request(events[|events| - 1]).Some? then Request(events[|events| - 1])
    else Pending(events[..|events| - 1], pending)
  }

  /** The last direction key in a batch decides the request. */
  lemma {:induction false} LastKeyWins(events: seq<Event>, pending: Option<Direction>, i: int)
    requires 0 <= i < |events| && Request(events[i]).Some?
    requires forall j :: i < j < |events| ==> Request(events[j]).None?
    ensures Pending(events, pending) == Request(events[i])
  {
    if i < |events| - 1 {
      var front := events[..|events| - 1];
      assert forall j :: i < j < |front| ==> front[j] == events[j];
      LastKeyWins(front, pending, i);
    }
  }

  /** A batch without direction keys leaves the request as it was. */
  lemma {:induction false} NoKeyKeepsPending(events: seq<Event>, pending: Option<Direction>)
    requires forall j :: 0 <= j < |events| ==> Request(events[j]).None?
    ensures Pending(events, pending) == pending
  {
    if events != [] {
      NoKeyKeepsPending(events[..|events| - 1], pending);
    }
  }

  /** A prefix free of quit events that stops at a quit event, or at the end,
      is exactly the part of the batch that gets handled. */
  lemma {:induction false} BeforeQuitIsPrefix(events: seq<Event>, i: int)
    requires 0 <= i <= |events| && Quit !in events[..i]
    requires i == |events| || events[i] == Quit
    ensures BeforeQuit(events) == events[..i]
  {
    if i > 0 {
      assert events[0] in events[..i];
      assert events[1..][..i - 1] == events[..i][1..];
      BeforeQuitIsPrefix(events[1..], i - 1);
    }
  }

  /** Handles one frame's events in order. Every direction key overwrites the
      snake's request; a quit event stops handling at once and reports that
      the program ends. */
  method HandleKeys(snake: Snake, events: seq<Event>) returns (quit: bool)
    modifies snake
    ensures quit <==> Quit in events
    ensures snake.nextDirection == Pending(BeforeQuit(events), old(snake.nextDirection))
    ensures snake.length == old(snake.length) && snake.positions == old(snake.positions)
    ensures snake.direction == old(snake.direction)
  {
    quit := false;
    var i := 0;
    while i < |events|
      invariant 0 <= i <= |events|
      invariant Quit !in events[..i]
      invariant snake.nextDirection == Pending(events[..i], old(snake.nextDirection))
      invariant snake.length == old(snake.length) && snake.positions == old(snake.positions)
      invariant snake.direction == old(snake.direction)
    {
      var event := events[i];
      if event == Quit {
        BeforeQuitIsPrefix(events, i);
        quit := true;
        return;
      }
      if event.KeyPress? {
        var d := KeyDirection(event.key);
        if d.Some? {
          snake.nextDirection := d;
        }
      }
      assert events[..i + 1][..i] == events[..i];
      i := i + 1;
    }
    assert events[..i] == events;
    BeforeQuitIsPrefix(events, i);
  }
}
