/** One tick of the game loop: the key pressed picks a heading, the snake moves
    and its body is updated. */
module Controls {
  import opened Levels
  import opened Snakes

  /** Arrow-key codes the terminal reports. */
  const KeyDownArrow: int := 258
  const KeyUpArrow: int := 259
  const KeyLeftArrow: int := 260
  const KeyRightArrow: int := 261

  /** The keys that turn the snake to each heading: a vi-style letter, a
      keyboard-layout letter and an arrow key. */
  function KeysOf(h: Heading): (keys: set<int>) {
    match h
    case Down => {'j' as int, 's' as int, KeyDownArrow}
    case Up => {'k' as int, 'z' as int, KeyUpArrow}
    case Left => {'h' as int, 'q' as int, KeyLeftArrow}
    case Right => {'l' as int, 'd' as int, KeyRightArrow}
  }

  /** The heading a key press selects; any other key keeps the previous one. */
  function HeadingFor(key: int, previous: Heading): (h: Heading)
    ensures forall d :: key in KeysOf(d) ==> h == d
    ensures key !in KeysOf(Down) + KeysOf(Up) + KeysOf(Left) + KeysOf(Right) ==> h == previous
  {
    if key == 'j' as int || key == 's' as int || key == KeyDownArrow then Down
    else if key == 'k' as int || key == 'z' as int || key == KeyUpArrow then Up
    else if key == 'h' as int || key == 'q' as int || key == KeyLeftArrow then Left
    else if key == 'l' as int || key == 'd' as int || key == KeyRightArrow then Right
    else previous
  }

  /** One tick: turn by the key (or keep going), move, then update the body.
      The collision test uses the body from before the move. */
  method Tick(snake: Snake, key: int, draws: seq<Cell>) returns (outcome: Outcome)
    requires snake.Valid()
    requires var head := Advance(HeadingFor(key, snake.heading), (snake.y, snake.x), snake.width, snake.height);
      head == snake.apple ==>
        AppleDraws(draws, snake.width, snake.height) && HasFree(draws, snake.body + [head])
    modifies snake, snake.level
    ensures snake.heading == HeadingFor(key, old(snake.heading))
    ensures (snake.y, snake.x) == Advance(snake.heading, old((snake.y, snake.x)), snake.width, snake.height)
    ensures outcome.Death? <==> (snake.y, snake.x) in old(snake.body)
    ensures outcome.Death? ==>
      outcome == Death(|old(snake.body)|, old(snake.level.level)) &&
      snake.body == old(snake.body) && snake.apple == old(snake.apple) && unchanged(snake.level)
    ensures outcome.Alive? && old(snake.Settled()) ==> snake.Follows()
    ensures outcome.Alive? ==>
      snake.Settled() && snake.body == NextBody(old(snake.body), (snake.y, snake.x), old(snake.apple))
    ensures outcome.Alive? && (snake.y, snake.x) != old(snake.apple) ==>
      |snake.body| == |old(snake.body)| && snake.apple == old(snake.apple) && unchanged(snake.level)
    ensures outcome.Alive? && (snake.y, snake.x) == old(snake.apple) ==>
      |snake.body| == |old(snake.body)| + 1 && snake.apple !in snake.body &&
      (snake.level.level, snake.level.points) == Bump(old(snake.level.level), old(snake.level.points))
  {
    if key == 'j' as int || key == 's' as int || key == KeyDownArrow {
      snake.MoveDown();
    } else if key == 'k' as int || key == 'z' as int || key == KeyUpArrow {
      snake.MoveUp();
    } else if key == 'h' as int || key == 'q' as int || key == KeyLeftArrow {
      snake.MoveLeft();
    } else if key == 'l' as int || key == 'd' as int || key == KeyRightArrow {
      snake.MoveRight();
    } else {
      snake.ContinueMoving();
    }
    NextBodyShape(old(snake.body), (snake.y, snake.x), snake.apple);
    NextBodyBeforeHead(old(snake.body), (snake.y, snake.x), snake.apple);
    ghost var head, previous := (snake.y, snake.x), old((snake.y, snake.x));
    assert head == Advance(snake.heading, previous, snake.width, snake.height);
    outcome := snake.UpdateBody(draws);
  }
}
