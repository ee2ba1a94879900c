/** The snake: its position on a wrap-around grid, its heading, its body and
    the apple it chases. */
module Snakes {
  import opened Levels

  /** A grid cell written (y, x), in the order the game stores it: y runs over
      [0, width) and x over [0, height). */
  type Cell = (int, int)

  /** The direction the head follows when no key turns it. */
  datatype Heading = Up | Down | Left | Right

  /** What one body update reports: the snake lives on, or it died with the
      given body length at the given level. */
  datatype Outcome = Alive | Death(length: int, level: int)

  function Opposite(h: Heading): (o: Heading) {
    match h
    case Up => Down
    case Down => Up
    case Left => Right
    case Right => Left
  }

  /** Coordinate c moved by delta on a ring of `bound` cells (the source's `%`
      with a positive modulus, which never gives a negative result). */
  function Wrap(c: int, delta: int, bound: int): (r: int)
    requires bound > 0
    ensures 0 <= r < bound
  {
    (c + delta) % bound
  }

  /** Stepping past the last coordinate wraps to 0, stepping below 0 wraps to
      the last coordinate, and every other step moves by exactly one. */
  lemma WrapIsToroidal(c: int, bound: int)
    requires 0 <= c < bound
    ensures Wrap(c, 1, bound) == if c == bound - 1 then 0 else c + 1
    ensures Wrap(c, -1, bound) == if c == 0 then bound - 1 else c - 1
  {
  }

  predicate OnBoard(c: Cell, width: int, height: int) {
    0 <= c.0 < width && 0 <= c.1 < height
  }

  /** The cell the head reaches from c by one move in heading h. Down and Up
      change y modulo width; Left and Right change x modulo height. */
  function Advance(h: Heading, c: Cell, width: int, height: int): (r: Cell)
    requires width > 0 && height > 0
    ensures h == Up || h == Down ==> r.1 == c.1 && 0 <= r.0 < width
    ensures h == Left || h == Right ==> r.0 == c.0 && 0 <= r.1 < height
  {
    match h
    case Down => (Wrap(c.0, 1, width), c.1)
    case Up => (Wrap(c.0, -1, width), c.1)
    case Left => (c.0, Wrap(c.1, -1, height))
    case Right => (c.0, Wrap(c.1, 1, height))
  }

  /** A move keeps the head on the board and always leaves the cell it starts
      from, once both dimensions hold at least two cells. */
  lemma {:induction false} AdvanceLeaves(h: Heading, c: Cell, width: int, height: int)
    requires width >= 2 && height >= 2 && OnBoard(c, width, height)
    ensures OnBoard(Advance(h, c, width, height), width, height)
    ensures Advance(h, c, width, height) != c
  {
    WrapIsToroidal(c.0, width);
    WrapIsToroidal(c.1, height);
  }

  /** A move followed by the opposite move returns to the starting cell. */
  lemma {:induction false} AdvanceOpposite(h: Heading, c: Cell, width: int, height: int)
    requires width > 0 && height > 0 && OnBoard(c, width, height)
    ensures Advance(Opposite(h), Advance(h, c, width, height), width, height) == c
  {
    WrapIsToroidal(c.0, width);
    WrapIsToroidal(c.1, height);
    var d := Advance(h, c, width, height);
    WrapIsToroidal(d.0, width);
    WrapIsToroidal(d.1, height);
  }

  /** No cell occurs twice. */
  predicate Distinct(s: seq<Cell>) {
    forall i, j :: 0 <= i < j < |s| ==> s[i] != s[j]
  }

  /** The body after a step that does not kill the snake: the new head is
      appended, and the oldest cell is dropped unless the head is on the apple. */
  function NextBody(body: seq<Cell>, head: Cell, apple: Cell): (r: seq<Cell>) {
    var grown := body + [head];
    if head != apple then grown[1..] else grown
  }

  /** Without the apple the oldest cell goes and the length stays; on the apple
      the body grows by exactly one cell. Either way the head is the newest cell. */
  lemma NextBodyShape(body: seq<Cell>, head: Cell, apple: Cell)
    requires |body| >= 1
    ensures var r := NextBody(body, head, apple);
      |r| >= 1 && r[|r| - 1] == head &&
      (head != apple ==> r == body[1..] + [head] && |r| == |body|) &&
      (head == apple ==> r == body + [head] && |r| == |body| + 1)
  {
    assert (body + [head])[1..] == body[1..] + [head];
  }

  /** The cell before the new head is the previous newest cell. */
  lemma NextBodyBeforeHead(body: seq<Cell>, head: Cell, apple: Cell)
    requires |body| >= 1
    ensures var r := NextBody(body, head, apple);
      |r| >= 2 ==> r[|r| - 2] == body[|body| - 1]
  {
  }

  /** A step into a free cell keeps the body free of repeated cells. */
  lemma NextBodyDistinct(body: seq<Cell>, head: Cell, apple: Cell)
    requires Distinct(body) && head !in body
    ensures Distinct(NextBody(body, head, apple))
  {
    var grown := body + [head];
    assert Distinct(grown) by {
      forall i, j | 0 <= i < j < |grown| ensures grown[i] != grown[j] {
        if j == |body| {
          assert grown[i] == body[i];
        }
      }
    }
  }

  /** For a body without repeated cells, the head lies in the body exactly
      when appending it would repeat a cell. */
  lemma StepRepeatsCell(body: seq<Cell>, head: Cell)
    requires Distinct(body)
    ensures head in body <==> !Distinct(body + [head])
  {
    var grown := body + [head];
    if head in body {
      var i :| 0 <= i < |body| && body[i] == head;
      assert grown[i] == grown[|body|];
    } else {
      NextBodyDistinct(body, head, head);
    }
  }

  /** The apple candidates the random draws yield: the first pair lies in
      [1, width - 1] x [1, height - 1], every retry in [1, width - 1] x [1, height]. */
  predicate AppleDraws(draws: seq<Cell>, width: int, height: int) {
    |draws| > 0 &&
    1 <= draws[0].0 <= width - 1 && 1 <= draws[0].1 <= height - 1 &&
    forall i :: 1 <= i < |draws| ==> 1 <= draws[i].0 <= width - 1 && 1 <= draws[i].1 <= height
  }

  /** Some candidate avoids the taken cells, so the retry loop stops. */
  predicate HasFree(draws: seq<Cell>, taken: seq<Cell>) {
    exists i :: 0 <= i < |draws| && draws[i] !in taken
  }

  /** The index of the first candidate outside the taken cells. */
  ghost function FirstFree(draws: seq<Cell>, taken: seq<Cell>): (k: nat)
    requires HasFree(draws, taken)
    ensures k < |draws| && draws[k] !in taken
    ensures forall i :: 0 <= i < k ==> draws[i] in taken
    decreases |draws|
  {
    if draws[0] !in taken then 0
    else
      var i :| 0 <= i < |draws| && draws[i] !in taken;
      assert draws[1..][i - 1] == draws[i];
      1 + FirstFree(draws[1..], taken)
  }

  class Snake {
    var x: int
    var y: int
    const width: int
    const height: int
    /** Body cells from the oldest (the tail) to the newest. */
    var body: seq<Cell>
    var apple: Cell
    const level: Level
    /** The heading the last move followed. */
    var heading: Heading

    ghost predicate Valid()
      reads this, level
    {
      width >= 2 && height >= 2 &&
      OnBoard((y, x), width, height) &&
      |body| >= 1 && Distinct(body) &&
      (forall i :: 0 <= i < |body| ==> OnBoard(body[i], width, height)) &&
      apple !in body &&
      1 <= apple.0 <= width - 1 && 1 <= apple.1 <= height &&
      level.Valid()
    }

    /** Between two ticks the head position is the newest body cell. */
    ghost predicate Settled()
      reads this, level
    {
      Valid() && body[|body| - 1] == (y, x)
    }

    /** The newest step followed the heading: the head is one move in that
        heading away from the cell before it. */
    ghost predicate Follows()
      reads this
    {
      width > 0 && height > 0 &&
      (|body| >= 2 ==> body[|body| - 1] == Advance(heading, body[|body| - 2], width, height))
    }

    /** A new game on a screen of the given size: the grid is scaled down from
        the screen, the snake is one cell at (1, 1) heading right, and the apple
        is the first free candidate. */
    constructor (scrWidth: int, scrHeight: int, draws: seq<Cell>)
      requires scrWidth / 2 - 1 >= 2 && scrHeight / 3 - 1 >= 2
      requires AppleDraws(draws, scrWidth / 2 - 1, scrHeight / 3 - 1)
      requires HasFree(draws, [(1, 1)])
      ensures Settled() && Follows() && fresh(level)
      ensures width == scrWidth / 2 - 1 && height == scrHeight / 3 - 1
      ensures (y, x) == (1, 1) && body == [(1, 1)] && heading == Right
      ensures apple == draws[FirstFree(draws, body)]
      ensures level.level == 1 && level.points == 0
    {
      x := 1;
      y := 1;
      width := scrWidth / 2 - 1;
      height := scrHeight / 3 - 1;
      body := [(1, 1)];
      level := new Level();
      heading := Right;
      new;
      NewAppleCoords(draws);
    }

    /** Draws candidates until one lies outside the body. */
    method NewAppleCoords(draws: seq<Cell>)
      requires AppleDraws(draws, width, height) && HasFree(draws, body)
      modifies this`apple
      ensures apple == draws[FirstFree(draws, body)]
      ensures apple !in body
      ensures 1 <= apple.0 <= width - 1 && 1 <= apple.1 <= height
    {
      var i := 0;
      apple := draws[0];
      while apple in body
        invariant 0 <= i <= FirstFree(draws, body)
        invariant apple == draws[i]
        decreases FirstFree(draws, body) - i
      {
        i := i + 1;
        apple := draws[i];
      }
    }

    /** Whether the head, before it is appended, has stepped onto the body:
        for a body without repeated cells this holds exactly when appending
        the head would repeat a cell. */
    function HasLost(): (lost: bool)
      reads this
      ensures Distinct(body) ==> (lost <==> !Distinct(body + [(y, x)]))
    {
      if Distinct(body) then StepRepeatsCell(body, (y, x)); (y, x) in body
      else (y, x) in body
    }

    /** Ends a tick after the move: dies if the head is already in the body,
        and otherwise appends the head, then either drops the tail or eats the
        apple, scoring a point and placing a new apple. */
    method UpdateBody(draws: seq<Cell>) returns (outcome: Outcome)
      requires Valid()
      requires (y, x) == apple ==> AppleDraws(draws, width, height) && HasFree(draws, body + [(y, x)])
      modifies this, level
      ensures (y, x) == old((y, x)) && heading == old(heading)
      ensures outcome.Death? <==> (y, x) in old(body)
      ensures outcome.Death? ==>
        outcome == Death(|old(body)|, old(level.level)) && unchanged(this, level)
      ensures outcome.Alive? ==>
        Settled() && body == NextBody(old(body), (y, x), old(apple))
      ensures outcome.Alive? && (y, x) != old(apple) ==>
        apple == old(apple) && unchanged(level)
      ensures outcome.Alive? && (y, x) == old(apple) ==>
        body == old(body) + [(y, x)] && apple == draws[FirstFree(draws, body)] &&
        (level.level, level.points) == Bump(old(level.level), old(level.points))
    {
      if HasLost() {
        return Death(|body|, level.level);
      }
      NextBodyDistinct(body, (y, x), apple);
      NextBodyShape(body, (y, x), apple);
      body := body + [(y, x)];
      if (y, x) != apple {
        body := body[1..];
      } else {
        level.AddPoint();
        NewAppleCoords(draws);
      }
      outcome := Alive;
    }

    method MoveDown()
      requires Valid()
      modifies this`y, this`heading
      ensures Valid()
      ensures y == Wrap(old(y), 1, width) && x == old(x) && heading == Down
    {
      y := (y + 1) % width;
      heading := Down;
    }

    method MoveUp()
      requires Valid()
      modifies this`y, this`heading
      ensures Valid()
      ensures y == Wrap(old(y), -1, width) && x == old(x) && heading == Up
    {
      y := (y - 1) % width;
      heading := Up;
    }

    method MoveLeft()
      requires Valid()
      modifies this`x, this`heading
      ensures Valid()
      ensures x == Wrap(old(x), -1, height) && y == old(y) && heading == Left
    {
      x := (x - 1) % height;
      heading := Left;
    }

    method MoveRight()
      requires Valid()
      modifies this`x, this`heading
      ensures Valid()
      ensures x == Wrap(old(x), 1, height) && y == old(y) && heading == Right
    {
      x := (x + 1) % height;
      heading := Right;
    }

    /** Moves once more in the heading the last move followed. */
    method ContinueMoving()
      requires Valid()
      modifies this`x, this`y, this`heading
      ensures Valid() && heading == old(heading)
      ensures (y, x) == Advance(heading, old((y, x)), width, height)
    {
      match heading
      case Down => MoveDown();
      case Up => MoveUp();
      case Left => MoveLeft();
      case Right => MoveRight();
    }
  }

  /** A settled snake of two cells or more whose newest step followed its
      heading steps onto its own body when it reverses that heading, so the
      next body update reports its death. */
  lemma {:induction false} ReversalHitsBody(s: Snake)
    requires s.Settled() && s.Follows() && |s.body| >= 2
    ensures Advance(Opposite(s.heading), (s.y, s.x), s.width, s.height) in s.body
  {
    AdvanceOpposite(s.heading, s.body[|s.body| - 2], s.width, s.height);
    assert s.body[|s.body| - 2] in s.body;
  }
}
