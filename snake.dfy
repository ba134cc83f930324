/** The snake of src/snake.rs: a heading, a body of grid blocks held head
    first, and the block most recently dropped from the back of the body. */
module SnakeModel {

  datatype Option<+T> = None | Some(value: T)

  datatype MovementDirection = Up | Down | Left | Right

  /** One grid cell, in grid (not pixel) coordinates; y grows downwards. */
  datatype Block = Block(x: int, y: int)

  predicate IsVertical(d: MovementDirection) {
    d.Up? || d.Down?
  }

  /** The heading that undoes d. */
  function OppositeDirection(d: MovementDirection): (r: MovementDirection)
    ensures r != d
    ensures IsVertical(r) == IsVertical(d)
  {
    match d
    case Up => Down
    case Down => Up
    case Left => Right
    case Right => Left
  }

  lemma OppositeIsInvolution(d: MovementDirection)
    ensures OppositeDirection(OppositeDirection(d)) == d
    ensures OppositeDirection(d) != d
  {
  }

  function Abs(n: int): nat {
    if n < 0 then -n else n
  }

  /** a and b share an edge of the grid. */
  predicate Adjacent(a: Block, b: Block) {
    Abs(a.x - b.x) + Abs(a.y - b.y) == 1
  }

  /** The block one cell away from b in direction d. */
  function Shifted(b: Block, d: MovementDirection): (r: Block)
    ensures Adjacent(b, r) && Adjacent(r, b)
    ensures IsVertical(d) <==> r.x == b.x
  {
    match d
    case Up => Block(b.x, b.y - 1)
    case Down => Block(b.x, b.y + 1)
    case Left => Block(b.x - 1, b.y)
    case Right => Block(b.x + 1, b.y)
  }

  /** A step followed by a step the opposite way comes back to where it started,
      and the four headings lead to four different blocks. */
  lemma ShiftedBackIsOpposite(b: Block, d: MovementDirection, e: MovementDirection)
    ensures Shifted(Shifted(b, d), OppositeDirection(d)) == b
    ensures Shifted(b, d) == Shifted(b, e) <==> d == e
  {
  }

  /** The heading a move uses: the override when there is one, else the current one. */
  function Heading(current: MovementDirection, dir: Option<MovementDirection>): (r: MovementDirection) {
    match dir
    case None => current
    case Some(d) => d
  }

  function Last(s: seq<Block>): (r: Block)
    requires |s| > 0
  {
    s[|s| - 1]
  }

  /** Consecutive blocks share an edge: the body is one connected path. */
  predicate IsChain(s: seq<Block>) {
    forall i :: 0 <= i < |s| - 1 ==> Adjacent(s[i], s[i + 1])
  }

  /** The body a freshly built snake has (head first): three blocks in a row,
      the head at the right-hand end. */
  function StartBody(x: int, y: int): (r: seq<Block>) {
    [Block(x + 2, y), Block(x + 1, y), Block(x, y)]
  }

  lemma StartBodyIsChain(x: int, y: int)
    ensures IsChain(StartBody(x, y))
    ensures StartBody(x, y)[1] == Shifted(StartBody(x, y)[0], OppositeDirection(Right))
  {
    var s := StartBody(x, y);
    assert Adjacent(s[0], s[1]) && Adjacent(s[1], s[2]);
  }

  /** The body after one step in direction d: a new head in front and the
      back block dropped. Putting the dropped block back gives the old body
      with the new head in front of it. */
  function Advance(body: seq<Block>, d: MovementDirection): (r: seq<Block>)
    requires |body| > 0
    ensures |r| == |body|
    ensures r + [Last(body)] == [Shifted(body[0], d)] + body
  {
    assert body[..|body| - 1] + [Last(body)] == body;
    [Shifted(body[0], d)] + body[..|body| - 1]
  }

  /** A step keeps the body connected, and the block it drops borders the new back. */
  lemma {:induction false} AdvanceKeepsChain(body: seq<Block>, d: MovementDirection)
    requires |body| > 0 && IsChain(body)
    ensures IsChain(Advance(body, d))
    ensures Adjacent(Last(Advance(body, d)), Last(body))
  {
    var r := Advance(body, d);
    forall i | 0 <= i < |r| - 1
      ensures Adjacent(r[i], r[i + 1])
    {
      if i > 0 {
        assert r[i] == body[i - 1] && r[i + 1] == body[i];
      }
    }
    if |body| > 1 {
      assert Last(r) == body[|body| - 2];
      assert Adjacent(body[|body| - 2], body[|body| - 1]);
    }
  }

  /** Appending a block that borders the back keeps the body connected. */
  lemma {:induction false} AppendKeepsChain(body: seq<Block>, b: Block)
    requires |body| > 0 && IsChain(body) && Adjacent(Last(body), b)
    ensures IsChain(body + [b])
  {
    var r := body + [b];
    forall i | 0 <= i < |r| - 1
      ensures Adjacent(r[i], r[i + 1])
    {
      if i < |body| - 1 {
        assert r[i] == body[i] && r[i + 1] == body[i + 1];
      }
    }
  }

  /** Whether b is one of the body's blocks other than the last one. */
  predicate OverlapsBeforeTail(body: seq<Block>, b: Block)
    requires |body| > 0
  {
    b in body[..|body| - 1]
  }

  /** The last block is never looked at: with any block t at the back, the
      answer is whether b is among the blocks in front of t. */
  lemma OverlapIgnoresLastBlock(body: seq<Block>, t: Block, b: Block)
    ensures OverlapsBeforeTail(body + [t], b) <==> b in body
  {
    assert (body + [t])[..|body|] == body;
  }

  class Snake {
    var direction: MovementDirection
    var body: seq<Block>
    var tail: Option<Block>

    /** The body is never empty, as head_position's unwrap needs. */
    ghost predicate Valid()
      reads this
    {
      |body| > 0
    }

    /** Builds the body by pushing (x, y), (x + 1, y), (x + 2, y) in turn
        onto the front, so the head is (x + 2, y). */
    constructor (x: int, y: int)
      ensures Valid()
      ensures body == StartBody(x, y) && body[0] == Block(x + 2, y)
      ensures direction == Right && tail == None
    {
      var snakeBody: seq<Block> := [];
      snakeBody := [Block(x, y)] + snakeBody;
      snakeBody := [Block(x + 1, y)] + snakeBody;
      snakeBody := [Block(x + 2, y)] + snakeBody;
      direction := Right;
      body := snakeBody;
      tail := None;
    }

    /** The coordinates of the front block of the body. */
    function HeadPosition(): (r: (int, int))
      reads this
      requires Valid()
      ensures Block(r.0, r.1) == body[0]
    {
      (body[0].x, body[0].y)
    }

    /** The current heading: the one a move without an override keeps. */
    function HeadDirection(): (r: MovementDirection)
      reads this
      ensures Valid() ==> NextHeadPosition(None) == NextHeadPosition(Some(r))
    {
      direction
    }

    /** Where the head would go with the given override (or the current
        heading), without moving: a neighbour of the head, and never the head. */
    function NextHeadPosition(dir: Option<MovementDirection>): (r: (int, int))
      reads this
      requires Valid()
      ensures Adjacent(body[0], Block(r.0, r.1))
      ensures IsVertical(Heading(direction, dir)) <==> r.0 == body[0].x
    {
      var next := Shifted(body[0], Heading(direction, dir));
      (next.x, next.y)
    }

    /** One step: take the override as the new heading if there is one, push
        the shifted head on the front, pop the back block into tail. */
    method MoveForward(dir: Option<MovementDirection>)
      requires Valid()
      modifies this
      ensures Valid()
      ensures dir.None? ==> direction == old(direction)
      ensures dir.Some? ==> direction == dir.value
      ensures var (nx, ny) := old(NextHeadPosition(dir)); body[0] == Block(nx, ny)
      ensures body == Advance(old(body), direction)
      ensures tail == Some(Last(old(body)))
    {
      match dir {
        case None =>
        case Some(d) => direction := d;
      }
      var (x, y) := HeadPosition();
      var newBlock := Shifted(Block(x, y), direction);
      body := [newBlock] + body;
      var removed := body[|body| - 1];
      body := body[..|body| - 1];
      tail := Some(removed);
    }

    /** Puts the block saved by the last move back at the end of the body. */
    method RestoreTail()
      requires Valid() && tail.Some?
      modifies this
      ensures Valid()
      ensures body == old(body) + [old(tail).value]
      ensures direction == old(direction) && tail == old(tail)
    {
      body := body + [tail.value];
    }

    /** Whether (x, y) is a block of the body other than the last one; the
        scan stops one block short of the end. */
    method OverlapTail(x: int, y: int) returns (overlaps: bool)
      requires Valid()
      ensures overlaps == OverlapsBeforeTail(body, Block(x, y))
    {
      var i := 0;
      while i < |body| - 1
        invariant 0 <= i <= |body| - 1
        invariant Block(x, y) !in body[..i]
      {
        if body[i].x == x && body[i].y == y {
          return true;
        }
        assert body[..i + 1] == body[..i] + [body[i]];
        i := i + 1;
      }
      return false;
    }
  }
}
