/** The game state machine of src/game.rs: the snake, the food, the window
    bounds, the game-over flag and the time accumulator, driven by key presses
    and by clock ticks. Each method of class Game is specified by a function
    on GameState, a snapshot of every field; the lemmas state what the game
    promises about those functions. */
module GameModel {
  import opened SnakeModel

  /** Seconds of accumulated time after which the snake takes a step. */
  const MovingPeriod: real := 0.1
  /** Seconds of accumulated time after game over before the game restarts. */
  const RestartTime: real := 1.0

  /** The keys the game tells apart: the four arrows, and any other key. */
  datatype Key = ArrowUp | ArrowDown | ArrowLeft | ArrowRight | OtherKey(code: int)

  /** Every field of a Game, the fields of its snake included. */
  datatype GameState = GameState(
    direction: MovementDirection,
    body: seq<Block>,
    tail: Option<Block>,
    isFoodExists: bool,
    food: Block,
    width: int,
    height: int,
    isGameOver: bool,
    waitingTime: real)

  /** The block lies strictly inside (0, width) x (0, height). */
  predicate InsideWalls(width: int, height: int, b: Block) {
    0 < b.x < width && 0 < b.y < height
  }

  predicate AllInside(width: int, height: int, body: seq<Block>) {
    forall i :: 0 <= i < |body| ==> InsideWalls(width, height, body[i])
  }

  /** The block lies in the range food is drawn from: [1, width - 1) x [1, height - 1). */
  predicate InFoodRange(s: GameState, b: Block) {
    1 <= b.x < s.width - 1 && 1 <= b.y < s.height - 1
  }

  /** What every reachable game state satisfies: the body has at least three
      blocks and is connected, the block behind the head lies opposite the
      heading, food that exists is not under the body (its last block aside),
      and on a board large enough for the starting snake every block is inside
      the walls. */
  ghost predicate Invariant(s: GameState) {
    && WellFormed(s.body, s.direction)
    && (s.isFoodExists ==> !OverlapsBeforeTail(s.body, s.food))
    && (s.width > 4 && s.height > 2 ==> AllInside(s.width, s.height, s.body))
  }

  /** The shape of a snake: at least three blocks, connected, the block
      behind the head lying opposite the heading. */
  ghost predicate WellFormed(body: seq<Block>, direction: MovementDirection) {
    && |body| >= 3
    && IsChain(body)
    && body[1] == Shifted(body[0], OppositeDirection(direction))
  }

  /** Game::new: snake built at (2, 2), food present at (6, 4), running, no time waited. */
  function NewGame(width: int, height: int): (r: GameState) {
    GameState(Right, StartBody(2, 2), None, true, Block(6, 4), width, height, false, 0.0)
  }

  /** restart: a new snake at (2, 2), food present at (5, 5), running, timer cleared. */
  function Restarted(s: GameState): (r: GameState) {
    s.(direction := Right, body := StartBody(2, 2), tail := None, isGameOver := false,
       isFoodExists := true, food := Block(5, 5), waitingTime := 0.0)
  }

  /** The block the head would move to with the given override; the same
      block Snake.NextHeadPosition computes on the object. */
  function NextHead(s: GameState, dir: Option<MovementDirection>): (r: Block)
    requires |s.body| > 0
  {
    Shifted(s.body[0], Heading(s.direction, dir))
  }

  /** check_if_snake_alive: the next head is not on the body (its last block
      aside) and lies strictly inside (0, width) x (0, height). */
  predicate Alive(s: GameState, dir: Option<MovementDirection>)
    requires |s.body| > 0
  {
    !OverlapsBeforeTail(s.body, NextHead(s, dir)) && InsideWalls(s.width, s.height, NextHead(s, dir))
  }

  /** check_eating: a head on the food coordinates clears the flag and puts
      the saved tail block back. */
  function Eat(s: GameState): (r: GameState)
    requires |s.body| > 0 && s.tail.Some?
  {
    if s.body[0] == s.food then s.(isFoodExists := false, body := s.body + [s.tail.value]) else s
  }

  /** update_snake: a fatal step only ends the game; a safe one moves the
      snake and lets it eat; either way the timer is cleared. */
  function StepSnake(s: GameState, dir: Option<MovementDirection>): (r: GameState)
    requires |s.body| > 0
  {
    if Alive(s, dir) then
      var d := Heading(s.direction, dir);
      Eat(s.(direction := d, body := Advance(s.body, d), tail := Some(Last(s.body)))).(waitingTime := 0.0)
    else
      s.(isGameOver := true, waitingTime := 0.0)
  }

  /** The draws of the random generator are usable by add_food: each lies in
      the food range, and one of them is off the body (its last block aside),
      so the resampling loop stops. */
  predicate DrawsFit(s: GameState, draws: seq<Block>)
    requires |s.body| > 0
  {
    && (forall b :: b in draws ==> InFoodRange(s, b))
    && (exists b :: b in draws && !OverlapsBeforeTail(s.body, b))
  }

  /** The first draw that is off the body, every draw before it being on it. */
  function FirstFree(body: seq<Block>, draws: seq<Block>): (b: Block)
    requires |body| > 0
    requires exists c :: c in draws && !OverlapsBeforeTail(body, c)
    ensures b in draws && !OverlapsBeforeTail(body, b)
    ensures exists k :: 0 <= k < |draws| && draws[k] == b &&
                        forall j :: 0 <= j < k ==> OverlapsBeforeTail(body, draws[j])
    decreases |draws|
  {
    if !OverlapsBeforeTail(body, draws[0]) then
      draws[0]
    else
      var c :| c in draws && !OverlapsBeforeTail(body, c);
      assert c in draws[1..] by {
        assert draws == [draws[0]] + draws[1..];
      }
      var b := FirstFree(body, draws[1..]);
      ghost var k :| 0 <= k < |draws| - 1 && draws[1..][k] == b &&
                     forall j :: 0 <= j < k ==> OverlapsBeforeTail(body, draws[1..][j]);
      assert draws[k + 1] == b;
      assert forall j :: 0 <= j < k + 1 ==> OverlapsBeforeTail(body, draws[j]) by {
        forall j | 0 <= j < k + 1
          ensures OverlapsBeforeTail(body, draws[j])
        {
          if j > 0 {
            assert draws[j] == draws[1..][j - 1];
          }
        }
      }
      b
  }

  /** A draw on the body is passed over: the search goes on with the next one. */
  lemma FirstFreeSkipsTakenDraw(body: seq<Block>, draws: seq<Block>, i: nat)
    requires |body| > 0 && i < |draws| && OverlapsBeforeTail(body, draws[i])
    requires exists c :: c in draws[i..] && !OverlapsBeforeTail(body, c)
    ensures exists c :: c in draws[i + 1..] && !OverlapsBeforeTail(body, c)
    ensures FirstFree(body, draws[i..]) == FirstFree(body, draws[i + 1..])
  {
    var c :| c in draws[i..] && !OverlapsBeforeTail(body, c);
    assert draws[i..] == [draws[i]] + draws[i + 1..];
    assert c in draws[i + 1..];
    assert draws[i..][1..] == draws[i + 1..];
  }

  /** add_food: the food becomes the first usable draw and is present. */
  function FoodAdded(s: GameState, draws: seq<Block>): (r: GameState)
    requires |s.body| > 0 && DrawsFit(s, draws)
    ensures r.body == s.body && r.direction == s.direction && r.isGameOver == s.isGameOver
    ensures r.isFoodExists && InFoodRange(r, r.food) && !OverlapsBeforeTail(r.body, r.food)
  {
    s.(isFoodExists := true, food := FirstFree(s.body, draws))
  }

  /** update: accumulate the time; when over, restart once the restart time
      is exceeded; when running, add food if there is none and take a step
      once the moving period is exceeded. */
  function Updated(s: GameState, deltaTime: real, draws: seq<Block>): (r: GameState)
    requires |s.body| > 0
    requires !s.isGameOver && !s.isFoodExists ==> DrawsFit(s, draws)
  {
    var s1 := s.(waitingTime := s.waitingTime + deltaTime);
    if s1.isGameOver then
      if s1.waitingTime > RestartTime then Restarted(s1) else s1
    else
      var s2 := if !s1.isFoodExists then FoodAdded(s1, draws) else s1;
      if s2.waitingTime > MovingPeriod then StepSnake(s2, None) else s2
  }

  lemma FoodAddedKeepsInvariant(s: GameState, draws: seq<Block>)
    requires Invariant(s) && DrawsFit(s, draws)
    ensures Invariant(FoodAdded(s, draws))
  {
  }

  /** The heading a key asks for: an arrow's own direction, any other key the current heading. */
  function KeyDirection(key: Key, current: MovementDirection): (r: MovementDirection)
    ensures key.OtherKey? ==> r == current
    ensures key.ArrowUp? || key.ArrowDown? ==> IsVertical(r)
    ensures key.ArrowLeft? || key.ArrowRight? ==> !IsVertical(r)
  {
    match key
    case ArrowUp => Up
    case ArrowDown => Down
    case ArrowLeft => Left
    case ArrowRight => Right
    case OtherKey(_) => current
  }

  /** The arrows ask for a heading that does not depend on the current one,
      and two different arrows never ask for the same heading. */
  lemma ArrowHeadingsAreFixed(k1: Key, k2: Key, c1: MovementDirection, c2: MovementDirection)
    requires !k1.OtherKey? && !k2.OtherKey?
    ensures KeyDirection(k1, c1) == KeyDirection(k1, c2)
    ensures KeyDirection(k1, c1) == KeyDirection(k2, c2) <==> k1 == k2
  {
  }

  /** key_pressed: ignored when over or when the key asks to reverse; otherwise a step with the key's heading. */
  function KeyPressedState(s: GameState, key: Key): (r: GameState)
    requires |s.body| > 0
  {
    if s.isGameOver then s
    else
      var d := KeyDirection(key, s.direction);
      if d == OppositeDirection(s.direction) then s else StepSnake(s, Some(d))
  }

  // ---------------------------------------------------------------------------
  // What the game promises

  lemma NewGameInvariant(width: int, height: int)
    ensures Invariant(NewGame(width, height))
    ensures NewGame(width, height).body[0] == Block(4, 2)
  {
    StartBodyIsChain(2, 2);
  }

  lemma RestartedInvariant(s: GameState)
    ensures Invariant(Restarted(s))
    ensures Restarted(s).width == s.width && Restarted(s).height == s.height
  {
    StartBodyIsChain(2, 2);
  }

  /** Stepping against the heading always hits the block behind the head:
      that is the move key_pressed refuses. */
  lemma ReversalIsFatal(s: GameState)
    requires Invariant(s)
    ensures !Alive(s, Some(OppositeDirection(s.direction)))
  {
    assert s.body[..|s.body| - 1][1] == s.body[1];
  }

  /** A fatal step ends the game and leaves snake and food as they were. */
  lemma FatalStepLeavesSnake(s: GameState, dir: Option<MovementDirection>)
    requires |s.body| > 0 && !Alive(s, dir)
    ensures var r := StepSnake(s, dir);
      && r.isGameOver && r.waitingTime == 0.0
      && r.body == s.body && r.direction == s.direction && r.tail == s.tail
      && r.isFoodExists == s.isFoodExists && r.food == s.food
  {
  }

  /** A safe step puts the head on the next block, takes the new heading and
      saves the old back block. Onto the food it clears the flag and the body
      becomes the new head in front of the whole old body, one block longer;
      elsewhere the length and the food stay as they were. */
  lemma SafeStepMovesSnake(s: GameState, dir: Option<MovementDirection>)
    requires |s.body| > 0 && Alive(s, dir)
    ensures var r := StepSnake(s, dir);
      && !r.isGameOver == !s.isGameOver && r.waitingTime == 0.0
      && r.body[0] == NextHead(s, dir)
      && r.direction == Heading(s.direction, dir)
      && r.tail == Some(Last(s.body))
      && r.food == s.food
      && (NextHead(s, dir) == s.food ==>
            !r.isFoodExists && r.body == [NextHead(s, dir)] + s.body && |r.body| == |s.body| + 1)
      && (NextHead(s, dir) != s.food ==>
            r.isFoodExists == s.isFoodExists && |r.body| == |s.body|)
  {
    var d := Heading(s.direction, dir);
    var a := Advance(s.body, d);
    assert a[0] == NextHead(s, dir);
  }

  /** A step in direction d keeps the snake's shape, and so does putting the
      dropped block back. */
  lemma {:induction false} StepKeepsShape(body: seq<Block>, direction: MovementDirection, d: MovementDirection)
    requires WellFormed(body, direction)
    ensures WellFormed(Advance(body, d), d)
    ensures WellFormed(Advance(body, d) + [Last(body)], d)
  {
    var a := Advance(body, d);
    AdvanceKeepsChain(body, d);
    AppendKeepsChain(a, Last(body));
    ShiftedBackIsOpposite(body[0], d, d);
    assert a[0] == Shifted(body[0], d) && a[1] == body[0];
    assert (a + [Last(body)])[0] == a[0] && (a + [Last(body)])[1] == a[1];
  }

  /** A step onto a block inside the walls keeps every block inside, and so
      does putting the dropped block back. */
  lemma {:induction false} StepStaysInside(width: int, height: int, body: seq<Block>, d: MovementDirection)
    requires |body| > 0 && AllInside(width, height, body)
    requires InsideWalls(width, height, Shifted(body[0], d))
    ensures AllInside(width, height, Advance(body, d))
    ensures AllInside(width, height, Advance(body, d) + [Last(body)])
  {
    var a := Advance(body, d);
    var g := a + [Last(body)];
    assert g == [Shifted(body[0], d)] + body;
    forall i | 0 <= i < |g|
      ensures InsideWalls(width, height, g[i])
    {
      if i > 0 {
        assert g[i] == body[i - 1];
      }
    }
    forall i | 0 <= i < |a|
      ensures InsideWalls(width, height, a[i])
    {
      assert a[i] == g[i];
    }
  }

  /** Food that is off the body and not under the new head is off the body after the step. */
  lemma StepKeepsFoodClear(body: seq<Block>, d: MovementDirection, food: Block)
    requires |body| >= 2 && !OverlapsBeforeTail(body, food) && food != Shifted(body[0], d)
    ensures !OverlapsBeforeTail(Advance(body, d), food)
  {
    var n := |body|;
    assert Advance(body, d)[..n - 1] == [Shifted(body[0], d)] + body[..n - 1][..n - 2];
  }

  lemma {:induction false} StepKeepsInvariant(s: GameState, dir: Option<MovementDirection>)
    requires Invariant(s)
    ensures Invariant(StepSnake(s, dir))
  {
    if !Alive(s, dir) {
      assert StepSnake(s, dir) == s.(isGameOver := true, waitingTime := 0.0);
      return;
    }
    var d := Heading(s.direction, dir);
    var a := Advance(s.body, d);
    var h := NextHead(s, dir);
    StepKeepsShape(s.body, s.direction, d);
    if s.width > 4 && s.height > 2 {
      StepStaysInside(s.width, s.height, s.body, d);
    }
    var m := s.(direction := d, body := a, tail := Some(Last(s.body)), waitingTime := 0.0);
    assert a[0] == h;
    if h == s.food {
      assert StepSnake(s, dir) == m.(isFoodExists := false, body := a + [Last(s.body)]);
    } else {
      if s.isFoodExists {
        StepKeepsFoodClear(s.body, d, s.food);
      }
      assert StepSnake(s, dir) == m;
    }
  }

  /** While the game is over a tick moves nothing: it only accumulates time,
      until the restart time is exceeded and the game starts afresh. */
  lemma UpdateWhileGameOver(s: GameState, deltaTime: real, draws: seq<Block>)
    requires |s.body| > 0 && s.isGameOver
    ensures var r := Updated(s, deltaTime, draws);
      && (s.waitingTime + deltaTime <= RestartTime ==>
            r == s.(waitingTime := s.waitingTime + deltaTime))
      && (s.waitingTime + deltaTime > RestartTime ==>
            && !r.isGameOver && r.body == StartBody(2, 2) && r.direction == Right
            && r.isFoodExists && r.food == Block(5, 5) && r.waitingTime == 0.0)
  {
  }

  /** While running, a tick takes a step exactly when the accumulated time
      exceeds the moving period; otherwise the snake stays where it is. Food
      that was missing is present afterwards unless that step ate it. */
  lemma UpdateWhileRunning(s: GameState, deltaTime: real, draws: seq<Block>)
    requires |s.body| > 0 && !s.isGameOver
    requires !s.isFoodExists ==> DrawsFit(s, draws)
    ensures var r := Updated(s, deltaTime, draws);
      var fed := if s.isFoodExists then s else FoodAdded(s, draws);
      && (s.waitingTime + deltaTime <= MovingPeriod ==>
            && r.body == s.body && r.direction == s.direction && !r.isGameOver
            && r.isFoodExists && r.waitingTime == s.waitingTime + deltaTime)
      && (s.waitingTime + deltaTime > MovingPeriod ==>
            r == StepSnake(fed, None) && r.waitingTime == 0.0)
  {
  }

  lemma UpdateKeepsInvariant(s: GameState, deltaTime: real, draws: seq<Block>)
    requires Invariant(s)
    requires !s.isGameOver && !s.isFoodExists ==> DrawsFit(s, draws)
    ensures Invariant(Updated(s, deltaTime, draws))
  {
    var s1 := s.(waitingTime := s.waitingTime + deltaTime);
    if s1.isGameOver {
      if s1.waitingTime > RestartTime {
        RestartedInvariant(s1);
        assert Updated(s, deltaTime, draws) == Restarted(s1);
      } else {
        assert Updated(s, deltaTime, draws) == s1;
      }
    } else {
      var s2 := if !s1.isFoodExists then FoodAdded(s1, draws) else s1;
      if !s1.isFoodExists {
        FoodAddedKeepsInvariant(s1, draws);
      }
      if s2.waitingTime > MovingPeriod {
        StepKeepsInvariant(s2, None);
        assert Updated(s, deltaTime, draws) == StepSnake(s2, None);
      } else {
        assert Updated(s, deltaTime, draws) == s2;
      }
    }
  }

  /** Keys do nothing once the game is over. */
  lemma GameOverIgnoresKeys(s: GameState, key: Key)
    requires |s.body| > 0 && s.isGameOver
    ensures KeyPressedState(s, key) == s
  {
  }

  /** The arrow pointing against the heading does nothing. */
  lemma ReversedKeyIgnored(s: GameState, key: Key)
    requires |s.body| > 0 && !s.isGameOver
    requires key.ArrowUp? || key.ArrowDown? || key.ArrowLeft? || key.ArrowRight?
    requires KeyDirection(key, s.direction) == OppositeDirection(s.direction)
    ensures KeyPressedState(s, key) == s
  {
  }

  /** Any other arrow takes a step with that heading at once. */
  lemma ArrowKeyTakesStep(s: GameState, key: Key)
    requires |s.body| > 0 && !s.isGameOver
    requires KeyDirection(key, s.direction) != OppositeDirection(s.direction)
    ensures KeyPressedState(s, key) == StepSnake(s, Some(KeyDirection(key, s.direction)))
  {
  }

  /** A key that is not an arrow is never refused: it takes the same step a
      tick would take, ahead of the moving period. */
  lemma OtherKeyTakesStep(s: GameState, code: int)
    requires |s.body| > 0 && !s.isGameOver
    ensures KeyPressedState(s, OtherKey(code)) == StepSnake(s, None)
  {
    OppositeIsInvolution(s.direction);
  }

  lemma KeyPressedKeepsInvariant(s: GameState, key: Key)
    requires Invariant(s)
    ensures Invariant(KeyPressedState(s, key))
  {
    if !s.isGameOver {
      StepKeepsInvariant(s, Some(KeyDirection(key, s.direction)));
    }
  }

  /** The walls the step check enforces are x = 0, x = width, y = 0 and
      y = height, so the head may enter column width - 1 and row height - 1:
      on the 30 x 30 board, a head at (28, 5) heading right moves on to
      (29, 5), the column painted as the right-hand border. */
  lemma FarBorderIsEnterable(s: GameState)
    requires s.width == 30 && s.height == 30 && s.direction == Right
    requires s.body == [Block(28, 5), Block(27, 5), Block(26, 5)]
    ensures Alive(s, None)
    ensures StepSnake(s, None).body[0] == Block(29, 5)
    ensures StepSnake(s, None).isGameOver == s.isGameOver
  {
    var h := NextHead(s, None);
    assert h == Block(29, 5) && InsideWalls(s.width, s.height, h);
    assert s.body[..2] == [Block(28, 5), Block(27, 5)];
    SafeStepMovesSnake(s, None);
  }

  /** add_food may leave the food on the last block. A head that then steps
      there eats, and the block put back lands on the head's own cell: on the
      30 x 30 board, the snake below turning right ends with its head and its
      last block both at (5, 4). */
  lemma EatingOnLastBlockDoublesHead(s: GameState)
    requires s.width == 30 && s.height == 30 && s.direction == Up
    requires s.body == [Block(4, 4), Block(4, 5), Block(5, 5), Block(5, 4)]
    requires s.isFoodExists && s.food == Block(5, 4)
    ensures Invariant(s)
    ensures StepSnake(s, Some(Right)).body ==
              [Block(5, 4), Block(4, 4), Block(4, 5), Block(5, 5), Block(5, 4)]
    ensures StepSnake(s, Some(Right)).body[0] == Last(StepSnake(s, Some(Right)).body)
  {
    var h := NextHead(s, Some(Right));
    assert h == Block(5, 4) && InsideWalls(s.width, s.height, h);
    assert s.body[..3] == [Block(4, 4), Block(4, 5), Block(5, 5)];
    assert Adjacent(s.body[0], s.body[1]) && Adjacent(s.body[1], s.body[2]) && Adjacent(s.body[2], s.body[3]);
    SafeStepMovesSnake(s, Some(Right));
  }

  class Game {
    var snake: Snake
    var isFoodExists: bool
    var xFoodCoordinate: int
    var yFoodCoordinate: int
    const windowWidth: int
    const windowHeight: int
    var isGameOver: bool
    var waitingTime: real

    /** The state of this game and its snake, as a value. */
    function View(): (r: GameState)
      reads this, snake
    {
      GameState(snake.direction, snake.body, snake.tail, isFoodExists,
                Block(xFoodCoordinate, yFoodCoordinate), windowWidth, windowHeight,
                isGameOver, waitingTime)
    }

    ghost predicate Valid()
      reads this, snake
    {
      snake.Valid() && Invariant(View())
    }

    constructor (width: int, height: int)
      ensures Valid() && fresh(snake)
      ensures View() == NewGame(width, height)
    {
      snake := new Snake(2, 2);
      waitingTime := 0.0;
      isFoodExists := true;
      xFoodCoordinate := 6;
      yFoodCoordinate := 4;
      windowWidth := width;
      windowHeight := height;
      isGameOver := false;
      new;
      NewGameInvariant(width, height);
    }

    method KeyPressed(key: Key)
      requires Valid()
      modifies this, snake
      ensures Valid() && snake == old(snake)
      ensures View() == KeyPressedState(old(View()), key)
    {
      if isGameOver {
        return;
      }
      var direction := KeyDirection(key, snake.HeadDirection());
      if direction == OppositeDirection(snake.HeadDirection()) {
        return;
      }
      UpdateSnake(Some(direction));
    }

    /** One tick of deltaTime seconds; draws stands for the values the random
        generator would return to add_food, in order. */
    method Update(deltaTime: real, draws: seq<Block>)
      requires Valid()
      requires !isGameOver && !isFoodExists ==> DrawsFit(View(), draws)
      modifies this, snake
      ensures Valid()
      ensures View() == Updated(old(View()), deltaTime, draws)
    {
      waitingTime := waitingTime + deltaTime;
      ghost var s1 := View();
      assert s1 == old(View()).(waitingTime := old(waitingTime) + deltaTime);
      if isGameOver {
        if waitingTime > RestartTime {
          Restart();
        }
        return;
      }
      if !isFoodExists {
        assert DrawsFit(View(), draws) by {
          assert View().body == old(View()).body && View().width == old(View()).width;
        }
        AddFood(draws);
      }
      assert View() == if !s1.isFoodExists then FoodAdded(s1, draws) else s1;
      if waitingTime > MovingPeriod {
        UpdateSnake(None);
      }
    }

    method CheckEating()
      requires snake.Valid() && snake.tail.Some?
      modifies this`isFoodExists, snake
      ensures snake.Valid()
      ensures View() == Eat(old(View()))
    {
      var (x, y) := snake.HeadPosition();
      if xFoodCoordinate == x && yFoodCoordinate == y {
        isFoodExists := false;
        snake.RestoreTail();
      }
    }

    method CheckIfSnakeAlive(dir: Option<MovementDirection>) returns (alive: bool)
      requires snake.Valid()
      ensures alive == Alive(View(), dir)
    {
      var (x, y) := snake.NextHeadPosition(dir);
      var overlaps := snake.OverlapTail(x, y);
      if overlaps {
        return false;
      }
      return x > 0 && y > 0 && x < windowWidth && y < windowHeight;
    }

    /** Takes draws in order until one is off the body, and puts the food there. */
    method AddFood(draws: seq<Block>)
      requires Valid() && DrawsFit(View(), draws)
      modifies this`isFoodExists, this`xFoodCoordinate, this`yFoodCoordinate
      ensures Valid()
      ensures View() == FoodAdded(old(View()), draws)
    {
      var i := 0;
      var food := draws[0];
      var occupied := snake.OverlapTail(food.x, food.y);
      while occupied
        invariant 0 <= i < |draws| && food == draws[i]
        invariant occupied == OverlapsBeforeTail(snake.body, food)
        invariant exists c :: c in draws[i..] && !OverlapsBeforeTail(snake.body, c)
        invariant FirstFree(snake.body, draws) == FirstFree(snake.body, draws[i..])
        decreases |draws| - i
      {
        FirstFreeSkipsTakenDraw(snake.body, draws, i);
        i := i + 1;
        food := draws[i];
        occupied := snake.OverlapTail(food.x, food.y);
      }
      isFoodExists := true;
      xFoodCoordinate := food.x;
      yFoodCoordinate := food.y;
      FoodAddedKeepsInvariant(old(View()), draws);
    }

    method UpdateSnake(dir: Option<MovementDirection>)
      requires Valid()
      modifies this, snake
      ensures Valid() && snake == old(snake)
      ensures View() == StepSnake(old(View()), dir)
    {
      var alive := CheckIfSnakeAlive(dir);
      if alive {
        snake.MoveForward(dir);
        CheckEating();
      } else {
        isGameOver := true;
      }
      waitingTime := 0.0;
      StepKeepsInvariant(old(View()), dir);
    }

    method Restart()
      modifies this
      ensures Valid() && fresh(snake)
      ensures View() == Restarted(old(View()))
    {
      snake := new Snake(2, 2);
      isGameOver := false;
      isFoodExists := true;
      xFoodCoordinate := 5;
      yFoodCoordinate := 5;
      waitingTime := 0.0;
      RestartedInvariant(old(View()));
    }
  }
}
