/**
 * The snake game's tick state machine: a snake body of grid cells (head
 * first), a fruit, a score, a particle list and a game-over flag, advanced
 * one tick per frame in the direction last steered by a gesture.
 */
module Snake {
  import opened Optional
  import opened Compass
  import opened Grid
  import opened Particles

  /** Pixels per grid cell. */
  const GridSize := 20
  /** Frames per second without and with the pinch boost. */
  const BaseSpeed := 8
  const BoostSpeed := 15
  /** Points per eaten fruit. */
  const FruitScore := 10

  /** The part of the game state a tick changes, as a value. */
  datatype Board = Board(snake: seq<Cell>, fruit: Cell, score: int, gameOver: bool, particles: seq<Particle>)

  /** The body after the head moves to `head` without eating: the tail cell is given up. */
  function Moved(body: seq<Cell>, head: Cell): seq<Cell>
    requires body != []
  {
    [head] + body[..|body| - 1]
  }

  /**
   * The game's invariant on a `w` by `h` field: a non-empty body inside the
   * field with no cell twice, one segment per 10 points plus the head, the
   * fruit on a free cell of the field, and only living particles.
   */
  predicate WellFormed(b: Board, w: int, h: int) {
    && b.snake != []
    && AllInGrid(b.snake, w, h)
    && NoDuplicates(b.snake)
    && b.score >= 0
    && |b.snake| == b.score / FruitScore + 1
    && InGrid(b.fruit, w, h)
    && b.fruit !in b.snake
    && forall q :: q in b.particles ==> 0 < q.life <= ParticleLife
  }

  /** Whether the head, stepping in direction `d`, leaves the field or runs into the body. */
  predicate Blocked(b: Board, d: Direction, w: int, h: int)
    requires b.snake != []
  {
    var head := Step(b.snake[0], d);
    !InGrid(head, w, h) || head in b.snake
  }

  /** Whether a tick in direction `d` eats the fruit. */
  predicate Eats(b: Board, d: Direction, w: int, h: int)
    requires b.snake != []
  {
    !b.gameOver && !Blocked(b, d, w, h) && Step(b.snake[0], d) == b.fruit
  }

  /**
   * One tick in direction `d` on a `w` by `h` field. `respawn` is the cell
   * the fruit is placed on when it is eaten (the Python game draws it at
   * random). A finished game stays as it is, a tick that ends the game only
   * raises the flag, and the body grows by one segment and the score by 10
   * exactly when the fruit is eaten.
   */
  function Tick(b: Board, d: Direction, respawn: Cell, w: int, h: int): (r: Board)
    requires b.snake != []
    ensures r.snake != []
    ensures b.gameOver ==> r == b
    ensures r.gameOver ==> r == b.(gameOver := true)
    ensures |r.snake| == |b.snake| + (if Eats(b, d, w, h) then 1 else 0)
    ensures r.score == b.score + (if Eats(b, d, w, h) then FruitScore else 0)
  {
    if b.gameOver then b
    else
      var head := Step(b.snake[0], d);
      if !InGrid(head, w, h) then b.(gameOver := true)
      else if head in b.snake then b.(gameOver := true)
      else if head == b.fruit then
        b.(snake := [head] + b.snake, score := b.score + FruitScore, fruit := respawn,
           particles := Decayed(b.particles + Burst()))
      else
        b.(snake := Moved(b.snake, head), particles := Decayed(b.particles))
  }

  /**
   * What one tick does to a running game. It ends the game exactly when the
   * head would leave the field or hit the body, the tail cell included, and
   * then changes nothing else. Otherwise the head is the stepped cell and the
   * rest of the body is the old body, minus the tail unless the fruit was
   * eaten; eating adds one segment and 10 points, and every particle ages
   * one update, a fresh burst of 10 included when the fruit was eaten.
   */
  lemma TickOutcome(b: Board, d: Direction, respawn: Cell, w: int, h: int)
    requires WellFormed(b, w, h) && !b.gameOver
    ensures var r := Tick(b, d, respawn, w, h);
            var head := Step(b.snake[0], d);
            var ate := Eats(b, d, w, h);
            && (r.gameOver <==> !InGrid(head, w, h) || head in b.snake)
            && (r.gameOver ==> r == b.(gameOver := true))
            && (!r.gameOver ==> r.snake[0] == head && r.snake[1..] == b.snake[..|r.snake| - 1])
            && (!r.gameOver ==> |r.snake| == |b.snake| + (if ate then 1 else 0))
            && (!r.gameOver ==> r.score == b.score + (if ate then FruitScore else 0))
            && (!r.gameOver ==> r.fruit == if ate then respawn else b.fruit)
            && (!r.gameOver ==> r.particles == Decayed(b.particles) + (if ate then Decayed(Burst()) else []))
  {
    var head := Step(b.snake[0], d);
    if InGrid(head, w, h) && head !in b.snake && head == b.fruit {
      DecayedAppend(b.particles, Burst());
    }
  }

  /**
   * A tick keeps the game well-formed, provided the respawned fruit lands on
   * a free cell of the field when the fruit is eaten.
   */
  lemma TickPreservesWellFormed(b: Board, d: Direction, respawn: Cell, w: int, h: int)
    requires WellFormed(b, w, h)
    requires Eats(b, d, w, h) ==> InGrid(respawn, w, h) && respawn !in [Step(b.snake[0], d)] + b.snake
    ensures WellFormed(Tick(b, d, respawn, w, h), w, h)
  {
    if !b.gameOver {
      var head := Step(b.snake[0], d);
      if InGrid(head, w, h) && head !in b.snake {
        if head == b.fruit {
          PrependDistinct(b.snake, head);
          DecayedAppend(b.particles, Burst());
          DecayedBelow(b.particles, ParticleLife);
          DecayedBelow(Burst(), ParticleLife);
        } else {
          var kept := b.snake[..|b.snake| - 1];
          assert forall c :: c in kept ==> c in b.snake;
          assert NoDuplicates(kept);
          PrependDistinct(kept, head);
          assert b.fruit != b.snake[|b.snake| - 1];
          DecayedBelow(b.particles, ParticleLife);
        }
      }
    }
  }

  /**
   * The direction the snake will take next after a gesture: any gesture but
   * the reversal of the current direction is adopted, and a reversal or no
   * gesture keeps the pending direction.
   */
  function Steer(direction: Direction, next: Direction, gesture: Option<Direction>): (r: Direction)
    ensures gesture.None? ==> r == next
    ensures gesture.Some? && gesture.value == Opposite(direction) ==> r == next
    ensures gesture.Some? && gesture.value != Opposite(direction) ==> r == gesture.value
  {
    match gesture
    case None => next
    case Some(g) =>
      if g == Up && direction != Down then Up
      else if g == Down && direction != Up then Down
      else if g == Left && direction != Right then Left
      else if g == Right && direction != Left then Right
      else next
  }

  /** Steering alone never turns the snake back on itself unless that was already pending. */
  lemma SteerNeverReverses(direction: Direction, next: Direction, gesture: Option<Direction>)
    requires next != Opposite(direction)
    ensures Steer(direction, next, gesture) != Opposite(direction)
  {
  }

  class SnakeGame {
    const gridWidth: int
    const gridHeight: int
    var snake: seq<Cell>
    var direction: Direction
    var nextDirection: Direction
    var fruit: Cell
    var score: int
    var gameOver: bool
    var particles: seq<Particle>
    var currentSpeed: int

    /** The field has a cell for the head and one more for the fruit. */
    predicate RoomyGrid()
      reads this
    {
      1 <= gridWidth && 1 <= gridHeight && 2 <= gridWidth * gridHeight
    }

    function Snapshot(): Board
      reads this
    {
      Board(snake, fruit, score, gameOver, particles)
    }

    ghost predicate Valid()
      reads this
    {
      RoomyGrid() && WellFormed(Snapshot(), gridWidth, gridHeight)
    }

    function Center(): Cell
      reads this
    {
      (gridWidth / 2, gridHeight / 2)
    }

    /** A game on a `width` by `height` pixel window, cut into 20-pixel cells. */
    constructor (width: int, height: int)
      requires GridSize <= width && GridSize <= height
      requires 2 <= (width / GridSize) * (height / GridSize)
      ensures Valid()
      ensures gridWidth == width / GridSize && gridHeight == height / GridSize
      ensures snake == [Center()] && direction == Right && nextDirection == Right
      ensures score == 0 && !gameOver && particles == []
      ensures currentSpeed == BaseSpeed
    {
      gridWidth := width / GridSize;
      gridHeight := height / GridSize;
      new;
      ResetGame();
      currentSpeed := BaseSpeed;
    }

    /** Puts the game back in its initial state, a fresh fruit included. */
    method ResetGame()
      requires RoomyGrid()
      modifies this`snake, this`direction, this`nextDirection, this`fruit, this`score, this`gameOver,
               this`particles
      ensures Valid()
      ensures snake == [Center()] && direction == Right && nextDirection == Right
      ensures score == 0 && !gameOver && particles == []
    {
      snake := [Center()];
      direction := Right;
      nextDirection := Right;
      fruit := SpawnFruit();
      score := 0;
      gameOver := false;
      particles := [];
    }

    /**
     * A cell for the fruit, drawn at random until it is off the body: any
     * free cell of the field may come out.
     */
    method SpawnFruit() returns (cell: Cell)
      requires 0 <= gridWidth && 0 <= gridHeight
      requires AllInGrid(snake, gridWidth, gridHeight) && NoDuplicates(snake)
      requires |snake| < gridWidth * gridHeight
      ensures InGrid(cell, gridWidth, gridHeight) && cell !in snake
    {
      FreeCellExists(snake, gridWidth, gridHeight);
      cell :| InGrid(cell, gridWidth, gridHeight) && cell !in snake;
    }

    /** Appends a burst of 10 fresh particles. */
    method CreateParticles()
      modifies this`particles
      ensures particles == old(particles) + Burst()
    {
      var n := 0;
      while n < BurstSize
        invariant 0 <= n <= BurstSize
        invariant particles == old(particles) + Uniform(n, ParticleLife)
      {
        particles := particles + [Particle(ParticleLife)];
        n := n + 1;
        assert Uniform(n, ParticleLife) == Uniform(n - 1, ParticleLife) + [Particle(ParticleLife)];
      }
      assert Uniform(BurstSize, ParticleLife) == Burst();
    }

    /**
     * Ages every particle by one, removing those left without life: it walks
     * a copy of the list while the working list holds the already updated
     * survivors followed by the particles not yet visited, and stores the
     * working list when the walk ends.
     */
    method UpdateParticles()
      modifies this`particles
      ensures particles == Decayed(old(particles))
    {
      var copy := particles;
      var ps := particles;
      var i, k := 0, 0;
      while i < |copy|
        invariant 0 <= i <= |copy|
        invariant k == |Decayed(copy[..i])|
        invariant ps == Decayed(copy[..i]) + copy[i..]
      {
        UpdateStep(ps, copy, i, k);
        var p := Aged(copy[i]);
        if p.life <= 0 {
          ps := ps[..k] + ps[k + 1..];
        } else {
          ps := ps[..k] + [p] + ps[k + 1..];
          k := k + 1;
        }
        i := i + 1;
      }
      assert copy[..|copy|] == copy;
      particles := ps;
    }

    /**
     * The gesture part of input handling: steers the pending direction and
     * picks the frame rate from the boost flag.
     */
    method HandleInput(gesture: Option<Direction>, boost: bool)
      modifies this`nextDirection, this`currentSpeed
      ensures nextDirection == Steer(direction, old(nextDirection), gesture)
      ensures currentSpeed == if boost then BoostSpeed else BaseSpeed
    {
      if gesture.Some? {
        var g := gesture.value;
        if g == Up && direction != Down {
          nextDirection := Up;
        } else if g == Down && direction != Up {
          nextDirection := Down;
        } else if g == Left && direction != Right {
          nextDirection := Left;
        } else if g == Right && direction != Left {
          nextDirection := Right;
        }
      }
      currentSpeed := if boost then BoostSpeed else BaseSpeed;
    }

    /**
     * The move that eats the fruit must leave a free cell for the next one;
     * otherwise the Python game's fruit placement never returns.
     */
    predicate FruitCanRespawn(d: Direction)
      reads this
      requires snake != []
    {
      !gameOver && Step(snake[0], d) == fruit ==> |snake| + 1 < gridWidth * gridHeight
    }

    /** One tick: a no-op once the game is over, otherwise `Tick` in the pending direction. */
    method Update()
      requires Valid()
      requires FruitCanRespawn(nextDirection)
      modifies this`direction, this`snake, this`fruit, this`score, this`gameOver, this`particles
      ensures Valid()
      ensures direction == if old(gameOver) then old(direction) else old(nextDirection)
      ensures Snapshot() == Tick(old(Snapshot()), old(nextDirection), fruit, gridWidth, gridHeight)
    {
      if gameOver {
        return;
      }
      ghost var before := Snapshot();
      direction := nextDirection;
      var head := Step(snake[0], direction);
      if !InGrid(head, gridWidth, gridHeight) {
        gameOver := true;
        TickPreservesWellFormed(before, direction, fruit, gridWidth, gridHeight);
        return;
      }
      if head in snake {
        gameOver := true;
        TickPreservesWellFormed(before, direction, fruit, gridWidth, gridHeight);
        return;
      }
      snake := [head] + snake;
      if head == fruit {
        score := score + FruitScore;
        CreateParticles();
        PrependDistinct(before.snake, head);
        fruit := SpawnFruit();
      } else {
        snake := snake[..|snake| - 1];
      }
      UpdateParticles();
      TickPreservesWellFormed(before, direction, fruit, gridWidth, gridHeight);
    }

    /**
     * One frame: gesture input, then a restart when the game is over and the
     * gesture is UP, then a tick if the game is running. A restart is
     * followed by a tick in the same frame, so the new snake has already
     * moved one cell to the right when the frame ends.
     */
    method RunFrame(gesture: Option<Direction>, boost: bool)
      requires Valid()
      requires FruitCanRespawn(Steer(direction, nextDirection, gesture))
      modifies this`direction, this`nextDirection, this`snake, this`fruit, this`score, this`gameOver,
               this`particles, this`currentSpeed
      ensures Valid()
      ensures currentSpeed == if boost then BoostSpeed else BaseSpeed
      ensures !old(gameOver) ==>
                && direction == nextDirection == Steer(old(direction), old(nextDirection), gesture)
                && Snapshot() == Tick(old(Snapshot()), direction, fruit, gridWidth, gridHeight)
      ensures old(gameOver) && gesture != Some(Up) ==>
                && Snapshot() == old(Snapshot())
                && direction == old(direction)
                && nextDirection == Steer(old(direction), old(nextDirection), gesture)
      ensures old(gameOver) && gesture == Some(Up) ==>
                && direction == Right && nextDirection == Right
                && (!InGrid(Step(Center(), Right), gridWidth, gridHeight) ==>
                      gameOver && snake == [Center()] && score == 0 && particles == [])
                && (InGrid(Step(Center(), Right), gridWidth, gridHeight) ==>
                      && !gameOver
                      && ((snake == [Step(Center(), Right)] && score == 0 && particles == [])
                          || (snake == [Step(Center(), Right), Center()] && score == FruitScore
                              && particles == Decayed(Burst()))))
    {
      HandleInput(gesture, boost);
      if gameOver && gesture == Some(Up) {
        ResetGame();
        assert InGrid(Step(Center(), Right), gridWidth, gridHeight) ==> 3 <= gridWidth * gridHeight;
        assert [] + Burst() == Burst();
      }
      if !gameOver {
        Update();
      }
    }
  }
}
