/**
  Properties of the snake tick: how the key, the meal and the collision
  rules interact, and the shape invariant a game keeps from its start until
  it ends.
 */
module SnakeProperties {
  import opened Wrappers
  import opened Snake

  /** Consecutive body cells share a side. */
  predicate Connected(snake: seq<Cell>)
  {
    forall i :: 0 <= i < |snake| - 1 ==> Adjacent(snake[i], snake[i + 1])
  }

  /** No cell is occupied twice. */
  predicate Distinct(snake: seq<Cell>)
  {
    forall i, j :: 0 <= i < j < |snake| ==> snake[i] != snake[j]
  }

  /**
    What holds of every game reachable from the start: a connected body of
    at least three cells, food in the food area and off the body, the score
    paying `foodValue` per grown cell, and the timeout matching the score;
    while the game runs, the body is free of overlaps and inside the walls.
   */
  predicate Healthy(g: Game, foodValue: int, height: int, width: int)
  {
    && |g.snake| >= 3
    && Connected(g.snake)
    && InFoodArea(g.food, height, width)
    && g.food !in g.snake
    && g.score == foodValue * (|g.snake| - 3)
    && g.timeout == Timeout(g.score)
    && (!g.over ==> Distinct(g.snake) && forall i :: 0 <= i < |g.snake| ==> !HitsWall(g.snake[i], height, width))
  }

  /** One tick's input: the key read and the random food draws available. */
  datatype Tick = Tick(key: int, draws: seq<Cell>)

  predicate TicksInFoodArea(ticks: seq<Tick>, height: int, width: int)
  {
    forall i :: 0 <= i < |ticks| ==> DrawsInFoodArea(ticks[i].draws, height, width)
  }

  /** The game loop: ticks until the game is over or the input runs out. */
  function Run(g: Game, ticks: seq<Tick>, foodValue: int, height: int, width: int): (r: Option<Game>)
    requires |g.snake| > 0
    requires TicksInFoodArea(ticks, height, width)
    ensures r.Some? ==> |r.value.snake| > 0
    ensures r.Some? && !r.value.over ==> |r.value.snake| >= |g.snake|
    decreases |ticks|
  {
    if g.over || |ticks| == 0 then Some(g)
    else
      match Step(g, ticks[0].key, foodValue, height, width, ticks[0].draws)
      case None => None
      case Some(g') =>
        assert TicksInFoodArea(ticks[1..], height, width) by {
          forall i | 0 <= i < |ticks[1..]| ensures DrawsInFoodArea(ticks[1..][i].draws, height, width) {
            assert ticks[1..][i] == ticks[i + 1];
          }
        }
        Run(g', ticks[1..], foodValue, height, width)
  }

  /** Between 0 and 500 points every further 50 points take 5 ms off the tick timeout. */
  lemma TimeoutStepsDown(score: int)
    requires 0 <= score < 450
    ensures Timeout(score + 50) == Timeout(score) - 5
  {
    assert (score + 50) / 50 == score / 50 + 1;
  }

  /** An arrow key pointing straight back is ignored: the tick is the same as with no key. */
  lemma ReverseKeyIgnored(g: Game, key: int, foodValue: int, height: int, width: int, draws: seq<Cell>)
    requires |g.snake| > 0
    requires DrawsInFoodArea(draws, height, width)
    requires ArrowKey(key) == Some(Opposite(g.dir))
    ensures Step(g, key, foodValue, height, width, draws) == Step(g, NoKey, foodValue, height, width, draws)
    ensures Turn(g.dir, key) == g.dir
  {
  }

  /**
    The collision test runs after the tail is dropped: the new head collides
    with the body iff it lands on an old cell other than the tail, or on any
    old cell when the snake has just eaten.
   */
  lemma CollisionAgainstOldBody(g: Game, key: int, foodValue: int, height: int, width: int, draws: seq<Cell>)
    requires |g.snake| > 0
    requires DrawsInFoodArea(draws, height, width)
    requires Step(g, key, foodValue, height, width, draws).Some?
    ensures var r := Step(g, key, foodValue, height, width, draws).value;
            var head := Move(g.snake[0], Turn(g.dir, key));
            r.over <==> HitsWall(head, height, width)
                        || (head == g.food && head in g.snake)
                        || (head != g.food && head in g.snake[..|g.snake| - 1])
  {
    var r := Step(g, key, foodValue, height, width, draws).value;
    assert r.snake[1..] == if r.snake[0] == g.food then g.snake else g.snake[..|g.snake| - 1];
  }

  /** Moving onto the cell the tail is just leaving is not a collision. */
  lemma TailChaseIsSafe(g: Game, key: int, foodValue: int, height: int, width: int, draws: seq<Cell>)
    requires |g.snake| > 1
    requires Distinct(g.snake)
    requires DrawsInFoodArea(draws, height, width)
    requires Move(g.snake[0], Turn(g.dir, key)) == g.snake[|g.snake| - 1]
    requires g.food !in g.snake
    requires !HitsWall(g.snake[|g.snake| - 1], height, width)
    ensures Step(g, key, foodValue, height, width, draws).Some?
    ensures !Step(g, key, foodValue, height, width, draws).value.over
  {
    var tail := g.snake[|g.snake| - 1];
    assert forall i :: 0 <= i < |g.snake| - 1 ==> g.snake[i] != tail;
    assert tail !in g.snake[..|g.snake| - 1];
    CollisionAgainstOldBody(g, key, foodValue, height, width, draws);
  }

  /**
    A snake heading right with no turn whose head is next to the right wall
    ends the game on this tick, and the score does not change.
   */
  lemma RightWallEndsGame(g: Game, key: int, foodValue: int, height: int, width: int, draws: seq<Cell>)
    requires |g.snake| == 3
    requires g.dir == Right
    requires ArrowKey(key).None?
    requires g.snake[0].col + 1 >= width - 2
    requires InFoodArea(g.food, height, width)
    requires DrawsInFoodArea(draws, height, width)
    ensures Step(g, key, foodValue, height, width, draws).Some?
    ensures Step(g, key, foodValue, height, width, draws).value.over
    ensures Step(g, key, foodValue, height, width, draws).value.score == g.score
    ensures |Step(g, key, foodValue, height, width, draws).value.snake| == 3
  {
    var head := Move(g.snake[0], Turn(g.dir, key));
    assert head.col == g.snake[0].col + 1;
    assert head != g.food;
  }

  /**
    Eating grows the body by exactly one cell and the score by exactly
    `foodValue` compared with the tick that does not eat.
   */
  lemma EatingGrowsByOne(g: Game, key: int, foodValue: int, height: int, width: int, draws: seq<Cell>)
    requires |g.snake| > 0
    requires DrawsInFoodArea(draws, height, width)
    requires Step(g, key, foodValue, height, width, draws).Some?
    ensures var r := Step(g, key, foodValue, height, width, draws).value;
            if Move(g.snake[0], Turn(g.dir, key)) == g.food
            then |r.snake| == |g.snake| + 1 && r.score == g.score + foodValue
            else |r.snake| == |g.snake| && r.score == g.score
  {
  }

  /** The timeout never rises as the score rises. */
  lemma TimeoutNonIncreasing(a: int, b: int)
    requires a <= b
    ensures Timeout(b) <= Timeout(a)
  {
  }

  /** The opening game satisfies the invariant. */
  lemma StartIsHealthy(foodValue: int, height: int, width: int, draws: seq<Cell>)
    requires BoardFits(height, width)
    requires DrawsInFoodArea(draws, height, width)
    ensures var r := Start(height, width, draws);
            r.Some? ==> Healthy(r.value, foodValue, height, width)
  {
  }

  /** A new head next to the first cell extends a connected body. */
  lemma ConnectedCons(head: Cell, body: seq<Cell>)
    requires |body| > 0 && Connected(body) && Adjacent(head, body[0])
    ensures Connected([head] + body)
  {
    var s := [head] + body;
    forall i | 0 <= i < |s| - 1 ensures Adjacent(s[i], s[i + 1]) {
      if i > 0 {
        assert s[i] == body[i - 1] && s[i + 1] == body[i];
      }
    }
  }

  /** A new head off the body extends a body without overlaps. */
  lemma DistinctCons(head: Cell, body: seq<Cell>)
    requires Distinct(body) && head !in body
    ensures Distinct([head] + body)
  {
    var s := [head] + body;
    forall i, j | 0 <= i < j < |s| ensures s[i] != s[j] {
      assert s[j] == body[j - 1];
      if i > 0 {
        assert s[i] == body[i - 1];
      }
    }
  }

  /** Cutting off the tail keeps a body connected and free of overlaps. */
  lemma PrefixKeepsShape(body: seq<Cell>, k: nat)
    requires 1 <= k <= |body|
    requires Connected(body)
    ensures Connected(body[..k])
    ensures Distinct(body) ==> Distinct(body[..k])
    ensures forall i :: 0 <= i < k ==> body[..k][i] == body[i]
  {
  }

  /** The wall check on the new head, with the old body inside the walls, keeps the whole body inside. */
  lemma ConsInsideWalls(head: Cell, body: seq<Cell>, height: int, width: int)
    requires !HitsWall(head, height, width)
    requires forall i :: 0 <= i < |body| ==> !HitsWall(body[i], height, width)
    ensures forall i :: 0 <= i < |[head] + body| ==> !HitsWall(([head] + body)[i], height, width)
  {
    var s := [head] + body;
    forall i | 0 <= i < |s| ensures !HitsWall(s[i], height, width) {
      if i > 0 {
        assert s[i] == body[i - 1];
      }
    }
  }

  /**
    The state after a tick is healthy when its body is a new head in front
    of `body`, where `body` is the old body itself (a meal, paid for in the
    score) or the old body without its tail (no meal).
   */
  lemma MovedHealthy(g: Game, g': Game, body: seq<Cell>, foodValue: int, height: int, width: int)
    requires Healthy(g, foodValue, height, width) && !g.over
    requires body == g.snake || body == g.snake[..|g.snake| - 1]
    requires |g'.snake| > 0 && g'.snake == [g'.snake[0]] + body
    requires Adjacent(g'.snake[0], g.snake[0])
    requires g'.score == foodValue * (|g'.snake| - 3)
    requires g'.timeout == Timeout(g'.score)
    requires InFoodArea(g'.food, height, width) && g'.food !in g'.snake
    requires g'.over <==> Collides(g'.snake, height, width)
    ensures Healthy(g', foodValue, height, width)
  {
    var head := g'.snake[0];
    var n := |g.snake|;
    PrefixKeepsShape(g.snake, n - 1);
    assert |body| > 0 && body[0] == g.snake[0];
    assert forall i :: 0 <= i < |body| ==> !HitsWall(body[i], height, width);
    ConnectedCons(head, body);
    if !g'.over {
      assert g'.snake[1..] == body;
      DistinctCons(head, body);
      ConsInsideWalls(head, body, height, width);
    }
  }

  /** A tick that eats keeps the invariant. */
  lemma EatKeepsHealthy(g: Game, key: int, foodValue: int, height: int, width: int, draws: seq<Cell>)
    requires Healthy(g, foodValue, height, width)
    requires !g.over
    requires DrawsInFoodArea(draws, height, width)
    requires Move(g.snake[0], Turn(g.dir, key)) == g.food
    ensures var r := Step(g, key, foodValue, height, width, draws);
            r.Some? ==> Healthy(r.value, foodValue, height, width)
  {
    var r := Step(g, key, foodValue, height, width, draws);
    if r.Some? {
      var g' := r.value;
      var grown := |g.snake| - 3;
      assert |g'.snake| - 3 == grown + 1;
      assert foodValue * (grown + 1) == foodValue * grown + foodValue;
      MovedHealthy(g, g', g.snake, foodValue, height, width);
    }
  }

  /** A tick that does not eat keeps the invariant. */
  lemma SlideKeepsHealthy(g: Game, key: int, foodValue: int, height: int, width: int, draws: seq<Cell>)
    requires Healthy(g, foodValue, height, width)
    requires !g.over
    requires DrawsInFoodArea(draws, height, width)
    requires Move(g.snake[0], Turn(g.dir, key)) != g.food
    ensures var r := Step(g, key, foodValue, height, width, draws);
            r.Some? ==> Healthy(r.value, foodValue, height, width)
  {
    var g' := Step(g, key, foodValue, height, width, draws).value;
    var body := g.snake[..|g.snake| - 1];
    assert g.food !in body;
    MovedHealthy(g, g', body, foodValue, height, width);
  }

  /** A running tick keeps the invariant. */
  lemma StepKeepsHealthy(g: Game, key: int, foodValue: int, height: int, width: int, draws: seq<Cell>)
    requires Healthy(g, foodValue, height, width)
    requires !g.over
    requires DrawsInFoodArea(draws, height, width)
    ensures var r := Step(g, key, foodValue, height, width, draws);
            r.Some? ==> Healthy(r.value, foodValue, height, width)
  {
    if Move(g.snake[0], Turn(g.dir, key)) == g.food {
      EatKeepsHealthy(g, key, foodValue, height, width, draws);
    } else {
      SlideKeepsHealthy(g, key, foodValue, height, width, draws);
    }
  }

  /** Every game the loop reaches from a healthy one is healthy, and the score never drops. */
  lemma {:induction false} RunKeepsHealthy(g: Game, ticks: seq<Tick>, foodValue: int, height: int, width: int)
    requires Healthy(g, foodValue, height, width)
    requires TicksInFoodArea(ticks, height, width)
    ensures var r := Run(g, ticks, foodValue, height, width);
            r.Some? ==> Healthy(r.value, foodValue, height, width)
                        && (foodValue >= 0 ==> r.value.score >= g.score)
    decreases |ticks|
  {
    if g.over || |ticks| == 0 {
    } else {
      var s := Step(g, ticks[0].key, foodValue, height, width, ticks[0].draws);
      if s.Some? {
        StepKeepsHealthy(g, ticks[0].key, foodValue, height, width, ticks[0].draws);
        assert TicksInFoodArea(ticks[1..], height, width) by {
          forall i | 0 <= i < |ticks[1..]| ensures DrawsInFoodArea(ticks[1..][i].draws, height, width) {
            assert ticks[1..][i] == ticks[i + 1];
          }
        }
        RunKeepsHealthy(s.value, ticks[1..], foodValue, height, width);
        assert foodValue >= 0 ==> s.value.score >= g.score;
      }
    }
  }
}
