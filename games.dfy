/** The per-tick state machine of the game (`struct Game`, `enum Step`,
    and the input and pacing logic of `Game::play`). */
module Games {
  import opened Positions
  import opened Snakes

  /** Milliseconds slept after a tick moving vertically / horizontally. */
  const UP_DOWN_TICK: nat := 150
  const LEFT_RIGHT_TICK: nat := 50
  /** Rows 1 and 2 hold the score line and the border. */
  const HEADER_SPACE: u16 := 2

  /** Rust's `u32`: the apple counter. */
  type u32 = n: int | 0 <= n < 0x1_0000_0000

  const U32_MAX: int := 0xFFFF_FFFF

  datatype Option<T> = None | Some(value: T)

  /** The keys termion reports; only the ones the game reads are told apart. */
  datatype Key = Char(c: char) | ArrowLeft | ArrowRight | ArrowUp | ArrowDown | OtherKey

  datatype Event = KeyPress(key: Key) | Mouse | Unsupported

  /** Why a game ended; stands for the formatted `Done` messages. */
  datatype Reason =
    | SelfIntercept(at: Pos)       // the new head hit the body; names the head
    | XOut(width: u16, at: Pos)    // the column test failed; the message names width and head
    | YOut                         // the row test failed; the message has no arguments

  /** `enum Step`: the outcome of one tick. */
  datatype Step =
    | Done(reason: Reason)
    | Continuing(diffAdd: seq<Pos>, diffNeg: seq<Pos>, apple: Option<Pos>)
    | Quite

  /** `Step::is_continuing`: only `Continuing` keeps the loop going. */
  function IsContinuing(step: Step): (r: bool)
    ensures r <==> step.Continuing?
    ensures step == Quite || step.Done? ==> !r
  {
    match step
    case Continuing(_, _, _) => true
    case _ => false
  }

  /** The direction a key asks for, if it is one of the steering keys. */
  function KeyDirection(k: Key): Option<Direction>
  {
    match k
    case Char('l') => Some(Right)
    case ArrowRight => Some(Right)
    case Char('h') => Some(Left)
    case ArrowLeft => Some(Left)
    case Char('k') => Some(Up)
    case ArrowUp => Some(Up)
    case Char('j') => Some(Down)
    case ArrowDown => Some(Down)
    case _ => None
  }

  predicate IsQuit(event: Option<Event>)
  {
    event == Some(KeyPress(Char('q')))
  }

  /** The heading after `event` under the no-reverse rule: a steering key is
      obeyed unless it names the reverse of `current`. */
  function NextDirection(current: Direction, event: Option<Event>): Direction
  {
    match event
    case Some(KeyPress(k)) =>
      (match KeyDirection(k)
       case Some(d) => if d == Opposite(current) then current else d
       case None => current)
    case _ => current
  }

  /** The new heading is never the reverse of the old one; a steering key that
      is not a reversal is obeyed; anything else keeps the heading. */
  lemma NoReverse(current: Direction, event: Option<Event>)
    ensures NextDirection(current, event) != Opposite(current)
    ensures forall k, d :: event == Some(KeyPress(k)) && KeyDirection(k) == Some(d) && d != Opposite(current)
                           ==> NextDirection(current, event) == d
    ensures (event.Some? && event.value.KeyPress? && KeyDirection(event.value.key) == Some(Opposite(current)))
            ==> NextDirection(current, event) == current
    ensures (event.None? || !event.value.KeyPress? || KeyDirection(event.value.key).None?)
            ==> NextDirection(current, event) == current
  {
    OppositeInvolution(current);
  }

  /** The fields of `struct Game`, as a value. */
  datatype GameState = GameState(body: seq<Pos>, direction: Direction, apple: Pos, apples: u32)

  /** The tick can run without a `u16` or `u32` overflow: the head can move in
      the new heading, and the counter can grow if the snake eats. */
  predicate TickSafe(s: GameState, event: Option<Event>)
  {
    |s.body| > 0 &&
    (!IsQuit(event) ==>
       CanShift(s.body[0], NextDirection(s.direction, event)) &&
       (s.body[0] == s.apple ==> s.apples < U32_MAX))
  }

  /** The outcome after the body moved from `before` to `after`, in the order
      the game checks it. */
  function Classify(before: seq<Pos>, after: seq<Pos>, x: u16, y: u16, apple: Pos): Step
    requires |after| > 0
  {
    var h := after[0];
    if h in before then Done(SelfIntercept(h))
    else if h.x < HEADER_SPACE || h.x > x then Done(XOut(x, h))
    else if h.y < HEADER_SPACE || h.y > y then Done(YOut)
    else Continuing(Difference(after, before), Difference(before, after), Some(apple))
  }

  /** One tick of `Game::compute_step` on a terminal of `x` columns and `y`
      rows; `nextApple` stands for the random apple spawned when the snake eats. */
  function Tick(s: GameState, x: u16, y: u16, event: Option<Event>, nextApple: Pos): (GameState, Step)
    requires TickSafe(s, event)
  {
    if IsQuit(event) then (s, Quite)
    else
      var d := NextDirection(s.direction, event);
      var ate := s.body[0] == s.apple;
      var body := Advance(s.body, d, s.apple);
      var s' := GameState(body, d, if ate then nextApple else s.apple, if ate then s.apples + 1 else s.apples);
      (s', Classify(s.body, body, x, y, s'.apple))
  }

  /** `q` ends the game at once and leaves every field as it was. */
  lemma QuitChangesNothing(s: GameState, x: u16, y: u16, event: Option<Event>, nextApple: Pos)
    requires TickSafe(s, event) && IsQuit(event)
    ensures Tick(s, x, y, event, nextApple) == (s, Quite)
    ensures !IsContinuing(Tick(s, x, y, event, nextApple).1)
  {
  }

  /** Apple bookkeeping: the snake eats exactly when its head before the move
      is on the apple; then the counter rises by one, the apple is replaced and
      the body grows by one cell, otherwise all three stay. */
  lemma TickEating(s: GameState, x: u16, y: u16, event: Option<Event>, nextApple: Pos)
    requires TickSafe(s, event) && !IsQuit(event)
    ensures var s' := Tick(s, x, y, event, nextApple).0;
      var ate := s.body[0] == s.apple;
      && s'.direction == NextDirection(s.direction, event)
      && s'.body[0] == Shift(s.body[0], s'.direction)
      && s'.apples == s.apples + (if ate then 1 else 0)
      && s'.apple == (if ate then nextApple else s.apple)
      && |s'.body| == |s.body| + (if ate then 1 else 0)
      && |s'.body| - s'.apples == |s.body| - s.apples
  {
  }

  /** The outcome classification: self-intercept first, then the column test,
      then the row test; only a head off the old body and inside columns and
      rows 2..x, 2..y keeps the game going. */
  lemma TickOutcome(s: GameState, x: u16, y: u16, event: Option<Event>, nextApple: Pos)
    requires TickSafe(s, event) && !IsQuit(event)
    ensures var (s', step) := Tick(s, x, y, event, nextApple);
      var h := s'.body[0];
      && (step == Done(SelfIntercept(h)) <==> h in s.body)
      && (step == Done(XOut(x, h)) <==> h !in s.body && (h.x < 2 || h.x > x))
      && (step == Done(YOut) <==> h !in s.body && 2 <= h.x <= x && (h.y < 2 || h.y > y))
      && (IsContinuing(step) <==> h !in s.body && 2 <= h.x <= x && 2 <= h.y <= y)
  {
  }

  /** The redraw delta of a continuing tick on a snake without repeated cells:
      the only cell painted is the new head, and the only cell erased is the
      old tail, unless the snake ate and kept it; the apple is always redrawn.
      The body still has no repeated cell. */
  lemma ContinuingDelta(s: GameState, x: u16, y: u16, event: Option<Event>, nextApple: Pos)
    requires TickSafe(s, event) && NoDuplicates(s.body)
    requires Tick(s, x, y, event, nextApple).1.Continuing?
    ensures var r := Tick(s, x, y, event, nextApple);
      && r.1.diffAdd == [r.0.body[0]]
      && r.1.diffNeg == (if s.body[0] == s.apple then [] else [s.body[|s.body| - 1]])
      && r.1.apple == Some(r.0.apple)
      && NoDuplicates(r.0.body)
  {
    var d := NextDirection(s.direction, event);
    var r := Tick(s, x, y, event, nextApple);
    assert r.0.body == Advance(s.body, d, s.apple);
    assert r.0.body[0] !in s.body;
    assert r.1 == Continuing(Difference(r.0.body, s.body), Difference(s.body, r.0.body), Some(r.0.apple));
    AdvanceDelta(s.body, d, s.apple);
  }

  /** Eating is judged on the head before the move: a snake whose next cell
      is the apple does not eat on that tick but on the following one, when it
      grows from the cell the apple was on. */
  lemma EatingLagsOneTick()
    ensures var s0 := GameState([Pos(10, 10)], Right, Pos(11, 10), 0);
      var r1 := Tick(s0, 40, 20, None, Pos(5, 5));
      var r2 := Tick(r1.0, 40, 20, None, Pos(5, 5));
      && r1 == (GameState([Pos(11, 10)], Right, Pos(11, 10), 0),
                Continuing([Pos(11, 10)], [Pos(10, 10)], Some(Pos(11, 10))))
      && r2 == (GameState([Pos(12, 10), Pos(11, 10)], Right, Pos(5, 5), 1),
                Continuing([Pos(12, 10)], [], Some(Pos(5, 5))))
  {
    var s0 := GameState([Pos(10, 10)], Right, Pos(11, 10), 0);
    var s1 := GameState([Pos(11, 10)], Right, Pos(11, 10), 0);
    assert Tick(s0, 40, 20, None, Pos(5, 5)).0 == s1;
    DifferenceOneCellSnakes();
    DifferenceSingle(Pos(11, 10), [Pos(10, 10)]);
    DifferenceSingle(Pos(10, 10), [Pos(11, 10)]);
    var body2 := [Pos(12, 10), Pos(11, 10)];
    assert Tick(s1, 40, 20, None, Pos(5, 5)).0.body == body2;
    DifferenceAppend([Pos(12, 10)], [Pos(11, 10)], [Pos(11, 10)]);
    DifferenceSingle(Pos(12, 10), [Pos(11, 10)]);
    DifferenceSingle(Pos(11, 10), [Pos(11, 10)]);
    assert body2 == [Pos(12, 10)] + [Pos(11, 10)];
    DifferenceSingle(Pos(11, 10), body2);
  }

  /** The first wall test is on the column and the second on the row: leaving
      through the right edge yields `XOut` (whose message speaks of top and
      bottom), leaving through the top yields `YOut` (whose message speaks of
      the sides). */
  lemma WallTestsByAxis()
    ensures Tick(GameState([Pos(22, 10)], Right, Pos(5, 5), 0), 22, 20, None, Pos(5, 5)).1
            == Done(XOut(22, Pos(23, 10)))
    ensures Tick(GameState([Pos(10, 2)], Up, Pos(5, 5), 0), 22, 20, None, Pos(5, 5)).1
            == Done(YOut)
  {
  }

  /** `Game::play` drains the input queue and keeps only the last event. */
  function LastEvent(queue: seq<Event>): Option<Event>
  {
    if queue == [] then None else Some(queue[|queue| - 1])
  }

  /** The input-coalescing loop of `Game::play`: take one event, then keep
      overwriting it while the queue yields more. */
  method Drain(queue: seq<Event>) returns (next: Option<Event>)
    ensures queue == [] ==> next == None
    ensures queue != [] ==> next == Some(queue[|queue| - 1])
  {
    var i := 0;
    next := None;
    if i < |queue| {
      next := Some(queue[i]);
      i := i + 1;
    }
    while i < |queue|
      invariant 0 <= i <= |queue|
      invariant queue != [] ==> i > 0
      invariant next == if i == 0 then None else Some(queue[i - 1])
    {
      next := Some(queue[i]);
      i := i + 1;
    }
  }

  /** The sleep after a tick: longer for vertical moves, so that tall terminal
      cells do not make vertical motion look faster. */
  function TickLength(d: Direction): (ms: nat)
    ensures ms == UP_DOWN_TICK <==> d == Up || d == Down
    ensures ms == LEFT_RIGHT_TICK <==> d == Left || d == Right
  {
    if IsUpdown(d) then UP_DOWN_TICK else LEFT_RIGHT_TICK
  }

  /** What the loop samples in one tick: the terminal size, the events queued
      since the last tick, and the position the random source would give. */
  datatype TickInput = TickInput(width: u16, height: u16, queue: seq<Event>, nextApple: Pos)

  /** The head is at least one cell away from every `u16` limit, so a move in
      any direction is safe. */
  predicate Ready(s: GameState)
  {
    |s.body| > 0 && 0 < s.body[0].x < U16_MAX && 0 < s.body[0].y < U16_MAX
  }

  predicate SizesFit(ticks: seq<TickInput>)
  {
    forall i :: 0 <= i < |ticks| ==> ticks[i].width < U16_MAX && ticks[i].height < U16_MAX
  }

  /** A continuing tick leaves the head inside the terminal, hence Ready. */
  lemma ContinuingIsReady(s: GameState, x: u16, y: u16, event: Option<Event>, nextApple: Pos)
    requires TickSafe(s, event) && x < U16_MAX && y < U16_MAX
    requires IsContinuing(Tick(s, x, y, event, nextApple).1)
    ensures Ready(Tick(s, x, y, event, nextApple).0)
  {
  }

  /** Ticks of `Game::play` until a step is not continuing or the inputs run
      out: the final state, every step, and every pause. */
  function Run(s: GameState, ticks: seq<TickInput>): (GameState, seq<Step>, seq<nat>)
    requires Ready(s) && s.apples + |ticks| <= U32_MAX && SizesFit(ticks)
    decreases |ticks|
  {
    if ticks == [] then (s, [], [])
    else
      var t := ticks[0];
      var r := Tick(s, t.width, t.height, LastEvent(t.queue), t.nextApple);
      var pause := TickLength(r.0.direction);
      if !IsContinuing(r.1) then (r.0, [r.1], [pause])
      else
        ContinuingIsReady(s, t.width, t.height, LastEvent(t.queue), t.nextApple);
        var rest := Run(r.0, ticks[1..]);
        (rest.0, [r.1] + rest.1, [pause] + rest.2)
  }

  /** One tick of a run: a step that is not continuing ends it, a continuing
      step is followed by the run of the remaining ticks. */
  lemma RunUnfold(s: GameState, ticks: seq<TickInput>)
    requires Ready(s) && s.apples + |ticks| <= U32_MAX && SizesFit(ticks) && ticks != []
    ensures var t := ticks[0];
      var r := Tick(s, t.width, t.height, LastEvent(t.queue), t.nextApple);
      && (!IsContinuing(r.1) ==> Run(s, ticks) == (r.0, [r.1], [TickLength(r.0.direction)]))
      && (IsContinuing(r.1) ==>
            && Ready(r.0) && r.0.apples + |ticks[1..]| <= U32_MAX && SizesFit(ticks[1..])
            && Run(s, ticks) == (Run(r.0, ticks[1..]).0,
                                 [r.1] + Run(r.0, ticks[1..]).1,
                                 [TickLength(r.0.direction)] + Run(r.0, ticks[1..]).2))
  {
    var t := ticks[0];
    var e := LastEvent(t.queue);
    if IsContinuing(Tick(s, t.width, t.height, e, t.nextApple).1) {
      ContinuingIsReady(s, t.width, t.height, e, t.nextApple);
    }
  }

  /** A run stops exactly at its first non-continuing step, sleeps once per
      step, and the body grows by one cell for each apple counted. */
  lemma {:induction false} RunShape(s: GameState, ticks: seq<TickInput>)
    requires Ready(s) && s.apples + |ticks| <= U32_MAX && SizesFit(ticks)
    ensures var (f, steps, pauses) := Run(s, ticks);
      && |pauses| == |steps| <= |ticks|
      && (ticks != [] ==> |steps| > 0)
      && (forall i :: 0 <= i < |steps| - 1 ==> IsContinuing(steps[i]))
      && (0 < |steps| < |ticks| ==> !IsContinuing(steps[|steps| - 1]))
      && s.apples <= f.apples <= s.apples + |steps|
      && |f.body| - f.apples == |s.body| - s.apples
    decreases |ticks|
  {
    if ticks != [] {
      var t := ticks[0];
      var e := LastEvent(t.queue);
      var r := Tick(s, t.width, t.height, e, t.nextApple);
      if !IsQuit(e) {
        TickEating(s, t.width, t.height, e, t.nextApple);
      }
      if IsContinuing(r.1) {
        ContinuingIsReady(s, t.width, t.height, e, t.nextApple);
        RunShape(r.0, ticks[1..]);
      }
    }
  }

  class Game {
    var apple: Pos
    var snake: Snake
    var direction: Direction
    var apples: u32

    ghost predicate Valid()
      reads this, snake
    {
      snake.Valid()
    }

    /** The game's fields as a value. */
    function State(): GameState
      reads this, snake
    {
      GameState(snake.internal, direction, apple, apples)
    }

    /** `Game::new`: a one-cell snake in the middle of an `x` by `y` terminal,
        heading right, no apple eaten; `apple` is the first random apple. */
    constructor (x: u16, y: u16, apple: Pos)
      ensures Valid() && fresh(snake)
      ensures State() == GameState([Pos(x / 2, y / 2)], Right, apple, 0)
    {
      this.apple := apple;
      snake := new Snake(x / 2, y / 2);
      direction := Right;
      apples := 0;
    }

    /** The event handling at the start of `Game::compute_step`: a steering
        key turns the snake unless it would reverse it; `q` asks to quit. */
    method Steer(event: Option<Event>) returns (quit: bool)
      modifies this`direction
      ensures quit <==> IsQuit(event)
      ensures direction == if quit then old(direction) else NextDirection(old(direction), event)
    {
      quit := false;
      if event.Some? {
        match event.value {
          case KeyPress(Char('l')) | KeyPress(ArrowRight) =>
            if direction != Left {
              direction := Right;
            }
          case KeyPress(Char('h')) | KeyPress(ArrowLeft) =>
            if direction != Right {
              direction := Left;
            }
          case KeyPress(Char('k')) | KeyPress(ArrowUp) =>
            if direction != Down {
              direction := Up;
            }
          case KeyPress(Char('j')) | KeyPress(ArrowDown) =>
            if direction != Up {
              direction := Down;
            }
          case KeyPress(Char('q')) =>
            quit := true;
          case _ =>
        }
      }
    }

    /** `Game::compute_step`: apply the event, move, eat, classify. */
    method ComputeStep(x: u16, y: u16, event: Option<Event>, nextApple: Pos) returns (step: Step)
      requires Valid() && TickSafe(State(), event)
      modifies this, snake
      ensures Valid() && snake == old(snake)
      ensures (State(), step) == Tick(old(State()), x, y, event, nextApple)
    {
      ghost var s0 := State();
      var quit := Steer(event);
      if quit {
        return Quite;
      }
      assert direction == NextDirection(s0.direction, event);
      var prevSnake := snake.Clone();
      var ate := snake.MoveIn(direction, apple);
      if ate {
        apple := nextApple;
        apples := apples + 1;
      }
      assert State() == Tick(s0, x, y, event, nextApple).0;
      var head := snake.Head();
      assert prevSnake.internal == s0.body && head == snake.internal[0];
      if prevSnake.Contains(head) {
        step := Done(SelfIntercept(head));
      } else if head.x < HEADER_SPACE || head.x > x {
        step := Done(XOut(x, head));
      } else if head.y < HEADER_SPACE || head.y > y {
        step := Done(YOut);
      } else {
        var diffAdd := snake.Dif(prevSnake);
        var diffNeg := prevSnake.Dif(snake);
        assert diffAdd == Difference(snake.internal, s0.body);
        assert diffNeg == Difference(s0.body, snake.internal);
        step := Continuing(diffAdd, diffNeg, Some(apple));
      }
      assert step == Classify(s0.body, snake.internal, x, y, apple);
    }

    /** The game logic of `Game::play`: per tick, coalesce the queued events,
        compute the step, choose the pause, and stop after the first step that
        is not continuing; returns the apple count. */
    method Play(ticks: seq<TickInput>) returns (caught: u32, steps: seq<Step>, pauses: seq<nat>)
      requires Valid() && Ready(State()) && apples + |ticks| <= U32_MAX && SizesFit(ticks)
      modifies this, snake
      ensures Valid() && snake == old(snake)
      ensures (State(), steps, pauses) == Run(old(State()), ticks)
      ensures caught == apples
    {
      steps, pauses := [], [];
      var i := 0;
      var going := true;
      ghost var target := Run(State(), ticks);
      assert ticks[i..] == ticks;
      assert steps + target.1 == target.1 && pauses + target.2 == target.2;
      assert target == (Run(State(), ticks[i..]).0, steps + Run(State(), ticks[i..]).1, pauses + Run(State(), ticks[i..]).2);
      while going && i < |ticks|
        invariant Valid() && snake == old(snake)
        invariant 0 <= i <= |ticks|
        invariant going ==> Ready(State()) && apples + (|ticks| - i) <= U32_MAX && SizesFit(ticks[i..])
        invariant going ==> target == (Run(State(), ticks[i..]).0, steps + Run(State(), ticks[i..]).1, pauses + Run(State(), ticks[i..]).2)
        invariant !going ==> target == (State(), steps, pauses)
        decreases |ticks| - i
      {
        var t := ticks[i];
        ghost var before, doneSteps, donePauses := State(), steps, pauses;
        RunUnfold(before, ticks[i..]);
        assert ticks[i..][0] == t && ticks[i..][1..] == ticks[i + 1..];
        var event := Drain(t.queue);
        assert event == LastEvent(t.queue);
        ghost var r := Tick(before, t.width, t.height, event, t.nextApple);
        var step := ComputeStep(t.width, t.height, event, t.nextApple);
        assert State() == r.0 && step == r.1;
        var pause := TickLength(direction);
        steps, pauses := steps + [step], pauses + [pause];
        i := i + 1;
        going := IsContinuing(step);
        if going {
          ghost var rest := Run(State(), ticks[i..]);
          assert target == (rest.0, doneSteps + ([step] + rest.1), donePauses + ([pause] + rest.2));
          assert doneSteps + ([step] + rest.1) == steps + rest.1;
          assert donePauses + ([pause] + rest.2) == pauses + rest.2;
        }
      }
      if going {
        assert ticks[i..] == [];
        assert steps + [] == steps && pauses + [] == pauses;
      }
      caught := apples;
    }
  }
}
