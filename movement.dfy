/**
 * The player-movement rule of the event loop, stated on values: an arrow key
 * proposes a candidate position one cell away, the candidate is committed
 * only when the collision check reports it passable, and a quit event only
 * clears the running flag. A batch of polled events is processed in order.
 */
module Movement {
  import opened Maze

  /** The keys the handler tells apart; every other key code is `OtherKey`. */
  datatype Key = Left | Right | Up | Down | OtherKey(code: int)

  /** A polled event: a quit request, a key press, or any other event kind, which is ignored. */
  datatype Event = QuitEvent | KeyDown(key: Key) | OtherEvent

  /** A pixel position, the player's top-left render anchor. */
  datatype Pos = Pos(x: int, y: int)

  /** What the event handling reads and writes: the position and the `running` flag. */
  datatype State = State(pos: Pos, running: bool)

  /** The start position, one cell right of and one cell below the top-left corner. */
  const Start: Pos := Pos(CellSize, CellSize)

  /** The state when the game loop is entered. */
  const Initial: State := State(Start, true)

  predicate IsArrow(k: Key)
  {
    k.Left? || k.Right? || k.Up? || k.Down?
  }

  /** The arrow key pointing the other way. */
  function Opposite(k: Key): (o: Key)
    requires IsArrow(k)
    ensures IsArrow(o) && o != k
  {
    match k
    case Left => Right
    case Right => Left
    case Up => Down
    case Down => Up
  }

  /** Distance between two positions counted along the axes. */
  function Manhattan(p: Pos, q: Pos): (d: nat)
  {
    (if p.x <= q.x then q.x - p.x else p.x - q.x) + (if p.y <= q.y then q.y - p.y else p.y - q.y)
  }

  /**
   * The candidate position `(newX, newY)` for a key press: one step of 180
   * pixels along one axis for an arrow key, the current position for any
   * other key.
   */
  function Candidate(p: Pos, k: Key): (c: Pos)
    ensures IsArrow(k) ==> Manhattan(p, c) == CellSize && (c.x == p.x || c.y == p.y)
    ensures k.Left? ==> c.x < p.x
    ensures k.Right? ==> c.x > p.x
    ensures k.Up? ==> c.y < p.y
    ensures k.Down? ==> c.y > p.y
    ensures !IsArrow(k) ==> c == p
  {
    match k
    case Left => Pos(p.x - 180, p.y)
    case Right => Pos(p.x + 180, p.y)
    case Up => Pos(p.x, p.y - 180)
    case Down => Pos(p.x, p.y + 180)
    case OtherKey(_) => p
  }

  /** Whether a position may be occupied by the player. */
  predicate Passable(p: Pos)
  {
    !IsWall(p.x, p.y)
  }

  /** The effect of one polled event on the state. */
  function Step(s: State, e: Event): (t: State)
  {
    match e
    case QuitEvent => s.(running := false)
    case KeyDown(k) =>
      var c := Candidate(s.pos, k);
      if Passable(c) then s.(pos := c) else s
    case OtherEvent => s
  }

  /** The effect of a batch of polled events, taken in order. */
  function Run(s: State, events: seq<Event>): (t: State)
    decreases |events|
  {
    if events == [] then s else Run(Step(s, events[0]), events[1..])
  }

  /**
   * The outer game loop over successive polled batches, one per frame: it
   * stops before the next frame once `running` is false.
   */
  function PlayFrames(s: State, frames: seq<seq<Event>>): (t: State)
    decreases |frames|
  {
    if frames == [] || !s.running then s else PlayFrames(Run(s, frames[0]), frames[1..])
  }

  /** A position on a path cell of the grid: aligned to the cell size, in bounds and not a wall. */
  predicate OnPath(p: Pos)
  {
    0 <= p.x && 0 <= p.y && p.x % CellSize == 0 && p.y % CellSize == 0
    && !CellIsWall(p.y / CellSize, p.x / CellSize)
  }

  /** n presses of the same event. */
  function Repeat(e: Event, n: nat): (es: seq<Event>)
    ensures |es| == n
    ensures forall i :: 0 <= i < n ==> es[i] == e
  {
    if n == 0 then [] else [e] + Repeat(e, n - 1)
  }

  // ---------------------------------------------------------------------
  // Candidate positions

  /** The opposite arrow's candidate from a candidate is the position it came from. */
  lemma {:induction false} OppositeUndoes(p: Pos, k: Key)
    requires IsArrow(k)
    ensures Candidate(Candidate(p, k), Opposite(k)) == p
  {
  }

  /** An aligned passable position is on a path cell. */
  lemma {:induction false} PassableAlignedIsOnPath(p: Pos)
    requires p.x % CellSize == 0 && p.y % CellSize == 0
    ensures Passable(p) <==> OnPath(p)
  {
  }

  /** From a position on a path cell, every candidate stays within 32-bit signed range. */
  lemma {:induction false} CandidateFitsInt32(p: Pos, k: Key)
    requires OnPath(p)
    ensures -0x8000_0000 <= Candidate(p, k).x < 0x8000_0000
    ensures -0x8000_0000 <= Candidate(p, k).y < 0x8000_0000
  {
  }

  // ---------------------------------------------------------------------
  // One step

  /** A key press moves the player exactly to its candidate when that is passable, and otherwise not at all. */
  lemma {:induction false} KeyDownCommitsOnlyPassable(s: State, k: Key)
    ensures Step(s, KeyDown(k)).running == s.running
    ensures Passable(Candidate(s.pos, k)) ==> Step(s, KeyDown(k)).pos == Candidate(s.pos, k)
    ensures Step(s, KeyDown(k)).pos == s.pos || Step(s, KeyDown(k)).pos == Candidate(s.pos, k)
    ensures Step(s, KeyDown(k)).pos != s.pos ==> Passable(Step(s, KeyDown(k)).pos)
    ensures !Passable(Candidate(s.pos, k)) ==> Step(s, KeyDown(k)) == s
  {
  }

  /** Stepping from a path cell always leaves the player on a path cell. */
  lemma {:induction false} StepPreservesOnPath(s: State, e: Event)
    requires OnPath(s.pos)
    ensures OnPath(Step(s, e).pos)
  {
    if e.KeyDown? {
      var c := Candidate(s.pos, e.key);
      assert c.x % CellSize == 0 && c.y % CellSize == 0;
      PassableAlignedIsOnPath(c);
    }
  }

  /**
   * Reversal: when an arrow move from a passable position succeeds, the
   * opposite arrow right after it succeeds too and restores the position.
   */
  lemma {:induction false} MoveThenOppositeRestores(s: State, k: Key)
    requires IsArrow(k) && Passable(s.pos)
    requires Step(s, KeyDown(k)).pos != s.pos
    ensures Step(Step(s, KeyDown(k)), KeyDown(Opposite(k))) == s
  {
  }

  /** A quit event clears `running` and changes nothing else. */
  lemma {:induction false} QuitOnlyStops(s: State)
    ensures Step(s, QuitEvent).pos == s.pos
    ensures !Step(s, QuitEvent).running
  {
  }

  /** An event that is neither a quit request nor a key press leaves the state unchanged. */
  lemma {:induction false} OtherEventIgnored(s: State)
    ensures Step(s, OtherEvent) == s
  {
  }

  /**
   * Whatever the event, the position changes only to the candidate of a key
   * press, and only when that candidate is passable.
   */
  lemma {:induction false} OnlyPassableKeyDownMoves(s: State, e: Event)
    ensures Step(s, e).pos != s.pos ==> e.KeyDown? && Step(s, e).pos == Candidate(s.pos, e.key) && Passable(Step(s, e).pos)
  {
  }

  // ---------------------------------------------------------------------
  // Batches of events

  /** Processing two batches one after the other is processing their concatenation. */
  lemma {:induction false} RunAppend(s: State, a: seq<Event>, b: seq<Event>)
    ensures Run(s, a + b) == Run(Run(s, a), b)
    decreases |a|
  {
    if a != [] {
      assert (a + b)[0] == a[0];
      assert (a + b)[1..] == a[1..] + b;
      RunAppend(Step(s, a[0]), a[1..], b);
    } else {
      assert a + b == b;
    }
  }

  /** The running flag never influences where the player ends up. */
  lemma {:induction false} RunPosIgnoresRunning(s: State, b: bool, events: seq<Event>)
    ensures Run(s.(running := b), events).pos == Run(s, events).pos
    decreases |events|
  {
    if events != [] {
      assert Step(s.(running := b), events[0]) == Step(s, events[0]).(running := Step(s.(running := b), events[0]).running);
      RunPosIgnoresRunning(Step(s, events[0]), Step(s.(running := b), events[0]).running, events[1..]);
    }
  }

  /** After a batch the game still runs exactly when it ran before and the batch held no quit event. */
  lemma {:induction false} RunningAfterBatch(s: State, events: seq<Event>)
    ensures Run(s, events).running <==> s.running && QuitEvent !in events
    decreases |events|
  {
    if events != [] {
      assert events == [events[0]] + events[1..];
      RunningAfterBatch(Step(s, events[0]), events[1..]);
    }
  }

  /**
   * A quit event does not end the batch: the player ends where the remaining
   * events alone would have taken it, and the game is no longer running.
   */
  lemma {:induction false} QuitThenRest(s: State, rest: seq<Event>)
    ensures Run(s, [QuitEvent] + rest).pos == Run(s, rest).pos
    ensures !Run(s, [QuitEvent] + rest).running
  {
    assert ([QuitEvent] + rest)[1..] == rest;
    RunPosIgnoresRunning(s, false, rest);
    RunningAfterBatch(s, [QuitEvent] + rest);
  }

  /** A batch started on a path cell ends on a path cell. */
  lemma {:induction false} RunPreservesOnPath(s: State, events: seq<Event>)
    requires OnPath(s.pos)
    ensures OnPath(Run(s, events).pos)
    decreases |events|
  {
    if events != [] {
      StepPreservesOnPath(s, events[0]);
      RunPreservesOnPath(Step(s, events[0]), events[1..]);
    }
  }

  /** Pressing toward a wall any number of times never moves the player. */
  lemma {:induction false} PressingIntoWallNeverMoves(s: State, k: Key, n: nat)
    requires !Passable(Candidate(s.pos, k))
    ensures Run(s, Repeat(KeyDown(k), n)) == s
    decreases n
  {
    if n > 0 {
      assert Repeat(KeyDown(k), n)[1..] == Repeat(KeyDown(k), n - 1);
      PressingIntoWallNeverMoves(s, k, n - 1);
    }
  }

  // ---------------------------------------------------------------------
  // The game loop over frames

  /** Frames started on a path cell end on a path cell. */
  lemma {:induction false} PlayFramesPreservesOnPath(s: State, frames: seq<seq<Event>>)
    requires OnPath(s.pos)
    ensures OnPath(PlayFrames(s, frames).pos)
    decreases |frames|
  {
    if frames != [] && s.running {
      RunPreservesOnPath(s, frames[0]);
      PlayFramesPreservesOnPath(Run(s, frames[0]), frames[1..]);
    }
  }

  /** The loop ends with the frame whose batch held a quit event: later frames are never processed. */
  lemma {:induction false} QuitEndsGameLoop(s: State, frames: seq<seq<Event>>)
    requires |frames| > 0 && QuitEvent in frames[0] && s.running
    ensures PlayFrames(s, frames) == Run(s, frames[0])
  {
    RunningAfterBatch(s, frames[0]);
    assert !Run(s, frames[0]).running;
  }

  /** While the loop runs, the frames are processed like one long batch. */
  lemma {:induction false} PlayFramesWithoutQuit(s: State, frames: seq<seq<Event>>)
    requires s.running
    requires forall i :: 0 <= i < |frames| ==> QuitEvent !in frames[i]
    ensures PlayFrames(s, frames) == Run(s, Concat(frames))
    decreases |frames|
  {
    if frames != [] {
      RunningAfterBatch(s, frames[0]);
      RunAppend(s, frames[0], Concat(frames[1..]));
      PlayFramesWithoutQuit(Run(s, frames[0]), frames[1..]);
    }
  }

  /** All batches of a list of frames, back to back. */
  function Concat(frames: seq<seq<Event>>): (es: seq<Event>)
    decreases |frames|
  {
    if frames == [] then [] else frames[0] + Concat(frames[1..])
  }

  // ---------------------------------------------------------------------
  // From the start

  /** The start position lies on the path cell in row 1, column 1. */
  lemma {:induction false} StartOnPath()
    ensures OnPath(Start)
    ensures Start.x / CellSize == 1 && Start.y / CellSize == 1
  {
  }

  /**
   * The invariant of the game: after any sequence of frames from the start
   * the player stands on an in-bounds path cell at a non-negative multiple
   * of the cell size.
   */
  lemma {:induction false} ReachableIsOnPath(frames: seq<seq<Event>>)
    ensures OnPath(PlayFrames(Initial, frames).pos)
  {
    StartOnPath();
    PlayFramesPreservesOnPath(Initial, frames);
  }

  /**
   * From the start, RIGHT moves to (360, 180); a second RIGHT targets
   * (540, 180), a wall in row 1, column 3, and leaves the player where it is.
   */
  lemma {:induction false} RightThenRightScenario()
    ensures Run(Initial, [KeyDown(Right)]).pos == Pos(360, 180)
    ensures IsWall(540, 180)
    ensures Run(Initial, [KeyDown(Right), KeyDown(Right)]).pos == Pos(360, 180)
  {
  }
}
