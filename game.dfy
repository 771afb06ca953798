/**
 * The game loop of the demo as state that changes in place: the player's
 * position `pointX`/`pointY` and the `running` flag, the handler for one
 * polled event, the loop that drains a batch of polled events, and the outer
 * loop that repeats this once per frame until a quit event has been seen.
 */
module GameLoop {
  import opened Maze
  import opened Movement

  class Game {
    var pointX: int
    var pointY: int
    var running: bool

    /** The abstract value of the game state. */
    function Current(): (s: State)
      reads this
    {
      State(Pos(pointX, pointY), running)
    }

    /** The invariant of the game: the player stands on a path cell. */
    ghost predicate Valid()
      reads this
    {
      OnPath(Pos(pointX, pointY))
    }

    /** Entering the game loop: running, at the start position. */
    constructor ()
      ensures Valid()
      ensures Current() == Initial
    {
      running := true;
      pointX := CellSize;
      pointY := CellSize;
      StartOnPath();
    }

    /**
     * One polled event: a quit event clears `running`; a key press computes
     * `newX`/`newY` and commits them only when they are not a wall; any other
     * event does nothing.
     */
    method HandleEvent(e: Event)
      modifies this
      ensures Current() == Step(old(Current()), e)
      ensures old(Valid()) ==> Valid()
    {
      ghost var before := Current();
      if e.QuitEvent? {
        running := false;
      } else if e.KeyDown? {
        var newX := pointX;
        var newY := pointY;
        match e.key {
          case Left => newX := newX - 180;
          case Right => newX := newX + 180;
          case Up => newY := newY - 180;
          case Down => newY := newY + 180;
          case OtherKey(_) =>
        }
        assert Pos(newX, newY) == Candidate(before.pos, e.key);
        if !IsWall(newX, newY) {
          pointX := newX;
          pointY := newY;
        }
      }
      if OnPath(before.pos) {
        StepPreservesOnPath(before, e);
      }
    }

    /** Drains one batch of polled events in order; a quit event does not stop the draining. */
    method PollEvents(events: seq<Event>)
      modifies this
      ensures Current() == Run(old(Current()), events)
      ensures old(Valid()) ==> Valid()
    {
      var i := 0;
      while i < |events|
        invariant 0 <= i <= |events|
        invariant Run(Current(), events[i..]) == Run(old(Current()), events)
        invariant old(Valid()) ==> Valid()
      {
        assert events[i..][1..] == events[i + 1..];
        HandleEvent(events[i]);
        i := i + 1;
      }
    }

    /**
     * The outer loop: while `running`, drain the next frame's batch. Rendering
     * and the frame delay that follow each batch are not part of the model.
     * Returns the number of frames whose batch was drained: every frame before
     * the last one drained left the game running, and the loop stops early
     * only once `running` is false.
     */
    method Play(frames: seq<seq<Event>>) returns (played: nat)
      modifies this
      ensures played <= |frames|
      ensures Current() == PlayFrames(old(Current()), frames)
      ensures Current() == PlayFrames(old(Current()), frames[..played])
      ensures played < |frames| ==> !Current().running
      ensures forall j :: 0 <= j < played ==> PlayFrames(old(Current()), frames[..j]).running
      ensures old(Valid()) ==> Valid()
    {
      played := 0;
      while running && played < |frames|
        invariant 0 <= played <= |frames|
        invariant PlayFrames(Current(), frames[played..]) == PlayFrames(old(Current()), frames)
        invariant PlayFrames(old(Current()), frames[..played]) == Current()
        invariant forall j :: 0 <= j < played ==> PlayFrames(old(Current()), frames[..j]).running
        invariant old(Valid()) ==> Valid()
      {
        assert frames[played..][1..] == frames[played + 1..];
        ghost var s := Current();
        PollEvents(frames[played]);
        PlayFramesSnoc(old(Current()), frames[..played], frames[played], s);
        assert frames[..played + 1] == frames[..played] + [frames[played]];
        played := played + 1;
      }
    }
  }

  /**
   * Appending one more frame to a list of frames after which the game still
   * runs plays that frame's batch.
   */
  lemma {:induction false} PlayFramesSnoc(s: State, frames: seq<seq<Event>>, last: seq<Event>, mid: State)
    requires PlayFrames(s, frames) == mid && mid.running
    ensures PlayFrames(s, frames + [last]) == Run(mid, last)
    decreases |frames|
  {
    if frames == [] {
      assert frames + [last] == [last];
      assert [last][1..] == [];
    } else {
      assert s.running;
      assert (frames + [last])[1..] == frames[1..] + [last];
      PlayFramesSnoc(Run(s, frames[0]), frames[1..], last, mid);
    }
  }

  /** The scenario from the start: RIGHT moves one cell, a second RIGHT runs into a wall. */
  method RightThenRight()
  {
    var g := new Game();
    g.HandleEvent(KeyDown(Right));
    RightThenRightScenario();
    assert g.pointX == 360 && g.pointY == 180;
    g.HandleEvent(KeyDown(Right));
    assert g.pointX == 360 && g.pointY == 180;
  }
}
