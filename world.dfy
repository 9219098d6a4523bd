/**
 * The maze generator's world: the state one generation step updates in
 * place, and the drawing of that state into a caller-owned frame buffer.
 */
module Maze {
  import opened Grid
  import opened Generation
  import opened Render

  class World {
    var visited: set<Cell>
    var stack: seq<Cell>
    var removedWalls: set<Wall>

    /** The world's fields as a maze state value. */
    function State(): MazeState
      reads this
    {
      MazeState(visited, stack, removedWalls)
    }

    ghost predicate Valid()
      reads this
    {
      Invariant(State())
    }

    /** The seed world: cell (0, 0) visited and on the stack, no wall carved. */
    constructor ()
      ensures State() == Init()
      ensures Valid()
    {
      visited := {(0, 0)};
      stack := [(0, 0)];
      removedWalls := {};
    }

    /**
     * One generation step; `idx` is the random index drawn from the number
     * of candidates. Returns whether a redraw is needed, which is only the
     * case when a new cell was visited.
     */
    method Update(idx: nat) returns (redraw: bool)
      requires Valid() && ChoiceFits(State(), idx)
      modifies this
      ensures Valid()
      ensures (State(), redraw) == Step(old(State()), idx)
    {
      StepInvariant(State(), idx);
      if |stack| == 0 {
        return false;
      }
      var (currentX, currentY) := stack[|stack| - 1];
      var neighbours := Neighbours((currentX, currentY), visited);
      if |neighbours| == 0 {
        stack := stack[..|stack| - 1];
        return false;
      }
      var (next, orientation) := neighbours[idx];
      visited := visited + {next};
      stack := stack + [next];
      removedWalls := removedWalls + {Wall(orientation, Min(next.0, currentX), Min(next.1, currentY))};
      return true;
    }

    /**
     * Paints every complete 4-byte chunk `i` of `frame` with the colour of
     * pixel `PixelCoords(i)`; the trailing bytes of a frame whose length is
     * not a multiple of 4 and the world itself are left unchanged.
     */
    method Draw(frame: array<byte>)
      modifies frame
      ensures forall i :: 0 <= i < frame.Length / 4 ==>
                frame[4 * i..4 * i + 4] == PixelColor(State(), PixelCoords(i).0, PixelCoords(i).1)
      ensures forall k :: 4 * (frame.Length / 4) <= k < frame.Length ==> frame[k] == old(frame[k])
    {
      var chunks := frame.Length / 4;
      for i := 0 to chunks
        invariant forall j :: 0 <= j < i ==>
                    frame[4 * j..4 * j + 4] == PixelColor(State(), PixelCoords(j).0, PixelCoords(j).1)
        invariant forall k :: 4 * i <= k < frame.Length ==> frame[k] == old(frame[k])
      {
        var (x, y) := PixelCoords(i);
        var rgba := PixelColor(State(), x, y);
        forall k | 0 <= k < 4 {
          frame[4 * i + k] := rgba[k];
        }
        assert frame[4 * i..4 * i + 4] == rgba;
      }
    }
  }
}
