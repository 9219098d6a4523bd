/**
 * The randomized depth-first "recursive backtracker" as a pure state machine:
 * the maze state, one generation step, the invariants every step keeps, the
 * termination measure, and what holds once the frontier stack is empty.
 * The random choice of a neighbour is the step's `idx` argument.
 */
module Generation {
  import opened Grid

  /**
   * The maze state: the visited cells, the frontier stack (the current DFS
   * path, its last element the active cell) and the carved walls.
   */
  datatype MazeState = MazeState(visited: set<Cell>, stack: seq<Cell>, removedWalls: set<Wall>)

  /**
   * The seed state: only cell (0, 0) visited and on the stack, no wall
   * carved. It is reachable, and its termination measure is
   * `2 * COLS * ROWS - 1`.
   */
  function Init(): (r: MazeState)
    ensures Invariant(r)
    ensures Measure(r) == 2 * COLS * ROWS - 1
  {
    assert IsPassage({}, [(0, 0)]);
    MazeState({(0, 0)}, [(0, 0)], {})
  }

  /** The candidates of the next step, seen from the top of the stack. */
  function Candidates(s: MazeState): seq<(Cell, Orientation)>
    requires s.stack != []
  {
    Neighbours(s.stack[|s.stack| - 1], s.visited)
  }

  /**
   * The random index is drawn from `0..n` only when there are `n > 0`
   * candidates; in every other case it is not used.
   */
  predicate ChoiceFits(s: MazeState, idx: nat) {
    s.stack == [] || |Candidates(s)| == 0 || idx < |Candidates(s)|
  }

  /**
   * One generation step and whether it asks for a redraw. On an empty stack
   * nothing happens; with no candidate the active cell is popped
   * (backtrack); otherwise candidate `idx` is visited, pushed, and the wall
   * between it and the active cell is carved.
   */
  function Step(s: MazeState, idx: nat): (r: (MazeState, bool))
    requires ChoiceFits(s, idx)
    ensures s.visited <= r.0.visited && s.removedWalls <= r.0.removedWalls
    ensures r.1 <==> s.stack != [] && |Candidates(s)| > 0
    ensures !r.1 ==> r.0.visited == s.visited && r.0.removedWalls == s.removedWalls
  {
    if s.stack == [] then (s, false)
    else
      var cur := s.stack[|s.stack| - 1];
      var candidates := Candidates(s);
      if |candidates| == 0 then (s.(stack := s.stack[..|s.stack| - 1]), false)
      else
        var (next, o) := candidates[idx];
        (MazeState(s.visited + {next}, s.stack + [next], s.removedWalls + {WallBetween(cur, next, o)}), true)
  }

  /**
   * Every visited cell that is no longer on the stack has no unvisited
   * neighbour left inside the grid.
   */
  ghost predicate Exhausted(s: MazeState) {
    forall c {:trigger Neighbours(c, s.visited)} ::
      c in s.visited && c !in s.stack ==> |Neighbours(c, s.visited)| == 0
  }

  /** Cells `a` and `b` are axis neighbours and the wall between them is carved. */
  predicate Linked(walls: set<Wall>, a: Cell, b: Cell) {
    || (Adjacent(a, b, Vertical) && WallBetween(a, b, Vertical) in walls)
    || (Adjacent(a, b, Horizontal) && WallBetween(a, b, Horizontal) in walls)
  }

  /** `p` is a non-empty walk from cell to cell through carved walls only. */
  predicate IsPassage(walls: set<Wall>, p: seq<Cell>) {
    |p| > 0 && forall i :: 0 <= i < |p| - 1 ==> Linked(walls, p[i], p[i + 1])
  }

  /** Cell `c` can be reached from the seed cell (0, 0) through carved walls. */
  ghost predicate ReachableFromSeed(walls: set<Wall>, c: Cell) {
    exists p :: IsPassage(walls, p) && p[0] == (0, 0) && p[|p| - 1] == c
  }

  /** The invariant of every reachable maze state. */
  ghost predicate Invariant(s: MazeState) {
    && (0, 0) in s.visited
    && (forall c :: c in s.visited ==> InBounds(c))
    && (forall i :: 0 <= i < |s.stack| ==> s.stack[i] in s.visited)
    && (forall w :: w in s.removedWalls ==> Sides(w).0 in s.visited && Sides(w).1 in s.visited)
    && |s.removedWalls| + 1 == |s.visited|
    && Exhausted(s)
    && Connected(s)
  }

  /** Every visited cell can be reached from the seed through carved walls. */
  ghost predicate Connected(s: MazeState) {
    forall c :: c in s.visited ==> ReachableFromSeed(s.removedWalls, c)
  }

  /** A passage stays a passage as more walls are carved. */
  lemma PassageGrows(walls: set<Wall>, more: set<Wall>, p: seq<Cell>)
    requires walls <= more && IsPassage(walls, p)
    ensures IsPassage(more, p)
  {
    forall i | 0 <= i < |p| - 1 ensures Linked(more, p[i], p[i + 1]) {
      assert Linked(walls, p[i], p[i + 1]);
    }
  }

  /** A passage extended across one more carved wall is a passage. */
  lemma PassageExtend(walls: set<Wall>, p: seq<Cell>, b: Cell)
    requires IsPassage(walls, p) && Linked(walls, p[|p| - 1], b)
    ensures IsPassage(walls, p + [b])
  {
    var q := p + [b];
    forall i | 0 <= i < |q| - 1 ensures Linked(walls, q[i], q[i + 1]) {
      if i < |p| - 1 {
        assert q[i] == p[i] && q[i + 1] == p[i + 1];
      }
    }
  }

  /** Step on an empty stack is a no-op that asks for no redraw. */
  lemma StepTerminal(s: MazeState, idx: nat)
    requires s.stack == []
    ensures Step(s, idx) == (s, false)
  {
  }

  /**
   * Backtrack: with no candidate, the step removes exactly the last stack
   * element and changes nothing else.
   */
  lemma StepBacktrack(s: MazeState, idx: nat)
    requires s.stack != [] && |Candidates(s)| == 0
    ensures var (t, redraw) := Step(s, idx);
            && !redraw
            && t.stack + [s.stack[|s.stack| - 1]] == s.stack
            && t.visited == s.visited && t.removedWalls == s.removedWalls
  {
  }

  /**
   * Advance: the chosen candidate is a new cell inside the grid next to the
   * active cell; it is added to `visited` and pushed; exactly one wall, new
   * and joining the two cells, is carved; a redraw is asked for.
   */
  lemma {:induction false} StepAdvance(s: MazeState, idx: nat)
    requires Invariant(s)
    requires s.stack != [] && idx < |Candidates(s)|
    ensures var (t, redraw) := Step(s, idx);
            var cur := s.stack[|s.stack| - 1];
            var (next, o) := Candidates(s)[idx];
            var w := WallBetween(cur, next, o);
            && redraw
            && next !in s.visited && InBounds(next) && Adjacent(cur, next, o)
            && t.visited == s.visited + {next}
            && t.stack == s.stack + [next]
            && w !in s.removedWalls
            && t.removedWalls == s.removedWalls + {w}
            && ((Sides(w).0 == cur && Sides(w).1 == next) || (Sides(w).0 == next && Sides(w).1 == cur))
  {
    var cur := s.stack[|s.stack| - 1];
    var (next, o) := Candidates(s)[idx];
    NeighboursSound(cur, s.visited, idx);
    var w := WallBetween(cur, next, o);
    assert Sides(w).0 == next || Sides(w).1 == next;
    assert w !in s.removedWalls;
  }

  /**
   * The first step from the seed state: the candidates are the right and the
   * lower neighbour of (0, 0), and whichever is chosen is visited, pushed, and
   * joined to (0, 0) by a carved wall anchored at (0, 0).
   */
  lemma FirstStep(idx: nat)
    requires idx < 2
    ensures Candidates(Init()) == [((1, 0), Vertical), ((0, 1), Horizontal)]
    ensures var next := if idx == 0 then (1, 0) else (0, 1);
            var o := if idx == 0 then Vertical else Horizontal;
            Step(Init(), idx) == (MazeState({(0, 0), next}, [(0, 0), next], {Wall(o, 0, 0)}), true)
  {
    var next := if idx == 0 then (1, 0) else (0, 1);
    var o := if idx == 0 then Vertical else Horizontal;
    assert Candidates(Init())[idx] == (next, o);
    assert WallBetween((0, 0), next, o) == Wall(o, 0, 0);
    assert {(0, 0)} + {next} == {(0, 0), next};
    assert {} + {Wall(o, 0, 0)} == {Wall(o, 0, 0)};
    assert [(0, 0)] + [next] == [(0, 0), next];
    var t := Step(Init(), idx);
    assert t.0.visited == {(0, 0), next};
    assert t.0.stack == [(0, 0), next];
    assert t.0.removedWalls == {Wall(o, 0, 0)};
  }

  /** Every step keeps the invariant. */
  lemma {:induction false} StepInvariant(s: MazeState, idx: nat)
    requires Invariant(s) && ChoiceFits(s, idx)
    ensures Invariant(Step(s, idx).0)
  {
    if s.stack == [] {
    } else if |Candidates(s)| == 0 {
      BacktrackInvariant(s, idx);
    } else {
      AdvanceInvariant(s, idx);
    }
  }

  lemma BacktrackInvariant(s: MazeState, idx: nat)
    requires Invariant(s) && s.stack != [] && |Candidates(s)| == 0
    ensures Invariant(Step(s, idx).0)
  {
    var t := Step(s, idx).0;
    var cur := s.stack[|s.stack| - 1];
    forall c | c in s.stack && c != cur ensures c in t.stack {
      var i :| 0 <= i < |s.stack| && s.stack[i] == c;
      assert t.stack[i] == c;
    }
    forall i | 0 <= i < |t.stack| ensures t.stack[i] in t.visited {
      assert t.stack[i] == s.stack[i];
    }
  }

  lemma AdvanceInvariant(s: MazeState, idx: nat)
    requires Invariant(s) && s.stack != [] && idx < |Candidates(s)|
    ensures Invariant(Step(s, idx).0)
  {
    StepAdvance(s, idx);
    var t := Step(s, idx).0;
    forall c | c in t.visited && c !in t.stack
      ensures |Neighbours(c, t.visited)| == 0
    {
      assert c in s.visited && c !in s.stack;
      NeighboursShrink(c, s.visited, t.visited);
    }
    forall i | 0 <= i < |t.stack| ensures t.stack[i] in t.visited {
      if i < |s.stack| {
        assert t.stack[i] == s.stack[i];
      }
    }
    AdvanceConnected(s, idx);
  }

  /** The cell an advance visits is reached through the wall it carves. */
  lemma AdvanceConnected(s: MazeState, idx: nat)
    requires Connected(s) && s.stack != [] && idx < |Candidates(s)|
    requires s.stack[|s.stack| - 1] in s.visited
    ensures Connected(Step(s, idx).0)
  {
    var t := Step(s, idx).0;
    var cur := s.stack[|s.stack| - 1];
    var (next, o) := Candidates(s)[idx];
    NeighboursSound(cur, s.visited, idx);
    assert t.removedWalls == s.removedWalls + {WallBetween(cur, next, o)};
    assert Linked(t.removedWalls, cur, next);
    ReachableExtend(s.visited, s.removedWalls, t.removedWalls, cur, next);
    assert t.visited == s.visited + {next};
  }

  /**
   * Carving the wall from a reachable cell to a new cell keeps every cell
   * reachable from the seed, the new one included.
   */
  lemma ReachableExtend(visited: set<Cell>, walls: set<Wall>, more: set<Wall>, cur: Cell, next: Cell)
    requires walls <= more && cur in visited && Linked(more, cur, next)
    requires forall c :: c in visited ==> ReachableFromSeed(walls, c)
    ensures forall c :: c in visited + {next} ==> ReachableFromSeed(more, c)
  {
    forall c | c in visited + {next} ensures ReachableFromSeed(more, c) {
      if c == next {
        var p :| IsPassage(walls, p) && p[0] == (0, 0) && p[|p| - 1] == cur;
        PassageGrows(walls, more, p);
        PassageExtend(more, p, next);
        var q := p + [next];
        assert q[0] == (0, 0) && q[|q| - 1] == next;
      } else {
        var p :| IsPassage(walls, p) && p[0] == (0, 0) && p[|p| - 1] == c;
        PassageGrows(walls, more, p);
      }
    }
  }

  /** A cell with no candidate keeps having none as more cells are visited. */
  lemma NeighboursShrink(c: Cell, visited: set<Cell>, more: set<Cell>)
    requires visited <= more
    requires |Neighbours(c, visited)| == 0
    ensures |Neighbours(c, more)| == 0
  {
  }

  /**
   * The termination measure: twice the number of unvisited cells plus the
   * height of the stack.
   */
  function Measure(s: MazeState): int {
    2 * (COLS * ROWS - |s.visited|) + |s.stack|
  }

  /**
   * In a reachable state the measure is never negative, and it is zero
   * exactly when the stack is empty.
   */
  lemma MeasureBounds(s: MazeState)
    requires Invariant(s)
    ensures Measure(s) >= 0
    ensures Measure(s) == 0 <==> s.stack == []
  {
    InBoundsCellsBounded(s.visited);
    if s.stack == [] {
      Coverage(s);
    }
  }

  /** Every step on a non-empty stack lowers the measure by exactly one. */
  lemma StepMeasure(s: MazeState, idx: nat)
    requires Invariant(s) && ChoiceFits(s, idx)
    requires s.stack != []
    ensures Measure(Step(s, idx).0) == Measure(s) - 1
  {
    if |Candidates(s)| > 0 {
      StepAdvance(s, idx);
    }
  }

  /** `choices` supplies, one after the other, a fitting index for every step. */
  predicate ChoicesFit(s: MazeState, choices: seq<nat>)
    decreases |choices|
  {
    |choices| == 0 || (ChoiceFits(s, choices[0]) && ChoicesFit(Step(s, choices[0]).0, choices[1..]))
  }

  /** The state after one step per element of `choices`. */
  function Run(s: MazeState, choices: seq<nat>): MazeState
    requires ChoicesFit(s, choices)
    decreases |choices|
  {
    if |choices| == 0 then s else Run(Step(s, choices[0]).0, choices[1..])
  }

  /** Any run keeps the invariant. */
  lemma {:induction false} RunInvariant(s: MazeState, choices: seq<nat>)
    requires Invariant(s) && ChoicesFit(s, choices)
    ensures Invariant(Run(s, choices))
    decreases |choices|
  {
    if |choices| > 0 {
      StepInvariant(s, choices[0]);
      RunInvariant(Step(s, choices[0]).0, choices[1..]);
    }
  }

  /** Once the stack is empty, any further steps leave the state as it is. */
  lemma {:induction false} RunTerminal(s: MazeState, choices: seq<nat>)
    requires s.stack == [] && ChoicesFit(s, choices)
    ensures Run(s, choices) == s
    decreases |choices|
  {
    if |choices| > 0 {
      StepTerminal(s, choices[0]);
      RunTerminal(s, choices[1..]);
    }
  }

  /** From a reachable state, `Measure(s)` steps are enough to empty the stack. */
  lemma {:induction false} RunTerminates(s: MazeState, choices: seq<nat>)
    requires Invariant(s) && ChoicesFit(s, choices)
    requires |choices| >= Measure(s)
    ensures Run(s, choices).stack == []
    decreases |choices|
  {
    if s.stack == [] {
      RunTerminal(s, choices);
    } else {
      MeasureBounds(s);
      StepMeasure(s, choices[0]);
      StepInvariant(s, choices[0]);
      RunTerminates(Step(s, choices[0]).0, choices[1..]);
    }
  }

  /** From a reachable state, fewer than `Measure(s)` steps leave the stack non-empty. */
  lemma {:induction false} RunUnfinished(s: MazeState, choices: seq<nat>)
    requires Invariant(s) && ChoicesFit(s, choices)
    requires |choices| < Measure(s)
    ensures Run(s, choices).stack != []
    decreases |choices|
  {
    MeasureBounds(s);
    if |choices| > 0 {
      StepMeasure(s, choices[0]);
      StepInvariant(s, choices[0]);
      RunUnfinished(Step(s, choices[0]).0, choices[1..]);
    }
  }

  /**
   * Generation from the seed state takes exactly `2 * COLS * ROWS - 1` steps
   * to empty the stack, whatever the random choices: each cell is pushed once
   * and popped once, and the seed was pushed before the first step.
   */
  lemma GenerationTerminates(choices: seq<nat>)
    requires ChoicesFit(Init(), choices)
    ensures Run(Init(), choices).stack == [] <==> |choices| >= 2 * COLS * ROWS - 1
  {
    if |choices| >= 2 * COLS * ROWS - 1 {
      RunTerminates(Init(), choices);
    } else {
      RunUnfinished(Init(), choices);
    }
  }

  /**
   * Once the stack is empty, every cell of the grid is visited, every cell is
   * reachable from the seed through carved walls, every carved wall lies
   * between two cells of the grid, and exactly `COLS * ROWS - 1` walls are
   * carved. A connected graph with one edge fewer than vertices is a tree, so
   * the carved walls are a spanning tree of the grid; that last graph fact is
   * not itself proved here.
   */
  lemma {:induction false} Coverage(s: MazeState)
    requires Invariant(s) && s.stack == []
    ensures s.visited == AllCells()
    ensures |s.visited| == COLS * ROWS
    ensures forall c :: c in AllCells() ==> ReachableFromSeed(s.removedWalls, c)
    ensures forall w :: w in s.removedWalls ==> InBounds(Sides(w).0) && InBounds(Sides(w).1)
    ensures |s.removedWalls| == COLS * ROWS - 1
  {
    forall c | c in AllCells() ensures c in s.visited {
      ColumnVisited(s, c.0, c.1);
    }
    InBoundsCellsBounded(s.visited);
  }

  lemma ExhaustedAt(s: MazeState, c: Cell)
    requires Invariant(s) && c in s.visited && c !in s.stack
    ensures |Neighbours(c, s.visited)| == 0
  {
  }

  /** A cell without candidates has all its in-grid axis neighbours visited. */
  lemma NoCandidateVisited(cur: Cell, visited: set<Cell>, n: Cell, o: Orientation)
    requires |Neighbours(cur, visited)| == 0
    requires Adjacent(cur, n, o) && InBounds(n)
    ensures n in visited
  {
  }

  /** In a finished state, cell `(x, y)` is visited: walk right along row 0, then down. */
  lemma {:induction false} ColumnVisited(s: MazeState, x: nat, y: nat)
    requires Invariant(s) && s.stack == []
    requires x < COLS && y < ROWS
    ensures (x, y) in s.visited
  {
    if y == 0 {
      RowVisited(s, x);
    } else {
      ColumnVisited(s, x, y - 1);
      ExhaustedAt(s, (x, y - 1));
      NoCandidateVisited((x, y - 1), s.visited, (x, y), Horizontal);
    }
  }

  lemma {:induction false} RowVisited(s: MazeState, x: nat)
    requires Invariant(s) && s.stack == []
    requires x < COLS
    ensures (x, 0) in s.visited
  {
    if x > 0 {
      RowVisited(s, x - 1);
      ExhaustedAt(s, (x - 1, 0));
      NoCandidateVisited((x - 1, 0), s.visited, (x, 0), Vertical);
    }
  }
}
