/**
  Wilson's algorithm as a state machine that does one unit of work per step:
  seed the tree with one cell, start a loop-erased random walk from an
  unvisited cell, extend the walk by one neighbour, erase a loop, or graft
  the finished walk onto the tree.

  The random choices are explicit `roll` arguments: a roll picks the element
  at `roll` modulo the length of the list chosen from. The transition of one
  step is the function `Stepped` on an `Engine` value; the class
  `WilsonAlgorithm` does the same work in place and is proved to agree with it.
*/
module Wilson {
  import opened Mazes

  /** The phases of the engine; completion is the maze's flag, raised in `SelectStart`. */
  datatype Phase = Init | SelectStart | RandomWalk

  /** Everything one step reads or writes: the engine's fields and the maze's mutable state. */
  datatype Engine = Engine(
    phase: Phase,
    currentPos: Option<Pos>,
    grid: Grid,
    walk: seq<Pos>,
    walkSet: set<Pos>,
    complete: bool)

  /** The state after one step, and whether the step reported completion. */
  datatype StepResult = StepResult(next: Engine, done: bool)

  /** The tree's first cell for `roll`: column `roll mod w`, row `(roll div w) mod h`. */
  function SeedCell(w: nat, h: nat, roll: nat): (p: Pos)
    requires w >= 1 && h >= 1
    ensures InBounds(w, h, p.x, p.y)
  {
    Pos(roll % w, (roll / w) % h)
  }

  /** Every cell of the grid is the seed cell for some roll: the roll `y * w + x` picks `(x, y)`. */
  lemma SeedCellCovers(w: nat, h: nat, x: int, y: int)
    requires w >= 1 && h >= 1 && InBounds(w, h, x, y)
    ensures SeedCell(w, h, y * w + x) == Pos(x, y)
  {
    DivModUnique(y * w + x, w, y, x);
    ModSmall(y, h);
  }

  /** Euclidean division is determined by quotient and remainder: `n == q * w + r` with `0 <= r < w`. */
  lemma DivModUnique(n: int, w: int, q: int, r: int)
    requires w >= 1 && n == q * w + r && 0 <= r < w
    ensures n / w == q && n % w == r
  {
    var q2, r2 := n / w, n % w;
    assert n == q2 * w + r2 && 0 <= r2 < w;
    var k := q - q2;
    assert k * w == q * w - q2 * w;
    MulBounds(k, w);
  }

  /** A product with a non-zero integer is at least `w` away from zero. */
  lemma MulBounds(k: int, w: nat)
    ensures k >= 1 ==> k * w >= w
    ensures k <= -1 ==> k * w + w <= 0
  {
  }

  /** Index of the first occurrence of `p` in `walk`. */
  function FirstIndex(walk: seq<Pos>, p: Pos): (r: Option<nat>)
    ensures r.None? <==> p !in walk
    ensures r.Some? ==> r.value < |walk| && walk[r.value] == p && p !in walk[..r.value]
  {
    if walk == [] then None
    else if walk[0] == p then Some(0)
    else
      match FirstIndex(walk[1..], p)
      case None => None
      case Some(i) =>
        assert walk[1..][..i] == walk[1..i + 1];
        Some(i + 1)
  }

  /** The seeding step: one cell marked visited, then on to selecting a walk start. */
  ghost function Initialized(w: nat, h: nat, e: Engine, roll: nat): Engine
    requires WellFormed(e.grid, w, h) && w >= 1 && h >= 1
  {
    var p := SeedCell(w, h, roll);
    e.(grid := MarkVisited(e.grid, w, h, p.x, p.y), phase := SelectStart)
  }

  /** The walk cut back to the first occurrence of `p` (kept), its set rebuilt to match. */
  ghost function LoopErased(e: Engine, p: Pos): Engine {
    match FirstIndex(e.walk, p)
    case None => e
    case Some(i) => e.(walk := e.walk[..i + 1], walkSet := Elements(e.walk[..i + 1]))
  }

  /**
    The grid after the first `n` rounds of grafting `walk`: round `i` carves
    between `walk[i]` and `walk[i + 1]` and then marks `walk[i]` visited.
  */
  ghost function CarveSteps(g: Grid, w: nat, h: nat, walk: seq<Pos>, n: nat): (r: Grid)
    requires WellFormed(g, w, h) && (n == 0 || n < |walk|)
    ensures WellFormed(r, w, h)
  {
    if n == 0 then g
    else
      var a, b := walk[n - 1], walk[n];
      MarkVisited(Carve(CarveSteps(g, w, h, walk, n - 1), w, h, a.x, a.y, b.x, b.y), w, h, a.x, a.y)
  }

  /** Grafting the whole walk: every consecutive pair carved, then the walk emptied. */
  ghost function PathCarved(w: nat, h: nat, e: Engine): Engine
    requires WellFormed(e.grid, w, h)
  {
    var rounds := if e.walk == [] then 0 else |e.walk| - 1;
    e.(grid := CarveSteps(e.grid, w, h, e.walk, rounds), walk := [], walkSet := {})
  }

  /** One step of the engine for the random choice `roll`. */
  ghost function Stepped(w: nat, h: nat, e: Engine, roll: nat): StepResult
    requires WellFormed(e.grid, w, h) && w >= 1 && h >= 1
  {
    match e.phase
    case Init => StepResult(Initialized(w, h, e, roll), false)
    case SelectStart =>
      (match RandomUnvisited(e.grid, w, h, roll)
       case None => StepResult(e.(complete := true), true)
       case Some(pos) =>
         StepResult(e.(currentPos := Some(pos), walk := [pos], walkSet := {pos}, phase := RandomWalk), false))
    case RandomWalk =>
      match e.currentPos
      case None => StepResult(e.(phase := SelectStart), false)
      case Some(cur) =>
        var neighbors := Neighbors(w, h, cur.x, cur.y);
        if neighbors == [] then StepResult(e.(phase := SelectStart), false)
        else
          var choice := neighbors[roll % |neighbors|];
          var next := Pos(choice.x, choice.y);
          var nextCell := GetCell(e.grid, w, h, next.x, next.y);
          if nextCell.Some? && nextCell.value.visited then
            StepResult(PathCarved(w, h, e.(walk := e.walk + [next])).(phase := SelectStart), false)
          else if next in e.walkSet then
            StepResult(LoopErased(e, next).(currentPos := Some(next)), false)
          else
            StepResult(e.(walk := e.walk + [next], walkSet := e.walkSet + {next}, currentPos := Some(next)), false)
  }

  /** Consecutive positions of `walk` are grid-adjacent. */
  ghost predicate Chained(walk: seq<Pos>) {
    forall i {:trigger Adjacent(walk[i], walk[i + 1])} :: 0 <= i < |walk| - 1 ==> Adjacent(walk[i], walk[i + 1])
  }

  /**
    The walk in progress: non-empty, a simple path of adjacent, in-bounds,
    unvisited cells, mirrored exactly by the walk set, ending at the current
    position.
  */
  ghost predicate WalkValid(w: nat, h: nat, e: Engine)
    requires WellFormed(e.grid, w, h)
  {
    |e.walk| >= 1 && Distinct(e.walk) && Chained(e.walk) &&
    e.walkSet == Elements(e.walk) &&
    (forall i :: 0 <= i < |e.walk| ==>
      InBounds(w, h, e.walk[i].x, e.walk[i].y) && !e.grid[e.walk[i].y][e.walk[i].x].visited) &&
    e.currentPos == Some(e.walk[|e.walk| - 1])
  }

  /** The invariant of the engine between steps. */
  ghost predicate Inv(w: nat, h: nat, e: Engine) {
    w >= 1 && h >= 1 && WellFormed(e.grid, w, h) && WallsAgree(e.grid, w, h) &&
    (e.phase == Init ==> e.walk == [] && e.walkSet == {} && !e.complete) &&
    (e.phase != Init ==> VisitedSet(e.grid, w, h) != {}) &&
    (e.phase == SelectStart ==> e.walk == [] && e.walkSet == {}) &&
    (e.phase == RandomWalk ==> WalkValid(w, h, e) && !e.complete) &&
    (e.complete ==> e.phase == SelectStart && UnvisitedSet(e.grid, w, h) == {})
  }

  /** Grafting `n` rounds of a chained walk keeps the walls symmetric. */
  lemma {:induction false} CarveStepsAgree(g: Grid, w: nat, h: nat, walk: seq<Pos>, n: nat)
    requires WellFormed(g, w, h) && WallsAgree(g, w, h) && (n == 0 || n < |walk|) && Chained(walk)
    ensures WallsAgree(CarveSteps(g, w, h, walk, n), w, h)
  {
    if n > 0 {
      CarveStepsAgree(g, w, h, walk, n - 1);
      var g1 := CarveSteps(g, w, h, walk, n - 1);
      var a, b := walk[n - 1], walk[n];
      ChainedStepTo(walk, n);
      CarvePreservesWallsAgree(g1, w, h, a, b);
      MarkVisitedPreservesWallsAgree(Carve(g1, w, h, a.x, a.y, b.x, b.y), w, h, a.x, a.y);
    }
  }

  /** Grafting `n` rounds of a walk marks visited exactly its first `n` cells, and no other flag changes. */
  lemma {:induction false} CarveStepsVisited(g: Grid, w: nat, h: nat, walk: seq<Pos>, n: nat)
    requires WellFormed(g, w, h) && (n == 0 || n < |walk|)
    ensures var r := CarveSteps(g, w, h, walk, n);
      forall y, x :: InBounds(w, h, x, y) ==> r[y][x].visited == (g[y][x].visited || Pos(x, y) in walk[..n])
  {
    if n > 0 {
      var a, b := walk[n - 1], walk[n];
      var g1: Grid := CarveSteps(g, w, h, walk, n - 1);
      var g2: Grid := Carve(g1, w, h, a.x, a.y, b.x, b.y);
      assert CarveSteps(g, w, h, walk, n) == MarkVisited(g2, w, h, a.x, a.y);
      CarveKeepsVisited(g1, w, h, a.x, a.y, b.x, b.y);
      MarkVisitedCell(g2, w, h, a.x, a.y);
      CarveStepsVisited(g, w, h, walk, n - 1);
      assert walk[..n] == walk[..n - 1] + [a];
    }
  }

  /** Each consecutive pair of a chained walk is adjacent. */
  lemma ChainedStep(walk: seq<Pos>, i: nat)
    requires Chained(walk) && i + 1 < |walk|
    ensures Adjacent(walk[i], walk[i + 1])
  {
  }

  /** The same, for the pair ending at `walk[i]`. */
  lemma ChainedStepTo(walk: seq<Pos>, i: nat)
    requires Chained(walk) && 0 < i < |walk|
    ensures Adjacent(walk[i - 1], walk[i])
  {
    ChainedStep(walk, i - 1);
  }

  /** Appending a neighbour of the last cell keeps a walk chained. */
  lemma ChainedExtend(walk: seq<Pos>, next: Pos)
    requires Chained(walk) && |walk| >= 1 && Adjacent(walk[|walk| - 1], next)
    ensures Chained(walk + [next])
  {
    var w2 := walk + [next];
    forall i | 0 <= i < |w2| - 1 ensures Adjacent(w2[i], w2[i + 1]) {
      if i < |walk| - 1 {
        assert w2[i] == walk[i] && w2[i + 1] == walk[i + 1];
      }
    }
  }

  /** When the visited set of a grid grows by `W`, its unvisited set loses exactly `W`. */
  lemma UnvisitedShrinks(g1: Grid, g2: Grid, w: nat, h: nat, W: set<Pos>)
    requires Shaped(g1, w, h) && Shaped(g2, w, h)
    requires VisitedSet(g2, w, h) == VisitedSet(g1, w, h) + W
    ensures UnvisitedSet(g2, w, h) == UnvisitedSet(g1, w, h) - W
  {
    VisitedPartition(g1, w, h);
    VisitedPartition(g2, w, h);
  }

  /** Removing a subset removes its cardinality. */
  lemma SubsetDiffCard<T>(u: set<T>, W: set<T>)
    requires W <= u
    ensures |u - W| == |u| - |W|
  {
    assert u == (u - W) + W;
    assert (u - W) !! W;
  }

  /** The cells of a valid walk are unvisited cells of the grid. */
  lemma WalkCellsUnvisited(w: nat, h: nat, e: Engine)
    requires Inv(w, h, e) && e.phase == RandomWalk
    ensures Elements(e.walk) <= UnvisitedSet(e.grid, w, h)
    ensures forall p :: p in Elements(e.walk) ==> InBounds(w, h, p.x, p.y)
  {
    forall i | 0 <= i < |e.walk| ensures e.walk[i] in UnvisitedSet(e.grid, w, h) {
      var p := e.walk[i];
      assert InBounds(w, h, p.x, p.y) && !e.grid[p.y][p.x].visited;
    }
  }

  /** Grafting a walk extended by `next` runs one round per cell of the original walk. */
  lemma PathCarvedGrid(w: nat, h: nat, e: Engine, next: Pos)
    requires WellFormed(e.grid, w, h)
    ensures PathCarved(w, h, e.(walk := e.walk + [next])).grid ==
      CarveSteps(e.grid, w, h, e.walk + [next], |e.walk|)
  {
  }

  /**
    Grafting a valid walk that has reached the tree at `next`: the walls stay
    symmetric, the walk's cells (all of them but `next`) become visited, and
    the unvisited set loses exactly those cells, so it shrinks by the walk's
    length.
  */
  lemma GraftFacts(w: nat, h: nat, e: Engine, next: Pos)
    requires Inv(w, h, e) && e.phase == RandomWalk
    requires InBounds(w, h, next.x, next.y) && Adjacent(e.walk[|e.walk| - 1], next)
    ensures var r := PathCarved(w, h, e.(walk := e.walk + [next]));
      WallsAgree(r.grid, w, h) &&
      VisitedSet(r.grid, w, h) == VisitedSet(e.grid, w, h) + Elements(e.walk) &&
      UnvisitedSet(r.grid, w, h) == UnvisitedSet(e.grid, w, h) - Elements(e.walk) &&
      |UnvisitedSet(r.grid, w, h)| == |UnvisitedSet(e.grid, w, h)| - |e.walk|
  {
    assert Chained(e.walk);
    ChainedExtend(e.walk, next);
    var walk := e.walk + [next];
    PathCarvedGrid(w, h, e, next);
    var g: Grid := CarveSteps(e.grid, w, h, walk, |e.walk|);
    CarveStepsAgree(e.grid, w, h, walk, |e.walk|);
    CarveStepsVisited(e.grid, w, h, walk, |e.walk|);
    assert walk[..|e.walk|] == e.walk;
    var u, W := UnvisitedSet(e.grid, w, h), Elements(e.walk);
    WalkCellsUnvisited(w, h, e);
    VisitedSetGrows(e.grid, g, w, h, W);
    UnvisitedShrinks(e.grid, g, w, h, W);
    DistinctCard(e.walk);
    SubsetDiffCard(u, W);
  }

  /**
    The Python implementation's two defensive returns from the walking phase (no current
    position, no neighbours) cannot happen: a walking engine stands on an
    unvisited cell of a grid that also has a visited cell, so the grid has
    two cells and the current cell a neighbour.
  */
  lemma WalkHasNeighbors(w: nat, h: nat, e: Engine)
    requires Inv(w, h, e) && e.phase == RandomWalk
    ensures e.currentPos.Some?
    ensures Neighbors(w, h, e.currentPos.value.x, e.currentPos.value.y) != []
  {
    var cur := e.currentPos.value;
    assert cur == e.walk[|e.walk| - 1];
    var v :| v in VisitedSet(e.grid, w, h);
    assert v != cur;
    NeighborsNonEmpty(w, h, cur.x, cur.y);
  }

  /** The neighbour a walking engine moves to for `roll`. */
  ghost function WalkChoice(w: nat, h: nat, e: Engine, roll: nat): (next: Pos)
    requires Inv(w, h, e) && e.phase == RandomWalk
    ensures InBounds(w, h, next.x, next.y) && Adjacent(e.walk[|e.walk| - 1], next)
  {
    WalkHasNeighbors(w, h, e);
    var cur := e.currentPos.value;
    var neighbors := Neighbors(w, h, cur.x, cur.y);
    NeighborsSpec(w, h, cur.x, cur.y);
    var choice := neighbors[roll % |neighbors|];
    assert choice in neighbors;
    Pos(choice.x, choice.y)
  }

  /**
    The walking phase chooses from the full neighbour list: every in-bounds
    neighbour of the current cell, visited or not and on the walk or not, is
    the next cell for some roll.
  */
  lemma WalkChoiceCovers(w: nat, h: nat, e: Engine, n: Neighbor)
    requires Inv(w, h, e) && e.phase == RandomWalk
    requires e.currentPos.Some?
    requires n in Neighbors(w, h, e.currentPos.value.x, e.currentPos.value.y)
    ensures exists roll: nat :: WalkChoice(w, h, e, roll) == Pos(n.x, n.y)
  {
    var cur := e.currentPos.value;
    var neighbors := Neighbors(w, h, cur.x, cur.y);
    var k :| 0 <= k < |neighbors| && neighbors[k] == n;
    ModSmall(k, |neighbors|);
    assert WalkChoice(w, h, e, k) == Pos(n.x, n.y);
  }

  /** The seeding step marks exactly the seed cell visited and moves on to selecting a start. */
  lemma InitStep(w: nat, h: nat, e: Engine, roll: nat)
    requires Inv(w, h, e) && e.phase == Init
    ensures var r, p := Stepped(w, h, e, roll), SeedCell(w, h, roll);
      !r.done && r.next.phase == SelectStart &&
      r.next.walk == e.walk && r.next.walkSet == e.walkSet && r.next.complete == e.complete &&
      VisitedSet(r.next.grid, w, h) == VisitedSet(e.grid, w, h) + {p} &&
      (forall y, x :: InBounds(w, h, x, y) ==> r.next.grid[y][x].walls == e.grid[y][x].walls)
    ensures Inv(w, h, Stepped(w, h, e, roll).next)
  {
    var p := SeedCell(w, h, roll);
    MarkVisitedEffect(e.grid, w, h, p.x, p.y);
    MarkVisitedPreservesWallsAgree(e.grid, w, h, p.x, p.y);
  }

  /**
    Selecting a start: with no unvisited cell left the step reports
    completion and changes nothing but the flag; otherwise it starts a
    one-cell walk at an unvisited cell.
  */
  lemma SelectStartStep(w: nat, h: nat, e: Engine, roll: nat)
    requires Inv(w, h, e) && e.phase == SelectStart
    ensures var r := Stepped(w, h, e, roll);
      (r.done <==> UnvisitedSet(e.grid, w, h) == {}) &&
      (r.done ==> r.next == e.(complete := true)) &&
      (!r.done ==> (exists pos :: pos in UnvisitedSet(e.grid, w, h) &&
                     r.next == e.(phase := RandomWalk, currentPos := Some(pos), walk := [pos], walkSet := {pos})))
    ensures Inv(w, h, Stepped(w, h, e, roll).next)
  {
    var r := Stepped(w, h, e, roll);
    match RandomUnvisited(e.grid, w, h, roll)
    case None =>
    case Some(pos) =>
      assert pos in UnvisitedSet(e.grid, w, h);
      assert Elements([pos]) == {pos};
  }

  /**
    A walking step moves to the chosen neighbour `next` and does exactly one
    of three things: if `next` is in the tree, grafts the walk extended by
    `next` and returns to selecting a start; if `next` is on the walk, cuts
    the walk back to it; otherwise appends it.
  */
  lemma WalkStepped(w: nat, h: nat, e: Engine, roll: nat)
    requires Inv(w, h, e) && e.phase == RandomWalk
    ensures var next := WalkChoice(w, h, e, roll);
      Stepped(w, h, e, roll) == StepResult(
        if e.grid[next.y][next.x].visited then
          PathCarved(w, h, e.(walk := e.walk + [next])).(phase := SelectStart)
        else if next in e.walk then
          LoopErased(e, next).(currentPos := Some(next))
        else
          e.(walk := e.walk + [next], walkSet := e.walkSet + {next}, currentPos := Some(next)),
        false)
  {
    WalkHasNeighbors(w, h, e);
    var next := WalkChoice(w, h, e, roll);
    assert GetCell(e.grid, w, h, next.x, next.y) == Some(e.grid[next.y][next.x]);
    assert next in e.walkSet <==> next in e.walk;
  }

  /** The grafting case of a walking step keeps the invariant. */
  lemma GraftStep(w: nat, h: nat, e: Engine, roll: nat, next: Pos)
    requires Inv(w, h, e) && e.phase == RandomWalk && next == WalkChoice(w, h, e, roll)
    requires e.grid[next.y][next.x].visited
    ensures var r := PathCarved(w, h, e.(walk := e.walk + [next])).(phase := SelectStart);
      Stepped(w, h, e, roll) == StepResult(r, false) && Inv(w, h, r)
  {
    WalkStepped(w, h, e, roll);
    GraftFacts(w, h, e, next);
  }

  /** The loop-erasing case of a walking step keeps the invariant. */
  lemma EraseStep(w: nat, h: nat, e: Engine, roll: nat, next: Pos)
    requires Inv(w, h, e) && e.phase == RandomWalk && next == WalkChoice(w, h, e, roll)
    requires !e.grid[next.y][next.x].visited && next in e.walkSet
    ensures var r := LoopErased(e, next).(currentPos := Some(next));
      Stepped(w, h, e, roll) == StepResult(r, false) && Inv(w, h, r)
  {
    WalkStepped(w, h, e, roll);
    LoopErasedValid(w, h, e, next);
  }

  /** The extending case of a walking step keeps the invariant. */
  lemma ExtendStep(w: nat, h: nat, e: Engine, roll: nat, next: Pos)
    requires Inv(w, h, e) && e.phase == RandomWalk && next == WalkChoice(w, h, e, roll)
    requires !e.grid[next.y][next.x].visited && next !in e.walkSet
    ensures var r := e.(walk := e.walk + [next], walkSet := e.walkSet + {next}, currentPos := Some(next));
      Stepped(w, h, e, roll) == StepResult(r, false) && Inv(w, h, r)
  {
    WalkStepped(w, h, e, roll);
    ExtendValid(w, h, e, next);
  }

  /** A walking step keeps the invariant and never reports completion. */
  lemma WalkStep(w: nat, h: nat, e: Engine, roll: nat)
    requires Inv(w, h, e) && e.phase == RandomWalk
    ensures !Stepped(w, h, e, roll).done && Inv(w, h, Stepped(w, h, e, roll).next)
  {
    var next := WalkChoice(w, h, e, roll);
    if e.grid[next.y][next.x].visited {
      GraftStep(w, h, e, roll, next);
    } else if next in e.walkSet {
      EraseStep(w, h, e, roll, next);
    } else {
      ExtendStep(w, h, e, roll, next);
    }
  }

  lemma LoopErasedValid(w: nat, h: nat, e: Engine, p: Pos)
    requires Inv(w, h, e) && e.phase == RandomWalk && p in e.walk
    ensures var r := LoopErased(e, p).(currentPos := Some(p));
      Inv(w, h, r) && r.walk == e.walk[..|r.walk|] && r.walk[|r.walk| - 1] == p
  {
    var i := FirstIndex(e.walk, p).value;
    var r := LoopErased(e, p).(currentPos := Some(p));
    assert r.walk == e.walk[..i + 1];
    assert forall k :: 0 <= k < |r.walk| ==> r.walk[k] == e.walk[k];
  }

  lemma ExtendValid(w: nat, h: nat, e: Engine, next: Pos)
    requires Inv(w, h, e) && e.phase == RandomWalk
    requires InBounds(w, h, next.x, next.y) && !e.grid[next.y][next.x].visited && next !in e.walk
    requires Adjacent(e.walk[|e.walk| - 1], next)
    ensures Inv(w, h, e.(walk := e.walk + [next], walkSet := e.walkSet + {next}, currentPos := Some(next)))
  {
    var walk := e.walk + [next];
    assert Elements(walk) == Elements(e.walk) + {next};
    assert forall k :: 0 <= k < |e.walk| ==> walk[k] == e.walk[k];
  }

  /** The first occurrence is the only index that is an occurrence with none before it. */
  lemma FirstIndexUnique(walk: seq<Pos>, p: Pos, r: Option<nat>)
    requires r.None? ==> p !in walk
    requires r.Some? ==> r.value < |walk| && walk[r.value] == p && p !in walk[..r.value]
    ensures r == FirstIndex(walk, p)
  {
  }

  /** Every step keeps the engine invariant. */
  lemma SteppedPreservesInv(w: nat, h: nat, e: Engine, roll: nat)
    requires Inv(w, h, e)
    ensures Inv(w, h, Stepped(w, h, e, roll).next)
  {
    match e.phase
    case Init => InitStep(w, h, e, roll);
    case SelectStart => SelectStartStep(w, h, e, roll);
    case RandomWalk => WalkStep(w, h, e, roll);
  }

  /**
    A step reports completion exactly when it finds no unvisited cell to
    start a walk from, and then the completion flag is raised.
  */
  lemma SteppedDone(w: nat, h: nat, e: Engine, roll: nat)
    requires Inv(w, h, e)
    ensures var r := Stepped(w, h, e, roll);
      (r.done <==> e.phase == SelectStart && UnvisitedSet(e.grid, w, h) == {}) &&
      (r.done ==> r.next.complete && UnvisitedSet(r.next.grid, w, h) == {})
  {
    match e.phase
    case Init => InitStep(w, h, e, roll);
    case SelectStart => SelectStartStep(w, h, e, roll);
    case RandomWalk => WalkStep(w, h, e, roll);
  }

  /** Once complete, every further step reports completion again and changes nothing. */
  lemma CompletionIsFinal(w: nat, h: nat, e: Engine, roll: nat)
    requires Inv(w, h, e) && e.complete
    ensures Stepped(w, h, e, roll) == StepResult(e, true)
  {
    SelectStartStep(w, h, e, roll);
  }

  /** No step ever clears a visited flag: the visited set only grows and the unvisited set only shrinks. */
  lemma SteppedMonotone(w: nat, h: nat, e: Engine, roll: nat)
    requires Inv(w, h, e)
    ensures var r := Stepped(w, h, e, roll);
      VisitedSet(e.grid, w, h) <= VisitedSet(r.next.grid, w, h) &&
      UnvisitedSet(r.next.grid, w, h) <= UnvisitedSet(e.grid, w, h)
  {
    var r := Stepped(w, h, e, roll);
    match e.phase
    case Init =>
      InitStep(w, h, e, roll);
      UnvisitedShrinks(e.grid, r.next.grid, w, h, {SeedCell(w, h, roll)});
    case SelectStart =>
      SelectStartStep(w, h, e, roll);
    case RandomWalk =>
      var next := WalkChoice(w, h, e, roll);
      WalkStepped(w, h, e, roll);
      if e.grid[next.y][next.x].visited {
        GraftFacts(w, h, e, next);
      }
  }

  /**
    Every step that grafts a walk removes at least one cell from the unvisited
    set.
  */
  lemma GraftDecreasesUnvisited(w: nat, h: nat, e: Engine, roll: nat)
    requires Inv(w, h, e) && e.phase == RandomWalk
    requires Stepped(w, h, e, roll).next.phase == SelectStart
    ensures |UnvisitedSet(Stepped(w, h, e, roll).next.grid, w, h)| < |UnvisitedSet(e.grid, w, h)|
  {
    var next := WalkChoice(w, h, e, roll);
    WalkStepped(w, h, e, roll);
    if e.grid[next.y][next.x].visited {
      GraftFacts(w, h, e, next);
    } else if next in e.walk {
      LoopErasedValid(w, h, e, next);
    }
  }

  /**
    The step-at-a-time generator over a maze. Its own fields are the phase and
    the current walk position; the walk, the walk set, the grid and the
    completion flag live in the maze, which the generator updates in place.
  */
  class WilsonAlgorithm {
    const maze: Maze
    var state: Phase
    var currentPos: Option<Pos>

    /** The generator and its maze seen as one engine value. */
    ghost function Snapshot(): Engine
      reads this, maze
    {
      Engine(state, currentPos, maze.grid, maze.currentWalk, maze.walkSet, maze.algorithmComplete)
    }

    ghost predicate Valid()
      reads this, maze
    {
      Inv(maze.width, maze.height, Snapshot())
    }

    /** A generator over a fresh, non-empty maze, in its initial phase. */
    constructor (maze: Maze)
      requires maze.Valid() && maze.width >= 1 && maze.height >= 1
      requires maze.currentWalk == [] && maze.walkSet == {} && !maze.algorithmComplete
      ensures this.maze == maze && state == Init && currentPos == None
      ensures Valid()
    {
      this.maze := maze;
      state := Init;
      currentPos := None;
    }

    /** Marks the seed cell chosen by `roll` visited and moves on to selecting a start. */
    method Initialize(roll: nat)
      requires maze.Valid() && maze.width >= 1 && maze.height >= 1
      modifies this`state, maze`grid
      ensures Snapshot() == Initialized(maze.width, maze.height, old(Snapshot()), roll)
    {
      var x := roll % maze.width;
      var y := (roll / maze.width) % maze.height;
      var cell := GetCell(maze.grid, maze.width, maze.height, x, y);
      if cell.Some? {
        maze.grid := maze.grid[y := maze.grid[y][x := cell.value.(visited := true)]];
      }
      state := SelectStart;
    }

    /**
      Does one unit of work for the random choice `roll` and reports whether
      the maze is complete.
    */
    method Step(roll: nat) returns (done: bool)
      requires Valid()
      modifies this`state, this`currentPos
      modifies maze`grid, maze`currentWalk, maze`walkSet, maze`algorithmComplete
      ensures StepResult(Snapshot(), done) == Stepped(maze.width, maze.height, old(Snapshot()), roll)
      ensures Valid()
    {
      ghost var e0 := Snapshot();
      if state == Init {
        SteppedPreservesInv(maze.width, maze.height, e0, roll);
        assert Stepped(maze.width, maze.height, e0, roll) == StepResult(Initialized(maze.width, maze.height, e0, roll), false);
        Initialize(roll);
        return false;
      }
      if state == SelectStart {
        SteppedPreservesInv(maze.width, maze.height, e0, roll);
        var pos := RandomUnvisited(maze.grid, maze.width, maze.height, roll);
        if pos.None? {
          assert Stepped(maze.width, maze.height, e0, roll) == StepResult(e0.(complete := true), true);
          maze.algorithmComplete := true;
          return true;
        }
        assert Stepped(maze.width, maze.height, e0, roll).next ==
          e0.(currentPos := pos, walk := [pos.value], walkSet := {pos.value}, phase := RandomWalk);
        currentPos := pos;
        maze.currentWalk := [pos.value];
        maze.walkSet := {pos.value};
        state := RandomWalk;
        return false;
      }
      // Walking: the engine invariant rules out a missing position and an empty neighbour list.
      WalkHasNeighbors(maze.width, maze.height, e0);
      var cur := currentPos.value;
      var neighbors := maze.GetNeighbors(cur.x, cur.y);
      var choice := neighbors[roll % |neighbors|];
      var next := Pos(choice.x, choice.y);
      assert next == WalkChoice(maze.width, maze.height, e0, roll);
      var nextCell := GetCell(maze.grid, maze.width, maze.height, next.x, next.y);
      if nextCell.Some? && nextCell.value.visited {
        ghost var e1 := e0.(walk := e0.walk + [next]);
        ChainedExtend(maze.currentWalk, next);
        maze.currentWalk := maze.currentWalk + [next];
        assert Snapshot() == e1;
        CarvePath();
        GraftStep(maze.width, maze.height, e0, roll, next);
        state := SelectStart;
        return false;
      }
      if next in maze.walkSet {
        EraseStep(maze.width, maze.height, e0, roll, next);
        EraseLoop(next.x, next.y);
      } else {
        ExtendStep(maze.width, maze.height, e0, roll, next);
        maze.currentWalk := maze.currentWalk + [next];
        maze.walkSet := maze.walkSet + {next};
      }
      currentPos := Some(next);
      return false;
    }

    /** Cuts the walk back to the first visit of `(loopX, loopY)` and rebuilds the walk set. */
    method EraseLoop(loopX: int, loopY: int)
      modifies maze`currentWalk, maze`walkSet
      ensures Snapshot() == LoopErased(old(Snapshot()), Pos(loopX, loopY))
    {
      var walk := maze.currentWalk;
      var loopIndex: Option<nat> := None;
      for i := 0 to |walk|
        invariant loopIndex == None && Pos(loopX, loopY) !in walk[..i]
      {
        if walk[i].x == loopX && walk[i].y == loopY {
          loopIndex := Some(i);
          break;
        }
      }
      FirstIndexUnique(walk, Pos(loopX, loopY), loopIndex);
      if loopIndex.Some? {
        maze.currentWalk := walk[..loopIndex.value + 1];
        maze.walkSet := set q | q in maze.currentWalk;
      }
    }

    /**
      Grafts the walk: carves between each pair of consecutive cells, marking
      the first of the pair visited, then empties the walk.
    */
    method CarvePath()
      requires maze.Valid() && Chained(maze.currentWalk)
      modifies maze`grid, maze`currentWalk, maze`walkSet
      ensures maze.Valid()
      ensures Snapshot() == PathCarved(maze.width, maze.height, old(Snapshot()))
    {
      var walk := maze.currentWalk;
      ghost var g0 := maze.grid;
      var rounds := if |walk| == 0 then 0 else |walk| - 1;
      for i := 0 to rounds
        invariant maze.Valid()
        invariant maze.grid == CarveSteps(g0, maze.width, maze.height, walk, i)
        invariant maze.currentWalk == walk
      {
        var p1, p2 := walk[i], walk[i + 1];
        ChainedStep(walk, i);
        maze.CarvePassage(p1.x, p1.y, p2.x, p2.y);
        var g := maze.grid;
        MarkVisitedPreservesWallsAgree(g, maze.width, maze.height, p1.x, p1.y);
        var cell := GetCell(g, maze.width, maze.height, p1.x, p1.y);
        if cell.Some? {
          g := g[p1.y := g[p1.y][p1.x := cell.value.(visited := true)]];
        }
        assert g == MarkVisited(maze.grid, maze.width, maze.height, p1.x, p1.y);
        assert g == CarveSteps(g0, maze.width, maze.height, walk, i + 1);
        maze.grid := g;
      }
      maze.currentWalk := [];
      maze.walkSet := {};
    }
  }
}
