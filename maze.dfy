/**
  The maze grid of the Wilson's-algorithm generator: directions, cells with
  four wall flags and a visited flag, and the rectangular grid of cells with
  its bounds-checked lookup, neighbour enumeration, passage carving and
  unvisited-cell queries.

  Pure queries of the Python implementation's `Maze` and `Cell` classes are
  functions over a grid value (`seq<seq<Cell>>`, row `y` then column `x`); the
  operations that the Python implementation performs by mutation are methods
  of the class `Maze`, proved against those functions.
*/
module Mazes {

  datatype Option<T> = None | Some(value: T)

  /** The four cardinal directions; `y` grows southwards, as on screen. */
  datatype Direction = North | East | South | West {

    /** Horizontal unit offset of the direction. */
    function DX(): int {
      match this
      case North => 0
      case East => 1
      case South => 0
      case West => -1
    }

    /** Vertical unit offset of the direction. */
    function DY(): int {
      match this
      case North => -1
      case East => 0
      case South => 1
      case West => 0
    }

    /** Position of the direction in the enumeration order North, East, South, West. */
    function Index(): nat {
      match this
      case North => 0
      case East => 1
      case South => 2
      case West => 3
    }

    /** The direction pointing back: its offset is the negated offset. */
    function Opposite(): (r: Direction)
      ensures r != this
      ensures r.DX() == -DX() && r.DY() == -DY()
    {
      match this
      case North => South
      case South => North
      case East => West
      case West => East
    }
  }

  /** The enumeration order of `Direction`. */
  const Directions: seq<Direction> := [North, East, South, West]

  /**
    The enumeration lists each direction once, in the order North, East,
    South, West, and the four offsets are distinct unit steps.
  */
  lemma DirectionsEnumerate()
    ensures |Directions| == 4
    ensures forall i :: 0 <= i < |Directions| ==> Directions[i].Index() == i
    ensures forall d: Direction :: d in Directions
    ensures forall d: Direction :: (d.DX() == 0) != (d.DY() == 0) && -1 <= d.DX() <= 1 && -1 <= d.DY() <= 1
    ensures forall d1: Direction, d2: Direction :: d1 != d2 ==> (d1.DX(), d1.DY()) != (d2.DX(), d2.DY())
  {
    forall d: Direction ensures d in Directions {
      assert d == Directions[d.Index()];
    }
  }

  /** A grid coordinate; it may lie outside the grid. */
  datatype Pos = Pos(x: int, y: int) {
    /** The coordinate one unit step away in direction `d`. */
    function Step(d: Direction): Pos {
      Pos(x + d.DX(), y + d.DY())
    }
  }

  /** `p` and `q` differ by one unit step along exactly one axis. */
  predicate Adjacent(p: Pos, q: Pos) {
    var dx, dy := q.x - p.x, q.y - p.y;
    ((dx == 1 || dx == -1) && dy == 0) || (dx == 0 && (dy == 1 || dy == -1))
  }

  /** The direction leading from `p` to the adjacent `q`. */
  function DirectionTo(p: Pos, q: Pos): (d: Direction)
    requires Adjacent(p, q)
    ensures p.Step(d) == q
  {
    if q.x - p.x == 1 then East
    else if q.x - p.x == -1 then West
    else if q.y - p.y == 1 then South
    else North
  }

  /** The four wall flags of a cell, one per direction. */
  datatype Walls = Walls(north: bool, east: bool, south: bool, west: bool) {

    function Has(d: Direction): bool {
      match d
      case North => north
      case East => east
      case South => south
      case West => west
    }

    /** The same flags with the wall in direction `d` removed. */
    function Without(d: Direction): (w: Walls)
      ensures !w.Has(d)
      ensures forall e :: e != d ==> w.Has(e) == Has(e)
    {
      match d
      case North => this.(north := false)
      case East => this.(east := false)
      case South => this.(south := false)
      case West => this.(west := false)
    }
  }

  datatype Cell = Cell(x: int, y: int, walls: Walls, visited: bool) {

    function HasWall(d: Direction): bool {
      walls.Has(d)
    }

    /** The cell with its wall in direction `d` gone; nothing else differs. */
    function RemoveWall(d: Direction): (c: Cell)
      ensures c.x == x && c.y == y && c.visited == visited
      ensures !c.HasWall(d)
      ensures forall e :: e != d ==> c.HasWall(e) == HasWall(e)
    {
      this.(walls := walls.Without(d))
    }
  }

  /** A freshly built cell: walled in on all four sides and not yet visited. */
  function NewCell(x: int, y: int): (c: Cell)
    ensures c.x == x && c.y == y && !c.visited
    ensures forall d :: c.HasWall(d)
  {
    Cell(x, y, Walls(true, true, true, true), false)
  }

  type Grid = seq<seq<Cell>>

  predicate InBounds(w: nat, h: nat, x: int, y: int) {
    0 <= x < w && 0 <= y < h
  }

  /** `g` has `h` rows of `w` cells each. */
  ghost predicate Shaped(g: Grid, w: nat, h: nat) {
    |g| == h && forall y :: 0 <= y < h ==> |g[y]| == w
  }

  /** Shaped, and every cell knows its own coordinates. */
  ghost predicate WellFormed(g: Grid, w: nat, h: nat) {
    Shaped(g, w, h) &&
    forall y, x :: 0 <= y < h && 0 <= x < w ==> g[y][x].x == x && g[y][x].y == y
  }

  /**
    Wall symmetry, stated once per pair of neighbouring cells: a cell has its
    East wall exactly when its eastern neighbour has its West wall, and its
    South wall exactly when its southern neighbour has its North wall.
  */
  ghost predicate WallsAgree(g: Grid, w: nat, h: nat)
    requires Shaped(g, w, h)
  {
    (forall y, x :: 0 <= y < h && 0 <= x && x + 1 < w ==>
      g[y][x].walls.east == g[y][x + 1].walls.west) &&
    (forall y, x :: 0 <= y && y + 1 < h && 0 <= x < w ==>
      g[y][x].walls.south == g[y + 1][x].walls.north)
  }

  /** The grid built by the maze's constructor: `h` rows of `w` fresh cells. */
  function NewGrid(w: nat, h: nat): (g: Grid)
    ensures WellFormed(g, w, h)
    ensures forall y, x :: 0 <= y < h && 0 <= x < w ==> g[y][x] == NewCell(x, y)
  {
    seq(h, y => seq(w, x => NewCell(x, y)))
  }

  /** Bounds-checked lookup: a cell exactly for in-bounds coordinates, carrying those coordinates. */
  function GetCell(g: Grid, w: nat, h: nat, x: int, y: int): (r: Option<Cell>)
    requires WellFormed(g, w, h)
    ensures r.Some? <==> InBounds(w, h, x, y)
    ensures r.Some? ==> r.value.x == x && r.value.y == y && r.value == g[y][x]
  {
    if 0 <= x < w && 0 <= y < h then Some(g[y][x]) else None
  }

  /** An entry of the neighbour list: the direction taken and where it leads. */
  datatype Neighbor = Neighbor(dir: Direction, x: int, y: int)

  /**
    The neighbours reached from `(x, y)` through the directions `ds`, in the
    order of `ds`, keeping those that land inside the grid.
  */
  function NeighborsVia(w: nat, h: nat, x: int, y: int, ds: seq<Direction>): seq<Neighbor>
  {
    if ds == [] then []
    else
      var d := ds[|ds| - 1];
      var nx, ny := x + d.DX(), y + d.DY();
      NeighborsVia(w, h, x, y, ds[..|ds| - 1]) + (if InBounds(w, h, nx, ny) then [Neighbor(d, nx, ny)] else [])
  }

  /** The in-bounds neighbours of `(x, y)` in the order North, East, South, West. */
  function Neighbors(w: nat, h: nat, x: int, y: int): seq<Neighbor> {
    NeighborsVia(w, h, x, y, Directions)
  }

  lemma {:induction false} NeighborsViaFacts(w: nat, h: nat, x: int, y: int, ds: seq<Direction>)
    ensures |NeighborsVia(w, h, x, y, ds)| <= |ds|
    ensures forall n :: n in NeighborsVia(w, h, x, y, ds) <==>
      n.dir in ds && InBounds(w, h, n.x, n.y) && n.x == x + n.dir.DX() && n.y == y + n.dir.DY()
  {
    if ds != [] {
      NeighborsViaFacts(w, h, x, y, ds[..|ds| - 1]);
      assert ds == ds[..|ds| - 1] + [ds[|ds| - 1]];
    }
  }

  lemma {:induction false} NeighborsViaOrdered(w: nat, h: nat, x: int, y: int, ds: seq<Direction>)
    requires forall i, j :: 0 <= i < j < |ds| ==> ds[i].Index() < ds[j].Index()
    ensures var ns := NeighborsVia(w, h, x, y, ds);
      forall i, j :: 0 <= i < j < |ns| ==> ns[i].dir.Index() < ns[j].dir.Index()
  {
    if ds != [] {
      var pre := ds[..|ds| - 1];
      NeighborsViaOrdered(w, h, x, y, pre);
      NeighborsViaFacts(w, h, x, y, pre);
      var ns := NeighborsVia(w, h, x, y, pre);
      forall n | n in ns ensures n.dir.Index() < ds[|ds| - 1].Index() {
        var k :| 0 <= k < |pre| && pre[k] == n.dir;
      }
    }
  }

  /**
    The neighbour list holds exactly the in-bounds unit steps from `(x, y)`,
    each with its direction, in strictly increasing enumeration order (so no
    direction twice and at most four entries).
  */
  lemma NeighborsSpec(w: nat, h: nat, x: int, y: int)
    ensures var ns := Neighbors(w, h, x, y);
      |ns| <= 4 &&
      (forall n :: n in ns ==> InBounds(w, h, n.x, n.y) && n.x == x + n.dir.DX() && n.y == y + n.dir.DY()) &&
      (forall d: Direction :: InBounds(w, h, x + d.DX(), y + d.DY()) ==> Neighbor(d, x + d.DX(), y + d.DY()) in ns) &&
      (forall i, j :: 0 <= i < j < |ns| ==> ns[i].dir.Index() < ns[j].dir.Index())
  {
    NeighborsViaFacts(w, h, x, y, Directions);
    NeighborsViaOrdered(w, h, x, y, Directions);
    forall d: Direction ensures d in Directions {
      assert Directions[d.Index()] == d;
    }
  }

  /** A cell of a grid with at least two cells has a neighbour. */
  lemma NeighborsNonEmpty(w: nat, h: nat, x: int, y: int)
    requires InBounds(w, h, x, y) && (w >= 2 || h >= 2)
    ensures Neighbors(w, h, x, y) != []
  {
    NeighborsSpec(w, h, x, y);
    var d := if w >= 2 then (if x + 1 < w then East else West)
             else (if y + 1 < h then South else North);
    assert Neighbor(d, x + d.DX(), y + d.DY()) in Neighbors(w, h, x, y);
  }

  /** A single-cell update: the wall of `(x, y)` facing `d` is removed. */
  function RemoveWallAt(g: Grid, w: nat, h: nat, x: int, y: int, d: Direction): (r: Grid)
    requires WellFormed(g, w, h) && InBounds(w, h, x, y)
    ensures WellFormed(r, w, h)
  {
    g[y := g[y][x := g[y][x].RemoveWall(d)]]
  }

  /**
    Passage carving exactly as the Python implementation writes it: out-of-bounds endpoints
    make it a no-op; otherwise the horizontal difference is tested before the
    vertical one, without checking that the cells are adjacent.
  */
  function Carve(g: Grid, w: nat, h: nat, x1: int, y1: int, x2: int, y2: int): (r: Grid)
    requires WellFormed(g, w, h)
    ensures WellFormed(r, w, h)
  {
    if !InBounds(w, h, x1, y1) || !InBounds(w, h, x2, y2) then g
    else
      var dx, dy := x2 - x1, y2 - y1;
      if dx == 1 then RemoveWallAt(RemoveWallAt(g, w, h, x1, y1, East), w, h, x2, y2, West)
      else if dx == -1 then RemoveWallAt(RemoveWallAt(g, w, h, x1, y1, West), w, h, x2, y2, East)
      else if dy == 1 then RemoveWallAt(RemoveWallAt(g, w, h, x1, y1, South), w, h, x2, y2, North)
      else if dy == -1 then RemoveWallAt(RemoveWallAt(g, w, h, x1, y1, North), w, h, x2, y2, South)
      else g
  }

  lemma RemoveWallAtCell(g: Grid, w: nat, h: nat, x: int, y: int, d: Direction, xx: int, yy: int)
    requires WellFormed(g, w, h) && InBounds(w, h, x, y) && InBounds(w, h, xx, yy)
    ensures RemoveWallAt(g, w, h, x, y, d)[yy][xx] ==
      if xx == x && yy == y then g[y][x].RemoveWall(d) else g[yy][xx]
  {
  }

  /** Removing a wall that is already gone changes nothing. */
  lemma RemoveWallAtNoop(g: Grid, w: nat, h: nat, x: int, y: int, d: Direction)
    requires WellFormed(g, w, h) && InBounds(w, h, x, y) && !g[y][x].HasWall(d)
    ensures RemoveWallAt(g, w, h, x, y, d) == g
  {
    assert g[y][x].RemoveWall(d) == g[y][x];
    assert g[y][x := g[y][x]] == g[y];
  }

  /** Between in-bounds adjacent cells, carving removes the two facing walls. */
  lemma CarveIsFacingPair(g: Grid, w: nat, h: nat, p: Pos, q: Pos)
    requires WellFormed(g, w, h) && Adjacent(p, q)
    requires InBounds(w, h, p.x, p.y) && InBounds(w, h, q.x, q.y)
    ensures var d := DirectionTo(p, q);
      Carve(g, w, h, p.x, p.y, q.x, q.y) ==
        RemoveWallAt(RemoveWallAt(g, w, h, p.x, p.y, d), w, h, q.x, q.y, d.Opposite())
  {
  }

  /**
    Carving between adjacent in-bounds cells `p` and `q` clears the wall of
    `p` facing `q` and the wall of `q` facing `p`, and changes no other wall
    and no visited flag.
  */
  lemma CarveAdjacent(g: Grid, w: nat, h: nat, p: Pos, q: Pos)
    requires WellFormed(g, w, h) && Adjacent(p, q)
    requires InBounds(w, h, p.x, p.y) && InBounds(w, h, q.x, q.y)
    ensures var r := Carve(g, w, h, p.x, p.y, q.x, q.y);
      forall y, x :: InBounds(w, h, x, y) ==> r[y][x].visited == g[y][x].visited
    ensures var r, d := Carve(g, w, h, p.x, p.y, q.x, q.y), DirectionTo(p, q);
      forall y, x, e :: InBounds(w, h, x, y) ==>
        r[y][x].HasWall(e) == (g[y][x].HasWall(e) &&
          !(Pos(x, y) == p && e == d) && !(Pos(x, y) == q && e == d.Opposite()))
  {
    var d := DirectionTo(p, q);
    var g1: Grid := RemoveWallAt(g, w, h, p.x, p.y, d);
    var r: Grid := RemoveWallAt(g1, w, h, q.x, q.y, d.Opposite());
    CarveIsFacingPair(g, w, h, p, q);
    forall y: int, x: int | InBounds(w, h, x, y)
      ensures r[y][x].visited == g[y][x].visited
      ensures forall e :: r[y][x].HasWall(e) ==
                (g[y][x].HasWall(e) && !(Pos(x, y) == p && e == d) && !(Pos(x, y) == q && e == d.Opposite()))
    {
      RemoveWallAtCell(g, w, h, p.x, p.y, d, x, y);
      RemoveWallAtCell(g1, w, h, q.x, q.y, d.Opposite(), x, y);
    }
  }

  /** Carving, adjacent or not, changes no visited flag. */
  lemma CarveKeepsVisited(g: Grid, w: nat, h: nat, x1: int, y1: int, x2: int, y2: int)
    requires WellFormed(g, w, h)
    ensures var r := Carve(g, w, h, x1, y1, x2, y2);
      forall y, x :: InBounds(w, h, x, y) ==> r[y][x].visited == g[y][x].visited
    ensures var r := Carve(g, w, h, x1, y1, x2, y2);
      VisitedSet(r, w, h) == VisitedSet(g, w, h) && UnvisitedSet(r, w, h) == UnvisitedSet(g, w, h)
  {
    var r: Grid := Carve(g, w, h, x1, y1, x2, y2);
    assert forall y, x :: InBounds(w, h, x, y) ==> r[y][x].visited == g[y][x].visited;
  }

  /** Carving is a no-op when either endpoint lies outside the grid. */
  lemma CarveOutOfBounds(g: Grid, w: nat, h: nat, x1: int, y1: int, x2: int, y2: int)
    requires WellFormed(g, w, h)
    requires !InBounds(w, h, x1, y1) || !InBounds(w, h, x2, y2)
    ensures Carve(g, w, h, x1, y1, x2, y2) == g
  {
  }

  /** Carving the same pair twice leaves the grid as carving it once. */
  lemma CarveIdempotent(g: Grid, w: nat, h: nat, x1: int, y1: int, x2: int, y2: int)
    requires WellFormed(g, w, h)
    ensures var once := Carve(g, w, h, x1, y1, x2, y2);
      Carve(once, w, h, x1, y1, x2, y2) == once
  {
    if InBounds(w, h, x1, y1) && InBounds(w, h, x2, y2) {
      var dx, dy := x2 - x1, y2 - y1;
      if dx == 1 {
        CarveTwice(g, w, h, x1, y1, East, x2, y2, West);
      } else if dx == -1 {
        CarveTwice(g, w, h, x1, y1, West, x2, y2, East);
      } else if dy == 1 {
        CarveTwice(g, w, h, x1, y1, South, x2, y2, North);
      } else if dy == -1 {
        CarveTwice(g, w, h, x1, y1, North, x2, y2, South);
      }
    }
  }

  lemma CarveTwice(g: Grid, w: nat, h: nat, x1: int, y1: int, d1: Direction, x2: int, y2: int, d2: Direction)
    requires WellFormed(g, w, h) && InBounds(w, h, x1, y1) && InBounds(w, h, x2, y2)
    ensures var once := RemoveWallAt(RemoveWallAt(g, w, h, x1, y1, d1), w, h, x2, y2, d2);
      RemoveWallAt(RemoveWallAt(once, w, h, x1, y1, d1), w, h, x2, y2, d2) == once
  {
    var g1: Grid := RemoveWallAt(g, w, h, x1, y1, d1);
    var once: Grid := RemoveWallAt(g1, w, h, x2, y2, d2);
    RemoveWallAtCell(g, w, h, x1, y1, d1, x1, y1);
    RemoveWallAtCell(g1, w, h, x2, y2, d2, x1, y1);
    RemoveWallAtCell(g1, w, h, x2, y2, d2, x2, y2);
    assert !once[y1][x1].HasWall(d1);
    RemoveWallAtNoop(once, w, h, x1, y1, d1);
    RemoveWallAtNoop(once, w, h, x2, y2, d2);
  }

  /**
    For adjacent `p` and `q`, the wall of `a` in direction `e` is one of the
    two facing walls exactly when the wall of `a`'s neighbour across it, in
    the opposite direction, is the other one.
  */
  lemma FacingWalls(p: Pos, q: Pos, a: Pos, e: Direction)
    requires Adjacent(p, q)
    ensures var d, b := DirectionTo(p, q), a.Step(e);
      ((a == p && e == d) <==> (b == q && e.Opposite() == d.Opposite())) &&
      ((a == q && e == d.Opposite()) <==> (b == p && e.Opposite() == d))
  {
  }

  /** Carving between adjacent cells keeps the walls symmetric. */
  lemma CarvePreservesWallsAgree(g: Grid, w: nat, h: nat, p: Pos, q: Pos)
    requires WellFormed(g, w, h) && WallsAgree(g, w, h) && Adjacent(p, q)
    ensures WallsAgree(Carve(g, w, h, p.x, p.y, q.x, q.y), w, h)
  {
    if InBounds(w, h, p.x, p.y) && InBounds(w, h, q.x, q.y) {
      var r: Grid := Carve(g, w, h, p.x, p.y, q.x, q.y);
      CarveAdjacent(g, w, h, p, q);
      forall y: int, x: int | 0 <= y < h && 0 <= x && x + 1 < w
        ensures r[y][x].walls.east == r[y][x + 1].walls.west
      {
        FacingWalls(p, q, Pos(x, y), East);
        assert r[y][x].HasWall(East) == r[y][x + 1].HasWall(West);
      }
      forall y: int, x: int | 0 <= y && y + 1 < h && 0 <= x < w
        ensures r[y][x].walls.south == r[y + 1][x].walls.north
      {
        FacingWalls(p, q, Pos(x, y), South);
        assert r[y][x].HasWall(South) == r[y + 1][x].HasWall(North);
      }
    }
  }

  /**
    Carving as written is not guarded against non-adjacent cells: for the
    diagonal pair (0, 0) and (1, 1) the horizontal test fires, the East wall
    of (0, 0) and the West wall of (1, 1) go, and (0, 0) then lacks its East
    wall while its real eastern neighbour (1, 0) keeps its West wall.
  */
  lemma CarveDiagonalBreaksWallsAgree()
    ensures var g := Carve(NewGrid(2, 2), 2, 2, 0, 0, 1, 1);
      !g[0][0].walls.east && g[0][1].walls.west && !WallsAgree(g, 2, 2)
  {
    var g0 := NewGrid(2, 2);
    var g: Grid := Carve(g0, 2, 2, 0, 0, 1, 1);
    var g1: Grid := RemoveWallAt(g0, 2, 2, 0, 0, East);
    assert g == RemoveWallAt(g1, 2, 2, 1, 1, West);
    RemoveWallAtCell(g0, 2, 2, 0, 0, East, 1, 0);
    RemoveWallAtCell(g1, 2, 2, 1, 1, West, 1, 0);
    RemoveWallAtCell(g0, 2, 2, 0, 0, East, 0, 0);
    RemoveWallAtCell(g1, 2, 2, 1, 1, West, 0, 0);
  }

  /** Distinct elements. */
  ghost predicate Distinct<T>(s: seq<T>) {
    forall i, j :: 0 <= i < j < |s| ==> s[i] != s[j]
  }

  /** The set of elements of `s`. */
  ghost function Elements<T>(s: seq<T>): set<T> {
    set t | t in s
  }

  lemma {:induction false} DistinctCard<T>(s: seq<T>)
    requires Distinct(s)
    ensures |Elements(s)| == |s|
  {
    if s != [] {
      var pre := s[..|s| - 1];
      DistinctCard(pre);
      assert s == pre + [s[|s| - 1]];
      assert Elements(s) == Elements(pre) + {s[|s| - 1]};
    }
  }

  /** Marking the cell at `(x, y)` visited, through the bounds-checked lookup. */
  function MarkVisited(g: Grid, w: nat, h: nat, x: int, y: int): (r: Grid)
    requires WellFormed(g, w, h)
    ensures WellFormed(r, w, h)
  {
    match GetCell(g, w, h, x, y)
    case None => g
    case Some(cell) => g[y := g[y][x := cell.(visited := true)]]
  }

  /** All coordinates of a `w` by `h` grid. */
  ghost function AllPositions(w: nat, h: nat): set<Pos> {
    set y, x | 0 <= y < h && 0 <= x < w :: Pos(x, y)
  }

  ghost function VisitedSet(g: Grid, w: nat, h: nat): set<Pos>
    requires Shaped(g, w, h)
  {
    set y, x | 0 <= y < h && 0 <= x < w && g[y][x].visited :: Pos(x, y)
  }

  ghost function UnvisitedSet(g: Grid, w: nat, h: nat): set<Pos>
    requires Shaped(g, w, h)
  {
    set y, x | 0 <= y < h && 0 <= x < w && !g[y][x].visited :: Pos(x, y)
  }

  lemma VisitedPartition(g: Grid, w: nat, h: nat)
    requires Shaped(g, w, h)
    ensures VisitedSet(g, w, h) + UnvisitedSet(g, w, h) == AllPositions(w, h)
    ensures VisitedSet(g, w, h) !! UnvisitedSet(g, w, h)
  {
  }

  /** Marking an in-bounds cell visited adds exactly that cell to the visited set and touches no wall. */
  lemma MarkVisitedEffect(g: Grid, w: nat, h: nat, x: int, y: int)
    requires WellFormed(g, w, h)
    ensures var r := MarkVisited(g, w, h, x, y);
      VisitedSet(r, w, h) == VisitedSet(g, w, h) + (if InBounds(w, h, x, y) then {Pos(x, y)} else {}) &&
      forall yy, xx :: InBounds(w, h, xx, yy) ==> r[yy][xx].walls == g[yy][xx].walls
  {
    var r := MarkVisited(g, w, h, x, y);
    if InBounds(w, h, x, y) {
      forall p | p in VisitedSet(r, w, h) ensures p in VisitedSet(g, w, h) + {Pos(x, y)} {
        var yy, xx :| 0 <= yy < h && 0 <= xx < w && r[yy][xx].visited && p == Pos(xx, yy);
        if p != Pos(x, y) {
          assert r[yy][xx] == g[yy][xx];
        }
      }
      forall p | p in VisitedSet(g, w, h) + {Pos(x, y)} ensures p in VisitedSet(r, w, h) {
        assert r[p.y][p.x].visited;
      }
    }
  }

  /** Marking a cell visited sets exactly that cell's flag. */
  lemma MarkVisitedCell(g: Grid, w: nat, h: nat, x: int, y: int)
    requires WellFormed(g, w, h)
    ensures var r := MarkVisited(g, w, h, x, y);
      forall yy, xx :: InBounds(w, h, xx, yy) ==> r[yy][xx].visited == (g[yy][xx].visited || (xx == x && yy == y))
  {
  }

  /** Marking a cell visited touches no wall. */
  lemma MarkVisitedWalls(g: Grid, w: nat, h: nat, x: int, y: int)
    requires WellFormed(g, w, h)
    ensures var r := MarkVisited(g, w, h, x, y);
      forall yy, xx :: InBounds(w, h, xx, yy) ==> r[yy][xx].walls == g[yy][xx].walls
  {
  }

  /** A grid whose flags are those of another plus the cells of `s` has the visited set grown by `s`. */
  lemma VisitedSetGrows(g1: Grid, g2: Grid, w: nat, h: nat, s: set<Pos>)
    requires Shaped(g1, w, h) && Shaped(g2, w, h)
    requires forall y, x :: InBounds(w, h, x, y) ==> g2[y][x].visited == (g1[y][x].visited || Pos(x, y) in s)
    requires forall p :: p in s ==> InBounds(w, h, p.x, p.y)
    ensures VisitedSet(g2, w, h) == VisitedSet(g1, w, h) + s
  {
    forall p | p in VisitedSet(g1, w, h) + s ensures p in VisitedSet(g2, w, h) {
      assert g2[p.y][p.x].visited;
    }
  }

  /** Marking a cell visited keeps the walls symmetric. */
  lemma MarkVisitedPreservesWallsAgree(g: Grid, w: nat, h: nat, x: int, y: int)
    requires WellFormed(g, w, h) && WallsAgree(g, w, h)
    ensures WallsAgree(MarkVisited(g, w, h, x, y), w, h)
  {
    MarkVisitedEffect(g, w, h, x, y);
  }

  /** The coordinates of the unvisited cells of `row`, in order, read from the cells themselves. */
  function RowUnvisited(row: seq<Cell>): seq<Pos> {
    if row == [] then []
    else
      var c := row[|row| - 1];
      RowUnvisited(row[..|row| - 1]) + (if c.visited then [] else [Pos(c.x, c.y)])
  }

  /** The coordinates of the unvisited cells of the grid, row by row. */
  function UnvisitedList(g: Grid): seq<Pos> {
    if g == [] then [] else UnvisitedList(g[..|g| - 1]) + RowUnvisited(g[|g| - 1])
  }

  lemma {:induction false} RowUnvisitedMembers(g: Grid, w: nat, h: nat, y: int, j: nat)
    requires WellFormed(g, w, h) && 0 <= y < h && j <= w
    ensures var s := RowUnvisited(g[y][..j]);
      Distinct(s) && |s| <= j &&
      forall p :: p in s <==> p.y == y && 0 <= p.x < j && !g[y][p.x].visited
  {
    if j > 0 {
      RowUnvisitedMembers(g, w, h, y, j - 1);
      assert g[y][..j][..j - 1] == g[y][..j - 1];
    }
  }

  lemma {:induction false} UnvisitedListMembers(g: Grid, w: nat, h: nat, i: nat)
    requires WellFormed(g, w, h) && i <= h
    ensures var s := UnvisitedList(g[..i]);
      Distinct(s) &&
      forall p :: p in s <==> 0 <= p.y < i && 0 <= p.x < w && !g[p.y][p.x].visited
  {
    if i > 0 {
      UnvisitedListMembers(g, w, h, i - 1);
      RowUnvisitedMembers(g, w, h, i - 1, w);
      assert g[..i][..i - 1] == g[..i - 1];
      assert g[i - 1][..w] == g[i - 1];
      var a, b := UnvisitedList(g[..i - 1]), RowUnvisited(g[i - 1]);
      assert UnvisitedList(g[..i]) == a + b;
      forall k, l | 0 <= k < l < |a + b| ensures (a + b)[k] != (a + b)[l] {
        if k < |a| && l >= |a| {
          assert (a + b)[k] in a && (a + b)[l] in b;
        }
      }
    }
  }

  /** The coordinates of row `y` of a grid `w` cells wide. */
  ghost function RowPositions(w: nat, y: int): set<Pos> {
    set x | 0 <= x < w :: Pos(x, y)
  }

  lemma {:induction false} RowPositionsCard(w: nat, y: int)
    ensures |RowPositions(w, y)| == w
  {
    if w > 0 {
      RowPositionsCard(w - 1, y);
      assert RowPositions(w, y) == RowPositions(w - 1, y) + {Pos(w - 1, y)};
    }
  }

  /** The coordinates of `h` rows are those of the first `h - 1` rows and, apart from them, the last row. */
  lemma AllPositionsSplit(w: nat, h: nat)
    requires h > 0
    ensures AllPositions(w, h) == AllPositions(w, h - 1) + RowPositions(w, h - 1)
    ensures AllPositions(w, h - 1) !! RowPositions(w, h - 1)
  {
  }

  lemma MulPred(w: nat, h: nat)
    requires h > 0
    ensures w * h == w * (h - 1) + w
  {
  }

  /** A `w` by `h` grid has `w * h` coordinates. */
  lemma {:induction false} AllPositionsCard(w: nat, h: nat)
    ensures |AllPositions(w, h)| == w * h
  {
    if h > 0 {
      AllPositionsCard(w, h - 1);
      RowPositionsCard(w, h - 1);
      AllPositionsSplit(w, h);
      MulPred(w, h);
    }
  }

  /** A grid has at most as many unvisited cells as coordinates. */
  lemma UnvisitedSetCard(g: Grid, w: nat, h: nat)
    requires Shaped(g, w, h)
    ensures |UnvisitedSet(g, w, h)| <= w * h
  {
    AllPositionsCard(w, h);
    assert UnvisitedSet(g, w, h) <= AllPositions(w, h);
    SubsetCard(UnvisitedSet(g, w, h), AllPositions(w, h));
  }

  /** The row-major unvisited list holds exactly the unvisited cells. */
  lemma UnvisitedListElements(g: Grid, w: nat, h: nat)
    requires WellFormed(g, w, h)
    ensures Distinct(UnvisitedList(g))
    ensures Elements(UnvisitedList(g)) == UnvisitedSet(g, w, h)
  {
    UnvisitedListMembers(g, w, h, h);
    assert g[..h] == g;
  }

  /**
    The row-major unvisited list holds every unvisited cell exactly once, so
    its length is the number of unvisited cells, at most `w * h`.
  */
  lemma UnvisitedListSpec(g: Grid, w: nat, h: nat)
    requires WellFormed(g, w, h)
    ensures Distinct(UnvisitedList(g))
    ensures Elements(UnvisitedList(g)) == UnvisitedSet(g, w, h)
    ensures |UnvisitedList(g)| == |UnvisitedSet(g, w, h)| <= w * h
  {
    UnvisitedListElements(g, w, h);
    DistinctCard(UnvisitedList(g));
    UnvisitedSetCard(g, w, h);
  }

  lemma SubsetCard<T>(a: set<T>, b: set<T>)
    requires a <= b
    ensures |a| <= |b|
  {
    assert b == a + (b - a);
  }

  /**
    The random pick among the unvisited cells, with the source of randomness
    made explicit: `roll` selects the element at `roll` modulo the length of
    the row-major unvisited list.
  */
  function RandomUnvisited(g: Grid, w: nat, h: nat, roll: nat): (r: Option<Pos>)
    requires WellFormed(g, w, h)
    ensures r.None? <==> UnvisitedSet(g, w, h) == {}
    ensures r.Some? ==> InBounds(w, h, r.value.x, r.value.y) && !g[r.value.y][r.value.x].visited
  {
    UnvisitedListSpec(g, w, h);
    var unvisited := UnvisitedList(g);
    if unvisited == [] then None
    else
      assert unvisited[roll % |unvisited|] in Elements(unvisited);
      Some(unvisited[roll % |unvisited|])
  }

  /** Every unvisited cell is the pick for some roll. */
  lemma RandomUnvisitedCovers(g: Grid, w: nat, h: nat, p: Pos)
    requires WellFormed(g, w, h) && p in UnvisitedSet(g, w, h)
    ensures exists roll: nat :: RandomUnvisited(g, w, h, roll) == Some(p)
  {
    UnvisitedListMembers(g, w, h, h);
    assert g[..h] == g;
    var unvisited := UnvisitedList(g);
    assert 0 <= p.y < h && 0 <= p.x < w && !g[p.y][p.x].visited;
    assert p in unvisited;
    var k :| 0 <= k < |unvisited| && unvisited[k] == p;
    ModSmall(k, |unvisited|);
    assert RandomUnvisited(g, w, h, k) == Some(unvisited[k]);
  }

  lemma ModSmall(k: nat, n: nat)
    requires k < n
    ensures k % n == k
  {
  }

  /**
    The maze: a fixed `width` by `height` grid of cells, plus the walk state
    that the generator keeps on it (the walk's path, the set of its cells,
    and the completion flag).
  */
  class Maze {
    const width: nat
    const height: nat
    var grid: Grid
    var currentWalk: seq<Pos>
    var walkSet: set<Pos>
    var algorithmComplete: bool

    ghost predicate Valid()
      reads this
    {
      WellFormed(grid, width, height) && WallsAgree(grid, width, height)
    }

    /** A maze of fresh cells and an empty walk. */
    constructor (width: nat, height: nat)
      ensures this.width == width && this.height == height
      ensures Valid() && grid == NewGrid(width, height)
      ensures currentWalk == [] && walkSet == {} && !algorithmComplete
    {
      this.width := width;
      this.height := height;
      grid := NewGrid(width, height);
      currentWalk := [];
      walkSet := {};
      algorithmComplete := false;
    }

    /** The in-bounds neighbours of `(x, y)`, enumerating the directions in order. */
    method GetNeighbors(x: int, y: int) returns (neighbors: seq<Neighbor>)
      requires Valid()
      ensures neighbors == Neighbors(width, height, x, y)
    {
      neighbors := [];
      for i := 0 to |Directions|
        invariant neighbors == NeighborsVia(width, height, x, y, Directions[..i])
      {
        var direction := Directions[i];
        var nx, ny := x + direction.DX(), y + direction.DY();
        if GetCell(grid, width, height, nx, ny).Some? {
          neighbors := neighbors + [Neighbor(direction, nx, ny)];
        }
        assert Directions[..i + 1][..i] == Directions[..i];
      }
      assert Directions[..|Directions|] == Directions;
    }

    /**
      Removes the pair of walls between two adjacent cells; out-of-bounds
      coordinates make it a no-op.
    */
    method CarvePassage(x1: int, y1: int, x2: int, y2: int)
      requires Valid() && Adjacent(Pos(x1, y1), Pos(x2, y2))
      modifies this`grid
      ensures Valid()
      ensures grid == Carve(old(grid), width, height, x1, y1, x2, y2)
    {
      CarvePreservesWallsAgree(grid, width, height, Pos(x1, y1), Pos(x2, y2));
      var cell1 := GetCell(grid, width, height, x1, y1);
      var cell2 := GetCell(grid, width, height, x2, y2);
      if cell1.None? || cell2.None? {
        return;
      }
      var dx, dy := x2 - x1, y2 - y1;
      if dx == 1 {
        grid := RemoveWallAt(grid, width, height, x1, y1, East);
        grid := RemoveWallAt(grid, width, height, x2, y2, West);
      } else if dx == -1 {
        grid := RemoveWallAt(grid, width, height, x1, y1, West);
        grid := RemoveWallAt(grid, width, height, x2, y2, East);
      } else if dy == 1 {
        grid := RemoveWallAt(grid, width, height, x1, y1, South);
        grid := RemoveWallAt(grid, width, height, x2, y2, North);
      } else if dy == -1 {
        grid := RemoveWallAt(grid, width, height, x1, y1, North);
        grid := RemoveWallAt(grid, width, height, x2, y2, South);
      }
    }

    /** Counts the unvisited cells row by row. */
    method CountUnvisited() returns (count: nat)
      requires Valid()
      ensures count == |UnvisitedSet(grid, width, height)|
      ensures count <= width * height
    {
      count := 0;
      for y := 0 to |grid|
        invariant count == |UnvisitedList(grid[..y])|
      {
        var row := grid[y];
        for x := 0 to |row|
          invariant count == |UnvisitedList(grid[..y])| + |RowUnvisited(row[..x])|
        {
          if !row[x].visited {
            count := count + 1;
          }
          assert row[..x + 1][..x] == row[..x];
        }
        assert row[..|row|] == row;
        assert grid[..y + 1][..y] == grid[..y];
      }
      assert grid[..|grid|] == grid;
      UnvisitedListSpec(grid, width, height);
    }
  }
}
