/**
  What the generator builds: the open passages between visited cells form a
  spanning tree of the visited cells. Between steps there is exactly one
  passage fewer than there are visited cells, every two visited cells are
  joined by a path of open passages, and a cell not yet visited still has
  all four walls. When generation is complete every cell is visited, so the
  maze has `w * h - 1` passages and any cell can be reached from any other.
*/
module SpanningTree {
  import opened Mazes
  import opened Wilson

  /** The key of the passage between two adjacent cells: its western or northern cell, and whether it runs south. */
  function EdgeKey(a: Pos, b: Pos): (Pos, bool) {
    if b.x == a.x + 1 then (a, false)
    else if b.x == a.x - 1 then (b, false)
    else if b.y == a.y + 1 then (a, true)
    else (b, true)
  }

  /** The open passages of the grid, each keyed once by its western or northern cell. */
  ghost function Edges(g: Grid, w: nat, h: nat): set<(Pos, bool)>
    requires Shaped(g, w, h)
  {
    (set y, x | 0 <= y < h && 0 <= x && x + 1 < w && !g[y][x].walls.east :: (Pos(x, y), false)) +
    (set y, x | 0 <= y && y + 1 < h && 0 <= x < w && !g[y][x].walls.south :: (Pos(x, y), true))
  }

  /** Every cell that has not been visited still has all four walls. */
  ghost predicate Sealed(g: Grid, w: nat, h: nat)
    requires Shaped(g, w, h)
  {
    forall y, x :: 0 <= y < h && 0 <= x < w && !g[y][x].visited ==> g[y][x].walls == Walls(true, true, true, true)
  }

  /** Two keys are equal only for the same unordered pair of adjacent cells. */
  lemma EdgeKeyInjective(a: Pos, b: Pos, c: Pos, d: Pos)
    requires Adjacent(a, b) && Adjacent(c, d) && EdgeKey(a, b) == EdgeKey(c, d)
    ensures (a == c && b == d) || (a == d && b == c)
  {
  }

  /** The passage between in-bounds adjacent cells is open exactly when the first lacks its wall toward the second. */
  lemma EdgeKeyOpen(g: Grid, w: nat, h: nat, a: Pos, b: Pos)
    requires WellFormed(g, w, h) && WallsAgree(g, w, h) && Adjacent(a, b)
    requires InBounds(w, h, a.x, a.y) && InBounds(w, h, b.x, b.y)
    ensures EdgeKey(a, b) in Edges(g, w, h) <==> !g[a.y][a.x].HasWall(DirectionTo(a, b))
  {
    var k := EdgeKey(a, b);
    if b.x == a.x + 1 {
      assert k == (Pos(a.x, a.y), false);
    } else if b.x == a.x - 1 {
      assert k == (Pos(b.x, b.y), false);
      assert g[b.y][b.x].walls.east == g[b.y][b.x + 1].walls.west;
    } else if b.y == a.y + 1 {
      assert k == (Pos(a.x, a.y), true);
    } else {
      assert k == (Pos(b.x, b.y), true);
      assert g[b.y][b.x].walls.south == g[b.y + 1][b.x].walls.north;
    }
  }

  /** Carving between in-bounds adjacent cells opens the east or south wall of a cell exactly when that is their passage. */
  lemma CarveKeyWalls(g: Grid, w: nat, h: nat, a: Pos, b: Pos)
    requires WellFormed(g, w, h) && Adjacent(a, b)
    requires InBounds(w, h, a.x, a.y) && InBounds(w, h, b.x, b.y)
    ensures var r := Carve(g, w, h, a.x, a.y, b.x, b.y);
      forall y, x :: InBounds(w, h, x, y) ==>
        r[y][x].walls.east == (g[y][x].walls.east && (Pos(x, y), false) != EdgeKey(a, b)) &&
        r[y][x].walls.south == (g[y][x].walls.south && (Pos(x, y), true) != EdgeKey(a, b))
  {
    var r: Grid := Carve(g, w, h, a.x, a.y, b.x, b.y);
    CarveAdjacent(g, w, h, a, b);
    forall y: int, x: int | InBounds(w, h, x, y)
      ensures r[y][x].walls.east == (g[y][x].walls.east && (Pos(x, y), false) != EdgeKey(a, b))
      ensures r[y][x].walls.south == (g[y][x].walls.south && (Pos(x, y), true) != EdgeKey(a, b))
    {
      assert r[y][x].HasWall(East) == r[y][x].walls.east;
      assert r[y][x].HasWall(South) == r[y][x].walls.south;
    }
  }

  /** The wall of a cell that a key with this orientation names: its south wall or its east wall. */
  function KeyWall(c: Cell, south: bool): bool {
    if south then c.walls.south else c.walls.east
  }

  /** One round of grafting, a carve between adjacent cells and a mark, opens exactly their passage. */
  lemma RoundKeyWalls(g: Grid, w: nat, h: nat, a: Pos, b: Pos, x: int, y: int, south: bool)
    requires WellFormed(g, w, h) && Adjacent(a, b) && InBounds(w, h, x, y)
    requires InBounds(w, h, a.x, a.y) && InBounds(w, h, b.x, b.y)
    ensures KeyWall(MarkVisited(Carve(g, w, h, a.x, a.y, b.x, b.y), w, h, a.x, a.y)[y][x], south) ==
      (KeyWall(g[y][x], south) && (Pos(x, y), south) != EdgeKey(a, b))
  {
    var g2: Grid := Carve(g, w, h, a.x, a.y, b.x, b.y);
    CarveKeyWalls(g, w, h, a, b);
    MarkVisitedWalls(g2, w, h, a.x, a.y);
  }

  /** The key of the passage between `walk[k]` and `walk[k + 1]`. */
  function PairKey(walk: seq<Pos>, k: nat): (Pos, bool)
    requires k + 1 < |walk|
  {
    EdgeKey(walk[k], walk[k + 1])
  }

  /** The keys of the passages between the first `n` consecutive pairs of `walk`. */
  ghost function Keys(walk: seq<Pos>, n: nat): set<(Pos, bool)>
    requires n == 0 || n < |walk|
  {
    if n == 0 then {} else Keys(walk, n - 1) + {EdgeKey(walk[n - 1], walk[n])}
  }

  /** Every key among the first `n` is the key of one of the first `n` pairs. */
  lemma {:induction false} KeyIndex(walk: seq<Pos>, n: nat, k: (Pos, bool)) returns (j: nat)
    requires (n == 0 || n < |walk|) && k in Keys(walk, n)
    ensures j < n && PairKey(walk, j) == k
  {
    if k == PairKey(walk, n - 1) {
      j := n - 1;
    } else {
      j := KeyIndex(walk, n - 1, k);
    }
  }

  /** A key names a passage inside the grid: its eastern or southern partner is in bounds. */
  ghost predicate KeyInGrid(w: nat, h: nat, k: (Pos, bool)) {
    InBounds(w, h, k.0.x, k.0.y) && (if k.1 then k.0.y + 1 < h else k.0.x + 1 < w)
  }

  /** The keys of a chained in-bounds walk name passages inside the grid. */
  lemma KeysInGrid(w: nat, h: nat, walk: seq<Pos>, n: nat, k: (Pos, bool))
    requires Chained(walk) && (n == 0 || n < |walk|) && k in Keys(walk, n)
    requires forall i :: 0 <= i < |walk| ==> InBounds(w, h, walk[i].x, walk[i].y)
    ensures KeyInGrid(w, h, k)
  {
    var j := KeyIndex(walk, n, k);
    assert Adjacent(walk[j], walk[j + 1]);
    assert InBounds(w, h, walk[j].x, walk[j].y) && InBounds(w, h, walk[j + 1].x, walk[j + 1].y);
  }

  /** Grafting `n` rounds of a chained in-bounds walk opens an east or south wall exactly when its key is among the walk's first `n`. */
  lemma {:induction false} CarveStepsKeyWalls(g: Grid, w: nat, h: nat, walk: seq<Pos>, n: nat, x: int, y: int, south: bool)
    requires WellFormed(g, w, h) && Chained(walk) && (n == 0 || n < |walk|) && InBounds(w, h, x, y)
    requires forall i :: 0 <= i < |walk| ==> InBounds(w, h, walk[i].x, walk[i].y)
    ensures KeyWall(CarveSteps(g, w, h, walk, n)[y][x], south) ==
      (KeyWall(g[y][x], south) && (Pos(x, y), south) !in Keys(walk, n))
  {
    if n > 0 {
      var a, b := walk[n - 1], walk[n];
      var g1: Grid := CarveSteps(g, w, h, walk, n - 1);
      assert CarveSteps(g, w, h, walk, n) == MarkVisited(Carve(g1, w, h, a.x, a.y, b.x, b.y), w, h, a.x, a.y);
      CarveStepsKeyWalls(g, w, h, walk, n - 1, x, y, south);
      assert Adjacent(a, b) by { ChainedStepTo(walk, n); }
      RoundKeyWalls(g1, w, h, a, b, x, y, south);
    }
  }

  /** Grafting `n` rounds of a chained in-bounds walk opens exactly the passages between its first `n` pairs. */
  lemma CarveStepsEdges(g: Grid, w: nat, h: nat, walk: seq<Pos>, n: nat)
    requires WellFormed(g, w, h) && Chained(walk) && (n == 0 || n < |walk|)
    requires forall i :: 0 <= i < |walk| ==> InBounds(w, h, walk[i].x, walk[i].y)
    ensures Edges(CarveSteps(g, w, h, walk, n), w, h) == Edges(g, w, h) + Keys(walk, n)
  {
    var r: Grid := CarveSteps(g, w, h, walk, n);
    var K := Keys(walk, n);
    forall k | k in Edges(g, w, h) + K ensures k in Edges(r, w, h) {
      if k in K {
        KeysInGrid(w, h, walk, n, k);
      }
      CarveStepsKeyWalls(g, w, h, walk, n, k.0.x, k.0.y, k.1);
    }
    forall k | k in Edges(r, w, h) ensures k in Edges(g, w, h) + K {
      CarveStepsKeyWalls(g, w, h, walk, n, k.0.x, k.0.y, k.1);
    }
  }

  /** The passages between the first `n` pairs of a simple chained walk are `n` different passages. */
  lemma {:induction false} KeysCard(walk: seq<Pos>, n: nat)
    requires Chained(walk) && Distinct(walk) && (n == 0 || n < |walk|)
    ensures |Keys(walk, n)| == n
  {
    if n > 0 {
      KeysCard(walk, n - 1);
      var key := PairKey(walk, n - 1);
      if key in Keys(walk, n - 1) {
        var k := KeyIndex(walk, n - 1, key);
        ChainedStep(walk, k);
        ChainedStepTo(walk, n);
        EdgeKeyInjective(walk[k], walk[k + 1], walk[n - 1], walk[n]);
        assert false;
      }
    }
  }

  /** A passage out of a sealed cell is closed. */
  lemma SealedKeyClosed(g: Grid, w: nat, h: nat, a: Pos, b: Pos)
    requires WellFormed(g, w, h) && WallsAgree(g, w, h) && Sealed(g, w, h) && Adjacent(a, b)
    requires InBounds(w, h, a.x, a.y) && InBounds(w, h, b.x, b.y) && !g[a.y][a.x].visited
    ensures EdgeKey(a, b) !in Edges(g, w, h)
  {
    EdgeKeyOpen(g, w, h, a, b);
  }

  /** One round of grafting leaves every cell other than the two it joins as it was. */
  lemma RoundOffCell(g: Grid, w: nat, h: nat, a: Pos, b: Pos, x: int, y: int)
    requires WellFormed(g, w, h) && Adjacent(a, b) && InBounds(w, h, x, y)
    requires Pos(x, y) != a && Pos(x, y) != b
    ensures MarkVisited(Carve(g, w, h, a.x, a.y, b.x, b.y), w, h, a.x, a.y)[y][x] == g[y][x]
  {
    var g2: Grid := Carve(g, w, h, a.x, a.y, b.x, b.y);
    if InBounds(w, h, a.x, a.y) && InBounds(w, h, b.x, b.y) {
      var d := DirectionTo(a, b);
      CarveIsFacingPair(g, w, h, a, b);
      RemoveWallAtCell(g, w, h, a.x, a.y, d, x, y);
      RemoveWallAtCell(RemoveWallAt(g, w, h, a.x, a.y, d), w, h, b.x, b.y, d.Opposite(), x, y);
    } else {
      CarveOutOfBounds(g, w, h, a.x, a.y, b.x, b.y);
    }
    assert MarkVisited(g2, w, h, a.x, a.y)[y][x] == g2[y][x];
  }

  /** Grafting rounds leave every cell off the walk as it was. */
  lemma {:induction false} CarveStepsOffWalk(g: Grid, w: nat, h: nat, walk: seq<Pos>, n: nat, x: int, y: int)
    requires WellFormed(g, w, h) && Chained(walk) && (n == 0 || n < |walk|)
    requires InBounds(w, h, x, y) && Pos(x, y) !in walk
    ensures CarveSteps(g, w, h, walk, n)[y][x] == g[y][x]
  {
    if n > 0 {
      var a, b := walk[n - 1], walk[n];
      var g1: Grid := CarveSteps(g, w, h, walk, n - 1);
      assert CarveSteps(g, w, h, walk, n) == MarkVisited(Carve(g1, w, h, a.x, a.y, b.x, b.y), w, h, a.x, a.y);
      CarveStepsOffWalk(g, w, h, walk, n - 1, x, y);
      assert Adjacent(a, b) by { ChainedStepTo(walk, n); }
      RoundOffCell(g1, w, h, a, b, x, y);
    }
  }

  /** The key of a passage does not depend on the order of its two cells. */
  lemma EdgeKeySymmetric(a: Pos, b: Pos)
    requires Adjacent(a, b)
    ensures EdgeKey(a, b) == EdgeKey(b, a)
  {
  }

  /** Every pair among the first `n` has its key among the first `n`. */
  lemma {:induction false} KeysContain(walk: seq<Pos>, n: nat, j: nat)
    requires (n == 0 || n < |walk|) && j < n
    ensures PairKey(walk, j) in Keys(walk, n)
  {
    if j < n - 1 {
      KeysContain(walk, n - 1, j);
    }
  }

  // Paths through open passages.

  /** `p` and `q` are adjacent and the passage between them is in `E`. */
  ghost predicate Passage(E: set<(Pos, bool)>, p: Pos, q: Pos) {
    Adjacent(p, q) && EdgeKey(p, q) in E
  }

  /** A non-empty sequence of cells, each joined to the next by a passage in `E`. */
  ghost predicate IsPath(E: set<(Pos, bool)>, path: seq<Pos>) {
    |path| >= 1 && forall i :: 0 <= i < |path| - 1 ==> Passage(E, path[i], path[i + 1])
  }

  /** Some path through `E` leads from `p` to `q`. */
  ghost predicate Linked(E: set<(Pos, bool)>, p: Pos, q: Pos) {
    exists path :: IsPath(E, path) && path[0] == p && path[|path| - 1] == q
  }

  /** Every two cells of `V` are linked through `E`. */
  ghost predicate Connected(E: set<(Pos, bool)>, V: set<Pos>) {
    forall p, q :: p in V && q in V ==> Linked(E, p, q)
  }

  lemma LinkedRefl(E: set<(Pos, bool)>, p: Pos)
    ensures Linked(E, p, p)
  {
    assert IsPath(E, [p]);
  }

  /** Paths join end to end. */
  lemma LinkedTrans(E: set<(Pos, bool)>, p: Pos, q: Pos, r: Pos)
    requires Linked(E, p, q) && Linked(E, q, r)
    ensures Linked(E, p, r)
  {
    var s1 :| IsPath(E, s1) && s1[0] == p && s1[|s1| - 1] == q;
    var s2 :| IsPath(E, s2) && s2[0] == q && s2[|s2| - 1] == r;
    var s := s1 + s2[1..];
    forall i | 0 <= i < |s| - 1 ensures Passage(E, s[i], s[i + 1]) {
      if i < |s1| - 1 {
        assert s[i] == s1[i] && s[i + 1] == s1[i + 1];
      } else {
        var j := i - |s1| + 1;
        assert s[i] == s2[j] && s[i + 1] == s2[j + 1];
      }
    }
    assert IsPath(E, s) && s[0] == p && s[|s| - 1] == r;
  }

  /** A path read backwards is a path, since passages have no direction. */
  lemma LinkedSym(E: set<(Pos, bool)>, p: Pos, q: Pos)
    requires Linked(E, p, q)
    ensures Linked(E, q, p)
  {
    var s :| IsPath(E, s) && s[0] == p && s[|s| - 1] == q;
    var n := |s|;
    var t := seq(n, i requires 0 <= i < n => s[n - 1 - i]);
    forall i | 0 <= i < n - 1 ensures Passage(E, t[i], t[i + 1]) {
      var j := n - 2 - i;
      assert t[i] == s[j + 1] && t[i + 1] == s[j];
      assert Passage(E, s[j], s[j + 1]);
      EdgeKeySymmetric(s[j], s[j + 1]);
    }
    assert IsPath(E, t) && t[0] == q && t[n - 1] == p;
  }

  /** Opening more passages keeps every link. */
  lemma LinkedMono(E: set<(Pos, bool)>, F: set<(Pos, bool)>, p: Pos, q: Pos)
    requires Linked(E, p, q) && E <= F
    ensures Linked(F, p, q)
  {
    var s :| IsPath(E, s) && s[0] == p && s[|s| - 1] == q;
    assert IsPath(F, s);
  }

  /** A chained walk whose first `n` passages are open links each of its first `n` cells to `walk[n]`. */
  lemma WalkLinked(E: set<(Pos, bool)>, walk: seq<Pos>, n: nat, i: nat)
    requires Chained(walk) && n < |walk| && i <= n
    requires forall k :: 0 <= k < n ==> PairKey(walk, k) in E
    ensures Linked(E, walk[i], walk[n])
  {
    var s := walk[i..n + 1];
    forall j | 0 <= j < |s| - 1 ensures Passage(E, s[j], s[j + 1]) {
      var k := i + j;
      assert s[j] == walk[k] && s[j + 1] == walk[k + 1];
      ChainedStep(walk, k);
      assert PairKey(walk, k) in E;
    }
    assert IsPath(E, s);
  }

  // The tree invariant and its preservation by every step.

  /**
    Every unvisited cell is sealed and, once the tree is seeded, the open
    passages form a spanning tree of the visited cells: one passage fewer
    than visited cells, and every two visited cells linked. Before seeding
    nothing is visited.
  */
  ghost predicate TreeInv(w: nat, h: nat, e: Engine) {
    Inv(w, h, e) && Sealed(e.grid, w, h) &&
    (e.phase == Init ==> VisitedSet(e.grid, w, h) == {}) &&
    (e.phase != Init ==>
      |Edges(e.grid, w, h)| + 1 == |VisitedSet(e.grid, w, h)| &&
      Connected(Edges(e.grid, w, h), VisitedSet(e.grid, w, h)))
  }

  /** A grid with nothing visited and every cell sealed has no open passage. */
  lemma SealedNoEdges(g: Grid, w: nat, h: nat)
    requires WellFormed(g, w, h) && Sealed(g, w, h) && VisitedSet(g, w, h) == {}
    ensures Edges(g, w, h) == {}
  {
    forall y: int, x: int | InBounds(w, h, x, y) ensures g[y][x].walls == Walls(true, true, true, true) {
      assert Pos(x, y) !in VisitedSet(g, w, h);
    }
  }

  /** Grids with the same walls have the same passages. */
  lemma SameWallsSameEdges(g1: Grid, g2: Grid, w: nat, h: nat)
    requires Shaped(g1, w, h) && Shaped(g2, w, h)
    requires forall y, x :: InBounds(w, h, x, y) ==> g2[y][x].walls == g1[y][x].walls
    ensures Edges(g2, w, h) == Edges(g1, w, h)
  {
  }

  /** Marking cells visited without touching a wall keeps the unvisited cells sealed. */
  lemma SealedKept(g1: Grid, g2: Grid, w: nat, h: nat)
    requires Shaped(g1, w, h) && Shaped(g2, w, h) && Sealed(g1, w, h)
    requires forall y, x :: InBounds(w, h, x, y) ==> g2[y][x].walls == g1[y][x].walls
    requires VisitedSet(g1, w, h) <= VisitedSet(g2, w, h)
    ensures Sealed(g2, w, h)
  {
    forall y: int, x: int | InBounds(w, h, x, y) && !g2[y][x].visited
      ensures g2[y][x].walls == Walls(true, true, true, true)
    {
      assert Pos(x, y) !in VisitedSet(g1, w, h);
    }
  }

  /** The engine built over a fresh maze satisfies the tree invariant. */
  lemma FreshTreeInv(w: nat, h: nat)
    requires w >= 1 && h >= 1
    ensures TreeInv(w, h, Engine(Init, None, NewGrid(w, h), [], {}, false))
  {
    var g := NewGrid(w, h);
    assert VisitedSet(g, w, h) == {};
  }

  /** Seeding: one visited cell and no passage make a one-cell tree. */
  lemma InitTree(w: nat, h: nat, e: Engine, roll: nat)
    requires TreeInv(w, h, e) && e.phase == Init
    ensures TreeInv(w, h, Stepped(w, h, e, roll).next)
    ensures var r := Stepped(w, h, e, roll).next;
      VisitedSet(r.grid, w, h) == {SeedCell(w, h, roll)} && Edges(r.grid, w, h) == {}
  {
    var r := Stepped(w, h, e, roll).next;
    var p := SeedCell(w, h, roll);
    InitStep(w, h, e, roll);
    SealedNoEdges(e.grid, w, h);
    SameWallsSameEdges(e.grid, r.grid, w, h);
    SealedKept(e.grid, r.grid, w, h);
    assert VisitedSet(r.grid, w, h) == {p};
    forall a, b | a in {p} && b in {p} ensures Linked({}, a, b) {
      LinkedRefl({}, p);
    }
  }

  /** The cells of a grafted walk, with the tree cell it reached, form a simple chained in-bounds walk. */
  lemma GraftWalk(w: nat, h: nat, e: Engine, next: Pos)
    requires Inv(w, h, e) && e.phase == RandomWalk
    requires InBounds(w, h, next.x, next.y) && Adjacent(e.walk[|e.walk| - 1], next)
    requires e.grid[next.y][next.x].visited
    ensures var walk := e.walk + [next];
      Chained(walk) && Distinct(walk) &&
      (forall i :: 0 <= i < |walk| ==> InBounds(w, h, walk[i].x, walk[i].y)) &&
      (forall i :: 0 <= i < |walk| - 1 ==> walk[i] == e.walk[i] && !e.grid[walk[i].y][walk[i].x].visited)
  {
    var walk := e.walk + [next];
    assert Chained(e.walk);
    ChainedExtend(e.walk, next);
    forall i, j | 0 <= i < j < |walk| ensures walk[i] != walk[j] {
      assert walk[i] == e.walk[i];
      if j < |e.walk| {
        assert walk[j] == e.walk[j];
      }
    }
  }

  /** Grafting opens exactly one new passage per walk cell, all between consecutive walk cells. */
  lemma GraftEdges(w: nat, h: nat, e: Engine, next: Pos)
    requires Inv(w, h, e) && Sealed(e.grid, w, h) && e.phase == RandomWalk
    requires InBounds(w, h, next.x, next.y) && Adjacent(e.walk[|e.walk| - 1], next)
    requires e.grid[next.y][next.x].visited
    ensures var walk, r := e.walk + [next], PathCarved(w, h, e.(walk := e.walk + [next]));
      Edges(e.grid, w, h) <= Edges(r.grid, w, h) &&
      |Edges(r.grid, w, h)| == |Edges(e.grid, w, h)| + |e.walk| &&
      (forall k :: 0 <= k < |e.walk| ==> PairKey(walk, k) in Edges(r.grid, w, h)) &&
      Edges(r.grid, w, h) == Edges(e.grid, w, h) + Keys(walk, |e.walk|) &&
      Edges(e.grid, w, h) !! Keys(walk, |e.walk|)
  {
    var walk, m := e.walk + [next], |e.walk|;
    GraftWalk(w, h, e, next);
    PathCarvedGrid(w, h, e, next);
    CarveStepsEdges(e.grid, w, h, walk, m);
    var E, K := Edges(e.grid, w, h), Keys(walk, m);
    forall k | k in K ensures k !in E {
      var j := KeyIndex(walk, m, k);
      ChainedStep(walk, j);
      SealedKeyClosed(e.grid, w, h, walk[j], walk[j + 1]);
    }
    KeysCard(walk, m);
    assert E !! K;
    forall k | 0 <= k < m ensures PairKey(walk, k) in K {
      KeysContain(walk, m, k);
    }
  }

  /** After a graft the cells still unvisited are untouched, so still sealed. */
  lemma GraftSealed(w: nat, h: nat, e: Engine, next: Pos)
    requires Inv(w, h, e) && Sealed(e.grid, w, h) && e.phase == RandomWalk
    requires InBounds(w, h, next.x, next.y) && Adjacent(e.walk[|e.walk| - 1], next)
    requires e.grid[next.y][next.x].visited
    ensures Sealed(PathCarved(w, h, e.(walk := e.walk + [next])).grid, w, h)
  {
    var walk, m := e.walk + [next], |e.walk|;
    GraftWalk(w, h, e, next);
    PathCarvedGrid(w, h, e, next);
    var g: Grid := CarveSteps(e.grid, w, h, walk, m);
    CarveStepsVisited(e.grid, w, h, walk, m);
    assert walk[..m] == e.walk;
    forall y: int, x: int | InBounds(w, h, x, y) && !g[y][x].visited
      ensures g[y][x].walls == Walls(true, true, true, true)
    {
      assert Pos(x, y) !in walk;
      CarveStepsOffWalk(e.grid, w, h, walk, m, x, y);
    }
  }

  /** After a graft every visited cell is linked to the tree cell the walk reached, hence to every other. */
  lemma GraftConnected(w: nat, h: nat, e: Engine, next: Pos)
    requires TreeInv(w, h, e) && e.phase == RandomWalk
    requires InBounds(w, h, next.x, next.y) && Adjacent(e.walk[|e.walk| - 1], next)
    requires e.grid[next.y][next.x].visited
    ensures var r := PathCarved(w, h, e.(walk := e.walk + [next]));
      Connected(Edges(r.grid, w, h), VisitedSet(r.grid, w, h))
  {
    var walk, m := e.walk + [next], |e.walk|;
    var r := PathCarved(w, h, e.(walk := walk));
    GraftWalk(w, h, e, next);
    GraftEdges(w, h, e, next);
    GraftFacts(w, h, e, next);
    var E, F := Edges(e.grid, w, h), Edges(r.grid, w, h);
    var V, W := VisitedSet(e.grid, w, h), VisitedSet(r.grid, w, h);
    assert next in V by {
      assert next == Pos(next.x, next.y);
    }
    forall p | p in W ensures Linked(F, p, next) {
      if p in V {
        LinkedMono(E, F, p, next);
      } else {
        assert p in e.walk;
        var i := FirstIndex(e.walk, p).value;
        assert walk[i] == p && walk[m] == next;
        WalkLinked(F, walk, m, i);
      }
    }
    forall p, q | p in W && q in W ensures Linked(F, p, q) {
      LinkedSym(F, q, next);
      LinkedTrans(F, p, next, q);
    }
  }

  /** Grafting keeps the tree invariant: as many new passages as new visited cells, all linked. */
  lemma GraftTree(w: nat, h: nat, e: Engine, roll: nat, next: Pos)
    requires TreeInv(w, h, e) && e.phase == RandomWalk && next == WalkChoice(w, h, e, roll)
    requires e.grid[next.y][next.x].visited
    ensures TreeInv(w, h, PathCarved(w, h, e.(walk := e.walk + [next])).(phase := SelectStart))
  {
    var r := PathCarved(w, h, e.(walk := e.walk + [next]));
    GraftStep(w, h, e, roll, next);
    GraftEdges(w, h, e, next);
    GraftSealed(w, h, e, next);
    GraftConnected(w, h, e, next);
    GraftFacts(w, h, e, next);
    WalkCellsUnvisited(w, h, e);
    VisitedPartition(e.grid, w, h);
    DistinctCard(e.walk);
    assert VisitedSet(e.grid, w, h) !! Elements(e.walk);
  }

  /** Every step keeps the tree invariant. */
  lemma SteppedPreservesTree(w: nat, h: nat, e: Engine, roll: nat)
    requires TreeInv(w, h, e)
    ensures TreeInv(w, h, Stepped(w, h, e, roll).next)
  {
    match e.phase
    case Init => InitTree(w, h, e, roll);
    case SelectStart => SelectStartStep(w, h, e, roll);
    case RandomWalk =>
      var next := WalkChoice(w, h, e, roll);
      WalkStepped(w, h, e, roll);
      if e.grid[next.y][next.x].visited {
        GraftTree(w, h, e, roll, next);
      } else if next in e.walkSet {
        EraseStep(w, h, e, roll, next);
      } else {
        ExtendStep(w, h, e, roll, next);
      }
  }

  /**
    The finished maze is a spanning tree of the whole grid: `w * h - 1`
    open passages, and every cell reachable from every other.
  */
  lemma CompleteIsSpanningTree(w: nat, h: nat, e: Engine)
    requires TreeInv(w, h, e) && e.complete
    ensures |Edges(e.grid, w, h)| == w * h - 1
    ensures Connected(Edges(e.grid, w, h), AllPositions(w, h))
  {
    VisitedPartition(e.grid, w, h);
    AllPositionsCard(w, h);
  }
}
