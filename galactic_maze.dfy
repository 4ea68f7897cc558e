/**
 * The galactic maze: a fixed 4x4 grid of cell kinds, a weight for every passable cell, and a
 * walker ("Thorne") that steps greedily to its heaviest passable neighbour. The grid is drawn
 * as a graph whose edges join each cell to its right and lower neighbours; after a step the
 * edge to the chosen neighbour and the edge to the lightest candidate are restyled.
 *
 * Randomness is injected: the weights come from a `draw` function given to the operations
 * that recompute them.
 */
module GalacticMaze {
  import opened Wrappers

  /** Cell kinds: "O" open, "A" asteroid field (impassable), "S" star gate, "T" start, a digit a portal. */
  datatype Tag = Open | Asteroid | StarGate | Start | Portal(number: nat)

  const Size: nat := 4

  const Maze: seq<seq<Tag>> := [
    [Open,     Open,      Asteroid,  StarGate],
    [Start,    Portal(1), Open,      Asteroid],
    [Asteroid, Open,      Portal(1), Open],
    [StarGate, Asteroid,  Open,      Open]
  ]

  /** A grid coordinate: `x` is the column and `y` the row, so the cell is `Maze[y][x]`. */
  datatype Pos = Pos(x: int, y: int)

  predicate InGrid(p: Pos)
  {
    0 <= p.x < Size && 0 <= p.y < Size
  }

  function TagAt(p: Pos): Tag
    requires InGrid(p)
  {
    Maze[p.y][p.x]
  }

  /** A grid of cell kinds with the maze's dimensions. */
  predicate IsGrid(grid: seq<seq<Tag>>)
  {
    |grid| == Size && forall r | 0 <= r < Size :: |grid[r]| == Size
  }

  /** Whether `p` lies on a cell of `grid` that is not an asteroid field. */
  predicate OpenIn(grid: seq<seq<Tag>>, p: Pos)
    requires IsGrid(grid)
  {
    InGrid(p) && grid[p.y][p.x] != Asteroid
  }

  /** The maze has the grid's dimensions. */
  lemma MazeIsGrid()
    ensures IsGrid(Maze)
  {
  }

  /** A cell the walker may enter: inside the maze and not an asteroid field. */
  predicate Passable(p: Pos)
  {
    MazeIsGrid();
    OpenIn(Maze, p)
  }

  /** The passable cells are exactly the in-grid cells whose kind is not an asteroid field. */
  lemma PassableIsNotAsteroid(p: Pos)
    ensures Passable(p) <==> InGrid(p) && TagAt(p) != Asteroid
  {
  }

  /** Where the walker starts and returns to on a reset. */
  const StartPos: Pos := Pos(0, 1)

  /** The start position is the maze's start cell, which is passable. */
  lemma StartCell()
    ensures InGrid(StartPos) && TagAt(StartPos) == Start && Passable(StartPos)
  {
  }

  // ---------------------------------------------------------------------------------------
  // Valid moves

  /**
   * The four steps in the order they are tried: y+1, x+1, y-1, x-1. (The component's comments
   * call them right, down, left and up; on the drawn grid, where rows go down, they are down,
   * right, up and left.)
   */
  const Directions: seq<Pos> := [Pos(0, 1), Pos(1, 0), Pos(0, -1), Pos(-1, 0)]

  /** The cell one step from `p` in direction number `k`. */
  function Neighbour(p: Pos, k: nat): Pos
    requires k < |Directions|
  {
    Pos(p.x + Directions[k].x, p.y + Directions[k].y)
  }

  /** `q` differs from `p` by exactly one in exactly one coordinate. */
  predicate Adjacent(p: Pos, q: Pos)
  {
    (q.x == p.x && (q.y == p.y + 1 || q.y == p.y - 1)) || (q.y == p.y && (q.x == p.x + 1 || q.x == p.x - 1))
  }

  /** The position of the step from `p` to `q` in `Directions`, or 4 when `q` is not a neighbour. */
  function DirectionOf(p: Pos, q: Pos): nat
  {
    if q == Neighbour(p, 0) then 0
    else if q == Neighbour(p, 1) then 1
    else if q == Neighbour(p, 2) then 2
    else if q == Neighbour(p, 3) then 3
    else 4
  }

  /** The passable neighbours of `pos` reached by the first `n` directions, in direction order. */
  function MovesAlong(pos: Pos, n: nat): (r: seq<Pos>)
    requires n <= |Directions|
    ensures |r| <= n
  {
    if n == 0 then []
    else
      var q := Neighbour(pos, n - 1);
      if Passable(q) then MovesAlong(pos, n - 1) + [q] else MovesAlong(pos, n - 1)
  }

  /**
   * The moves along the first `n` directions are at most `n`, each passable and adjacent,
   * strictly in direction order, and include every passable neighbour in those directions.
   */
  lemma {:induction false} MovesAlongSpec(pos: Pos, n: nat)
    requires n <= |Directions|
    ensures var r := MovesAlong(pos, n);
      && |r| <= n
      && (forall m | m in r :: Passable(m) && Adjacent(pos, m) && DirectionOf(pos, m) < n)
      && (forall a, b | 0 <= a < b < |r| :: DirectionOf(pos, r[a]) < DirectionOf(pos, r[b]))
      && (forall k | 0 <= k < n :: Passable(Neighbour(pos, k)) ==> Neighbour(pos, k) in r)
  {
    if n > 0 {
      MovesAlongSpec(pos, n - 1);
      var q := Neighbour(pos, n - 1);
      assert DirectionOf(pos, q) == n - 1;
    }
  }

  /** The valid moves from `pos`: at most four, in direction order. */
  function ValidMoves(pos: Pos): (r: seq<Pos>)
    ensures |r| <= |Directions|
  {
    MovesAlong(pos, |Directions|)
  }

  /** The component's test for a valid move, on coordinates, is `Passable`. */
  lemma PassableAt(x: int, y: int)
    ensures Passable(Pos(x, y)) <==> 0 <= x < |Maze[0]| && 0 <= y < |Maze| && Maze[y][x] != Asteroid
  {
  }

  /** Enumerates the in-grid, non-asteroid neighbours of `pos` in direction order. */
  method FindValidMoves(pos: Pos) returns (moves: seq<Pos>)
    ensures moves == ValidMoves(pos)
    ensures |moves| <= 4
    ensures forall m | m in moves :: Passable(m) && Adjacent(pos, m)
    ensures forall k | 0 <= k < 4 :: Passable(Neighbour(pos, k)) ==> Neighbour(pos, k) in moves
  {
    moves := [];
    for k := 0 to |Directions|
      invariant moves == MovesAlong(pos, k)
    {
      var dir := Directions[k];
      var newX := pos.x + dir.x;
      var newY := pos.y + dir.y;
      PassableAt(newX, newY);
      assert Pos(newX, newY) == Neighbour(pos, k);
      if 0 <= newX < |Maze[0]| && 0 <= newY < |Maze| && Maze[newY][newX] != Asteroid {
        moves := moves + [Pos(newX, newY)];
      }
    }
    MovesAlongSpec(pos, |Directions|);
  }

  /** From the start cell the walker can go to the portal at (x 1, y 1) or the open cell at (x 0, y 0). */
  lemma MovesFromStart()
    ensures ValidMoves(StartPos) == [Pos(1, 1), Pos(0, 0)]
  {
    assert MovesAlong(StartPos, 1) == [];
    assert MovesAlong(StartPos, 2) == [Pos(1, 1)];
    assert MovesAlong(StartPos, 3) == [Pos(1, 1), Pos(0, 0)];
  }

  /** The lower star gate is walled in by asteroids: it has no valid move. */
  lemma WalledInStarGate()
    ensures TagAt(Pos(0, 3)) == StarGate && ValidMoves(Pos(0, 3)) == []
  {
  }

  // ---------------------------------------------------------------------------------------
  // Weights and the greedy choice

  type Weights = map<Pos, real>

  /** A cell's weight; a cell without one reads as 0. */
  function WeightOf(w: Weights, p: Pos): (r: real)
    ensures p !in w ==> r == 0.0
  {
    if p in w then w[p] else 0.0
  }

  /** Assigns a drawn weight to exactly the non-asteroid cells. */
  method CalculateWeights(draw: Pos -> real) returns (w: Weights)
    ensures forall p :: p in w <==> Passable(p)
    ensures forall p | p in w :: w[p] == draw(p)
  {
    w := map[];
    for i := 0 to |Maze|
      invariant forall p :: p in w <==> Passable(p) && p.y < i
      invariant forall p | p in w :: w[p] == draw(p)
    {
      for j := 0 to |Maze[i]|
        invariant forall p :: p in w <==> Passable(p) && (p.y < i || (p.y == i && p.x < j))
        invariant forall p | p in w :: w[p] == draw(p)
      {
        if Maze[i][j] != Asteroid {
          w := w[Pos(j, i) := draw(Pos(j, i))];
        }
      }
    }
  }

  predicate SortedByWeight(s: seq<Pos>, w: Weights)
  {
    forall a, b | 0 <= a < b < |s| :: WeightOf(w, s[a]) >= WeightOf(w, s[b])
  }

  /** Inserts `m` before the first element that is not heavier, so `m` precedes its equals. */
  function InsertByWeight(m: Pos, s: seq<Pos>, w: Weights): (r: seq<Pos>)
    ensures |r| == |s| + 1
    ensures r[0] == if s == [] || WeightOf(w, m) >= WeightOf(w, s[0]) then m else s[0]
  {
    if s == [] || WeightOf(w, m) >= WeightOf(w, s[0]) then [m] + s
    else [s[0]] + InsertByWeight(m, s[1..], w)
  }

  /** Insertion adds `m` and loses nothing. */
  lemma {:induction false} InsertByWeightPermutes(m: Pos, s: seq<Pos>, w: Weights)
    ensures multiset(InsertByWeight(m, s, w)) == multiset(s) + multiset{m}
  {
    if s != [] && WeightOf(w, m) < WeightOf(w, s[0]) {
      InsertByWeightPermutes(m, s[1..], w);
      assert s == [s[0]] + s[1..];
    }
  }

  /** Inserting into a sorted sequence keeps it sorted. */
  lemma {:induction false} InsertByWeightSorted(m: Pos, s: seq<Pos>, w: Weights)
    requires SortedByWeight(s, w)
    ensures SortedByWeight(InsertByWeight(m, s, w), w)
  {
    var r := InsertByWeight(m, s, w);
    if s == [] || WeightOf(w, m) >= WeightOf(w, s[0]) {
      assert r == [m] + s;
    } else {
      var rest := InsertByWeight(m, s[1..], w);
      InsertByWeightSorted(m, s[1..], w);
      InsertByWeightPermutes(m, s[1..], w);
      assert r == [s[0]] + rest;
      forall b | 0 < b < |r| ensures WeightOf(w, r[0]) >= WeightOf(w, r[b]) {
        assert r[b] == rest[b - 1];
        assert r[b] in multiset(rest);
        if r[b] != m {
          assert r[b] in multiset(s[1..]);
        }
      }
    }
  }

  /**
   * The moves sorted by descending weight, stably: moves of equal weight keep their
   * enumeration order (the component sorts with the comparator `b - a`).
   */
  function SortByWeight(moves: seq<Pos>, w: Weights): (r: seq<Pos>)
    ensures |r| == |moves|
  {
    if moves == [] then [] else InsertByWeight(moves[0], SortByWeight(moves[1..], w), w)
  }

  /** Sorting loses and adds no move. */
  lemma {:induction false} SortByWeightPermutes(moves: seq<Pos>, w: Weights)
    ensures multiset(SortByWeight(moves, w)) == multiset(moves)
  {
    if moves != [] {
      SortByWeightPermutes(moves[1..], w);
      InsertByWeightPermutes(moves[0], SortByWeight(moves[1..], w), w);
      assert moves == [moves[0]] + moves[1..];
    }
  }

  /** Sorting puts the moves in order of non-increasing weight. */
  lemma {:induction false} SortByWeightSorted(moves: seq<Pos>, w: Weights)
    ensures SortedByWeight(SortByWeight(moves, w), w)
  {
    if moves != [] {
      SortByWeightSorted(moves[1..], w);
      InsertByWeightSorted(moves[0], SortByWeight(moves[1..], w), w);
    }
  }

  /** The first move of greatest weight. */
  function BestIndex(moves: seq<Pos>, w: Weights): (k: nat)
    requires moves != []
    ensures k < |moves|
    ensures forall j | 0 <= j < |moves| :: WeightOf(w, moves[j]) <= WeightOf(w, moves[k])
    ensures forall j | 0 <= j < k :: WeightOf(w, moves[j]) < WeightOf(w, moves[k])
  {
    if |moves| == 1 then 0
    else
      var k := BestIndex(moves[1..], w);
      if WeightOf(w, moves[0]) >= WeightOf(w, moves[1 + k]) then 0 else 1 + k
  }

  /** The last move of least weight. */
  function WorstIndex(moves: seq<Pos>, w: Weights): (k: nat)
    requires moves != []
    ensures k < |moves|
    ensures forall j | 0 <= j < |moves| :: WeightOf(w, moves[k]) <= WeightOf(w, moves[j])
    ensures forall j | k < j < |moves| :: WeightOf(w, moves[k]) < WeightOf(w, moves[j])
  {
    if |moves| == 1 then 0
    else
      var k := WorstIndex(moves[1..], w);
      if WeightOf(w, moves[0]) < WeightOf(w, moves[1 + k]) then 0 else 1 + k
  }

  /** The head of the sorted moves is the earliest move of greatest weight. */
  lemma {:induction false} SortHeadIsBest(moves: seq<Pos>, w: Weights)
    requires moves != []
    ensures SortByWeight(moves, w)[0] == moves[BestIndex(moves, w)]
  {
    if |moves| > 1 {
      SortHeadIsBest(moves[1..], w);
    }
  }

  /** Inserting into a sequence whose last element is its lightest ends with `m` exactly when `m` is lighter still. */
  lemma {:induction false} InsertByWeightLast(m: Pos, s: seq<Pos>, w: Weights)
    requires s != []
    requires forall j | 0 <= j < |s| :: WeightOf(w, s[|s| - 1]) <= WeightOf(w, s[j])
    ensures var r := InsertByWeight(m, s, w);
      r[|r| - 1] == if WeightOf(w, m) < WeightOf(w, s[|s| - 1]) then m else s[|s| - 1]
  {
    if WeightOf(w, m) < WeightOf(w, s[0]) && |s| > 1 {
      var t := s[1..];
      assert forall j | 0 <= j < |t| :: t[j] == s[j + 1];
      InsertByWeightLast(m, t, w);
    }
  }

  /** The last of the sorted moves is the latest move of least weight. */
  lemma {:induction false} SortLastIsWorst(moves: seq<Pos>, w: Weights)
    requires moves != []
    ensures var r := SortByWeight(moves, w); r[|r| - 1] == moves[WorstIndex(moves, w)]
  {
    if |moves| > 1 {
      var tail := SortByWeight(moves[1..], w);
      SortLastIsWorst(moves[1..], w);
      SortByWeightSorted(moves[1..], w);
      assert forall j | 0 <= j < |tail| :: WeightOf(w, tail[|tail| - 1]) <= WeightOf(w, tail[j]);
      InsertByWeightLast(moves[0], tail, w);
    }
  }

  /**
   * The greedy choice: when there is a valid move, the walker's next cell is a valid move
   * whose weight is at least every valid move's, and no earlier move in direction order is as
   * heavy.
   */
  lemma NextMoveIsBest(pos: Pos, w: Weights)
    requires ValidMoves(pos) != []
    ensures var moves := ValidMoves(pos);
      var next := SortByWeight(moves, w)[0];
      && Passable(next) && Adjacent(pos, next)
      && next == moves[BestIndex(moves, w)]
      && forall m | m in moves :: WeightOf(w, m) <= WeightOf(w, next)
  {
    var moves := ValidMoves(pos);
    MovesAlongSpec(pos, |Directions|);
    SortHeadIsBest(moves, w);
    assert moves[BestIndex(moves, w)] in moves;
  }

  // ---------------------------------------------------------------------------------------
  // Graph edges

  datatype Style = Plain | BestPath | WorstPath

  /** A graph edge: its id, its source and target cells (graph nodes), and its style. */
  datatype Edge = Edge(id: string, source: Pos, target: Pos, style: Style)

  function Digit(n: int): char
    requires 0 <= n < 10
  {
    ('0' as int + n) as char
  }

  /** A cell's node id, "<row>-<column>". */
  function NodeId(p: Pos): string
    requires InGrid(p)
  {
    [Digit(p.y), '-', Digit(p.x)]
  }

  /** An edge's id, "e<row>-<column>-<row>-<column>". */
  function EdgeId(s: Pos, t: Pos): string
    requires InGrid(s) && InGrid(t)
  {
    "e" + NodeId(s) + "-" + NodeId(t)
  }

  /** Two cells share a node id exactly when they are the same cell, so comparing node ids compares cells. */
  lemma NodeIdInjective(p: Pos, q: Pos)
    requires InGrid(p) && InGrid(q)
    ensures NodeId(p) == NodeId(q) <==> p == q
  {
    if NodeId(p) == NodeId(q) {
      assert NodeId(p)[0] == NodeId(q)[0] && NodeId(p)[2] == NodeId(q)[2];
    }
  }

  /** Two edges share an id exactly when they have the same source and the same target. */
  lemma EdgeIdInjective(s: Pos, t: Pos, s': Pos, t': Pos)
    requires InGrid(s) && InGrid(t) && InGrid(s') && InGrid(t')
    ensures EdgeId(s, t) == EdgeId(s', t') <==> s == s' && t == t'
  {
    var a, b := EdgeId(s, t), EdgeId(s', t');
    if a == b {
      assert a[1] == b[1] && a[3] == b[3] && a[5] == b[5] && a[7] == b[7];
    }
  }

  /** Ids put the row first: the cell at x 2, y 1 is node "1-2", and the start cell's edge to its right is "e1-0-1-1". */
  lemma IdsAreRowFirst()
    ensures NodeId(Pos(2, 1)) == "1-2"
    ensures EdgeId(Pos(0, 1), Pos(1, 1)) == "e1-0-1-1"
  {
  }

  /** The plain edge from the cell at row `i`, column `j` to the cell `t`. */
  function PlainEdge(i: nat, j: nat, t: Pos): Edge
    requires i < Size && j < Size && InGrid(t)
  {
    Edge(EdgeId(Pos(j, i), t), Pos(j, i), t, Plain)
  }

  /** The edge from the cell at row `i`, column `j` to its right neighbour. */
  function RightEdge(i: nat, j: nat): Edge
    requires i < Size && j < Size - 1
  {
    PlainEdge(i, j, Pos(j + 1, i))
  }

  /** The edge from the cell at row `i`, column `j` to its lower neighbour. */
  function DownEdge(i: nat, j: nat): Edge
    requires i < Size - 1 && j < Size
  {
    PlainEdge(i, j, Pos(j, i + 1))
  }

  /** The edges created for the cell at row `i`, column `j` of `grid`: to the right, then down. */
  function CellEdges(grid: seq<seq<Tag>>, i: nat, j: nat): seq<Edge>
    requires IsGrid(grid) && i < Size && j < Size
  {
    (if j < Size - 1 && grid[i][j + 1] != Asteroid then [RightEdge(i, j)] else [])
    + (if i < Size - 1 && grid[i + 1][j] != Asteroid then [DownEdge(i, j)] else [])
  }

  /** The position of a cell in row-major order on the 4-column grid. */
  function CellIndex(p: Pos): int
  {
    4 * p.y + p.x
  }

  /** Edges sort by source cell in row-major order, the right edge of a cell before its down edge. */
  function EdgeRank(e: Edge): int
  {
    2 * CellIndex(e.source) + (if e.target.y == e.source.y then 0 else 1)
  }

  /** A plain edge from a cell to its open right or lower neighbour in `grid`, with its derived id. */
  predicate WellShaped(grid: seq<seq<Tag>>, e: Edge)
    requires IsGrid(grid)
  {
    && InGrid(e.source) && OpenIn(grid, e.target)
    && (e.target == Pos(e.source.x + 1, e.source.y) || e.target == Pos(e.source.x, e.source.y + 1))
    && e.id == EdgeId(e.source, e.target)
    && e.style == Plain
  }

  /** The edges of one cell are well shaped. */
  lemma CellEdgesShape(grid: seq<seq<Tag>>, i: nat, j: nat)
    requires IsGrid(grid) && i < Size && j < Size
    ensures forall e | e in CellEdges(grid, i, j) :: WellShaped(grid, e)
  {
  }

  /** Whether the cell at row `ci`, column `cj` comes before row `i`, column `j` in row-major order. */
  predicate CellBefore(ci: int, cj: int, i: int, j: int)
  {
    ci < i || (ci == i && cj < j)
  }

  /** The edges of every cell of `grid` before row `i`, column `j`, in row-major order. */
  function EdgesUpTo(grid: seq<seq<Tag>>, i: nat, j: nat): seq<Edge>
    requires IsGrid(grid)
    requires (i < Size && j <= Size) || (i == Size && j == 0)
    decreases i, j
  {
    if j > 0 then EdgesUpTo(grid, i, j - 1) + CellEdges(grid, i, j - 1)
    else if i > 0 then EdgesUpTo(grid, i - 1, Size)
    else []
  }

  /** Each cell contributes at most two edges: one right and one down. */
  lemma {:induction false} EdgesUpToCount(grid: seq<seq<Tag>>, i: nat, j: nat)
    requires IsGrid(grid)
    requires (i < Size && j <= Size) || (i == Size && j == 0)
    ensures |EdgesUpTo(grid, i, j)| <= 2 * (4 * i + j)
    decreases i, j
  {
    if j > 0 {
      EdgesUpToCount(grid, i, j - 1);
    } else if i > 0 {
      EdgesUpToCount(grid, i - 1, Size);
    }
  }

  /** Every edge before row `i`, column `j` is well shaped. */
  lemma {:induction false} EdgesUpToShape(grid: seq<seq<Tag>>, i: nat, j: nat)
    requires IsGrid(grid)
    requires (i < Size && j <= Size) || (i == Size && j == 0)
    ensures forall e | e in EdgesUpTo(grid, i, j) :: WellShaped(grid, e)
    decreases i, j
  {
    if j > 0 {
      EdgesUpToShape(grid, i, j - 1);
      CellEdgesShape(grid, i, j - 1);
    } else if i > 0 {
      EdgesUpToShape(grid, i - 1, Size);
    }
  }

  /** Whether the ranks along `r` strictly increase. */
  predicate Ranked(r: seq<Edge>)
  {
    forall a, b | 0 <= a < b < |r| :: EdgeRank(r[a]) < EdgeRank(r[b])
  }

  /** A cell's edges are ranked, right before down, and rank between the cell's two rank slots. */
  lemma CellEdgesRanked(grid: seq<seq<Tag>>, i: nat, j: nat)
    requires IsGrid(grid) && i < Size && j < Size
    ensures Ranked(CellEdges(grid, i, j))
    ensures forall e | e in CellEdges(grid, i, j) :: 2 * (4 * i + j) <= EdgeRank(e) < 2 * (4 * i + j) + 2
  {
  }

  /** Every edge before row `i`, column `j` ranks below that cell's edges. */
  lemma {:induction false} EdgesUpToRankBound(grid: seq<seq<Tag>>, i: nat, j: nat)
    requires IsGrid(grid)
    requires (i < Size && j <= Size) || (i == Size && j == 0)
    ensures forall e | e in EdgesUpTo(grid, i, j) :: EdgeRank(e) < 2 * (4 * i + j)
    decreases i, j
  {
    if j > 0 {
      EdgesUpToRankBound(grid, i, j - 1);
      CellEdgesRanked(grid, i, j - 1);
    } else if i > 0 {
      EdgesUpToRankBound(grid, i - 1, Size);
    }
  }

  /** Ranked sequences joined at a rank boundary stay ranked. */
  lemma AppendRanked(rest: seq<Edge>, cell: seq<Edge>, bound: int)
    requires Ranked(rest) && Ranked(cell)
    requires forall e | e in rest :: EdgeRank(e) < bound
    requires forall e | e in cell :: bound <= EdgeRank(e)
    ensures Ranked(rest + cell)
  {
    var r := rest + cell;
    forall a, b | 0 <= a < b < |r| ensures EdgeRank(r[a]) < EdgeRank(r[b]) {
      if b < |rest| {
        assert r[a] == rest[a] && r[b] == rest[b];
      } else if a < |rest| {
        assert r[a] in rest && r[b] in cell;
      } else {
        assert r[a] == cell[a - |rest|] && r[b] == cell[b - |rest|];
      }
    }
  }

  /** The edges before row `i`, column `j` come in strictly increasing rank. */
  lemma {:induction false} EdgesUpToRanked(grid: seq<seq<Tag>>, i: nat, j: nat)
    requires IsGrid(grid)
    requires (i < Size && j <= Size) || (i == Size && j == 0)
    ensures Ranked(EdgesUpTo(grid, i, j))
    decreases i, j
  {
    if j > 0 {
      var rest, cell := EdgesUpTo(grid, i, j - 1), CellEdges(grid, i, j - 1);
      assert Ranked(rest + cell) by {
        EdgesUpToRanked(grid, i, j - 1);
        EdgesUpToRankBound(grid, i, j - 1);
        CellEdgesRanked(grid, i, j - 1);
        AppendRanked(rest, cell, 2 * (4 * i + (j - 1)));
      }
      assert EdgesUpTo(grid, i, j) == rest + cell;
    } else if i > 0 {
      EdgesUpToRanked(grid, i - 1, Size);
    }
  }

  /** A cell's edges include the one to each open right or lower neighbour. */
  lemma CellEdgesComplete(grid: seq<seq<Tag>>, i: nat, j: nat)
    requires IsGrid(grid) && i < Size && j < Size
    ensures j < Size - 1 && OpenIn(grid, Pos(j + 1, i)) ==> RightEdge(i, j) in CellEdges(grid, i, j)
    ensures i < Size - 1 && OpenIn(grid, Pos(j, i + 1)) ==> DownEdge(i, j) in CellEdges(grid, i, j)
  {
  }

  /** Every cell before row `i`, column `j` has its edge to an open right neighbour. */
  lemma {:induction false} EdgesUpToHasRight(grid: seq<seq<Tag>>, i: nat, j: nat)
    requires IsGrid(grid)
    requires (i < Size && j <= Size) || (i == Size && j == 0)
    ensures forall ci: nat, cj: nat | ci < Size && cj < Size - 1 && CellBefore(ci, cj, i, j) && OpenIn(grid, Pos(cj + 1, ci)) ::
      RightEdge(ci, cj) in EdgesUpTo(grid, i, j)
    decreases i, j
  {
    if j > 0 {
      var rest, cell := EdgesUpTo(grid, i, j - 1), CellEdges(grid, i, j - 1);
      assert EdgesUpTo(grid, i, j) == rest + cell;
      EdgesUpToHasRight(grid, i, j - 1);
      CellEdgesComplete(grid, i, j - 1);
      forall ci: nat, cj: nat | ci < Size && cj < Size - 1 && CellBefore(ci, cj, i, j) && OpenIn(grid, Pos(cj + 1, ci))
        ensures RightEdge(ci, cj) in rest + cell
      {
        if CellBefore(ci, cj, i, j - 1) {
          assert RightEdge(ci, cj) in rest;
        } else {
          assert ci == i && cj == j - 1;
          assert RightEdge(ci, cj) in cell;
        }
      }
    } else if i > 0 {
      EdgesUpToHasRight(grid, i - 1, Size);
    }
  }

  /** Every cell before row `i`, column `j` has its edge to an open lower neighbour. */
  lemma {:induction false} EdgesUpToHasDown(grid: seq<seq<Tag>>, i: nat, j: nat)
    requires IsGrid(grid)
    requires (i < Size && j <= Size) || (i == Size && j == 0)
    ensures forall ci: nat, cj: nat | ci < Size - 1 && cj < Size && CellBefore(ci, cj, i, j) && OpenIn(grid, Pos(cj, ci + 1)) ::
      DownEdge(ci, cj) in EdgesUpTo(grid, i, j)
    decreases i, j
  {
    if j > 0 {
      var rest, cell := EdgesUpTo(grid, i, j - 1), CellEdges(grid, i, j - 1);
      assert EdgesUpTo(grid, i, j) == rest + cell;
      EdgesUpToHasDown(grid, i, j - 1);
      CellEdgesComplete(grid, i, j - 1);
      forall ci: nat, cj: nat | ci < Size - 1 && cj < Size && CellBefore(ci, cj, i, j) && OpenIn(grid, Pos(cj, ci + 1))
        ensures DownEdge(ci, cj) in rest + cell
      {
        if CellBefore(ci, cj, i, j - 1) {
          assert DownEdge(ci, cj) in rest;
        } else {
          assert ci == i && cj == j - 1;
          assert DownEdge(ci, cj) in cell;
        }
      }
    } else if i > 0 {
      EdgesUpToHasDown(grid, i - 1, Size);
    }
  }

  /** The edge to a right neighbour is well shaped only when that neighbour is open. */
  lemma RightEdgeTarget(grid: seq<seq<Tag>>, i: nat, j: nat)
    requires IsGrid(grid) && i < Size && j < Size - 1 && WellShaped(grid, RightEdge(i, j))
    ensures OpenIn(grid, Pos(j + 1, i))
  {
  }

  /** The edge to a lower neighbour is well shaped only when that neighbour is open. */
  lemma DownEdgeTarget(grid: seq<seq<Tag>>, i: nat, j: nat)
    requires IsGrid(grid) && i < Size - 1 && j < Size && WellShaped(grid, DownEdge(i, j))
    ensures OpenIn(grid, Pos(j, i + 1))
  {
  }

  /** No two edges of `r` share an id. */
  predicate UniqueIds(r: seq<Edge>)
  {
    forall a, b | 0 <= a < b < |r| :: r[a].id != r[b].id
  }

  /**
   * The edges built over any grid of the maze's size: one to each cell's right neighbour
   * exactly when it is open, likewise to its lower neighbour, no others, and unique ids.
   */
  lemma {:induction false} EdgesExact(grid: seq<seq<Tag>>)
    requires IsGrid(grid)
    ensures forall i: nat, j: nat | i < Size && j < Size - 1 ::
      RightEdge(i, j) in EdgesUpTo(grid, Size, 0) <==> OpenIn(grid, Pos(j + 1, i))
    ensures forall i: nat, j: nat | i < Size - 1 && j < Size ::
      DownEdge(i, j) in EdgesUpTo(grid, Size, 0) <==> OpenIn(grid, Pos(j, i + 1))
    ensures forall e | e in EdgesUpTo(grid, Size, 0) :: WellShaped(grid, e)
    ensures UniqueIds(EdgesUpTo(grid, Size, 0))
  {
    var r := EdgesUpTo(grid, Size, 0);
    EdgesUpToShape(grid, Size, 0);
    EdgesUpToRanked(grid, Size, 0);
    EdgesUpToHasRight(grid, Size, 0);
    EdgesUpToHasDown(grid, Size, 0);
    forall i: nat, j: nat | i < Size && j < Size - 1 && RightEdge(i, j) in r
      ensures OpenIn(grid, Pos(j + 1, i))
    {
      RightEdgeTarget(grid, i, j);
    }
    forall i: nat, j: nat | i < Size - 1 && j < Size && DownEdge(i, j) in r
      ensures OpenIn(grid, Pos(j, i + 1))
    {
      DownEdgeTarget(grid, i, j);
    }
    forall a, b | 0 <= a < b < |r| ensures r[a].id != r[b].id {
      assert r[a] in r && r[b] in r;
      assert EdgeRank(r[a]) != EdgeRank(r[b]);
      EdgeIdInjective(r[a].source, r[a].target, r[b].source, r[b].target);
    }
  }

  /** All edges of the maze's graph, as it is built. */
  function GridEdges(): seq<Edge>
  {
    MazeIsGrid();
    EdgesUpTo(Maze, Size, 0)
  }

  /** Builds the graph's edges over `grid`, cell by cell in row-major order. */
  method CreateEdges(grid: seq<seq<Tag>>) returns (edges: seq<Edge>)
    requires IsGrid(grid)
    ensures edges == EdgesUpTo(grid, Size, 0)
  {
    edges := [];
    for i := 0 to |grid|
      invariant edges == EdgesUpTo(grid, i, 0)
    {
      assert |grid[i]| == Size;
      for j := 0 to |grid[i]|
        invariant edges == EdgesUpTo(grid, i, j)
      {
        ghost var before := edges;
        if j < |grid[0]| - 1 && grid[i][j + 1] != Asteroid {
          edges := edges + [Edge(EdgeId(Pos(j, i), Pos(j + 1, i)), Pos(j, i), Pos(j + 1, i), Plain)];
        }
        if i < |grid| - 1 && grid[i + 1][j] != Asteroid {
          edges := edges + [Edge(EdgeId(Pos(j, i), Pos(j, i + 1)), Pos(j, i), Pos(j, i + 1), Plain)];
        }
        assert edges == before + CellEdges(grid, i, j);
      }
      assert EdgesUpTo(grid, i + 1, 0) == EdgesUpTo(grid, i, Size);
    }
  }

  /** Whether edge `e` joins cells `a` and `b`, in either direction. */
  predicate Joins(e: Edge, a: Pos, b: Pos)
  {
    (e.source == a && e.target == b) || (e.source == b && e.target == a)
  }

  /**
   * Restyles the edges after a step from `from`: given the moves sorted by weight, the edge to
   * the best move turns green, otherwise the edge to the worst move turns red; all other edges,
   * and every id and endpoint, stay as they were.
   */
  function UpdateEdgeStyles(edges: seq<Edge>, from: Pos, sortedMoves: seq<Pos>): (r: seq<Edge>)
    requires sortedMoves != []
    ensures |r| == |edges|
    ensures forall k | 0 <= k < |r| ::
      r[k].id == edges[k].id && r[k].source == edges[k].source && r[k].target == edges[k].target
    ensures forall k | 0 <= k < |r| ::
      var best, worst := sortedMoves[0], sortedMoves[|sortedMoves| - 1];
      if Joins(edges[k], from, best) then r[k].style == BestPath
      else if Joins(edges[k], from, worst) then r[k].style == WorstPath
      else r[k] == edges[k]
  {
    var best, worst := sortedMoves[0], sortedMoves[|sortedMoves| - 1];
    seq(|edges|, k requires 0 <= k < |edges| =>
      if Joins(edges[k], from, best) then edges[k].(style := BestPath)
      else if Joins(edges[k], from, worst) then edges[k].(style := WorstPath)
      else edges[k])
  }

  /** Two well-shaped edges joining the same two cells run the same way, so they share their id. */
  lemma JoiningEdgesAgree(grid: seq<seq<Tag>>, e1: Edge, e2: Edge, a: Pos, b: Pos)
    requires IsGrid(grid) && WellShaped(grid, e1) && WellShaped(grid, e2)
    requires Joins(e1, a, b) && Joins(e2, a, b)
    ensures e1.source == e2.source && e1.target == e2.target && e1.id == e2.id
  {
  }

  /** An edge of `r` joining `a` and `b` gives an index of `r` that joins them. */
  lemma JoiningIndex(r: seq<Edge>, e: Edge, a: Pos, b: Pos)
    requires e in r && Joins(e, a, b)
    ensures exists k | 0 <= k < |r| :: Joins(r[k], a, b)
  {
    var k :| 0 <= k < |r| && r[k] == e;
  }

  /**
   * Edges `r` that hold the edge to every open right and every open lower neighbour have an
   * edge between any two adjacent open cells, in one direction or the other.
   */
  lemma EdgeBetween(grid: seq<seq<Tag>>, r: seq<Edge>, a: Pos, b: Pos)
    requires IsGrid(grid) && OpenIn(grid, a) && OpenIn(grid, b) && Adjacent(a, b)
    requires forall i: nat, j: nat | i < Size && j < Size - 1 && OpenIn(grid, Pos(j + 1, i)) :: RightEdge(i, j) in r
    requires forall i: nat, j: nat | i < Size - 1 && j < Size && OpenIn(grid, Pos(j, i + 1)) :: DownEdge(i, j) in r
    ensures exists k | 0 <= k < |r| :: Joins(r[k], a, b)
  {
    if b == Pos(a.x + 1, a.y) {
      JoiningIndex(r, RightEdge(a.y, a.x), a, b);
    } else if a == Pos(b.x + 1, b.y) {
      JoiningIndex(r, RightEdge(b.y, b.x), a, b);
    } else if b == Pos(a.x, a.y + 1) {
      JoiningIndex(r, DownEdge(a.y, a.x), a, b);
    } else {
      JoiningIndex(r, DownEdge(b.y, b.x), a, b);
    }
  }

  /** Among well-shaped edges with unique ids, no two join the same two cells. */
  lemma AtMostOneEdgeBetween(grid: seq<seq<Tag>>, r: seq<Edge>, a: Pos, b: Pos)
    requires IsGrid(grid) && UniqueIds(r)
    requires forall e | e in r :: WellShaped(grid, e)
    ensures forall k1, k2 | 0 <= k1 < |r| && 0 <= k2 < |r| && Joins(r[k1], a, b) && Joins(r[k2], a, b) :: k1 == k2
  {
    forall k1, k2 | 0 <= k1 < |r| && 0 <= k2 < |r| && Joins(r[k1], a, b) && Joins(r[k2], a, b)
      ensures k1 == k2
    {
      assert r[k1] in r && r[k2] in r;
      JoiningEdgesAgree(grid, r[k1], r[k2], a, b);
    }
  }

  /** Over plain edges, a restyle turns green exactly the edges joining the step's two cells. */
  lemma GreenExactlyJoining(edges: seq<Edge>, from: Pos, sortedMoves: seq<Pos>)
    requires sortedMoves != []
    requires forall e | e in edges :: e.style == Plain
    ensures var r := UpdateEdgeStyles(edges, from, sortedMoves);
      forall k | 0 <= k < |r| :: r[k].style == BestPath <==> Joins(edges[k], from, sortedMoves[0])
  {
    var r := UpdateEdgeStyles(edges, from, sortedMoves);
    forall k | 0 <= k < |r| ensures r[k].style == BestPath <==> Joins(edges[k], from, sortedMoves[0]) {
      assert edges[k] in edges;
    }
  }

  /** Over edges built as `EdgesExact` describes them, a step restyles exactly one edge green. */
  lemma OneGreenEdgeAmong(grid: seq<seq<Tag>>, edges: seq<Edge>, from: Pos, sortedMoves: seq<Pos>)
    requires IsGrid(grid) && sortedMoves != []
    requires OpenIn(grid, from) && OpenIn(grid, sortedMoves[0]) && Adjacent(from, sortedMoves[0])
    requires forall i: nat, j: nat | i < Size && j < Size - 1 ::
      RightEdge(i, j) in edges <==> OpenIn(grid, Pos(j + 1, i))
    requires forall i: nat, j: nat | i < Size - 1 && j < Size ::
      DownEdge(i, j) in edges <==> OpenIn(grid, Pos(j, i + 1))
    requires forall e | e in edges :: WellShaped(grid, e)
    requires UniqueIds(edges)
    ensures var r := UpdateEdgeStyles(edges, from, sortedMoves);
      && (exists k | 0 <= k < |r| :: r[k].style == BestPath)
      && (forall k1, k2 | 0 <= k1 < |r| && 0 <= k2 < |r| && r[k1].style == BestPath && r[k2].style == BestPath :: k1 == k2)
  {
    var r := UpdateEdgeStyles(edges, from, sortedMoves);
    EdgeBetween(grid, edges, from, sortedMoves[0]);
    AtMostOneEdgeBetween(grid, edges, from, sortedMoves[0]);
    GreenExactlyJoining(edges, from, sortedMoves);
    var k :| 0 <= k < |edges| && Joins(edges[k], from, sortedMoves[0]);
    assert r[k].style == BestPath;
  }

  /**
   * A completed step over freshly built edges restyles exactly one edge green: the one joining
   * the cell the step started from and the cell it went to.
   */
  lemma OneGreenEdge(grid: seq<seq<Tag>>, edges: seq<Edge>, from: Pos, sortedMoves: seq<Pos>)
    requires IsGrid(grid) && edges == EdgesUpTo(grid, Size, 0) && sortedMoves != []
    requires OpenIn(grid, from) && OpenIn(grid, sortedMoves[0]) && Adjacent(from, sortedMoves[0])
    ensures var r := UpdateEdgeStyles(edges, from, sortedMoves);
      && (exists k | 0 <= k < |r| :: r[k].style == BestPath)
      && (forall k1, k2 | 0 <= k1 < |r| && 0 <= k2 < |r| && r[k1].style == BestPath && r[k2].style == BestPath :: k1 == k2)
  {
    EdgesExact(grid);
    OneGreenEdgeAmong(grid, edges, from, sortedMoves);
  }

  // ---------------------------------------------------------------------------------------
  // The component

  /** A step that has been chosen and waits for its animation delay: its source and the sorted moves. */
  datatype PendingMove = PendingMove(from: Pos, sortedMoves: seq<Pos>)

  class Navigator {
    var weights: Weights
    var position: Pos
    var isMoving: bool
    var edges: seq<Edge>
    var pending: Option<PendingMove>

    ghost predicate Valid()
      reads this
    {
      && Passable(position)
      && (isMoving <==> pending.Some?)
      && (pending.Some? ==>
            && pending.value.sortedMoves != []
            && forall m | m in pending.value.sortedMoves :: Passable(m) && Adjacent(pending.value.from, m))
    }

    /** Mounting: weights are drawn, the walker stands on the start cell and the graph is built. */
    constructor (draw: Pos -> real)
      ensures Valid()
      ensures position == StartPos && TagAt(position) == Start
      ensures forall p :: p in weights <==> Passable(p)
      ensures forall p | p in weights :: weights[p] == draw(p)
      ensures edges == GridEdges()
      ensures !isMoving && pending == None
    {
      var w := CalculateWeights(draw);
      MazeIsGrid();
      var e := CreateEdges(Maze);
      weights := w;
      StartCell();
      position := StartPos;
      isMoving := false;
      pending := None;
      edges := e;
    }

    /**
     * The step request: with a valid move and no step in flight, the sorted moves are taken
     * and the step is scheduled; otherwise nothing changes.
     */
    method MoveThorne()
      requires Valid()
      modifies this
      ensures Valid()
      ensures weights == old(weights) && position == old(position) && edges == old(edges)
      ensures var sorted := SortByWeight(ValidMoves(old(position)), old(weights));
        if sorted != [] && !old(isMoving) then
          isMoving && pending == Some(PendingMove(old(position), sorted))
        else
          isMoving == old(isMoving) && pending == old(pending)
    {
      var validMoves := FindValidMoves(position);
      var sortedMoves := SortByWeight(validMoves, weights);
      SortByWeightPermutes(validMoves, weights);
      if |sortedMoves| > 0 && !isMoving {
        forall m | m in sortedMoves ensures Passable(m) && Adjacent(position, m) {
          assert m in multiset(sortedMoves);
        }
        isMoving := true;
        pending := Some(PendingMove(position, sortedMoves));
      }
    }

    /**
     * The animation delay elapsing: the walker moves to the head of the sorted moves, the
     * graph is rebuilt, and its edges are restyled around the cell the step started from.
     */
    method CompleteMove()
      requires Valid()
      modifies this
      ensures Valid()
      ensures old(pending) == None ==> unchanged(this)
      ensures old(pending) != None ==>
        var p := old(pending).value;
        && position == p.sortedMoves[0]
        && Adjacent(p.from, position)
        && !isMoving && pending == None
        && weights == old(weights)
        && edges == UpdateEdgeStyles(GridEdges(), p.from, p.sortedMoves)
    {
      if pending.Some? {
        var p := pending.value;
        assert p.sortedMoves[0] in p.sortedMoves;
        position := p.sortedMoves[0];
        isMoving := false;
        pending := None;
        MazeIsGrid();
        var newEdges := CreateEdges(Maze);
        edges := UpdateEdgeStyles(newEdges, p.from, p.sortedMoves);
      }
    }

    /** The reset: the walker returns to the start cell, weights are redrawn, the graph is rebuilt. */
    method ResetMaze(draw: Pos -> real)
      requires Valid()
      modifies this
      ensures Valid()
      ensures position == StartPos && TagAt(position) == Start
      ensures forall p :: p in weights <==> Passable(p)
      ensures forall p | p in weights :: weights[p] == draw(p)
      ensures edges == GridEdges()
      ensures isMoving == old(isMoving) && pending == old(pending)
    {
      StartCell();
      position := StartPos;
      weights := CalculateWeights(draw);
      MazeIsGrid();
      edges := CreateEdges(Maze);
    }
  }
}
