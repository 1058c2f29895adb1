/**
 * The browser maze game: a GridSize × GridSize-cell maze, kept as an array of row arrays of
 * 1s (walls) and 0s (passages) indexed [y][x], carved by the depth-first walk of `Carving`,
 * solved by Dijkstra's algorithm over an array re-sorted by distance after every push, and
 * walked by a player with the arrow keys or WASD.
 *
 * Once generated, the maze is only read: the solver and the player's moves are modelled on
 * its contents as a value, `seq<seq<int>>`.
 */
module MazeGame {
  import opened Wrappers
  import opened Carving
  import opened UniformCost

  /** Cells per side of the maze. */
  const GridSize: int := 15

  /** Grid positions per side: a wall or passage between and around every two cells. */
  const Side: int := 2 * GridSize + 1

  // ----- Generation -----

  /** `maze` has `Side` pairwise different rows of `Side` positions each. */
  ghost predicate Rows(maze: array<array<int>>)
    reads maze
  {
    && maze.Length == Side
    && (forall r :: 0 <= r < Side ==> maze[r].Length == Side)
    && (forall r, s :: 0 <= r < s < Side ==> maze[r] != maze[s])
  }

  /** A `rows` × `cols` grid of walls: each row a new array filled with 1. */
  method NewGrid(rows: nat, cols: nat) returns (maze: array<array<int>>)
    ensures fresh(maze) && maze.Length == rows
    ensures forall r :: 0 <= r < rows ==> fresh(maze[r]) && maze[r].Length == cols
    ensures forall r, s :: 0 <= r < s < rows ==> maze[r] != maze[s]
    ensures forall r, c :: 0 <= r < rows && 0 <= c < cols ==> maze[r][c] == 1
  {
    var placeholder := new int[0];
    maze := new array<int>[rows](_ => placeholder);
    for r := 0 to rows
      invariant forall i :: 0 <= i < r ==> fresh(maze[i]) && maze[i].Length == cols
      invariant forall i, j :: 0 <= i < j < r ==> maze[i] != maze[j]
      invariant forall i, c :: 0 <= i < r && 0 <= c < cols ==> maze[i][c] == 1
    {
      maze[r] := new int[cols](_ => 1);
    }
  }

  /** The finished grid as a value: 0 on the passages of the tree, 1 elsewhere. */
  ghost function Grid(order: seq<Point>, par: seq<nat>): (g: seq<seq<int>>)
    ensures |g| == Side && forall r :: 0 <= r < Side ==> |g[r]| == Side
    ensures forall r, c :: 0 <= r < Side && 0 <= c < Side ==> g[r][c] == if (r, c) in Passages(order, par) then 0 else 1
  {
    seq(Side, r => seq(Side, c => if (r, c) in Passages(order, par) then 0 else 1))
  }

  /**
   * Builds the maze: a grid of walls, the depth-first walk from cell (0, 0) choosing the
   * `pick(k) mod n`-th of the n unvisited neighbours at the k-th choice, then entrance
   * and exit opened. The walk's tree (ghost `order`/`par`) spans all GridSize² cells, and
   * the grid holds 0 exactly on its passages.
   */
  method GenerateMaze(pick: nat -> nat) returns (maze: array<array<int>>, ghost order: seq<Point>, ghost par: seq<nat>)
    ensures fresh(maze) && Rows(maze) && forall r :: 0 <= r < Side ==> fresh(maze[r])
    ensures SpanningTree(GridSize, GridSize, order, par)
    ensures forall r, c :: 0 <= r < Side && 0 <= c < Side ==>
              maze[r][c] == if (r, c) in Passages(order, par) then 0 else 1
  {
    maze := NewGrid(Side, Side);
    ghost var sidx, visited;
    sidx, visited, order, par := CarveWalk(maze, pick);
    WalkDone(GridSize, GridSize, sidx, visited, order, par);
    maze[1][1] := 0;
    maze[GridSize * 2 - 1][GridSize * 2 - 1] := 0;
  }

  /**
   * The depth-first walk of `GenerateMaze` on a grid of walls, up to the point where the
   * stack runs empty: the ghost results are the walk's final state, and the grid holds 0
   * exactly on the cells the walk's tree carved.
   */
  method CarveWalk(maze: array<array<int>>, pick: nat -> nat)
    returns (ghost sidx: seq<nat>, ghost visited: set<Point>, ghost order: seq<Point>, ghost par: seq<nat>)
    requires Rows(maze)
    requires forall r, c :: 0 <= r < Side && 0 <= c < Side ==> maze[r][c] == 1
    modifies set r | 0 <= r < Side :: maze[r]
    ensures CarveState(GridSize, GridSize, [], sidx, visited, order, par)
    ensures forall r, c :: 0 <= r < Side && 0 <= c < Side ==>
              maze[r][c] == if (r, c) in CarvedBy(order, par) then 0 else 1
  {
    var width, height := GridSize, GridSize;
    var stack := [Point(0, 0)];
    var seen: set<Point> := {};
    var k := 0;
    sidx := [0];
    order, par := [Point(0, 0)], [0];
    ghost var carved: set<(int, int)> := {};
    InitialCarveState(width, height);
    while stack != []
      invariant CarveState(width, height, stack, sidx, seen, order, par)
      invariant (set c | c in order) <= AllCells(width, height)
      invariant carved == CarvedBy(order, par)
      invariant forall r, c :: 0 <= r < Side && 0 <= c < Side ==> maze[r][c] == if (r, c) in carved then 0 else 1
      decreases AllCells(width, height) - (set c | c in order), |stack|
    {
      var current := stack[|stack| - 1];
      ghost var seen0 := seen;
      seen := seen + {current};
      var neighbors := UnvisitedNeighbors(current, width, height, seen);
      if |neighbors| > 0 {
        var next := neighbors[pick(k) % |neighbors|];
        k := k + 1;
        sidx, order, par, carved := CarveNext(maze, stack, next, sidx, seen0, order, par, carved);
        stack := stack + [next];
      } else {
        Pop(width, height, stack, sidx, seen0, order, par);
        stack := stack[..|stack| - 1];
        sidx := sidx[..|sidx| - 1];
      }
    }
    visited := seen;
  }

  /**
   * The push branch of the walk: the chosen neighbour `next` of the stack top is carved
   * from it and becomes a leaf of the walk's tree, which takes one more cell of the grid.
   */
  method CarveNext(maze: array<array<int>>, stack: seq<Point>, next: Point, ghost sidx: seq<nat>, ghost seen: set<Point>,
                   ghost order: seq<Point>, ghost par: seq<nat>, ghost carved: set<(int, int)>)
    returns (ghost sidx': seq<nat>, ghost order': seq<Point>, ghost par': seq<nat>, ghost carved': set<(int, int)>)
    requires Rows(maze)
    requires CarveState(GridSize, GridSize, stack, sidx, seen, order, par) && |stack| >= 1
    requires next in Unvisited(stack[|stack| - 1], GridSize, GridSize, seen + {stack[|stack| - 1]}, 4)
    requires (set c | c in order) <= AllCells(GridSize, GridSize)
    requires carved == CarvedBy(order, par)
    requires forall r, c :: 0 <= r < Side && 0 <= c < Side ==> maze[r][c] == if (r, c) in carved then 0 else 1
    modifies set r | 0 <= r < Side :: maze[r]
    ensures CarveState(GridSize, GridSize, stack + [next], sidx', seen + {stack[|stack| - 1]}, order', par')
    ensures (set c | c in order') <= AllCells(GridSize, GridSize)
    ensures AllCells(GridSize, GridSize) - (set c | c in order') < AllCells(GridSize, GridSize) - (set c | c in order)
    ensures carved' == CarvedBy(order', par')
    ensures forall r, c :: 0 <= r < Side && 0 <= c < Side ==> maze[r][c] == if (r, c) in carved' then 0 else 1
  {
    var current := stack[|stack| - 1];
    ghost var p: nat, q: nat := sidx[|sidx| - 1], |order|;
    assert order[p] == current;
    Push(GridSize, GridSize, stack, sidx, seen, order, par, next);
    CarvedByPush(order, par, p, next);
    PushShrinksUnseen(GridSize, GridSize, order, next);
    CarvePassage(maze, current, next, carved);
    sidx', order', par' := sidx + [q], order + [next], par + [p];
    carved' := carved + {WallBetween(current, next), Room(current), Room(next)};
  }

  /**
   * Opens the room of `current`, the room of `next` and the wall between them, and nothing
   * else: a grid holding 0 exactly on `carved` afterwards holds 0 exactly on `carved` and
   * those three positions.
   */
  method CarvePassage(maze: array<array<int>>, current: Point, next: Point, ghost carved: set<(int, int)>)
    requires Rows(maze)
    requires InGrid(current, GridSize, GridSize) && InGrid(next, GridSize, GridSize) && Adjacent(current, next)
    requires forall r, c :: 0 <= r < Side && 0 <= c < Side ==> maze[r][c] == if (r, c) in carved then 0 else 1
    modifies set r | 0 <= r < Side :: maze[r]
    ensures forall r, c :: 0 <= r < Side && 0 <= c < Side ==>
              maze[r][c] == if (r, c) in carved + {WallBetween(current, next), Room(current), Room(next)} then 0 else 1
  {
    maze[current.y * 2 + 1][current.x * 2 + 1] := 0;
    maze[next.y * 2 + 1][next.x * 2 + 1] := 0;
    maze[current.y * 2 + 1 + (next.y - current.y)][current.x * 2 + 1 + (next.x - current.x)] := 0;
  }

  // ----- Solving -----

  /** Position `q` is inside the rectangle the solver scans (rows of `maze`, columns of row 0) and holds 0. */
  predicate OpenAt(maze: seq<seq<int>>, q: Point)
  {
    0 <= q.y < |maze| && 0 <= q.x < |maze[0]| && q.x < |maze[q.y]| && maze[q.y][q.x] == 0
  }

  /** The positions the solver's check lets it step onto. */
  ghost function OpenPoints(maze: seq<seq<int>>): set<Point>
  {
    set y, x | 0 <= y < |maze| && 0 <= x < |maze[y]| && OpenAt(maze, Point(x, y)) :: Point(x, y)
  }

  /** One move of the solver: to an adjacent open position. */
  ghost function Step(maze: seq<seq<int>>): (Point, Point) -> bool
  {
    (p: Point, q: Point) => Adjacent(p, q) && q in OpenPoints(maze)
  }

  /** The solver's target: one position in from the far corner of the grid. */
  function ExitOf(maze: seq<seq<int>>): Point
    requires |maze| >= 1
  {
    Point(|maze[0]| - 2, |maze| - 2)
  }

  /** The entries of `s` in non-decreasing order of distance. */
  predicate SortedByDist(s: seq<Entry<Point>>)
  {
    forall i, j :: 0 <= i < j < |s| ==> s[i].dist <= s[j].dist
  }

  /** `e` placed after every entry of `s` whose distance is at most its own. */
  function InsertSorted(s: seq<Entry<Point>>, e: Entry<Point>): seq<Entry<Point>>
  {
    if s == [] then [e]
    else if e.dist < s[0].dist then [e] + s
    else [s[0]] + InsertSorted(s[1..], e)
  }

  /** Inserting adds `e` and keeps every entry of `s`. */
  lemma {:induction false} InsertAddsOne(s: seq<Entry<Point>>, e: Entry<Point>)
    ensures multiset(InsertSorted(s, e)) == multiset(s) + multiset{e}
  {
    if s != [] && s[0].dist <= e.dist {
      InsertAddsOne(s[1..], e);
      assert s == [s[0]] + s[1..];
    }
  }

  /** Inserting into an array sorted by distance keeps it sorted. */
  lemma InsertKeepsSorted(s: seq<Entry<Point>>, e: Entry<Point>)
    requires SortedByDist(s)
    ensures SortedByDist(InsertSorted(s, e))
  {
    var k := InsertPosition(s, e);
    var r := s[..k] + [e] + s[k..];
    forall i, j | 0 <= i < j < |r| ensures r[i].dist <= r[j].dist {
      if j < k {
        assert r[i] == s[i] && r[j] == s[j];
      } else if j == k {
        assert r[i] == s[i] && r[j] == e;
      } else if i < k {
        assert r[i] == s[i] && r[j] == s[j - 1];
      } else if i == k {
        assert r[j] == s[j - 1] && s[k].dist <= s[j - 1].dist;
      } else {
        assert r[i] == s[i - 1] && r[j] == s[j - 1];
      }
    }
  }

  /**
   * `Array.prototype.sort` with the comparator `a.dist - b.dist`: a stable sort by
   * distance, here insertion of each entry in turn after the equal ones before it.
   */
  function SortByDist(s: seq<Entry<Point>>): (r: seq<Entry<Point>>)
    ensures SortedByDist(r) && multiset(r) == multiset(s)
  {
    if s == [] then []
    else
      var t := SortByDist(s[..|s| - 1]);
      InsertKeepsSorted(t, s[|s| - 1]);
      InsertAddsOne(t, s[|s| - 1]);
      assert s == s[..|s| - 1] + [s[|s| - 1]];
      InsertSorted(t, s[|s| - 1])
  }

  /**
   * `InsertSorted` puts `e` after the longest prefix of entries at most as far as `e`: right
   * before the first entry farther than `e`, or at the end.
   */
  lemma {:induction false} InsertPosition(s: seq<Entry<Point>>, e: Entry<Point>) returns (k: nat)
    ensures k <= |s| && InsertSorted(s, e) == s[..k] + [e] + s[k..]
    ensures forall i :: 0 <= i < k ==> s[i].dist <= e.dist
    ensures k < |s| ==> e.dist < s[k].dist
  {
    if s == [] {
      k := 0;
    } else if e.dist < s[0].dist {
      k := 0;
    } else {
      var t := s[1..];
      var k' := InsertPosition(t, e);
      k := k' + 1;
      assert InsertSorted(s, e) == [s[0]] + (t[..k'] + [e] + t[k'..]);
      assert [s[0]] + t[..k'] == s[..k];
      assert t[k'..] == s[k..];
      forall i | 0 <= i < k ensures s[i].dist <= e.dist {
        if i > 0 {
          assert s[i] == t[i - 1];
        }
      }
    }
  }

  /** An entry at least as far as every entry of `s` goes at the end. */
  lemma {:induction false} InsertAtEnd(s: seq<Entry<Point>>, e: Entry<Point>)
    requires forall i :: 0 <= i < |s| ==> s[i].dist <= e.dist
    ensures InsertSorted(s, e) == s + [e]
  {
    if s != [] {
      InsertAtEnd(s[1..], e);
      assert s == [s[0]] + s[1..];
    }
  }

  /** An array already sorted by distance is left as it is by the sort. */
  lemma {:induction false} SortedFixed(s: seq<Entry<Point>>)
    requires SortedByDist(s)
    ensures SortByDist(s) == s
  {
    if s != [] {
      var t, e := s[..|s| - 1], s[|s| - 1];
      assert SortByDist(t) == t by {
        SortedFixed(t);
      }
      assert InsertSorted(t, e) == t + [e] by {
        forall i | 0 <= i < |t| ensures t[i].dist <= e.dist {
          assert t[i] == s[i];
        }
        InsertAtEnd(t, e);
      }
      assert t + [e] == s;
    }
  }

  /**
   * A push followed by the sort, on an array kept sorted, inserts the new entry after every
   * entry at most as far: `shift` then takes an entry of least distance, the earliest pushed
   * among equals.
   */
  lemma SortAfterPush(s: seq<Entry<Point>>, e: Entry<Point>)
    requires SortedByDist(s)
    ensures SortByDist(s + [e]) == InsertSorted(s, e)
  {
    assert (s + [e])[..|s|] == s;
    SortedFixed(s);
  }

  /**
   * Dijkstra's search from (1, 1), stopped when the exit is shifted off the array, then the
   * walk back along the recorded predecessors. The result starts at (1, 1) and is a walk over
   * open positions; when the exit is reachable it is a shortest walk to the exit, and when it
   * is not the result is (1, 1) alone.
   */
  method SolveMaze(maze: seq<seq<int>>) returns (path: seq<Point>)
    requires |maze| >= 1
    ensures |path| >= 1 && path[0] == Point(1, 1)
    ensures IsWalk(Step(maze), path)
    ensures Reachable(Step(maze), Point(1, 1), ExitOf(maze)) ==> Shortest(Step(maze), path, Point(1, 1), ExitOf(maze))
    ensures !Reachable(Step(maze), Point(1, 1), ExitOf(maze)) ==> path == [Point(1, 1)]
    ensures path[|path| - 1] == ExitOf(maze) <==> Reachable(Step(maze), Point(1, 1), ExitOf(maze))
  {
    var distances, previous := Search(maze);
    path := Rebuild(maze, distances, previous);
  }

  /**
   * The search loop of `SolveMaze`: the recorded distances and predecessors satisfy `Links`,
   * and when the exit is reachable at all its recorded distance is that of a shortest walk.
   */
  method Search(maze: seq<seq<int>>) returns (distances: map<Point, nat>, previous: map<Point, Point>)
    requires |maze| >= 1
    ensures Links(Step(maze), Point(1, 1), distances, previous)
    ensures Reachable(Step(maze), Point(1, 1), ExitOf(maze)) ==> DistanceFinal(Step(maze), Point(1, 1), ExitOf(maze), distances)
  {
    var start, end := Point(1, 1), Point(|maze[0]| - 2, |maze| - 2);
    ghost var step := Step(maze);
    ghost var U := OpenPoints(maze) + {start};
    var pq: seq<Entry<Point>> := [Entry(0, start)];
    distances := map[start := 0];
    previous := map[];
    ghost var S: set<Point> := {};
    ghost var lo: nat := 0;
    ghost var found := false;
    Initial(step, start);
    while |pq| > 0
      invariant Links(step, start, distances, previous)
      invariant Frontier(step, start, multiset(pq), distances, S, lo)
      invariant AllRelaxed(step, distances, S)
      invariant SortedByDist(pq)
      invariant end !in S && S <= U && distances.Keys <= U
      invariant !found
      decreases U - S, |pq|
    {
      ghost var before := multiset(pq);
      var e := pq[0];
      ShiftLeast(pq);
      pq := pq[1..];
      var dist, pos := e.dist, e.pos;
      if pos == end {
        EndTaken(step, start, end, before, distances, previous, S, lo, e);
        found := true;
        break;
      }
      if dist > distances[pos] {
        PopStale(step, start, before, distances, S, lo, e);
        continue;
      }
      BeginExpand(step, start, before, distances, previous, S, lo, e);
      S, lo := S + {pos}, dist;
      pq, distances, previous := RelaxNeighbors(maze, pos, dist, pq, distances, previous, S);
    }
    if !found {
      FrontierExhausted(step, start, end, distances, previous, S, lo);
    }
  }

  /** `shift` on an array sorted by distance takes an entry of least distance and leaves the rest sorted. */
  lemma ShiftLeast(pq: seq<Entry<Point>>)
    requires |pq| >= 1 && SortedByDist(pq)
    ensures multiset(pq[1..]) == multiset(pq) - multiset{pq[0]}
    ensures forall f :: f in multiset(pq) ==> pq[0].dist <= f.dist
    ensures SortedByDist(pq[1..])
  {
    assert pq == [pq[0]] + pq[1..];
    forall f | f in multiset(pq) ensures pq[0].dist <= f.dist {
      var i :| 0 <= i < |pq| && pq[i] == f;
    }
  }

  /**
   * The scan of the four directions around `pos` in the search loop: every adjacent open
   * position is relaxed in turn, after which all of `pos`'s steps are relaxed.
   */
  method RelaxNeighbors(maze: seq<seq<int>>, pos: Point, dist: nat, pq: seq<Entry<Point>>, distances: map<Point, nat>,
                        previous: map<Point, Point>, ghost S: set<Point>)
    returns (pq': seq<Entry<Point>>, distances': map<Point, nat>, previous': map<Point, Point>)
    requires Links(Step(maze), Point(1, 1), distances, previous)
    requires Frontier(Step(maze), Point(1, 1), multiset(pq), distances, S, dist)
    requires |maze| >= 1
    requires Expanding(Step(maze), distances, S, pos, {})
    requires pos in distances && distances[pos] == dist
    requires SortedByDist(pq)
    requires distances.Keys <= OpenPoints(maze) + {Point(1, 1)}
    ensures Links(Step(maze), Point(1, 1), distances', previous')
    ensures Frontier(Step(maze), Point(1, 1), multiset(pq'), distances', S, dist)
    ensures AllRelaxed(Step(maze), distances', S)
    ensures SortedByDist(pq')
    ensures distances'.Keys <= OpenPoints(maze) + {Point(1, 1)}
  {
    pq', distances', previous' := pq, distances, previous;
    ghost var step := Step(maze);
    ghost var done: set<Point> := {};
    for d := 0 to 4
      invariant Links(step, Point(1, 1), distances', previous')
      invariant Frontier(step, Point(1, 1), multiset(pq'), distances', S, dist)
      invariant Expanding(step, distances', S, pos, done)
      invariant pos in distances' && distances'[pos] == dist
      invariant SortedByDist(pq')
      invariant distances'.Keys <= OpenPoints(maze) + {Point(1, 1)}
      invariant forall k :: 0 <= k < d && Neighbor(pos, k) in OpenPoints(maze) ==> Neighbor(pos, k) in done
    {
      ghost var done0 := done;
      pq', distances', previous', done := RelaxDirection(maze, pos, dist, d, pq', distances', previous', S, done);
      forall k | 0 <= k < d + 1 && Neighbor(pos, k) in OpenPoints(maze) ensures Neighbor(pos, k) in done {
        if k < d {
          assert Neighbor(pos, k) in done0;
        }
      }
    }
    forall v | step(pos, v) ensures v in done {
      var k := AdjacentIsNeighbor(pos, v);
    }
    FinishExpand(step, distances', S, pos, done);
  }

  /**
   * The callback run for direction `d` of the four: the position one step that way is relaxed
   * when it lies inside the grid and holds 0, and skipped otherwise.
   */
  method RelaxDirection(maze: seq<seq<int>>, pos: Point, dist: nat, d: nat, pq: seq<Entry<Point>>, distances: map<Point, nat>,
                        previous: map<Point, Point>, ghost S: set<Point>, ghost done: set<Point>)
    returns (pq': seq<Entry<Point>>, distances': map<Point, nat>, previous': map<Point, Point>, ghost done': set<Point>)
    requires |maze| >= 1 && d < 4
    requires Links(Step(maze), Point(1, 1), distances, previous)
    requires Frontier(Step(maze), Point(1, 1), multiset(pq), distances, S, dist)
    requires Expanding(Step(maze), distances, S, pos, done)
    requires pos in distances && distances[pos] == dist
    requires SortedByDist(pq)
    requires distances.Keys <= OpenPoints(maze) + {Point(1, 1)}
    ensures Links(Step(maze), Point(1, 1), distances', previous')
    ensures Frontier(Step(maze), Point(1, 1), multiset(pq'), distances', S, dist)
    ensures Expanding(Step(maze), distances', S, pos, done')
    ensures pos in distances' && distances'[pos] == dist
    ensures SortedByDist(pq')
    ensures distances'.Keys <= OpenPoints(maze) + {Point(1, 1)}
    ensures done <= done' && (Neighbor(pos, d) in OpenPoints(maze) ==> Neighbor(pos, d) in done')
    ensures Neighbor(pos, d) !in OpenPoints(maze) ==> pq' == pq && distances' == distances && previous' == previous
  {
    var n := Neighbor(pos, d);
    if 0 <= n.x < |maze[0]| && 0 <= n.y < |maze| && n.x < |maze[n.y]| && maze[n.y][n.x] == 0 {
      assert n in OpenPoints(maze);
      assert Step(maze)(pos, n) by {
        NeighborIsAdjacent(pos, d);
      }
      pq', distances', previous' := RelaxEdge(maze, pos, dist, n, pq, distances, previous, S, done);
      done' := done + {n};
    } else {
      pq', distances', previous', done' := pq, distances, previous, done;
    }
  }

  /**
   * One adjacent open position `n`: when `dist + 1` improves on its recorded distance (none
   * counts as infinite), `n` is recorded at that distance with `pos` as predecessor, pushed
   * and the array re-sorted; otherwise nothing changes. Either way the step is relaxed.
   */
  method RelaxEdge(maze: seq<seq<int>>, pos: Point, dist: nat, n: Point, pq: seq<Entry<Point>>,
                   distances: map<Point, nat>, previous: map<Point, Point>, ghost S: set<Point>, ghost done: set<Point>)
    returns (pq': seq<Entry<Point>>, distances': map<Point, nat>, previous': map<Point, Point>)
    requires Links(Step(maze), Point(1, 1), distances, previous)
    requires Frontier(Step(maze), Point(1, 1), multiset(pq), distances, S, dist)
    requires Expanding(Step(maze), distances, S, pos, done)
    requires pos in distances && distances[pos] == dist
    requires SortedByDist(pq)
    requires Step(maze)(pos, n)
    ensures Links(Step(maze), Point(1, 1), distances', previous')
    ensures Frontier(Step(maze), Point(1, 1), multiset(pq'), distances', S, dist)
    ensures Expanding(Step(maze), distances', S, pos, done + {n})
    ensures pos in distances' && distances'[pos] == dist
    ensures SortedByDist(pq')
    ensures distances'.Keys <= distances.Keys + {n}
    ensures (n !in distances || dist + 1 < distances[n]) ==>
              distances' == distances[n := dist + 1] && previous' == previous[n := pos]
              && pq' == InsertSorted(pq, Entry(dist + 1, n))
    ensures (n in distances && distances[n] <= dist + 1) ==> pq' == pq && distances' == distances && previous' == previous
  {
    var newDist := dist + 1;
    if n !in distances || newDist < distances[n] {
      Relax(Step(maze), Point(1, 1), multiset(pq), distances, previous, S, dist, pos, done, n);
      distances' := distances[n := newDist];
      assert distances'[pos] == dist by {
        assert n != pos;
      }
      previous' := previous[n := pos];
      pq' := SortByDist(pq + [Entry(newDist, n)]);
      SortAfterPush(pq, Entry(newDist, n));
    } else {
      Skip(Step(maze), distances, S, pos, done, n);
      pq', distances', previous' := pq, distances, previous;
    }
  }

  /**
   * The path rebuild of `SolveMaze`: from the exit back along the predecessors to a position
   * without one, each prepended to the path, then (1, 1) prepended.
   */
  method Rebuild(maze: seq<seq<int>>, distances: map<Point, nat>, previous: map<Point, Point>) returns (path: seq<Point>)
    requires |maze| >= 1
    requires Links(Step(maze), Point(1, 1), distances, previous)
    requires Reachable(Step(maze), Point(1, 1), ExitOf(maze)) ==> DistanceFinal(Step(maze), Point(1, 1), ExitOf(maze), distances)
    ensures |path| >= 1 && path[0] == Point(1, 1)
    ensures IsWalk(Step(maze), path)
    ensures Reachable(Step(maze), Point(1, 1), ExitOf(maze)) ==> Shortest(Step(maze), path, Point(1, 1), ExitOf(maze))
    ensures !Reachable(Step(maze), Point(1, 1), ExitOf(maze)) ==> path == [Point(1, 1)]
    ensures path[|path| - 1] == ExitOf(maze) <==> Reachable(Step(maze), Point(1, 1), ExitOf(maze))
  {
    ghost var chain;
    path, chain := TraceBack(ExitOf(maze), distances, previous);
    TracedPath(Step(maze), Point(1, 1), ExitOf(maze), distances, previous, chain);
    path := [Point(1, 1)] + path;
  }

  /**
   * The loop of the path rebuild: from `end` back along the predecessors, each position with
   * a predecessor prepended to `path`. The ghost `chain` is the whole walk back, the position
   * without predecessor first; each link lowers the recorded distance by at least one.
   */
  method TraceBack(end: Point, distances: map<Point, nat>, previous: map<Point, Point>)
    returns (path: seq<Point>, ghost chain: seq<Point>)
    requires forall n :: n in previous ==> n in distances && previous[n] in distances && distances[previous[n]] + 1 <= distances[n]
    ensures |chain| >= 1 && chain[1..] == path
    ensures chain[0] !in previous && chain[|chain| - 1] == end
    ensures forall i :: 1 <= i < |chain| ==> chain[i] in previous && previous[chain[i]] == chain[i - 1]
    ensures |chain| > 1 ==> chain[0] in distances && end in distances && distances[chain[0]] + |chain| - 1 <= distances[end]
  {
    path := [];
    var current := end;
    chain := [end];
    while current in previous
      invariant chain == [current] + path && chain[|chain| - 1] == end
      invariant forall i :: 1 <= i < |chain| ==> chain[i] in previous && previous[chain[i]] == chain[i - 1]
      invariant |path| > 0 ==> current in distances && end in distances && distances[current] + |path| <= distances[end]
      decreases if current in distances then distances[current] else 0
    {
      path := [current] + path;
      current := previous[current];
      chain := [current] + chain;
    }
  }

  /** The grid of a finished maze is connected: its exit is reachable from (1, 1). */
  lemma {:induction false} GeneratedMazeSolvable(order: seq<Point>, par: seq<nat>)
    requires SpanningTree(GridSize, GridSize, order, par)
    ensures Point(1, 1) in OpenPoints(Grid(order, par))
    ensures Reachable(Step(Grid(order, par)), Point(1, 1), ExitOf(Grid(order, par)))
  {
    var g := Grid(order, par);
    assert Room(order[0]) in Passages(order, par);
    assert OpenAt(g, Point(1, 1));
    var w := MazeConnected(GridSize, GridSize, order, par, Point(GridSize - 1, GridSize - 1));
    var pw := seq(|w|, i requires 0 <= i < |w| => Point(w[i].1, w[i].0));
    forall i | 0 <= i < |w| ensures pw[i] in OpenPoints(g) {
      PassagesInterior(GridSize, GridSize, order, par, w[i]);
      assert OpenAt(g, pw[i]);
    }
    assert IsWalk(Step(g), pw) by {
      forall i | 0 <= i < |pw| - 1 ensures Step(g)(pw[i], pw[i + 1]) {
        assert Adjacent4(w[i], w[i + 1]);
      }
    }
    assert WalkFromTo(Step(g), pw, Point(1, 1), ExitOf(g));
  }

  // ----- Playing -----

  const InitialMessage: string := "Use arrow keys or WASD to move"
  const WinMessage: string := "Congratulations! You reached the end!"

  /** The game state the moves act on: the maze (none before the first one is built), the player, the move count. */
  datatype Game = Game(maze: Option<seq<seq<int>>>, playerPos: Point, gameWon: bool, moves: nat, message: string)

  /** A new game on `maze`: the player at the entrance (1, 1), no moves, not won. */
  function NewGame(maze: seq<seq<int>>): (r: Game)
    ensures r.maze == Some(maze) && r.playerPos == Point(1, 1)
    ensures !r.gameWon && r.moves == 0 && r.message == InitialMessage
  {
    Game(Some(maze), Point(1, 1), false, 0, InitialMessage)
  }

  /** The keys that move the player and their (dx, dy). */
  const MovementKeys: map<string, Point> := map[
    "ArrowUp" := Point(0, -1), "ArrowRight" := Point(1, 0), "ArrowDown" := Point(0, 1), "ArrowLeft" := Point(-1, 0),
    "w" := Point(0, -1), "d" := Point(1, 0), "s" := Point(0, 1), "a" := Point(-1, 0),
    "W" := Point(0, -1), "D" := Point(1, 0), "S" := Point(0, 1), "A" := Point(-1, 0)]

  /** Every movement key moves by one position along one axis. */
  lemma MovementKeysUnit(key: string)
    requires key in MovementKeys
    ensures Adjacent(Point(0, 0), MovementKeys[key])
    ensures MovementKeys[key] in Directions
  {
  }

  /** Row `p.y` of the maze exists and holds a 0 at column `p.x`. */
  predicate CanEnter(maze: seq<seq<int>>, p: Point)
  {
    0 <= p.y < |maze| && 0 <= p.x < |maze[p.y]| && maze[p.y][p.x] == 0
  }

  /** `p` is one position in from the far corner: the cell that wins the game. */
  predicate AtExit(maze: seq<seq<int>>, p: Point)
  {
    |maze| >= 1 && p.x == |maze[0]| - 2 && p.y == |maze| - 2
  }

  /**
   * The player tries to move by (dx, dy). A won game, a missing maze or a target that is not
   * an existing 0 leaves the game as it is; otherwise the player moves there and spends one
   * move, and the game is won exactly when the target is the exit.
   */
  function MovePlayer(g: Game, dx: int, dy: int): (r: Game)
    ensures r.maze == g.maze
    ensures g.gameWon ==> r == g
    ensures r == g || (r.moves == g.moves + 1 && r.playerPos == Point(g.playerPos.x + dx, g.playerPos.y + dy)
                       && g.maze.Some? && CanEnter(g.maze.value, r.playerPos))
    ensures r.gameWon <==> g.gameWon || (r != g && AtExit(g.maze.value, r.playerPos))
    ensures r.message == if r.gameWon && !g.gameWon then WinMessage else g.message
    ensures !g.gameWon && g.maze.Some? && CanEnter(g.maze.value, Point(g.playerPos.x + dx, g.playerPos.y + dy)) ==>
              r.playerPos == Point(g.playerPos.x + dx, g.playerPos.y + dy) && r.moves == g.moves + 1
  {
    if g.gameWon then g
    else
      var newPos := Point(g.playerPos.x + dx, g.playerPos.y + dy);
      if g.maze.Some? && CanEnter(g.maze.value, newPos) then
        var moved := g.(playerPos := newPos, moves := g.moves + 1);
        if AtExit(g.maze.value, newPos) then moved.(gameWon := true, message := WinMessage) else moved
      else g
  }

  /** A key press: a movement key tries its move, any other key changes nothing. */
  function HandleKeyDown(g: Game, key: string): (r: Game)
    ensures key !in MovementKeys ==> r == g
    ensures r == g || (r.moves == g.moves + 1 && Adjacent(g.playerPos, r.playerPos)
                       && g.maze.Some? && CanEnter(g.maze.value, r.playerPos))
    ensures key in MovementKeys && r != g ==>
              r.playerPos == Point(g.playerPos.x + MovementKeys[key].x, g.playerPos.y + MovementKeys[key].y)
    ensures key in MovementKeys && !g.gameWon && g.maze.Some?
            && CanEnter(g.maze.value, Point(g.playerPos.x + MovementKeys[key].x, g.playerPos.y + MovementKeys[key].y)) ==>
              r.playerPos == Point(g.playerPos.x + MovementKeys[key].x, g.playerPos.y + MovementKeys[key].y)
              && r.moves == g.moves + 1 && r.gameWon == AtExit(g.maze.value, r.playerPos)
  {
    if key in MovementKeys then MovePlayer(g, MovementKeys[key].x, MovementKeys[key].y) else g
  }

  /** The game after the key presses `keys`, in order. */
  function Replay(g: Game, keys: seq<string>): Game
    decreases |keys|
  {
    if keys == [] then g else Replay(HandleKeyDown(g, keys[0]), keys[1..])
  }

  /** Once won, a game ignores every further key. */
  lemma {:induction false} WonIsFinal(g: Game, keys: seq<string>)
    requires g.gameWon
    ensures Replay(g, keys) == g
  {
    if keys != [] {
      WonIsFinal(HandleKeyDown(g, keys[0]), keys[1..]);
    }
  }

  /** Every row of `maze` is as long as row 0. */
  predicate Rectangular(maze: seq<seq<int>>)
  {
    |maze| >= 1 && forall y :: 0 <= y < |maze| ==> |maze[y]| == |maze[0]|
  }

  /**
   * On a rectangular maze, the player's positions over any key presses form a walk of the
   * solver's graph with one step per move, and a game not won before is won afterwards only
   * with the player on the exit.
   */
  lemma {:induction false} ReplayWalk(g: Game, keys: seq<string>) returns (w: seq<Point>)
    requires g.maze.Some? && Rectangular(g.maze.value)
    decreases |keys|
    ensures Replay(g, keys).maze == g.maze
    ensures Replay(g, keys).moves >= g.moves
    ensures |w| == Replay(g, keys).moves - g.moves + 1
    ensures w[0] == g.playerPos && w[|w| - 1] == Replay(g, keys).playerPos
    ensures IsWalk(Step(g.maze.value), w)
    ensures Replay(g, keys).gameWon ==> g.gameWon || AtExit(g.maze.value, Replay(g, keys).playerPos)
  {
    if keys == [] {
      w := [g.playerPos];
    } else {
      var g1 := HandleKeyDown(g, keys[0]);
      var w1 := ReplayWalk(g1, keys[1..]);
      if g1.gameWon && !g.gameWon {
        WonIsFinal(g1, keys[1..]);
      }
      if g1 == g {
        w := w1;
      } else {
        w := [g.playerPos] + w1;
        assert Step(g.maze.value)(w[0], w[1]);
        forall i | 0 <= i < |w| - 1 ensures Step(g.maze.value)(w[i], w[i + 1]) {
          if i > 0 {
            assert w[i] == w1[i - 1] && w[i + 1] == w1[i];
          }
        }
      }
    }
  }

  /**
   * No sequence of key presses wins a new game in fewer moves than a shortest walk from the
   * entrance to the exit has steps: the solution `SolveMaze` returns is never beaten.
   */
  lemma PlayerNeverBeatsSolution(maze: seq<seq<int>>, keys: seq<string>, solution: seq<Point>)
    requires Rectangular(maze)
    requires Shortest(Step(maze), solution, Point(1, 1), ExitOf(maze))
    ensures Replay(NewGame(maze), keys).gameWon ==> |solution| - 1 <= Replay(NewGame(maze), keys).moves
  {
    var w := ReplayWalk(NewGame(maze), keys);
    if Replay(NewGame(maze), keys).gameWon {
      assert WalkFromTo(Step(maze), w, Point(1, 1), ExitOf(maze));
    }
  }

  /** The parity of x + y + k. */
  function Parity(p: Point, k: int): int
  {
    (p.x + p.y + k) % 2
  }

  /** Every step changes x + y by one, so a walk's length fixes the parity of its end's x + y. */
  lemma {:induction false} WalkParity(maze: seq<seq<int>>, w: seq<Point>)
    requires IsWalk(Step(maze), w)
    ensures Parity(w[0], |w| - 1) == Parity(w[|w| - 1], 0)
  {
    if |w| > 1 {
      var v := w[..|w| - 1];
      assert IsWalk(Step(maze), v) by {
        forall i | 0 <= i < |v| - 1 ensures Step(maze)(v[i], v[i + 1]) {
          assert v[i] == w[i] && v[i + 1] == w[i + 1];
        }
      }
      WalkParity(maze, v);
      assert Adjacent(w[|w| - 2], w[|w| - 1]) by {
        assert Step(maze)(w[|w| - 2], w[|w| - 1]);
      }
      StepParity(w[0], w[|w| - 2], w[|w| - 1], |v| - 1);
    }
  }

  /** One more step to an adjacent position flips the parity once more. */
  lemma StepParity(p: Point, a: Point, b: Point, k: int)
    requires Parity(p, k) == Parity(a, 0) && Adjacent(a, b)
    ensures Parity(p, k + 1) == Parity(b, 0)
  {
  }

  /** The win banner's test for "That's the optimal solution!": no more moves than the solution has positions. */
  predicate OptimalBanner(moves: nat, solution: seq<Point>)
  {
    moves <= |solution|
  }

  /**
   * The banner compares moves (steps) with the solution's positions (one more than its
   * steps), yet it shows for a won game exactly when the moves equal a shortest walk's
   * steps: a walk one step longer ends on the other parity of x + y and cannot reach the exit.
   */
  lemma BannerMeansOptimal(maze: seq<seq<int>>, keys: seq<string>, solution: seq<Point>)
    requires Rectangular(maze)
    requires Shortest(Step(maze), solution, Point(1, 1), ExitOf(maze))
    ensures Replay(NewGame(maze), keys).gameWon ==>
              (OptimalBanner(Replay(NewGame(maze), keys).moves, solution) <==> Replay(NewGame(maze), keys).moves == |solution| - 1)
  {
    var g := Replay(NewGame(maze), keys);
    if g.gameWon {
      PlayerNeverBeatsSolution(maze, keys, solution);
      WonParity(maze, keys);
      WalkParity(maze, solution);
      ParityGap(Point(1, 1), ExitOf(maze), g.moves, |solution| - 1);
    }
  }

  /** A won game's move count has the parity of the steps from the entrance to the exit. */
  lemma WonParity(maze: seq<seq<int>>, keys: seq<string>)
    requires Rectangular(maze)
    ensures Replay(NewGame(maze), keys).gameWon ==> Parity(Point(1, 1), Replay(NewGame(maze), keys).moves) == Parity(ExitOf(maze), 0)
  {
    var w := ReplayWalk(NewGame(maze), keys);
    if Replay(NewGame(maze), keys).gameWon {
      assert w[|w| - 1] == ExitOf(maze);
      WalkParity(maze, w);
    }
  }

  /** Two counts of the same parity, the first not below the second, are at most one apart only when equal. */
  lemma ParityGap(a: Point, b: Point, m: int, n: int)
    requires Parity(a, m) == Parity(b, 0) && Parity(a, n) == Parity(b, 0)
    requires n <= m
    ensures m <= n + 1 <==> m == n
  {
  }
}
