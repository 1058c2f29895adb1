/**
 * The maze of the Python solver: a (2·height + 1) × (2·width + 1) grid of 1s (walls) and
 * 0s (passages), indexed [row, col], carved by a randomised depth-first walk and solved
 * with Dijkstra's algorithm over a binary heap of (distance, (row, col)) tuples.
 */
module MazeSolver {
  import opened Carving
  import opened UniformCost

  /** A grid position (row, col). */
  type Pos = (int, int)

  /** One move of the solver: to a 4-adjacent cell that is open. */
  function Step(open: set<Pos>): (Pos, Pos) -> bool
  {
    (p: Pos, q: Pos) => Adjacent4(p, q) && q in open
  }

  /** The elements of a list, as a set. */
  ghost function Elems<T>(s: seq<T>): set<T>
  {
    set x | x in s
  }

  /** One more element of a list adds exactly that element to its set. */
  lemma ElemsSnoc<T>(s: seq<T>, i: nat)
    requires i < |s|
    ensures Elems(s[..i + 1]) == Elems(s[..i]) + {s[i]}
  {
    assert s[..i + 1] == s[..i] + [s[i]];
  }

  /** The order `heapq` compares (distance, (row, col)) tuples in: distance, then row, then column. */
  predicate TupleLe(a: Entry<Pos>, b: Entry<Pos>)
  {
    || a.dist < b.dist
    || (a.dist == b.dist && (a.pos.0 < b.pos.0 || (a.pos.0 == b.pos.0 && a.pos.1 <= b.pos.1)))
  }

  /**
   * `heapq.heappop`: removes and returns the least entry of the heap in tuple order. The
   * heap is kept as the multiset of its entries; its array layout is not modelled.
   */
  method HeapPop(pq: seq<Entry<Pos>>) returns (e: Entry<Pos>, rest: seq<Entry<Pos>>)
    requires |pq| >= 1
    ensures e in pq && |rest| == |pq| - 1
    ensures multiset(rest) == multiset(pq) - multiset{e}
    ensures forall f :: f in pq ==> TupleLe(e, f)
  {
    var m := 0;
    for i := 1 to |pq|
      invariant 0 <= m < |pq|
      invariant forall j :: 0 <= j < i ==> TupleLe(pq[m], pq[j])
    {
      if !TupleLe(pq[m], pq[i]) {
        m := i;
      }
    }
    e := pq[m];
    rest := pq[..m] + pq[m + 1..];
    assert pq == pq[..m] + [pq[m]] + pq[m + 1..];
  }

  /** The sequence read backwards, as `list.reverse` leaves it. */
  function Reversed<T>(s: seq<T>): (r: seq<T>)
    ensures |r| == |s|
    ensures forall i :: 0 <= i < |s| ==> r[i] == s[|s| - 1 - i]
  {
    if s == [] then [] else Reversed(s[1..]) + [s[0]]
  }

  /**
   * A chain that follows predecessor links back from its first element (each element the
   * predecessor of the one before), read backwards, is a walk of the graph.
   */
  lemma {:induction false} BackChainWalk(step: (Pos, Pos) -> bool, start: Pos, D: map<Pos, nat>,
                                         prev: map<Pos, Pos>, chain: seq<Pos>)
    requires Links(step, start, D, prev)
    requires |chain| >= 1
    requires forall i :: 0 <= i < |chain| - 1 ==> chain[i] in prev && prev[chain[i]] == chain[i + 1]
    ensures IsWalk(step, Reversed(chain))
  {
    var r := Reversed(chain);
    forall j | 1 <= j < |r| ensures r[j] in prev && prev[r[j]] == r[j - 1] {
      assert r[j] == chain[|chain| - 1 - j] && r[j - 1] == chain[|chain| - j];
    }
    ChainWalk(step, start, D, prev, r);
  }

  /** Any 4-adjacent pair of open rooms or walls of a perfect maze is a solver step, so its walks are solver walks. */
  lemma {:induction false} PerfectMazeSolvable(width: int, height: int, order: seq<Point>, par: seq<nat>)
    requires width >= 1 && height >= 1
    requires SpanningTree(width, height, order, par)
    ensures Reachable(Step(Passages(order, par)), Room(Point(0, 0)), Room(Point(width - 1, height - 1)))
  {
    var P := Passages(order, par);
    var w := MazeConnected(width, height, order, par, Point(width - 1, height - 1));
    assert IsWalk(Step(P), w) by {
      forall i | 0 <= i < |w| - 1 ensures Step(P)(w[i], w[i + 1]) {
        assert Adjacent4(w[i], w[i + 1]) && w[i + 1] in P;
      }
    }
    assert WalkFromTo(Step(P), w, Room(Point(0, 0)), Room(Point(width - 1, height - 1)));
  }

  class Maze {
    const width: int
    const height: int
    /** 1 is a wall, 0 a passage; indexed [row, col]. */
    const maze: array2<int>
    const start: Pos
    const end: Pos

    ghost predicate Valid()
    {
      && width >= 1 && height >= 1
      && maze.Length0 == 2 * height + 1 && maze.Length1 == 2 * width + 1
      && start == Room(Point(0, 0)) && end == Room(Point(width - 1, height - 1))
    }

    /** A grid of walls only; the entrance is the room of cell (0, 0), the exit the room of the opposite corner. */
    constructor (width: int, height: int)
      requires width >= 1 && height >= 1
      ensures Valid() && this.width == width && this.height == height
      ensures start == (1, 1) && end == (2 * height - 1, 2 * width - 1)
      ensures fresh(maze)
      ensures forall r, c :: 0 <= r < maze.Length0 && 0 <= c < maze.Length1 ==> maze[r, c] == 1
    {
      this.width := width;
      this.height := height;
      maze := new int[2 * height + 1, 2 * width + 1]((r, c) => 1);
      start := (1, 1);
      end := (2 * height - 1, 2 * width - 1);
    }

    /** The positions of the grid that hold 0. */
    ghost function OpenCells(): set<Pos>
      reads maze
    {
      set r, c | 0 <= r < maze.Length0 && 0 <= c < maze.Length1 && maze[r, c] == 0 :: (r, c)
    }

    /**
     * Carves the maze: the depth-first walk from cell (0, 0), choosing the `pick(k) mod n`-th
     * of the n unvisited neighbours at the k-th choice, then opens entrance and exit. The
     * walk's tree is returned as ghost `order`/`par`: it spans the whole cell grid, and
     * exactly its rooms and walls are set to 0 (see `CarvedOpenCells` for a grid
     * of walls only).
     */
    method GenerateMaze(pick: nat -> nat) returns (ghost order: seq<Point>, ghost par: seq<nat>)
      requires Valid()
      modifies maze
      ensures SpanningTree(width, height, order, par)
      ensures forall r, c :: 0 <= r < maze.Length0 && 0 <= c < maze.Length1 ==>
                maze[r, c] == if (r, c) in Passages(order, par) then 0 else old(maze[r, c])
    {
      ghost var sidx, visited;
      sidx, visited, order, par := CarveWalk(pick);
      WalkDone(width, height, sidx, visited, order, par);
      maze[start.0, start.1] := 0;
      maze[end.0, end.1] := 0;
    }

    /**
     * The depth-first walk of `GenerateMaze`, up to the point where the stack runs empty:
     * the ghost results are the walk's final state, and exactly the cells carved by the
     * walk's tree are set to 0.
     */
    method CarveWalk(pick: nat -> nat) returns (ghost sidx: seq<nat>, ghost visited: set<Point>,
                                                 ghost order: seq<Point>, ghost par: seq<nat>)
      requires Valid()
      modifies maze
      ensures CarveState(width, height, [], sidx, visited, order, par)
      ensures forall r, c :: 0 <= r < maze.Length0 && 0 <= c < maze.Length1 ==>
                maze[r, c] == if (r, c) in CarvedBy(order, par) then 0 else old(maze[r, c])
    {
      var stack := [Point(0, 0)];
      var seen: set<Point> := {};
      var k := 0;
      sidx := [0];
      order, par := [Point(0, 0)], [0];
      ghost var carved: set<Pos> := {};
      InitialCarveState(width, height);
      while stack != []
        invariant CarveState(width, height, stack, sidx, seen, order, par)
        invariant (set c | c in order) <= AllCells(width, height)
        invariant carved == CarvedBy(order, par)
        invariant forall r, c :: 0 <= r < maze.Length0 && 0 <= c < maze.Length1 ==>
                    maze[r, c] == if (r, c) in carved then 0 else old(maze[r, c])
        decreases AllCells(width, height) - (set c | c in order), |stack|
      {
        var current := stack[|stack| - 1];
        ghost var seen0 := seen;
        seen := seen + {current};
        var neighbors := UnvisitedNeighbors(current, width, height, seen);
        if neighbors != [] {
          var next := neighbors[pick(k) % |neighbors|];
          k := k + 1;
          sidx, order, par, carved := CarveNext(stack, next, sidx, seen0, order, par, carved);
          stack := stack + [next];
        } else {
          Pop(width, height, stack, sidx, seen0, order, par);
          stack := stack[..|stack| - 1];
          sidx := sidx[..|sidx| - 1];
        }
      }
      visited := seen;
    }

    /**
     * The push branch of the walk: the chosen neighbour `next` of the stack top is carved
     * from it and becomes a leaf of the walk's tree, which takes one more cell of the grid.
     */
    method CarveNext(stack: seq<Point>, next: Point, ghost sidx: seq<nat>, ghost seen: set<Point>,
                     ghost order: seq<Point>, ghost par: seq<nat>, ghost carved: set<Pos>)
      returns (ghost sidx': seq<nat>, ghost order': seq<Point>, ghost par': seq<nat>, ghost carved': set<Pos>)
      requires Valid()
      requires CarveState(width, height, stack, sidx, seen, order, par) && |stack| >= 1
      requires next in Unvisited(stack[|stack| - 1], width, height, seen + {stack[|stack| - 1]}, 4)
      requires (set c | c in order) <= AllCells(width, height)
      requires carved == CarvedBy(order, par)
      modifies maze
      ensures CarveState(width, height, stack + [next], sidx', seen + {stack[|stack| - 1]}, order', par')
      ensures (set c | c in order') <= AllCells(width, height)
      ensures AllCells(width, height) - (set c | c in order') < AllCells(width, height) - (set c | c in order)
      ensures carved' == CarvedBy(order', par')
      ensures carved' == carved + {WallBetween(stack[|stack| - 1], next), Room(stack[|stack| - 1]), Room(next)}
      ensures forall r, c :: 0 <= r < maze.Length0 && 0 <= c < maze.Length1 ==>
                maze[r, c] == if (r, c) in {WallBetween(stack[|stack| - 1], next), Room(stack[|stack| - 1]), Room(next)}
                              then 0 else old(maze[r, c])
    {
      var current := stack[|stack| - 1];
      ghost var p: nat, q: nat := sidx[|sidx| - 1], |order|;
      assert order[p] == current;
      Push(width, height, stack, sidx, seen, order, par, next);
      CarvedByPush(order, par, p, next);
      PushShrinksUnseen(width, height, order, next);
      CarvePassage(current, next);
      sidx', order', par' := sidx + [q], order + [next], par + [p];
      carved' := carved + {WallBetween(current, next), Room(current), Room(next)};
    }

    /** On a grid that was walls only, the cells a spanning tree's carving leaves at 0 are exactly its passages. */
    lemma CarvedOpenCells(order: seq<Point>, par: seq<nat>)
      requires Valid() && TreeOrder(width, height, order, par)
      requires forall r, c :: 0 <= r < maze.Length0 && 0 <= c < maze.Length1 ==>
                 maze[r, c] == if (r, c) in Passages(order, par) then 0 else 1
      ensures OpenCells() == Passages(order, par)
    {
      forall p | p in Passages(order, par) ensures p in OpenCells() {
        PassagesInterior(width, height, order, par, p);
      }
    }

    /** Opens the wall between adjacent in-grid cells `current` and `next`, and both their rooms. */
    method CarvePassage(current: Point, next: Point)
      requires Valid()
      requires InGrid(current, width, height) && InGrid(next, width, height) && Adjacent(current, next)
      modifies maze
      ensures forall r, c :: 0 <= r < maze.Length0 && 0 <= c < maze.Length1 ==>
                maze[r, c] == if (r, c) in {WallBetween(current, next), Room(current), Room(next)} then 0 else old(maze[r, c])
    {
      var wallX := current.x * 2 + 1 + (next.x - current.x);
      var wallY := current.y * 2 + 1 + (next.y - current.y);
      maze[wallY, wallX] := 0;
      maze[current.y * 2 + 1, current.x * 2 + 1] := 0;
      maze[next.y * 2 + 1, next.x * 2 + 1] := 0;
    }

    /** The in-grid open cells next to `pos`, scanning the first `d` directions (down, right, up, left). */
    function Scan(pos: Pos, d: nat): seq<Pos>
      requires d <= 4
      reads maze
    {
      if d == 0 then []
      else
        var q := (pos.0 + Directions[d - 1].y, pos.1 + Directions[d - 1].x);
        Scan(pos, d - 1) + (if 0 <= q.1 < maze.Length1 && 0 <= q.0 < maze.Length0 && maze[q.0, q.1] == 0 then [q] else [])
    }

    /** The scan yields open 4-neighbours of `pos` only, and each open one in a scanned direction. */
    lemma {:induction false} ScanSpec(pos: Pos, d: nat)
      requires d <= 4
      ensures |Scan(pos, d)| <= d
      ensures forall q :: q in Scan(pos, d) ==> Adjacent4(pos, q) && q in OpenCells()
      ensures forall k :: 0 <= k < d && (pos.0 + Directions[k].y, pos.1 + Directions[k].x) in OpenCells() ==>
                (pos.0 + Directions[k].y, pos.1 + Directions[k].x) in Scan(pos, d)
    {
      if d > 0 {
        ScanSpec(pos, d - 1);
      }
    }

    /** The neighbours `get_neighbors` returns: exactly the open cells one step away, in scan order. */
    method GetNeighbors(pos: Pos) returns (neighbors: seq<Pos>)
      ensures neighbors == Scan(pos, 4)
      ensures |neighbors| <= 4
      ensures forall q :: q in neighbors <==> Step(OpenCells())(pos, q)
    {
      neighbors := [];
      for d := 0 to 4
        invariant neighbors == Scan(pos, d)
      {
        var newX, newY := pos.1 + Directions[d].x, pos.0 + Directions[d].y;
        if 0 <= newX < maze.Length1 && 0 <= newY < maze.Length0 && maze[newY, newX] == 0 {
          neighbors := neighbors + [(newY, newX)];
        }
      }
      ScanSteps(pos);
    }

    /** The full scan holds exactly the solver's steps from `pos`. */
    lemma ScanSteps(pos: Pos)
      ensures |Scan(pos, 4)| <= 4
      ensures forall q :: q in Scan(pos, 4) <==> Step(OpenCells())(pos, q)
    {
      ScanSpec(pos, 4);
      forall q | Step(OpenCells())(pos, q) ensures q in Scan(pos, 4) {
        if q == (pos.0 + 1, pos.1) {
          assert q == (pos.0 + Directions[0].y, pos.1 + Directions[0].x);
        } else if q == (pos.0, pos.1 + 1) {
          assert q == (pos.0 + Directions[1].y, pos.1 + Directions[1].x);
        } else if q == (pos.0 - 1, pos.1) {
          assert q == (pos.0 + Directions[2].y, pos.1 + Directions[2].x);
        } else {
          assert q == (pos.0 + Directions[3].y, pos.1 + Directions[3].x);
        }
      }
    }

    /**
     * Dijkstra's search from the entrance, stopped when the exit is taken from the heap,
     * then the walk back along the recorded predecessors. The result starts at the entrance
     * and is a walk over open cells; when the exit is reachable it is a shortest walk to the
     * exit, and when it is not the result is the entrance alone.
     */
    method SolveDijkstra() returns (path: seq<Pos>)
      ensures |path| >= 1 && path[0] == start
      ensures IsWalk(Step(OpenCells()), path)
      ensures Reachable(Step(OpenCells()), start, end) ==> Shortest(Step(OpenCells()), path, start, end)
      ensures !Reachable(Step(OpenCells()), start, end) ==> path == [start]
      ensures path[|path| - 1] == end <==> Reachable(Step(OpenCells()), start, end)
    {
      var distances, previous := Search();
      path := Rebuild(distances, previous);
    }

    /**
     * The search loop of `SolveDijkstra`: the recorded distances and predecessors satisfy
     * `Links`, and when the exit is reachable at all its recorded distance is the length of
     * a shortest walk to it.
     */
    method Search() returns (distances: map<Pos, nat>, previous: map<Pos, Pos>)
      ensures Links(Step(OpenCells()), start, distances, previous)
      ensures Reachable(Step(OpenCells()), start, end) ==> DistanceFinal(Step(OpenCells()), start, end, distances)
    {
      ghost var step := Step(OpenCells());
      ghost var U := OpenCells() + {start};
      var pq: seq<Entry<Pos>> := [Entry(0, start)];
      distances := map[start := 0];
      previous := map[];
      ghost var S: set<Pos> := {};
      ghost var lo: nat := 0;
      ghost var found := false;
      Initial(step, start);
      while pq != []
        invariant Links(step, start, distances, previous)
        invariant Frontier(step, start, multiset(pq), distances, S, lo)
        invariant AllRelaxed(step, distances, S)
        invariant end !in S && S <= U && distances.Keys <= U
        invariant !found
        decreases U - S, |pq|
      {
        ghost var before := multiset(pq);
        var e, rest := HeapPop(pq);
        forall f | f in before ensures e.dist <= f.dist {
          assert f in pq && TupleLe(e, f);
        }
        pq := rest;
        var currentDist, currentPos := e.dist, e.pos;
        if currentPos == end {
          EndTaken(step, start, end, before, distances, previous, S, lo, e);
          found := true;
          break;
        }
        if currentDist > distances[currentPos] {
          PopStale(step, start, before, distances, S, lo, e);
          continue;
        }
        BeginExpand(step, start, before, distances, previous, S, lo, e);
        S, lo := S + {currentPos}, currentDist;
        pq, distances, previous := RelaxNeighbors(currentPos, currentDist, pq, distances, previous, S);
      }
      if !found {
        FrontierExhausted(step, start, end, distances, previous, S, lo);
      }
    }

    /**
     * The inner loop of the search: every open neighbour of `currentPos` whose recorded
     * distance (if any) exceeds `currentDist + 1` gets that distance, `currentPos` as its
     * predecessor and a new heap entry. Afterwards all of `currentPos`'s steps are relaxed.
     */
    method RelaxNeighbors(currentPos: Pos, currentDist: nat, pq: seq<Entry<Pos>>, distances: map<Pos, nat>,
                          previous: map<Pos, Pos>, ghost S: set<Pos>)
      returns (pq': seq<Entry<Pos>>, distances': map<Pos, nat>, previous': map<Pos, Pos>)
      requires Links(Step(OpenCells()), start, distances, previous)
      requires Frontier(Step(OpenCells()), start, multiset(pq), distances, S, currentDist)
      requires Expanding(Step(OpenCells()), distances, S, currentPos, {})
      requires currentPos in distances && distances[currentPos] == currentDist
      requires distances.Keys <= OpenCells() + {start}
      ensures Links(Step(OpenCells()), start, distances', previous')
      ensures Frontier(Step(OpenCells()), start, multiset(pq'), distances', S, currentDist)
      ensures AllRelaxed(Step(OpenCells()), distances', S)
      ensures distances'.Keys <= OpenCells() + {start}
    {
      var neighbors := GetNeighbors(currentPos);
      forall j | 0 <= j < |neighbors| ensures Step(OpenCells())(currentPos, neighbors[j]) {
        assert neighbors[j] in neighbors;
      }
      ghost var done;
      pq', distances', previous', done := RelaxEach(currentPos, currentDist, neighbors, pq, distances, previous, S);
      forall v | Step(OpenCells())(currentPos, v) ensures v in done {
        assert v in neighbors;
      }
      FinishExpand(Step(OpenCells()), distances', S, currentPos, done);
    }

    /** The loop of `RelaxNeighbors` over the neighbour list: each entry is relaxed in turn. */
    method RelaxEach(currentPos: Pos, currentDist: nat, neighbors: seq<Pos>, pq: seq<Entry<Pos>>, distances: map<Pos, nat>,
                     previous: map<Pos, Pos>, ghost S: set<Pos>)
      returns (pq': seq<Entry<Pos>>, distances': map<Pos, nat>, previous': map<Pos, Pos>, ghost done: set<Pos>)
      requires Links(Step(OpenCells()), start, distances, previous)
      requires Frontier(Step(OpenCells()), start, multiset(pq), distances, S, currentDist)
      requires Expanding(Step(OpenCells()), distances, S, currentPos, {})
      requires currentPos in distances && distances[currentPos] == currentDist
      requires distances.Keys <= OpenCells() + {start}
      requires forall j :: 0 <= j < |neighbors| ==> Step(OpenCells())(currentPos, neighbors[j])
      ensures Links(Step(OpenCells()), start, distances', previous')
      ensures Frontier(Step(OpenCells()), start, multiset(pq'), distances', S, currentDist)
      ensures Expanding(Step(OpenCells()), distances', S, currentPos, done)
      ensures done == Elems(neighbors)
      ensures distances'.Keys <= OpenCells() + {start}
    {
      pq', distances', previous' := pq, distances, previous;
      done := {};
      for i := 0 to |neighbors|
        invariant Links(Step(OpenCells()), start, distances', previous')
        invariant Frontier(Step(OpenCells()), start, multiset(pq'), distances', S, currentDist)
        invariant Expanding(Step(OpenCells()), distances', S, currentPos, done)
        invariant currentPos in distances' && distances'[currentPos] == currentDist
        invariant done == Elems(neighbors[..i])
        invariant distances'.Keys <= OpenCells() + {start}
      {
        pq', distances', previous', done := RelaxEdge(currentPos, currentDist, neighbors[i], pq', distances', previous', S, done);
        ElemsSnoc(neighbors, i);
      }
      assert neighbors[..|neighbors|] == neighbors;
    }

    /**
     * One neighbour of the inner loop: when `currentDist + 1` improves on the neighbour's
     * recorded distance (none counts as infinite), the neighbour is recorded at that
     * distance with `currentPos` as predecessor and pushed on the heap; otherwise nothing
     * changes. Either way the step to it is relaxed afterwards.
     */
    method RelaxEdge(currentPos: Pos, currentDist: nat, neighbor: Pos, pq: seq<Entry<Pos>>, distances: map<Pos, nat>,
                     previous: map<Pos, Pos>, ghost S: set<Pos>, ghost done: set<Pos>)
      returns (pq': seq<Entry<Pos>>, distances': map<Pos, nat>, previous': map<Pos, Pos>, ghost done': set<Pos>)
      requires Links(Step(OpenCells()), start, distances, previous)
      requires Frontier(Step(OpenCells()), start, multiset(pq), distances, S, currentDist)
      requires Expanding(Step(OpenCells()), distances, S, currentPos, done)
      requires currentPos in distances && distances[currentPos] == currentDist
      requires distances.Keys <= OpenCells() + {start}
      requires Step(OpenCells())(currentPos, neighbor)
      ensures Links(Step(OpenCells()), start, distances', previous')
      ensures Frontier(Step(OpenCells()), start, multiset(pq'), distances', S, currentDist)
      ensures done' == done + {neighbor}
      ensures Expanding(Step(OpenCells()), distances', S, currentPos, done')
      ensures currentPos in distances' && distances'[currentPos] == currentDist
      ensures distances'.Keys <= OpenCells() + {start}
      ensures (neighbor !in distances || currentDist + 1 < distances[neighbor]) ==>
                distances' == distances[neighbor := currentDist + 1] && previous' == previous[neighbor := currentPos]
                && pq' == pq + [Entry(currentDist + 1, neighbor)]
      ensures (neighbor in distances && distances[neighbor] <= currentDist + 1) ==>
                pq' == pq && distances' == distances && previous' == previous
    {
      var distance := currentDist + 1;
      if neighbor !in distances || distance < distances[neighbor] {
        Relax(Step(OpenCells()), start, multiset(pq), distances, previous, S, currentDist, currentPos, done, neighbor);
        distances' := distances[neighbor := distance];
        assert distances'[currentPos] == currentDist by {
          assert neighbor != currentPos;
        }
        previous' := previous[neighbor := currentPos];
        pq' := pq + [Entry(distance, neighbor)];
        done' := done + {neighbor};
      } else {
        Skip(Step(OpenCells()), distances, S, currentPos, done, neighbor);
        pq', distances', previous', done' := pq, distances, previous, done + {neighbor};
      }
    }

    /**
     * The path rebuild of `SolveDijkstra`: from the exit back along the predecessors to a
     * cell without one, then the entrance appended and the list reversed.
     */
    method Rebuild(distances: map<Pos, nat>, previous: map<Pos, Pos>) returns (path: seq<Pos>)
      requires Links(Step(OpenCells()), start, distances, previous)
      requires Reachable(Step(OpenCells()), start, end) ==> DistanceFinal(Step(OpenCells()), start, end, distances)
      ensures |path| >= 1 && path[0] == start
      ensures IsWalk(Step(OpenCells()), path)
      ensures Reachable(Step(OpenCells()), start, end) ==> Shortest(Step(OpenCells()), path, start, end)
      ensures !Reachable(Step(OpenCells()), start, end) ==> path == [start]
      ensures path[|path| - 1] == end <==> Reachable(Step(OpenCells()), start, end)
    {
      path := [];
      var current := end;
      while current in previous
        invariant (path + [current])[0] == end
        invariant forall i :: 0 <= i < |path| ==> path[i] in previous && previous[path[i]] == (path + [current])[i + 1]
        invariant |path| > 0 ==> current in distances && end in distances && distances[current] + |path| <= distances[end]
        decreases if current in distances then distances[current] else 0
      {
        path := path + [current];
        current := previous[current];
      }
      if |path| > 0 {
        assert current == start;
      }
      path := path + [start];
      BackChainWalk(Step(OpenCells()), start, distances, previous, path);
      ghost var chain := path;
      path := Reversed(path);
      assert path[|path| - 1] == chain[0];
      RebuiltPath(Step(OpenCells()), start, end, distances, previous, path);
    }
  }
}
