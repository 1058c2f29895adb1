/**
 * Randomised depth-first carving of a perfect maze, as both generators run it: a stack of
 * logical cells and a visited set drive the walk; each step carves the room of the stack
 * top, the room of an unvisited neighbour and the wall cell between them, and pushes the
 * neighbour; a stack top with no unvisited neighbour is popped.
 *
 * A logical cell (x, y) of the width × height cell grid has its room at grid position
 * (row, col) = (2y + 1, 2x + 1) of the (2·height + 1) × (2·width + 1) wall/passage grid.
 *
 * The walk is described by ghost state kept beside the real one: `order`, the cells in the
 * order they were first pushed, and `par`, for each of them the index in `order` of the
 * cell it was carved from. `CarveState` is the loop invariant of both generators.
 */
module Carving {

  /** A grid point, column `x` and row `y`: a logical cell of the cell grid, or a position of the wall/passage grid. */
  datatype Point = Point(x: int, y: int)

  /** The unit steps (dx, dy) in the order the generators scan them. */
  const Directions: seq<Point> := [Point(0, 1), Point(1, 0), Point(0, -1), Point(-1, 0)]

  function Neighbor(c: Point, d: nat): Point
    requires d < 4
  {
    Point(c.x + Directions[d].x, c.y + Directions[d].y)
  }

  predicate InGrid(c: Point, width: int, height: int)
  {
    0 <= c.x < width && 0 <= c.y < height
  }

  /** `c` and `n` differ by exactly one in exactly one coordinate. */
  predicate Adjacent(c: Point, n: Point)
  {
    || (c.x == n.x && (n.y == c.y + 1 || n.y == c.y - 1))
    || (c.y == n.y && (n.x == c.x + 1 || n.x == c.x - 1))
  }

  /** Grid positions (row, col) that differ by exactly one in exactly one coordinate. */
  predicate Adjacent4(p: (int, int), q: (int, int))
  {
    || (p.0 == q.0 && (q.1 == p.1 + 1 || q.1 == p.1 - 1))
    || (p.1 == q.1 && (q.0 == p.0 + 1 || q.0 == p.0 - 1))
  }

  /** The grid position (row, col) of the room of logical cell `c`. */
  function Room(c: Point): (int, int)
  {
    (2 * c.y + 1, 2 * c.x + 1)
  }

  /** The grid position (row, col) of the wall cell the generators open between rooms `c` and `n`. */
  function WallBetween(c: Point, n: Point): (int, int)
  {
    (2 * c.y + 1 + (n.y - c.y), 2 * c.x + 1 + (n.x - c.x))
  }

  /** The wall cell between two adjacent rooms lies next to both rooms and is not itself a room. */
  lemma WallJoinsRooms(c: Point, n: Point)
    requires Adjacent(c, n)
    ensures Adjacent4(Room(c), WallBetween(c, n)) && Adjacent4(WallBetween(c, n), Room(n))
    ensures WallBetween(c, n) == WallBetween(n, c)
    ensures WallBetween(c, n).0 % 2 == 0 || WallBetween(c, n).1 % 2 == 0
    ensures WallBetween(c, n).0 % 2 == 1 || WallBetween(c, n).1 % 2 == 1
  {
  }

  /** Each of the four scanned directions leads to an adjacent cell. */
  lemma NeighborIsAdjacent(c: Point, d: nat)
    requires d < 4
    ensures Adjacent(c, Neighbor(c, d))
  {
  }

  /** Every adjacent cell lies in one of the four scanned directions. */
  lemma AdjacentIsNeighbor(c: Point, n: Point) returns (d: nat)
    requires Adjacent(c, n)
    ensures d < 4 && n == Neighbor(c, d)
  {
    if n == Point(c.x, c.y + 1) {
      d := 0;
    } else if n == Point(c.x + 1, c.y) {
      d := 1;
    } else if n == Point(c.x, c.y - 1) {
      d := 2;
    } else {
      d := 3;
    }
  }

  /**
   * The in-grid neighbours of `c` that are not in `visited`, scanning the first `d`
   * directions in order: with d = 4, the list the generators choose the next cell from.
   */
  function Unvisited(c: Point, width: int, height: int, visited: set<Point>, d: nat): seq<Point>
    requires d <= 4
  {
    if d == 0 then []
    else
      var n := Neighbor(c, d - 1);
      Unvisited(c, width, height, visited, d - 1) + (if InGrid(n, width, height) && n !in visited then [n] else [])
  }

  /**
   * The scan yields at most one cell per scanned direction; each is an in-grid, unvisited
   * neighbour, and every in-grid, unvisited neighbour in a scanned direction is among them.
   */
  lemma {:induction false} UnvisitedSpec(c: Point, width: int, height: int, visited: set<Point>, d: nat)
    requires d <= 4
    ensures |Unvisited(c, width, height, visited, d)| <= d
    ensures forall n :: n in Unvisited(c, width, height, visited, d) ==>
              InGrid(n, width, height) && n !in visited && Adjacent(c, n)
    ensures forall k :: 0 <= k < d && InGrid(Neighbor(c, k), width, height) && Neighbor(c, k) !in visited ==>
              Neighbor(c, k) in Unvisited(c, width, height, visited, d)
  {
    if d > 0 {
      UnvisitedSpec(c, width, height, visited, d - 1);
    }
  }

  /** The scan of the four directions that collects the unvisited in-grid neighbours of `current`. */
  method UnvisitedNeighbors(current: Point, width: int, height: int, visited: set<Point>) returns (neighbors: seq<Point>)
    ensures neighbors == Unvisited(current, width, height, visited, 4)
  {
    neighbors := [];
    for d := 0 to 4
      invariant neighbors == Unvisited(current, width, height, visited, d)
    {
      var next := Neighbor(current, d);
      if InGrid(next, width, height) && next !in visited {
        neighbors := neighbors + [next];
      }
    }
  }

  /** Every in-grid neighbour of `c` is in `visited`. */
  ghost predicate Exhausted(c: Point, width: int, height: int, visited: set<Point>)
  {
    forall d :: 0 <= d < 4 && InGrid(Neighbor(c, d), width, height) ==> Neighbor(c, d) in visited
  }

  ghost predicate Distinct<T>(s: seq<T>)
  {
    forall i, j :: 0 <= i < j < |s| ==> s[i] != s[j]
  }

  ghost function AllCells(width: int, height: int): set<Point>
  {
    set x, y | 0 <= x < width && 0 <= y < height :: Point(x, y)
  }

  /**
   * `order` starts at cell (0, 0), holds distinct in-grid cells, and every later cell was
   * carved from an earlier, adjacent one (`par[i] < i`): a tree grown one leaf at a time.
   */
  ghost predicate TreeOrder(width: int, height: int, order: seq<Point>, par: seq<nat>)
  {
    && |order| >= 1 && order[0] == Point(0, 0) && |par| == |order|
    && Distinct(order)
    && (forall i :: 0 <= i < |order| ==> InGrid(order[i], width, height))
    && (forall i :: 1 <= i < |order| ==> par[i] < i && Adjacent(order[par[i]], order[i]))
  }

  /** A tree grown from (0, 0) that holds every cell of the grid. */
  ghost predicate SpanningTree(width: int, height: int, order: seq<Point>, par: seq<nat>)
  {
    && TreeOrder(width, height, order, par)
    && |order| == width * height
    && (forall c :: InGrid(c, width, height) ==> c in order)
  }

  ghost function RoomSet(order: seq<Point>): set<(int, int)>
  {
    set c | c in order :: Room(c)
  }

  /** The wall cells opened by the tree's edges. */
  ghost function WallSet(order: seq<Point>, par: seq<nat>): set<(int, int)>
  {
    set i | 1 <= i < |order| && i < |par| && par[i] < |order| :: WallBetween(order[par[i]], order[i])
  }

  /** The same wall cells, one per edge, in the order they were opened. */
  ghost function WallSeq(order: seq<Point>, par: seq<nat>): (ws: seq<(int, int)>)
    requires |order| >= 1 && |par| == |order|
    requires forall i :: 1 <= i < |order| ==> par[i] < i
    ensures |ws| == |order| - 1
  {
    seq(|order| - 1, i requires 0 <= i < |order| - 1 => WallBetween(order[par[i + 1]], order[i + 1]))
  }

  /**
   * The cells carved by the loop so far: nothing before the first push, then the rooms of
   * every pushed cell and the walls of every edge.
   */
  ghost function CarvedBy(order: seq<Point>, par: seq<nat>): set<(int, int)>
  {
    if |order| <= 1 then {} else RoomSet(order) + WallSet(order, par)
  }

  /** The passage cells of the finished maze: every room and the wall of every tree edge. */
  ghost function Passages(order: seq<Point>, par: seq<nat>): set<(int, int)>
  {
    RoomSet(order) + WallSet(order, par)
  }

  /** The loop invariant of the carving walk. */
  ghost predicate CarveState(width: int, height: int, stack: seq<Point>, sidx: seq<nat>, visited: set<Point>,
                             order: seq<Point>, par: seq<nat>)
  {
    && TreeOrder(width, height, order, par)
    && |sidx| == |stack|
    && (forall i :: 0 <= i < |stack| ==> sidx[i] < |order| && order[sidx[i]] == stack[i])
    && (forall c :: c in visited ==> c in order)
    && (forall i :: 0 <= i < |order| ==> order[i] in visited || order[i] in stack)
    && (forall i :: 0 <= i < |stack| - 1 ==> stack[i] in visited)
    && (forall c :: c in visited && c !in stack ==> Exhausted(c, width, height, visited))
  }

  /** The walk starts with (0, 0) on the stack and nothing visited. */
  lemma InitialCarveState(width: int, height: int)
    requires width >= 1 && height >= 1
    ensures CarveState(width, height, [Point(0, 0)], [0], {}, [Point(0, 0)], [0])
    ensures CarvedBy([Point(0, 0)], [0]) == {}
  {
  }

  /**
   * A push: `next`, an unvisited in-grid neighbour of the stack top `current`, is pushed
   * once and for all (it was never in `order`), becomes a leaf of the tree under `current`,
   * and the carved set grows by exactly the two rooms and the wall between them.
   */
  lemma Push(width: int, height: int, stack: seq<Point>, sidx: seq<nat>, visited: set<Point>,
             order: seq<Point>, par: seq<nat>, next: Point)
    requires CarveState(width, height, stack, sidx, visited, order, par)
    requires |stack| >= 1
    requires next in Unvisited(stack[|stack| - 1], width, height, visited + {stack[|stack| - 1]}, 4)
    ensures next !in order && InGrid(next, width, height) && Adjacent(stack[|stack| - 1], next)
    ensures CarveState(width, height, stack + [next], sidx + [|order|], visited + {stack[|stack| - 1]},
                       order + [next], par + [sidx[|sidx| - 1]])
  {
    var current := stack[|stack| - 1];
    var p := sidx[|sidx| - 1];
    var visited' := visited + {current};
    FreshNext(width, height, stack, sidx, visited, order, par, next);
    var stack' := stack + [next];
    var order' := order + [next];
    var par' := par + [p];
    assert order'[p] == current;
    forall i | 0 <= i < |stack'| - 1 ensures stack'[i] in visited' {
      if i < |stack| - 1 {
        assert stack'[i] == stack[i];
      }
    }
    forall c | c in visited' && c !in stack' ensures Exhausted(c, width, height, visited') {
      assert c in visited && c !in stack;
    }
    forall i | 0 <= i < |order'| ensures order'[i] in visited' || order'[i] in stack' {
      if i < |order| {
        assert order'[i] == order[i];
      }
    }
  }

  /** The pushed cell is an in-grid neighbour of the stack top that is neither visited, nor on the stack, nor pushed before. */
  lemma FreshNext(width: int, height: int, stack: seq<Point>, sidx: seq<nat>, visited: set<Point>,
                  order: seq<Point>, par: seq<nat>, next: Point)
    requires CarveState(width, height, stack, sidx, visited, order, par)
    requires |stack| >= 1
    requires next in Unvisited(stack[|stack| - 1], width, height, visited + {stack[|stack| - 1]}, 4)
    ensures InGrid(next, width, height) && Adjacent(stack[|stack| - 1], next)
    ensures next !in visited + {stack[|stack| - 1]} && next !in stack && next !in order
  {
    UnvisitedSpec(stack[|stack| - 1], width, height, visited + {stack[|stack| - 1]}, 4);
    forall i | 0 <= i < |stack| ensures stack[i] != next {
      if i < |stack| - 1 {
        assert stack[i] in visited;
      }
    }
    forall i | 0 <= i < |order| ensures order[i] != next {
      assert order[i] in visited || order[i] in stack;
    }
  }

  /** A pop: the stack top has no unvisited neighbour left, so it leaves the stack exhausted. */
  lemma Pop(width: int, height: int, stack: seq<Point>, sidx: seq<nat>, visited: set<Point>,
            order: seq<Point>, par: seq<nat>)
    requires CarveState(width, height, stack, sidx, visited, order, par)
    requires |stack| >= 1
    requires Unvisited(stack[|stack| - 1], width, height, visited + {stack[|stack| - 1]}, 4) == []
    ensures CarveState(width, height, stack[..|stack| - 1], sidx[..|sidx| - 1], visited + {stack[|stack| - 1]}, order, par)
  {
    var current := stack[|stack| - 1];
    var visited' := visited + {current};
    var stack' := stack[..|stack| - 1];
    UnvisitedSpec(current, width, height, visited', 4);
    assert Exhausted(current, width, height, visited');
    forall c | c in visited' && c !in stack' ensures Exhausted(c, width, height, visited') {
      if c != current {
        assert c !in stack;
      }
    }
    forall i | 0 <= i < |order| ensures order[i] in visited' {
      if order[i] !in visited {
        var k :| 0 <= k < |stack| && stack[k] == order[i];
        assert k == |stack| - 1;
      }
    }
  }

  /** Adding a leaf `n` under `order[p]` carves its room, the room of `order[p]` and the wall between. */
  lemma CarvedByPush(order: seq<Point>, par: seq<nat>, p: nat, n: Point)
    requires |order| >= 1 && |par| == |order| && p < |order|
    requires forall i :: 1 <= i < |order| ==> par[i] < i
    ensures CarvedBy(order + [n], par + [p]) == CarvedBy(order, par) + {WallBetween(order[p], n), Room(order[p]), Room(n)}
  {
    var order' := order + [n];
    var par' := par + [p];
    assert RoomSet(order') == RoomSet(order) + {Room(n)} by {
      forall r | r in RoomSet(order') ensures r in RoomSet(order) + {Room(n)} {
        var c :| c in order' && Room(c) == r;
        if c != n {
          assert c in order;
        }
      }
    }
    assert WallSet(order', par') == WallSet(order, par) + {WallBetween(order[p], n)} by {
      forall r | r in WallSet(order', par') ensures r in WallSet(order, par) + {WallBetween(order[p], n)} {
        var i :| 1 <= i < |order'| && i < |par'| && par'[i] < |order'| && WallBetween(order'[par'[i]], order'[i]) == r;
        if i < |order| {
          assert order'[par'[i]] == order[par[i]] && order'[i] == order[i];
        }
      }
      forall r | r in WallSet(order, par) ensures r in WallSet(order', par') {
        var i :| 1 <= i < |order| && i < |par| && par[i] < |order| && WallBetween(order[par[i]], order[i]) == r;
        assert order'[par'[i]] == order[par[i]] && order'[i] == order[i];
      }
      assert WallBetween(order'[par'[|order|]], order'[|order|]) == WallBetween(order[p], n);
    }
    if |order| == 1 {
      assert RoomSet(order) == {Room(order[0])};
      assert WallSet(order, par) == {};
    }
  }

  /** Pushing a cell never pushed before shrinks the set of cells not yet pushed: the walk terminates. */
  lemma PushShrinksUnseen(width: int, height: int, order: seq<Point>, next: Point)
    requires (set c | c in order) <= AllCells(width, height)
    requires next !in order && InGrid(next, width, height)
    ensures (set c | c in order + [next]) <= AllCells(width, height)
    ensures AllCells(width, height) - (set c | c in order + [next]) < AllCells(width, height) - (set c | c in order)
  {
    assert next == Point(next.x, next.y);
    assert next in AllCells(width, height);
    assert (set c | c in order + [next]) == (set c | c in order) + {next};
  }

  /**
   * When the stack runs empty every cell of the grid has been pushed, exactly once: the
   * order is a spanning tree of the cell grid, with width · height cells.
   */
  lemma {:induction false} Spanning(width: int, height: int, sidx: seq<nat>, visited: set<Point>,
                                    order: seq<Point>, par: seq<nat>)
    requires width >= 1 && height >= 1
    requires CarveState(width, height, [], sidx, visited, order, par)
    ensures SpanningTree(width, height, order, par)
  {
    assert order[0] in visited;
    forall c | InGrid(c, width, height) ensures c in visited {
      ReachedFromOrigin(width, height, visited, c);
    }
    var cells := set c | c in order;
    assert cells == AllCells(width, height);
    DistinctCard(order);
    CellsCard(width, height);
  }

  /**
   * The end of the walk: the tree spans the grid, and the carved cells together with the
   * room of (0, 0) and the room of (width - 1, height - 1) are the passages of the tree.
   */
  lemma WalkDone(width: int, height: int, sidx: seq<nat>, visited: set<Point>, order: seq<Point>, par: seq<nat>)
    requires width >= 1 && height >= 1
    requires CarveState(width, height, [], sidx, visited, order, par)
    ensures SpanningTree(width, height, order, par)
    ensures CarvedBy(order, par) + {Room(Point(0, 0)), Room(Point(width - 1, height - 1))} == Passages(order, par)
  {
    Spanning(width, height, sidx, visited, order, par);
    FinalPassages(width, height, order, par);
  }

  /** A set that holds (0, 0) and every in-grid neighbour of each of its cells holds every cell. */
  lemma {:induction false} ReachedFromOrigin(width: int, height: int, visited: set<Point>, c: Point)
    requires Point(0, 0) in visited
    requires forall v :: v in visited ==> Exhausted(v, width, height, visited)
    requires InGrid(c, width, height)
    ensures c in visited
    decreases c.x + c.y
  {
    if c.y > 0 {
      var b := Point(c.x, c.y - 1);
      ReachedFromOrigin(width, height, visited, b);
      assert Neighbor(b, 0) == c;
    } else if c.x > 0 {
      var b := Point(c.x - 1, c.y);
      ReachedFromOrigin(width, height, visited, b);
      assert Neighbor(b, 1) == c;
    }
  }

  /**
   * After the loop, forcing the entrance (the room of (0, 0)) and the exit (the room of
   * (width - 1, height - 1)) open leaves exactly the passages of the spanning tree: the
   * forced cells are rooms of the tree already, and for a single cell they are the only room.
   */
  lemma FinalPassages(width: int, height: int, order: seq<Point>, par: seq<nat>)
    requires width >= 1 && height >= 1
    requires SpanningTree(width, height, order, par)
    ensures CarvedBy(order, par) + {Room(Point(0, 0)), Room(Point(width - 1, height - 1))} == Passages(order, par)
  {
    assert InGrid(Point(width - 1, height - 1), width, height);
    assert Point(width - 1, height - 1) in order;
    if |order| == 1 {
      ProductBounds(width, height);
      assert RoomSet(order) == {Room(Point(0, 0))};
      assert WallSet(order, par) == {};
    }
  }

  /**
   * Every passage lies strictly inside the grid, so row 0, row 2·height, column 0 and
   * column 2·width stay wall; and no passage has both coordinates even (the corner cells
   * between four rooms are never opened).
   */
  lemma PassagesInterior(width: int, height: int, order: seq<Point>, par: seq<nat>, p: (int, int))
    requires TreeOrder(width, height, order, par)
    requires p in Passages(order, par)
    ensures 1 <= p.0 <= 2 * height - 1 && 1 <= p.1 <= 2 * width - 1
    ensures p.0 % 2 == 1 || p.1 % 2 == 1
  {
    if p !in RoomSet(order) {
      var i :| 1 <= i < |order| && i < |par| && par[i] < |order| && WallBetween(order[par[i]], order[i]) == p;
      assert InGrid(order[par[i]], width, height) && InGrid(order[i], width, height);
      WallJoinsRooms(order[par[i]], order[i]);
    }
  }

  /** Two adjacent cells are determined, as a pair, by the wall cell between them. */
  lemma WallDeterminesPair(a: Point, b: Point, c: Point, d: Point)
    requires Adjacent(a, b) && Adjacent(c, d)
    requires WallBetween(a, b) == WallBetween(c, d)
    ensures (a == c && b == d) || (a == d && b == c)
  {
  }

  /** The tree's edges open pairwise different wall cells: one per edge, width · height - 1 in all. */
  lemma {:induction false} WallSeqDistinct(width: int, height: int, order: seq<Point>, par: seq<nat>)
    requires TreeOrder(width, height, order, par)
    ensures Distinct(WallSeq(order, par))
    ensures (set x | x in WallSeq(order, par)) == WallSet(order, par)
  {
    var ws := WallSeq(order, par);
    assert Distinct(ws) by {
      forall i, j | 0 <= i < j < |ws| ensures ws[i] != ws[j] {
        assert order[i + 1] != order[j + 1] && order[par[i + 1]] != order[j + 1];
        if ws[i] == ws[j] {
          WallDeterminesPair(order[par[i + 1]], order[i + 1], order[par[j + 1]], order[j + 1]);
          assert false;
        }
      }
    }
    assert (set x | x in ws) == WallSet(order, par) by {
      forall r | r in WallSet(order, par) ensures r in ws {
        var i :| 1 <= i < |order| && i < |par| && par[i] < |order| && WallBetween(order[par[i]], order[i]) == r;
        assert ws[i - 1] == r;
      }
    }
  }

  /** Distinct cells have distinct rooms: there are as many rooms as cells in `order`. */
  lemma {:induction false} RoomSetCard(order: seq<Point>)
    requires Distinct(order)
    ensures |RoomSet(order)| == |order|
  {
    var rs := seq(|order|, i requires 0 <= i < |order| => Room(order[i]));
    assert Distinct(rs);
    assert (set x | x in rs) == RoomSet(order) by {
      forall r | r in RoomSet(order) ensures r in rs {
        var c :| c in order && Room(c) == r;
        var i :| 0 <= i < |order| && order[i] == c;
        assert rs[i] == r;
      }
    }
    DistinctCard(rs);
  }

  /**
   * The finished maze has width · height rooms and width · height - 1 opened walls, no wall
   * being a room: 2 · width · height - 1 passage cells, the vertices and edges of a tree.
   */
  lemma PassageCount(width: int, height: int, order: seq<Point>, par: seq<nat>)
    requires SpanningTree(width, height, order, par)
    ensures |RoomSet(order)| == width * height
    ensures |WallSet(order, par)| == width * height - 1
    ensures RoomSet(order) !! WallSet(order, par)
    ensures |Passages(order, par)| == 2 * (width * height) - 1
  {
    RoomSetCard(order);
    WallSeqDistinct(width, height, order, par);
    DistinctCard(WallSeq(order, par));
    RoomsAreNotWalls(width, height, order, par);
    var R, W := RoomSet(order), WallSet(order, par);
    assert |R| == |order| && |W| == |order| - 1;
    assert |R + W| == |R| + |W|;
  }

  /** Rooms have two odd coordinates, opened walls only one: the two sets are disjoint. */
  lemma RoomsAreNotWalls(width: int, height: int, order: seq<Point>, par: seq<nat>)
    requires TreeOrder(width, height, order, par)
    ensures RoomSet(order) !! WallSet(order, par)
  {
    forall r | r in WallSet(order, par) ensures r !in RoomSet(order) {
      var i :| 1 <= i < |order| && i < |par| && par[i] < |order| && WallBetween(order[par[i]], order[i]) == r;
      WallJoinsRooms(order[par[i]], order[i]);
    }
  }

  /** A product of two positive integers is at least each factor. */
  lemma ProductBounds(a: int, b: int)
    requires a >= 1 && b >= 1
    ensures a * b >= a && a * b >= b
  {
    assert a * b - a == a * (b - 1);
    assert a * b - b == (a - 1) * b;
  }

  /** `w` is a walk over the cells of `open`, each step to a 4-adjacent cell. */
  ghost predicate OpenWalk(open: set<(int, int)>, w: seq<(int, int)>)
  {
    && |w| >= 1
    && (forall i :: 0 <= i < |w| ==> w[i] in open)
    && (forall i :: 0 <= i < |w| - 1 ==> Adjacent4(w[i], w[i + 1]))
  }

  /** Every room of the tree is joined to the room of (0, 0) through passages: down the tree edges. */
  lemma {:induction false} RoomsConnected(width: int, height: int, order: seq<Point>, par: seq<nat>, i: nat)
    returns (w: seq<(int, int)>)
    requires TreeOrder(width, height, order, par)
    requires i < |order|
    ensures OpenWalk(Passages(order, par), w) && w[0] == Room(Point(0, 0)) && w[|w| - 1] == Room(order[i])
    decreases i
  {
    var P := Passages(order, par);
    if i == 0 {
      w := [Room(order[0])];
    } else {
      var w0 := RoomsConnected(width, height, order, par, par[i]);
      var wall := WallBetween(order[par[i]], order[i]);
      WallJoinsRooms(order[par[i]], order[i]);
      assert wall in WallSet(order, par);
      assert Room(order[i]) in RoomSet(order);
      w := w0 + [wall, Room(order[i])];
      assert w[|w0| - 1] == Room(order[par[i]]);
      forall k | 0 <= k < |w| - 1 ensures Adjacent4(w[k], w[k + 1]) {
        if k < |w0| - 1 {
          assert w[k] == w0[k] && w[k + 1] == w0[k + 1];
        }
      }
    }
  }

  /** In the finished maze every room, the exit's included, is reachable from the entrance. */
  lemma MazeConnected(width: int, height: int, order: seq<Point>, par: seq<nat>, c: Point)
    returns (w: seq<(int, int)>)
    requires SpanningTree(width, height, order, par)
    requires InGrid(c, width, height)
    ensures OpenWalk(Passages(order, par), w) && w[0] == Room(Point(0, 0)) && w[|w| - 1] == Room(c)
  {
    var i :| 0 <= i < |order| && order[i] == c;
    w := RoomsConnected(width, height, order, par, i);
  }

  /** A sequence without repeats has as many distinct elements as it has entries. */
  lemma {:induction false} DistinctCard<T>(s: seq<T>)
    requires Distinct(s)
    ensures |set x | x in s| == |s|
  {
    if |s| > 0 {
      var t := s[..|s| - 1];
      assert Distinct(t);
      DistinctCard(t);
      assert (set x | x in s) == (set x | x in t) + {s[|s| - 1]};
      assert s[|s| - 1] !in t;
    }
  }

  /** The width × height cell grid has width · height cells. */
  lemma {:induction false} CellsCard(width: int, height: int)
    requires width >= 0 && height >= 0
    ensures |AllCells(width, height)| == width * height
  {
    if height > 0 {
      var upper, row := AllCells(width, height - 1), RowCells(width, height - 1);
      CellsCard(width, height - 1);
      RowCard(width, height - 1);
      LastRowSplit(width, height);
      assert |upper + row| == |upper| + |row|;
      assert width * height == width * (height - 1) + width;
    } else {
      assert AllCells(width, height) == {};
    }
  }

  /** The grid of `height` rows is the grid of `height - 1` rows plus its last row. */
  lemma LastRowSplit(width: int, height: int)
    requires height > 0
    ensures AllCells(width, height) == AllCells(width, height - 1) + RowCells(width, height - 1)
    ensures AllCells(width, height - 1) !! RowCells(width, height - 1)
  {
    var upper, row := AllCells(width, height - 1), RowCells(width, height - 1);
    forall c | c in AllCells(width, height) ensures c in upper + row {
      if c.y < height - 1 {
        assert c == Point(c.x, c.y);
      }
    }
    forall c | c in upper + row ensures c in AllCells(width, height) {
      assert c == Point(c.x, c.y);
    }
  }

  ghost function RowCells(width: int, y: int): set<Point>
  {
    set x | 0 <= x < width :: Point(x, y)
  }

  lemma {:induction false} RowCard(width: int, y: int)
    requires width >= 0
    ensures |RowCells(width, y)| == width
  {
    if width > 0 {
      RowCard(width - 1, y);
      assert RowCells(width, y) == RowCells(width - 1, y) + {Point(width - 1, y)};
    } else {
      assert RowCells(width, y) == {};
    }
  }
}
