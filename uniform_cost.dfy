/**
 * Walks and shortest walks over a unit-weight graph given by a step relation, and the
 * invariant of the uniform-cost (Dijkstra) search that both solvers of the maze run:
 * a frontier of (distance, node) entries from which a minimum-distance entry is taken,
 * stale entries skipped (lazy deletion), neighbours relaxed, and the search stopped as
 * soon as the end node is taken from the frontier.
 *
 * Each lemma below is one step of that loop; the solvers call them in the order their
 * code runs, so the solvers' loop invariants are `Links`, `Frontier` and `AllRelaxed`.
 */
module UniformCost {

  /** A frontier entry: a tentative distance and the node it was recorded for. */
  datatype Entry<T> = Entry(dist: nat, pos: T)

  /** `w` is a non-empty walk: every consecutive pair is one step. */
  ghost predicate IsWalk<T(!new)>(step: (T, T) -> bool, w: seq<T>)
  {
    |w| >= 1 && forall i :: 0 <= i < |w| - 1 ==> step(w[i], w[i + 1])
  }

  ghost predicate WalkFromTo<T(!new)>(step: (T, T) -> bool, w: seq<T>, s: T, t: T)
  {
    IsWalk(step, w) && w[0] == s && w[|w| - 1] == t
  }

  ghost predicate Reachable<T(!new)>(step: (T, T) -> bool, s: T, t: T)
  {
    exists w :: WalkFromTo(step, w, s, t)
  }

  /** `w` goes from `s` to `t` and no walk from `s` to `t` has fewer nodes. */
  ghost predicate Shortest<T(!new)>(step: (T, T) -> bool, w: seq<T>, s: T, t: T)
  {
    WalkFromTo(step, w, s, t) && forall v :: WalkFromTo(step, v, s, t) ==> |w| <= |v|
  }

  /** The recorded distance of `t` is at most the number of steps of every walk to it. */
  ghost predicate DistanceFinal<T(!new)>(step: (T, T) -> bool, start: T, t: T, D: map<T, nat>)
  {
    t in D && forall w :: WalkFromTo(step, w, start, t) ==> D[t] <= |w| - 1
  }

  /**
   * The distance and predecessor maps: the start is recorded at 0 and has no predecessor,
   * every other recorded node has one, and a predecessor link is one step of the graph
   * that lowers the recorded distance by at least one.
   */
  ghost predicate Links<T(!new)>(step: (T, T) -> bool, start: T, D: map<T, nat>, prev: map<T, T>)
  {
    && start in D && D[start] == 0 && start !in prev
    && (forall n :: n in D ==> n == start || n in prev)
    && (forall n :: n in prev ==> n in D && prev[n] in D && step(prev[n], n) && D[prev[n]] + 1 <= D[n])
  }

  /**
   * The frontier `pq` against the distances `D`, the expanded set `S` and the distance
   * `lo` of the last expanded node:
   * no entry is below its node's distance or below `lo`; an expanded node has only stale
   * entries left; every recorded, unexpanded node has exactly one entry at its distance;
   * expanded nodes are at most `lo` away, and their distances are optimal.
   */
  ghost predicate Frontier<T(!new)>(step: (T, T) -> bool, start: T, pq: multiset<Entry<T>>,
                              D: map<T, nat>, S: set<T>, lo: nat)
  {
    && (forall e :: e in pq ==> e.pos in D && D[e.pos] <= e.dist && lo <= e.dist)
    && (forall e :: e in pq && e.pos in S ==> D[e.pos] < e.dist)
    && (forall n :: n in D && n !in S ==> Entry(D[n], n) in pq)
    && (forall n :: n in D ==> pq[Entry(D[n], n)] <= 1)
    && (forall s :: s in S ==> s in D && D[s] <= lo)
    && (forall s, w :: s in S && WalkFromTo(step, w, start, s) ==> D[s] <= |w| - 1)
  }

  /** The step from `s` to `v`, if there is one, has been relaxed. */
  ghost predicate Relaxed<T(!new)>(step: (T, T) -> bool, D: map<T, nat>, s: T, v: T)
  {
    step(s, v) ==> s in D && v in D && D[v] <= D[s] + 1
  }

  ghost predicate AllRelaxed<T(!new)>(step: (T, T) -> bool, D: map<T, nat>, S: set<T>)
  {
    forall s, v :: s in S ==> Relaxed(step, D, s, v)
  }

  /** `u` is being expanded: the neighbours in `done` are relaxed, every other expanded node is. */
  ghost predicate Expanding<T(!new)>(step: (T, T) -> bool, D: map<T, nat>, S: set<T>, u: T, done: set<T>)
  {
    && u in S
    && (forall s, v :: s in S && s != u ==> Relaxed(step, D, s, v))
    && (forall v :: v in done ==> Relaxed(step, D, u, v))
  }

  /** The state the search starts in: only the start recorded, at 0, and on the frontier. */
  lemma Initial<T(!new)>(step: (T, T) -> bool, start: T)
    ensures Links(step, start, map[start := 0], map[])
    ensures Frontier(step, start, multiset{Entry(0, start)}, map[start := 0], {}, 0)
    ensures AllRelaxed(step, map[start := 0], {})
  {
  }

  /**
   * Every walk from the start to an unexpanded node is at least as long as the distance of
   * some frontier entry: the first unexpanded node on the walk is recorded and on the frontier.
   */
  lemma {:induction false} FrontierBelowWalk<T(!new)>(step: (T, T) -> bool, start: T, pq: multiset<Entry<T>>,
                                               D: map<T, nat>, prev: map<T, T>, S: set<T>, lo: nat, w: seq<T>)
    returns (f: Entry<T>)
    requires Links(step, start, D, prev)
    requires Frontier(step, start, pq, D, S, lo)
    requires AllRelaxed(step, D, S)
    requires IsWalk(step, w) && w[0] == start && w[|w| - 1] !in S
    ensures f in pq && f.dist <= |w| - 1
  {
    var j := 0;
    while j < |w| - 1 && w[j] in S
      invariant 0 <= j < |w|
      invariant forall i :: 0 <= i < j ==> w[i] in S
    {
      j := j + 1;
    }
    assert w[j] !in S;
    if j == 0 {
      f := Entry(0, start);
    } else {
      var s := w[j - 1];
      assert WalkFromTo(step, w[..j], start, s) by {
        forall i | 0 <= i < |w[..j]| - 1 ensures step(w[..j][i], w[..j][i + 1]) {
          assert w[..j][i] == w[i] && w[..j][i + 1] == w[i + 1];
        }
      }
      assert D[s] <= j - 1;
      assert step(s, w[j]);
      assert Relaxed(step, D, s, w[j]);
      f := Entry(D[w[j]], w[j]);
    }
  }

  /** Taking a stale entry (its distance above its node's) off the frontier keeps the invariant. */
  lemma PopStale<T(!new)>(step: (T, T) -> bool, start: T, pq: multiset<Entry<T>>,
                    D: map<T, nat>, S: set<T>, lo: nat, e: Entry<T>)
    requires Frontier(step, start, pq, D, S, lo)
    requires e in pq && e.pos in D && e.dist > D[e.pos]
    ensures Frontier(step, start, pq - multiset{e}, D, S, lo)
  {
    var pq' := pq - multiset{e};
    forall n | n in D && n !in S ensures Entry(D[n], n) in pq' {
      assert Entry(D[n], n) != e;
    }
  }

  /**
   * Taking a minimum-distance entry that is not stale starts the expansion of its node:
   * the node was not expanded before, its distance is optimal, and `lo` rises to it.
   */
  lemma BeginExpand<T(!new)>(step: (T, T) -> bool, start: T, pq: multiset<Entry<T>>,
                       D: map<T, nat>, prev: map<T, T>, S: set<T>, lo: nat, e: Entry<T>)
    requires Links(step, start, D, prev)
    requires Frontier(step, start, pq, D, S, lo)
    requires AllRelaxed(step, D, S)
    requires e in pq && e.pos in D && e.dist <= D[e.pos]
    requires forall f :: f in pq ==> e.dist <= f.dist
    ensures e.pos !in S && e.dist == D[e.pos]
    ensures Frontier(step, start, pq - multiset{e}, D, S + {e.pos}, e.dist)
    ensures Expanding(step, D, S + {e.pos}, e.pos, {})
  {
    var u := e.pos;
    var pq' := pq - multiset{e};
    var S' := S + {u};
    assert e.dist == D[u];
    assert u !in S;
    forall w | WalkFromTo(step, w, start, u) ensures D[u] <= |w| - 1 {
      var f := FrontierBelowWalk(step, start, pq, D, prev, S, lo, w);
    }
    assert pq'[e] == 0;
    forall f | f in pq' && f.pos in S' ensures D[f.pos] < f.dist {
      assert f in pq;
      if f.pos == u {
        assert f != e;
      }
    }
    forall n | n in D && n !in S' ensures Entry(D[n], n) in pq' {
      assert Entry(D[n], n) != e;
    }
  }

  /**
   * Relaxing the step from the node being expanded to a neighbour that is unrecorded or
   * recorded farther: the neighbour is neither the start nor expanded, its distance drops
   * to `lo + 1` (no distance ever rises), it gets the expanded node as predecessor and a
   * frontier entry, and the invariant holds of the new maps.
   */
  lemma Relax<T(!new)>(step: (T, T) -> bool, start: T, pq: multiset<Entry<T>>, D: map<T, nat>,
                       prev: map<T, T>, S: set<T>, lo: nat, u: T, done: set<T>, v: T)
    requires Links(step, start, D, prev)
    requires Frontier(step, start, pq, D, S, lo)
    requires Expanding(step, D, S, u, done)
    requires u in D && D[u] == lo
    requires step(u, v)
    requires v !in D || lo + 1 < D[v]
    ensures v != start && v !in S
    ensures v in D ==> lo + 1 < D[v]
    ensures Links(step, start, D[v := lo + 1], prev[v := u])
    ensures Frontier(step, start, pq + multiset{Entry(lo + 1, v)}, D[v := lo + 1], S, lo)
    ensures Expanding(step, D[v := lo + 1], S, u, done + {v})
  {
    assert v !in S;
    RelaxLinks(step, start, D, prev, lo, u, v);
    RelaxFrontier(step, start, pq, D, S, lo, v);
    RelaxExpanding(step, D, S, u, done, lo, v);
  }

  lemma RelaxLinks<T(!new)>(step: (T, T) -> bool, start: T, D: map<T, nat>, prev: map<T, T>, lo: nat, u: T, v: T)
    requires Links(step, start, D, prev)
    requires u in D && D[u] == lo && u != v
    requires step(u, v)
    requires v !in D || lo + 1 < D[v]
    ensures Links(step, start, D[v := lo + 1], prev[v := u])
  {
    var D' := D[v := lo + 1];
    var prev' := prev[v := u];
    forall n | n in prev' ensures n in D' && prev'[n] in D' && step(prev'[n], n) && D'[prev'[n]] + 1 <= D'[n] {
      if n != v {
        assert n in prev;
      }
    }
  }

  lemma RelaxFrontier<T(!new)>(step: (T, T) -> bool, start: T, pq: multiset<Entry<T>>, D: map<T, nat>,
                               S: set<T>, lo: nat, v: T)
    requires Frontier(step, start, pq, D, S, lo)
    requires v !in S
    requires v !in D || lo + 1 < D[v]
    ensures Frontier(step, start, pq + multiset{Entry(lo + 1, v)}, D[v := lo + 1], S, lo)
  {
    var D' := D[v := lo + 1];
    var ne := Entry(lo + 1, v);
    var pq' := pq + multiset{ne};
    assert pq[ne] == 0 by {
      if ne in pq {
        assert false;
      }
    }
    forall e | e in pq' ensures e.pos in D' && D'[e.pos] <= e.dist && lo <= e.dist {
      if e != ne {
        assert e in pq;
      }
    }
    forall e | e in pq' && e.pos in S ensures D'[e.pos] < e.dist {
      assert e in pq;
    }
    forall n | n in D' && n !in S ensures Entry(D'[n], n) in pq' {
      if n != v {
        assert Entry(D[n], n) in pq;
      }
    }
    forall n | n in D' ensures pq'[Entry(D'[n], n)] <= 1 {
      if n != v {
        assert Entry(D'[n], n) != ne;
      }
    }
    forall s, w | s in S && WalkFromTo(step, w, start, s) ensures D'[s] <= |w| - 1 {
      assert s != v;
    }
  }

  lemma RelaxExpanding<T(!new)>(step: (T, T) -> bool, D: map<T, nat>, S: set<T>, u: T, done: set<T>, lo: nat, v: T)
    requires Expanding(step, D, S, u, done)
    requires u in D && D[u] == lo && v !in S
    requires v !in D || lo + 1 < D[v]
    ensures Expanding(step, D[v := lo + 1], S, u, done + {v})
  {
    var D' := D[v := lo + 1];
    forall s, x | s in S && s != u ensures Relaxed(step, D', s, x) {
      assert Relaxed(step, D, s, x);
    }
    forall x | x in done + {v} ensures Relaxed(step, D', u, x) {
      if x != v {
        assert Relaxed(step, D, u, x);
      }
    }
  }

  /** A neighbour already recorded within one step of the expanded node needs no update. */
  lemma Skip<T(!new)>(step: (T, T) -> bool, D: map<T, nat>, S: set<T>, u: T, done: set<T>, v: T)
    requires Expanding(step, D, S, u, done)
    requires u in D && v in D && D[v] <= D[u] + 1
    ensures Expanding(step, D, S, u, done + {v})
  {
  }

  /** Once every neighbour of the expanded node is relaxed, all expanded nodes are. */
  lemma FinishExpand<T(!new)>(step: (T, T) -> bool, D: map<T, nat>, S: set<T>, u: T, done: set<T>)
    requires Expanding(step, D, S, u, done)
    requires forall v :: step(u, v) ==> v in done
    ensures AllRelaxed(step, D, S)
  {
    forall s, v | s in S ensures Relaxed(step, D, s, v) {
      if s == u && step(u, v) {
        assert v in done;
      }
    }
  }

  /** When the end is taken off the frontier as a minimum, its recorded distance is optimal. */
  lemma EndTaken<T(!new)>(step: (T, T) -> bool, start: T, end: T, pq: multiset<Entry<T>>,
                    D: map<T, nat>, prev: map<T, T>, S: set<T>, lo: nat, e: Entry<T>)
    requires Links(step, start, D, prev)
    requires Frontier(step, start, pq, D, S, lo)
    requires AllRelaxed(step, D, S)
    requires e in pq && e.pos == end && end !in S
    requires forall f :: f in pq ==> e.dist <= f.dist
    ensures DistanceFinal(step, start, end, D)
  {
    forall w | WalkFromTo(step, w, start, end) ensures D[end] <= |w| - 1 {
      var f := FrontierBelowWalk(step, start, pq, D, prev, S, lo, w);
    }
  }

  /** When the frontier runs empty with the end never expanded, the end is unreachable. */
  lemma FrontierExhausted<T(!new)>(step: (T, T) -> bool, start: T, end: T,
                             D: map<T, nat>, prev: map<T, T>, S: set<T>, lo: nat)
    requires Links(step, start, D, prev)
    requires Frontier(step, start, multiset{}, D, S, lo)
    requires AllRelaxed(step, D, S)
    requires end !in S
    ensures !Reachable(step, start, end)
  {
    if Reachable(step, start, end) {
      var w :| WalkFromTo(step, w, start, end);
      var f := FrontierBelowWalk(step, start, multiset{}, D, prev, S, lo, w);
    }
  }

  /**
   * A sequence in which every element after the first has the one before it as recorded
   * predecessor is a walk of the graph.
   */
  lemma ChainWalk<T(!new)>(step: (T, T) -> bool, start: T, D: map<T, nat>, prev: map<T, T>, chain: seq<T>)
    requires Links(step, start, D, prev)
    requires |chain| >= 1
    requires forall i :: 1 <= i < |chain| ==> chain[i] in prev && prev[chain[i]] == chain[i - 1]
    ensures IsWalk(step, chain)
  {
    forall i | 0 <= i < |chain| - 1 ensures step(chain[i], chain[i + 1]) {
      assert chain[i + 1] in prev;
    }
  }

  /**
   * The path rebuilt from the predecessor links is a shortest walk to the end when the end
   * is reachable, and exactly `[start]` when it is not; it ends at the end exactly when the
   * end is reachable.
   */
  lemma RebuiltPath<T(!new)>(step: (T, T) -> bool, start: T, end: T, D: map<T, nat>, prev: map<T, T>, path: seq<T>)
    requires Links(step, start, D, prev)
    requires Reachable(step, start, end) ==> DistanceFinal(step, start, end, D)
    requires IsWalk(step, path) && path[0] == start
    requires |path| == 1 ==> end !in prev
    requires |path| > 1 ==> path[|path| - 1] == end && end in D && |path| - 1 <= D[end]
    ensures Reachable(step, start, end) ==> Shortest(step, path, start, end)
    ensures !Reachable(step, start, end) ==> path == [start]
    ensures path[|path| - 1] == end <==> Reachable(step, start, end)
  {
    if |path| > 1 {
      assert WalkFromTo(step, path, start, end);
    } else {
      assert path == [start];
      if Reachable(step, start, end) {
        assert end == start;
      }
      if start == end {
        assert WalkFromTo(step, path, start, end);
      }
    }
  }

  /**
   * The walk back along the predecessor links from the end, stopped at a node without
   * predecessor (`chain`, first node first), with `start` put in front of everything after
   * that node: the answer the solvers return.
   */
  lemma TracedPath<T(!new)>(step: (T, T) -> bool, start: T, end: T, D: map<T, nat>, prev: map<T, T>, chain: seq<T>)
    requires Links(step, start, D, prev)
    requires Reachable(step, start, end) ==> DistanceFinal(step, start, end, D)
    requires |chain| >= 1 && chain[0] !in prev && chain[|chain| - 1] == end
    requires forall i :: 1 <= i < |chain| ==> chain[i] in prev && prev[chain[i]] == chain[i - 1]
    requires |chain| > 1 ==> end in D && |chain| - 1 <= D[end]
    ensures IsWalk(step, [start] + chain[1..])
    ensures Reachable(step, start, end) ==> Shortest(step, [start] + chain[1..], start, end)
    ensures !Reachable(step, start, end) ==> chain == [end]
    ensures ([start] + chain[1..])[|chain| - 1] == end <==> Reachable(step, start, end)
  {
    var path := [start] + chain[1..];
    if |chain| > 1 {
      assert chain[0] == prev[chain[1]] && chain[0] in D;
      assert chain[0] == start;
      assert path == chain;
    }
    ChainWalk(step, start, D, prev, path);
    RebuiltPath(step, start, end, D, prev, path);
  }
}
