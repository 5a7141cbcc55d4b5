/**
 * The mouse's decision procedures: the eight neighbour steps in the source's fixed order,
 * the cherry edge escape, the nearest-edge fallback, the flee choice and the breadth-first
 * forage towards the nearest item. Everything here reads the board and changes nothing; the
 * random picks and the mouse's state are handled by `Engine.Game.PickMouseMove`.
 */
module MouseAgent {
  import opened Wrappers
  import opened Config
  import opened Geometry

  /** The eight steps, in the order the source tries them: NW, N, NE, W, E, SW, S, SE. */
  const Dirs: seq<Dir> := [Dir(-1, -1), Dir(0, -1), Dir(1, -1), Dir(-1, 0), Dir(1, 0), Dir(-1, 1), Dir(0, 1), Dir(1, 1)]

  /** Every step moves at most one cell along each axis, and moves. */
  lemma DirsAreUnit()
    ensures forall d :: d in Dirs ==> -1 <= d.x <= 1 && -1 <= d.y <= 1 && d != Dir(0, 0)
  {
  }

  /** The neighbour a step leads to, folded back onto the board when walls wrap. */
  function Step(c: Cell, d: Dir, wrap: bool): Cell {
    if wrap then Norm(Add(c, d)) else Add(c, d)
  }

  /** Step `j` of `Dirs` from `m` is a legal, snake-free move. */
  predicate SafeStep(m: Cell, j: nat, wrap: bool, body: seq<Cell>)
    requires j < |Dirs|
  {
    SafeForMouse(Step(m, Dirs[j], wrap), wrap, body)
  }

  /** Some step of `Dirs` is safe from `m`. */
  predicate CanStep(m: Cell, wrap: bool, body: seq<Cell>) {
    exists j :: 0 <= j < |Dirs| && SafeStep(m, j, wrap, body)
  }

  /** Step `j` is the first safe step whose cell lies nearest an edge. */
  predicate NearestEdgeStep(m: Cell, body: seq<Cell>, j: nat)
    requires j < |Dirs|
  {
    && SafeStep(m, j, false, body)
    && forall k :: 0 <= k < |Dirs| && SafeStep(m, k, false, body) ==>
      && EdgeDistance(Add(m, Dirs[j])) <= EdgeDistance(Add(m, Dirs[k]))
      && (k < j ==> EdgeDistance(Add(m, Dirs[j])) < EdgeDistance(Add(m, Dirs[k])))
  }

  /** Step `j` is the first safe step whose cell lies farthest from the snake's head. */
  predicate FleeStep(m: Cell, head: Cell, wrap: bool, body: seq<Cell>, j: nat)
    requires j < |Dirs|
  {
    && SafeStep(m, j, wrap, body)
    && forall k :: 0 <= k < |Dirs| && SafeStep(m, k, wrap, body) ==>
      && FleeScore(m, k, head, wrap) <= FleeScore(m, j, head, wrap)
      && (k < j ==> FleeScore(m, k, head, wrap) < FleeScore(m, j, head, wrap))
  }
  /** `Array.prototype.filter`. */
  function Filter<T(!new)>(s: seq<T>, p: T -> bool): (r: seq<T>)
    ensures forall x :: x in r <==> x in s && p(x)
    ensures |r| <= |s|
  {
    if s == [] then [] else (if p(s[0]) then [s[0]] else []) + Filter(s[1..], p)
  }

  /** A filter is empty exactly when no element passes. */
  lemma {:induction false} FilterEmpty<T(!new)>(s: seq<T>, p: T -> bool)
    ensures Filter(s, p) == [] <==> forall i :: 0 <= i < |s| ==> !p(s[i])
  {
    if s != [] {
      FilterEmpty(s[1..], p);
      if p(s[0]) {
        assert Filter(s, p)[0] == s[0];
      } else {
        forall i | 1 <= i < |s| ensures p(s[i]) <==> p(s[1..][i - 1]) {
        }
      }
    }
  }

  /** Whether a step from `m` lands on a cell the mouse may enter. */
  function SafeFrom(m: Cell, wrap: bool, body: seq<Cell>): Dir -> bool {
    d => SafeForMouse(Step(m, d, wrap), wrap, body)
  }

  /** The steps `pickMouseMove` falls back on: every step onto a safe cell. */
  function SafeMoves(m: Cell, wrap: bool, body: seq<Cell>): (r: seq<Dir>)
    ensures forall d :: d in r <==> d in Dirs && SafeForMouse(Step(m, d, wrap), wrap, body)
  {
    Filter(Dirs, SafeFrom(m, wrap, body))
  }

  lemma SafeMovesIndex(m: Cell, wrap: bool, body: seq<Cell>)
    ensures SafeMoves(m, wrap, body) == [] <==> !CanStep(m, wrap, body)
  {
    var p := SafeFrom(m, wrap, body);
    FilterEmpty(Dirs, p);
    forall j | 0 <= j < |Dirs| ensures p(Dirs[j]) == SafeStep(m, j, wrap, body) {
    }
  }

  // ---------------------------------------------------------------------------
  // The cherry escape (wrap off, cherry armed)

  /** The steps that leave the board from `m`. */
  function Outward(m: Cell): (r: seq<Dir>)
    ensures forall d :: d in r <==> d in Dirs && !InGrid(Add(m, d))
  {
    Filter(Dirs, LeavesBoard(m))
  }

  function LeavesBoard(m: Cell): Dir -> bool {
    d => !InGrid(Add(m, d))
  }

  /** The horizontal and vertical steps among `ds`. */
  function Cardinals(ds: seq<Dir>): (r: seq<Dir>)
    ensures forall d :: d in r <==> d in ds && (d.x == 0 || d.y == 0)
  {
    Filter(ds, (d: Dir) => d.x == 0 || d.y == 0)
  }

  /** Among `ds`, the steps along x on a left or right edge, along y elsewhere. */
  function Preferred(m: Cell, ds: seq<Dir>): (r: seq<Dir>)
    ensures forall d :: d in r <==> d in ds && (if m.x == 0 || m.x == GRID - 1 then d.y == 0 else d.x == 0)
  {
    Filter(ds, (d: Dir) => if m.x == 0 || m.x == GRID - 1 then d.y == 0 else d.x == 0)
  }

  /**
   * The candidates of the escape: steps leaving the board, the cardinal ones if any, and
   * among those the preferred ones if any.
   */
  function EscapeCandidates(m: Cell): (cand: seq<Dir>)
    ensures forall d :: d in cand ==> d in Outward(m)
    ensures cand == [] <==> Outward(m) == []
  {
    var out := Outward(m);
    var card := Cardinals(out);
    var cand := if card != [] then card else out;
    var prefer := Preferred(m, cand);
    assert cand == [] <==> out == [] by {
      if out != [] {
        assert out[0] in out;
      }
    }
    if prefer != [] then prefer else cand
  }

  /** The one step straight off the board that the escape settles on. */
  function EscapeDir(m: Cell): (d: Dir)
    ensures IsCardinal(d)
  {
    if m.x == 0 then Dir(-1, 0)
    else if m.x == GRID - 1 then Dir(1, 0)
    else if m.y == 0 then Dir(0, -1)
    else Dir(0, 1)
  }

  /**
   * From a cell of the board an escape exists exactly on the edge, and it is always the
   * single cardinal step straight across the nearest side (x first): the random pick among
   * the candidates has only one to choose from, and the escape is never diagonal.
   */
  lemma EscapeIsStraight(m: Cell)
    requires InGrid(m)
    ensures EscapeCandidates(m) != [] <==> OnEdgeCell(m)
    ensures forall d :: d in EscapeCandidates(m) ==> d == EscapeDir(m)
  {
    if OnEdgeCell(m) {
      EdgeEscape(m);
    } else {
      InteriorStepsStay(m);
    }
  }

  lemma EdgeEscape(m: Cell)
    requires InGrid(m) && OnEdgeCell(m)
    ensures EscapeCandidates(m) != []
    ensures forall d :: d in EscapeCandidates(m) ==> d == EscapeDir(m)
  {
    var e := EscapeDir(m);
    assert e in Dirs;
    var card := Cardinals(Outward(m));
    assert e in card;
    var prefer := Preferred(m, card);
    assert e in prefer;
    assert EscapeCandidates(m) == prefer;
    forall d | d in prefer ensures d == e {
      PreferredOutwardStep(m, d);
    }
  }

  /** The random pick among the escape candidates always lands on the straight exit. */
  lemma EscapePick(m: Cell, k: nat)
    requires InGrid(m) && k < |EscapeCandidates(m)|
    ensures OnEdgeCell(m) && EscapeCandidates(m)[k] == EscapeDir(m)
  {
    EscapeIsStraight(m);
    assert EscapeCandidates(m)[k] in EscapeCandidates(m);
  }

  lemma InteriorStepsStay(m: Cell)
    requires InGrid(m) && !OnEdgeCell(m)
    ensures Outward(m) == []
  {
    var p := LeavesBoard(m);
    forall i | 0 <= i < |Dirs| ensures !p(Dirs[i]) {
      InteriorStep(m, Dirs[i]);
    }
    FilterEmpty(Dirs, p);
  }

  lemma InteriorStep(m: Cell, d: Dir)
    requires InGrid(m) && !OnEdgeCell(m)
    ensures d in Dirs ==> InGrid(Add(m, d))
  {
    DirsAreUnit();
  }

  lemma PreferredOutwardStep(m: Cell, d: Dir)
    requires InGrid(m) && d in Dirs && !InGrid(Add(m, d)) && (d.x == 0 || d.y == 0)
    requires if m.x == 0 || m.x == GRID - 1 then d.y == 0 else d.x == 0
    ensures d == EscapeDir(m)
  {
  }

  predicate OnEdgeCell(c: Cell) {
    c.x == 0 || c.x == GRID - 1 || c.y == 0 || c.y == GRID - 1
  }

  /** Distance from a cell to the nearest side of the board. */
  function EdgeDistance(c: Cell): (r: int)
    ensures InGrid(c) ==> 0 <= r <= (GRID - 1) / 2
    ensures InGrid(c) ==> (r == 0 <==> OnEdgeCell(c))
  {
    Min(Min(c.x, GRID - 1 - c.x), Min(c.y, GRID - 1 - c.y))
  }

  /**
   * The fallback of the cherry escape when no step leaves the board: the first safe step
   * (in `Dirs` order) whose cell is nearest to an edge.
   */
  method NearestEdge(m: Cell, body: seq<Cell>) returns (best: Option<nat>)
    requires InGrid(m)
    ensures best.None? <==> !CanStep(m, false, body)
    ensures best.Some? ==> best.value < |Dirs| && NearestEdgeStep(m, body, best.value)
  {
    best := None;
    var bestd := 1_000_000_000;
    for i := 0 to |Dirs|
      invariant best.None? <==> forall j :: 0 <= j < i ==> !SafeStep(m, j, false, body)
      invariant best.None? ==> bestd == 1_000_000_000
      invariant best.Some? ==> best.value < i && SafeStep(m, best.value, false, body)
      invariant best.Some? ==> bestd == EdgeDistance(Add(m, Dirs[best.value]))
      invariant best.Some? ==> forall j :: 0 <= j < i && SafeStep(m, j, false, body) ==>
        && bestd <= EdgeDistance(Add(m, Dirs[j]))
        && (j < best.value ==> bestd < EdgeDistance(Add(m, Dirs[j])))
    {
      var n := Add(m, Dirs[i]);
      if !SafeForMouse(n, false, body) {
        continue;
      }
      assert SafeStep(m, i, false, body) && InGrid(n);
      var ndist := EdgeDistance(n);
      if ndist < bestd {
        bestd := ndist;
        best := Some(i);
      }
    }
  }

  // ---------------------------------------------------------------------------
  // Fleeing

  /** How far the cell of step `j` is from the snake's head, the flee score. */
  function FleeScore(m: Cell, j: nat, head: Cell, wrap: bool): int
    requires j < |Dirs|
  {
    ChebyshevDistance(Step(m, Dirs[j], wrap), head, wrap)
  }

  /**
   * The flee choice: among the safe steps, in `Dirs` order, the first whose cell is
   * farthest (Chebyshev, around the torus when walls wrap) from the snake's head.
   */
  method Flee(m: Cell, head: Cell, wrap: bool, body: seq<Cell>) returns (best: Option<nat>)
    requires InGrid(m) && InGrid(head)
    ensures best.None? <==> !CanStep(m, wrap, body)
    ensures best.Some? ==> best.value < |Dirs| && FleeStep(m, head, wrap, body, best.value)
  {
    best := None;
    var bestScore := -1;
    for i := 0 to |Dirs|
      invariant best.None? <==> forall j :: 0 <= j < i ==> !SafeStep(m, j, wrap, body)
      invariant best.None? ==> bestScore == -1
      invariant best.Some? ==> best.value < i && SafeStep(m, best.value, wrap, body)
      invariant best.Some? ==> bestScore == FleeScore(m, best.value, head, wrap)
      invariant best.Some? ==> forall j :: 0 <= j < i && SafeStep(m, j, wrap, body) ==>
        && FleeScore(m, j, head, wrap) <= bestScore
        && (j < best.value ==> FleeScore(m, j, head, wrap) < bestScore)
    {
      var n := Step(m, Dirs[i], wrap);
      if !SafeForMouse(n, wrap, body) {
        continue;
      }
      assert SafeStep(m, i, wrap, body) && InGrid(n);
      var score := ChebyshevDistance(n, head, wrap);
      if score > bestScore {
        bestScore := score;
        best := Some(i);
      }
    }
  }

  // ---------------------------------------------------------------------------
  // Foraging: breadth-first search to the nearest item

  /** `n` is one safe step away from `c`. */
  predicate Edge(c: Cell, n: Cell, wrap: bool, body: seq<Cell>) {
    exists j :: 0 <= j < |Dirs| && n == Step(c, Dirs[j], wrap) && SafeForMouse(n, wrap, body)
  }

  /** A walk of safe steps. */
  predicate IsWalk(p: seq<Cell>, wrap: bool, body: seq<Cell>) {
    |p| >= 1 && forall i :: 0 <= i < |p| - 1 ==> Edge(p[i], p[i + 1], wrap, body)
  }

  /** Some item cell can be reached from `from` by a walk of safe steps. */
  ghost predicate Reaches(from: Cell, goals: set<Cell>, wrap: bool, body: seq<Cell>) {
    exists p :: IsWalk(p, wrap, body) && p[0] == from && p[|p| - 1] in goals
  }

  lemma ExtendWalk(c: Cell, p: seq<Cell>, wrap: bool, body: seq<Cell>)
    requires IsWalk(p, wrap, body) && Edge(c, p[0], wrap, body)
    ensures IsWalk([c] + p, wrap, body)
  {
    var q := [c] + p;
    forall i | 0 <= i < |q| - 1 ensures Edge(q[i], q[i + 1], wrap, body) {
      if i > 0 {
        assert q[i] == p[i - 1] && q[i + 1] == p[i];
      }
    }
  }

  lemma WalkReaches(p: seq<Cell>, goals: set<Cell>, wrap: bool, body: seq<Cell>)
    requires IsWalk(p, wrap, body) && p[|p| - 1] in goals
    ensures Reaches(p[0], goals, wrap, body)
  {
  }

  /** A set of cells that no safe step leaves. */
  predicate Closed(r: set<Cell>, wrap: bool, body: seq<Cell>) {
    forall c, j :: c in r && 0 <= j < |Dirs| && SafeForMouse(Step(c, Dirs[j], wrap), wrap, body) ==>
      Step(c, Dirs[j], wrap) in r
  }

  /** A walk that starts inside a closed set never leaves it. */
  lemma {:induction false} WalkStaysInside(r: set<Cell>, p: seq<Cell>, wrap: bool, body: seq<Cell>)
    requires Closed(r, wrap, body) && IsWalk(p, wrap, body) && p[0] in r
    ensures forall i :: 0 <= i < |p| ==> p[i] in r
  {
    if |p| > 1 {
      var j :| 0 <= j < |Dirs| && p[1] == Step(p[0], Dirs[j], wrap) && SafeForMouse(p[1], wrap, body);
      WalkStaysInside(r, p[1..], wrap, body);
      forall i | 0 <= i < |p| ensures p[i] in r {
        if i > 0 {
          assert p[i] == p[1..][i - 1];
        }
      }
    }
  }

  function Sign(v: int): (s: int)
    ensures s == -1 || s == 0 || s == 1
    ensures (s > 0 <==> v > 0) && (s < 0 <==> v < 0)
  {
    if v > 0 then 1 else if v < 0 then -1 else 0
  }

  /** `((dx + N + N/2) % N) - N/2` on the torus, the coordinate difference taken the short way. */
  function ShortDelta(v: int, wrap: bool): int {
    if wrap then JsRem(v + GRID + GRID / 2, GRID) - GRID / 2 else v
  }

  /** The step from `c` to its neighbour `n`: the signs of the coordinate differences taken the short way. */
  function StepBetween(c: Cell, n: Cell, wrap: bool): Dir {
    Dir(Sign(ShortDelta(n.x - c.x, wrap)), Sign(ShortDelta(n.y - c.y, wrap)))
  }

  /** A unit step is recovered from the cell it leads to. */
  lemma StepRecovered(c: Cell, d: Dir, n: Cell, wrap: bool)
    requires InGrid(c) && -1 <= d.x <= 1 && -1 <= d.y <= 1 && n == Step(c, d, wrap)
    ensures StepBetween(c, n, wrap) == d
  {
    if wrap {
      TorusStepRecovered(c, d, n);
    }
  }

  lemma TorusStepRecovered(c: Cell, d: Dir, n: Cell)
    requires InGrid(c) && -1 <= d.x <= 1 && -1 <= d.y <= 1 && n == Step(c, d, true)
    ensures StepBetween(c, n, true) == d
  {
    AxisRecovered(c.x, d.x, n.x);
    AxisRecovered(c.y, d.y, n.y);
  }

  /** On the torus: the short difference between a coordinate and its wrapped neighbour has the step's sign. */
  lemma AxisRecovered(v: int, d: int, w: int)
    requires 0 <= v < GRID && -1 <= d <= 1 && w == Wrap(v + d)
    ensures Sign(ShortDelta(w - v, true)) == d
  {
  }

  /** Every cell of the board. */
  function Board(): (b: set<Cell>)
    ensures forall c :: c in b <==> InGrid(c)
  {
    var b := set x, y | 0 <= x < GRID && 0 <= y < GRID :: Cell(x, y);
    assert forall c :: InGrid(c) ==> Cell(c.x, c.y) in b;
    b
  }

  /** Where the search starts: the mouse, folded onto the board when walls wrap. */
  function Origin(start: Cell, wrap: bool): Cell {
    if wrap then Norm(start) else start
  }

  /** Every cell in `visited` is on the board and has a search depth. */
  ghost predicate Charted(visited: set<Cell>, dist: map<Cell, nat>) {
    forall c :: c in visited ==> InGrid(c) && c in dist
  }

  /** The queue holds, once each, exactly the visited cells not yet expanded. */
  ghost predicate Queued(queue: seq<Cell>, visited: set<Cell>, done: set<Cell>) {
    && (forall i :: 0 <= i < |queue| ==> queue[i] in visited && queue[i] !in done)
    && (forall i, j :: 0 <= i < j < |queue| ==> queue[i] != queue[j])
    && (forall c :: c in visited ==> c in done || c in queue)
    && done <= visited
  }

  /** Every safe step among the first `n` of `Dirs` from `c` leads to a visited cell. */
  ghost predicate ExpandedUpTo(c: Cell, n: nat, visited: set<Cell>, wrap: bool, body: seq<Cell>)
    requires n <= |Dirs|
  {
    forall j :: 0 <= j < n && SafeForMouse(Step(c, Dirs[j], wrap), wrap, body) ==> Step(c, Dirs[j], wrap) in visited
  }

  /**
   * The `prev` links: every visited cell but the origin has one, reached from its predecessor
   * by the safe step `via`, one level deeper than it.
   */
  ghost predicate Tree(s0: Cell, visited: set<Cell>, prev: map<Cell, Cell>, dist: map<Cell, nat>,
                       via: map<Cell, nat>, wrap: bool, body: seq<Cell>)
    requires forall c :: c in visited ==> c in dist
  {
    && s0 in visited && s0 !in prev
    && (forall c :: c in visited && c != s0 ==> c in prev)
    && (forall k :: k in prev ==>
          && k in visited && prev[k] in visited && k in via && via[k] < |Dirs|
          && k == Step(prev[k], Dirs[via[k]], wrap) && SafeForMouse(k, wrap, body)
          && dist[prev[k]] < dist[k])
  }

  /** The invariant of the search loop. */
  ghost predicate Searching(s0: Cell, queue: seq<Cell>, visited: set<Cell>, prev: map<Cell, Cell>,
                            done: set<Cell>, dist: map<Cell, nat>, via: map<Cell, nat>,
                            goals: set<Cell>, wrap: bool, body: seq<Cell>)
  {
    && Charted(visited, dist)
    && Tree(s0, visited, prev, dist, via, wrap, body)
    && Queued(queue, visited, done)
    && done !! goals
    && (forall c :: c in done ==> ExpandedUpTo(c, |Dirs|, visited, wrap, body))
    && ((done == {} && queue == [s0]) || s0 in done)
  }

  /**
   * `findMousePathStepToNearestItem`: a breadth-first search over safe steps from the mouse
   * to any item cell. It answers nothing when no item can be reached, the zero step when the
   * mouse already stands on an item, and otherwise the step (one of `Dirs`) onto the first
   * cell of the path it found, from which an item can be reached.
   */
  method FindPathStep(start: Cell, goals: set<Cell>, wrap: bool, body: seq<Cell>) returns (step: Option<Dir>)
    requires InGrid(start)
    ensures step.Some? <==> Reaches(Origin(start, wrap), goals, wrap, body)
    ensures step == Some(Dir(0, 0)) <==> Origin(start, wrap) in goals
    ensures step.Some? && step.value != Dir(0, 0) ==>
      && step.value in Dirs
      && SafeForMouse(Step(Origin(start, wrap), step.value, wrap), wrap, body)
      && Reaches(Step(Origin(start, wrap), step.value, wrap), goals, wrap, body)
  {
    var s0 := if wrap then Norm(start) else start;
    if |goals| == 0 {
      assert goals == {};
      return None;
    }
    var queue := [s0];
    var visited := {s0};
    var prev: map<Cell, Cell> := map[];
    ghost var done: set<Cell> := {};
    ghost var dist: map<Cell, nat> := map[s0 := 0];
    ghost var via: map<Cell, nat> := map[];
    while queue != []
      invariant Searching(s0, queue, visited, prev, done, dist, via, goals, wrap, body)
      decreases Board() - done
    {
      var cur := queue[0];
      ghost var waiting := queue;
      queue := queue[1..];
      assert [cur] + queue == waiting;
      if cur in goals {
        var d := FirstStep(s0, cur, prev, visited, dist, via, goals, wrap, body);
        return Some(d);
      }
      queue, visited, prev, dist, via := Expand(s0, cur, queue, visited, prev, done, dist, via, goals, wrap, body);
      done := done + {cur};
    }
    assert Closed(done, wrap, body);
    if Reaches(s0, goals, wrap, body) {
      var p :| IsWalk(p, wrap, body) && p[0] == s0 && p[|p| - 1] in goals;
      WalkStaysInside(done, p, wrap, body);
    }
    return None;
  }

  /** The inner loop of the search: enqueue every unvisited safe neighbour of `cur`. */
  method Expand(s0: Cell, cur: Cell, queue: seq<Cell>, visited: set<Cell>, prev: map<Cell, Cell>,
                ghost done: set<Cell>, ghost dist: map<Cell, nat>, ghost via: map<Cell, nat>,
                ghost goals: set<Cell>, wrap: bool, body: seq<Cell>)
    returns (queue': seq<Cell>, visited': set<Cell>, prev': map<Cell, Cell>,
             ghost dist': map<Cell, nat>, ghost via': map<Cell, nat>)
    requires Searching(s0, [cur] + queue, visited, prev, done, dist, via, goals, wrap, body)
    requires cur !in goals
    ensures Searching(s0, queue', visited', prev', done + {cur}, dist', via', goals, wrap, body)
  {
    queue', visited', prev', dist', via' := queue, visited, prev, dist, via;
    ghost var done' := done + {cur};
    Dequeued(s0, cur, queue, visited, done, goals);
    for i := 0 to |Dirs|
      invariant Charted(visited', dist')
      invariant Tree(s0, visited', prev', dist', via', wrap, body)
      invariant Queued(queue', visited', done')
      invariant forall c :: c in done ==> ExpandedUpTo(c, |Dirs|, visited', wrap, body)
      invariant ExpandedUpTo(cur, i, visited', wrap, body)
    {
      var d := Dirs[i];
      var nx, ny := cur.x + d.x, cur.y + d.y;
      if wrap {
        nx, ny := Wrap(nx), Wrap(ny);
      } else if nx < 0 || ny < 0 || nx >= GRID || ny >= GRID {
        SkipStep(cur, i, visited', wrap, body);
        continue;
      }
      var n := Cell(nx, ny);
      assert n == Step(cur, d, wrap) && InGrid(n);
      if n in visited' {
        SkipStep(cur, i, visited', wrap, body);
        continue;
      }
      if !SafeForMouse(n, wrap, body) {
        SkipStep(cur, i, visited', wrap, body);
        continue;
      }
      Enqueue(s0, cur, i, n, queue', visited', prev', done', dist', via', wrap, body);
      ExpandedGrows(done, cur, i, n, visited', wrap, body);
      visited' := visited' + {n};
      queue' := queue' + [n];
      prev' := prev'[n := cur];
      dist' := dist'[n := dist'[cur] + 1];
      via' := via'[n := i];
    }
  }

  /** Taking `cur` off the front of the queue and marking it expanded keeps the queue exact. */
  lemma Dequeued(s0: Cell, cur: Cell, queue: seq<Cell>, visited: set<Cell>, done: set<Cell>, goals: set<Cell>)
    requires Queued([cur] + queue, visited, done)
    requires (done == {} && [cur] + queue == [s0]) || s0 in done
    ensures Queued(queue, visited, done + {cur}) && s0 in done + {cur}
  {
    var q := [cur] + queue;
    assert q[0] == cur;
    forall i | 0 <= i < |queue| ensures queue[i] in visited && queue[i] !in done + {cur} {
      assert queue[i] == q[i + 1];
    }
    forall i, j | 0 <= i < j < |queue| ensures queue[i] != queue[j] {
      assert queue[i] == q[i + 1] && queue[j] == q[j + 1];
    }
    forall c | c in visited ensures c in done + {cur} || c in queue {
      if c !in done && c != cur {
        assert c in q;
        var k :| 0 <= k < |q| && q[k] == c;
        assert queue[k - 1] == c;
      }
    }
  }

  /** Adding one fresh safe neighbour `n` of `cur` to the search keeps its invariants. */
  lemma Enqueue(s0: Cell, cur: Cell, i: nat, n: Cell, queue: seq<Cell>, visited: set<Cell>,
                prev: map<Cell, Cell>, done: set<Cell>, dist: map<Cell, nat>, via: map<Cell, nat>,
                wrap: bool, body: seq<Cell>)
    requires Charted(visited, dist) && Tree(s0, visited, prev, dist, via, wrap, body)
    requires Queued(queue, visited, done) && cur in done
    requires i < |Dirs| && n == Step(cur, Dirs[i], wrap) && InGrid(n) && n !in visited
    requires SafeForMouse(n, wrap, body)
    ensures Charted(visited + {n}, dist[n := dist[cur] + 1])
    ensures Tree(s0, visited + {n}, prev[n := cur], dist[n := dist[cur] + 1], via[n := i], wrap, body)
    ensures Queued(queue + [n], visited + {n}, done)
  {
    var q := queue + [n];
    forall a, b | 0 <= a < b < |q| ensures q[a] != q[b] {
      if b == |queue| {
        assert q[a] == queue[a] && queue[a] in visited;
      }
    }
    assert n in q;
  }

  /** A step that is unsafe, or leads to a visited cell, needs no enqueueing. */
  lemma SkipStep(c: Cell, i: nat, visited: set<Cell>, wrap: bool, body: seq<Cell>)
    requires i < |Dirs| && ExpandedUpTo(c, i, visited, wrap, body)
    requires SafeForMouse(Step(c, Dirs[i], wrap), wrap, body) ==> Step(c, Dirs[i], wrap) in visited
    ensures ExpandedUpTo(c, i + 1, visited, wrap, body)
  {
  }

  lemma ExpandedGrows(done: set<Cell>, cur: Cell, i: nat, n: Cell, visited: set<Cell>, wrap: bool, body: seq<Cell>)
    requires i < |Dirs| && n == Step(cur, Dirs[i], wrap)
    requires forall c :: c in done ==> ExpandedUpTo(c, |Dirs|, visited, wrap, body)
    requires ExpandedUpTo(cur, i, visited, wrap, body)
    ensures forall c :: c in done ==> ExpandedUpTo(c, |Dirs|, visited + {n}, wrap, body)
    ensures ExpandedUpTo(cur, i + 1, visited + {n}, wrap, body)
  {
  }

  /**
   * Walking the `prev` links back from the item cell `cur` to the origin: the step from the
   * origin onto the first cell of that path, or the zero step when `cur` is the origin.
   */
  method FirstStep(s0: Cell, cur: Cell, prev: map<Cell, Cell>, ghost visited: set<Cell>,
                   ghost dist: map<Cell, nat>, ghost via: map<Cell, nat>, ghost goals: set<Cell>,
                   wrap: bool, body: seq<Cell>) returns (step: Dir)
    requires Charted(visited, dist) && Tree(s0, visited, prev, dist, via, wrap, body)
    requires cur in visited && cur in goals
    ensures step == Dir(0, 0) <==> cur == s0
    ensures Reaches(s0, goals, wrap, body)
    ensures step != Dir(0, 0) ==>
      && step in Dirs
      && SafeForMouse(Step(s0, step, wrap), wrap, body)
      && Reaches(Step(s0, step, wrap), goals, wrap, body)
  {
    var node := cur;
    ghost var path := [cur];
    while node in prev
      invariant node in visited && (node == cur || node != s0)
      invariant IsWalk(path, wrap, body) && path[0] == node && path[|path| - 1] == cur
      decreases dist[node]
    {
      var p := prev[node];
      ghost var j := via[node];
      assert Edge(p, node, wrap, body) by {
        assert node == Step(p, Dirs[j], wrap) && SafeForMouse(node, wrap, body);
      }
      ExtendWalk(p, path, wrap, body);
      if p == s0 {
        assert Dirs[j] in Dirs;
        DirsAreUnit();
        StepRecovered(s0, Dirs[j], node, wrap);
        step := StepBetween(s0, node, wrap);
        WalkReaches(path, goals, wrap, body);
        WalkReaches([s0] + path, goals, wrap, body);
        return;
      }
      node := p;
      path := [p] + path;
    }
    WalkReaches(path, goals, wrap, body);
    return Dir(0, 0);
  }
}
