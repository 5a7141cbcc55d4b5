/**
 * The game proper: the snake and mouse records, the session state of `Game`, and the two
 * clocked steps `tick` (the snake) and `tickMouse` (the mouse). The outside world enters
 * only through the shared random oracle and the `now` argument (milliseconds of
 * `performance.now()`); the stored high score is a plain field.
 */
module Engine {
  import opened Wrappers
  import opened Config
  import opened Geometry
  import opened Random
  import opened Items
  import opened Rates
  import opened MouseAgent

  // ---------------------------------------------------------------------------
  // Pure pieces of the snake's step

  /** `nd` points exactly back along `dir`. */
  predicate Reverses(nd: Dir, dir: Dir) {
    nd.x == -dir.x && nd.y == -dir.y
  }

  /** Committing the pending direction keeps the reversal guard's invariant. */
  lemma NotOwnReverse(d: Dir)
    requires IsCardinal(d)
    ensures !Reverses(d, d)
  {
  }

  /**
   * The `findIndex` of the self-collision test: the first segment other than the head
   * (index 0 never counts) lying on `c`.
   */
  function CollisionIndex(body: seq<Cell>, c: Cell): (r: Option<nat>)
    ensures r.Some? ==> 1 <= r.value < |body| && body[r.value] == c
    ensures r.Some? ==> forall i :: 1 <= i < r.value ==> body[i] != c
    ensures r.None? ==> forall i :: 1 <= i < |body| ==> body[i] != c
  {
    if |body| <= 1 then None
    else if body[1] == c then Some(1)
    else
      match CollisionIndex(body[1..], c)
      case None => None
      case Some(i) => Some(i + 1)
  }

  /**
   * The body after a step: cut at the collision index if there was one, the new head in
   * front, and the tail dropped unless the snake grew.
   */
  function Advance(body: seq<Cell>, head: Cell, cut: Option<nat>, grow: bool): (r: seq<Cell>)
    requires cut.Some? ==> 1 <= cut.value <= |body|
  {
    var kept := if cut.Some? then body[..cut.value] else body;
    var pushed := [head] + kept;
    if grow then pushed else pushed[..|pushed| - 1]
  }

  /**
   * The length law of the snake: without a collision the body keeps its length on a plain
   * step and gains one segment when it grows; a collision at `i` leaves `i` segments
   * behind the new head, one more if it grew. The head always leads.
   */
  lemma AdvanceLength(body: seq<Cell>, head: Cell, cut: Option<nat>, grow: bool)
    requires |body| >= 1 && (cut.Some? ==> 1 <= cut.value <= |body|)
    ensures var r := Advance(body, head, cut, grow);
      && |r| == (if cut.Some? then cut.value else |body|) + (if grow then 1 else 0)
      && r[0] == head
      && (forall i :: 1 <= i < |r| ==> r[i] == body[i - 1])
  {
  }

  /** The cell the snake's head moves to this tick, or None when it leaves a walled board. */
  function HeadTarget(head: Cell, dir: Dir, wrap: bool, hadCherry: bool): (r: Option<Cell>)
    requires InGrid(head) && IsCardinal(dir)
    ensures r.Some? ==> InGrid(r.value)
    ensures r.None? <==> !InGrid(Add(head, dir)) && !wrap && !hadCherry
    ensures InGrid(Add(head, dir)) ==> r == Some(Add(head, dir))
  {
    var n := Add(head, dir);
    if InGrid(n) then Some(n)
    else if wrap || (hadCherry && !wrap) then Some(Norm(n))
    else None
  }

  /**
   * Where `tickMouse` sends the mouse for the move `mv` before any pear teleport, or None
   * when it stays: off a walled board without an armed cherry, or onto the snake.
   */
  function MouseTarget(m: Cell, mv: Dir, wrap: bool, armed: bool, body: seq<Cell>): (r: Option<Cell>)
    requires InGrid(m) && -1 <= mv.x <= 1 && -1 <= mv.y <= 1
    ensures r.Some? ==> InGrid(r.value) && SafeForMouse(r.value, wrap, body)
  {
    var n := Add(m, mv);
    var t :=
      if InGrid(n) then Some(n)
      else if wrap then Some(Norm(n))
      else if armed then
        var w := Norm(n);
        Some(Cell(if mv.y != 0 then m.x else w.x, if mv.x != 0 then m.y else w.y))
      else None;
    if t.Some? && SafeForMouse(t.value, wrap, body) then t else None
  }

  /**
   * A cherry wrap of the mouse takes it straight across the board: the escape step is
   * cardinal, so the axis lock leaves the wrapped cell as it is, on the opposite edge.
   */
  lemma CherryWrapIsStraight(m: Cell, body: seq<Cell>)
    requires InGrid(m) && OnEdgeCell(m)
    ensures var t := MouseTarget(m, EscapeDir(m), false, true, body);
      var w := Norm(Add(m, EscapeDir(m)));
      && !InGrid(Add(m, EscapeDir(m)))
      && (t.Some? <==> w !in body)
      && (t.Some? ==> t.value == w && OnEdgeCell(w) && w != m)
  {
  }

  /** The mouse's values that a move can change: cell, hit points, boost and cherry. */
  datatype Mouse = Mouse(at: Cell, hp: int, boostUntil: int, boostAmount: int, cherryArmed: bool)

  /**
   * The move part of `tickMouse` on values: the mouse `m` takes the step `mv` over the list
   * `items` at time `now`. It stays when there is no target; otherwise it lands on the
   * target (or a pear's partner), an orange adds a hit point, a banana boosts it for
   * `BananaDuration(highScore)`, a cherry arms it on a walled board, and a cherry wrap
   * spends the armed cherry.
   */
  function Moved(m: Mouse, mv: Dir, wrap: bool, body: seq<Cell>, items: seq<Item>, now: int, highScore: int): (r: Mouse)
    requires InGrid(m.at) && -1 <= mv.x <= 1 && -1 <= mv.y <= 1 && ItemsInGrid(items)
    ensures InGrid(r.at)
    ensures m.hp <= r.hp <= m.hp + 1
    ensures r.cherryArmed && !m.cherryArmed ==> !wrap && Outcome(items, r.at) == Ate(Cherry)
    ensures MouseTarget(m.at, mv, wrap, m.cherryArmed, body).Some? && !InGrid(Add(m.at, mv)) && !wrap ==> !r.cherryArmed
  {
    match MouseTarget(m.at, mv, wrap, m.cherryArmed, body)
    case None => m
    case Some(t) =>
      OutcomeTargetOnBoard(items, t);
      Arrived(m, t, Outcome(items, t), !InGrid(Add(m.at, mv)) && !wrap && m.cherryArmed, wrap, now, highScore)
  }

  /**
   * The mouse `m` after it reaches the target `t` and eats `e` there (`usedCherry` when it
   * got there by a cherry wrap).
   */
  function Arrived(m: Mouse, t: Cell, e: Eaten, usedCherry: bool, wrap: bool, now: int, highScore: int): Mouse {
    Mouse(if e.AtePear? then e.target else t,
          if e == Ate(Orange) then m.hp + 1 else m.hp,
          if e == Ate(Banana) then now + BananaDuration(highScore) else m.boostUntil,
          if e == Ate(Banana) then BANANA_SLOW else m.boostAmount,
          !usedCherry && (m.cherryArmed || (e == Ate(Cherry) && !wrap)))
  }

  /**
   * The list and the oracle's cursor after the mouse on `m` takes the step `mv`: untouched
   * when it stays; otherwise the list is what eating at the target leaves of `before`, and
   * only an eaten apple moves the cursor.
   */
  ghost predicate Foraged(m: Cell, mv: Dir, wrap: bool, armed: bool, body: seq<Cell>,
                          before: seq<Item>, after: seq<Item>, tape: nat -> Unit, from: nat, to: nat)
    requires InGrid(m) && -1 <= mv.x <= 1 && -1 <= mv.y <= 1
  {
    match MouseTarget(m, mv, wrap, armed, body)
    case None => after == before && to == from
    case Some(t) =>
      && EatenAt(before, t, after)
      && (Outcome(before, t) != Ate(Apple) ==> to == from)
      && (Outcome(before, t) == Ate(Apple) ==> Restocked(tape, from, to, |before|, body, after))
  }

  /** The score a step of the snake earns: one for an apple or a cherry, five for the mouse. */
  function ScoreGain(e: Eaten, caughtMouse: bool): (g: nat)
    ensures g <= 6
    ensures g == 0 <==> !(e == Ate(Apple) || e == Ate(Cherry)) && !caughtMouse
  {
    (if e == Ate(Apple) || e == Ate(Cherry) then 1 else 0) + (if caughtMouse then 5 else 0)
  }

  // ---------------------------------------------------------------------------
  // The snake's step on the session's values

  /** The part of the game state that `tick` determines: everything but items and mouse. */
  datatype Session = Session(body: seq<Cell>, score: int, hp: int, cherrySteps: int, playing: bool, highScore: int)

  /** The shape every session keeps between ticks. */
  predicate WellFormed(s: Session) {
    && |s.body| >= 1 && AllInGrid(s.body)
    && 0 <= s.hp <= MAX_HP && s.score >= 0 && 0 <= s.cherrySteps <= 1 && s.highScore >= 0
  }

  /**
   * The body at the moment the head on `c` catches the mouse: cut at a self-collision, the
   * new head in front and the tail not yet dropped.
   */
  function CatchBody(body: seq<Cell>, c: Cell): seq<Cell> {
    Advance(body, c, CollisionIndex(body, c), true)
  }

  /** `gameOver`: stop and record the better of score and stored high score. */
  function Ended(s: Session): (r: Session)
    ensures !r.playing && r.highScore >= r.score && r.highScore >= s.highScore
    ensures r.body == s.body && r.score == s.score && r.hp == s.hp && r.cherrySteps == s.cherrySteps
  {
    s.(playing := false, highScore := Max(s.score, s.highScore))
  }

  /** Hit points after eating `e`: an orange heals one, but never past MAX_HP. */
  function Fed(hp: int, e: Eaten): (r: int)
    ensures hp <= r <= hp + 1
    ensures hp <= MAX_HP ==> r <= MAX_HP
    ensures r == hp + 1 <==> e == Ate(Orange) && hp < MAX_HP
  {
    if e == Ate(Orange) && hp < MAX_HP then hp + 1 else hp
  }

  /** The snake's side of `eatAtForSnake` for the outcome `e`. */
  function AfterEating(s: Session, e: Eaten, wrap: bool): Session {
    s.(score := s.score + (if e == Ate(Apple) || e == Ate(Cherry) then 1 else 0),
       hp := Fed(s.hp, e),
       cherrySteps := if e == Ate(Cherry) then (if wrap then 0 else 1) else s.cherrySteps)
  }

  /** Where the head ends up on entering `t`: the partner's cell after a pear, else `t`. */
  function LandingCell(items: seq<Item>, t: Cell): Cell {
    var pre := Outcome(items, t);
    if pre.AtePear? then pre.target else t
  }

  /**
   * Collision, push and pop once the head's cell `c` is known: `ate` says whether the
   * target held an item, `mouseAt` and `mouseHp` describe the mouse.
   */
  function Landing(s: Session, c: Cell, ate: bool, mouseAt: Cell, mouseHp: int): Session
    requires |s.body| >= 1
  {
    var cut := CollisionIndex(s.body, c);
    if cut.Some? && s.hp <= 0 then Ended(s)
    else
      var killed := mouseAt == c && mouseHp <= 0;
      s.(body := Advance(s.body, c, cut, ate || killed),
         score := s.score + (if killed then 5 else 0),
         hp := s.hp - (if cut.Some? then 1 else 0))
  }

  /**
   * `Landing` when the game goes on, in terms of the segments `kept` after the collision
   * cut: the head is pushed onto them, the mouse is caught on `[c] + kept`, and the
   * collision (if any) costs a hit point.
   */
  lemma LandingSteps(s: Session, c: Cell, ate: bool, mouseAt: Cell, mouseHp: int, kept: seq<Cell>)
    requires |s.body| >= 1 && mouseHp >= 0
    requires CollisionIndex(s.body, c).None? || s.hp > 0
    requires kept == if CollisionIndex(s.body, c).Some? then s.body[..CollisionIndex(s.body, c).value] else s.body
    ensures CatchBody(s.body, c) == [c] + kept
    ensures var killed := mouseAt == c && mouseHp == 0;
      Landing(s, c, ate, mouseAt, mouseHp)
      == s.(body := Advance(kept, c, None, ate || killed),
            score := s.score + (if killed then 5 else 0),
            hp := s.hp - (if CollisionIndex(s.body, c).Some? then 1 else 0))
  {
  }

  /** The rest of the step once the head's target `t` is on the board. */
  function Entering(s: Session, items: seq<Item>, mouseAt: Cell, mouseHp: int, t: Cell, wrap: bool): Session
    requires |s.body| >= 1
  {
    var pre := Outcome(items, t);
    Spent(Landing(AfterEating(s, pre, wrap), LandingCell(items, t), pre != NoItem, mouseAt, mouseHp), s.cherrySteps > 0)
  }

  /** The end of the step: a cherry armed before it (`hadCherry`) is spent unless the game ended. */
  function Spent(landed: Session, hadCherry: bool): Session {
    if landed.playing && hadCherry then landed.(cherrySteps := 0) else landed
  }

  /**
   * What `tick` does to the session, given the items and the mouse before the tick, the
   * pending direction and the wrap mode.
   */
  function Ticked(s: Session, items: seq<Item>, mouseAt: Cell, mouseHp: int, nextDir: Dir, wrap: bool): Session
    requires |s.body| >= 1 && InGrid(s.body[0]) && IsCardinal(nextDir)
  {
    if !s.playing then s
    else
      match HeadTarget(s.body[0], nextDir, wrap, s.cherrySteps > 0)
      case None => Ended(s)
      case Some(t) => Entering(s, items, mouseAt, mouseHp, t, wrap)
  }

  /**
   * `tick` keeps the session well formed (body on the board, 0 <= hp <= MAX_HP, at most one
   * cherry step), never lowers score or record, stores `max(score, record)` when the game
   * ends, and leaves a paused or finished game alone.
   */
  lemma TickedWellFormed(s: Session, items: seq<Item>, mouseAt: Cell, mouseHp: int, nextDir: Dir, wrap: bool)
    requires WellFormed(s) && ItemsInGrid(items) && IsCardinal(nextDir)
    ensures var r := Ticked(s, items, mouseAt, mouseHp, nextDir, wrap);
      && WellFormed(r)
      && r.score >= s.score && r.highScore >= s.highScore
      && (s.playing && !r.playing ==> r.highScore == Max(r.score, s.highScore))
      && (!s.playing ==> r == s)
  {
    if s.playing {
      var target := HeadTarget(s.body[0], nextDir, wrap, s.cherrySteps > 0);
      if target.Some? {
        var t := target.value;
        OutcomeTargetOnBoard(items, t);
        var pre := Outcome(items, t);
        LandingWellFormed(AfterEating(s, pre, wrap), LandingCell(items, t), pre != NoItem, mouseAt, mouseHp);
      }
    }
  }

  /** `Landing` on a board cell keeps the session well formed and never lowers score or record. */
  lemma LandingWellFormed(s: Session, c: Cell, ate: bool, mouseAt: Cell, mouseHp: int)
    requires WellFormed(s) && InGrid(c)
    ensures var r := Landing(s, c, ate, mouseAt, mouseHp);
      && WellFormed(r)
      && r.score >= s.score && r.highScore >= s.highScore
      && (s.playing && !r.playing ==> r.highScore == Max(r.score, s.highScore))
  {
    var cut := CollisionIndex(s.body, c);
    var killed := mouseAt == c && mouseHp <= 0;
    if !(cut.Some? && s.hp <= 0) {
      AdvanceLength(s.body, c, cut, ate || killed);
      var b := Advance(s.body, c, cut, ate || killed);
      forall k | 0 <= k < |b| ensures InGrid(b[k]) {
        if k > 0 {
          assert b[k] == s.body[k - 1];
        }
      }
    }
  }

  /**
   * Off a walled board with no cherry armed, `tick` ends the game with body, score and hit
   * points as they were.
   */
  lemma TickedHitsWall(s: Session, items: seq<Item>, mouseAt: Cell, mouseHp: int, nextDir: Dir, wrap: bool)
    requires |s.body| >= 1 && InGrid(s.body[0]) && IsCardinal(nextDir) && s.playing
    requires !InGrid(Add(s.body[0], nextDir)) && !wrap && s.cherrySteps <= 0
    ensures var r := Ticked(s, items, mouseAt, mouseHp, nextDir, wrap);
      && !r.playing && r.body == s.body && r.score == s.score && r.hp == s.hp
      && r.highScore == Max(s.score, s.highScore)
  {
  }

  /**
   * A self-collision at segment `i` costs one hit point and keeps the head and the first
   * `i` old segments (one fewer if nothing was eaten); with no hit points the game ends with
   * the body untouched.
   */
  lemma EnteringCollision(s: Session, items: seq<Item>, mouseAt: Cell, mouseHp: int, t: Cell, wrap: bool, i: nat)
    requires WellFormed(s) && s.playing
    requires CollisionIndex(s.body, LandingCell(items, t)) == Some(i)
    ensures var pre := Outcome(items, t);
      var c := LandingCell(items, t);
      var r := Entering(s, items, mouseAt, mouseHp, t, wrap);
      var grow := pre != NoItem || (mouseAt == c && mouseHp <= 0);
      && (Fed(s.hp, pre) == 0 ==> !r.playing && r.body == s.body)
      && (Fed(s.hp, pre) > 0 ==>
          && r.playing && r.hp == Fed(s.hp, pre) - 1
          && |r.body| == i + (if grow then 1 else 0)
          && r.body[0] == c
          && forall k :: 1 <= k < |r.body| ==> r.body[k] == s.body[k - 1])
  {
    var pre := Outcome(items, t);
    var c := LandingCell(items, t);
    var grow := pre != NoItem || (mouseAt == c && mouseHp <= 0);
    AdvanceLength(s.body, c, Some(i), grow);
  }

  /**
   * Without a self-collision the snake keeps its length on a plain step and grows by one
   * when it ate an item or the mouse; the head lands on the target (or the pear partner).
   */
  lemma EnteringLength(s: Session, items: seq<Item>, mouseAt: Cell, mouseHp: int, t: Cell, wrap: bool)
    requires WellFormed(s) && s.playing
    requires CollisionIndex(s.body, LandingCell(items, t)).None?
    ensures var pre := Outcome(items, t);
      var c := LandingCell(items, t);
      var r := Entering(s, items, mouseAt, mouseHp, t, wrap);
      var grow := pre != NoItem || (mouseAt == c && mouseHp <= 0);
      && r.playing && r.hp == Fed(s.hp, pre)
      && |r.body| == |s.body| + (if grow then 1 else 0)
      && r.body[0] == c
      && r.score == s.score + ScoreGain(pre, mouseAt == c && mouseHp <= 0)
  {
    var pre := Outcome(items, t);
    var c := LandingCell(items, t);
    AdvanceLength(s.body, c, None, pre != NoItem || (mouseAt == c && mouseHp <= 0));
  }

  /**
   * The snake's cherry lasts exactly one tick: a step survived with the cherry armed ends
   * disarmed, while a cherry eaten on an unarmed step on a walled board stays armed for
   * the next tick.
   */
  lemma EnteringCherry(s: Session, items: seq<Item>, mouseAt: Cell, mouseHp: int, t: Cell, wrap: bool)
    requires WellFormed(s) && s.playing
    ensures var r := Entering(s, items, mouseAt, mouseHp, t, wrap);
      && (r.playing && s.cherrySteps > 0 ==> r.cherrySteps == 0)
      && (r.playing && s.cherrySteps == 0 ==>
           r.cherrySteps == (if Outcome(items, t) == Ate(Cherry) && !wrap then 1 else 0))
  {
  }

  // ---------------------------------------------------------------------------
  // The records

  /** `SnakeModel`: the body (head first) and the committed and pending directions. */
  class SnakeModel {
    var body: seq<Cell>
    var dir: Dir
    var nextDir: Dir

    constructor ()
      ensures body == [] && dir == Dir(1, 0) && nextDir == Dir(1, 0)
    {
      body := [];
      dir := Dir(1, 0);
      nextDir := Dir(1, 0);
    }

    /** `setIdle`: three segments heading right, the head at `(cx + 1, cy)`. */
    method SetIdle(cx: int, cy: int)
      modifies this
      ensures body == [Cell(cx + 1, cy), Cell(cx, cy), Cell(cx - 1, cy)]
      ensures dir == Dir(1, 0) && nextDir == Dir(1, 0)
    {
      body := [Cell(cx + 1, cy), Cell(cx, cy), Cell(cx - 1, cy)];
      dir := Dir(1, 0);
      nextDir := Dir(1, 0);
    }
  }

  /** `MouseModel`. */
  class MouseModel {
    var x: int
    var y: int
    var hp: int
    var boostUntil: int
    var boostAmount: int
    var cherryArmed: bool
    var alert: bool

    constructor ()
      ensures x == 0 && y == 0 && hp == 0 && boostUntil == 0 && boostAmount == 0
      ensures !cherryArmed && !alert
    {
      x, y, hp := 0, 0, 0;
      boostUntil, boostAmount := 0, 0;
      cherryArmed, alert := false, false;
    }
  }

  // ---------------------------------------------------------------------------
  // The game

  class Game {
    var playing: bool
    var wrapWalls: bool
    var score: int
    var hp: int
    var slowUntil: int
    var slowAmount: int
    var cherrySteps: int
    var snake: SnakeModel
    var mouse: MouseModel
    const items: ItemsManager
    const rng: Rng
    /** The high score kept by the storage service. */
    var highScore: int

    /** The mouse's values that a move can change. */
    function MouseState(): Mouse
      reads this, mouse
    {
      Mouse(Cell(mouse.x, mouse.y), mouse.hp, mouse.boostUntil, mouse.boostAmount, mouse.cherryArmed)
    }

    /** The session values of this game. */
    function State(): Session
      reads this, snake
    {
      Session(snake.body, score, hp, cherrySteps, playing, highScore)
    }

    ghost predicate Valid()
      reads this, snake, mouse, items
    {
      BoardValid() && InGrid(Cell(mouse.x, mouse.y)) && mouse.hp >= 0 && mouse.boostAmount >= 0
    }

    /** The part of `Valid` that does not concern the mouse. */
    ghost predicate BoardValid()
      reads this, snake, items
    {
      && items.rng == rng
      && |snake.body| >= 1 && AllInGrid(snake.body)
      && IsCardinal(snake.dir) && IsCardinal(snake.nextDir)
      && (|snake.body| > 1 ==> !Reverses(snake.nextDir, snake.dir))
      && Registry(items.items) && ItemsInGrid(items.items)
      && 0 <= hp <= MAX_HP && score >= 0 && 0 <= cherrySteps <= 1
      && slowAmount >= 0 && highScore >= 0
    }

    /** `new Game` followed by `init`'s `setInitialIdleState`: an idle board, not yet playing. */
    constructor (rng: Rng, wrapWalls: bool, highScore: nat)
      modifies rng
      ensures Valid() && !playing && this.wrapWalls == wrapWalls && this.highScore == highScore
      ensures this.rng == rng && fresh(snake) && fresh(mouse) && fresh(items)
      ensures snake.body == [Cell(GRID / 2 + 1, GRID / 2), Cell(GRID / 2, GRID / 2), Cell(GRID / 2 - 1, GRID / 2)]
      ensures snake.dir == Dir(1, 0) && snake.nextDir == Dir(1, 0)
      ensures score == 0 && hp == 0 && slowUntil == 0 && slowAmount == 0 && cherrySteps == 0
      ensures |items.items| == 1 && items.items[0].kind == Apple
      ensures mouse.hp == 0 && !mouse.cherryArmed && mouse.boostUntil == 0 && mouse.boostAmount == 0 && !mouse.alert
      ensures exists d ::
        && Sampled(rng.tape, old(rng.drawn), d, Occupied([], snake.body), items.items[0].pos)
        && Sampled(rng.tape, d, rng.drawn, Occupied(items.items, snake.body), Cell(mouse.x, mouse.y))
    {
      playing := false;
      this.wrapWalls := wrapWalls;
      score, hp, slowUntil, slowAmount, cherrySteps := 0, 0, 0, 0, 0;
      snake := new SnakeModel();
      mouse := new MouseModel();
      items := new ItemsManager(rng);
      this.rng := rng;
      this.highScore := highScore;
      new;
      SetInitialIdleState();
    }

    /**
     * `setInitialIdleState`: the snake in the middle heading right, score, HP and effects
     * cleared, the item list reduced to one freshly spawned apple, and a new mouse.
     */
    method SetInitialIdleState()
      requires items.rng == rng && highScore >= 0
      modifies this, snake, items, rng
      ensures Valid() && fresh(mouse)
      ensures playing == old(playing) && wrapWalls == old(wrapWalls) && highScore == old(highScore)
      ensures snake == old(snake)
      ensures snake.body == [Cell(GRID / 2 + 1, GRID / 2), Cell(GRID / 2, GRID / 2), Cell(GRID / 2 - 1, GRID / 2)]
      ensures snake.dir == Dir(1, 0) && snake.nextDir == Dir(1, 0)
      ensures score == 0 && hp == 0 && slowUntil == 0 && slowAmount == 0 && cherrySteps == 0
      ensures |items.items| == 1 && items.items[0].kind == Apple
      ensures mouse.hp == 0 && !mouse.cherryArmed && mouse.boostUntil == 0 && mouse.boostAmount == 0 && !mouse.alert
      ensures exists d ::
        && Sampled(rng.tape, old(rng.drawn), d, Occupied([], snake.body), items.items[0].pos)
        && Sampled(rng.tape, d, rng.drawn, Occupied(items.items, snake.body), Cell(mouse.x, mouse.y))
    {
      IdleBoard();
      mouse := SpawnMouse();
    }

    /** The board half of `setInitialIdleState`: everything before the mouse is spawned. */
    method IdleBoard()
      requires items.rng == rng && highScore >= 0
      modifies this, snake, items, rng
      ensures BoardValid()
      ensures playing == old(playing) && wrapWalls == old(wrapWalls) && highScore == old(highScore)
      ensures snake == old(snake) && mouse == old(mouse)
      ensures snake.body == [Cell(GRID / 2 + 1, GRID / 2), Cell(GRID / 2, GRID / 2), Cell(GRID / 2 - 1, GRID / 2)]
      ensures snake.dir == Dir(1, 0) && snake.nextDir == Dir(1, 0)
      ensures score == 0 && hp == 0 && slowUntil == 0 && slowAmount == 0 && cherrySteps == 0
      ensures |items.items| == 1 && items.items[0].kind == Apple
      ensures Sampled(rng.tape, old(rng.drawn), rng.drawn, Occupied([], snake.body), items.items[0].pos)
    {
      var cx, cy := GRID / 2, GRID / 2;
      snake.SetIdle(cx, cy);
      score := 0;
      SetHP(0);
      slowUntil, slowAmount, cherrySteps := 0, 0, 0;
      items.Clear();
      items.EnsureApple(snake.body);
      LoneApple(items.items);
    }

    /** `reset`: start (or resume) play. */
    method Reset()
      modifies this
      ensures playing
      ensures snake == old(snake) && mouse == old(mouse) && score == old(score) && hp == old(hp)
      ensures cherrySteps == old(cherrySteps) && slowAmount == old(slowAmount) && slowUntil == old(slowUntil)
      ensures wrapWalls == old(wrapWalls) && highScore == old(highScore)
    {
      playing := true;
    }

    /** `newGame`: a fresh idle board, then play. */
    method NewGame()
      requires items.rng == rng && highScore >= 0
      modifies this, snake, items, rng
      ensures Valid() && playing && fresh(mouse) && snake == old(snake)
      ensures wrapWalls == old(wrapWalls) && highScore == old(highScore)
      ensures snake.body == [Cell(GRID / 2 + 1, GRID / 2), Cell(GRID / 2, GRID / 2), Cell(GRID / 2 - 1, GRID / 2)]
      ensures snake.dir == Dir(1, 0) && snake.nextDir == Dir(1, 0)
      ensures score == 0 && hp == 0 && cherrySteps == 0 && slowUntil == 0 && slowAmount == 0
      ensures |items.items| == 1 && items.items[0].kind == Apple
      ensures mouse.hp == 0 && !mouse.cherryArmed && mouse.boostUntil == 0 && mouse.boostAmount == 0 && !mouse.alert
      ensures exists d ::
        && Sampled(rng.tape, old(rng.drawn), d, Occupied([], snake.body), items.items[0].pos)
        && Sampled(rng.tape, d, rng.drawn, Occupied(items.items, snake.body), Cell(mouse.x, mouse.y))
    {
      SetInitialIdleState();
      Reset();
    }

    /**
     * `spawnMouse`: a new mouse on a cell drawn exactly as `spawnAtEmpty` draws it, away from
     * the items and the body unless the guard runs out.
     */
    method SpawnMouse() returns (m: MouseModel)
      requires items.rng == rng
      modifies rng
      ensures fresh(m) && InGrid(Cell(m.x, m.y))
      ensures Sampled(rng.tape, old(rng.drawn), rng.drawn, Occupied(items.items, snake.body), Cell(m.x, m.y))
      ensures m.hp == 0 && m.boostUntil == 0 && m.boostAmount == 0 && !m.cherryArmed && !m.alert
    {
      var c := items.SpawnAtEmpty(snake.body);
      m := new MouseModel();
      m.x, m.y := c.x, c.y;
    }

    method IncrementScore(delta: int)
      modifies this
      ensures score == old(score) + delta
      ensures hp == old(hp) && cherrySteps == old(cherrySteps) && playing == old(playing)
      ensures slowAmount == old(slowAmount) && slowUntil == old(slowUntil)
      ensures snake == old(snake) && mouse == old(mouse) && wrapWalls == old(wrapWalls) && highScore == old(highScore)
    {
      score := score + delta;
    }

    method SetHP(value: int)
      modifies this
      ensures hp == value
      ensures score == old(score) && cherrySteps == old(cherrySteps) && playing == old(playing)
      ensures slowAmount == old(slowAmount) && slowUntil == old(slowUntil)
      ensures snake == old(snake) && mouse == old(mouse) && wrapWalls == old(wrapWalls) && highScore == old(highScore)
    {
      hp := value;
    }

    method ApplySlow(amount: int, until: int)
      modifies this
      ensures slowAmount == amount && slowUntil == until
      ensures score == old(score) && hp == old(hp) && cherrySteps == old(cherrySteps) && playing == old(playing)
      ensures snake == old(snake) && mouse == old(mouse) && wrapWalls == old(wrapWalls) && highScore == old(highScore)
    {
      slowAmount := amount;
      slowUntil := until;
    }

    /** `armCherry`: one wrap-through step, but only on a walled board. */
    method ArmCherry()
      modifies this
      ensures cherrySteps == (if wrapWalls then 0 else 1)
      ensures score == old(score) && hp == old(hp) && playing == old(playing)
      ensures slowAmount == old(slowAmount) && slowUntil == old(slowUntil)
      ensures snake == old(snake) && mouse == old(mouse) && wrapWalls == old(wrapWalls) && highScore == old(highScore)
    {
      cherrySteps := if wrapWalls then 0 else 1;
    }

    /**
     * `applyDir`: a requested direction (None for an unmapped key) becomes the pending one,
     * unless it reverses the committed direction of a snake longer than one segment.
     */
    method ApplyDir(nd: Option<Dir>)
      requires Valid() && (nd.Some? ==> IsCardinal(nd.value))
      modifies snake
      ensures Valid()
      ensures snake.body == old(snake.body) && snake.dir == old(snake.dir)
      ensures snake.nextDir ==
        if nd.Some? && !(|snake.body| > 1 && Reverses(nd.value, snake.dir)) then nd.value
        else old(snake.nextDir)
    {
      if nd.None? {
        return;
      }
      if |snake.body| > 1 && Reverses(nd.value, snake.dir) {
        return;
      }
      snake.nextDir := nd.value;
    }

    /** The high-score part of `gameOver`: stop, and store the better of score and record. */
    method GameOver()
      modifies this
      ensures !playing && highScore == Max(score, old(highScore))
      ensures score == old(score) && hp == old(hp) && cherrySteps == old(cherrySteps)
      ensures slowAmount == old(slowAmount) && slowUntil == old(slowUntil)
      ensures snake == old(snake) && mouse == old(mouse) && wrapWalls == old(wrapWalls)
    {
      playing := false;
      highScore := Max(score, highScore);
    }

    /**
     * `eatAtForSnake`: the registry's half (`ItemsManager.EatAt`), then the snake's effects:
     * an apple scores 1, a banana slows the snake for `BananaDuration(highScore)`, an orange
     * heals while below MAX_HP, a cherry scores 1 and arms the cherry.
     */
    method EatAtForSnake(c: Cell, now: int) returns (e: Eaten)
      requires Valid()
      modifies this, items, rng
      ensures Valid()
      ensures e == Outcome(old(items.items), c)
      ensures EatenAt(old(items.items), c, items.items)
      ensures e == NoItem ==> items.items == old(items.items)
      ensures e != Ate(Apple) ==> rng.drawn == old(rng.drawn)
      ensures e == Ate(Apple) ==> Restocked(rng.tape, old(rng.drawn), rng.drawn, |old(items.items)|, snake.body, items.items)
      ensures e == Ate(Banana) ==> slowAmount == BANANA_SLOW && slowUntil == now + BananaDuration(highScore)
      ensures e != Ate(Banana) ==> slowAmount == old(slowAmount) && slowUntil == old(slowUntil)
      ensures playing == old(playing) && wrapWalls == old(wrapWalls) && highScore == old(highScore)
      ensures snake == old(snake) && mouse == old(mouse)
      ensures State() == AfterEating(old(State()), e, wrapWalls)
    {
      e := items.EatAt(c, snake.body);
      if e == Ate(Apple) {
        assert Apples(items.items) == 1;
        HasAppleIffCount(items.items);
      }
      FeedSnake(e, now);
    }

    /** The snake's half of `eatAtForSnake`, once the registry has reported the outcome `e`. */
    method FeedSnake(e: Eaten, now: int)
      requires Valid()
      modifies this
      ensures Valid()
      ensures score == old(score) + (if e == Ate(Apple) || e == Ate(Cherry) then 1 else 0)
      ensures hp == (if e == Ate(Orange) && old(hp) < MAX_HP then old(hp) + 1 else old(hp))
      ensures cherrySteps == (if e == Ate(Cherry) then (if wrapWalls then 0 else 1) else old(cherrySteps))
      ensures e == Ate(Banana) ==> slowAmount == BANANA_SLOW && slowUntil == now + BananaDuration(highScore)
      ensures e != Ate(Banana) ==> slowAmount == old(slowAmount) && slowUntil == old(slowUntil)
      ensures playing == old(playing) && wrapWalls == old(wrapWalls) && highScore == old(highScore)
      ensures snake == old(snake) && mouse == old(mouse)
      ensures State() == AfterEating(old(State()), e, wrapWalls)
    {
      if e == Ate(Apple) {
        IncrementScore(1);
      } else if e == Ate(Banana) {
        ApplySlow(BANANA_SLOW, now + BananaDuration(highScore));
      } else if e == Ate(Orange) {
        if hp < MAX_HP {
          SetHP(hp + 1);
        }
      } else if e == Ate(Cherry) {
        IncrementScore(1);
        ArmCherry();
      }
    }

    /**
     * `eatAtForMouse`: the registry's half, then the mouse's effects: a banana boosts the
     * mouse, an orange adds a hit point with no cap, a cherry arms it on a walled board.
     */
    method EatAtForMouse(c: Cell, now: int) returns (e: Eaten)
      requires Valid()
      modifies mouse, items, rng
      ensures Valid()
      ensures e == Outcome(old(items.items), c)
      ensures EatenAt(old(items.items), c, items.items)
      ensures e == NoItem ==> items.items == old(items.items)
      ensures e != Ate(Apple) ==> rng.drawn == old(rng.drawn)
      ensures e == Ate(Apple) ==> Restocked(rng.tape, old(rng.drawn), rng.drawn, |old(items.items)|, snake.body, items.items)
      ensures mouse.hp == (if e == Ate(Orange) then old(mouse.hp) + 1 else old(mouse.hp))
      ensures e == Ate(Banana) ==> mouse.boostAmount == BANANA_SLOW && mouse.boostUntil == now + BananaDuration(highScore)
      ensures e != Ate(Banana) ==> mouse.boostAmount == old(mouse.boostAmount) && mouse.boostUntil == old(mouse.boostUntil)
      ensures mouse.cherryArmed == (old(mouse.cherryArmed) || (e == Ate(Cherry) && !wrapWalls))
      ensures mouse.x == old(mouse.x) && mouse.y == old(mouse.y) && mouse.alert == old(mouse.alert)
    {
      e := items.EatAt(c, snake.body);
      if e == Ate(Banana) {
        mouse.boostAmount := BANANA_SLOW;
        mouse.boostUntil := now + BananaDuration(highScore);
      } else if e == Ate(Orange) {
        mouse.hp := mouse.hp + 1;
      } else if e == Ate(Cherry) {
        if !wrapWalls {
          mouse.cherryArmed := true;
        }
      }
    }

    /**
     * `pickMouseMove`: sets the alert flag, then chooses by priority: the cherry escape off
     * a walled board (a random pick among the exits, which is always the one straight exit),
     * else the safe step nearest an edge; when alert, the flee step; a step from which an
     * item stays reachable (the breadth-first search's first step); and finally a random
     * safe step, or standing still.
     */
    method PickMouseMove() returns (mv: Dir)
      requires Valid()
      modifies mouse, rng
      ensures Valid()
      ensures mouse.x == old(mouse.x) && mouse.y == old(mouse.y) && mouse.hp == old(mouse.hp)
      ensures mouse.cherryArmed == old(mouse.cherryArmed)
      ensures mouse.boostUntil == old(mouse.boostUntil) && mouse.boostAmount == old(mouse.boostAmount)
      ensures var p := Cell(mouse.x, mouse.y);
        mouse.alert == (ChebyshevDistance(p, snake.body[0], wrapWalls) <= MOUSE_ALERT_DIST)
      ensures MouseChoice(Cell(mouse.x, mouse.y), snake.body[0], mouse.alert, EdgeMode(this), wrapWalls,
                          snake.body, ItemCells(items.items), rng.tape, old(rng.drawn), rng.drawn, mv)
    {
      var p := Cell(mouse.x, mouse.y);
      mouse.alert := ChebyshevDistance(p, snake.body[0], wrapWalls) <= MOUSE_ALERT_DIST;
      mv := DecideMove(p, snake.body[0], mouse.alert, !wrapWalls && mouse.cherryArmed, wrapWalls,
                       snake.body, ItemCells(items.items), rng);
    }

    /**
     * The move part of `tickMouse` for the chosen step `mv`: wrap when allowed (a cherry wrap
     * is axis-locked and disarms the cherry), stay put when the target is off a walled board
     * or on the snake, else eat there (a pear teleports the mouse to its partner).
     */
    method MoveMouse(mv: Dir, now: int)
      requires Valid() && -1 <= mv.x <= 1 && -1 <= mv.y <= 1
      modifies mouse, items, rng
      ensures Valid()
      ensures mouse.alert == old(mouse.alert)
      ensures MouseState() == Moved(old(MouseState()), mv, wrapWalls, snake.body, old(items.items), now, highScore)
      ensures Foraged(Cell(old(mouse.x), old(mouse.y)), mv, wrapWalls, old(mouse.cherryArmed), snake.body,
                      old(items.items), items.items, rng.tape, old(rng.drawn), rng.drawn)
      ensures MouseTarget(Cell(old(mouse.x), old(mouse.y)), mv, wrapWalls, old(mouse.cherryArmed), snake.body).None? ==>
        unchanged(mouse, items, rng)
    {
      var p := Cell(mouse.x, mouse.y);
      var t := MouseTarget(p, mv, wrapWalls, mouse.cherryArmed, snake.body);
      if t.None? {
        return;
      }
      Arrive(t.value, !InGrid(Add(p, mv)) && !wrapWalls && mouse.cherryArmed, now);
    }

    /**
     * The rest of the move once the target `t` is known: eat there, move onto it (or the
     * pear partner), and spend the cherry if the wrap used it (`usedCherry`).
     */
    method Arrive(t: Cell, usedCherry: bool, now: int)
      requires Valid() && InGrid(t)
      modifies mouse, items, rng
      ensures Valid()
      ensures mouse.alert == old(mouse.alert)
      ensures MouseState() == Arrived(old(MouseState()), t, Outcome(old(items.items), t), usedCherry, wrapWalls, now, highScore)
      ensures EatenAt(old(items.items), t, items.items)
      ensures Outcome(old(items.items), t) != Ate(Apple) ==> rng.drawn == old(rng.drawn)
      ensures Outcome(old(items.items), t) == Ate(Apple) ==> Restocked(rng.tape, old(rng.drawn), rng.drawn, |old(items.items)|, snake.body, items.items)
    {
      OutcomeTargetOnBoard(items.items, t);
      var e := EatAtForMouse(t, now);
      Settle(if e.AtePear? then e.target else t, usedCherry);
    }

    /** The mouse steps onto `dest`, spending its cherry when `usedCherry`. */
    method Settle(dest: Cell, usedCherry: bool)
      requires Valid() && InGrid(dest)
      modifies mouse
      ensures Valid()
      ensures MouseState() == old(MouseState()).(at := dest, cherryArmed := old(mouse.cherryArmed) && !usedCherry)
      ensures mouse.alert == old(mouse.alert)
    {
      mouse.x, mouse.y := dest.x, dest.y;
      if usedCherry {
        mouse.cherryArmed := false;
      }
    }

    /** `tickMouse`: nothing while paused or over; otherwise pick a step and make it. */
    method TickMouse(now: int) returns (ghost mv: Dir, ghost picked: nat)
      requires Valid()
      modifies mouse, items, rng
      ensures Valid()
      ensures !playing ==> unchanged(mouse, items, rng)
      ensures playing ==>
        var p := Cell(old(mouse.x), old(mouse.y));
        && mouse.alert == (ChebyshevDistance(p, snake.body[0], wrapWalls) <= MOUSE_ALERT_DIST)
        && MouseChoice(p, snake.body[0], mouse.alert, !wrapWalls && old(mouse.cherryArmed), wrapWalls, snake.body,
                       ItemCells(old(items.items)), rng.tape, old(rng.drawn), picked, mv)
        && MouseState() == Moved(old(MouseState()), mv, wrapWalls, snake.body, old(items.items), now, highScore)
        && Foraged(p, mv, wrapWalls, old(mouse.cherryArmed), snake.body, old(items.items), items.items, rng.tape, picked, rng.drawn)
    {
      if !playing {
        mv, picked := Dir(0, 0), rng.drawn;
        return;
      }
      var d := PickMouseMove();
      mv, picked := d, rng.drawn;
      MoveMouse(d, now);
    }

    /**
     * `tick`: commit the pending direction, leave a walled board only on an armed cherry
     * (or end the game), eat at the target (a pear teleports the head), cut the body on a
     * self-collision at the cost of a hit point (or end the game), push the head, catch the
     * mouse, drop the tail unless something was eaten, and disarm a cherry armed before.
     */
    method Tick(now: int) returns (ghost fed: nat, ghost caught: bool)
      requires Valid()
      modifies this, snake, mouse, items, rng
      ensures Valid()
      ensures snake == old(snake) && wrapWalls == old(wrapWalls)
      ensures State() == Ticked(old(State()), old(items.items), Cell(old(mouse.x), old(mouse.y)), old(mouse.hp),
                                old(snake.nextDir), wrapWalls)
      ensures !old(playing) ==> unchanged(this, old(snake), old(mouse), items, rng)
      ensures old(playing) ==> snake.dir == old(snake.nextDir) && snake.nextDir == old(snake.nextDir)
      ensures old(playing) && HeadTarget(old(snake.body[0]), old(snake.nextDir), wrapWalls, old(cherrySteps) > 0).None? ==>
        && unchanged(items, rng)
        && slowAmount == old(slowAmount) && slowUntil == old(slowUntil)
      ensures old(playing) && HeadTarget(old(snake.body[0]), old(snake.nextDir), wrapWalls, old(cherrySteps) > 0).Some? ==>
        var t := HeadTarget(old(snake.body[0]), old(snake.nextDir), wrapWalls, old(cherrySteps) > 0).value;
        && EatenAt(old(items.items), t, items.items)
        && (Outcome(old(items.items), t) == Ate(Banana) ==>
              slowAmount == BANANA_SLOW && slowUntil == now + BananaDuration(old(highScore)))
        && (Outcome(old(items.items), t) != Ate(Banana) ==> slowAmount == old(slowAmount) && slowUntil == old(slowUntil))
        && caught == (playing && Cell(old(mouse.x), old(mouse.y)) == LandingCell(old(items.items), t))
        && (Outcome(old(items.items), t) != Ate(Apple) ==> fed == old(rng.drawn))
        && (Outcome(old(items.items), t) == Ate(Apple) ==>
              Restocked(rng.tape, old(rng.drawn), fed, |old(items.items)|, old(snake.body), items.items))
        && (caught ==>
              Sampled(rng.tape, fed, rng.drawn, Occupied(items.items, CatchBody(old(snake.body), LandingCell(old(items.items), t))),
                      Cell(mouse.x, mouse.y)))
      ensures !caught ==> mouse == old(mouse) && unchanged(mouse) && rng.drawn == fed
      ensures caught && old(mouse.hp) > 0 ==>
        && mouse == old(mouse) && mouse.hp == old(mouse.hp) - 1 && !mouse.cherryArmed && mouse.boostUntil == 0
        && mouse.boostAmount == old(mouse.boostAmount) && mouse.alert == old(mouse.alert)
      ensures caught && old(mouse.hp) == 0 ==>
        && fresh(mouse) && mouse.hp == 0 && !mouse.cherryArmed && mouse.boostUntil == 0 && mouse.boostAmount == 0
        && !mouse.alert
    {
      fed, caught := rng.drawn, false;
      if !playing {
        return;
      }
      var hadCherry := cherrySteps > 0;
      var target := HeadTarget(snake.body[0], snake.nextDir, wrapWalls, hadCherry);
      if target.None? {
        HitWall();
        return;
      }
      fed, caught := Enter(target.value, hadCherry, now);
    }

    /** `tick` on a walled board with no cherry armed: commit the direction, and the game ends. */
    method HitWall()
      requires Valid()
      modifies this, snake
      ensures Valid()
      ensures snake == old(snake) && wrapWalls == old(wrapWalls) && mouse == old(mouse)
      ensures slowAmount == old(slowAmount) && slowUntil == old(slowUntil)
      ensures snake.dir == old(snake.nextDir) && snake.nextDir == old(snake.nextDir)
      ensures State() == Ended(old(State()))
    {
      Commit();
      GameOver();
    }

    /**
     * The rest of `tick` once the head's target `t` is known to be on the board: commit the
     * pending direction, eat, land, and disarm a cherry armed before the tick.
     */
    method Enter(t: Cell, hadCherry: bool, now: int) returns (ghost fed: nat, ghost caught: bool)
      requires Valid() && InGrid(t) && playing
      requires hadCherry == (cherrySteps > 0)
      modifies this, snake, mouse, items, rng
      ensures Valid()
      ensures snake == old(snake) && wrapWalls == old(wrapWalls)
      ensures snake.dir == old(snake.nextDir) && snake.nextDir == old(snake.nextDir)
      ensures State() == Entering(old(State()), old(items.items), Cell(old(mouse.x), old(mouse.y)), old(mouse.hp), t, wrapWalls)
      ensures EatenAt(old(items.items), t, items.items)
      ensures Outcome(old(items.items), t) == Ate(Banana) ==>
        slowAmount == BANANA_SLOW && slowUntil == now + BananaDuration(old(highScore))
      ensures Outcome(old(items.items), t) != Ate(Banana) ==> slowAmount == old(slowAmount) && slowUntil == old(slowUntil)
      ensures caught == (playing && Cell(old(mouse.x), old(mouse.y)) == LandingCell(old(items.items), t))
      ensures !caught ==> mouse == old(mouse) && unchanged(mouse)
      ensures caught && old(mouse.hp) > 0 ==>
        && mouse == old(mouse) && mouse.hp == old(mouse.hp) - 1 && !mouse.cherryArmed && mouse.boostUntil == 0
        && mouse.boostAmount == old(mouse.boostAmount) && mouse.alert == old(mouse.alert)
      ensures caught && old(mouse.hp) == 0 ==>
        && fresh(mouse) && mouse.hp == 0 && !mouse.cherryArmed && mouse.boostUntil == 0 && mouse.boostAmount == 0
        && !mouse.alert
      ensures Outcome(old(items.items), t) != Ate(Apple) ==> fed == old(rng.drawn)
      ensures Outcome(old(items.items), t) == Ate(Apple) ==>
        Restocked(rng.tape, old(rng.drawn), fed, |old(items.items)|, old(snake.body), items.items)
      ensures !caught ==> rng.drawn == fed
      ensures caught ==>
        Sampled(rng.tape, fed, rng.drawn, Occupied(items.items, CatchBody(old(snake.body), LandingCell(old(items.items), t))),
                Cell(mouse.x, mouse.y))
    {
      NotOwnReverse(snake.nextDir);
      snake.dir := snake.nextDir;
      OutcomeTargetOnBoard(items.items, t);
      var pre := EatAtForSnake(t, now);
      fed := rng.drawn;
      ghost var eaten := items.items;
      assert pre == Ate(Apple) ==> Restocked(rng.tape, old(rng.drawn), fed, |old(items.items)|, old(snake.body), eaten);
      var c := if pre.AtePear? then pre.target else t;
      var over;
      over, caught := Land(c, pre != NoItem, hadCherry, now);
    }

    /** The start of `tick`: the pending direction becomes the committed one. */
    method Commit()
      requires Valid()
      modifies snake
      ensures Valid()
      ensures snake.dir == old(snake.nextDir) && snake.nextDir == old(snake.nextDir) && snake.body == old(snake.body)
    {
      NotOwnReverse(snake.nextDir);
      snake.dir := snake.nextDir;
    }

    /**
     * The landing part of `tick` once the head's cell `c` is known and eaten from: cut the
     * body at a self-collision for a hit point (with none left the game ends), push the
     * head, catch the mouse, and drop the tail unless the snake ate (`ate`) or killed the
     * mouse. Returns whether the game ended.
     */
    method Land(c: Cell, ate: bool, hadCherry: bool, now: int) returns (over: bool, ghost caught: bool)
      requires Valid() && InGrid(c) && playing && snake.dir == snake.nextDir
      requires !ate ==> Outcome(items.items, c) == NoItem
      modifies this, snake, mouse, items, rng
      ensures Valid()
      ensures snake == old(snake) && wrapWalls == old(wrapWalls)
      ensures snake.dir == old(snake.dir) && snake.nextDir == old(snake.nextDir)
      ensures slowAmount == old(slowAmount) && slowUntil == old(slowUntil)
      ensures State() == Spent(Landing(old(State()), c, ate, Cell(old(mouse.x), old(mouse.y)), old(mouse.hp)), hadCherry)
      ensures over == !playing
      ensures playing ==> snake.body[0] == c
      ensures items.items == old(items.items)
      ensures caught == (playing && Cell(old(mouse.x), old(mouse.y)) == c)
      ensures !caught ==> mouse == old(mouse) && unchanged(mouse) && rng.drawn == old(rng.drawn)
      ensures caught && old(mouse.hp) > 0 ==>
        && mouse == old(mouse) && mouse.hp == old(mouse.hp) - 1 && !mouse.cherryArmed && mouse.boostUntil == 0
        && mouse.boostAmount == old(mouse.boostAmount) && mouse.alert == old(mouse.alert)
      ensures caught && old(mouse.hp) == 0 ==>
        && fresh(mouse) && mouse.hp == 0 && !mouse.cherryArmed && mouse.boostUntil == 0 && mouse.boostAmount == 0
        && !mouse.alert
      ensures caught ==>
        Sampled(rng.tape, old(rng.drawn), rng.drawn, Occupied(items.items, CatchBody(old(snake.body), c)), Cell(mouse.x, mouse.y))
    {
      ghost var s0 := State();
      var cut := CollisionIndex(snake.body, c);
      if cut.Some? && hp <= 0 {
        GameOver();
        return true, false;
      }
      if cut.Some? {
        SetHP(hp - 1);
        snake.body := snake.body[..cut.value];
      }
      LandingSteps(s0, c, ate, Cell(old(mouse.x), old(mouse.y)), old(mouse.hp), snake.body);
      var killed := PushHead(c, ate, hadCherry, now);
      over, caught := false, Cell(old(mouse.x), old(mouse.y)) == c;
    }

    /**
     * The rest of `Land` once any collision cut is done: push the head onto `c`, catch the
     * mouse, and drop the tail unless the snake ate or killed the mouse. Returns whether the
     * mouse was killed.
     */
    method PushHead(c: Cell, ate: bool, hadCherry: bool, now: int) returns (killed: bool)
      requires Valid() && InGrid(c) && playing && snake.dir == snake.nextDir
      requires !ate ==> Outcome(items.items, c) == NoItem
      modifies this, snake, mouse, items, rng
      ensures Valid()
      ensures killed == (Cell(old(mouse.x), old(mouse.y)) == c && old(mouse.hp) == 0)
      ensures snake.body == Advance(old(snake.body), c, None, ate || killed)
      ensures snake == old(snake) && wrapWalls == old(wrapWalls)
      ensures snake.dir == old(snake.dir) && snake.nextDir == old(snake.nextDir)
      ensures slowAmount == old(slowAmount) && slowUntil == old(slowUntil)
      ensures playing && hp == old(hp) && highScore == old(highScore)
      ensures cherrySteps == (if hadCherry then 0 else old(cherrySteps))
      ensures score == old(score) + (if killed then 5 else 0)
      ensures State() == Spent(old(State()).(body := Advance(old(snake.body), c, None, ate || killed),
                                             score := old(score) + (if killed then 5 else 0)), hadCherry)
      ensures items.items == old(items.items)
      ensures Cell(old(mouse.x), old(mouse.y)) != c ==> mouse == old(mouse) && unchanged(mouse) && rng.drawn == old(rng.drawn)
      ensures Cell(old(mouse.x), old(mouse.y)) == c && old(mouse.hp) > 0 ==>
        && mouse == old(mouse) && mouse.hp == old(mouse.hp) - 1 && !mouse.cherryArmed && mouse.boostUntil == 0
        && mouse.boostAmount == old(mouse.boostAmount) && mouse.alert == old(mouse.alert)
      ensures killed ==>
        && fresh(mouse) && mouse.hp == 0 && !mouse.cherryArmed && mouse.boostUntil == 0 && mouse.boostAmount == 0
        && !mouse.alert
      ensures Cell(old(mouse.x), old(mouse.y)) == c ==>
        Sampled(rng.tape, old(rng.drawn), rng.drawn, Occupied(items.items, [c] + old(snake.body)), Cell(mouse.x, mouse.y))
    {
      snake.body := [c] + snake.body;
      killed := CatchMouse(c);
      Trim(c, ate || killed, hadCherry, now);
    }

    /**
     * The end of `tick` once the head is on `c` and the mouse is dealt with: unless the
     * snake grew (`grow`), look at `c` again and, finding nothing there, drop the tail;
     * then spend a cherry armed before the step (`hadCherry`).
     */
    method Trim(c: Cell, grow: bool, hadCherry: bool, now: int)
      requires Valid() && |snake.body| >= 2 && snake.body[0] == c
      requires !grow ==> Outcome(items.items, c) == NoItem
      modifies this, snake, items, rng
      ensures Valid()
      ensures snake.body == if grow then old(snake.body) else old(snake.body)[..|old(snake.body)| - 1]
      ensures snake == old(snake) && mouse == old(mouse) && wrapWalls == old(wrapWalls)
      ensures snake.dir == old(snake.dir) && snake.nextDir == old(snake.nextDir)
      ensures slowAmount == old(slowAmount) && slowUntil == old(slowUntil)
      ensures playing == old(playing) && score == old(score) && hp == old(hp) && highScore == old(highScore)
      ensures cherrySteps == (if hadCherry then 0 else old(cherrySteps))
      ensures items.items == old(items.items) && rng.drawn == old(rng.drawn)
    {
      if !grow {
        var post := EatAtForSnake(c, now);
        assert post == NoItem;
        if !post.Ate? {
          snake.body := snake.body[..|snake.body| - 1];
        }
      }
      if hadCherry {
        cherrySteps := 0;
      }
    }

    /**
     * The mouse part of `tick`, after the head has moved onto `c`: a mouse with hit points
     * loses one and reappears elsewhere, disarmed and unboosted; one without is eaten for
     * five points and replaced by a new mouse.
     */
    method CatchMouse(c: Cell) returns (killed: bool)
      requires Valid()
      modifies this, mouse, rng
      ensures Valid()
      ensures killed == (Cell(old(mouse.x), old(mouse.y)) == c && old(mouse.hp) == 0)
      ensures score == old(score) + (if killed then 5 else 0)
      ensures hp == old(hp) && cherrySteps == old(cherrySteps) && playing == old(playing)
      ensures slowAmount == old(slowAmount) && slowUntil == old(slowUntil) && highScore == old(highScore)
      ensures snake == old(snake) && wrapWalls == old(wrapWalls)
      ensures Cell(old(mouse.x), old(mouse.y)) != c ==> mouse == old(mouse) && unchanged(mouse, rng)
      ensures Cell(old(mouse.x), old(mouse.y)) == c && old(mouse.hp) > 0 ==>
        && mouse == old(mouse) && mouse.hp == old(mouse.hp) - 1
        && !mouse.cherryArmed && mouse.boostUntil == 0 && mouse.boostAmount == old(mouse.boostAmount)
        && mouse.alert == old(mouse.alert)
        && Sampled(rng.tape, old(rng.drawn), rng.drawn, Occupied(items.items, snake.body), Cell(mouse.x, mouse.y))
      ensures killed ==>
        && fresh(mouse) && mouse.hp == 0 && !mouse.cherryArmed && mouse.boostUntil == 0 && mouse.boostAmount == 0
        && !mouse.alert
        && Sampled(rng.tape, old(rng.drawn), rng.drawn, Occupied(items.items, snake.body), Cell(mouse.x, mouse.y))
    {
      killed := false;
      if mouse.x == c.x && mouse.y == c.y {
        if mouse.hp > 0 {
          mouse.hp := mouse.hp - 1;
          var m2 := SpawnMouse();
          mouse.x, mouse.y := m2.x, m2.y;
          mouse.cherryArmed := false;
          mouse.boostUntil := 0;
        } else {
          IncrementScore(5);
          mouse := SpawnMouse();
          killed := true;
        }
      }
    }
  }

  /**
   * The stages of `pickMouseMove` after the cherry escape and the flee step: they are
   * reached off the edge escape, and only when the stage that applies has no safe step.
   */
  predicate Forages(p: Cell, alert: bool, edgeMode: bool, wrap: bool, body: seq<Cell>) {
    !(edgeMode && OnEdgeCell(p)) && !((edgeMode || alert) && CanStep(p, wrap, body))
  }

  /**
   * What `pickMouseMove` may choose from the mouse's cell `p` (head at `head`, items on
   * `goals`), and the draws it takes, the oracle's cursor moving from `from` to `to`:
   * with the cherry escape on (`edgeMode`), the straight exit off an edge cell for one
   * draw, or inside the safe step nearest an edge; when alerted, the safe step farthest
   * from the head; then a step from which an item stays reachable (the breadth-first
   * search's first step); and finally the
   * random safe step of the draw at `from`, or standing still with no draw. Outside the
   * edge escape, the mouse stands still exactly when no step is safe.
   */
  ghost predicate MouseChoice(p: Cell, head: Cell, alert: bool, edgeMode: bool, wrap: bool, body: seq<Cell>,
                              goals: set<Cell>, tape: nat -> Unit, from: nat, to: nat, mv: Dir)
  {
    && -1 <= mv.x <= 1 && -1 <= mv.y <= 1
    && from <= to <= from + 1
    && (edgeMode && OnEdgeCell(p) ==> mv == EscapeDir(p) && to == from + 1)
    && (edgeMode && !OnEdgeCell(p) && CanStep(p, false, body) ==>
          && to == from
          && exists j :: 0 <= j < |Dirs| && mv == Dirs[j] && NearestEdgeStep(p, body, j))
    && (!edgeMode && alert && CanStep(p, wrap, body) ==>
          && to == from
          && exists j :: 0 <= j < |Dirs| && mv == Dirs[j] && FleeStep(p, head, wrap, body, j))
    && (Forages(p, alert, edgeMode, wrap, body) && p !in goals && Reaches(p, goals, wrap, body) ==>
          && to == from
          && mv in Dirs
          && SafeForMouse(Step(p, mv, wrap), wrap, body)
          && Reaches(Step(p, mv, wrap), goals, wrap, body))
    && (Forages(p, alert, edgeMode, wrap, body) && !(p !in goals && Reaches(p, goals, wrap, body)) ==>
          && (forall u: Unit :: u == tape(from) ==> mv == RandomSafePick(p, wrap, body, u))
          && to == from + (if CanStep(p, wrap, body) then 1 else 0))
    && (!(edgeMode && OnEdgeCell(p)) ==>
          && (mv == Dir(0, 0) <==> !CanStep(p, wrap, body))
          && (mv != Dir(0, 0) ==> mv in Dirs && SafeForMouse(Step(p, mv, wrap), wrap, body)))
  }

  /**
   * The choice of `pickMouseMove` from the mouse's cell `p` once the alert flag is set: the
   * cherry escape when `edgeMode` (walls on, cherry armed), then the flee step when alerted,
   * then the forage step or a random safe step.
   */
  method DecideMove(p: Cell, head: Cell, alert: bool, edgeMode: bool, wrap: bool, body: seq<Cell>,
                    goals: set<Cell>, rng: Rng) returns (mv: Dir)
    requires InGrid(p) && InGrid(head) && (edgeMode ==> !wrap)
    modifies rng
    ensures MouseChoice(p, head, alert, edgeMode, wrap, body, goals, rng.tape, old(rng.drawn), rng.drawn, mv)
  {
    DirsAreUnit();
    if edgeMode {
      var escape := EscapeMove(p, body, rng);
      if escape.Some? {
        return escape.value;
      }
    }
    if alert {
      var best := Flee(p, head, wrap, body);
      if best.Some? {
        mv := Dirs[best.value];
        assert FleeStep(p, head, wrap, body, best.value);
        return;
      }
    }
    mv := ForageMove(p, goals, wrap, body, rng);
  }

  /**
   * The cherry branch of `pickMouseMove`: on the edge, a random pick among the exits (one
   * draw; the pick is always the straight exit); inside, the safe step nearest an edge;
   * None when no step is safe.
   */
  method EscapeMove(p: Cell, body: seq<Cell>, rng: Rng) returns (mv: Option<Dir>)
    requires InGrid(p)
    modifies rng
    ensures OnEdgeCell(p) ==> mv == Some(EscapeDir(p)) && rng.drawn == old(rng.drawn) + 1
    ensures !OnEdgeCell(p) ==> rng.drawn == old(rng.drawn)
    ensures !OnEdgeCell(p) ==> (mv.None? <==> !CanStep(p, false, body))
    ensures !OnEdgeCell(p) && mv.Some? ==>
      exists j :: 0 <= j < |Dirs| && mv.value == Dirs[j] && NearestEdgeStep(p, body, j)
  {
    var cand := EscapeCandidates(p);
    if cand != [] {
      var k := rng.Below(|cand|);
      EscapePick(p, k);
      return Some(cand[k]);
    }
    EscapeIsStraight(p);
    var best := NearestEdge(p, body);
    if best.Some? {
      return Some(Dirs[best.value]);
    }
    return None;
  }

  /**
   * The last two stages of `pickMouseMove`: a step from which an item stays reachable (the
   * breadth-first search's first step) when there is one, else a random safe step (one
   * draw), else standing still.
   */
  method ForageMove(p: Cell, goals: set<Cell>, wrap: bool, body: seq<Cell>, rng: Rng) returns (mv: Dir)
    requires InGrid(p)
    modifies rng
    ensures old(rng.drawn) <= rng.drawn <= old(rng.drawn) + 1
    ensures mv == Dir(0, 0) <==> !CanStep(p, wrap, body)
    ensures mv != Dir(0, 0) ==> mv in Dirs && SafeForMouse(Step(p, mv, wrap), wrap, body)
    ensures p !in goals && Reaches(p, goals, wrap, body) ==>
      && rng.drawn == old(rng.drawn) && mv != Dir(0, 0)
      && Reaches(Step(p, mv, wrap), goals, wrap, body)
    ensures !(p !in goals && Reaches(p, goals, wrap, body)) ==>
      && mv == RandomSafePick(p, wrap, body, rng.tape(old(rng.drawn)))
      && rng.drawn == old(rng.drawn) + (if CanStep(p, wrap, body) then 1 else 0)
  {
    var step := PathStep(p, goals, wrap, body);
    if step.Some? {
      return step.value;
    }
    RandomSafePickSafe(p, wrap, body, rng.tape(rng.drawn));
    mv := RandomSafeMove(p, wrap, body, rng);
  }

  /**
   * The forage stage of `pickMouseMove`: a non-zero step from which an item stays reachable
   * (the breadth-first search's first step), re-checked for safety, or None.
   */
  method PathStep(p: Cell, goals: set<Cell>, wrap: bool, body: seq<Cell>) returns (step: Option<Dir>)
    requires InGrid(p)
    ensures step.Some? ==> step.value in Dirs && SafeForMouse(Step(p, step.value, wrap), wrap, body)
    ensures step.Some? ==> CanStep(p, wrap, body) && Reaches(Step(p, step.value, wrap), goals, wrap, body)
    ensures step.Some? <==> p !in goals && Reaches(p, goals, wrap, body)
  {
    assert Origin(p, wrap) == p;
    var s := FindPathStep(p, goals, wrap, body);
    if s.Some? && s.value != Dir(0, 0) {
      var n := Step(p, s.value, wrap);
      if SafeForMouse(n, wrap, body) {
        var j :| 0 <= j < |Dirs| && Dirs[j] == s.value;
        assert SafeStep(p, j, wrap, body);
        return s;
      }
    }
    return None;
  }

  /**
   * The fallback pick of `pickMouseMove` for the draw `u`: the safe step that `u` scales
   * to in the source's order, or standing still when no step is safe.
   */
  function RandomSafePick(p: Cell, wrap: bool, body: seq<Cell>, u: Unit): Dir {
    var cand := SafeMoves(p, wrap, body);
    if cand == [] then Dir(0, 0)
    else cand[Scale(u, |cand|)]
  }

  /** The fallback pick stands still exactly when no step is safe, and is otherwise safe. */
  lemma RandomSafePickSafe(p: Cell, wrap: bool, body: seq<Cell>, u: Unit)
    ensures var mv := RandomSafePick(p, wrap, body, u);
      && (mv == Dir(0, 0) <==> !CanStep(p, wrap, body))
      && (mv != Dir(0, 0) ==> mv in Dirs && SafeForMouse(Step(p, mv, wrap), wrap, body))
  {
    SafeMovesIndex(p, wrap, body);
    var cand := SafeMoves(p, wrap, body);
    if cand != [] {
      PickedSafe(p, wrap, body, Scale(u, |cand|));
    }
  }

  /**
   * The fallback of `pickMouseMove`: the safe step picked by the next draw, or standing
   * still, with no draw, when no step is safe.
   */
  method RandomSafeMove(p: Cell, wrap: bool, body: seq<Cell>, rng: Rng) returns (mv: Dir)
    modifies rng
    ensures rng.drawn == old(rng.drawn) + (if CanStep(p, wrap, body) then 1 else 0)
    ensures mv == RandomSafePick(p, wrap, body, rng.tape(old(rng.drawn)))
  {
    SafeMovesIndex(p, wrap, body);
    var cand := SafeMoves(p, wrap, body);
    if cand == [] {
      return Dir(0, 0);
    }
    var k := rng.Below(|cand|);
    mv := cand[k];
  }

  lemma PickedSafe(p: Cell, wrap: bool, body: seq<Cell>, k: nat)
    requires k < |SafeMoves(p, wrap, body)|
    ensures var d := SafeMoves(p, wrap, body)[k];
      d in Dirs && d != Dir(0, 0) && SafeForMouse(Step(p, d, wrap), wrap, body)
  {
    DirsAreUnit();
    assert SafeMoves(p, wrap, body)[k] in SafeMoves(p, wrap, body);
  }

  /** The cherry escape is in force: walls are solid and the mouse carries a cherry. */
  predicate EdgeMode(g: Game)
    reads g, g.mouse
  {
    !g.wrapWalls && g.mouse.cherryArmed
  }
}
