# Snake game simulation, modelled in Dafny

This project models the game simulation at the heart of the browser Snake game in
`src/snake.js`. In that game a snake and a mouse share a 24×24 board: the snake eats fruit
and hunts the mouse, and the mouse forages for the same fruit while fleeing the snake. The
model covers:

- the board geometry: torus and Chebyshev distances, the JavaScript `%` used to wrap
  coordinates, and the mouse's safety test;
- the item registry `ItemsManager`: rejection-sampled spawning, keeping an apple on the
  board, at most one group of special fruit, pears that come and go in pairs, and the
  registry's half of eating;
- the session state of `Game`: score, hit points, the slow-down, the one-step cherry wrap,
  the direction guard and the high score kept at game over;
- the snake's step `tick`, on a `Game` class whose methods change the snake, the mouse and
  the registry in place;
- the mouse's decision procedure `pickMouseMove`: cherry escape, flee, breadth-first
  forage, random fallback; and its step `tickMouse`;
- the tick rates of snake and mouse, and the banana's duration.

The files are:

| file | module | contents |
|---|---|---|
| `config.dfy` | `Config`, `Wrappers` | the tuning constants, `Option` |
| `geometry.dfy` | `Geometry` | cells and steps, `JsRem`/`Wrap`, distances, `SafeForMouse`, cell keys |
| `random.dfy` | `Random` | the injected random oracle `Rng` |
| `rates.dfy` | `Rates` | `BaseCPS`, `CPS`, `MouseCPS`, `BananaDuration` |
| `items.dfy` | `Items` | items, the registry invariant and the `ItemsManager` class |
| `mouse_agent.dfy` | `MouseAgent` | escape, nearest-edge, flee and breadth-first search |
| `engine.dfy` | `Engine` | `SnakeModel`, `MouseModel`, the `Game` class and the pure `Session` model of a tick |

How the outside world is represented:

- `Math.random` becomes an `Rng` object: a fixed tape of reals in [0, 1) and a cursor that
  every draw advances. `Math.floor(Math.random() * n)` is `Rng.Below(n)`, so each contract
  can say exactly which draws a call used.
- `performance.now()` becomes an integer parameter `now`, in milliseconds.
- The high score held by the storage service becomes the field `Game.highScore`.
- Tick rates are `real`, so the `CPS_INC` of 0.5 is exact.
- Cells are compared as values. The source files cells in sets under the string key `x,y`;
  `Geometry.KeyInjective` proves that distinct cells have distinct keys, so the two agree.

The snake's step is specified twice. First as pure functions on a `Session` record (body,
score, hit points, cherry counter, playing flag, high score): `Engine.Ticked` is built from
`HeadTarget`, `AfterEating`, `Landing` and `Entering`. Then `Engine.Game.Tick` proves that
the imperative step produces exactly `Ticked` of the old state, and keeps the class
invariant `Valid()`. The lemmas about `Ticked` and `Entering` state what the game promises:
the bounds of the state, game over at a wall, the collision cut, the length law and the
cherry counter.

Where the prose design of the game and the code disagree, the model follows the code:

- The design says the snake's cherry counter is cleared at the end of every tick. The code
  (`src/snake.js:1547`, `1604`) clears it only when it was armed at the start of the tick.
  So a cherry eaten on a tick stays armed for the next one (`Engine.EnteringCherry`).
- The design says the mouse abandons a move whose final cell is unsafe. The code checks
  safety before eating (`src/snake.js:1518`) and does not re-check the cell a pear
  teleports it to. `Engine.Game.MoveMouse` follows the code.
- The design describes a ranked, tie-broken choice among the cherry exits. In the code the
  candidates always reduce to the single cardinal step straight off the nearest side, x
  first (`MouseAgent.EscapeIsStraight`), and the random pick among them is a draw over one
  element. As a consequence the axis lock in `tickMouse` never changes the wrapped cell
  (`Engine.CherryWrapIsStraight`).

## Model

| member | source | states |
|---|---|---|
| Geometry.JsRem | src/snake.js:1311 | JavaScript's remainder: strictly between -n and n, carrying the sign of the dividend |
| Geometry.Wrap | src/snake.js:1311 | `(v + GRID) % GRID` folds any coordinate from -GRID upward onto the board: one board-width below it gains GRID, one board-width above it loses GRID, and on-board coordinates are left alone |
| Geometry.TorusDelta | src/snake.js:1319-1323 | the torus distance never exceeds the direct one and, for on-board coordinates, lies in [0, GRID/2] |
| Geometry.TorusDeltaIsRingDistance | src/snake.js:1319-1323 | for a, b on the board, `min(|a-b|, N-|a-b|)` is the distance between their residue classes: no shifted copy of b is closer, and one of the three nearest copies attains it |
| Geometry.TorusDeltaSymmetric | src/snake.js:1319-1323 | the torus distance is symmetric |
| Geometry.ChebyshevDistance | src/snake.js:1324-1331 | the distance is non-negative and zero exactly on equal cells; on the torus and on the board it is at most GRID/2 |
| Geometry.ChebyshevSymmetric | src/snake.js:1324-1331 | Chebyshev distance is symmetric in both modes |
| Geometry.TorusNeverExceedsDirect | src/snake.js:1324-1331 | the torus variant never exceeds the direct distance |
| Geometry.SafeForMouseOnBoard | src/snake.js:1309-1316 | a cell on the board is safe for the mouse exactly when no body segment lies on it, whatever the wrap mode |
| Geometry.KeyInjective | src/snake.js:477-479 | different cells have different `x,y` keys, so key sets are cell sets |
| Random.Scale | src/snake.js:481 | `Math.floor(r * n)` of a draw in [0, 1) is an index in [0, n) |
| Random.Rng.constructor | src/snake.js:468-470 | a fresh oracle over the given tape, nothing drawn yet |
| Random.Rng.Next | src/snake.js:549 | one `Math.random()` call returns the next tape entry and advances the cursor by one |
| Random.Rng.Below | src/snake.js:535 | `Math.floor(rng() * n)` is below n, is the scaled next draw, and uses exactly one draw |
| Rates.BaseCPS | src/snake.js:1178-1180 | the base rate is never above MAX_CPS, never below BASE_CPS for a non-negative score, and is either the cap or `BASE_CPS + score * CPS_INC` |
| Rates.CPS | src/snake.js:1181-1185 | the snake's rate is never below MIN_CPS; it subtracts the slow-down exactly while `slowUntil` is set and still ahead of `now`, otherwise it is the floored base rate |
| Rates.NoSlowMeansBaseRate | src/snake.js:1183-1185 | with no active slow-down the rate equals the base rate |
| Rates.SlowNeverSpeedsUp | src/snake.js:1183-1185 | a non-negative slow-down keeps the rate within [MIN_CPS, base rate] |
| Rates.BaseCPSMonotone | src/snake.js:1179 | a higher score never gives a lower base rate |
| Rates.BaseCPSSaturates | src/snake.js:1179 | from a score of 20 on the base rate is at MAX_CPS |
| Rates.MouseCPS | src/snake.js:1196-1205 | the mouse's rate always lies in [MIN_MOUSE_CPS, MAX_MOUSE_CPS]; it is BASE_MOUSE_CPS without an active boost, and base plus boost when the boost is active and in range |
| Rates.BananaDuration | src/snake.js:570-574 | the banana lasts at most BANANA_MAX_MS, at least BANANA_BASE_MS for a non-negative record, and is either the cap or base plus 150 ms per point |
| Rates.BananaDurationMonotone | src/snake.js:571-574 | a better record never shortens the banana |
| Items.IsSpecial | src/snake.js:526-529 | every kind but the apple is special |
| Items.FindAt | src/snake.js:558 | `findIndex` returns the first item on the cell, and None exactly when no item lies there |
| Items.Specials | src/snake.js:530-532 | holds exactly the special items of the list |
| Items.RemoveAt | src/snake.js:562 | `splice(i, 1)` shortens the list by one |
| Items.RemovePears | src/snake.js:586 | the filter keeps exactly the items that are not pears of the pair, and removes as many items as the pair had pears |
| Items.PartnerIndex | src/snake.js:585 | `find` returns the first other pear of the pair, and None exactly when the eaten pear has no partner |
| Items.OutcomeTargetOnBoard | src/snake.js:587 | a pear's teleport target, the partner's cell or the eaten cell, is on the board |
| Items.DrawnCell | src/snake.js:480-482 | the cell `rndCell` builds from two draws is on the board |
| Items.EdgeCell | src/snake.js:501-515 | the cell built from a side draw and an offset draw is on the board and on its edge |
| Items.HasAppleIffCount | src/snake.js:521 | `some(apple)` holds exactly when the apple count is positive |
| Items.SpecialPresentIff | src/snake.js:530-532 | `specialPresent` holds exactly when the list of special items is non-empty |
| Items.RemovePearsCounts | src/snake.js:586 | removing a pair keeps every apple and removes the pair from the special items alike |
| Items.PearHasPartner | src/snake.js:583-587 | under the registry invariant (one apple, one group of specials) every pear has its partner in the list |
| Items.RemoveApple | src/snake.js:561-562 | splicing out the apple leaves no apple and the special items unchanged |
| Items.RemoveSingleSpecial | src/snake.js:568-594 | eating the banana, orange or cherry leaves one apple, no special item, and the registry invariant |
| Items.PairFiltered | src/snake.js:586 | a pair of pears filtered by its own id leaves nothing |
| Items.RemovePair | src/snake.js:583-588 | eating a pear removes its whole pair and leaves one apple, no special item, and the registry invariant |
| Items.AppleRestocked | src/snake.js:561-566 | after the apple is spliced out, `ensureApple` and `maybeSpawnSpecial` restore the registry invariant, the new apple sits where the old list ended, and nothing is added when a special was present |
| Items.Restock | src/snake.js:564-565 | the list without its apple, plus one new apple, plus what `maybeSpawnSpecial` adds, satisfies the registry invariant |
| Items.NewSpecialsAreAGroup | src/snake.js:533-556 | whatever the 4-way pick, `maybeSpawnSpecial` adds no apple and exactly one group: one banana, orange or cherry, or two pears of one pair |
| Items.LoneApple | src/snake.js:1131-1132 | a list cleared and given one apple satisfies the registry invariant |
| Items.ItemsManager.constructor | src/snake.js:468-470 | a registry starts empty over the given oracle |
| Items.ItemsManager.Clear | src/snake.js:474-476 | `clear` empties the list |
| Items.ItemsManager.RndCell | src/snake.js:480-482 | x from one draw, y from the next: the drawn cell, using two draws |
| Items.ItemsManager.OccupiedSet | src/snake.js:483-487 | the occupied set holds exactly the item cells and the body cells |
| Items.ItemsManager.SpawnAtEmpty | src/snake.js:488-496 | the result is on the board and is the last of 1 to GRID² two-draw attempts; every earlier attempt was occupied, and it is occupied only when the guard ran out |
| Items.ItemsManager.EdgeDraw | src/snake.js:501-515 | one edge attempt: a side from one draw and an offset from the next, the edge cell those two draws give |
| Items.ItemsManager.SpawnCherryAtEdge | src/snake.js:497-519 | the result is the first free edge cell among up to GRID² attempts; when all are occupied, it is a `spawnAtEmpty` result drawn after them |
| Items.ItemsManager.EnsureApple | src/snake.js:520-525 | with an apple present, list and oracle are unchanged; otherwise exactly one apple is appended, on a sampled cell |
| Items.ItemsManager.MaybeSpawnSpecial | src/snake.js:533-556 | with a special present it is a no-op; otherwise it appends, by the drawn 4-way pick, one banana, one orange, two pears sharing an id, or one cherry, all on the board |
| Items.ItemsManager.EatApple | src/snake.js:561-566 | the apple branch keeps the registry invariant: the list without the apple, then a new apple, then exactly one new special group when none was out and nothing otherwise; the draws are `Restocked`: the new apple's cell sampled away from the remaining items and the body, then the 4-way pick of the group |
| Items.AppleGroup | src/snake.js:533-556 | with no special item out when the apple is eaten, the items behind the new apple are one non-empty special group |
| Items.RestockDraws | src/snake.js:520-556 | the draws of `ensureApple` followed by those of `maybeSpawnSpecial` are the draws `Restocked` describes |
| Items.ItemsManager.EatAt | src/snake.js:557-596 | reports the outcome of the list before eating; keeps the registry invariant; leaves an empty cell's list as it was; removes the eaten banana, orange or cherry by splicing, a pear's whole pair by filtering, and restocks after an apple (with exactly one new special group when none was out), drawing as `Restocked` says; only the apple draws from the oracle |
| MouseAgent.DirsAreUnit | src/snake.js:1409-1418 | each of the eight steps moves at most one cell per axis, and moves |
| MouseAgent.SafeMoves | src/snake.js:1491-1498 | the fallback candidates are exactly the steps onto a safe cell |
| MouseAgent.FilterEmpty | src/snake.js:1491 | `filter` returns nothing exactly when no element passes the test |
| MouseAgent.SafeMovesIndex | src/snake.js:1491-1499 | there is no fallback candidate exactly when no step is safe |
| MouseAgent.Outward | src/snake.js:1429-1432 | the exits are exactly the steps that leave the board |
| MouseAgent.Cardinals | src/snake.js:1434 | keeps exactly the horizontal and vertical steps |
| MouseAgent.Preferred | src/snake.js:1436-1438 | keeps the steps along x on a left or right edge, along y elsewhere |
| MouseAgent.EscapeCandidates | src/snake.js:1429-1439 | every candidate leaves the board, and there are candidates exactly when some step leaves it |
| MouseAgent.EscapeDir | src/snake.js:1433-1440 | the escape step is cardinal |
| MouseAgent.EscapeIsStraight | src/snake.js:1428-1441 | from a board cell an escape exists exactly on the edge, and every candidate is the one straight exit `EscapeDir` |
| MouseAgent.EdgeEscape | src/snake.js:1428-1441 | on the edge there is an escape candidate, and every candidate is the straight exit |
| MouseAgent.EscapePick | src/snake.js:1440 | whichever candidate the random index picks, the mouse is on the edge and the pick is the straight exit |
| MouseAgent.InteriorStepsStay | src/snake.js:1429-1433 | from a cell off the edge no step leaves the board |
| MouseAgent.InteriorStep | src/snake.js:1429-1432 | from a cell off the edge each of the eight steps stays on the board |
| MouseAgent.PreferredOutwardStep | src/snake.js:1434-1439 | a preferred cardinal exit is the straight exit |
| MouseAgent.EdgeDistance | src/snake.js:1446 | the distance to the nearest side lies in [0, (GRID-1)/2] and is zero exactly on the edge |
| MouseAgent.NearestEdge | src/snake.js:1442-1452 | returns the first safe step, in fixed order, whose cell is nearest an edge, and None exactly when no step is safe |
| MouseAgent.Flee | src/snake.js:1456-1475 | returns the first safe step, in fixed order, whose cell maximises the Chebyshev distance to the snake's head, and None exactly when no step is safe |
| MouseAgent.WalkStaysInside | src/snake.js:1405 | a walk of safe steps from inside a set that no safe step leaves stays inside it; this is why a finished search that found no item proves no item is reachable |
| MouseAgent.StepRecovered | src/snake.js:1374-1382 | for any of the eight steps, with or without wrapping, the signs of the shortest coordinate differences from the start to its neighbour give back the step taken |
| MouseAgent.TorusStepRecovered | src/snake.js:1376-1382 | on the torus, the shortest wrapped differences recover a step even when it crossed the board's edge |
| MouseAgent.AxisRecovered | src/snake.js:1376-1378 | along one axis, `(dx + GRID + GRID/2) % GRID - GRID/2` of a wrapped unit move has the move's sign |
| MouseAgent.SkipStep | src/snake.js:1391-1399 | skipping a neighbour that is off the board, already visited or unsafe keeps every safe neighbour so far marked visited |
| MouseAgent.FindPathStep | src/snake.js:1334-1406 | answers exactly when an item is reachable by safe steps; answers the zero step exactly when the start is an item cell; otherwise answers a safe step of the eight from which an item is still reachable |
| MouseAgent.Expand | src/snake.js:1390-1403 | expanding a cell enqueues its unvisited safe neighbours once each and keeps the search invariant (exact queue, predecessor links along safe steps, expanded cells closed) |
| MouseAgent.FirstStep | src/snake.js:1366-1388 | walking the predecessor links back from the found item gives the zero step exactly when the item is at the start, else a safe first step from which the item is reachable |
| Engine.CollisionIndex | src/snake.js:1565 | returns the first segment after the head lying on the cell, and None exactly when no such segment exists |
| Engine.AdvanceLength | src/snake.js:1565-1603 | the new body has the collision index (or the old length) segments plus one if the snake grew; the new head leads and the kept segments follow in order |
| Engine.HeadTarget | src/snake.js:1545-1556 | the head's target is on the board; there is none exactly when the step leaves a walled board with no cherry armed; an on-board step is taken as is |
| Engine.MouseTarget | src/snake.js:1505-1518 | a mouse target, wrapped or axis-locked, is on the board and safe for the mouse |
| Engine.Moved | src/snake.js:1505-1526 | the mouse after a move is on the board; its hit points rise by at most one; it is newly armed only by a cherry eaten on a walled board; a cherry wrap off a walled board disarms it |
| Engine.CherryWrapIsStraight | src/snake.js:1507-1515 | the cherry escape from the edge leaves the board; its axis-locked wrap is the wrapped cell itself, on the opposite edge, and is taken exactly when no body segment lies there |
| Engine.ScoreGain | src/snake.js:1577-1590 | a step earns at most 6 points, and earns nothing exactly when it ate neither an apple nor a cherry and caught no mouse |
| Engine.Ended | src/snake.js:1528-1531 | game over stops play and keeps a record at least the score and at least the old record, changing nothing else |
| Engine.Fed | src/snake.js:580 | an orange raises hit points by exactly one only below MAX_HP, so hit points never exceed MAX_HP |
| Engine.TickedWellFormed | src/snake.js:1542-1605 | a tick keeps the body on the board, 0 <= hp <= MAX_HP and the cherry counter in {0, 1}; never lowers score or record; stores `max(score, record)` when the game ends; leaves a paused or finished game alone |
| Engine.LandingWellFormed | src/snake.js:1565-1603 | landing on a board cell keeps the session well formed, never lowers score or record, and stores `max(score, record)` when the game ends |
| Engine.TickedHitsWall | src/snake.js:1548-1555 | stepping off a walled board with no cherry ends the game with body, score and hit points unchanged and the record `max(score, record)` |
| Engine.EnteringCollision | src/snake.js:1565-1575 | on a self-collision at segment i, with no hit points left the game ends with the body untouched; otherwise one hit point is spent and the body becomes the new head followed by the first i old segments, minus the tail unless the snake ate |
| Engine.EnteringLength | src/snake.js:1575-1603 | without a collision the snake keeps its length on a plain step and grows by one when it ate an item or the mouse; the head lands on the target or the pear partner; the score rises by the step's gain |
| Engine.EnteringCherry | src/snake.js:1604 | a step survived with the cherry armed ends disarmed; on an unarmed step the counter becomes 1 exactly when a cherry was eaten on a walled board |
| Engine.SnakeModel.constructor | src/snake.js:639-643 | an empty body heading right, with the same pending direction |
| Engine.SnakeModel.SetIdle | src/snake.js:644-648 | three segments heading right with the head at `(cx + 1, cy)` |
| Engine.MouseModel.constructor | src/snake.js:651-659 | a mouse at the origin with no hit points, no boost, no cherry, not alert |
| Engine.Game.constructor | src/snake.js:1041-1047 | a new game is a valid idle board that keeps the stored record: the three-segment snake in the middle heading right; score, hit points, slow-down and cherry at zero; a single apple on a sampled cell; a fresh mouse with its initial fields, on a cell sampled with the draws after the apple's |
| Engine.Game.SetInitialIdleState | src/snake.js:1118-1136 | the snake in the middle heading right; score, hit points, slow-down and cherry cleared; a single apple, on a cell sampled away from the body; a new mouse with its initial fields, not alert, on a cell sampled with the following draws away from apple and body; the class invariant holds |
| Engine.Game.IdleBoard | src/snake.js:1119-1132 | the board half of the idle state: the snake in the middle heading right, counters cleared, and a single apple on a cell sampled away from the body, with the board part of the invariant |
| Engine.Game.Reset | src/snake.js:1137-1145 | play starts and nothing else changes |
| Engine.Game.NewGame | src/snake.js:1146-1149 | the idle board of `setInitialIdleState` (snake, counters, single sampled apple, new sampled mouse), now playing |
| Engine.Game.SpawnMouse | src/snake.js:1150-1161 | a new mouse on a cell sampled exactly as `spawnAtEmpty` samples it, with every other field at its initial value |
| Engine.Game.IncrementScore | src/snake.js:1162-1165 | the score rises by delta and nothing else changes |
| Engine.Game.SetHP | src/snake.js:1166-1169 | hit points become the value and nothing else changes |
| Engine.Game.ApplySlow | src/snake.js:1170-1174 | the slow-down amount and deadline are set and nothing else changes |
| Engine.Game.ArmCherry | src/snake.js:1175-1177 | the cherry counter becomes 1 on a walled board and 0 when walls wrap |
| Engine.Game.ApplyDir | src/snake.js:1211-1217 | a requested direction becomes pending unless it exactly reverses the committed one on a snake longer than one segment; body and committed direction are unchanged; the invariant that the pending direction never reverses the committed one holds |
| Engine.Game.GameOver | src/snake.js:1528-1531 | play stops and the record becomes `max(score, record)`; nothing else changes |
| Engine.Game.EatAtForSnake | src/snake.js:557-596 | reports the outcome of the list before eating; the list changes as `EatenAt` says; only an apple draws, and its draws are `Restocked`; a banana sets the slow-down for `BananaDuration(record)` and other outcomes leave it; the session becomes `AfterEating` of the old one |
| Engine.Game.FeedSnake | src/snake.js:561-594 | the snake's effects of an outcome: an apple or a cherry scores exactly 1, an orange heals only below MAX_HP, a banana sets the slow-down, a cherry arms one step only on a walled board; the session becomes `AfterEating` of the old one |
| Engine.Game.EatAtForMouse | src/snake.js:597-635 | reports the outcome of the list before eating; the list changes as `EatenAt` says; only an apple draws, and its draws are `Restocked`; a banana boosts the mouse, an orange adds a hit point with no cap, a cherry arms the mouse on a walled board; the mouse's position is unchanged |
| Engine.Game.PickMouseMove | src/snake.js:1408-1501 | sets the alert flag from the distance to the head; the move and the draws it used satisfy `MouseChoice` for the mouse's cell, the head, the items' cells and the oracle |
| Engine.Game.MoveMouse | src/snake.js:1505-1526 | the mouse becomes `Moved` of the old mouse under the move, and the list and the draws change as `Foraged` says (`EatenAt` at the target, with an apple's draws `Restocked`); when the target is off a walled board without a cherry or on the snake, mouse, list and oracle are unchanged |
| Engine.Game.Arrive | src/snake.js:1519-1526 | once the target is known: the mouse becomes `Arrived` of the old mouse for the outcome eaten there, the list changes as `EatenAt` says, and only an apple draws, as `Restocked` says |
| Engine.Game.Settle | src/snake.js:1524-1526 | the mouse moves onto the destination and spends its cherry when the wrap used it; nothing else changes |
| Engine.Game.TickMouse | src/snake.js:1502-1527 | does nothing while paused or over; otherwise sets the alert flag, picks a move satisfying `MouseChoice`, the mouse becomes `Moved` of the old mouse under that move, and the list and later draws follow `Foraged` |
| Engine.Game.Tick | src/snake.js:1542-1605 | the session after the tick is `Ticked` of the session before; a paused game is untouched; the pending direction is committed; at a wall the list, oracle and slow-down are unchanged; otherwise the list changes as `EatenAt` at the target, a banana sets the slow-down, and only an apple draws before the catch, as `Restocked` says; a caught mouse with hit points loses one and is disarmed and unboosted, one without is replaced by a new, not alert mouse, each on a cell sampled away from the new body and the items; an uncaught mouse and the draws after eating are untouched; the class invariant holds |
| Engine.Game.HitWall | src/snake.js:1544-1555 | commits the direction and ends the game: the session becomes `Ended` of the old one; the mouse and the slow-down are unchanged |
| Engine.Game.Commit | src/snake.js:1544 | the pending direction becomes the committed one and the class invariant holds |
| Engine.Game.Enter | src/snake.js:1557-1604 | commits the direction, eats, lands and disarms a cherry armed before: the session becomes `Entering` of the old one; the list changes as `EatenAt` at the target; a banana sets the slow-down for `BananaDuration(record)`; only an apple draws before the catch, as `Restocked` says; a mouse caught on the landing cell is hit or replaced on a cell sampled away from `CatchBody` and the items, and an uncaught one is untouched |
| Engine.Game.Land | src/snake.js:1565-1604 | cuts at a self-collision for a hit point or ends the game, pushes the head, catches the mouse, drops the tail unless the snake ate and spends an armed cherry: the session becomes `Spent` of `Landing` of the old one; the list and slow-down are unchanged; a game that ended leaves mouse and oracle alone; a caught mouse is hit or replaced on a cell sampled away from `CatchBody` and the items |
| Engine.Game.PushHead | src/snake.js:1575-1604 | pushes the head, catches the mouse and drops the tail unless the snake ate or killed the mouse: the body becomes the advanced body, a kill scores 5, the list is unchanged; a mouse on the head's cell is hit or replaced on a cell sampled away from the new body and the items, any other mouse and the oracle are untouched |
| Engine.Game.Trim | src/snake.js:1596-1604 | unless the snake grew, drops the tail (nothing lies on the head's cell), then spends a cherry armed before the step; list, oracle and everything else unchanged |
| Engine.Game.CatchMouse | src/snake.js:1577-1590 | a mouse on the head's cell with hit points loses one and reappears on a sampled cell, disarmed and unboosted, keeping its alert flag; one without is replaced by a new, not alert mouse for exactly 5 points; any other mouse and the oracle are untouched |
| Engine.DecideMove | src/snake.js:1408-1501 | the staged choice of `pickMouseMove` once the alert flag is set satisfies `MouseChoice`: the straight exit for one draw on the edge in escape mode; the first safe step nearest an edge inside; the first safe step farthest from the head when alert; a safe step keeping an item reachable when foraging succeeds; otherwise `RandomSafePick` of the next draw, drawing only when some step is safe; outside the escape, the zero step exactly when no step is safe |
| Engine.EscapeMove | src/snake.js:1428-1453 | on the edge returns the straight exit using one draw; inside returns the first safe step nearest an edge, or None exactly when no step is safe, using no draw |
| Engine.ForageMove | src/snake.js:1478-1500 | with an item reachable from off the items, returns a safe step from which one stays reachable, using no draw; otherwise returns `RandomSafePick` of the next draw, drawing only when some step is safe; the zero step exactly when no step is safe |
| Engine.PathStep | src/snake.js:1479-1488 | there is a step exactly when an item is reachable from off the items, and it is a safe step from which an item stays reachable |
| Engine.RandomSafeMove | src/snake.js:1490-1500 | returns `RandomSafePick` of the next draw, the candidate at index `floor(r * n)` of the safe steps in fixed order; uses one draw when some step is safe and none otherwise |
| Engine.RandomSafePickSafe | src/snake.js:1490-1500 | the pick is the zero step exactly when no step is safe, and otherwise one of the eight steps onto a safe cell |
| Engine.PickedSafe | src/snake.js:1491-1500 | every fallback candidate is one of the eight steps, moves, and is safe |

## Left out

- The DOM and presentation: overlays, the HUD, the renderer, the DPI scaler, the error
  overlay, key bindings, touch and swipe input, the pause and wrap toggles, and the text
  formatting in `getCPS` (`src/snake.js:1186-1193`). Only the direction guard `applyDir`
  is kept from the input code.
- The storage service (`src/snake.js:29-55`), a wrapper over browser `localStorage`. Its
  record is the field `Game.highScore`.
- The frame loop (`src/snake.js:1606-1632`). It accumulates floating-point seconds from
  `requestAnimationFrame` and decides how many `tick` and `tickMouse` calls each frame
  makes. The model offers the two steps as methods and does not schedule them.
- Floating-point time. `performance.now()` is an integer `now` in milliseconds.
- The distribution of `Math.random`. The tape of draws is arbitrary and the model makes no
  claim about probabilities. The contracts fix which draw each decision reads and how it
  turns the draw into an index (`Random.Scale`): the mouse's choice of step, the cells of
  a new apple and of a respawned mouse, and the 4-way pick of a new special group. They
  do not fix the draws that place the new special items (see `MaybeSpawnSpecial` below),
  so after an apple that brings a new group, the draw at which a caught mouse's
  respawn starts is stated only to lie after the pick.
- The pear pair id is the drawn real itself, not its base-36 string
  (`src/snake.js:549`). Two pairs therefore share an id exactly when their draws are equal.
- Spawns may land on occupied cells once the GRID² guard runs out. The model states this
  as the source has it and does not claim that spawns find free cells.
- MouseAgent.FindPathStep: proves that an item is still reachable from the returned step,
  not that the step starts a shortest path or leads to the nearest item. The queue order
  that makes the search breadth-first is kept but not exploited in a proof.
- Engine.Game.PickMouseMove: in the forage stage, states reachability as for
  `FindPathStep` and not shortest-path optimality; the other stages are pinned down exactly.
- Engine.DecideMove: the same forage-stage limit as `PickMouseMove`.
- Items.ItemsManager.MaybeSpawnSpecial: states the kinds, count and board position of what
  it appends, not which drawn cells they land on.
- Engine.Game.TickMouse: the move it picked and the oracle cursor after the pick are ghost
  out-parameters. Its contract constrains them by `MouseChoice`, so in the forage stage it
  has the same limit as `PickMouseMove`.
- The HUD refreshes inside `tick` (`updateCPSHud`) and inside the setters change no game
  state; they are left out.
