/**
 * The item registry (`ItemsManager`): the list of fruit on the board, rejection-sampled
 * spawning, and the registry's half of eating an item (the game's half, score, HP and
 * timers, is applied by the caller from the returned `Eaten` record).
 */
module Items {
  import opened Wrappers
  import opened Config
  import opened Geometry
  import opened Random

  /** Identifier shared by the two pears of a pair; drawn from the oracle. */
  type PairId = real

  datatype Kind = Apple | Banana | Orange | Pear(pair: PairId) | Cherry

  datatype Item = Item(kind: Kind, pos: Cell)

  /** What eating at a cell produced: nothing, an item, or a pear and its teleport target. */
  datatype Eaten = NoItem | Ate(kind: Kind) | AtePear(target: Cell)

  /** `isSpecial`: every fruit but the apple. */
  predicate IsSpecial(it: Item)
    ensures IsSpecial(it) <==> !it.kind.Apple?
  {
    it.kind.Banana? || it.kind.Orange? || it.kind.Pear? || it.kind.Cherry?
  }

  predicate ItemsInGrid(items: seq<Item>) {
    forall i :: 0 <= i < |items| ==> InGrid(items[i].pos)
  }

  /** `findIndex` of the first item lying on `c`. */
  function FindAt(items: seq<Item>, c: Cell): (r: Option<nat>)
    ensures r.Some? ==> r.value < |items| && items[r.value].pos == c
    ensures r.Some? ==> forall j :: 0 <= j < r.value ==> items[j].pos != c
    ensures r.None? ==> forall j :: 0 <= j < |items| ==> items[j].pos != c
  {
    if items == [] then None
    else if items[0].pos == c then Some(0)
    else
      match FindAt(items[1..], c)
      case None => None
      case Some(i) => Some(i + 1)
  }

  function Apples(items: seq<Item>): nat {
    if items == [] then 0 else (if items[0].kind == Apple then 1 else 0) + Apples(items[1..])
  }

  /** The special items, in list order. */
  function Specials(items: seq<Item>): (s: seq<Item>)
    ensures forall it :: it in s <==> it in items && IsSpecial(it)
  {
    if items == [] then []
    else (if IsSpecial(items[0]) then [items[0]] else []) + Specials(items[1..])
  }

  function PearCount(items: seq<Item>, pid: PairId): nat {
    if items == [] then 0 else (if items[0].kind == Pear(pid) then 1 else 0) + PearCount(items[1..], pid)
  }

  /** `items.some(it => it.type === 'apple')`. */
  predicate HasApple(items: seq<Item>) {
    exists i :: 0 <= i < |items| && items[i].kind == Apple
  }

  /** `specialPresent`. */
  predicate SpecialPresent(items: seq<Item>) {
    exists i :: 0 <= i < |items| && IsSpecial(items[i])
  }

  /** `splice(i, 1)`. */
  function RemoveAt(items: seq<Item>, i: nat): (r: seq<Item>)
    requires i < |items|
    ensures |r| == |items| - 1
  {
    items[..i] + items[i + 1..]
  }

  /** `filter(j => !(j.type === 'pear' && j.pair === pid))`. */
  function RemovePears(items: seq<Item>, pid: PairId): (r: seq<Item>)
    ensures forall it :: it in r <==> it in items && it.kind != Pear(pid)
    ensures |r| + PearCount(items, pid) == |items|
  {
    if items == [] then []
    else (if items[0].kind == Pear(pid) then [] else [items[0]]) + RemovePears(items[1..], pid)
  }

  /** Index of the first pear of pair `pid` other than the one at `idx` (the source's `find`). */
  function PartnerIndex(items: seq<Item>, idx: int, pid: PairId): (r: Option<nat>)
    ensures r.Some? ==> r.value < |items| && r.value != idx && items[r.value].kind == Pear(pid)
    ensures r.Some? ==> forall j :: 0 <= j < r.value && j != idx ==> items[j].kind != Pear(pid)
    ensures r.None? ==> forall j :: 0 <= j < |items| && j != idx ==> items[j].kind != Pear(pid)
  {
    if items == [] then None
    else if idx != 0 && items[0].kind == Pear(pid) then Some(0)
    else
      match PartnerIndex(items[1..], idx - 1, pid)
      case None => None
      case Some(j) => Some(j + 1)
  }

  /** The special items form one group: none, one non-pear, or the two pears of one pair. */
  predicate SpecialGroup(sp: seq<Item>) {
    || sp == []
    || (|sp| == 1 && !sp[0].kind.Pear?)
    || (|sp| == 2 && sp[0].kind.Pear? && sp[1].kind == sp[0].kind)
  }

  /** Exactly one apple and at most one group of special items. */
  ghost predicate Registry(items: seq<Item>) {
    Apples(items) == 1 && SpecialGroup(Specials(items))
  }

  /** What eating at `c` reports, as a function of the list before eating. */
  function Outcome(items: seq<Item>, c: Cell): Eaten {
    match FindAt(items, c)
    case None => NoItem
    case Some(i) =>
      match items[i].kind
      case Pear(pid) =>
        var other := PartnerIndex(items, i, pid);
        AtePear(if other.Some? then items[other.value].pos else c)
      case k => Ate(k)
  }

  /**
   * The list `after` that eating at `c` leaves of `before`: unchanged on an empty cell; an
   * eaten apple is removed and a new apple appended, followed by exactly one new special
   * group when no special item was out and by nothing otherwise; an eaten pear takes its partner with it; any
   * other item is removed alone.
   */
  ghost predicate EatenAt(before: seq<Item>, c: Cell, after: seq<Item>) {
    match FindAt(before, c)
    case None => after == before
    case Some(i) =>
      match before[i].kind
      case Apple =>
        && |after| >= |before|
        && after[..|before| - 1] == RemoveAt(before, i)
        && after[|before| - 1].kind == Apple
        && (SpecialPresent(before) ==> |after| == |before|)
        && (!SpecialPresent(before) ==>
              |after| > |before| && SpecialGroup(after[|before|..]) && Specials(after[|before|..]) == after[|before|..])
      case Pear(pid) => after == RemovePears(before, pid)
      case _ => after == RemoveAt(before, i)
  }

  /**
   * The draws of the apple branch between draw `start` and draw `end`, where `n` is the
   * length of the list before eating and `after` the list at the end, so that `after[..n - 1]`
   * is the list with the eaten apple spliced out: the new apple at `after[n - 1]` is sampled
   * away from that list and the body; then, unless a special item is still out, the next
   * draw is the 4-way pick and the items behind the apple are the group that pick spawns,
   * after which further draws place them.
   */
  ghost predicate Restocked(tape: nat -> Unit, start: nat, end: nat, n: nat, body: seq<Cell>, after: seq<Item>) {
    && 1 <= n <= |after|
    && var removed := after[..n - 1];
      exists mid: nat ::
        && Sampled(tape, start, mid, Occupied(removed, body), after[n - 1].pos)
        && (SpecialPresent(removed) ==> end == mid)
        && (!SpecialPresent(removed) ==> mid < end && FreshSpecials(after[n..], Scale(tape(mid), 4)))
  }

  /** A pear's teleport target is the partner's cell or the eaten cell, so it is on the board. */
  lemma OutcomeTargetOnBoard(items: seq<Item>, c: Cell)
    requires ItemsInGrid(items) && InGrid(c)
    ensures Outcome(items, c).AtePear? ==> InGrid(Outcome(items, c).target)
  {
  }

  function ItemCells(items: seq<Item>): set<Cell> {
    set i | 0 <= i < |items| :: items[i].pos
  }

  function BodyCells(body: seq<Cell>, n: nat): set<Cell>
    requires n <= |body|
  {
    set k | 0 <= k < n :: body[k]
  }

  /** `occupiedSet`: cells holding an item or a body segment. */
  function Occupied(items: seq<Item>, body: seq<Cell>): set<Cell> {
    ItemCells(items) + BodyCells(body, |body|)
  }

  /** The cell `rndCell` builds from draws `k` (x) and `k + 1` (y). */
  function DrawnCell(tape: nat -> Unit, k: nat): (c: Cell)
    ensures InGrid(c)
  {
    Cell(Scale(tape(k), GRID), Scale(tape(k + 1), GRID))
  }

  /** The cell of attempt `t` (counting from 0) of a sampling that starts at draw `start`. */
  function Attempt(tape: nat -> Unit, start: nat, t: nat): Cell {
    DrawnCell(tape, start + 2 * t)
  }

  /** The first `tries` attempts from draw `start` all landed on an occupied cell. */
  ghost predicate Missed(tape: nat -> Unit, start: nat, tries: nat, occ: set<Cell>) {
    forall t :: 0 <= t < tries ==> Attempt(tape, start, t) in occ
  }

  /**
   * Rejection sampling as `spawnAtEmpty` does it between draw `start` and draw `end`:
   * t attempts of two draws each, 1 <= t <= GRID², every attempt but the last landed on an
   * occupied cell, and the last is kept, even occupied, only when the guard ran out.
   */
  ghost predicate Sampled(tape: nat -> Unit, start: nat, end: nat, occ: set<Cell>, c: Cell) {
    && start + 2 <= end <= start + 2 * GRID * GRID
    && (end - start) % 2 == 0
    && c == DrawnCell(tape, end - 2)
    && Missed(tape, start, (end - start) / 2 - 1, occ)
    && (c in occ ==> end == start + 2 * GRID * GRID)
  }

  predicate OnEdge(c: Cell) {
    c.x == 0 || c.x == GRID - 1 || c.y == 0 || c.y == GRID - 1
  }

  /** The edge cell `spawnCherryAtEdge` builds from draws `k` (side) and `k + 1` (offset). */
  function EdgeCell(tape: nat -> Unit, k: nat): (c: Cell)
    ensures InGrid(c) && OnEdge(c)
  {
    var side := Scale(tape(k), 4);
    var v := Scale(tape(k + 1), GRID);
    if side == 0 then Cell(0, v)
    else if side == 1 then Cell(GRID - 1, v)
    else if side == 2 then Cell(v, 0)
    else Cell(v, GRID - 1)
  }

  /** The items `maybeSpawnSpecial` appends for the 4-way pick `pick`. */
  predicate FreshSpecials(added: seq<Item>, pick: int) {
    && (pick == 0 ==> |added| == 1 && added[0].kind == Banana)
    && (pick == 1 ==> |added| == 1 && added[0].kind == Orange)
    && (pick == 2 ==> |added| == 2 && added[0].kind.Pear? && added[1].kind == added[0].kind)
    && (pick == 3 ==> |added| == 1 && added[0].kind == Cherry)
  }

  // ---------------------------------------------------------------------------
  // Counting lemmas

  lemma {:induction false} AppendCounts(a: seq<Item>, b: seq<Item>)
    ensures Apples(a + b) == Apples(a) + Apples(b)
    ensures Specials(a + b) == Specials(a) + Specials(b)
  {
    if a != [] {
      assert (a + b)[1..] == a[1..] + b;
      AppendCounts(a[1..], b);
    } else {
      assert a + b == b;
    }
  }

  /** `some(apple)` agrees with the apple count. */
  lemma {:induction false} HasAppleIffCount(items: seq<Item>)
    ensures HasApple(items) <==> Apples(items) > 0
  {
    if items != [] {
      HasAppleIffCount(items[1..]);
      if HasApple(items[1..]) {
        var i :| 0 <= i < |items[1..]| && items[1..][i].kind == Apple;
        assert items[i + 1].kind == Apple;
      }
      if HasApple(items) && items[0].kind != Apple {
        var i :| 0 <= i < |items| && items[i].kind == Apple;
        assert items[1..][i - 1].kind == Apple;
      }
    }
  }

  /** `specialPresent` agrees with the list of special items. */
  lemma SpecialPresentIff(items: seq<Item>)
    ensures SpecialPresent(items) <==> Specials(items) != []
  {
    if SpecialPresent(items) {
      var i :| 0 <= i < |items| && IsSpecial(items[i]);
      assert items[i] in Specials(items);
    }
    if Specials(items) != [] {
      var it := Specials(items)[0];
      assert it in items && IsSpecial(it);
      var i :| 0 <= i < |items| && items[i] == it;
    }
  }

  /** Splitting the list around index `i` splits the counts the same way. */
  lemma SplitAt(items: seq<Item>, i: nat)
    requires i < |items|
    ensures Apples(items) == Apples(items[..i]) + Apples([items[i]]) + Apples(items[i + 1..])
    ensures Specials(items) == Specials(items[..i]) + (Specials([items[i]]) + Specials(items[i + 1..]))
    ensures Apples(RemoveAt(items, i)) == Apples(items[..i]) + Apples(items[i + 1..])
    ensures Specials(RemoveAt(items, i)) == Specials(items[..i]) + Specials(items[i + 1..])
  {
    var a, m, b := items[..i], [items[i]], items[i + 1..];
    SplitAround(items, i);
    ConcatCounts(m + b, m, b);
    ConcatCounts(items, a, m + b);
    ConcatCounts(RemoveAt(items, i), a, b);
  }

  lemma SplitAround<T>(s: seq<T>, i: nat)
    requires i < |s|
    ensures s == s[..i] + ([s[i]] + s[i + 1..])
  {
  }

  lemma ConcatCounts(whole: seq<Item>, a: seq<Item>, b: seq<Item>)
    requires whole == a + b
    ensures Apples(whole) == Apples(a) + Apples(b)
    ensures Specials(whole) == Specials(a) + Specials(b)
  {
    AppendCounts(a, b);
  }

  /** Filtering out a pair keeps every apple and filters the special items alike. */
  lemma {:induction false} RemovePearsCounts(items: seq<Item>, pid: PairId)
    ensures Apples(RemovePears(items, pid)) == Apples(items)
    ensures Specials(RemovePears(items, pid)) == RemovePears(Specials(items), pid)
  {
    if items != [] {
      var head := if items[0].kind == Pear(pid) then [] else [items[0]];
      RemovePearsCounts(items[1..], pid);
      AppendCounts(head, RemovePears(items[1..], pid));
      var sh := if IsSpecial(items[0]) then [items[0]] else [];
      AppendCounts(sh, Specials(items[1..]));
      assert RemovePears(sh + Specials(items[1..]), pid)
          == RemovePears(sh, pid) + RemovePears(Specials(items[1..]), pid) by {
        RemovePearsAppend(sh, Specials(items[1..]), pid);
      }
    }
  }

  lemma {:induction false} RemovePearsAppend(a: seq<Item>, b: seq<Item>, pid: PairId)
    ensures RemovePears(a + b, pid) == RemovePears(a, pid) + RemovePears(b, pid)
  {
    if a != [] {
      assert (a + b)[1..] == a[1..] + b;
      RemovePearsAppend(a[1..], b, pid);
    } else {
      assert a + b == b;
    }
  }

  /** Under the registry invariant a pear always has its partner in the list. */
  lemma PearHasPartner(items: seq<Item>, i: nat, pid: PairId)
    requires Registry(items) && i < |items| && items[i].kind == Pear(pid)
    ensures PartnerIndex(items, i, pid).Some?
  {
    SplitAt(items, i);
    var before, after := Specials(items[..i]), Specials(items[i + 1..]);
    assert Specials([items[i]]) == [items[i]];
    if before != [] {
      assert before[0] in items[..i];
      var j :| 0 <= j < i && items[j] == before[0];
      assert items[j].kind == Pear(pid);
    } else {
      assert after[0] in items[i + 1..];
      var j :| i < j < |items| && items[j] == after[0];
      assert items[j].kind == Pear(pid);
    }
  }

  /** A list holding one apple and nothing else is a registry. */
  lemma LoneApple(items: seq<Item>)
    requires |items| == 1 && items[0].kind == Apple
    ensures Registry(items)
  {
    assert items[1..] == [];
  }

  /** Eating the apple leaves no apple and the special items as they were. */
  lemma RemoveApple(items: seq<Item>, i: nat)
    requires Registry(items) && i < |items| && items[i].kind == Apple
    ensures Apples(RemoveAt(items, i)) == 0
    ensures Specials(RemoveAt(items, i)) == Specials(items)
  {
    SplitAt(items, i);
  }

  /** Eating the one banana, orange or cherry leaves one apple and no special item. */
  lemma RemoveSingleSpecial(items: seq<Item>, i: nat)
    requires Registry(items) && i < |items| && IsSpecial(items[i]) && !items[i].kind.Pear?
    ensures Registry(RemoveAt(items, i)) && Specials(RemoveAt(items, i)) == []
  {
    SplitAt(items, i);
    assert Specials([items[i]]) == [items[i]];
  }

  /** Eating a pear removes its whole pair: one apple and no special item remain. */
  lemma RemovePair(items: seq<Item>, i: nat, pid: PairId)
    requires Registry(items) && i < |items| && items[i].kind == Pear(pid)
    ensures Registry(RemovePears(items, pid)) && Specials(RemovePears(items, pid)) == []
  {
    var sp := Specials(items);
    assert items[i] in sp;
    assert sp[0].kind == Pear(pid) && sp[1].kind == Pear(pid);
    RemovePearsCounts(items, pid);
    PairFiltered(sp, pid);
  }

  /** A pair of pears with the same id is filtered out entirely. */
  lemma PairFiltered(sp: seq<Item>, pid: PairId)
    requires |sp| == 2 && sp[0].kind == Pear(pid) && sp[1].kind == Pear(pid)
    ensures RemovePears(sp, pid) == []
  {
    assert sp[1..][1..] == [];
  }

  // ---------------------------------------------------------------------------
  // The registry object

  class ItemsManager {
    var items: seq<Item>
    const rng: Rng

    constructor (rng: Rng)
      ensures items == [] && this.rng == rng
    {
      items := [];
      this.rng := rng;
    }

    method Clear()
      modifies this
      ensures items == []
    {
      items := [];
    }

    /** `rndCell`: x from one draw, then y from the next. */
    method RndCell() returns (c: Cell)
      modifies rng
      ensures c == DrawnCell(rng.tape, old(rng.drawn)) && rng.drawn == old(rng.drawn) + 2
    {
      var x := rng.Below(GRID);
      var y := rng.Below(GRID);
      c := Cell(x, y);
    }

    /** `occupiedSet`: the cells of every item, then every body segment. */
    method OccupiedSet(body: seq<Cell>) returns (occ: set<Cell>)
      ensures occ == Occupied(items, body)
      ensures forall i :: 0 <= i < |items| ==> items[i].pos in occ
      ensures forall k :: 0 <= k < |body| ==> body[k] in occ
    {
      occ := set i | 0 <= i < |items| :: items[i].pos;
      for j := 0 to |body|
        invariant occ == ItemCells(items) + BodyCells(body, j)
      {
        assert BodyCells(body, j + 1) == BodyCells(body, j) + {body[j]};
        occ := occ + {body[j]};
      }
    }

    /** `spawnAtEmpty`: draw cells until one is free, giving up after GRID² attempts. */
    method SpawnAtEmpty(body: seq<Cell>) returns (c: Cell)
      modifies rng
      ensures InGrid(c)
      ensures Sampled(rng.tape, old(rng.drawn), rng.drawn, Occupied(items, body), c)
    {
      var occ := OccupiedSet(body);
      ghost var start := rng.drawn;
      c := RndCell();
      var guard := 1;
      while c in occ && guard < GRID * GRID
        invariant 1 <= guard <= GRID * GRID
        invariant rng.drawn == start + 2 * guard
        invariant c == Attempt(rng.tape, start, guard - 1)
        invariant Missed(rng.tape, start, guard - 1, occ)
        decreases GRID * GRID - guard
      {
        c := RndCell();
        guard := guard + 1;
      }
    }

    /**
     * `spawnCherryAtEdge`: up to GRID² attempts at a free cell on a random side, then
     * `spawnAtEmpty` anywhere.
     */
    method SpawnCherryAtEdge(body: seq<Cell>) returns (c: Cell)
      modifies rng
      ensures InGrid(c)
      ensures EdgeSampled(rng.tape, old(rng.drawn), rng.drawn, Occupied(items, body), c)
    {
      var occ := OccupiedSet(body);
      ghost var start, tape := rng.drawn, rng.tape;
      var guard := 0;
      while guard < GRID * GRID
        invariant 0 <= guard <= GRID * GRID
        invariant rng.drawn == start + 2 * guard
        invariant EdgeMissed(tape, start, guard, occ)
      {
        var e := EdgeDraw();
        if e !in occ {
          return e;
        }
        guard := guard + 1;
      }
      c := SpawnAtEmpty(body);
    }

    /** One attempt of `spawnCherryAtEdge`: a side from one draw, the offset from the next. */
    method EdgeDraw() returns (c: Cell)
      modifies rng
      ensures c == EdgeCell(rng.tape, old(rng.drawn)) && rng.drawn == old(rng.drawn) + 2
    {
      var side := rng.Below(4);
      var v := rng.Below(GRID);
      var x, y;
      if side == 0 {
        x, y := 0, v;
      } else if side == 1 {
        x, y := GRID - 1, v;
      } else if side == 2 {
        x, y := v, 0;
      } else {
        x, y := v, GRID - 1;
      }
      c := Cell(x, y);
    }

    /** `ensureApple`: spawn an apple only when none is on the board. */
    method EnsureApple(body: seq<Cell>)
      modifies this, rng
      ensures HasApple(old(items)) ==> items == old(items) && rng.drawn == old(rng.drawn)
      ensures !HasApple(old(items)) ==>
        && |items| == |old(items)| + 1 && items[..|old(items)|] == old(items)
        && items[|old(items)|].kind == Apple && InGrid(items[|old(items)|].pos)
        && Sampled(rng.tape, old(rng.drawn), rng.drawn, Occupied(old(items), body), items[|old(items)|].pos)
    {
      if !HasApple(items) {
        var c := SpawnAtEmpty(body);
        items := items + [Item(Apple, c)];
      }
    }

    /**
     * `maybeSpawnSpecial`: when no special item is present, a 4-way pick spawns a banana,
     * an orange, a pair of pears sharing a drawn id, or a cherry on the edge.
     */
    method MaybeSpawnSpecial(body: seq<Cell>)
      modifies this, rng
      ensures SpecialPresent(old(items)) ==> items == old(items) && rng.drawn == old(rng.drawn)
      ensures !SpecialPresent(old(items)) ==>
        && |items| > |old(items)| && items[..|old(items)|] == old(items) && rng.drawn > old(rng.drawn)
        && FreshSpecials(items[|old(items)|..], Scale(rng.tape(old(rng.drawn)), 4))
        && ItemsInGrid(items[|old(items)|..])
    {
      if SpecialPresent(items) {
        return;
      }
      ghost var before := items;
      var pick := rng.Below(4);
      if pick == 0 {
        var c := SpawnAtEmpty(body);
        items := items + [Item(Banana, c)];
      } else if pick == 1 {
        var c := SpawnAtEmpty(body);
        items := items + [Item(Orange, c)];
      } else if pick == 2 {
        var a := SpawnAtEmpty(body);
        var b := SpawnAtEmpty(body);
        var pid := rng.Next();
        items := items + [Item(Pear(pid), a), Item(Pear(pid), b)];
      } else {
        var e := SpawnCherryAtEdge(body);
        items := items + [Item(Cherry, e)];
      }
      assert items[..|before|] == before;
    }

    /** The apple branch of eating: splice it out, `ensureApple`, then `maybeSpawnSpecial`. */
    method EatApple(i: nat, body: seq<Cell>)
      requires Registry(items) && ItemsInGrid(items) && i < |items| && items[i].kind == Apple
      modifies this, rng
      ensures Registry(items) && ItemsInGrid(items)
      ensures |items| >= |old(items)|
      ensures items[..|old(items)| - 1] == RemoveAt(old(items), i)
      ensures items[|old(items)| - 1].kind == Apple
      ensures SpecialPresent(old(items)) ==> |items| == |old(items)|
      ensures !SpecialPresent(old(items)) ==>
        |items| > |old(items)| && SpecialGroup(items[|old(items)|..]) && Specials(items[|old(items)|..]) == items[|old(items)|..]
      ensures Restocked(rng.tape, old(rng.drawn), rng.drawn, |old(items)|, body, items)
    {
      RemoveApple(items, i);
      items := RemoveAt(items, i);
      HasAppleIffCount(items);
      ghost var removed := items;
      EnsureApple(body);
      ghost var withApple, d := items, rng.drawn;
      MaybeSpawnSpecial(body);
      AppleRestocked(old(items), i, withApple, items, Scale(rng.tape(d), 4));
      AppleGroup(old(items), i, withApple, items, Scale(rng.tape(d), 4));
      RestockDraws(rng.tape, old(rng.drawn), d, rng.drawn, removed, body, withApple, items);
    }

    /**
     * The registry's half of `eatAtForSnake` and `eatAtForMouse` (the two agree on it):
     * remove the first item on `c`; an apple is replaced and, when no special item is out,
     * followed by a new special group; a pear takes its whole pair with it and reports its
     * partner's cell.
     */
    method EatAt(c: Cell, body: seq<Cell>) returns (e: Eaten)
      requires Registry(items) && ItemsInGrid(items)
      modifies this, rng
      ensures Registry(items) && ItemsInGrid(items)
      ensures e == Outcome(old(items), c)
      ensures !e.Ate? || e.kind != Apple ==> rng.drawn == old(rng.drawn)
      ensures EatenAt(old(items), c, items)
      ensures e == Ate(Apple) ==> Restocked(rng.tape, old(rng.drawn), rng.drawn, |old(items)|, body, items)
    {
      var idx := FindAt(items, c);
      if idx.None? {
        return NoItem;
      }
      var i := idx.value;
      var it := items[i];
      match it.kind
      case Apple =>
        EatApple(i, body);
        e := Ate(Apple);
      case Pear(pid) =>
        PearHasPartner(items, i, pid);
        var other := PartnerIndex(items, i, pid);
        var target := if other.Some? then items[other.value].pos else c;
        RemovePair(items, i, pid);
        items := RemovePears(items, pid);
        assert ItemsInGrid(items) by {
          forall j | 0 <= j < |items| ensures InGrid(items[j].pos) {
            assert items[j] in old(items);
          }
        }
        e := AtePear(target);
      case _ =>
        RemoveSingleSpecial(items, i);
        RemoveAtInGrid(items, i);
        items := RemoveAt(items, i);
        e := Ate(it.kind);
    }
  }

  /** The cell of edge attempt `t` (counting from 0) of a run that starts at draw `start`. */
  function EdgeAttempt(tape: nat -> Unit, start: nat, t: nat): Cell {
    EdgeCell(tape, start + 2 * t)
  }

  /** The first `tries` edge attempts from draw `start` all landed on an occupied cell. */
  ghost predicate EdgeMissed(tape: nat -> Unit, start: nat, tries: nat, occ: set<Cell>) {
    forall t :: 0 <= t < tries ==> EdgeAttempt(tape, start, t) in occ
  }

  /** `spawnCherryAtEdge` between draw `start` and draw `end`. */
  ghost predicate EdgeSampled(tape: nat -> Unit, start: nat, end: nat, occ: set<Cell>, c: Cell) {
    || (&& start + 2 <= end <= start + 2 * GRID * GRID
        && (end - start) % 2 == 0
        && c == EdgeCell(tape, end - 2) && c !in occ
        && EdgeMissed(tape, start, (end - start) / 2 - 1, occ))
    || (&& EdgeMissed(tape, start, GRID * GRID, occ)
        && Sampled(tape, start + 2 * GRID * GRID, end, occ, c))
  }

  lemma RemoveAtInGrid(items: seq<Item>, i: nat)
    requires i < |items| && ItemsInGrid(items)
    ensures ItemsInGrid(RemoveAt(items, i))
  {
    var r := RemoveAt(items, i);
    forall j | 0 <= j < |r| ensures InGrid(r[j].pos) {
      assert r[j] == if j < i then items[j] else items[j + 1];
    }
  }

  /**
   * The list after the apple at `i` is spliced out, a new apple is pushed and
   * `maybeSpawnSpecial` has run satisfies the registry invariant again.
   */
  lemma AppleRestocked(before: seq<Item>, i: nat, withApple: seq<Item>, after: seq<Item>, pick: int)
    requires Registry(before) && ItemsInGrid(before) && i < |before| && before[i].kind == Apple
    requires |withApple| == |before| && withApple[..|before| - 1] == RemoveAt(before, i)
    requires withApple[|before| - 1].kind == Apple && InGrid(withApple[|before| - 1].pos)
    requires |after| >= |withApple| && after[..|withApple|] == withApple
    requires ItemsInGrid(after[|withApple|..])
    requires SpecialPresent(withApple) ==> after == withApple
    requires !SpecialPresent(withApple) ==> 0 <= pick < 4 && FreshSpecials(after[|withApple|..], pick)
    ensures Registry(after) && ItemsInGrid(after)
    ensures after[..|before| - 1] == RemoveAt(before, i) && after[|before| - 1].kind == Apple
    ensures SpecialPresent(before) ==> |after| == |before|
  {
    var removed, apple, added := RemoveAt(before, i), withApple[|before| - 1], after[|withApple|..];
    RemoveApple(before, i);
    RemoveAtInGrid(before, i);
    SplitLast(withApple);
    SplitAfter(after, |withApple|);
    PrefixOfPrefix(after, |withApple|, |before| - 1);
    assert after[..|before| - 1] == removed;
    assert after[|before| - 1] == after[..|withApple|][|before| - 1] == apple;
    assert withApple == removed + [apple];
    assert after == withApple + added;
    ConcatCounts(withApple, removed, [apple]);
    OneApple(apple);
    SpecialPresentIff(withApple);
    SpecialPresentIff(before);
    Restock(removed, apple, added, pick);
    ConcatInGrid(removed, [apple]);
    ConcatInGrid(withApple, added);
  }

  /** With no special item out when the apple is eaten, one whole new group follows the new apple. */
  lemma AppleGroup(before: seq<Item>, i: nat, withApple: seq<Item>, after: seq<Item>, pick: int)
    requires Registry(before) && i < |before| && before[i].kind == Apple
    requires |withApple| == |before| && withApple[..|before| - 1] == RemoveAt(before, i)
    requires withApple[|before| - 1].kind == Apple && |after| >= |withApple|
    requires !SpecialPresent(withApple) ==> 0 <= pick < 4 && FreshSpecials(after[|withApple|..], pick)
    ensures !SpecialPresent(before) ==>
      |after| > |before| && SpecialGroup(after[|before|..]) && Specials(after[|before|..]) == after[|before|..]
  {
    var removed, apple := RemoveAt(before, i), withApple[|before| - 1];
    RemoveApple(before, i);
    SplitLast(withApple);
    assert withApple == removed + [apple];
    AppendCounts(removed, [apple]);
    OneApple(apple);
    assert Specials(withApple) == Specials(before);
    SpecialPresentIff(before);
    SpecialPresentIff(withApple);
    if !SpecialPresent(before) {
      NewSpecialsAreAGroup(after[|withApple|..], pick);
    }
  }

  /** The draws of `ensureApple` followed by those of `maybeSpawnSpecial` make up `Restocked`. */
  lemma RestockDraws(tape: nat -> Unit, start: nat, mid: nat, end: nat, removed: seq<Item>, body: seq<Cell>,
                     withApple: seq<Item>, after: seq<Item>)
    requires |withApple| == |removed| + 1 && withApple[..|removed|] == removed && withApple[|removed|].kind == Apple
    requires Sampled(tape, start, mid, Occupied(removed, body), withApple[|removed|].pos)
    requires |after| >= |withApple| && after[..|withApple|] == withApple
    requires SpecialPresent(withApple) ==> after == withApple && end == mid
    requires !SpecialPresent(withApple) ==> end > mid && FreshSpecials(after[|withApple|..], Scale(tape(mid), 4))
    ensures Restocked(tape, start, end, |removed| + 1, body, after)
  {
    SplitLast(withApple);
    AppendCounts(removed, [withApple[|removed|]]);
    OneApple(withApple[|removed|]);
    SpecialPresentIff(removed);
    SpecialPresentIff(withApple);
    PrefixOfPrefix(after, |withApple|, |removed|);
    assert after[..|removed|] == removed;
    assert after[|removed|] == after[..|withApple|][|removed|];
    assert Sampled(tape, start, mid, Occupied(after[..|removed|], body), after[|removed|].pos);
  }

  lemma SplitLast<T>(s: seq<T>)
    requires |s| >= 1
    ensures s == s[..|s| - 1] + [s[|s| - 1]]
  {
  }

  lemma SplitAfter<T>(s: seq<T>, n: nat)
    requires n <= |s|
    ensures s == s[..n] + s[n..]
  {
  }

  lemma PrefixOfPrefix<T>(s: seq<T>, n: nat, m: nat)
    requires m <= n <= |s|
    ensures s[..n][..m] == s[..m]
  {
  }

  lemma ConcatInGrid(a: seq<Item>, b: seq<Item>)
    requires ItemsInGrid(a) && ItemsInGrid(b)
    ensures ItemsInGrid(a + b)
  {
    forall j | 0 <= j < |a + b| ensures InGrid((a + b)[j].pos) {
      if j >= |a| {
        assert (a + b)[j] == b[j - |a|];
      }
    }
  }

  /**
   * Restocking after the apple is eaten: with the apple gone, one new apple and, when no
   * special item was left, whatever group `maybeSpawnSpecial` adds, the registry holds again.
   */
  lemma Restock(removed: seq<Item>, apple: Item, added: seq<Item>, pick: int)
    requires Apples(removed) == 0 && SpecialGroup(Specials(removed)) && apple.kind == Apple
    requires Specials(removed) != [] ==> added == []
    requires Specials(removed) == [] ==> 0 <= pick < 4 && FreshSpecials(added, pick)
    ensures Registry(removed + [apple] + added)
  {
    OneApple(apple);
    ConcatCounts(removed + [apple], removed, [apple]);
    if Specials(removed) == [] {
      NewSpecialsAreAGroup(added, pick);
    } else {
      assert Specials([]) == [] && Apples([]) == 0;
    }
    ConcatCounts(removed + [apple] + added, removed + [apple], added);
  }

  lemma OneApple(apple: Item)
    requires apple.kind == Apple
    ensures Apples([apple]) == 1 && Specials([apple]) == []
  {
    assert [apple][1..] == [];
  }

  /** Whatever `maybeSpawnSpecial` picks, it adds exactly one group of special items. */
  lemma NewSpecialsAreAGroup(added: seq<Item>, pick: int)
    requires 0 <= pick < 4 && FreshSpecials(added, pick)
    ensures Apples(added) == 0 && Specials(added) == added && SpecialGroup(added)
  {
    if pick == 2 {
      assert added[1..] == [added[1]] && added[1..][1..] == [];
    } else {
      assert added[1..] == [];
    }
  }
}
