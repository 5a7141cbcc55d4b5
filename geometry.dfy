/**
 * Integer geometry of the N×N board: cells, unit steps, the JavaScript remainder used
 * to wrap coordinates, torus and Chebyshev distances, the mouse's safety test and the
 * string key under which the game files a cell in its sets.
 */
module Geometry {
  import opened Config

  /** A board position (`{x, y}` in the source). */
  datatype Cell = Cell(x: int, y: int)

  /** A step between neighbouring cells (also `{x, y}` in the source). */
  datatype Dir = Dir(x: int, y: int)

  function Add(c: Cell, d: Dir): Cell {
    Cell(c.x + d.x, c.y + d.y)
  }

  predicate InGrid(c: Cell) {
    0 <= c.x < GRID && 0 <= c.y < GRID
  }

  predicate AllInGrid(cs: seq<Cell>) {
    forall i :: 0 <= i < |cs| ==> InGrid(cs[i])
  }

  /** The four directions the snake may face. */
  predicate IsCardinal(d: Dir) {
    (d.x == 0 && (d.y == 1 || d.y == -1)) || (d.y == 0 && (d.x == 1 || d.x == -1))
  }

  function Abs(a: int): int { if a < 0 then -a else a }
  function Min(a: int, b: int): int { if a <= b then a else b }
  function Max(a: int, b: int): int { if a >= b then a else b }

  /** JavaScript's `a % n`: the remainder truncates toward zero, so it takes the sign of `a`. */
  function JsRem(a: int, n: int): (r: int)
    requires n > 0
    ensures -n < r < n
    ensures a >= 0 ==> 0 <= r
    ensures a <= 0 ==> r <= 0
  {
    if a >= 0 then a % n else -((-a) % n)
  }

  /** `(v + GRID) % GRID`, the source's way of folding a coordinate back onto the board. */
  function Wrap(v: int): (r: int)
    ensures -GRID <= v ==> 0 <= r < GRID
    ensures -GRID <= v < 0 ==> r == v + GRID
    ensures 0 <= v < GRID ==> r == v
    ensures GRID <= v < 2 * GRID ==> r == v - GRID
  {
    JsRem(v + GRID, GRID)
  }

  /** Both coordinates wrapped (`norm` in the source). */
  function Norm(c: Cell): Cell {
    Cell(Wrap(c.x), Wrap(c.y))
  }

  /** Shortest distance from `a` to `b` around a ring of GRID cells (`torusDelta`). */
  function TorusDelta(a: int, b: int): (r: int)
    ensures r <= Abs(a - b)
    ensures 0 <= a < GRID && 0 <= b < GRID ==> 0 <= r <= GRID / 2
  {
    var d := Abs(a - b);
    Min(d, GRID - d)
  }

  /** Distance from `a` to a representative of `b` shifted by `k` whole turns of the ring. */
  function Shifted(a: int, b: int, k: int): nat {
    Abs(a - b + k * GRID)
  }

  /**
   * On the ring, TorusDelta is the distance between the two residue classes: no
   * representative of `b` is closer to `a`, and one of the three nearest ones attains it.
   */
  lemma TorusDeltaIsRingDistance(a: int, b: int)
    requires 0 <= a < GRID && 0 <= b < GRID
    ensures forall k :: TorusDelta(a, b) <= Shifted(a, b, k)
    ensures TorusDelta(a, b) in {Shifted(a, b, -1), Shifted(a, b, 0), Shifted(a, b, 1)}
  {
    forall k ensures TorusDelta(a, b) <= Shifted(a, b, k) {
      var d := a - b;
      if k >= 1 {
        assert d + k * GRID >= d + GRID;
      } else if k <= -1 {
        assert d + k * GRID <= d - GRID;
      }
    }
  }

  lemma TorusDeltaSymmetric(a: int, b: int)
    ensures TorusDelta(a, b) == TorusDelta(b, a)
  {
    assert Abs(a - b) == Abs(b - a);
  }

  /** `chebyshevDistance`: the larger of the two per-axis distances, direct or around the torus. */
  function ChebyshevDistance(a: Cell, b: Cell, torus: bool): (r: int)
    ensures !torus ==> r >= 0 && (r == 0 <==> a == b)
    ensures torus && InGrid(a) && InGrid(b) ==> 0 <= r <= GRID / 2 && (r == 0 <==> a == b)
  {
    if torus then Max(TorusDelta(a.x, b.x), TorusDelta(a.y, b.y))
    else Max(Abs(a.x - b.x), Abs(a.y - b.y))
  }

  lemma ChebyshevSymmetric(a: Cell, b: Cell, torus: bool)
    ensures ChebyshevDistance(a, b, torus) == ChebyshevDistance(b, a, torus)
  {
    TorusDeltaSymmetric(a.x, b.x);
    TorusDeltaSymmetric(a.y, b.y);
  }

  /** Going around the torus never makes two cells farther apart. */
  lemma TorusNeverExceedsDirect(a: Cell, b: Cell)
    ensures ChebyshevDistance(a, b, true) <= ChebyshevDistance(a, b, false)
  {
  }

  /**
   * `safeForMouse`: off the board is unsafe unless walls wrap; otherwise the (wrapped)
   * cell is safe exactly when no body segment lies on it.
   */
  predicate SafeForMouse(c: Cell, wrap: bool, body: seq<Cell>) {
    (wrap || InGrid(c)) && Norm(c) !in body
  }

  lemma SafeForMouseOnBoard(c: Cell, wrap: bool, body: seq<Cell>)
    requires InGrid(c)
    ensures SafeForMouse(c, wrap, body) <==> c !in body
  {
  }

  // ---------------------------------------------------------------------------
  // The string key `${x},${y}` under which cells are stored in sets and maps.

  function DigitChar(d: int): (ch: char)
    requires 0 <= d < 10
    ensures '0' <= ch <= '9'
  {
    (('0' as int) + d) as char
  }

  /** Decimal digits of `n`, most significant first, without leading zeros. */
  function NatToString(n: nat): (s: string)
    ensures 1 <= |s|
    ensures n >= 10 ==> 2 <= |s|
    ensures forall i :: 0 <= i < |s| ==> '0' <= s[i] <= '9'
  {
    if n < 10 then [DigitChar(n)] else NatToString(n / 10) + [DigitChar(n % 10)]
  }

  /** How a JavaScript template literal prints an integer. */
  function IntToString(i: int): (s: string)
    ensures 1 <= |s|
    ensures s[0] == '-' <==> i < 0
    ensures forall k :: 0 <= k < |s| ==> s[k] != ','
  {
    if i < 0 then "-" + NatToString(-i) else NatToString(i)
  }

  function Key(c: Cell): string {
    IntToString(c.x) + "," + IntToString(c.y)
  }

  /** Position of the first comma of `s`, or `|s|` when there is none. */
  function CommaAt(s: string): (i: nat)
    ensures i <= |s|
  {
    if s == [] || s[0] == ',' then 0 else 1 + CommaAt(s[1..])
  }

  lemma {:induction false} CommaAfterPrefix(p: string, q: string)
    requires forall k :: 0 <= k < |p| ==> p[k] != ','
    ensures CommaAt(p + "," + q) == |p|
  {
    if p != [] {
      assert (p + "," + q)[1..] == p[1..] + "," + q;
      CommaAfterPrefix(p[1..], q);
    }
  }

  lemma {:induction false} NatToStringInjective(a: nat, b: nat)
    requires NatToString(a) == NatToString(b)
    ensures a == b
  {
    if a >= 10 && b >= 10 {
      var s, pa, pb := NatToString(a), NatToString(a / 10), NatToString(b / 10);
      assert s == pa + [DigitChar(a % 10)] && s == pb + [DigitChar(b % 10)];
      assert pa == s[..|s| - 1] == pb;
      NatToStringInjective(a / 10, b / 10);
      assert DigitChar(a % 10) == s[|s| - 1] == DigitChar(b % 10);
    }
  }

  lemma IntToStringInjective(i: int, j: int)
    requires IntToString(i) == IntToString(j)
    ensures i == j
  {
    if i < 0 && j < 0 {
      assert NatToString(-i) == IntToString(i)[1..] == NatToString(-j);
      NatToStringInjective(-i, -j);
    } else if i >= 0 && j >= 0 {
      NatToStringInjective(i, j);
    }
  }

  /** Different cells have different keys, so a set of keys is a faithful set of cells. */
  lemma KeyInjective(a: Cell, b: Cell)
    requires Key(a) == Key(b)
    ensures a == b
  {
    var xa, ya, xb, yb := IntToString(a.x), IntToString(a.y), IntToString(b.x), IntToString(b.y);
    var k := Key(a);
    assert k == xa + "," + ya && k == xb + "," + yb;
    CommaAfterPrefix(xa, ya);
    CommaAfterPrefix(xb, yb);
    assert xa == k[..|xa|] == xb;
    assert ya == k[|xa| + 1..] == yb;
    IntToStringInjective(a.x, b.x);
    IntToStringInjective(a.y, b.y);
  }
}
