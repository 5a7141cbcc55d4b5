/**
 * The game's only source of chance, `Math.random`, as an injected oracle: a fixed tape of
 * draws in [0, 1) and a cursor that every draw advances.
 */
module Random {
  type Unit = r: real | 0.0 <= r < 1.0

  /** `Math.floor(r * n)`: a draw scaled to an index below `n`. */
  function Scale(r: Unit, n: nat): (k: int)
    requires n > 0
    ensures 0 <= k < n
  {
    var p := r * n as real;
    assert 0.0 <= p < n as real;
    p.Floor
  }

  class Rng {
    const tape: nat -> Unit
    var drawn: nat

    constructor (tape: nat -> Unit)
      ensures this.tape == tape && drawn == 0
    {
      this.tape := tape;
      drawn := 0;
    }

    /** One call of `Math.random()`. */
    method Next() returns (r: Unit)
      modifies this
      ensures r == tape(old(drawn)) && drawn == old(drawn) + 1
    {
      r := tape(drawn);
      drawn := drawn + 1;
    }

    /** `Math.floor(Math.random() * n)`. */
    method Below(n: nat) returns (k: nat)
      requires n > 0
      modifies this
      ensures k < n && k == Scale(tape(old(drawn)), n)
      ensures drawn == old(drawn) + 1
    {
      var r := Next();
      k := Scale(r, n);
    }
  }
}
