/**
 * The single pseudo-random generator shared by the whole simulation, made
 * explicit: the sequence of its raw outputs is fixed once the seed is fixed.
 */
module Randomness {
  /**
   * The generator's bounded draw: an index below `n` obtained from one raw
   * output `d`. Every index below `n` is obtained from some raw output.
   */
  function RandBelow(d: nat, n: nat): (k: nat)
    requires n > 0
    ensures k < n
    ensures d < n ==> k == d
  {
    d % n
  }

  class RandomSource {
    /** The raw outputs of the generator, as determined by its seed. */
    const source: nat -> nat
    /** How many outputs have been consumed so far. */
    var cursor: nat

    constructor (source: nat -> nat)
      ensures this.source == source && cursor == 0
    {
      this.source := source;
      cursor := 0;
    }

    /** `random.choice(xs)`: one draw, an element of `xs`. */
    method Choice<T>(xs: seq<T>) returns (x: T)
      requires |xs| > 0
      modifies this
      ensures x == xs[RandBelow(source(old(cursor)), |xs|)]
      ensures x in xs
      ensures cursor == old(cursor) + 1
    {
      x := xs[RandBelow(source(cursor), |xs|)];
      cursor := cursor + 1;
    }
  }
}
