/** Math.random, abstracted: a fixed stream of draws in [0, 1) and the number
    of draws consumed so far. Which draw an operation sees depends only on how
    many draws came before it, so the order of consumption is part of the model. */
module Random {

  /** A single Math.random result lies in [0, 1). */
  predicate IsUnitDraw(r: real)
  {
    0.0 <= r < 1.0
  }

  /** Every draw of the stream lies in [0, 1). */
  ghost predicate IsUnitStream(stream: nat -> real)
  {
    forall i: nat :: IsUnitDraw(stream(i))
  }

  /** The global random number generator: `stream(drawn)` is the next result. */
  class RandomSource {
    const stream: nat -> real
    var drawn: nat

    ghost predicate Valid()
    {
      IsUnitStream(stream)
    }

    constructor (stream: nat -> real)
      requires IsUnitStream(stream)
      ensures Valid()
      ensures this.stream == stream && drawn == 0
    {
      this.stream := stream;
      drawn := 0;
    }

    /** One call of Math.random: the next draw of the stream. */
    method Next() returns (r: real)
      requires Valid()
      modifies this`drawn
      ensures IsUnitDraw(r)
      ensures r == stream(old(drawn)) && drawn == old(drawn) + 1
    {
      r := stream(drawn);
      drawn := drawn + 1;
    }
  }
}
