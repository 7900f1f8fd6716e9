/** The bird: a fixed horizontal position, a vertical position and a vertical velocity. */
module BirdModel {
  import opened Constants

  /** The abstract value of a bird. Screen coordinates grow downwards, so a
      negative velocity moves the bird up. */
  datatype BirdState = BirdState(x: int, y: real, velocity: real)

  /** The effect of a flap: the velocity is overwritten, whatever it was. */
  function Flapped(b: BirdState): BirdState {
    b.(velocity := -FLAP_STRENGTH)
  }

  /** One integration step: gravity first, then the new velocity moves the bird. */
  function Updated(b: BirdState): BirdState {
    var v := b.velocity + GRAVITY;
    b.(y := b.y + v, velocity := v)
  }

  /** The bird after n updates without a flap. */
  function Fall(b: BirdState, n: nat): BirdState {
    if n == 0 then b else Updated(Fall(b, n - 1))
  }

  /** A flap forgets the previous velocity: two birds at the same place flap into the same state. */
  lemma FlapForgetsVelocity(b1: BirdState, b2: BirdState)
    requires b1.x == b2.x && b1.y == b2.y
    ensures Flapped(b1) == Flapped(b2)
    ensures Flapped(b1).velocity == -FLAP_STRENGTH
    ensures Flapped(Flapped(b1)) == Flapped(b1)
  {
  }

  /** Closed form of free fall: velocity grows linearly, position quadratically, x never moves. */
  lemma {:induction false} FallClosedForm(b: BirdState, n: nat)
    ensures Fall(b, n).x == b.x
    ensures Fall(b, n).velocity == b.velocity + (n as real) * GRAVITY
    ensures Fall(b, n).y == b.y + (n as real) * b.velocity + GRAVITY * (n as real) * ((n + 1) as real) / 2.0
  {
    if n > 0 {
      FallClosedForm(b, n - 1);
      var m := (n - 1) as real;
      assert (n as real) == m + 1.0;
      assert GRAVITY * m * (m + 1.0) / 2.0 + (m + 1.0) * GRAVITY == GRAVITY * (m + 1.0) * (m + 2.0) / 2.0;
    }
  }

  /** The first five frames of the bird that a session starts with, if it never flaps. */
  lemma StartTrace()
    ensures Fall(BirdState(BIRD_START_X, BIRD_START_Y as real, 0.0), 5)
         == BirdState(100, 307.5, 2.5)
  {
    FallClosedForm(BirdState(BIRD_START_X, BIRD_START_Y as real, 0.0), 5);
  }

  /** After a flap the bird keeps rising for exactly 20 frames: its velocity is negative
      before the 20th update and zero at it. */
  lemma {:induction false} FlapRiseTime(b: BirdState, k: nat)
    ensures Fall(Flapped(b), k).velocity < 0.0 <==> k < 20
    ensures Fall(Flapped(b), k).velocity == 0.0 <==> k == 20
  {
    FallClosedForm(Flapped(b), k);
  }

  /** The bird after one frame per element of `flaps`: frame i flaps first if `flaps[i]`,
      then updates. */
  function BirdAfter(b: BirdState, flaps: seq<bool>): BirdState
    decreases |flaps|
  {
    if flaps == [] then b
    else
      var prev := BirdAfter(b, flaps[..|flaps| - 1]);
      Updated(if flaps[|flaps| - 1] then Flapped(prev) else prev)
  }

  /** One more frame: the fold over the first i + 1 inputs is one frame after the fold over
      the first i. */
  lemma BirdAfterSnoc(b: BirdState, flaps: seq<bool>, i: nat)
    requires i < |flaps|
    ensures BirdAfter(b, flaps[..i + 1])
         == Updated(if flaps[i] then Flapped(BirdAfter(b, flaps[..i])) else BirdAfter(b, flaps[..i]))
  {
    assert flaps[..i + 1][..i] == flaps[..i];
  }

  /** Frames without a flap are free fall. */
  lemma {:induction false} BirdAfterNoFlaps(b: BirdState, flaps: seq<bool>)
    requires forall i :: 0 <= i < |flaps| ==> !flaps[i]
    ensures BirdAfter(b, flaps) == Fall(b, |flaps|)
    decreases |flaps|
  {
    if flaps != [] {
      BirdAfterNoFlaps(b, flaps[..|flaps| - 1]);
    }
  }

  /** Only the last flap matters: after a flap in frame i, the bird is the one that flapped
      then and fell freely for the remaining frames. */
  lemma {:induction false} BirdAfterLastFlap(b: BirdState, flaps: seq<bool>, i: nat)
    requires i < |flaps| && flaps[i]
    requires forall j :: i < j < |flaps| ==> !flaps[j]
    ensures BirdAfter(b, flaps) == Fall(Flapped(BirdAfter(b, flaps[..i])), |flaps| - i)
    decreases |flaps|
  {
    var n := |flaps|;
    if n - 1 == i {
      assert flaps[..n - 1] == flaps[..i];
    } else {
      assert flaps[..n - 1][..i] == flaps[..i];
      BirdAfterLastFlap(b, flaps[..n - 1], i);
    }
  }

  /** The mutable bird of the game loop. */
  class Bird {
    const x: int
    var y: real
    var velocity: real

    function State(): BirdState
      reads this
    {
      BirdState(x, y, velocity)
    }

    constructor (x: int, y: real)
      ensures State() == BirdState(x, y, 0.0)
    {
      this.x := x;
      this.y := y;
      velocity := 0.0;
    }

    method Flap()
      modifies this
      ensures State() == Flapped(old(State()))
      ensures velocity == -FLAP_STRENGTH && y == old(y)
    {
      velocity := -FLAP_STRENGTH;
    }

    method Update()
      modifies this
      ensures State() == Updated(old(State()))
      ensures velocity == old(velocity) + GRAVITY && y == old(y) + velocity
    {
      velocity := velocity + GRAVITY;
      y := y + velocity;
    }
  }
}
