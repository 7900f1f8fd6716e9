/** The state the main loop of game.py keeps between frames, and one frame of it. */
module GameLoop {
  import opened Constants
  import opened BirdModel
  import opened PipeModel
  import opened PipeStream

  /** The values of a list of pipe objects. */
  function View(ps: seq<Pipe>): (r: seq<PipeState>)
    reads ps
    ensures |r| == |ps|
  {
    if ps == [] then [] else [ps[0].State()] + View(ps[1..])
  }

  lemma {:induction false} ViewAt(ps: seq<Pipe>)
    ensures forall i :: 0 <= i < |ps| ==> View(ps)[i] == ps[i].State()
  {
    if ps != [] {
      ViewAt(ps[1..]);
      assert forall i :: 0 < i < |ps| ==> ps[1..][i - 1] == ps[i];
    }
  }

  lemma {:induction false} ViewSnoc(ps: seq<Pipe>, p: Pipe)
    ensures View(ps + [p]) == View(ps) + [p.State()]
  {
    ViewAt(ps + [p]);
    ViewAt(ps);
    assert forall i :: 0 <= i < |ps| ==> (ps + [p])[i] == ps[i];
  }

  /** The pipe objects of a list, as a frame. */
  function Footprint(ps: seq<Pipe>): set<object> {
    set p | p in ps
  }

  /** No pipe object occurs twice in the list. */
  predicate Distinct(ps: seq<Pipe>) {
    forall i, j :: 0 <= i < j < |ps| ==> ps[i] != ps[j]
  }

  /** The list comprehension that keeps the pipe objects still on screen: it drops
      references, it does not copy or change the pipes. */
  function KeepOnScreen(ps: seq<Pipe>): (r: seq<Pipe>)
    reads ps
    ensures forall p :: p in r ==> p in ps
  {
    if ps == [] then []
    else if OnScreen(ps[0].State()) then [ps[0]] + KeepOnScreen(ps[1..])
    else KeepOnScreen(ps[1..])
  }

  lemma {:induction false} KeepOnScreenDistinct(ps: seq<Pipe>)
    requires Distinct(ps)
    ensures Distinct(KeepOnScreen(ps))
  {
    if ps != [] {
      KeepOnScreenDistinct(ps[1..]);
      assert ps[0] !in ps[1..];
    }
  }

  lemma ViewCons(p: Pipe, ps: seq<Pipe>)
    ensures View([p] + ps) == [p.State()] + View(ps)
  {
    assert ([p] + ps)[1..] == ps;
  }

  /** Filtering the objects and then reading their values is pruning the values. */
  lemma {:induction false} KeepOnScreenView(ps: seq<Pipe>)
    ensures View(KeepOnScreen(ps)) == Prune(View(ps))
  {
    if ps != [] {
      KeepOnScreenView(ps[1..]);
      var vs := View(ps);
      assert vs[1..] == View(ps[1..]);
      assert vs == [vs[0]] + vs[1..];
      if OnScreen(ps[0].State()) {
        ViewCons(ps[0], KeepOnScreen(ps[1..]));
      }
    }
  }

  /** The `for pipe in pipes: pipe.move()` loop. */
  method MovePipes(ps: seq<Pipe>)
    requires Distinct(ps)
    modifies ps
    ensures View(ps) == MovedAll(old(View(ps)))
  {
    ghost var before := View(ps);
    ViewAt(ps);
    for i := 0 to |ps|
      invariant forall j :: 0 <= j < i ==> ps[j].State() == Moved(before[j])
      invariant forall j :: i <= j < |ps| ==> ps[j].State() == before[j]
    {
      ps[i].Move();
    }
    ViewAt(ps);
  }

  /** Lines 159-169 of the loop body on the list of pipe objects: count the frame, spawn a
      pipe at the right border if the new count is a multiple of the spawn interval, move
      every pipe, keep the ones still on screen. Returns the new list and the new count. */
  method AdvanceStream(ps: seq<Pipe>, frameCount: nat, gapY: int) returns (r: seq<Pipe>, count: nat)
    requires Distinct(ps)
    requires LegalGap(gapY)
    modifies ps
    ensures count == frameCount + 1
    ensures Distinct(r)
    ensures View(r) == StepPipes(old(View(ps)), frameCount, gapY)
    ensures fresh(Footprint(r) - Footprint(ps))
  {
    count := frameCount + 1;
    var live := SpawnPipe(ps, count, gapY);
    MovePipes(live);
    KeepOnScreenView(live);
    KeepOnScreenDistinct(live);
    r := KeepOnScreen(live);
  }

  /** Lines 160-162: on every hundredth frame a new pipe with the drawn gap is appended at
      the right border. */
  method SpawnPipe(ps: seq<Pipe>, count: nat, gapY: int) returns (r: seq<Pipe>)
    requires Distinct(ps)
    requires LegalGap(gapY)
    ensures Distinct(r)
    ensures View(r) == Spawned(View(ps), count, gapY)
    ensures fresh(Footprint(r) - Footprint(ps))
  {
    r := ps;
    if count % SPAWN_INTERVAL == 0 {
      var p := new Pipe(SCREEN_WIDTH, gapY);
      r := r + [p];
      ViewSnoc(ps, p);
    }
  }

  /** The variables of `main`: the bird, the live pipes and the frame counter. */
  class Game {
    const bird: Bird
    var pipes: seq<Pipe>
    var frameCount: nat

    /** No pipe object is listed twice, and the pipe values satisfy the invariant of the
        pipe stream for the current frame count. */
    ghost predicate Valid()
      reads this, pipes
    {
      Distinct(pipes) && StreamInvariant(View(pipes), frameCount)
    }

    /** The values of the live pipes, oldest first. */
    function Pipes(): seq<PipeState>
      reads this, pipes
    {
      View(pipes)
    }

    /** The set-up before the loop: the bird at (100, 300) at rest, no pipes, count 0. */
    constructor ()
      ensures Valid() && fresh(bird)
      ensures bird.State() == BirdState(100, 300.0, 0.0)
      ensures pipes == [] && frameCount == 0
    {
      bird := new Bird(BIRD_START_X, BIRD_START_Y as real);
      pipes := [];
      frameCount := 0;
    }

    /** One iteration of the main loop without the drawing. `flapRequested` says whether a
        space key-down event arrived this frame (several presses in one frame flap once
        each, which leaves the same state as one flap); `gapY` is the random draw used if
        a pipe is spawned. */
    method Step(flapRequested: bool, gapY: int)
      requires Valid()
      requires LegalGap(gapY)
      modifies this, bird, pipes
      ensures Valid()
      ensures bird.State() == Updated(if flapRequested then Flapped(old(bird.State())) else old(bird.State()))
      ensures frameCount == old(frameCount) + 1
      ensures Pipes() == StepPipes(old(Pipes()), old(frameCount), gapY)
      ensures fresh(Footprint(pipes) - Footprint(old(pipes)))
    {
      ghost var before := Pipes();
      if flapRequested {
        bird.Flap();
      }
      bird.Update();
      assert Pipes() == before;
      AdvancePipes(gapY);
    }

    /** The pipe half of a frame: count the frame, then spawn, move and prune. */
    method AdvancePipes(gapY: int)
      requires Valid()
      requires LegalGap(gapY)
      modifies this, pipes
      ensures Valid()
      ensures frameCount == old(frameCount) + 1
      ensures Pipes() == StepPipes(old(Pipes()), old(frameCount), gapY)
      ensures fresh(Footprint(pipes) - Footprint(old(pipes)))
    {
      ghost var before, previous := Pipes(), frameCount;
      var kept, count := AdvanceStream(pipes, frameCount, gapY);
      pipes, frameCount := kept, count;
      assert Pipes() == StepPipes(before, previous, gapY);
      assert StreamInvariant(Pipes(), frameCount) by {
        StepPreservesInvariant(before, previous, gapY);
      }
    }

    /** The `while True` loop for as many frames as there are inputs: frame i flaps if
        `flaps[i]` and draws the gap `gaps[i]` if it spawns a pipe. */
    method Run(flaps: seq<bool>, gaps: seq<int>)
      requires Valid()
      requires |flaps| == |gaps|
      requires forall i :: 0 <= i < |gaps| ==> LegalGap(gaps[i])
      modifies this, bird, pipes
      ensures Valid()
      ensures frameCount == old(frameCount) + |flaps|
      ensures bird.State() == BirdAfter(old(bird.State()), flaps)
      ensures Pipes() == PipesAfter(old(Pipes()), old(frameCount), gaps)
      ensures |Pipes()| <= 2
    {
      ghost var bird0, pipes0, count0 := bird.State(), Pipes(), frameCount;
      for i := 0 to |flaps|
        invariant Valid()
        invariant frameCount == count0 + i
        invariant bird.State() == BirdAfter(bird0, flaps[..i])
        invariant Pipes() == PipesAfter(pipes0, count0, gaps[..i])
        invariant fresh(Footprint(pipes) - Footprint(old(pipes)))
      {
        ghost var fc := frameCount;
        Step(flaps[i], gaps[i]);
        assert bird.State() == BirdAfter(bird0, flaps[..i + 1]) by {
          BirdAfterSnoc(bird0, flaps, i);
        }
        assert Pipes() == PipesAfter(pipes0, count0, gaps[..i + 1]) by {
          PipesAfterSnoc(pipes0, count0, gaps, i, fc);
        }
      }
      assert flaps[..|flaps|] == flaps;
      assert gaps[..|gaps|] == gaps;
      AtMostTwoPipes(Pipes(), frameCount);
    }
  }
}
