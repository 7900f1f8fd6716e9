/** The list of live pipes as values, and what one frame of the game loop does to it:
    spawn on every hundredth frame, move every pipe, drop the pipes that left the screen. */
module PipeStream {
  import opened Constants
  import opened PipeModel

  /** How far apart two consecutive pipes are: the distance a pipe moves in one spawn interval. */
  const SPACING: int := SPAWN_INTERVAL * PIPE_SPEED

  /** The list after the spawn test of a frame whose incremented count is `count`. */
  function Spawned(ps: seq<PipeState>, count: nat, gapY: int): (r: seq<PipeState>)
    ensures |r| == |ps| + 1 <==> count % SPAWN_INTERVAL == 0
    ensures |ps| <= |r| && r[..|ps|] == ps
    ensures count % SPAWN_INTERVAL != 0 ==> r == ps
    ensures count % SPAWN_INTERVAL == 0 ==> r[|ps|] == PipeState(SCREEN_WIDTH, gapY)
  {
    if count % SPAWN_INTERVAL == 0 then ps + [PipeState(SCREEN_WIDTH, gapY)] else ps
  }

  /** Every pipe of the list moved by one frame, in the same order. */
  function MovedAll(ps: seq<PipeState>): (r: seq<PipeState>)
    ensures |r| == |ps|
    ensures forall i :: 0 <= i < |ps| ==> r[i] == Moved(ps[i])
  {
    if ps == [] then [] else [Moved(ps[0])] + MovedAll(ps[1..])
  }

  /** `r` is `s` with some elements left out and the others in their original order. */
  predicate IsSubsequence<T(==)>(r: seq<T>, s: seq<T>)
    decreases |s|
  {
    if r == [] then true
    else if s == [] then false
    else if r[0] == s[0] then IsSubsequence(r[1..], s[1..])
    else IsSubsequence(r, s[1..])
  }

  /** The pipes that are still on screen, in their original order; exactly the pipes
      whose right edge is at or left of the screen's left border are removed. */
  function Prune(ps: seq<PipeState>): seq<PipeState> {
    if ps == [] then []
    else if OnScreen(ps[0]) then [ps[0]] + Prune(ps[1..])
    else Prune(ps[1..])
  }

  /** Prune is the filter of the list comprehension: every pipe it keeps is on screen, it
      keeps every on-screen pipe as often as it occurs and removes every other one, and
      it keeps the relative order. */
  lemma {:induction false} PruneIsFilter(ps: seq<PipeState>)
    ensures forall i :: 0 <= i < |Prune(ps)| ==> OnScreen(Prune(ps)[i])
    ensures forall q :: multiset(Prune(ps))[q] == if OnScreen(q) then multiset(ps)[q] else 0
    ensures IsSubsequence(Prune(ps), ps)
  {
    if ps != [] {
      PruneIsFilter(ps[1..]);
      assert ps == [ps[0]] + ps[1..];
      if OnScreen(ps[0]) {
        assert Prune(ps)[1..] == Prune(ps[1..]);
      }
    }
  }

  /** One frame of the game loop on the pipe list; `frameCount` is the count before the frame. */
  function StepPipes(ps: seq<PipeState>, frameCount: nat, gapY: int): seq<PipeState> {
    Prune(MovedAll(Spawned(ps, frameCount + 1, gapY)))
  }

  /** Pipes ordered by strictly increasing x: the oldest, leftmost pipe first. */
  predicate Ascending(ps: seq<PipeState>) {
    forall i, j :: 0 <= i < j < |ps| ==> ps[i].x < ps[j].x
  }

  /** Consecutive pipes are exactly one spawn interval of motion apart: the i-th pipe is
      i spacings right of the first. */
  predicate Spaced(ps: seq<PipeState>) {
    forall i :: 0 <= i < |ps| ==> ps[i].x == ps[0].x + SPACING * i
  }

  /** Where the newest pipe is at the end of frame `frameCount`: it was spawned at the right
      border on the last frame whose count was a multiple of the spawn interval, and it has
      moved once on every frame since, that one included. */
  function NewestX(frameCount: nat): int {
    SCREEN_WIDTH - PIPE_SPEED * (FramesSinceSpawn(frameCount) + 1)
  }

  /** How many frames ago the last spawn frame was: `frameCount % SPAWN_INTERVAL`, written
      as a recursion so that the solver does not have to reason about `%`. */
  function FramesSinceSpawn(frameCount: nat): (r: nat)
    ensures r < SPAWN_INTERVAL
  {
    if frameCount < SPAWN_INTERVAL then frameCount else FramesSinceSpawn(frameCount - SPAWN_INTERVAL)
  }

  lemma {:induction false} FramesSinceSpawnIsMod(frameCount: nat)
    ensures FramesSinceSpawn(frameCount) == frameCount % SPAWN_INTERVAL
  {
    if frameCount >= SPAWN_INTERVAL {
      FramesSinceSpawnIsMod(frameCount - SPAWN_INTERVAL);
    }
  }

  /** What holds of the pipe list at the end of every frame. */
  predicate StreamInvariant(ps: seq<PipeState>, frameCount: nat) {
    LegalGaps(ps) &&
    (forall i :: 0 <= i < |ps| ==> OnScreen(ps[i])) &&
    Spaced(ps) &&
    (frameCount < SPAWN_INTERVAL ==> ps == []) &&
    (frameCount >= SPAWN_INTERVAL ==> |ps| > 0 && ps[|ps| - 1].x == NewestX(frameCount))
  }

  lemma SpacedSpan(ps: seq<PipeState>, i: nat, j: nat)
    requires Spaced(ps) && i <= j < |ps|
    ensures ps[j].x - ps[i].x == SPACING * (j - i)
  {
  }

  lemma SpacedAscending(ps: seq<PipeState>)
    requires Spaced(ps)
    ensures Ascending(ps)
  {
    forall i, j | 0 <= i < j < |ps|
      ensures ps[i].x < ps[j].x
    {
      SpacedSpan(ps, i, j);
    }
  }

  lemma {:induction false} SubsequenceKeepsMembers<T>(r: seq<T>, s: seq<T>)
    requires IsSubsequence(r, s)
    ensures forall q :: q in r ==> q in s
  {
    if r != [] && s != [] {
      if r[0] == s[0] {
        SubsequenceKeepsMembers(r[1..], s[1..]);
        assert r == [r[0]] + r[1..];
      } else {
        SubsequenceKeepsMembers(r, s[1..]);
      }
    }
  }

  /** Leaving pipes out never changes the order of the others. */
  lemma {:induction false} SubsequenceKeepsOrder(r: seq<PipeState>, s: seq<PipeState>)
    requires IsSubsequence(r, s) && Ascending(s)
    ensures Ascending(r)
  {
    if r != [] && s != [] {
      if r[0] == s[0] {
        assert Ascending(s[1..]);
        SubsequenceKeepsOrder(r[1..], s[1..]);
        SubsequenceKeepsMembers(r[1..], s[1..]);
        forall j | 0 < j < |r|
          ensures r[0].x < r[j].x
        {
          assert r[j] in r[1..];
        }
      } else {
        assert Ascending(s[1..]);
        SubsequenceKeepsOrder(r, s[1..]);
      }
    }
  }

  /** The pruned list keeps spawn order. */
  lemma PruneKeepsOrder(ps: seq<PipeState>)
    requires Ascending(ps)
    ensures Ascending(Prune(ps))
  {
    PruneIsFilter(ps);
    SubsequenceKeepsOrder(Prune(ps), ps);
  }

  lemma {:induction false} PruneKeepsAllOnScreen(ps: seq<PipeState>)
    requires forall i :: 0 <= i < |ps| ==> OnScreen(ps[i])
    ensures Prune(ps) == ps
  {
    if ps != [] {
      PruneKeepsAllOnScreen(ps[1..]);
    }
  }

  /** On an ordered list the pipes that leave the screen are the oldest ones, so pruning
      drops a prefix. */
  lemma {:induction false} PruneDropsPrefix(ps: seq<PipeState>) returns (k: nat)
    requires Ascending(ps)
    ensures k <= |ps| && Prune(ps) == ps[k..]
    ensures forall i :: 0 <= i < k ==> !OnScreen(ps[i])
    ensures forall i :: k <= i < |ps| ==> OnScreen(ps[i])
  {
    if ps == [] {
      k := 0;
    } else if OnScreen(ps[0]) {
      PruneKeepsAllOnScreen(ps);
      k := 0;
    } else {
      assert Ascending(ps[1..]);
      var k' := PruneDropsPrefix(ps[1..]);
      k := k' + 1;
      assert ps[1..][k'..] == ps[k..];
    }
  }

  /** Every pipe that survives a frame is a moved copy of a pipe that was there before the
      frame or was spawned by it. */
  lemma StepMovesSurvivors(ps: seq<PipeState>, frameCount: nat, gapY: int)
    ensures forall q :: q in StepPipes(ps, frameCount, gapY) ==>
      OnScreen(q) && PipeState(q.x + PIPE_SPEED, q.gapY) in Spawned(ps, frameCount + 1, gapY)
  {
    var s := Spawned(ps, frameCount + 1, gapY);
    var m := MovedAll(s);
    PruneIsFilter(m);
    SubsequenceKeepsMembers(Prune(m), m);
    forall q | q in StepPipes(ps, frameCount, gapY)
      ensures OnScreen(q) && PipeState(q.x + PIPE_SPEED, q.gapY) in s
    {
      assert multiset(Prune(m))[q] > 0;
      var i :| 0 <= i < |m| && m[i] == q;
      assert s[i] == PipeState(q.x + PIPE_SPEED, q.gapY);
    }
  }

  /** Every pipe of the list has a legal gap position. */
  predicate LegalGaps(ps: seq<PipeState>) {
    forall i :: 0 <= i < |ps| ==> LegalGap(ps[i].gapY)
  }

  /** After the spawn test of a frame that is not among the first 99, the newest pipe is
      one spawn position further right than at the end of the previous frame. */
  lemma SpawnedInvariant(ps: seq<PipeState>, frameCount: nat, gapY: int)
    requires StreamInvariant(ps, frameCount) && LegalGap(gapY)
    requires frameCount + 1 >= SPAWN_INTERVAL
    ensures var s := Spawned(ps, frameCount + 1, gapY);
      |s| > 0 && s[|s| - 1].x == NewestX(frameCount + 1) + PIPE_SPEED &&
      Spaced(s) && LegalGaps(s)
  {
    var count := frameCount + 1;
    var s := Spawned(ps, count, gapY);
    FramesSinceSpawnIsMod(frameCount);
    FramesSinceSpawnIsMod(count);
    if count % SPAWN_INTERVAL == 0 {
      if ps != [] {
        assert frameCount % SPAWN_INTERVAL == SPAWN_INTERVAL - 1;
        assert s[|ps|].x == s[|ps| - 1].x + SPACING;
      }
      forall i | 0 <= i < |s| ensures LegalGap(s[i].gapY) {
        if i < |ps| { assert s[i] == ps[i]; }
      }
    } else {
      assert frameCount >= SPAWN_INTERVAL;
      assert count % SPAWN_INTERVAL == frameCount % SPAWN_INTERVAL + 1;
    }
  }

  /** Moving every pipe keeps the spacing and the gaps. */
  lemma MovedKeepsShape(s: seq<PipeState>)
    requires Spaced(s) && LegalGaps(s)
    ensures Spaced(MovedAll(s)) && LegalGaps(MovedAll(s))
  {
  }

  /** A suffix of an evenly spaced list with legal gaps is one too. */
  lemma SuffixKeepsShape(m: seq<PipeState>, k: nat)
    requires Spaced(m) && LegalGaps(m) && k <= |m|
    ensures Spaced(m[k..]) && LegalGaps(m[k..])
  {
    var r := m[k..];
    forall i | 0 < i < |r| ensures r[i].x == r[i - 1].x + SPACING {
      assert r[i] == m[k + i] && r[i - 1] == m[k + i - 1];
    }
    forall i | 0 <= i < |r| ensures LegalGap(r[i].gapY) {
      assert r[i] == m[k + i];
    }
  }

  /** Pruning an evenly spaced list whose newest pipe is where frame `count` puts it
      gives a list that satisfies the invariant at `count`. */
  lemma PruneEstablishesInvariant(m: seq<PipeState>, count: nat)
    requires Spaced(m) && LegalGaps(m) && count >= SPAWN_INTERVAL
    requires |m| > 0 && m[|m| - 1].x == NewestX(count)
    ensures StreamInvariant(Prune(m), count)
  {
    SpacedAscending(m);
    var k := PruneDropsPrefix(m);
    assert OnScreen(m[|m| - 1]);
    SuffixKeepsShape(m, k);
    var r := m[k..];
    assert r[|r| - 1] == m[|m| - 1];
  }

  /** The frame step keeps the invariant: the list stays ordered, evenly spaced, on screen,
      with legal gaps, and its newest pipe is where the frame count says it is. */
  lemma StepPreservesInvariant(ps: seq<PipeState>, frameCount: nat, gapY: int)
    requires StreamInvariant(ps, frameCount)
    requires LegalGap(gapY)
    ensures StreamInvariant(StepPipes(ps, frameCount, gapY), frameCount + 1)
  {
    var s := Spawned(ps, frameCount + 1, gapY);
    var m := MovedAll(s);
    if frameCount + 1 < SPAWN_INTERVAL {
      assert m == [];
    } else {
      SpawnedInvariant(ps, frameCount, gapY);
      MovedKeepsShape(s);
      PruneEstablishesInvariant(m, frameCount + 1);
    }
  }

  /** A frame appends a pipe exactly when its incremented count is a multiple of the spawn
      interval: then the newest pipe afterwards is the spawned one, moved once, with the
      drawn gap; on every other frame the newest pipe is not at that position. */
  lemma StepSpawnsNewest(ps: seq<PipeState>, frameCount: nat, gapY: int)
    requires StreamInvariant(ps, frameCount)
    requires LegalGap(gapY)
    ensures var r := StepPipes(ps, frameCount, gapY);
      (frameCount + 1) % SPAWN_INTERVAL == 0 <==>
        |r| > 0 && r[|r| - 1] == PipeState(SCREEN_WIDTH - PIPE_SPEED, gapY)
  {
    var count := frameCount + 1;
    StepPreservesInvariant(ps, frameCount, gapY);
    FramesSinceSpawnIsMod(count);
    if count % SPAWN_INTERVAL == 0 {
      var s := Spawned(ps, count, gapY);
      var m := MovedAll(s);
      SpawnedInvariant(ps, frameCount, gapY);
      MovedKeepsShape(s);
      SpacedAscending(m);
      var k := PruneDropsPrefix(m);
      assert m[|m| - 1] == PipeState(SCREEN_WIDTH - PIPE_SPEED, gapY);
      assert OnScreen(m[|m| - 1]);
      var r := m[k..];
      assert r[|r| - 1] == m[|m| - 1];
    }
  }

  /** With one pipe every 500 pixels and a screen 800 pixels wide, at most two pipes are
      ever alive; they are in spawn order and none has reached the right border. */
  lemma AtMostTwoPipes(ps: seq<PipeState>, frameCount: nat)
    requires StreamInvariant(ps, frameCount)
    ensures |ps| <= 2
    ensures Ascending(ps)
    ensures forall i :: 0 <= i < |ps| ==> ps[i].x < SCREEN_WIDTH
  {
    SpacedAscending(ps);
    if ps != [] {
      SpacedSpan(ps, 0, |ps| - 1);
    }
  }
  /** The pipe list after one frame per element of `gaps`, starting from `ps` with frame
      count `frameCount`; frame i draws `gaps[i]` if it spawns. */
  function PipesAfter(ps: seq<PipeState>, frameCount: nat, gaps: seq<int>): seq<PipeState>
    decreases |gaps|
  {
    if gaps == [] then ps
    else StepPipes(PipesAfter(ps, frameCount, gaps[..|gaps| - 1]), frameCount + |gaps| - 1, gaps[|gaps| - 1])
  }

  /** One more frame: the fold over the first i + 1 draws is one frame after the fold over
      the first i, which leaves the frame count at `current`. */
  lemma PipesAfterSnoc(ps: seq<PipeState>, frameCount: nat, gaps: seq<int>, i: nat, current: nat)
    requires i < |gaps| && current == frameCount + i
    ensures PipesAfter(ps, frameCount, gaps[..i + 1])
         == StepPipes(PipesAfter(ps, frameCount, gaps[..i]), current, gaps[i])
  {
    assert gaps[..i + 1][..i] == gaps[..i];
  }

  /** The last of several frames keeps the stream invariant. */
  lemma PipesAfterLastStep(ps: seq<PipeState>, frameCount: nat, gaps: seq<int>)
    requires |gaps| > 0 && LegalGap(gaps[|gaps| - 1])
    requires StreamInvariant(PipesAfter(ps, frameCount, gaps[..|gaps| - 1]), frameCount + |gaps| - 1)
    ensures StreamInvariant(PipesAfter(ps, frameCount, gaps), frameCount + |gaps|)
  {
    var prev, current := PipesAfter(ps, frameCount, gaps[..|gaps| - 1]), frameCount + |gaps| - 1;
    StepPreservesInvariant(prev, current, gaps[|gaps| - 1]);
    InvariantCongruence(StepPipes(prev, current, gaps[|gaps| - 1]), current + 1,
                        PipesAfter(ps, frameCount, gaps), frameCount + |gaps|);
  }

  lemma InvariantCongruence(a: seq<PipeState>, fa: nat, b: seq<PipeState>, fb: nat)
    requires StreamInvariant(a, fa) && a == b && fa == fb
    ensures StreamInvariant(b, fb)
  {
  }

  /** Any number of frames with legal draws keeps the stream invariant. */
  lemma {:induction false} PipesAfterInvariant(ps: seq<PipeState>, frameCount: nat, gaps: seq<int>)
    requires StreamInvariant(ps, frameCount)
    requires forall i :: 0 <= i < |gaps| ==> LegalGap(gaps[i])
    ensures StreamInvariant(PipesAfter(ps, frameCount, gaps), frameCount + |gaps|)
    decreases |gaps|
  {
    if gaps != [] {
      var front := gaps[..|gaps| - 1];
      assert forall i :: 0 <= i < |front| ==> LegalGap(front[i]) by {
        assert forall i :: 0 <= i < |front| ==> front[i] == gaps[i];
      }
      PipesAfterInvariant(ps, frameCount, front);
      PipesAfterLastStep(ps, frameCount, gaps);
    }
  }

  /** However many frames pass, at most two pipes are alive, in spawn order. */
  lemma PipesAfterAtMostTwo(ps: seq<PipeState>, frameCount: nat, gaps: seq<int>)
    requires StreamInvariant(ps, frameCount)
    requires forall i :: 0 <= i < |gaps| ==> LegalGap(gaps[i])
    ensures |PipesAfter(ps, frameCount, gaps)| <= 2
    ensures Ascending(PipesAfter(ps, frameCount, gaps))
  {
    PipesAfterInvariant(ps, frameCount, gaps);
    AtMostTwoPipes(PipesAfter(ps, frameCount, gaps), frameCount + |gaps|);
  }
}
