/** A pipe pair: a horizontal position and the top of its gap. */
module PipeModel {
  import opened Constants

  /** The abstract value of a pipe. */
  datatype PipeState = PipeState(x: int, gapY: int)

  /** An axis-aligned rectangle given by its top-left corner and its size, as a pygame Rect. */
  datatype Rect = Rect(left: int, top: int, width: int, height: int) {
    function Right(): int { left + width }
    function Bottom(): int { top + height }

    /** The pixel (px, py) lies inside: the left and top edges belong to the rectangle,
        the right and bottom edges do not. */
    predicate Contains(px: int, py: int) {
      left <= px < Right() && top <= py < Bottom()
    }
  }

  /** The two collidable rectangles of a pipe. */
  datatype PipeRects = PipeRects(upper: Rect, lower: Rect)

  /** The range a new pipe's gap position is drawn from (both ends included). */
  predicate LegalGap(gapY: int) {
    MIN_GAP_Y <= gapY <= MAX_GAP_Y
  }

  /** A pipe is kept while its right edge is still right of the screen's left border. */
  predicate OnScreen(p: PipeState) {
    p.x + PIPE_WIDTH > 0
  }

  /** One frame of pipe motion. */
  function Moved(p: PipeState): PipeState {
    p.(x := p.x - PIPE_SPEED)
  }

  /** The rectangles drawn for a pipe: the upper one reaches from the top of the screen
      down to the gap, the lower one from the end of the gap to the bottom of the screen. */
  function Rects(p: PipeState): (r: PipeRects)
    ensures r.upper.left == p.x && r.lower.left == p.x
    ensures r.upper.width == PIPE_WIDTH && r.lower.width == PIPE_WIDTH
    ensures r.upper.top == 0 && r.upper.Bottom() == p.gapY
    ensures r.lower.top - r.upper.Bottom() == PIPE_GAP
    ensures r.lower.Bottom() == SCREEN_HEIGHT
    ensures LegalGap(p.gapY) ==> r.upper.height >= GAP_MARGIN && r.lower.height >= GAP_MARGIN
    // With a legal gap the two rectangles and the gap tile the pipe's column of the screen.
    ensures LegalGap(p.gapY) ==>
      forall px, py :: p.x <= px < p.x + PIPE_WIDTH && 0 <= py < SCREEN_HEIGHT ==>
        (r.upper.Contains(px, py) <==> py < p.gapY) &&
        (r.lower.Contains(px, py) <==> p.gapY + PIPE_GAP <= py)
    ensures forall px, py :: !(r.upper.Contains(px, py) && r.lower.Contains(px, py))
  {
    PipeRects(Rect(p.x, 0, PIPE_WIDTH, p.gapY),
              Rect(p.x, p.gapY + PIPE_GAP, PIPE_WIDTH, SCREEN_HEIGHT - (p.gapY + PIPE_GAP)))
  }

  /** The mutable pipe of the game loop. */
  class Pipe {
    var x: int
    const gapY: int

    function State(): PipeState
      reads this
    {
      PipeState(x, gapY)
    }

    /** The gap position is the `random.randint` draw in `Pipe.__init__`; here the caller
        supplies it. */
    constructor (x: int, gapY: int)
      requires LegalGap(gapY)
      ensures State() == PipeState(x, gapY)
    {
      this.x := x;
      this.gapY := gapY;
    }

    method Move()
      modifies this
      ensures State() == Moved(old(State()))
      ensures x == old(x) - PIPE_SPEED
    {
      x := x - PIPE_SPEED;
    }
  }
}
