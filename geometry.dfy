/** The overlap test and the motion of bodies (spaceinvaders.ts). */
module Geometry {
  import opened Options
  import opened Entities

  /** `collisionFormula`: the point `p` lies strictly inside the rectangle whose
      top-left corner is `q` and whose size is `w` x `h`. */
  predicate CollisionFormula(p: (real, real), q: (real, real), h: real, w: real)
  {
    (p.1 > q.1 && p.1 < q.1 + h) && (p.0 > q.0 && p.0 < q.0 + w)
  }

  function Corner(b: Body): (real, real)
  {
    (b.xPos, b.yPos)
  }

  /** `collisionCheck`: the corner of one body lies strictly inside the other. */
  predicate CollisionCheck(a: Body, b: Body)
  {
    CollisionFormula(Corner(a), Corner(b), b.bodyHeight, b.bodyWidth) ||
    CollisionFormula(Corner(b), Corner(a), a.bodyHeight, a.bodyWidth)
  }

  /** The open rectangles of two bodies intersect. */
  predicate BoxesIntersect(a: Body, b: Body)
  {
    a.xPos < b.xPos + b.bodyWidth && b.xPos < a.xPos + a.bodyWidth &&
    a.yPos < b.yPos + b.bodyHeight && b.yPos < a.yPos + a.bodyHeight
  }

  lemma CollisionCheckSymmetric(a: Body, b: Body)
    ensures CollisionCheck(a, b) <==> CollisionCheck(b, a)
  {
  }

  /** Strict bounds: bodies sharing their top-left corner never collide. */
  lemma SameCornerNoCollision(a: Body, b: Body)
    requires Corner(a) == Corner(b)
    ensures !CollisionCheck(a, b)
  {
  }

  /** The corner test only reports bodies whose rectangles really intersect... */
  lemma CollisionImpliesIntersection(a: Body, b: Body)
    requires a.bodyWidth >= 0.0 && a.bodyHeight >= 0.0 && b.bodyWidth >= 0.0 && b.bodyHeight >= 0.0
    ensures CollisionCheck(a, b) ==> BoxesIntersect(a, b)
  {
  }

  /** ...but misses rectangles that cross without either containing a corner
      of the other. */
  lemma CrossingBarsUndetected()
    ensures var bar, post := Body(1, 0.0, 10.0, 30.0, 5.0), Body(2, 10.0, 0.0, 5.0, 30.0);
            BoxesIntersect(bar, post) && !CollisionCheck(bar, post)
  {
  }

  /** `latChange`: the horizontal position after a step of `horiChange`,
      wrapping to the other side once the body passes a bound that lies one
      player width outside the canvas. */
  function LatChange(d: Dims, inpBody: Body, horiChange: real): real
  {
    var playerLeftBound := -d.playerWidth;
    var playerRightBound := d.canvasWidth + d.playerWidth;
    var moved := inpBody.xPos + horiChange;
    if moved <= playerLeftBound then d.canvasWidth - (inpBody.xPos + d.playerWidth)
    else if moved >= playerRightBound then playerLeftBound + moved - playerRightBound
    else moved
  }

  /** The band of horizontal positions the wrap-around keeps a body in. */
  predicate InBand(d: Dims, x: real)
  {
    -d.playerWidth <= x < d.canvasWidth + d.playerWidth
  }

  /** A step no longer than the band is wide keeps a body inside the band, and
      a step that stays strictly inside it is applied unchanged. */
  lemma LatChangeStaysInBand(d: Dims, b: Body, h: real)
    requires d.playerWidth > 0.0 && d.canvasWidth >= 0.0
    requires InBand(d, b.xPos)
    requires -(d.canvasWidth + d.playerWidth) <= h <= d.canvasWidth + d.playerWidth
    ensures InBand(d, LatChange(d, b, h))
    ensures -d.playerWidth < b.xPos + h < d.canvasWidth + d.playerWidth ==> LatChange(d, b, h) == b.xPos + h
  {
  }

  /** Leaving through the right bound is a translation by the band's width;
      leaving through the left bound reflects the old position into the
      canvas's right part. */
  lemma LatChangeWraps(d: Dims, b: Body, h: real)
    requires d.playerWidth > 0.0 && d.canvasWidth >= 0.0
    ensures b.xPos + h >= d.canvasWidth + d.playerWidth ==>
              LatChange(d, b, h) == b.xPos + h - (d.canvasWidth + 2.0 * d.playerWidth)
    ensures b.xPos + h <= -d.playerWidth ==>
              LatChange(d, b, h) + b.xPos == d.canvasWidth - d.playerWidth
  {
  }

  /** `moveBody`: a step moves a body sideways (with wrap-around) and down by
      the step's components; any other event moves it one unit down. An empty
      cell stays empty. */
  function MoveBody(d: Dims, inpBody: Option<Body>, e: Event): (r: Option<Body>)
    ensures r.Some? <==> inpBody.Some?
    ensures r.Some? ==> r.value.bodyId == inpBody.value.bodyId &&
                        r.value.bodyWidth == inpBody.value.bodyWidth &&
                        r.value.bodyHeight == inpBody.value.bodyHeight
    ensures r.Some? && e.Step? ==> r.value.xPos == LatChange(d, inpBody.value, e.horiStep)
    ensures r.Some? && e.Step? ==> r.value.yPos - inpBody.value.yPos == e.vertStep
    ensures r.Some? && !e.Step? ==> r.value.xPos == inpBody.value.xPos && r.value.yPos == inpBody.value.yPos + 1.0
  {
    match inpBody
    case None => None
    case Some(b) =>
      if e.Step? then Some(b.(xPos := LatChange(d, b, e.horiStep), yPos := b.yPos + e.vertStep))
      else Some(b.(yPos := b.yPos + 1.0))
  }

  /** `moveShot`: raises a shot by `yInc` (a negative `yInc` lowers it). */
  function MoveShot(inpBody: Body, yInc: real): (r: Body)
    ensures r.(yPos := inpBody.yPos) == inpBody
    ensures inpBody.yPos - r.yPos == yInc
  {
    inpBody.(yPos := inpBody.yPos - yInc)
  }
}
