/** The placement rule of `positionPopover`: centre the popover under its target,
    keep it inside the viewport horizontally, and flip it above the target when
    there is no room below but there is room above. Lengths are exact reals. */
module Positioning {

  /** The gap, in CSS pixels, kept between the popover and its target and between
      the popover and the left and right edges of the viewport. */
  const Margin: real := 8.0

  /** The parts of the target's bounding client rectangle that the rule reads, in
      viewport coordinates. */
  datatype Rect = Rect(left: real, top: real, bottom: real, width: real)

  /** The window's scroll offsets and the document element's client width and
      height. */
  datatype Viewport = Viewport(scrollX: real, scrollY: real, width: real, height: real)

  /** Everything one call of the rule measures: the target, the rendered popover's
      width and height, and the viewport. */
  datatype Geometry = Geometry(target: Rect, popWidth: real, popHeight: real, view: Viewport)

  /** The popover's `left` and `top` style (page coordinates) and whether it
      carries the `ce-popover-above` class. */
  datatype Placement = Placement(left: real, top: real, above: bool)

  /** The two horizontal guards, in order: raise `left` to the margin, then pull
      it back so that its right edge is a margin inside the viewport. When the
      popover fits it ends inside the band; when it does not, the right guard
      wins; a position already inside the band is left alone, one left of it is
      pinned to the margin when the popover fits, and one overflowing the right
      edge is pulled back to a margin from it. */
  function ClampLeft(left: real, popWidth: real, vw: real): (r: real)
    ensures popWidth <= vw - 2.0 * Margin ==> Margin <= r <= vw - popWidth - Margin
    ensures popWidth > vw - 2.0 * Margin ==> r == vw - popWidth - Margin && r < Margin
    ensures Margin <= left && left + popWidth <= vw - Margin ==> r == left
    ensures left < Margin && popWidth <= vw - 2.0 * Margin ==> r == Margin
    ensures left + popWidth > vw - Margin ==> r == vw - popWidth - Margin
  {
    var raised := if left < 8.0 then 8.0 else left;
    if raised + popWidth > vw - 8.0 then vw - popWidth - 8.0 else raised
  }

  /** The left edge that centres the popover under the target, in viewport
      coordinates. */
  function CentredLeft(g: Geometry): real {
    g.target.left + (g.target.width - g.popWidth) / 2.0
  }

  /** There is no room below the target and there is room above it. */
  predicate FlipsAbove(g: Geometry) {
    g.target.bottom + g.popHeight + Margin > g.view.height
    && g.target.top - g.popHeight - Margin > 0.0
  }

  /** The page-coordinate `top`: a margin below the target, or, when flipped, a
      margin above it. */
  function Top(g: Geometry): real {
    if FlipsAbove(g) then g.view.scrollY + g.target.top - g.popHeight - Margin
    else g.view.scrollY + g.target.bottom + Margin
  }

  /** `positionPopover` as the source writes it: the centred position is turned
      into a page coordinate (adding `scrollX`) before it is clamped against the
      viewport width. */
  function PlaceAsWritten(g: Geometry): Placement {
    Placement(ClampLeft(g.view.scrollX + CentredLeft(g), g.popWidth, g.view.width),
              Top(g), FlipsAbove(g))
  }

  /** The rule with the clamp applied in viewport coordinates, as the two guards
      evidently intend, and `scrollX` added afterwards. */
  function Place(g: Geometry): Placement {
    Placement(g.view.scrollX + ClampLeft(CentredLeft(g), g.popWidth, g.view.width),
              Top(g), FlipsAbove(g))
  }

  /** The horizontal rule as written: with `left` starting at
      `scrollX + rect.left + (rect.width - popWidth) / 2`, a popover that fits ends
      in `[8, vw - popWidth - 8]`, a wider one at `vw - popWidth - 8`, and a start
      inside that band is kept; a start left of the band is pinned to 8 when the
      popover fits, and a start overflowing the right edge is set to
      `vw - popWidth - 8`. */
  lemma PlaceAsWrittenHorizontal(g: Geometry)
    ensures var p, vw, w := PlaceAsWritten(g), g.view.width, g.popWidth;
      var start := g.view.scrollX + CentredLeft(g);
      && (w <= vw - 16.0 ==> 8.0 <= p.left <= vw - w - 8.0)
      && (w > vw - 16.0 ==> p.left == vw - w - 8.0 < 8.0)
      && (8.0 <= start && start + w <= vw - 8.0 ==> p.left == start)
      && (start < 8.0 && w <= vw - 16.0 ==> p.left == 8.0)
      && (start + w > vw - 8.0 ==> p.left == vw - w - 8.0)
  {
  }

  /** The vertical rule: the popover goes above exactly when it does not fit
      below and does fit above. Either way it sits a margin away from the target;
      when it stays below although it overflows, it would not have fitted above
      either. */
  lemma PlaceVertical(g: Geometry)
    ensures var p := PlaceAsWritten(g);
      var r, h, vh, sy := g.target, g.popHeight, g.view.height, g.view.scrollY;
      && p == Placement(p.left, Place(g).top, Place(g).above)
      && (p.above <==> r.bottom + h + 8.0 > vh && r.top - h - 8.0 > 0.0)
      && (p.above ==> p.top == sy + r.top - h - 8.0 && p.top + h + 8.0 == sy + r.top && p.top - sy > 0.0)
      && (!p.above ==> p.top == sy + r.bottom + 8.0)
      && (!p.above && r.bottom + h + 8.0 > vh ==> r.top - h - 8.0 <= 0.0)
  {
  }

  /** The corrected rule keeps a popover that fits inside the visible viewport,
      a margin from each side, whatever the horizontal scroll offset. */
  lemma PlaceStaysInViewport(g: Geometry)
    requires g.popWidth <= g.view.width - 2.0 * Margin
    ensures var x := Place(g).left - g.view.scrollX;
      Margin <= x && x + g.popWidth <= g.view.width - Margin
  {
  }

  /** Without horizontal scrolling the two rules agree. */
  lemma PlaceAgreesWithoutHorizontalScroll(g: Geometry)
    requires g.view.scrollX == 0.0
    ensures Place(g) == PlaceAsWritten(g)
  {
  }

  /** The rule as written pushes a popover that fits off the left edge of the
      viewport once the page is scrolled horizontally: scrolled by 1000 in an
      800-wide viewport, a 200-wide popover under a 100-wide target at viewport
      x = 100 is put at page x = 592, that is 408 pixels left of the visible area,
      where the corrected rule keeps it centred at viewport x = 50. */
  lemma PlaceAsWrittenLeavesViewport()
    ensures var g := Geometry(Rect(100.0, 40.0, 60.0, 100.0), 200.0, 80.0,
                              Viewport(1000.0, 0.0, 800.0, 600.0));
      && g.popWidth <= g.view.width - 2.0 * Margin
      && PlaceAsWritten(g).left == 592.0
      && PlaceAsWritten(g).left - g.view.scrollX < 0.0
      && Place(g).left - g.view.scrollX == 50.0
  {
  }

  /** The flip example: a target whose bottom is at 500 in a 568-high viewport
      cannot take a 100-high popover below it (500 + 100 + 8 > 568), so with room
      above it the popover is placed above. */
  lemma FlipExample(top: real)
    requires 108.0 < top <= 500.0
    ensures var g := Geometry(Rect(0.0, top, 500.0, 50.0), 50.0, 100.0,
                              Viewport(0.0, 0.0, 320.0, 568.0));
      PlaceAsWritten(g).above && PlaceAsWritten(g).top == top - 108.0
  {
  }
}
