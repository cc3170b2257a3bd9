/**
 The midpoint circle of Circle.c. The renderer is a set of lit pixels; every drawing call
 reports a status of its own choosing, and the loops stop after a round whose last call failed.
 */
module Circle {
  import opened Quotients

  type Pixel = (int, int)

  function Sq(a: int): int {
    a * a
  }

  function Abs(a: int): nat {
    if a < 0 then -a else a
  }

  lemma SqMonotone(a: int, b: int)
    requires Abs(a) <= Abs(b)
    ensures 0 <= Sq(a) <= Sq(b)
  {
    var c, d := Abs(a), Abs(b);
    assert Sq(a) == c * c && Sq(b) == d * d;
    MulMonotone(c, c, d);
    MulMonotone(d, c, d);
  }

  lemma SqNext(a: int)
    ensures Sq(a + 1) == Sq(a) + 2 * a + 1 && Sq(a - 1) == Sq(a) - 2 * a + 1 && Sq(-a) == Sq(a)
  {
  }

  // ---------- what is promised ----------

  predicate Inside(a: int, b: int, r: int) {
    Sq(a) + Sq(b) < Sq(r)
  }

  /** One coordinate's step towards the centre. */
  function Inward(a: int): int {
    if a > 0 then a - 1 else if a < 0 then a + 1 else 0
  }

  /** In the closed disc, or one step away from it. */
  predicate Near(a: int, b: int, r: int) {
    || Sq(a) + Sq(b) <= Sq(r)
    || Sq(Inward(a)) + Sq(b) <= Sq(r)
    || Sq(a) + Sq(Inward(b)) <= Sq(r)
  }

  /** Outside the open disc, or one step away from it. */
  predicate Outward(a: int, b: int, r: int) {
    Sq(r) <= Sq(Abs(a) + 1) + Sq(b) || Sq(r) <= Sq(a) + Sq(Abs(b) + 1)
  }

  /** Every pixel of the circle's interior is lit. */
  ghost predicate Covers(lit: set<Pixel>, cx: int, cy: int, r: int) {
    forall a, b :: Inside(a, b, r) ==> (cx + a, cy + b) in lit
  }

  // ---------- the state of the loop ----------

  /** The error term is exactly x² + y² - r², and the curve runs between x and x + 1 at height y. */
  predicate OnCurve(x: int, y: int, tx: int, ty: int, error: int, r: int) {
    && r >= 1 && 0 <= x < r && 0 <= y <= x + 1
    && tx == 2 * (r - x) - 1 && ty == 2 * y + 1
    && error == Sq(x) + Sq(y) - Sq(r)
    && Sq(r) <= Sq(x + 1) + Sq(y)
    && (y > 0 ==> Sq(x) + Sq(y - 1) <= Sq(r))
    && Sq(x) <= Sq(r)
  }

  lemma StartsOnCurve(r: int)
    requires r >= 1
    ensures OnCurve(r - 1, 0, 1, 1, 1 - 2 * r, r)
  {
    hide Sq;
    SqZero();
    SqNext(r);
    SqMonotone(r - 1, r);
  }

  lemma SqZero()
    ensures Sq(0) == 0
  {
  }

  lemma StepUp(x: int, y: int, tx: int, ty: int, error: int, r: int)
    requires OnCurve(x, y, tx, ty, error, r) && x >= y && error <= 0
    ensures OnCurve(x, y + 1, tx, ty + 2, error + ty, r)
  {
    hide Sq;
    SqNext(y);
  }

  lemma StepIn(x: int, y: int, tx: int, ty: int, error: int, r: int)
    requires OnCurve(x, y, tx, ty, error, r) && x >= y && error > 0
    ensures x > 0 && OnCurve(x - 1, y, tx + 2, ty, error + (tx + 2) - 2 * r, r)
  {
    hide Sq;
    SqZero();
    SqMonotone(0, r);
    SqNext(x);
    SqMonotone(x - 1, x);
  }

  /** The loop variables stay within about the diameter, so 32-bit integers do for every radius below 2³⁰. */
  lemma NoOverflow(x: int, y: int, tx: int, ty: int, error: int, r: int)
    requires OnCurve(x, y, tx, ty, error, r) && x >= y
    ensures -2 * r < error < 2 * r && 0 < tx < 2 * r && 0 < ty < 2 * r
  {
    hide Sq;
    SqNext(x);
    SqNext(y);
    SqZero();
  }

  // ---------- rows ----------

  predicate BothLit(lit: set<Pixel>, cx: int, cy: int, a: int, b: int) {
    (cx + a, cy + b) in lit && (cx + a, cy - b) in lit
  }

  /** All interior pixels of the rows b and -b are lit. */
  ghost predicate RowsLit(lit: set<Pixel>, cx: int, cy: int, r: int, b: int) {
    forall a :: Inside(a, b, r) ==> BothLit(lit, cx, cy, a, b)
  }

  /** The span from -w to w is lit in the rows b and -b. */
  ghost predicate SpanLit(lit: set<Pixel>, cx: int, cy: int, b: int, w: int) {
    forall a :: -w <= a <= w ==> BothLit(lit, cx, cy, a, b)
  }

  /** A span that reaches the curve lights the whole interior of its rows. */
  lemma SpanFillsRow(lit: set<Pixel>, cx: int, cy: int, r: int, b: int, w: int)
    requires 0 <= w && SpanLit(lit, cx, cy, b, w) && Sq(r) <= Sq(w + 1) + Sq(b)
    ensures RowsLit(lit, cx, cy, r, b)
  {
    hide Sq;
    forall a | Inside(a, b, r)
      ensures BothLit(lit, cx, cy, a, b)
    {
      if a > w || a < -w {
        SqMonotone(w + 1, a);
      }
    }
  }

  /** The rows passed on the way up and the rows passed on the way in. */
  ghost predicate Progress(lit: set<Pixel>, cx: int, cy: int, r: int, x: int, y: int) {
    forall b :: 0 <= b < y || x < b < r ==> RowsLit(lit, cx, cy, r, b)
  }

  lemma ProgressCovers(lit: set<Pixel>, cx: int, cy: int, r: int, x: int, y: int)
    requires r >= 1 && Progress(lit, cx, cy, r, x, y) && x < y
    ensures Covers(lit, cx, cy, r)
  {
    hide Sq;
    forall a, b | Inside(a, b, r)
      ensures (cx + a, cy + b) in lit
    {
      RowInRange(a, b, r);
      SqNext(b);
      assert RowsLit(lit, cx, cy, r, Abs(b));
      assert Inside(a, Abs(b), r);
      assert BothLit(lit, cx, cy, a, Abs(b));
    }
  }

  lemma RowInRange(a: int, b: int, r: int)
    requires r >= 1 && Inside(a, b, r)
    ensures Abs(b) < r
  {
    hide Sq;
    SqZero();
    SqMonotone(0, a);
    if Abs(b) >= r {
      SqMonotone(r, b);
    }
  }

  /** One round of filling: the four spans light row y up to the curve, and row x if it is about to be left. */
  lemma RoundProgress(lit: set<Pixel>, cx: int, cy: int, r: int, x: int, y: int, tx: int, ty: int, error: int)
    requires OnCurve(x, y, tx, ty, error, r) && x >= y
    requires Progress(lit, cx, cy, r, x, y)
    requires SpanLit(lit, cx, cy, y, x) && SpanLit(lit, cx, cy, x, y)
    ensures error <= 0 ==> Progress(lit, cx, cy, r, x, y + 1)
    ensures error > 0 ==> Progress(lit, cx, cy, r, x - 1, y)
  {
    hide Sq;
    SpanFillsRow(lit, cx, cy, r, y, x);
    if error > 0 {
      SqNext(y);
      SpanFillsRow(lit, cx, cy, r, x, y);
    }
  }

  lemma ProgressKept(lit: set<Pixel>, more: set<Pixel>, cx: int, cy: int, r: int, x: int, y: int)
    requires Progress(lit, cx, cy, r, x, y) && lit <= more
    ensures Progress(more, cx, cy, r, x, y)
  {
    forall b | 0 <= b < y || x < b < r
      ensures RowsLit(more, cx, cy, r, b)
    {
      assert RowsLit(lit, cx, cy, r, b);
    }
  }

  // ---------- nearness ----------

  /** Everything drawn in a round at (x, y) is in the closed disc or one step away from it. */
  lemma SpansNear(x: int, y: int, tx: int, ty: int, error: int, r: int, a: int, b: int)
    requires OnCurve(x, y, tx, ty, error, r) && x >= y
    requires (Abs(b) == y && Abs(a) <= x) || (Abs(b) == x && Abs(a) <= y)
    ensures Near(a, b, r)
  {
    hide Sq;
    SqZero();
    if Abs(b) == y && Abs(a) <= x {
      SqMonotone(a, x);
      if y == 0 {
        SqMonotone(b, 0);
      } else {
        SqMonotone(Inward(b), y - 1);
      }
    } else {
      SqMonotone(b, x);
      if a != 0 {
        SqMonotone(Inward(a), y - 1);
      }
    }
  }

  /** The eight points at distance (x, y) are also outside the open disc or one step away from it. */
  lemma PointsOutward(x: int, y: int, tx: int, ty: int, error: int, r: int, a: int, b: int)
    requires OnCurve(x, y, tx, ty, error, r) && x >= y
    requires (Abs(a) == x && Abs(b) == y) || (Abs(a) == y && Abs(b) == x)
    ensures Outward(a, b, r)
  {
    hide Sq;
    SqNext(a);
    SqNext(b);
  }

  // ---------- drawing ----------

  function Corners(cx: int, cy: int, x: int, y: int): set<Pixel> {
    {(cx + x, cy - y), (cx + x, cy + y), (cx - x, cy - y), (cx - x, cy + y)}
  }

  function Octants(cx: int, cy: int, x: int, y: int): set<Pixel> {
    Corners(cx, cy, x, y) + Corners(cx, cy, y, x)
  }

  /** A horizontal line, end points included. */
  function Line(x1: int, x2: int, y: int): set<Pixel> {
    set x | x1 <= x <= x2 :: (x, y)
  }

  class Renderer {
    ghost var lit: set<Pixel>
    /** How many drawing calls have failed; a failed call may draw any part of what it was asked for. */
    ghost var failures: nat

    ghost predicate Drew(before: set<Pixel>, failed: nat, pixels: set<Pixel>, status: int)
      reads this
    {
      && before <= lit <= before + pixels
      && failures == failed + (if status == 0 then 0 else 1)
      && (status == 0 ==> lit == before + pixels)
    }

    method DrawPoint(x: int, y: int) returns (status: int)
      modifies this
      ensures Drew(old(lit), old(failures), {(x, y)}, status)
    {
      status := *;
      if status == 0 {
        lit := lit + {(x, y)};
      } else {
        failures := failures + 1;
      }
    }

    method DrawLine(x1: int, y1: int, x2: int, y2: int) returns (status: int)
      requires y1 == y2
      modifies this
      ensures Drew(old(lit), old(failures), Line(x1, x2, y1), status)
    {
      status := *;
      if status == 0 {
        lit := lit + Line(x1, x2, y1);
      } else {
        failures := failures + 1;
      }
    }

    /** Whatever failed, only these pixels were added; if nothing failed, all of them were. */
    ghost predicate Added(before: set<Pixel>, failed: nat, pixels: set<Pixel>, status: int)
      reads this
    {
      && before <= lit <= before + pixels
      && failures >= failed && (status != 0 ==> failures > failed)
      && (failures == failed ==> lit == before + pixels)
    }

    /** Four of the symmetric points of a round. */
    method DrawCorners(cx: int, cy: int, x: int, y: int) returns (status: int)
      modifies this
      ensures Added(old(lit), old(failures), Corners(cx, cy, x, y), status)
    {
      status := DrawPoint(cx + x, cy - y);
      status := DrawPoint(cx + x, cy + y);
      status := DrawPoint(cx - x, cy - y);
      status := DrawPoint(cx - x, cy + y);
    }

    /** All eight. */
    method DrawOctants(cx: int, cy: int, x: int, y: int) returns (status: int)
      modifies this
      ensures Added(old(lit), old(failures), Octants(cx, cy, x, y), status)
    {
      status := DrawCorners(cx, cy, x, y);
      status := DrawCorners(cx, cy, y, x);
    }

    /** The span from -w to w in the rows b and -b. */
    method DrawRows(cx: int, cy: int, b: int, w: int) returns (status: int)
      modifies this
      ensures Added(old(lit), old(failures), Rows(cx, cy, b, w), status)
    {
      status := DrawLine(cx - w, cy - b, cx + w, cy - b);
      status := DrawLine(cx - w, cy + b, cx + w, cy + b);
    }

    /** The four spans of a round. */
    method DrawSpans(cx: int, cy: int, x: int, y: int) returns (status: int)
      modifies this
      ensures Added(old(lit), old(failures), Spans(cx, cy, x, y), status)
    {
      status := DrawRows(cx, cy, y, x);
      status := DrawRows(cx, cy, x, y);
    }
  }

  function Rows(cx: int, cy: int, b: int, w: int): set<Pixel> {
    Line(cx - w, cx + w, cy - b) + Line(cx - w, cx + w, cy + b)
  }

  function Spans(cx: int, cy: int, x: int, y: int): set<Pixel> {
    Rows(cx, cy, y, x) + Rows(cx, cy, x, y)
  }

  /** Nothing but old pixels and pixels near the disc. */
  ghost predicate OnlyNear(before: set<Pixel>, lit: set<Pixel>, cx: int, cy: int, r: int) {
    forall p :: p in lit && p !in before ==> Near(p.0 - cx, p.1 - cy, r)
  }

  lemma RoundNear(before: set<Pixel>, lit: set<Pixel>, after: set<Pixel>, cx: int, cy: int, r: int,
                  x: int, y: int, tx: int, ty: int, error: int)
    requires OnCurve(x, y, tx, ty, error, r) && x >= y
    requires OnlyNear(before, lit, cx, cy, r)
    requires after <= lit + Octants(cx, cy, x, y) + Spans(cx, cy, x, y)
    ensures OnlyNear(before, after, cx, cy, r)
  {
    hide OnCurve, Near, Octants, Spans;
    forall p | p in after && p !in before
      ensures Near(p.0 - cx, p.1 - cy, r)
    {
      if p !in lit {
        assert 0 <= y <= x by { Reachable(x, y, tx, ty, error, r); }
        RoundOffsets(cx, cy, x, y, p);
        SpansNear(x, y, tx, ty, error, r, p.0 - cx, p.1 - cy);
      }
    }
  }

  lemma Reachable(x: int, y: int, tx: int, ty: int, error: int, r: int)
    requires OnCurve(x, y, tx, ty, error, r) && x >= y
    ensures 0 <= y <= x && r >= 1
  {
  }

  /** Where the pixels of a round lie, seen from the centre. */
  lemma RoundOffsets(cx: int, cy: int, x: int, y: int, p: Pixel)
    requires 0 <= y <= x
    ensures var a, b := Abs(p.0 - cx), Abs(p.1 - cy);
            && (p in Octants(cx, cy, x, y) ==> (a == x && b == y) || (a == y && b == x))
            && (p in Spans(cx, cy, x, y) ==> (b == y && a <= x) || (b == x && a <= y))
  {
  }

  lemma SpansLight(lit: set<Pixel>, cx: int, cy: int, x: int, y: int)
    requires Spans(cx, cy, x, y) <= lit
    ensures SpanLit(lit, cx, cy, y, x) && SpanLit(lit, cx, cy, x, y)
  {
    forall a | -x <= a <= x
      ensures BothLit(lit, cx, cy, a, y)
    {
      assert (cx + a, cy + y) in Line(cx - x, cx + x, cy + y) && (cx + a, cy - y) in Line(cx - x, cx + x, cy - y);
    }
    forall a | -y <= a <= y
      ensures BothLit(lit, cx, cy, a, x)
    {
      assert (cx + a, cy + x) in Line(cx - y, cx + y, cy + x) && (cx + a, cy - x) in Line(cx - y, cx + y, cy - x);
    }
  }

  /**
   SDL_FillCircle. Unless a drawing call fails, every pixel with a² + b² < r² is filled; in
   any case no pixel is touched that is more than one step outside the disc.
   */
  method FillCircle(renderer: Renderer, cx: int, cy: int, radius: int) returns (result: int)
    modifies renderer
    ensures old(renderer.lit) <= renderer.lit && OnlyNear(old(renderer.lit), renderer.lit, cx, cy, radius)
    ensures result != 0 ==> renderer.failures > old(renderer.failures)
    ensures radius >= 0 && renderer.failures == old(renderer.failures) ==> Covers(renderer.lit, cx, cy, radius)
  {
    hide Covers, Progress, OnCurve, OnlyNear, Octants, Spans, SpanLit;
    var diameter := radius * 2;
    var x, y, tx, ty, error := radius - 1, 0, 1, 1, 1 - diameter;
    result := 0;
    NothingYet(renderer.lit, cx, cy, radius);
    if radius >= 1 {
      StartsOnCurve(radius);
    }
    while x >= y
      invariant x >= y ==> radius >= 1
      invariant radius >= 1 ==> OnCurve(x, y, tx, ty, error, radius)
      invariant result == 0
      invariant old(renderer.lit) <= renderer.lit && OnlyNear(old(renderer.lit), renderer.lit, cx, cy, radius)
      invariant renderer.failures >= old(renderer.failures)
      invariant renderer.failures == old(renderer.failures) ==> Progress(renderer.lit, cx, cy, radius, x, y)
      invariant radius <= 0 ==> y == 0
      decreases x - y
    {
      ghost var before := renderer.lit;
      result := renderer.DrawOctants(cx, cy, x, y);
      result := renderer.DrawSpans(cx, cy, x, y);
      RoundNear(old(renderer.lit), before, renderer.lit, cx, cy, radius, x, y, tx, ty, error);
      if renderer.failures == old(renderer.failures) {
        ProgressKept(before, renderer.lit, cx, cy, radius, x, y);
        SpansLight(renderer.lit, cx, cy, x, y);
        RoundProgress(renderer.lit, cx, cy, radius, x, y, tx, ty, error);
      }
      if error <= 0 {
        StepUp(x, y, tx, ty, error, radius);
        y := y + 1;
        error := error + ty;
        ty := ty + 2;
      } else {
        StepIn(x, y, tx, ty, error, radius);
        x := x - 1;
        tx := tx + 2;
        error := error + tx - diameter;
      }
      if result != 0 {
        return;
      }
    }
    if radius >= 1 && renderer.failures == old(renderer.failures) {
      ProgressCovers(renderer.lit, cx, cy, radius, x, y);
    }
    NothingToCover(renderer.lit, cx, cy);
  }

  lemma NothingYet(lit: set<Pixel>, cx: int, cy: int, r: int)
    ensures OnlyNear(lit, lit, cx, cy, r) && Progress(lit, cx, cy, r, r - 1, 0)
  {
  }

  lemma NothingToCover(lit: set<Pixel>, cx: int, cy: int)
    ensures Covers(lit, cx, cy, 0)
  {
  }

  // ---------- the outline ----------

  /** On the edge up to one step, inwards and outwards. */
  predicate OnEdge(a: int, b: int, r: int) {
    Near(a, b, r) && Outward(a, b, r)
  }

  ghost predicate OnlyEdge(before: set<Pixel>, lit: set<Pixel>, cx: int, cy: int, r: int) {
    forall p :: p in lit && p !in before ==> OnEdge(p.0 - cx, p.1 - cy, r)
  }

  /** An edge point at distance b from an axis is lit, with its seven mirror images. */
  ghost predicate Hit(lit: set<Pixel>, cx: int, cy: int, r: int, b: int) {
    exists a :: OnEdge(a, b, r) && Octants(cx, cy, a, b) <= lit
  }

  /** The outline has no gap: every distance from an axis is hit. */
  ghost predicate Outlined(lit: set<Pixel>, cx: int, cy: int, r: int) {
    forall b :: 0 <= b < r ==> Hit(lit, cx, cy, r, b)
  }

  ghost predicate Traced(lit: set<Pixel>, cx: int, cy: int, r: int, x: int, y: int) {
    forall b :: 0 <= b < y || x < b < r ==> Hit(lit, cx, cy, r, b)
  }

  lemma RoundEdge(before: set<Pixel>, lit: set<Pixel>, after: set<Pixel>, cx: int, cy: int, r: int,
                  x: int, y: int, tx: int, ty: int, error: int)
    requires OnCurve(x, y, tx, ty, error, r) && x >= y
    requires OnlyEdge(before, lit, cx, cy, r)
    requires after <= lit + Octants(cx, cy, x, y)
    ensures OnlyEdge(before, after, cx, cy, r)
  {
    hide OnCurve, Near, Outward, Octants;
    Reachable(x, y, tx, ty, error, r);
    forall p | p in after && p !in before
      ensures OnEdge(p.0 - cx, p.1 - cy, r)
    {
      if p !in lit {
        RoundOffsets(cx, cy, x, y, p);
        SpansNear(x, y, tx, ty, error, r, p.0 - cx, p.1 - cy);
        PointsOutward(x, y, tx, ty, error, r, p.0 - cx, p.1 - cy);
      }
    }
  }

  lemma RoundTraced(lit: set<Pixel>, after: set<Pixel>, cx: int, cy: int, r: int, x: int, y: int, tx: int, ty: int, error: int)
    requires OnCurve(x, y, tx, ty, error, r) && x >= y
    requires Traced(lit, cx, cy, r, x, y) && lit + Octants(cx, cy, x, y) <= after
    ensures Traced(after, cx, cy, r, x, y + 1) && Traced(after, cx, cy, r, x - 1, y)
  {
    hide OnCurve, Near, Outward;
    Reachable(x, y, tx, ty, error, r);
    SpansNear(x, y, tx, ty, error, r, x, y);
    SpansNear(x, y, tx, ty, error, r, y, x);
    PointsOutward(x, y, tx, ty, error, r, x, y);
    PointsOutward(x, y, tx, ty, error, r, y, x);
    assert Octants(cx, cy, y, x) == Octants(cx, cy, x, y);
    assert Hit(after, cx, cy, r, y) && Hit(after, cx, cy, r, x);
    forall b | 0 <= b < y || x < b < r
      ensures Hit(after, cx, cy, r, b)
    {
      assert Hit(lit, cx, cy, r, b);
      var a :| OnEdge(a, b, r) && Octants(cx, cy, a, b) <= lit;
      assert Octants(cx, cy, a, b) <= after;
    }
  }

  /**
   SDL_DrawCircle. Unless a drawing call fails the outline is closed and has all eight
   symmetries; in any case no pixel is touched more than one step away from the edge.
   */
  method DrawCircle(renderer: Renderer, cx: int, cy: int, radius: int) returns (result: int)
    modifies renderer
    ensures old(renderer.lit) <= renderer.lit && OnlyEdge(old(renderer.lit), renderer.lit, cx, cy, radius)
    ensures result != 0 ==> renderer.failures > old(renderer.failures)
    ensures renderer.failures == old(renderer.failures) ==> Outlined(renderer.lit, cx, cy, radius)
  {
    hide OnCurve, OnlyEdge, Octants, Hit;
    var diameter := radius * 2;
    var x, y, tx, ty, error := radius - 1, 0, 1, 1, 1 - diameter;
    result := 0;
    NothingOutlined(renderer.lit, cx, cy, radius);
    if radius >= 1 {
      StartsOnCurve(radius);
    }
    while x >= y
      invariant x >= y ==> radius >= 1
      invariant radius >= 1 ==> OnCurve(x, y, tx, ty, error, radius)
      invariant result == 0
      invariant old(renderer.lit) <= renderer.lit && OnlyEdge(old(renderer.lit), renderer.lit, cx, cy, radius)
      invariant renderer.failures >= old(renderer.failures)
      invariant renderer.failures == old(renderer.failures) ==> Traced(renderer.lit, cx, cy, radius, x, y)
      decreases x - y
    {
      ghost var before := renderer.lit;
      result := renderer.DrawOctants(cx, cy, x, y);
      RoundEdge(old(renderer.lit), before, renderer.lit, cx, cy, radius, x, y, tx, ty, error);
      if renderer.failures == old(renderer.failures) {
        RoundTraced(before, renderer.lit, cx, cy, radius, x, y, tx, ty, error);
      }
      if error <= 0 {
        StepUp(x, y, tx, ty, error, radius);
        y := y + 1;
        error := error + ty;
        ty := ty + 2;
      } else {
        StepIn(x, y, tx, ty, error, radius);
        x := x - 1;
        tx := tx + 2;
        error := error + tx - diameter;
      }
      if result != 0 {
        return;
      }
    }
  }

  lemma NothingOutlined(lit: set<Pixel>, cx: int, cy: int, r: int)
    ensures OnlyEdge(lit, lit, cx, cy, r)
  {
  }
}
