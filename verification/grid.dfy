/** Drag snapping and wheel resizing (webextension/newTab.js, the `mousedown`
    and `wheel` handlers). Lengths are CSS pixels; a pixel position is a
    `real` because half the viewport width is a half-pixel for odd widths. */
module Grid {

  import opened Optional

  /** The grid unit that drag positions and wheel sizes are quantised to. */
  const SNAP: int := 10

  function Abs(x: real): real {
    if x < 0.0 then -x else x
  }

  /** True when `y` is a whole number. */
  predicate IsWhole(y: real) {
    y.Floor as real == y
  }

  /** True when `x` lies on the snap grid whose lines are `offset` plus the
      multiples of SNAP. */
  predicate OnGrid(x: real, offset: real) {
    IsWhole((x - offset) / SNAP as real)
  }

  /** JavaScript's `Math.round`: the nearest integer, halves rounded up. */
  function JsRound(x: real): (r: int)
    ensures r as real - 0.5 <= x < r as real + 0.5
  {
    (x + 0.5).Floor
  }

  /** JavaScript's `x % SNAP` for a non-negative `x`. */
  function RemSnap(x: real): real
    requires x >= 0.0
  {
    x - (SNAP * (x / SNAP as real).Floor) as real
  }

  /** `(canvasDim / 2) % SNAP`, the grid offset computed when a drag starts:
      it lies in [0, SNAP) and the viewport midpoint is a grid line, so the
      grid is centred on the midpoint rather than on the origin. */
  function GridOffset(canvasDim: nat): (offset: real)
    ensures 0.0 <= offset < SNAP as real
    ensures OnGrid(canvasDim as real / 2.0, offset)
  {
    var mid := canvasDim as real / 2.0;
    var f := (mid / SNAP as real).Floor;
    assert f as real <= mid / SNAP as real < f as real + 1.0;
    assert (mid - RemSnap(mid)) / SNAP as real == f as real;
    RemSnap(mid)
  }

  /** The two properties of GridOffset determine it: no other offset in
      [0, SNAP) puts the viewport midpoint on the grid. */
  lemma GridOffsetUnique(canvasDim: nat, offset: real)
    requires 0.0 <= offset < SNAP as real
    requires OnGrid(canvasDim as real / 2.0, offset)
    ensures offset == GridOffset(canvasDim)
  {
    var mid := canvasDim as real / 2.0;
    var g := GridOffset(canvasDim);
    var j := ((mid - offset) / SNAP as real).Floor;
    var k := ((mid - g) / SNAP as real).Floor;
    assert mid - offset == (SNAP * j) as real;
    assert mid - g == (SNAP * k) as real;
    assert g - offset == (SNAP * (j - k)) as real;
    assert -SNAP < SNAP * (j - k) < SNAP;
    assert j - k == 0;
  }

  /** In whole pixels the offset is half of `canvasDim % (2 * SNAP)`: it is
      a whole or a half pixel. */
  lemma GridOffsetHalfPixels(canvasDim: nat)
    ensures GridOffset(canvasDim) == (canvasDim % (2 * SNAP)) as real / 2.0
  {
    var o := (canvasDim % (2 * SNAP)) as real / 2.0;
    var q := canvasDim / (2 * SNAP);
    assert canvasDim == 2 * SNAP * q + canvasDim % (2 * SNAP);
    assert (canvasDim as real / 2.0 - o) / SNAP as real == q as real;
    GridOffsetUnique(canvasDim, o);
  }

  /** One axis of `onMouseMove`: `Math.round((page - shift) / SNAP) * SNAP +
      offset`. The result is on the grid and within SNAP/2 of
      `page - shift + offset`, the unsnapped edge moved by the grid offset;
      from the unsnapped edge `page - shift` itself it can be up to
      SNAP/2 + offset away. */
  function SnapAxis(offset: real, page: real, shift: real): (pos: real)
    ensures OnGrid(pos, offset)
    ensures Abs(pos - (page - shift + offset)) <= (SNAP as real) / 2.0
  {
    var k := JsRound((page - shift) / SNAP as real);
    assert ((SNAP * k) as real + offset - offset) / SNAP as real == k as real;
    (SNAP * k) as real + offset
  }

  /** The snapped position is a grid line nearest to `page - shift + offset`
      (not to the unsnapped edge `page - shift`: the script rounds before it
      adds the offset). */
  lemma SnapAxisNearest(offset: real, page: real, shift: real, g: real)
    requires OnGrid(g, offset)
    ensures Abs(SnapAxis(offset, page, shift) - (page - shift + offset))
         <= Abs(g - (page - shift + offset))
  {
    var d := page - shift;
    var k := JsRound(d / SNAP as real);
    var j := ((g - offset) / SNAP as real).Floor;
    assert g == (SNAP * j) as real + offset;
    assert SnapAxis(offset, page, shift) == (SNAP * k) as real + offset;
    if j > k {
      assert (SNAP * j) as real >= (SNAP * k) as real + SNAP as real;
    } else if j < k {
      assert (SNAP * j) as real <= (SNAP * k) as real - SNAP as real;
    }
  }

  /** Measured from the unsnapped edge the snap need not be the nearest grid
      line: in a viewport 1016 pixels wide the offset is 8, an edge at 0
      snaps to 8, and the grid line at -2 is closer. */
  lemma SnapAxisFromEdge()
    ensures GridOffset(1016) == 8.0
    ensures SnapAxis(8.0, 0.0, 0.0) == 8.0
    ensures OnGrid(-2.0, 8.0) && Abs(-2.0 - 0.0) < Abs(SnapAxis(8.0, 0.0, 0.0) - 0.0)
  {
    GridOffsetHalfPixels(1016);
    assert JsRound(0.0) == 0;
    assert (-2.0 - 8.0) / SNAP as real == -1.0;
  }

  /** Halfway between two grid lines the snap goes to the upper one. */
  lemma SnapAxisHalfUp(offset: real, k: int)
    ensures SnapAxis(offset, (SNAP * k) as real + (SNAP as real) / 2.0, 0.0)
         == (SNAP * (k + 1)) as real + offset
  {
    var x := ((SNAP * k) as real + (SNAP as real) / 2.0) / SNAP as real;
    assert x == k as real + 0.5;
    assert JsRound(x) == k + 1;
  }

  datatype Point = Point(x: real, y: real)

  /** The viewport size, `Canvas.width` and `Canvas.height` in whole pixels. */
  datatype Viewport = Viewport(width: nat, height: nat)

  /** A drag in progress: the pointer's offset inside the tile when the
      button went down, and the two grid offsets fixed at that moment. */
  datatype DragState = DragState(shift: Point, offsetX: real, offsetY: real)

  /** The `mousedown` handler's set-up of a drag: the grid offsets come from
      the viewport size at press time; the shift is the pointer's position
      inside the tile. */
  function StartDrag(canvas: Viewport, client: Point, tileTopLeft: Point): (d: DragState)
    ensures d.offsetX == GridOffset(canvas.width) && d.offsetY == GridOffset(canvas.height)
    ensures tileTopLeft.x + d.shift.x == client.x && tileTopLeft.y + d.shift.y == client.y
    ensures var p := SnapPosition(d, client);
            OnGrid(p.x, d.offsetX) && OnGrid(p.y, d.offsetY)
            && Abs(p.x - (tileTopLeft.x + d.offsetX)) <= (SNAP as real) / 2.0
            && Abs(p.y - (tileTopLeft.y + d.offsetY)) <= (SNAP as real) / 2.0
  {
    DragState(Point(client.x - tileTopLeft.x, client.y - tileTopLeft.y),
              GridOffset(canvas.width), GridOffset(canvas.height))
  }

  /** `onMouseMove`: the tile's new top-left corner, on both grids. */
  function SnapPosition(d: DragState, page: Point): (pos: Point)
    ensures OnGrid(pos.x, d.offsetX) && OnGrid(pos.y, d.offsetY)
    ensures Abs(pos.x - (page.x - d.shift.x + d.offsetX)) <= (SNAP as real) / 2.0
    ensures Abs(pos.y - (page.y - d.shift.y + d.offsetY)) <= (SNAP as real) / 2.0
  {
    Point(SnapAxis(d.offsetX, page.x, d.shift.x), SnapAxis(d.offsetY, page.y, d.shift.y))
  }

  /** A whole drag: each pointer move overwrites the tile's position, so after
      at least one move the tile sits on the grid at the snap of the last
      move; without any move it has not moved. */
  method Drag(d: DragState, start: Point, moves: seq<Point>) returns (pos: Point)
    ensures |moves| == 0 ==> pos == start
    ensures |moves| > 0 ==> OnGrid(pos.x, d.offsetX) && OnGrid(pos.y, d.offsetY)
    ensures |moves| > 0 ==> pos == SnapPosition(d, moves[|moves| - 1])
  {
    pos := start;
    var i := 0;
    while i < |moves|
      invariant 0 <= i <= |moves|
      invariant i == 0 ==> pos == start
      invariant i > 0 ==> pos == SnapPosition(d, moves[i - 1])
    {
      pos := SnapPosition(d, moves[i]);
      i := i + 1;
    }
  }

  /** Scrolling up: `(w + SNAP) - (w % SNAP)`, the next multiple of SNAP
      strictly above `w`. */
  function GrowStep(w: nat): (r: int)
    ensures r % SNAP == 0
    ensures w < r <= w + SNAP
  {
    (w + SNAP) - (w % SNAP)
  }

  /** Scrolling down: `(w - SNAP) - (w % SNAP)`, a multiple of SNAP in
      [w - 2*SNAP + 1, w - SNAP]; it is negative for `w < SNAP`. */
  function ShrinkStep(w: nat): (r: int)
    ensures r % SNAP == 0
    ensures w - 2 * SNAP < r <= w - SNAP
  {
    (w - SNAP) - (w % SNAP)
  }

  /** GrowStep is the least multiple of SNAP above `w`. */
  lemma GrowStepLeast(w: nat, m: int)
    requires m % SNAP == 0 && m > w
    ensures GrowStep(w) <= m
  {
    var g := GrowStep(w);
    assert g == SNAP * (w / SNAP) + SNAP;
    assert m == SNAP * (m / SNAP);
    assert m / SNAP > w / SNAP;
  }

  /** ShrinkStep is the greatest multiple of SNAP at most `w - SNAP`. */
  lemma ShrinkStepGreatest(w: nat, m: int)
    requires m % SNAP == 0 && m <= w - SNAP
    ensures m <= ShrinkStep(w)
  {
    var s := ShrinkStep(w);
    assert s == SNAP * (w / SNAP) - SNAP;
    assert m == SNAP * (m / SNAP);
    assert m / SNAP < w / SNAP;
  }

  /** One tick up then one tick down lands on `w` rounded down to the grid,
      which is `w` itself when it was already on the grid. */
  lemma GrowThenShrink(w: nat)
    ensures ShrinkStep(GrowStep(w)) == w - w % SNAP
    ensures w % SNAP == 0 ==> ShrinkStep(GrowStep(w)) == w
  {
    var g := GrowStep(w);
    assert g % SNAP == 0;
  }

  /** One tick down then one tick up does the same, for sizes that stay
      non-negative. */
  lemma ShrinkThenGrow(w: nat)
    requires w >= SNAP
    ensures ShrinkStep(w) >= 0
    ensures GrowStep(ShrinkStep(w) as nat) == w - w % SNAP
  {
    assert ShrinkStep(w) == SNAP * (w / SNAP) - SNAP;
  }

  /** The sizes a wheel tick writes: the new height, and the new width unless
      Ctrl restricts the change to the height (None: width style untouched). */
  datatype ResizeStep = ResizeStep(width: Option<int>, height: int)

  /** The `wheel` handler on a tile whose measured size is `width` x `height`
      (`parseInt` of the bounding rectangle). Nothing happens without Shift;
      otherwise a negative `deltaY` grows and any other shrinks, by one grid
      step, every written size lands on the grid, and Ctrl leaves the width
      alone. */
  function WheelResize(width: nat, height: nat, deltaY: real, shift: bool, ctrl: bool)
    : (r: Option<ResizeStep>)
    ensures r.Some? <==> shift
    ensures r.Some? ==> (r.value.width.None? <==> ctrl)
    ensures r.Some? ==> r.value.height % SNAP == 0
    ensures r.Some? && r.value.width.Some? ==> r.value.width.value % SNAP == 0
    ensures r.Some? && deltaY < 0.0 ==>
      height < r.value.height <= height + SNAP
      && (r.value.width.Some? ==> width < r.value.width.value <= width + SNAP)
    ensures r.Some? && deltaY >= 0.0 ==>
      height - 2 * SNAP < r.value.height <= height - SNAP
      && (r.value.width.Some? ==> width - 2 * SNAP < r.value.width.value <= width - SNAP)
  {
    if !shift then None
    else if deltaY < 0.0 then
      Some(ResizeStep(if ctrl then None else Some(GrowStep(width)), GrowStep(height)))
    else
      Some(ResizeStep(if ctrl then None else Some(ShrinkStep(width)), ShrinkStep(height)))
  }
}
