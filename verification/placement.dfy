/** Where pop-ups open (webextension/newTab.js): the context menu beside the
    pointer (`ContextMenu.show`) and the tile options panel beside its tile
    (`TileOptions.open`). Each axis is decided on its own; pixel values are
    whole numbers. */
module Placement {

  /** Gap, in pixels, between a tile and its options panel. */
  const PANEL_GAP: int := 10

  /** One axis of the context menu: it opens at the pointer, or ends at the
      pointer when opening there would run past the viewport. Whenever the
      pointer is inside the viewport the menu ends inside it, and it opens at
      the pointer exactly when it fits there. */
  function MenuAxis(pointer: int, menuSize: nat, viewport: int): (start: int)
    ensures start == pointer || start + menuSize == pointer
    ensures start == pointer <==> pointer + menuSize <= viewport || menuSize == 0
    ensures pointer <= viewport ==> start + menuSize <= viewport
  {
    if pointer + menuSize > viewport then pointer - menuSize else pointer
  }

  /** A bounding rectangle, as `getBoundingClientRect` reports it. */
  datatype Rect = Rect(left: int, top: int, right: int, bottom: int)

  predicate WellFormed(r: Rect) {
    r.left <= r.right && r.top <= r.bottom
  }

  /** The horizontal placement exactly as the script decides it: right of the
      tile with a gap unless `tile.right + width` passes the canvas, else left
      of it with the same gap. The test leaves out the gap. */
  function PanelLeftAsWritten(tile: Rect, canvas: Rect, width: nat): (left: int)
    requires WellFormed(tile)
    ensures left == tile.right + PANEL_GAP || left + width + PANEL_GAP == tile.left
    ensures left == tile.right + PANEL_GAP <==> tile.right + width <= canvas.right
    ensures left == tile.right + PANEL_GAP ==> left + width <= canvas.right + PANEL_GAP
  {
    if tile.right + width > canvas.right then tile.left - width - PANEL_GAP
    else tile.right + PANEL_GAP
  }

  /** A panel the as-written test keeps on the right can still run up to
      PANEL_GAP pixels past the canvas: a tile ending at 900 in a canvas
      ending at 1000, with a panel 95 pixels wide. */
  lemma PanelLeftAsWrittenOverflows()
    ensures var tile := Rect(800, 100, 900, 200);
            var canvas := Rect(0, 0, 1000, 800);
            PanelLeftAsWritten(tile, canvas, 95) + 95 > canvas.right
  {
  }

  /** The horizontal placement with the gap counted in the test: the panel
      never overlaps the tile, keeps PANEL_GAP pixels from it, and when it
      stays on the right it ends inside the canvas. */
  function PanelLeft(tile: Rect, canvas: Rect, width: nat): (left: int)
    requires WellFormed(tile)
    ensures left == tile.right + PANEL_GAP || left + width + PANEL_GAP == tile.left
    ensures left == tile.right + PANEL_GAP <==> tile.right + PANEL_GAP + width <= canvas.right
    ensures left == tile.right + PANEL_GAP ==> left + width <= canvas.right
  {
    if tile.right + PANEL_GAP + width > canvas.right then tile.left - width - PANEL_GAP
    else tile.right + PANEL_GAP
  }

  /** The corrected test and the as-written one differ only for panels that
      would end within PANEL_GAP pixels past the canvas. */
  lemma PanelLeftAgreesOutsideGap(tile: Rect, canvas: Rect, width: nat)
    requires WellFormed(tile)
    requires tile.right + width + PANEL_GAP <= canvas.right || tile.right + width > canvas.right
    ensures PanelLeft(tile, canvas, width) == PanelLeftAsWritten(tile, canvas, width)
  {
  }

  /** The vertical placement: level with the tile's top when the panel fits
      below the tile's bottom edge, otherwise level with its bottom. Either
      way the panel shares an edge with the tile, and in the first case it
      ends inside the canvas. */
  function PanelTop(tile: Rect, canvas: Rect, height: nat): (top: int)
    requires WellFormed(tile)
    ensures top == tile.top || top + height == tile.bottom
    ensures tile.bottom + height <= canvas.bottom ==> top == tile.top && top + height <= canvas.bottom
    ensures tile.bottom + height > canvas.bottom ==> top + height == tile.bottom
  {
    if tile.bottom + height > canvas.bottom then tile.bottom - height
    else tile.top
  }

  datatype Position = Position(left: int, top: int)

  /** `TileOptions.open`'s placement of a panel of the given size, as the
      script computes it: the panel never overlaps the tile horizontally,
      keeps the gap from it, and when kept on the right may run up to
      PANEL_GAP pixels past the canvas. */
  function PanelPositionAsWritten(tile: Rect, canvas: Rect, width: nat, height: nat): (p: Position)
    requires WellFormed(tile)
    ensures p.left >= tile.right + PANEL_GAP || p.left + width + PANEL_GAP <= tile.left
    ensures p.left >= tile.right ==> p.left + width <= canvas.right + PANEL_GAP
    ensures tile.bottom + height <= canvas.bottom ==> p.top + height <= canvas.bottom
  {
    Position(PanelLeftAsWritten(tile, canvas, width), PanelTop(tile, canvas, height))
  }

  /** The corrected placement, with the gap counted in the horizontal test:
      a panel kept on the right ends inside the canvas. */
  function PanelPosition(tile: Rect, canvas: Rect, width: nat, height: nat): (p: Position)
    requires WellFormed(tile)
    ensures p.left >= tile.right + PANEL_GAP || p.left + width + PANEL_GAP <= tile.left
    ensures p.left >= tile.right ==> p.left + width <= canvas.right
    ensures tile.bottom + height <= canvas.bottom ==> p.top + height <= canvas.bottom
  {
    Position(PanelLeft(tile, canvas, width), PanelTop(tile, canvas, height))
  }

  /** The two placements differ only on the 10-pixel band, and only in the
      horizontal coordinate. */
  lemma PanelPositionsAgreeOutsideGap(tile: Rect, canvas: Rect, width: nat, height: nat)
    requires WellFormed(tile)
    ensures PanelPosition(tile, canvas, width, height).top == PanelPositionAsWritten(tile, canvas, width, height).top
    ensures PanelPosition(tile, canvas, width, height) != PanelPositionAsWritten(tile, canvas, width, height) <==>
              canvas.right < tile.right + width + PANEL_GAP && tile.right + width <= canvas.right
  {
  }
}
