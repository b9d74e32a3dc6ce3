# New Tab Tiles — a Dafny model of the script's logic

New Tab Tiles replaces the browser's new-tab page with a free-form canvas
of "tiles": shortcuts the user drags, resizes with the wheel, decorates
with a background image and, for a parent tile, gives a hover overlay of
child links taken from a hand-written list or from a bookmark folder. The
whole extension is one script, `webextension/newTab.js`. Its event
handlers hold a layer of plain logic, and this project models that layer
and proves properties about it:

- **Grid** (`grid.dfy`): drag snapping to the 10-pixel grid centred on the
  viewport midpoint, and the one-step wheel resize.
- **Placement** (`placement.dfy`): where the context menu and the options
  panel open.
- **Bookmarks** (`bookmarks.dfy`): the folder walk of `getFolders`. It
  collects folders in preorder and types untyped ones "folder". Also
  `Bookmarks.load`'s id-keyed folder list with the `root________` → `0`
  alias, and the indented folder entries `createOption` writes into the
  options form.
- **Children** (`children.dfy`): the links of a parent tile's overlay,
  parsed from a "text|url" list or built from a bookmark folder.
- **Tiles** (`tiles.dfy`): the stored tile map, the page's tiles with their
  selection, delete with its undo stack, the overlay decision, and the
  checks on a background image URL.
- `strings.dfy` holds JavaScript's `split`, `join`, `startsWith`, `endsWith`
  and `repeat`. `optional.dfy` holds `Option`.

Lengths are CSS pixels. Snap positions are `real`: half an odd viewport
width is a half pixel, and the script's `%` keeps that half. Wheel sizes
and placement coordinates are integers. `Math.round` is modelled as
`floor(x + 1/2)`. Browser calls are inputs to the model:
`getBoundingClientRect`, `window.innerWidth`, `prompt` and the bookmark
tree. Where the script would throw, the model says so with `None`, or
with `Broken` for the overlay.

Some of the script's behaviour is easy to misread:

- `lastUpdate` is stamped with `getUTCMilliseconds()`, a value in 0..999,
  so no ordering or uniqueness is claimed for it.
- `Tile.delete` reads the selected tile's options at line 251 before any
  check, so it throws when no tile is selected; `Tiles.Delete` requires a
  selected tile.
- Bookmark mode skips folder-typed children and also any child whose id
  equals the folder's id.
- Opacity is stored as entered; nothing clamps it to [0, 100].
- The options panel's placement has two members. `Placement.PanelPositionAsWritten`
  is the script's computation. `Placement.PanelPosition` is the corrected
  one from the Findings table.

## Model

| member | source | states |
|---|---|---|
| Grid.JsRound | webextension/newTab.js:768 | `Math.round` gives the integer within half a unit below-or-equal / strictly above: halves round up |
| Grid.GridOffset | webextension/newTab.js:765 | the grid offset lies in [0, SNAP), and the viewport midpoint lies on the grid it defines |
| Grid.GridOffsetUnique | webextension/newTab.js:765 | those two properties determine the offset: no other offset in [0, SNAP) puts the midpoint on the grid |
| Grid.GridOffsetHalfPixels | webextension/newTab.js:765 | the offset equals `(dim % 20) / 2`: a whole or half pixel |
| Grid.SnapAxis | webextension/newTab.js:768-769 | a snapped coordinate is on the grid (`(pos - offset)` is a multiple of SNAP) and within SNAP/2 of `page - shift + offset`, the unsnapped edge moved by the offset |
| Grid.SnapAxisNearest | webextension/newTab.js:768-769 | the snapped coordinate is a grid line nearest to `page - shift + offset`; the rounding happens before the offset is added |
| Grid.SnapAxisFromEdge | webextension/newTab.js:765-768 | measured from the unsnapped edge itself the snap need not be nearest: with a 1016-pixel viewport an edge at 0 snaps to 8 while the line at -2 is closer |
| Grid.SnapAxisHalfUp | webextension/newTab.js:768 | exactly halfway between two grid lines the tile goes to the upper one |
| Grid.StartDrag | webextension/newTab.js:762-769 | a drag fixes both grid offsets from the viewport at press time and keeps the pointer's offset inside the tile, so a move with the pointer where it was pressed puts the tile on both grids within SNAP/2 of its own corner moved by the offsets |
| Grid.SnapPosition | webextension/newTab.js:767-772 | each pointer move puts the tile's corner on both grids, on each axis within SNAP/2 of `page - shift + offset` |
| Grid.Drag | webextension/newTab.js:767-772 | after a drag with at least one move the tile is on the grid at the snap of the last move; with no move it stays put |
| Grid.GrowStep | webextension/newTab.js:812-813 | a scroll-up step gives a multiple of SNAP strictly above `w` and at most `w + SNAP` |
| Grid.GrowStepLeast | webextension/newTab.js:812-813 | the grown size is the least multiple of SNAP above `w` |
| Grid.ShrinkStep | webextension/newTab.js:815-816 | a scroll-down step gives a multiple of SNAP in [w - 2*SNAP + 1, w - SNAP] |
| Grid.ShrinkStepGreatest | webextension/newTab.js:815-816 | the shrunk size is the greatest multiple of SNAP at most `w - SNAP` |
| Grid.GrowThenShrink | webextension/newTab.js:811-816 | one tick up then one down rounds `w` down to the grid, and restores a size already on it |
| Grid.ShrinkThenGrow | webextension/newTab.js:811-816 | one tick down then one up does the same for sizes of at least SNAP |
| Grid.WheelResize | webextension/newTab.js:803-817 | nothing happens without Shift; negative deltaY grows and any other value shrinks; every written size is on the grid and within the step bounds; Ctrl leaves the width untouched |
| Placement.MenuAxis | webextension/newTab.js:143-149 | the menu starts at the pointer exactly when it fits, otherwise ends at the pointer; with the pointer in the viewport it always ends inside it |
| Placement.PanelLeftAsWritten | webextension/newTab.js:563-567 | the script's horizontal choice: right of the tile with the gap exactly when `tile.right + width` stays inside the canvas, else left of it with the gap; a panel kept on the right can end up to the gap past the canvas |
| Placement.PanelLeftAsWrittenOverflows | webextension/newTab.js:563-567 | the script's right-side test lets a panel run past the canvas by up to the 10-pixel gap (Findings) |
| Placement.PanelLeft | webextension/newTab.js:563-567 | corrected right-side test: the panel keeps the gap from the tile on either side and, on the right, ends inside the canvas |
| Placement.PanelLeftAgreesOutsideGap | webextension/newTab.js:563-567 | the corrected and the as-written test agree except on the 10-pixel band |
| Placement.PanelTop | webextension/newTab.js:569-573 | the panel is level with the tile's top when it fits below its bottom (and then ends inside the canvas), otherwise level with its bottom |
| Placement.PanelPositionAsWritten | webextension/newTab.js:557-576 | `TileOptions.open`'s placement: the panel never overlaps the tile horizontally and keeps the gap; kept on the right it ends at most the gap past the canvas; kept level with the tile's top it ends inside the canvas |
| Placement.PanelPosition | webextension/newTab.js:557-576 | the corrected placement of the Findings row: the same no-overlap property, and a panel kept on the right ends inside the canvas |
| Placement.PanelPositionsAgreeOutsideGap | webextension/newTab.js:563-573 | the two placements share the vertical choice and differ exactly when `tile.right + width` is within the gap of the canvas's right edge |
| Strings.Join | webextension/newTab.js:309 | `join` starts with the first part |
| Strings.JoinSeparatorCount | webextension/newTab.js:309 | joining separator-free parts gives exactly one separator fewer than parts |
| Strings.StartsEndsWithConcat | webextension/newTab.js:415-417 | `startsWith(p)` holds exactly when the string is `p` followed by a rest, `endsWith(p)` exactly when it is a rest followed by `p` |
| Strings.Split | webextension/newTab.js:306-308 | `split` gives one more piece than separators, no piece holds the separator, and joining the pieces gives the string back |
| Strings.SplitJoin | webextension/newTab.js:308-309 | splitting a join of separator-free pieces gives the pieces back |
| Strings.Repeat | webextension/newTab.js:473 | `repeat` gives `n` copies of the character |
| Bookmarks.Normalize | webextension/newTab.js:687-689 | the walk gives a node with a children list and no type the type "folder" and keeps any type already set; a node that is not a folder is returned unchanged |
| Bookmarks.NormalizeRetypesPreorder | webextension/newTab.js:686-693 | over the whole tree the walk changes only types: the preorder keeps its length, and node by node keeps id, title, url and children presence; the type changes only from absent to "folder" and only on nodes with a children list, so an untyped bookmark stays untyped |
| Bookmarks.NormalizeTypesFolders | webextension/newTab.js:686-693 | when every folder of the tree is untyped or typed "folder", after the walk every node with a children list is typed "folder" |
| Bookmarks.FoldersOf | webextension/newTab.js:686-693 | every node the walk collects is a folder and has a type; a folder comes before its descendants |
| Bookmarks.FoldersOfAll | webextension/newTab.js:692-695 | walking a list of nodes collects only typed folders |
| Bookmarks.FoldersOfIsFilteredPreorder | webextension/newTab.js:686-693 | the walk returns exactly the folder nodes of the normalised tree, in preorder |
| Bookmarks.FoldersOfAllIsFilteredPreorder | webextension/newTab.js:684-696 | the same for a whole tree given as a list of roots |
| Bookmarks.GetFolders | webextension/newTab.js:682-697 | `getFolders` returns exactly the folder nodes of the retyped tree, in preorder |
| Bookmarks.FolderKey | webextension/newTab.js:677 | a folder is filed under its id, except Firefox's root `root________`, which is filed under `0`; no folder is ever filed under `root________` |
| Bookmarks.FolderKeyCollisions | webextension/newTab.js:677 | two different ids share a key exactly when they are `0` and `root________` |
| Bookmarks.Load | webextension/newTab.js:674-680 | the folder list's keys are exactly the folders' keys, and each key holds the last folder filed under it |
| Bookmarks.Label | webextension/newTab.js:473 | a label is `depth - 1` tildes, then "> ", then the title |
| Bookmarks.DecodeLabelRoundTrip | webextension/newTab.js:473 | an option label `'~'*(d-1) + "> " + title` can be read back into `d` and the title, whatever the title holds |
| Bookmarks.Entries | webextension/newTab.js:469-481 | no entry for the depth-0 root; every entry is a node of the tree; every other entry is deeper than its start and has type "folder"; every folder-typed child is listed one level down; each entry is at most one level deeper than the one before |
| Bookmarks.ChildEntries | webextension/newTab.js:476-480 | the entries are nodes below the list; every folder-typed member of the list is listed at that level; all are of type "folder" |
| Bookmarks.DepthPreorderNodes | webextension/newTab.js:469-481 | the depth-annotated reference preorder lists the same nodes as the plain preorder, each child one level below its parent |
| Bookmarks.EntriesAreFolderPreorder | webextension/newTab.js:469-481 | on a tree whose folders are typed, `createOption` lists exactly the start node (unless at depth 0) followed by the folder entries of the depth-annotated preorder of its descendants: every folder at its depth in the tree |
| Bookmarks.ChildEntriesAreFolderPreorder | webextension/newTab.js:476-480 | the same for a list of children: exactly the folder entries of their depth-annotated preorder |
| Bookmarks.EntriesNestedExample | webextension/newTab.js:469-481 | a folder two levels below the root is listed at depth 2 and labelled `~> G` |
| Bookmarks.OptionsOf | webextension/newTab.js:470-474 | one option per visited folder, valued by its id, with a label that reads back to its depth and title |
| Bookmarks.FolderSelectOptions | webextension/newTab.js:500-503 | without a `0` root the form setup fails; otherwise one option per visited folder, valued by its id, labelled with its depth of at least 1 and its title |
| Bookmarks.FolderSelectOptionsDepths | webextension/newTab.js:469-503 | on a typed tree the options are, in order, the folders below the root, each valued by its id and labelled with its depth in the tree and its title |
| Children.ParseLine | webextension/newTab.js:308-312 | the link text is the `\|`-free prefix of the line; the href is everything after the first `\|`, later `\|`s kept, and is unset when that is empty |
| Children.ParseLineCutsAtFirstBar | webextension/newTab.js:308-309 | the split-and-rejoin is the same as cutting the line at its first `\|` |
| Children.ParseChildrenList | webextension/newTab.js:305-314 | one link per newline-separated line, in order, texts free of `\|` and newline |
| Children.ParseLinkLine | webextension/newTab.js:308-312 | a writable link turned into a `text\|url` line parses back to itself |
| Children.ParseRenderRoundTrip | webextension/newTab.js:305-314 | a written list of links parses back to the same links, in order |
| Children.ExampleTwoLinks | webextension/newTab.js:305-314 | `"Home\|http://a.com\nDocs"` gives two links, the second without href |
| Children.TruncateTitle | webextension/newTab.js:321 | titles of at most 50 characters are unchanged; longer ones become their first 50 characters plus `...` |
| Children.TruncateTitleIdempotent | webextension/newTab.js:321 | shortening an already shortened title changes nothing |
| Children.KeptChildren | webextension/newTab.js:318-319 | exactly the children that are not folders and not the folder itself are kept, in their order |
| Children.KeptChildrenCounts | webextension/newTab.js:318-319 | each kept child appears as often as among the children, and no other node appears, so the result is fixed even with repeated nodes |
| Children.BookmarkLink | webextension/newTab.js:320-322 | a bookmark's link points at its url; its text is at most 53 characters, the title itself when at most 50, and otherwise begins with the title's first 50 characters |
| Children.BookmarkLinks | webextension/newTab.js:315-335 | fails when the folder or its children list is missing; otherwise one link per kept child, in order |
| Tiles.SaveTile | webextension/newTab.js:626-631 | saving files the data under its id; every other entry is unchanged |
| Tiles.DeleteTile | webextension/newTab.js:638-643 | deleting removes only that id; every other entry is unchanged; a missing id changes nothing |
| Tiles.SaveDeleteInverse | webextension/newTab.js:626-643 | delete undoes save, and save undoes delete when it writes back the stored data |
| Tiles.FirstSelected | webextension/newTab.js:250 | `querySelector(".tile.selected")` finds the first selected tile in document order, or none when no tile is selected |
| Tiles.Select | webextension/newTab.js:394-401 | a press on a tile selects it alone, on the canvas selects nothing, elsewhere changes nothing; at most one tile stays selected; tile data is untouched |
| Tiles.SelectKeepsValid | webextension/newTab.js:394-401 | selection keeps the page invariant: one selection at most, no id twice across page and undo stack |
| Tiles.DisplayName | webextension/newTab.js:263 | notifications name a tile by its title, or by its id when the title is empty; a tile with an id is never named by an empty string |
| Tiles.Delete | webextension/newTab.js:249-272 | with a selected tile: its snapshot is pushed, its stored entry and element are removed, and nothing stays selected; an empty id changes nothing |
| Tiles.DeleteKeepsValid | webextension/newTab.js:249-272 | delete moves one id from the page to the undo stack and keeps the page invariant |
| Tiles.Undelete | webextension/newTab.js:273-282 | an empty stack gives "Nothing to undelete"; otherwise the most recent snapshot is popped, re-created unselected with the same id, and saved |
| Tiles.UndeleteKeepsValid | webextension/newTab.js:273-282 | undelete moves the top id back to the page and keeps the page invariant |
| Tiles.DeleteThenUndelete | webextension/newTab.js:249-282 | undo right after delete puts the deleted tile's snapshot back on the page and in storage under the same id, and restores the undo stack (width and height rewriting: see Left out) |
| Tiles.OverlayContent | webextension/newTab.js:283-318 | what a rebuild of the overlay gives: nothing unless the tile is a parent on a locked canvas; parsed list links in list mode; in bookmark mode broken exactly when the folder or its children list is missing, and otherwise shown with the folder's links; no links otherwise (the cache across hovers: Tiles.ShowChildren) |
| Tiles.OverlayShowsWrittenList | webextension/newTab.js:283-314 | a children list written from links, one `text\|url` line each, shows exactly those links |
| Tiles.OverlayBrokenExactly | webextension/newTab.js:315-318 | on a rebuild, the overlay breaks exactly when bookmark mode names a folder missing from the folder list or without a children list |
| Tiles.OverlayBookmarkLinksAreKeptChildren | webextension/newTab.js:315-322 | in bookmark mode every link shown is a kept child's shortened title and url, and every kept child is shown |
| Tiles.ShowChildren | webextension/newTab.js:283-318 | a hover on a parent tile of a locked canvas whose overlay carries the tile's current stamp shows the stored links again and changes nothing; any other such hover shows the rebuild, stamps the overlay with the tile's `lastUpdate`, and stores the rebuilt links, or no links when the rebuild broke |
| Tiles.FirstHoverIsRebuild | webextension/newTab.js:290-299 | the first hover on a tile shows exactly what a rebuild gives |
| Tiles.HoverAfterBrokenStaysEmpty | webextension/newTab.js:294-299 | after a hover that broke, the next hover with the same options shows an empty overlay, whatever folders have loaded since |
| Tiles.HoverBeforeLoadExample | webextension/newTab.js:294-318 | a bookmark tile hovered before its folder is loaded breaks; after the folder with one bookmark loads, it still shows no links, where a rebuild shows the bookmark |
| Tiles.ShowChildrenFixed | webextension/newTab.js:283-318 | the corrected hover: as the script, except that a broken rebuild leaves the overlay unstamped |
| Tiles.HoverFixedAfterBrokenRebuilds | webextension/newTab.js:294-318 | with the correction, the hover after a broken one shows what the current folder list gives |
| Tiles.HoversAgreeUnlessBroken | webextension/newTab.js:294-318 | the script's hover and the corrected one agree exactly when no rebuild breaks |
| Tiles.CheckBackgroundUrl | webextension/newTab.js:412-421 | no answer aborts silently; no `http` prefix is "Invalid URL", checked before the extension; no image extension is "Only images are supported"; only an answer passing all three is fetched |
| Tiles.AlertText | webextension/newTab.js:416-418 | an alert is shown exactly for the two rejections, with the script's two messages |
| Tiles.AlertShownExactly | webextension/newTab.js:412-419 | an alert appears exactly for a non-empty answer that fails the `http` test or the extension test |
| Tiles.CheckBackgroundUrlSchemeFirst | webextension/newTab.js:413-416 | an `ftp` URL with a refused extension is an invalid URL, so the scheme test comes first; no answer or an empty one cancels |
| Tiles.CheckBackgroundUrlExtensions | webextension/newTab.js:417-418 | `.gif` and upper-case `.JPG` are refused: the extension test is case-sensitive (with the helper lemma `ImageExtensionEndsInG`) |
| Tiles.CheckBackgroundUrlBarePrefix | webextension/newTab.js:415-417 | `httpx.png` is fetched: "http" need not be followed by "://" |

## Findings

| source | as written | input that shows it | evidently intended | confidence | as-written member | corrected member |
|---|---|---|---|---|---|---|
| webextension/newTab.js:294-299, 317-318 | the overlay is stamped with the tile's `lastUpdate` and emptied before the bookmark folder is looked up, so when the lookup throws the stamp stays and later hovers take the cache path | a bookmark tile hovered before its folder has loaded, then hovered again after the folder with one bookmark has loaded: the overlay stays empty until the tile's options are saved again | stamp the overlay only once it has been built, so a failed build is retried | medium (a stuck empty overlay is plainly unwanted, but a hover before loading is a narrow window); not executed | Tiles.HoverBeforeLoadExample | Tiles.ShowChildrenFixed |
| webextension/newTab.js:563-567 | the panel stays right of the tile when `tile.right + panelWidth <= canvas.right`, but is then placed at `tile.right + 10` | tile right edge 900, panel 95 wide, canvas right edge 1000: the panel spans 910–1005 | count the 10-pixel gap in the test, so a panel kept on the right ends inside the canvas | low (a 10-pixel overflow may be tolerated); not executed | Placement.PanelLeftAsWrittenOverflows | Placement.PanelLeft |

## Left out

- DOM, CSS and timers are not modelled. This covers `ContextMenu` element building, `Toast`, the overlay's 100 ms show delay and its pixel offsets (lines 338-369), and `updateFromOptions`/`updateOverlay`.
- The options form is not modelled: `TileOptions.open`/`close` binding and `TileOptions.save`'s field reading, trimming and `new Date()` stamp. These are form plumbing and a clock.
- Percentage conversion is floating point and is not modelled: `getRelativeSize` with its epsilon, the drag-end percent conversion, and opacity `/100`.
- Tiles.OverlayContent: models one rebuild of the overlay, not a hover. After a `Broken` rebuild, every later hover shows an empty overlay, because the stamp is set at line 298 before the throw at line 317; Tiles.ShowChildren models that.
- Tiles.OverlayBrokenExactly: "exactly" is about a rebuild; a later hover on the same options takes the cache path and shows an empty overlay instead (Tiles.HoverAfterBrokenStaysEmpty).
- Tiles.Undelete: `Tile.save` rewrites width and height as percentages before storing. The model stores the snapshot unchanged, because that conversion is floating point.
- Tiles.DeleteThenUndelete: in the script the restored entry's width and height are rewritten by `Tile.save` (lines 242-244) from the rendered size, so only the id, position, background and options are restored exactly; the model, storing the snapshot unchanged, restores the whole entry.
- `Utils.trimImageSize` (canvas re-encoding) and `Utils.getFavicon` (browser detection, regex, `URL` API) are foreign capabilities. So is where the favicon goes in a bookmark link.
- Storage is modelled as pure map updates. Its async calls, `get`, `clearTiles`, `saveCanvas`, `export` and `import`, and the read-modify-write races are not modelled.
- `FilePicker`, `fetch`/`FileReader` and `bookmarks.getTree` are foreign APIs. The bookmark tree is an input. A fetched background is not modelled beyond the decision to fetch.
- The lock flag and its toggle are not modelled; the flag is an input to Tiles.OverlayContent. The overlay cache token (`data-uid` against `lastUpdate`) is an input: the save stamp is the millisecond field of the save time (line 611), a value below 1000, so two saves can share a stamp and the second keeps the first's overlay; the model follows whatever stamps it is given.
- `Tile.create` (random UUID, DOM element), `Canvas.load`, the middle-click size reset and the background setters are not modelled. They are DOM and async work.
- Grid.Drag: the `mousedown` gating (primary button, unlocked canvas) and listener bookkeeping are not modelled. In the source, line 776 removes `onMouseMove` where `onMouseUp` was meant, so the mouseup listener stays registered.
- Grid.WheelResize: the measured size is a whole-pixel input standing for `parseInt(rect.width)`. A negative shrink result is reported as computed; the browser then ignores the negative CSS length.
- Children.BookmarkLink: a kept child without a url gets no href here. In a browser, assigning `undefined` sets the href text "undefined".
- Children.TruncateTitle: lengths count characters, not UTF-16 code units.
- Numbers are unbounded integers or exact reals, not IEEE doubles.
