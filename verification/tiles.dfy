/** Tiles (webextension/newTab.js, `Tile` and `Storage`): the persisted tile
    map with its single-key save and delete, the page's tiles in document
    order with their selection, delete with its last-in-first-out undo
    stack, the children overlay a parent tile shows, and the check on a
    background image URL. */
module Tiles {

  import opened Optional
  import opened Strings
  import opened Bookmarks
  import opened Children

  /** A tile's options record. `mode` is "list" or "bookmarks" once the
      options form has been saved; `lastUpdate` is the overlay cache token
      (the millisecond field of the save time, line 611). */
  datatype TileOptions = TileOptions(
    title: string,
    showTitle: bool,
    url: string,
    opacity: int,
    parentTile: bool,
    direction: string,
    mode: string,
    bookmarkFolderId: string,
    childrenList: string,
    lastUpdate: int)

  /** What `Tile.getData` captures and `Storage` keeps: the id, the CSS
      geometry strings, the background and the options. */
  datatype TileData = TileData(
    id: string,
    left: string,
    top: string,
    width: string,
    height: string,
    backgroundImage: Option<string>,
    options: TileOptions)

  // ---------------------------------------------------------------------
  // Storage

  /** `Storage.saveTile`: the stored map with `data` filed under its id;
      every other entry is unchanged. */
  function SaveTile(tiles: map<string, TileData>, data: TileData): (r: map<string, TileData>)
    ensures r.Keys == tiles.Keys + {data.id}
    ensures r[data.id] == data
    ensures forall k :: k in tiles && k != data.id ==> r[k] == tiles[k]
  {
    tiles[data.id := data]
  }

  /** `Storage.deleteTile`: the stored map without `id`; every other entry
      is unchanged, and a missing id changes nothing. */
  function DeleteTile(tiles: map<string, TileData>, id: string): (r: map<string, TileData>)
    ensures r.Keys == tiles.Keys - {id}
    ensures forall k :: k in r ==> r[k] == tiles[k]
    ensures id !in tiles ==> r == tiles
  {
    tiles - {id}
  }

  /** Deleting a tile just saved leaves the map as deleting it would have;
      saving a tile back after deleting it restores the map when the saved
      data is what was stored. */
  lemma SaveDeleteInverse(tiles: map<string, TileData>, data: TileData)
    ensures DeleteTile(SaveTile(tiles, data), data.id) == DeleteTile(tiles, data.id)
    ensures data.id in tiles && tiles[data.id] == data ==>
              SaveTile(DeleteTile(tiles, data.id), data) == tiles
  {
    assert DeleteTile(SaveTile(tiles, data), data.id).Keys == DeleteTile(tiles, data.id).Keys;
  }

  // ---------------------------------------------------------------------
  // The page

  /** A tile element: its data and whether it carries the `selected` class. */
  datatype TileView = TileView(data: TileData, selected: bool)

  /** The page: the tile elements in document order, the stored map and the
      undo stack (`Tile.undeleteStack`, top at the end). */
  datatype Page = Page(tiles: seq<TileView>, stored: map<string, TileData>, undo: seq<TileData>)

  /** `document.querySelector(".tile.selected")`: the first selected tile in
      document order. */
  function FirstSelected(tiles: seq<TileView>): (r: Option<nat>)
    ensures r.Some? ==> r.value < |tiles| && tiles[r.value].selected
    ensures r.Some? ==> forall j :: 0 <= j < r.value ==> !tiles[j].selected
    ensures r.None? ==> forall j :: 0 <= j < |tiles| ==> !tiles[j].selected
  {
    if |tiles| == 0 then None
    else if tiles[0].selected then Some(0)
    else match FirstSelected(tiles[1..])
      case None => None
      case Some(i) => Some(i + 1)
  }

  ghost predicate AtMostOneSelected(tiles: seq<TileView>) {
    forall i, j :: 0 <= i < |tiles| && 0 <= j < |tiles| && tiles[i].selected && tiles[j].selected ==> i == j
  }

  /** Where a mouse button went down. */
  datatype PressTarget = OnTile(index: nat) | OnCanvas | Elsewhere

  /** `Tile.select`, as the `mousedown` handler calls it: a press on a tile
      selects that tile and deselects every other, a press on the empty canvas
      deselects all, and a press anywhere else changes nothing. Afterwards at
      most one tile is selected, and the tiles' data is untouched. */
  function Select(p: Page, target: PressTarget): (r: Page)
    requires target.OnTile? ==> target.index < |p.tiles|
    ensures r.stored == p.stored && r.undo == p.undo && |r.tiles| == |p.tiles|
    ensures forall j :: 0 <= j < |p.tiles| ==> r.tiles[j].data == p.tiles[j].data
    ensures target.OnTile? ==> FirstSelected(r.tiles) == Some(target.index)
    ensures target.OnCanvas? ==> FirstSelected(r.tiles) == None
    ensures target.Elsewhere? ==> r == p
    ensures !target.Elsewhere? ==> AtMostOneSelected(r.tiles)
  {
    match target
    case Elsewhere => p
    case OnCanvas =>
      Page(seq(|p.tiles|, j requires 0 <= j < |p.tiles| => TileView(p.tiles[j].data, false)), p.stored, p.undo)
    case OnTile(i) =>
      var r := Page(seq(|p.tiles|, j requires 0 <= j < |p.tiles| => TileView(p.tiles[j].data, j == i)), p.stored, p.undo);
      assert r.tiles[i].selected;
      r
  }

  /** The transient notification a step shows. */
  datatype Notice = Removed(name: string) | Restored(name: string) | NothingToUndelete

  datatype Step = Step(page: Page, notice: Option<Notice>)

  /** How a notification names a tile: `title || id`. */
  function DisplayName(d: TileData): (name: string)
    ensures d.options.title != "" ==> name == d.options.title
    ensures d.options.title == "" ==> name == d.id
    ensures name == d.options.title || name == d.id
    ensures d.id != "" ==> name != ""
  {
    if d.options.title != "" then d.options.title else d.id
  }

  /** `Tile.delete`. The script reads the selected tile's options before any
      check, so it needs a selected tile. A tile with an empty id is left
      alone. Otherwise its snapshot goes on top of the undo stack, its entry
      leaves the stored map, its element leaves the page, and nothing is
      selected any more. */
  function Delete(p: Page): (r: Step)
    requires FirstSelected(p.tiles).Some?
    ensures var i := FirstSelected(p.tiles).value;
            var d := p.tiles[i].data;
            && (d.id == "" ==> r == Step(p, None))
            && (d.id != "" ==>
                  && r.page.undo == p.undo + [d]
                  && r.page.stored == DeleteTile(p.stored, d.id)
                  && r.page.tiles == p.tiles[..i] + p.tiles[i + 1..]
                  && |r.page.tiles| == |p.tiles| - 1
                  && r.notice == Some(Removed(DisplayName(d))))
    ensures AtMostOneSelected(p.tiles) && p.tiles[FirstSelected(p.tiles).value].data.id != "" ==>
              FirstSelected(r.page.tiles).None?
  {
    var i := FirstSelected(p.tiles).value;
    var d := p.tiles[i].data;
    if d.id == "" then Step(p, None)
    else
      var rest := p.tiles[..i] + p.tiles[i + 1..];
      assert forall j :: 0 <= j < |rest| ==> rest[j] == (if j < i then p.tiles[j] else p.tiles[j + 1]);
      Step(Page(rest, DeleteTile(p.stored, d.id), p.undo + [d]), Some(Removed(DisplayName(d))))
  }

  /** `Tile.undelete`: with an empty undo stack only "Nothing to undelete"
      is shown. Otherwise the most recent snapshot is popped, its tile is
      re-created (same id, unselected) at the end of the page and saved. */
  function Undelete(p: Page): (r: Step)
    ensures |p.undo| == 0 ==> r == Step(p, Some(NothingToUndelete))
    ensures |p.undo| > 0 ==>
              var d := p.undo[|p.undo| - 1];
              && r.page.undo + [d] == p.undo
              && r.page.tiles == p.tiles + [TileView(d, false)]
              && r.page.stored == SaveTile(p.stored, d)
              && r.notice == Some(Restored(DisplayName(d)))
  {
    if |p.undo| == 0 then Step(p, Some(NothingToUndelete))
    else
      var d := p.undo[|p.undo| - 1];
      assert p.undo[..|p.undo| - 1] + [d] == p.undo;
      Step(Page(p.tiles + [TileView(d, false)], SaveTile(p.stored, d), p.undo[..|p.undo| - 1]),
           Some(Restored(DisplayName(d))))
  }

  /** Undo right after a delete restores the deleted tile with the same id,
      options and geometry, empties the undo stack back to what it was, and
      leaves the stored map as it was whenever it held that tile's data. */
  lemma DeleteThenUndelete(p: Page)
    requires FirstSelected(p.tiles).Some?
    requires p.tiles[FirstSelected(p.tiles).value].data.id != ""
    ensures var i := FirstSelected(p.tiles).value;
            var d := p.tiles[i].data;
            var q := Undelete(Delete(p).page);
            && q.notice == Some(Restored(DisplayName(d)))
            && q.page.undo == p.undo
            && q.page.tiles == p.tiles[..i] + p.tiles[i + 1..] + [TileView(d, false)]
            && q.page.stored == SaveTile(p.stored, d)
            && (d.id in p.stored && p.stored[d.id] == d ==> q.page.stored == p.stored)
  {
    var i := FirstSelected(p.tiles).value;
    var d := p.tiles[i].data;
    var p1 := Delete(p).page;
    assert p1.undo == p.undo + [d];
    assert (p.undo + [d])[..|p.undo|] == p.undo;
    SaveDeleteInverse(p.stored, d);
  }

  /** The ids of tile elements, in order. */
  function TileIds(tiles: seq<TileView>): (ids: seq<string>)
    ensures |ids| == |tiles|
    ensures forall j :: 0 <= j < |tiles| ==> ids[j] == tiles[j].data.id
  {
    seq(|tiles|, j requires 0 <= j < |tiles| => tiles[j].data.id)
  }

  /** The ids of snapshots, in order. */
  function SnapshotIds(undo: seq<TileData>): (ids: seq<string>)
    ensures |ids| == |undo|
    ensures forall j :: 0 <= j < |undo| ==> ids[j] == undo[j].id
  {
    seq(|undo|, j requires 0 <= j < |undo| => undo[j].id)
  }

  /** The ids on the page and on the undo stack, in that order. */
  function Ids(p: Page): seq<string> {
    TileIds(p.tiles) + SnapshotIds(p.undo)
  }

  /** The page's invariant: at most one tile is selected, and no id occurs
      twice among the tiles on the page and the snapshots awaiting undo. */
  ghost predicate Valid(p: Page) {
    && AtMostOneSelected(p.tiles)
    && forall x :: multiset(Ids(p))[x] <= 1
  }

  lemma TileIdsAppend(a: seq<TileView>, b: seq<TileView>)
    ensures TileIds(a + b) == TileIds(a) + TileIds(b)
  {
  }

  lemma SnapshotIdsAppend(a: seq<TileData>, b: seq<TileData>)
    ensures SnapshotIds(a + b) == SnapshotIds(a) + SnapshotIds(b)
  {
  }

  /** Selecting keeps the page valid. */
  lemma SelectKeepsValid(p: Page, target: PressTarget)
    requires Valid(p)
    requires target.OnTile? ==> target.index < |p.tiles|
    ensures Valid(Select(p, target))
  {
    var r := Select(p, target);
    assert Ids(r) == Ids(p);
  }

  /** Removing the element at `i` removes exactly its id. */
  lemma RemoveTileIds(tiles: seq<TileView>, i: nat)
    requires i < |tiles|
    ensures multiset(TileIds(tiles[..i] + tiles[i + 1..])) + multiset{tiles[i].data.id}
         == multiset(TileIds(tiles))
  {
    var before := tiles[..i];
    var after := tiles[i + 1..];
    assert tiles == before + [tiles[i]] + after;
    TileIdsAppend(before + [tiles[i]], after);
    TileIdsAppend(before, [tiles[i]]);
    TileIdsAppend(before, after);
  }

  /** Deleting moves one id from the page to the undo stack: the page stays
      valid. */
  lemma DeleteKeepsValid(p: Page)
    requires Valid(p)
    requires FirstSelected(p.tiles).Some?
    ensures Valid(Delete(p).page)
  {
    var i := FirstSelected(p.tiles).value;
    var d := p.tiles[i].data;
    if d.id != "" {
      var r := Delete(p).page;
      assert r.tiles == p.tiles[..i] + p.tiles[i + 1..] && r.undo == p.undo + [d];
      RemoveTileIds(p.tiles, i);
      SnapshotIdsAppend(p.undo, [d]);
      assert multiset(Ids(r)) == multiset(Ids(p));
    }
  }

  /** Undeleting moves the top id from the undo stack back to the page: the
      page stays valid. */
  lemma UndeleteKeepsValid(p: Page)
    requires Valid(p)
    ensures Valid(Undelete(p).page)
  {
    if |p.undo| > 0 {
      var r := Undelete(p).page;
      var d := p.undo[|p.undo| - 1];
      TileIdsAppend(p.tiles, [TileView(d, false)]);
      SnapshotIdsAppend(r.undo, [d]);
      assert multiset(Ids(r)) == multiset(Ids(p));
    }
  }

  // ---------------------------------------------------------------------
  // The children overlay

  /** What `Tile.showChildren` does on pointer-enter: nothing unless the
      canvas is locked and the tile is a parent; otherwise the overlay's
      links, or Broken where the script throws on a missing bookmark
      folder. */
  datatype Overlay = NotShown | Broken | Shown(links: seq<Link>)

  function OverlayContent(locked: bool, o: TileOptions, folders: map<string, BookmarkNode>): (r: Overlay)
    ensures !locked || !o.parentTile ==> r == NotShown
    ensures locked && o.parentTile && o.mode == "list" ==> r == Shown(ParseChildrenList(o.childrenList))
    ensures locked && o.parentTile && o.mode == "bookmarks" ==>
              (r.Broken? <==> BookmarkLinks(folders, o.bookmarkFolderId).None?)
              && (r.Shown? ==> r.links == BookmarkLinks(folders, o.bookmarkFolderId).value)
              && (BookmarkLinks(folders, o.bookmarkFolderId).Some? ==>
                    r == Shown(BookmarkLinks(folders, o.bookmarkFolderId).value))
    ensures locked && o.parentTile && o.mode != "list" && o.mode != "bookmarks" ==> r == Shown([])
  {
    if !locked || !o.parentTile then NotShown
    else if o.mode == "list" then Shown(ParseChildrenList(o.childrenList))
    else if o.mode == "bookmarks" then
      match BookmarkLinks(folders, o.bookmarkFolderId)
      case None => Broken
      case Some(links) => Shown(links)
    else Shown([])
  }

  /** A list written from links, one `text|url` line each, shows exactly
      those links in list mode on a locked canvas. */
  lemma OverlayShowsWrittenList(o: TileOptions, folders: map<string, BookmarkNode>, links: seq<Link>)
    requires o.parentTile && o.mode == "list"
    requires |links| >= 1 && forall i :: 0 <= i < |links| ==> Writable(links[i])
    ensures OverlayContent(true, o.(childrenList := RenderList(links)), folders) == Shown(links)
  {
    ParseRenderRoundTrip(links);
  }

  /** The overlay breaks exactly when a parent tile in bookmark mode names a
      folder that is missing from the folder list or has no children list. */
  lemma OverlayBrokenExactly(locked: bool, o: TileOptions, folders: map<string, BookmarkNode>)
    ensures OverlayContent(locked, o, folders).Broken? <==>
              locked && o.parentTile && o.mode == "bookmarks"
              && (o.bookmarkFolderId !in folders || folders[o.bookmarkFolderId].children.NoChildren?)
  {
  }

  /** In bookmark mode every link shown is a non-folder child of the named
      folder, other than the folder itself, with its shortened title and its
      url; and every such child is shown. */
  lemma OverlayBookmarkLinksAreKeptChildren(o: TileOptions, folders: map<string, BookmarkNode>)
    requires o.parentTile && o.mode == "bookmarks"
    requires OverlayContent(true, o, folders).Shown?
    ensures var cs := ChildrenOf(folders[o.bookmarkFolderId]);
            var links := OverlayContent(true, o, folders).links;
            (forall l :: l in links ==> exists c :: c in cs && Kept(c, o.bookmarkFolderId) && l == BookmarkLink(c))
            && (forall c :: c in cs && Kept(c, o.bookmarkFolderId) ==> BookmarkLink(c) in links)
  {
    var id := o.bookmarkFolderId;
    var cs := ChildrenOf(folders[id]);
    var kept := KeptChildren(cs, id);
    var links := OverlayContent(true, o, folders).links;
    assert links == BookmarkLinks(folders, id).value;
    forall l | l in links
      ensures exists c :: c in cs && Kept(c, id) && l == BookmarkLink(c)
    {
      var i :| 0 <= i < |links| && links[i] == l;
      assert kept[i] in kept;
    }
    forall c | c in cs && Kept(c, id)
      ensures BookmarkLink(c) in links
    {
      var i :| 0 <= i < |kept| && kept[i] == c;
      assert links[i] == BookmarkLink(c);
    }
  }

  // ---------------------------------------------------------------------
  // The overlay cache across hovers

  /** The `data-uid` stamp a tile's overlay element carries between hovers,
      and the links it then holds. A tile whose overlay was never built, or
      whose attribute never matches, is Unstamped. */
  datatype OverlayCache = Unstamped | Stamped(uid: int, links: seq<Link>)

  /** One pointer-enter: what the user sees, and the overlay element left
      behind for the next hover. */
  datatype Hover = Hover(shown: Overlay, cache: OverlayCache)

  /** `Tile.showChildren` as written. An overlay stamped with the tile's
      current `lastUpdate` is shown again as it is (lines 294-296).
      Otherwise the overlay is stamped and emptied (lines 298-299) and then
      rebuilt; when the rebuild throws at line 317 or 318 the stamp and the
      emptied overlay stay behind. */
  function ShowChildren(locked: bool, o: TileOptions, folders: map<string, BookmarkNode>,
                        cache: OverlayCache): (h: Hover)
    ensures !locked || !o.parentTile ==> h == Hover(NotShown, cache)
    ensures locked && o.parentTile && cache.Stamped? && cache.uid == o.lastUpdate ==>
              h == Hover(Shown(cache.links), cache)
    ensures locked && o.parentTile && !(cache.Stamped? && cache.uid == o.lastUpdate) ==>
              h.shown == OverlayContent(locked, o, folders)
              && h.cache.Stamped? && h.cache.uid == o.lastUpdate
              && (h.shown.Shown? ==> h.cache.links == h.shown.links)
              && (h.shown.Broken? ==> h.cache.links == [])
  {
    if !locked || !o.parentTile then Hover(NotShown, cache)
    else if cache.Stamped? && cache.uid == o.lastUpdate then Hover(Shown(cache.links), cache)
    else
      var built := OverlayContent(locked, o, folders);
      if built.Shown? then Hover(built, Stamped(o.lastUpdate, built.links))
      else Hover(built, Stamped(o.lastUpdate, []))
  }

  /** On a tile never hovered, the hover shows the overlay a rebuild gives. */
  lemma FirstHoverIsRebuild(locked: bool, o: TileOptions, folders: map<string, BookmarkNode>)
    ensures ShowChildren(locked, o, folders, Unstamped).shown == OverlayContent(locked, o, folders)
  {
  }

  /** After a hover that broke, every later hover with the same options shows
      an empty overlay, whatever the folder list has become: the stamp was
      set before the throw. */
  lemma HoverAfterBrokenStaysEmpty(o: TileOptions, before: map<string, BookmarkNode>,
                                   after: map<string, BookmarkNode>, cache: OverlayCache)
    requires ShowChildren(true, o, before, cache).shown.Broken?
    ensures ShowChildren(true, o, after, ShowChildren(true, o, before, cache).cache).shown == Shown([])
  {
  }

  /** A bookmark tile hovered before the folder list has loaded breaks; once
      the folder holding one bookmark is loaded, the next hover still shows
      an empty overlay, where a rebuild would show the bookmark. */
  lemma HoverBeforeLoadExample()
    ensures var b := BookmarkNode("b", "B", Some("http://b.org"), None, NoChildren);
            var f := BookmarkNode("f", "F", None, Some(FOLDER), ChildList([b]));
            var o := TileOptions("T", true, "", 100, true, "down", "bookmarks", "f", "", 7);
            var first := ShowChildren(true, o, map[], Unstamped);
            first.shown == Broken
            && ShowChildren(true, o, map["f" := f], first.cache).shown == Shown([])
            && OverlayContent(true, o, map["f" := f]) == Shown([Link("B", Some("http://b.org"))])
  {
    var b := BookmarkNode("b", "B", Some("http://b.org"), None, NoChildren);
    var f := BookmarkNode("f", "F", None, Some(FOLDER), ChildList([b]));
    assert Kept(b, "f");
    assert KeptChildren([b], "f") == [b];
    assert BookmarkLink(b) == Link("B", Some("http://b.org"));
  }

  /** The corrected hover: the stamp is set only once the overlay has been
      built, so a rebuild that fails leaves the overlay unstamped. */
  function ShowChildrenFixed(locked: bool, o: TileOptions, folders: map<string, BookmarkNode>,
                             cache: OverlayCache): (h: Hover)
    ensures !locked || !o.parentTile ==> h == Hover(NotShown, cache)
    ensures locked && o.parentTile && cache.Stamped? && cache.uid == o.lastUpdate ==>
              h == Hover(Shown(cache.links), cache)
    ensures locked && o.parentTile && !(cache.Stamped? && cache.uid == o.lastUpdate) ==>
              h.shown == OverlayContent(locked, o, folders)
              && (h.shown.Shown? ==> h.cache == Stamped(o.lastUpdate, h.shown.links))
              && (h.shown.Broken? ==> h.cache == Unstamped)
  {
    if !locked || !o.parentTile then Hover(NotShown, cache)
    else if cache.Stamped? && cache.uid == o.lastUpdate then Hover(Shown(cache.links), cache)
    else
      var built := OverlayContent(locked, o, folders);
      if built.Shown? then Hover(built, Stamped(o.lastUpdate, built.links))
      else Hover(built, Unstamped)
  }

  /** With the correction, the hover after one that broke rebuilds: it shows
      what the folder list now gives. */
  lemma HoverFixedAfterBrokenRebuilds(o: TileOptions, before: map<string, BookmarkNode>,
                                      after: map<string, BookmarkNode>, cache: OverlayCache)
    requires ShowChildrenFixed(true, o, before, cache).shown.Broken?
    ensures ShowChildrenFixed(true, o, after, ShowChildrenFixed(true, o, before, cache).cache).shown
              == OverlayContent(true, o, after)
  {
  }

  /** The two hovers differ only where the rebuild breaks. */
  lemma HoversAgreeUnlessBroken(locked: bool, o: TileOptions, folders: map<string, BookmarkNode>,
                                cache: OverlayCache)
    ensures ShowChildren(locked, o, folders, cache) == ShowChildrenFixed(locked, o, folders, cache)
            <==> !(locked && o.parentTile && !(cache.Stamped? && cache.uid == o.lastUpdate)
                   && OverlayContent(locked, o, folders).Broken?)
  {
  }

  // ---------------------------------------------------------------------
  // Background from a URL

  /** The outcome of `Tile.setBackgroundFromUrl`'s checks on the answer to
      its prompt. */
  datatype UrlCheck = Cancelled | InvalidUrl | NotAnImage | Fetch(url: string)

  /** The alert shown for a rejected URL. */
  function AlertText(c: UrlCheck): (text: Option<string>)
    ensures text.Some? <==> c.InvalidUrl? || c.NotAnImage?
    ensures c.InvalidUrl? ==> text == Some("Invalid URL")
    ensures c.NotAnImage? ==> text == Some("Only images are supported")
  {
    match c
    case InvalidUrl => Some("Invalid URL")
    case NotAnImage => Some("Only images are supported")
    case _ => None
  }

  /** An alert is shown exactly for a non-empty answer that fails the
      scheme test or the extension test. */
  lemma AlertShownExactly(answer: Option<string>)
    ensures AlertText(CheckBackgroundUrl(answer)).Some? <==>
              answer.Some? && answer.value != ""
              && !(StartsWith(answer.value, "http") && HasImageExtension(answer.value))
  {
  }

  /** The file name endings accepted as images. */
  predicate HasImageExtension(url: string) {
    EndsWith(url, ".jpg") || EndsWith(url, ".jpeg") || EndsWith(url, ".png") || EndsWith(url, ".svg")
  }

  /** No answer or an empty one aborts silently; otherwise an answer not
      starting with "http" is an invalid URL, whatever it ends with; then one
      without an image extension is refused; only an answer passing all
      three checks is fetched, unchanged. */
  function CheckBackgroundUrl(answer: Option<string>): (c: UrlCheck)
    ensures c.Cancelled? <==> answer.None? || answer.value == ""
    ensures c.InvalidUrl? <==> answer.Some? && answer.value != "" && !StartsWith(answer.value, "http")
    ensures c.NotAnImage? <==> answer.Some? && StartsWith(answer.value, "http") && !HasImageExtension(answer.value)
    ensures c.Fetch? <==> answer.Some? && StartsWith(answer.value, "http") && HasImageExtension(answer.value)
    ensures c.Fetch? ==> c.url == answer.value
  {
    match answer
    case None => Cancelled
    case Some(url) =>
      if url == "" then Cancelled
      else if !StartsWith(url, "http") then InvalidUrl
      else if !HasImageExtension(url) then NotAnImage
      else Fetch(url)
  }

  /** Every accepted extension ends in a lower-case `g`. */
  lemma ImageExtensionEndsInG(url: string)
    requires HasImageExtension(url)
    ensures |url| > 0 && url[|url| - 1] == 'g'
  {
    var last := url[|url| - 1];
    assert EndsWith(url, ".jpg") ==> last == ".jpg"[3];
    assert EndsWith(url, ".jpeg") ==> last == ".jpeg"[4];
    assert EndsWith(url, ".png") ==> last == ".png"[3];
    assert EndsWith(url, ".svg") ==> last == ".svg"[3];
  }

  /** The scheme test comes first: an `ftp` URL is an invalid URL even
      with an extension that would also be refused. */
  lemma CheckBackgroundUrlSchemeFirst()
    ensures CheckBackgroundUrl(Some("ftp://example.com/a.gif")) == InvalidUrl
    ensures CheckBackgroundUrl(Some("")) == Cancelled
    ensures CheckBackgroundUrl(None) == Cancelled
  {
    var u := "ftp://example.com/a.gif";
    assert u[0] == 'f';
    assert u[..4] != "http";
  }

  /** The extension test is case-sensitive and refuses other image types. */
  lemma CheckBackgroundUrlExtensions()
    ensures CheckBackgroundUrl(Some("https://example.com/a.gif")) == NotAnImage
    ensures CheckBackgroundUrl(Some("https://example.com/a.JPG")) == NotAnImage
  {
    var gif := "https://example.com/a.gif";
    var jpg := "https://example.com/a.JPG";
    assert gif[0] == 'h' && gif[1] == 't' && gif[2] == 't' && gif[3] == 'p';
    assert gif[..4] == "http";
    assert jpg[0] == 'h' && jpg[1] == 't' && jpg[2] == 't' && jpg[3] == 'p';
    assert jpg[..4] == "http";
    if HasImageExtension(gif) {
      ImageExtensionEndsInG(gif);
    }
    if HasImageExtension(jpg) {
      ImageExtensionEndsInG(jpg);
    }
  }

  /** "http" need not be followed by "://". */
  lemma CheckBackgroundUrlBarePrefix()
    ensures CheckBackgroundUrl(Some("httpx.png")) == Fetch("httpx.png")
  {
    var u := "httpx.png";
    assert u[..4] == "http";
    assert u[5..] == ".png";
  }
}
