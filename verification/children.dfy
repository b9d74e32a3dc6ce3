/** The contents of a parent tile's children overlay (webextension/newTab.js,
    `Tile.showChildren`): the links parsed from a manual "text|url" list,
    and the links built from a bookmark folder's children. */
module Children {

  import opened Optional
  import opened Strings
  import opened Bookmarks

  /** One overlay link: its text and its href, when one is set. */
  datatype Link = Link(text: string, href: Option<string>)

  /** One line of a manual list: split at every `|`, the first piece is the
      text and the other pieces joined back with `|` are the href, which is
      left unset when empty. The text is the line up to its first `|`; the
      href is everything after it, later `|`s included. */
  function ParseLine(line: string): (l: Link)
    ensures '|' !in l.text
    ensures l.href.Some? ==> l.href.value != "" && line == l.text + ['|'] + l.href.value
    ensures l.href.None? ==> line == l.text || line == l.text + ['|']
  {
    var pieces := Split(line, '|');
    var rest := Join(pieces[1..], '|');
    assert |pieces| > 1 ==> line == pieces[0] + ['|'] + rest;
    assert |pieces| == 1 ==> line == pieces[0] && rest == "";
    Link(pieces[0], if rest != "" then Some(rest) else None)
  }

  /** The position of the first `c` in `s`. */
  function IndexOf(s: string, c: char): (i: nat)
    requires c in s
    ensures i < |s| && s[i] == c && c !in s[..i]
  {
    if s[0] == c then 0 else 1 + IndexOf(s[1..], c)
  }

  /** Reference definition: cut the line at its first `|`. */
  function CutAtFirstBar(line: string): Link {
    if '|' !in line then Link(line, None)
    else
      var i := IndexOf(line, '|');
      Link(line[..i], if i + 1 < |line| then Some(line[i + 1..]) else None)
  }

  /** `text` is where the line is cut at its first `|`: a `|`-free prefix
      followed by a `|` or by nothing. */
  predicate IsCut(line: string, text: string) {
    '|' !in text && |text| <= |line| && line[..|text|] == text
    && (|text| == |line| || line[|text|] == '|')
  }

  /** A line has only one such cut. */
  lemma CutUnique(line: string, a: string, b: string)
    requires IsCut(line, a) && IsCut(line, b)
    ensures a == b
  {
  }

  lemma ParseLineIsCut(line: string)
    ensures IsCut(line, ParseLine(line).text)
  {
  }

  /** The split-and-rejoin of the script is the same as cutting the line at
      its first `|`. */
  lemma ParseLineCutsAtFirstBar(line: string)
    ensures ParseLine(line) == CutAtFirstBar(line)
  {
    var l := ParseLine(line);
    ParseLineIsCut(line);
    if '|' in line {
      var i := IndexOf(line, '|');
      assert IsCut(line, line[..i]);
      CutUnique(line, l.text, line[..i]);
      if l.href.Some? {
        assert line[i + 1..] == l.href.value;
      }
    } else {
      assert IsCut(line, line);
      CutUnique(line, l.text, line);
    }
  }

  /** The manual list mode: one link per line of `childrenList`, in order. */
  function ParseChildrenList(list: string): (links: seq<Link>)
    ensures |links| == multiset(list)['\n'] + 1
    ensures forall i :: 0 <= i < |links| ==> '\n' !in links[i].text && '|' !in links[i].text
    ensures forall i :: 0 <= i < |links| ==> links[i] == ParseLine(Split(list, '\n')[i])
  {
    var lines := Split(list, '\n');
    seq(|lines|, i requires 0 <= i < |lines| => ParseLine(lines[i]))
  }

  /** The text of a link as a list line, the inverse of ParseLine. */
  function LinkLine(l: Link): string {
    match l.href
    case None => l.text
    case Some(h) => l.text + ['|'] + h
  }

  /** Writing a list of links. */
  function RenderList(links: seq<Link>): string {
    Join(seq(|links|, i requires 0 <= i < |links| => LinkLine(links[i])), '\n')
  }

  /** Links whose text has no `|` or newline and whose href is non-empty and
      has no newline can be written as a list. */
  predicate Writable(l: Link) {
    '|' !in l.text && '\n' !in l.text
    && (l.href.Some? ==> l.href.value != "" && '\n' !in l.href.value)
  }

  lemma ParseLinkLine(l: Link)
    requires Writable(l)
    ensures ParseLine(LinkLine(l)) == l
  {
    var line := LinkLine(l);
    var p := ParseLine(line);
    ParseLineIsCut(line);
    assert IsCut(line, l.text);
    CutUnique(line, p.text, l.text);
    assert l.href.Some? ==> line[|l.text| + 1..] == l.href.value;
    assert p.href.Some? ==> line[|p.text| + 1..] == p.href.value;
  }

  /** Parsing a written list gives the links back: one link per line, in
      order, with text and href intact. */
  lemma ParseRenderRoundTrip(links: seq<Link>)
    requires |links| >= 1
    requires forall i :: 0 <= i < |links| ==> Writable(links[i])
    ensures ParseChildrenList(RenderList(links)) == links
  {
    var lines := seq(|links|, i requires 0 <= i < |links| => LinkLine(links[i]));
    forall i | 0 <= i < |lines|
      ensures '\n' !in lines[i]
    {
      assert lines[i] == LinkLine(links[i]);
    }
    SplitJoin(lines, '\n');
    forall i | 0 <= i < |links|
      ensures ParseLine(lines[i]) == links[i]
    {
      ParseLinkLine(links[i]);
    }
  }

  /** A line without `|` gives a link without href. */
  lemma ExampleTwoLinks()
    ensures var links := ParseChildrenList("Home|http://a.com\nDocs");
            |links| == 2
            && links[0] == Link("Home", Some("http://a.com"))
            && links[1] == Link("Docs", None)
  {
    var expected := [Link("Home", Some("http://a.com")), Link("Docs", None)];
    var lines := seq(|expected|, i requires 0 <= i < |expected| => LinkLine(expected[i]));
    assert lines[0] == "Home" + ['|'] + "http://a.com" == "Home|http://a.com";
    assert lines[1] == "Docs";
    assert lines == ["Home|http://a.com", "Docs"];
    assert Join(lines, '\n') == "Home|http://a.com" + ['\n'] + Join(lines[1..], '\n');
    assert RenderList(expected) == "Home|http://a.com\nDocs";
    ParseRenderRoundTrip(expected);
  }

  /** Longest bookmark title shown in full. */
  const MAX_TITLE: nat := 50

  /** A bookmark title as shown: titles longer than MAX_TITLE characters are
      cut to their first MAX_TITLE characters followed by "...", others are
      left alone. */
  function TruncateTitle(title: string): (shown: string)
    ensures |title| <= MAX_TITLE ==> shown == title
    ensures |title| > MAX_TITLE ==>
      |shown| == MAX_TITLE + 3 && shown[..MAX_TITLE] == title[..MAX_TITLE] && shown[MAX_TITLE..] == "..."
    ensures |shown| <= MAX_TITLE + 3
  {
    if |title| > MAX_TITLE then title[..MAX_TITLE] + "..." else title
  }

  /** Truncating twice is truncating once. */
  lemma TruncateTitleIdempotent(title: string)
    ensures TruncateTitle(TruncateTitle(title)) == TruncateTitle(title)
  {
    var once := TruncateTitle(title);
    if |title| > MAX_TITLE {
      assert once[..MAX_TITLE] + "..." == once;
    }
  }

  /** The bookmark-mode filter: a child is skipped when it is the folder
      itself or a folder. */
  predicate Kept(child: BookmarkNode, folderId: string) {
    !(child.id == folderId || child.kind == Some(FOLDER))
  }

  /** `xs` is `ys` with some elements left out, order kept. */
  ghost predicate IsSubsequence<T>(xs: seq<T>, ys: seq<T>) {
    if |xs| == 0 then true
    else if |ys| == 0 then false
    else if xs[0] == ys[0] then IsSubsequence(xs[1..], ys[1..])
    else IsSubsequence(xs, ys[1..])
  }

  /** The children that get a link: exactly the kept ones, in their order. */
  function KeptChildren(children: seq<BookmarkNode>, folderId: string): (kept: seq<BookmarkNode>)
    ensures forall c :: c in kept <==> c in children && Kept(c, folderId)
    ensures IsSubsequence(kept, children)
    ensures |kept| <= |children|
  {
    if |children| == 0 then []
    else
      var rest := KeptChildren(children[1..], folderId);
      assert children == [children[0]] + children[1..];
      if Kept(children[0], folderId) then
        assert ([children[0]] + rest)[1..] == rest;
        [children[0]] + rest
      else
        rest
  }

  /** Each kept child is kept as often as it occurs among the children, and
      no other node is kept: with the ensures of `KeptChildren` this fixes
      the result even when a node occurs twice. */
  lemma {:induction false} KeptChildrenCounts(children: seq<BookmarkNode>, folderId: string, c: BookmarkNode)
    ensures multiset(KeptChildren(children, folderId))[c] ==
              if Kept(c, folderId) then multiset(children)[c] else 0
    decreases |children|
  {
    if |children| > 0 {
      var head, tail := children[0], children[1..];
      KeptChildrenCounts(tail, folderId, c);
      assert children == [head] + tail;
      assert multiset(children)[c] == multiset([head])[c] + multiset(tail)[c];
      var rest := KeptChildren(tail, folderId);
      if Kept(head, folderId) {
        assert KeptChildren(children, folderId) == [head] + rest;
        assert multiset([head] + rest)[c] == multiset([head])[c] + multiset(rest)[c];
      } else {
        assert head != c || !Kept(c, folderId);
        assert KeptChildren(children, folderId) == rest;
      }
    }
  }

  /** A kept child's link: its shortened title and its url. */
  function BookmarkLink(child: BookmarkNode): (l: Link)
    ensures l.href == child.url
    ensures l.text == TruncateTitle(child.title)
    ensures |l.text| <= MAX_TITLE + 3
    ensures |child.title| <= MAX_TITLE ==> l.text == child.title
    ensures |child.title| > MAX_TITLE ==> l.text[..MAX_TITLE] == child.title[..MAX_TITLE]
  {
    Link(TruncateTitle(child.title), child.url)
  }

  /** The bookmark mode: one link per kept child of the configured folder,
      in order. When the folder is not in the folder list, or has no
      children list, the script fails; that is None here. */
  function BookmarkLinks(list: map<string, BookmarkNode>, folderId: string): (r: Option<seq<Link>>)
    ensures r.Some? <==> folderId in list && list[folderId].children.ChildList?
    ensures r.Some? ==>
      var kept := KeptChildren(list[folderId].children.nodes, folderId);
      |r.value| == |kept|
      && forall i :: 0 <= i < |kept| ==> r.value[i] == BookmarkLink(kept[i])
  {
    if folderId !in list then None
    else match list[folderId].children
      case NoChildren => None
      case ChildList(cs) =>
        var kept := KeptChildren(cs, folderId);
        Some(seq(|kept|, i requires 0 <= i < |kept| => BookmarkLink(kept[i])))
  }
}
