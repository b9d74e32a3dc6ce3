/** The bookmark folder snapshot (webextension/newTab.js, `Bookmarks` and
    `createOption` in `TileOptions.initForm`): the folder walk that collects
    folders and gives untyped ones the type "folder", the id-keyed folder
    list with the root alias, and the indented folder `<select>` entries. */
module Bookmarks {

  import opened Optional
  import opened Strings

  /** A node of the browser's bookmark tree. `kind` is the `type` property
      (absent in some browsers); leaves have no children list at all. */
  datatype BookmarkNode = BookmarkNode(
    id: string,
    title: string,
    url: Option<string>,
    kind: Option<string>,
    children: Children)

  /** A node's `children` property: absent, or a list (possibly empty). */
  datatype Children = NoChildren | ChildList(nodes: seq<BookmarkNode>)

  const FOLDER: string := "folder"

  /** The walk's test: a node with a children list (even an empty one) or
      with type "folder". */
  predicate IsFolder(n: BookmarkNode) {
    n.children.ChildList? || n.kind == Some(FOLDER)
  }

  /** The children list, empty when absent. */
  function ChildrenOf(n: BookmarkNode): seq<BookmarkNode> {
    match n.children
    case NoChildren => []
    case ChildList(cs) => cs
  }

  /** The node as the walk leaves it: a node with children and no type gets
      the type "folder", everywhere in its subtree. Nothing else changes. */
  function Normalize(n: BookmarkNode): (m: BookmarkNode)
    ensures m.id == n.id && m.title == n.title && m.url == n.url
    ensures m.children.ChildList? <==> n.children.ChildList?
    ensures |ChildrenOf(m)| == |ChildrenOf(n)|
    ensures IsFolder(m) <==> IsFolder(n)
    ensures IsFolder(n) ==> m.kind.Some?
    ensures n.kind.Some? ==> m.kind == n.kind
    ensures n.kind.None? && IsFolder(n) ==> m.kind == Some(FOLDER)
    ensures !IsFolder(n) ==> m == n
    decreases n, 1
  {
    match n.children
    case NoChildren => n
    case ChildList(cs) =>
      var kind := if n.kind.None? then Some(FOLDER) else n.kind;
      BookmarkNode(n.id, n.title, n.url, kind, ChildList(NormalizeAll(cs)))
  }

  function NormalizeAll(ns: seq<BookmarkNode>): (ms: seq<BookmarkNode>)
    ensures |ms| == |ns|
    decreases ns, 0
  {
    if |ns| == 0 then [] else [Normalize(ns[0])] + NormalizeAll(ns[1..])
  }

  /** `getFolders` on one node: the node itself when it is a folder, then the
      folders among its descendants, depth first. Every node returned is a
      folder and has a type. */
  function FoldersOf(n: BookmarkNode): (fs: seq<BookmarkNode>)
    ensures forall i :: 0 <= i < |fs| ==> IsFolder(fs[i]) && fs[i].kind.Some?
    ensures IsFolder(n) ==> |fs| > 0 && fs[0] == Normalize(n)
    decreases n, 1
  {
    (if IsFolder(n) then [Normalize(n)] else [])
    + match n.children
      case NoChildren => []
      case ChildList(cs) => FoldersOfAll(cs)
  }

  function FoldersOfAll(ns: seq<BookmarkNode>): (fs: seq<BookmarkNode>)
    ensures forall i :: 0 <= i < |fs| ==> IsFolder(fs[i]) && fs[i].kind.Some?
    decreases ns, 0
  {
    if |ns| == 0 then [] else FoldersOf(ns[0]) + FoldersOfAll(ns[1..])
  }

  /** `Bookmarks.getFolders`: the walk over every root of the tree, which
      returns exactly the folders of the retyped tree, in preorder. */
  function GetFolders(tree: seq<BookmarkNode>): (fs: seq<BookmarkNode>)
    ensures fs == FilterFolders(PreorderAll(NormalizeAll(tree)))
  {
    FoldersOfAllIsFilteredPreorder(tree);
    FoldersOfAll(tree)
  }

  /** Reference definitions: the plain preorder of a tree, and the folder
      filter over a list of nodes. */
  function Preorder(n: BookmarkNode): seq<BookmarkNode>
    decreases n, 1
  {
    [n] + match n.children
          case NoChildren => []
          case ChildList(cs) => PreorderAll(cs)
  }

  function PreorderAll(ns: seq<BookmarkNode>): seq<BookmarkNode>
    decreases ns, 0
  {
    if |ns| == 0 then [] else Preorder(ns[0]) + PreorderAll(ns[1..])
  }

  function FilterFolders(ns: seq<BookmarkNode>): seq<BookmarkNode> {
    if |ns| == 0 then []
    else (if IsFolder(ns[0]) then [ns[0]] else []) + FilterFolders(ns[1..])
  }

  lemma {:induction false} FilterFoldersAppend(a: seq<BookmarkNode>, b: seq<BookmarkNode>)
    ensures FilterFolders(a + b) == FilterFolders(a) + FilterFolders(b)
  {
    if |a| > 0 {
      assert (a + b)[1..] == a[1..] + b;
      FilterFoldersAppend(a[1..], b);
    } else {
      assert a + b == b;
    }
  }

  /** The walk returns exactly the folders of the normalised tree, in
      preorder. */
  lemma {:induction false} FoldersOfIsFilteredPreorder(n: BookmarkNode)
    ensures FoldersOf(n) == FilterFolders(Preorder(Normalize(n)))
    decreases n, 1
  {
    var m := Normalize(n);
    match n.children {
      case NoChildren =>
      case ChildList(cs) =>
        FoldersOfAllIsFilteredPreorder(cs);
        assert m.children == ChildList(NormalizeAll(cs));
    }
    FilterFoldersAppend([m], PreorderAll(ChildrenOf(m)));
    assert FilterFolders([m]) == (if IsFolder(m) then [m] else []) by {
      assert [m][1..] == [];
    }
  }

  lemma {:induction false} FoldersOfAllIsFilteredPreorder(ns: seq<BookmarkNode>)
    ensures FoldersOfAll(ns) == FilterFolders(PreorderAll(NormalizeAll(ns)))
    decreases ns, 0
  {
    if |ns| > 0 {
      var ms := NormalizeAll(ns);
      assert ms[0] == Normalize(ns[0]) && ms[1..] == NormalizeAll(ns[1..]);
      FoldersOfIsFilteredPreorder(ns[0]);
      FoldersOfAllIsFilteredPreorder(ns[1..]);
      FilterFoldersAppend(Preorder(ms[0]), PreorderAll(ms[1..]));
    }
  }

  /** `after` is `before` as the walk leaves it: same id, title, url and
      children presence; the type set to "folder" when the node has a
      children list and no type, and otherwise untouched. */
  predicate Retyped(before: BookmarkNode, after: BookmarkNode) {
    after.id == before.id && after.title == before.title && after.url == before.url
    && (after.children.ChildList? <==> before.children.ChildList?)
    && (if before.children.ChildList? && before.kind.None? then after.kind == Some(FOLDER)
        else after.kind == before.kind)
  }

  /** Two lists of nodes related position by position by Retyped. */
  ghost predicate AllRetyped(before: seq<BookmarkNode>, after: seq<BookmarkNode>) {
    |after| == |before| && forall i :: 0 <= i < |before| ==> Retyped(before[i], after[i])
  }

  lemma AllRetypedAppend(a: seq<BookmarkNode>, b: seq<BookmarkNode>, c: seq<BookmarkNode>, d: seq<BookmarkNode>)
    requires AllRetyped(a, c) && AllRetyped(b, d)
    ensures AllRetyped(a + b, c + d)
  {
    forall i | 0 <= i < |a + b|
      ensures Retyped((a + b)[i], (c + d)[i])
    {
      if i < |a| {
        assert (a + b)[i] == a[i] && (c + d)[i] == c[i];
      } else {
        assert (a + b)[i] == b[i - |a|] && (c + d)[i] == d[i - |a|];
      }
    }
  }

  /** The walk's retyping touches every node of the tree and nothing else:
      the normalised tree has the same preorder, node for node, with only
      untyped nodes that have a children list retyped "folder". In
      particular an untyped bookmark stays untyped. */
  lemma {:induction false} NormalizeRetypesPreorder(n: BookmarkNode)
    ensures AllRetyped(Preorder(n), Preorder(Normalize(n)))
    decreases n, 1
  {
    var m := Normalize(n);
    assert Retyped(n, m);
    match n.children {
      case NoChildren =>
        assert Preorder(n) == [n] && Preorder(m) == [m];
      case ChildList(cs) =>
        NormalizeAllRetypesPreorder(cs);
        assert Preorder(n) == [n] + PreorderAll(cs);
        assert Preorder(m) == [m] + PreorderAll(NormalizeAll(cs));
        AllRetypedAppend([n], PreorderAll(cs), [m], PreorderAll(NormalizeAll(cs)));
    }
  }

  lemma {:induction false} NormalizeAllRetypesPreorder(ns: seq<BookmarkNode>)
    ensures AllRetyped(PreorderAll(ns), PreorderAll(NormalizeAll(ns)))
    decreases ns, 0
  {
    if |ns| > 0 {
      var ms := NormalizeAll(ns);
      assert ms[0] == Normalize(ns[0]) && ms[1..] == NormalizeAll(ns[1..]);
      NormalizeRetypesPreorder(ns[0]);
      NormalizeAllRetypesPreorder(ns[1..]);
      AllRetypedAppend(Preorder(ns[0]), PreorderAll(ns[1..]), Preorder(ms[0]), PreorderAll(ms[1..]));
    }
  }

  /** The id under which `Bookmarks.load` files a folder: Firefox's root id
      "root________" is filed under "0", the id the rest of the script uses
      for the root. */
  function FolderKey(id: string): (key: string)
    ensures id == "root________" ==> key == "0"
    ensures id != "root________" ==> key == id
    ensures key != "root________"
  {
    if id == "root________" then "0" else id
  }

  /** Filing keys collide only for Firefox's root and a folder whose id is
      already "0": two different ids share a key exactly then. */
  lemma FolderKeyCollisions(a: string, b: string)
    ensures a != b && FolderKey(a) == FolderKey(b) <==> {a, b} == {"0", "root________"}
  {
    if {a, b} == {"0", "root________"} {
      assert a in {"0", "root________"} && b in {"0", "root________"};
      assert "0" != "root________";
    }
  }

  /** True when no folder after position `i` is filed under the same key. */
  ghost predicate LastWithKey(folders: seq<BookmarkNode>, i: int)
    requires 0 <= i < |folders|
  {
    forall j :: i < j < |folders| ==> FolderKey(folders[j].id) != FolderKey(folders[i].id)
  }

  /** `Bookmarks.load`: files each folder under its key, a later folder
      replacing an earlier one with the same key. The keys are exactly the
      folders' keys, and each key holds the last folder filed under it. */
  method Load(folders: seq<BookmarkNode>) returns (list: map<string, BookmarkNode>)
    ensures list.Keys == set f | f in folders :: FolderKey(f.id)
    ensures forall i :: 0 <= i < |folders| && LastWithKey(folders, i) ==>
              list[FolderKey(folders[i].id)] == folders[i]
  {
    list := map[];
    var k := 0;
    while k < |folders|
      invariant 0 <= k <= |folders|
      invariant list.Keys == set f | f in folders[..k] :: FolderKey(f.id)
      invariant forall i :: 0 <= i < k && (forall j :: i < j < k ==> FolderKey(folders[j].id) != FolderKey(folders[i].id)) ==>
                  list[FolderKey(folders[i].id)] == folders[i]
    {
      var folder := folders[k];
      assert folders[..k + 1] == folders[..k] + [folder];
      list := list[FolderKey(folder.id) := folder];
      k := k + 1;
    }
    assert folders[..k] == folders;
  }

  /** One entry of the folder `<select>`: the folder's id and its label. */
  datatype SelectOption = SelectOption(value: string, caption: string)

  /** A folder visited by `createOption`, with its depth below the root. */
  datatype FolderEntry = FolderEntry(node: BookmarkNode, depth: nat)

  /** The label of a folder at depth `depth >= 1`: `depth - 1` tildes, then
      "> ", then the title. */
  function Label(depth: nat, title: string): (text: string)
    requires depth >= 1
    ensures |text| == depth + 1 + |title|
    ensures forall i :: 0 <= i < depth - 1 ==> text[i] == '~'
    ensures text[depth - 1..depth + 1] == "> " && text[depth + 1..] == title
  {
    Repeat('~', depth - 1) + "> " + title
  }

  /** The number of leading tildes. */
  function LeadingTildes(s: string): (k: nat)
    ensures k <= |s|
    ensures forall i :: 0 <= i < k ==> s[i] == '~'
    ensures k < |s| ==> s[k] != '~'
  {
    if |s| > 0 && s[0] == '~' then 1 + LeadingTildes(s[1..]) else 0
  }

  /** Reads a label back into its depth and title. */
  function DecodeLabel(text: string): Option<(nat, string)> {
    var k := LeadingTildes(text);
    if k + 2 <= |text| && text[k..k + 2] == "> " then Some((k + 1, text[k + 2..]))
    else None
  }

  /** Labels are unambiguous: the depth and title can be read back, whatever
      the title holds. */
  lemma {:induction false} DecodeLabelRoundTrip(depth: nat, title: string)
    requires depth >= 1
    ensures DecodeLabel(Label(depth, title)) == Some((depth, title))
  {
    var s := Label(depth, title);
    var t := Repeat('~', depth - 1);
    assert s == t + ("> " + title);
    LeadingTildesPrefix(t, "> " + title);
    assert s[depth - 1..depth + 1] == "> ";
    assert s[depth + 1..] == title;
  }

  lemma {:induction false} LeadingTildesPrefix(t: string, rest: string)
    requires forall i :: 0 <= i < |t| ==> t[i] == '~'
    requires |rest| > 0 && rest[0] != '~'
    ensures LeadingTildes(t + rest) == |t|
    decreases |t|
  {
    if |t| == 0 {
      assert t + rest == rest;
    } else {
      assert (t + rest)[1..] == t[1..] + rest;
      LeadingTildesPrefix(t[1..], rest);
    }
  }

  /** Every entry is deeper than `depth` and has type "folder". */
  ghost predicate AllDeeperFolders(es: seq<FolderEntry>, depth: nat) {
    forall i :: 0 <= i < |es| ==> es[i].depth > depth && es[i].node.kind == Some(FOLDER)
  }

  /** Preorder shape: each entry is at most one level deeper than the one
      before it. */
  ghost predicate Steps(es: seq<FolderEntry>) {
    forall i :: 0 <= i < |es| - 1 ==> es[i + 1].depth <= es[i].depth + 1
  }

  lemma StepsAppend(a: seq<FolderEntry>, b: seq<FolderEntry>)
    requires Steps(a) && Steps(b)
    requires |a| > 0 && |b| > 0 ==> b[0].depth <= a[|a| - 1].depth + 1
    ensures Steps(a + b)
  {
    var ab := a + b;
    forall i | 0 <= i < |ab| - 1
      ensures ab[i + 1].depth <= ab[i].depth + 1
    {
      if i + 1 < |a| {
        assert ab[i] == a[i] && ab[i + 1] == a[i + 1];
      } else if i + 1 == |a| {
        assert ab[i] == a[|a| - 1] && ab[i + 1] == b[0];
      } else {
        assert ab[i] == b[i - |a|] && ab[i + 1] == b[i - |a| + 1];
      }
    }
  }

  lemma AllDeeperFoldersAppend(a: seq<FolderEntry>, b: seq<FolderEntry>, depth: nat)
    requires AllDeeperFolders(a, depth) && AllDeeperFolders(b, depth)
    ensures AllDeeperFolders(a + b, depth)
  {
    var ab := a + b;
    forall i | 0 <= i < |ab|
      ensures ab[i].depth > depth && ab[i].node.kind == Some(FOLDER)
    {
      if i < |a| { assert ab[i] == a[i]; } else { assert ab[i] == b[i - |a|]; }
    }
  }

  /** `createOption(select, n, depth)`: the node itself unless it is at
      depth 0, then, depth first, its children whose type is "folder" one
      level deeper. Only the depth-0 root is skipped; every entry is a node
      of the tree, and every entry after the starting node is deeper than it
      and has type "folder"; every folder-typed child is listed one level
      down; each entry is at most one level deeper than the one before it.
      EntriesAreFolderPreorder pins the whole list down. */
  function Entries(n: BookmarkNode, depth: nat): (es: seq<FolderEntry>)
    ensures depth > 0 ==> |es| > 0 && es[0] == FolderEntry(n, depth)
    ensures depth > 0 ==> AllDeeperFolders(es[1..], depth)
    ensures depth == 0 ==> AllDeeperFolders(es, 0)
    ensures depth == 0 && |es| > 0 ==> es[0].depth == 1
    ensures Steps(es)
    ensures forall i :: 0 <= i < |es| ==> es[i].node in Preorder(n)
    ensures forall c :: c in ChildrenOf(n) && c.kind == Some(FOLDER) ==> FolderEntry(c, depth + 1) in es
    decreases n, 1
  {
    var below := match n.children
                 case NoChildren => []
                 case ChildList(cs) => ChildEntries(cs, depth + 1);
    if depth > 0 then
      StepsAppend([FolderEntry(n, depth)], below);
      assert ([FolderEntry(n, depth)] + below)[1..] == below;
      [FolderEntry(n, depth)] + below
    else
      below
  }

  /** The entries of the folder-typed nodes of `ns`, each at `depth`: all
      at least `depth` deep and of type "folder", starting at `depth`. */
  function ChildEntries(ns: seq<BookmarkNode>, depth: nat): (es: seq<FolderEntry>)
    requires depth >= 1
    ensures |es| > 0 ==> es[0].depth == depth
    ensures AllDeeperFolders(es, depth - 1)
    ensures Steps(es)
    ensures forall i :: 0 <= i < |es| ==> es[i].node in PreorderAll(ns)
    ensures forall c :: c in ns && c.kind == Some(FOLDER) ==> FolderEntry(c, depth) in es
    decreases ns, 0
  {
    if |ns| == 0 then []
    else
      var rest := ChildEntries(ns[1..], depth);
      if ns[0].kind == Some(FOLDER) then
        var first := Entries(ns[0], depth);
        assert first == [first[0]] + first[1..];
        AllDeeperFoldersAppend([first[0]], first[1..], depth - 1);
        AllDeeperFoldersAppend(first, rest, depth - 1);
        StepsAppend(first, rest);
        first + rest
      else
        rest
  }

  /** Reference definition: every node of the tree in preorder, each with
      its depth in the tree counted from `depth` at `n`. */
  function DepthPreorder(n: BookmarkNode, depth: nat): seq<FolderEntry>
    decreases n, 1
  {
    [FolderEntry(n, depth)] + match n.children
                              case NoChildren => []
                              case ChildList(cs) => DepthPreorderAll(cs, depth + 1)
  }

  function DepthPreorderAll(ns: seq<BookmarkNode>, depth: nat): seq<FolderEntry>
    decreases ns, 0
  {
    if |ns| == 0 then [] else DepthPreorder(ns[0], depth) + DepthPreorderAll(ns[1..], depth)
  }

  /** DepthPreorder lists exactly the nodes of Preorder, in the same order. */
  lemma {:induction false} DepthPreorderNodes(n: BookmarkNode, depth: nat)
    ensures |DepthPreorder(n, depth)| == |Preorder(n)|
    ensures forall i :: 0 <= i < |Preorder(n)| ==> DepthPreorder(n, depth)[i].node == Preorder(n)[i]
    decreases n, 1
  {
    match n.children {
      case NoChildren =>
      case ChildList(cs) =>
        DepthPreorderAllNodes(cs, depth + 1);
    }
  }

  lemma {:induction false} DepthPreorderAllNodes(ns: seq<BookmarkNode>, depth: nat)
    ensures |DepthPreorderAll(ns, depth)| == |PreorderAll(ns)|
    ensures forall i :: 0 <= i < |PreorderAll(ns)| ==> DepthPreorderAll(ns, depth)[i].node == PreorderAll(ns)[i]
    decreases ns, 0
  {
    if |ns| > 0 {
      DepthPreorderNodes(ns[0], depth);
      DepthPreorderAllNodes(ns[1..], depth);
    }
  }

  /** The entries whose node is a folder, in order. */
  function FilterFolderEntries(es: seq<FolderEntry>): seq<FolderEntry> {
    if |es| == 0 then []
    else (if IsFolder(es[0].node) then [es[0]] else []) + FilterFolderEntries(es[1..])
  }

  lemma {:induction false} FilterFolderEntriesAppend(a: seq<FolderEntry>, b: seq<FolderEntry>)
    ensures FilterFolderEntries(a + b) == FilterFolderEntries(a) + FilterFolderEntries(b)
  {
    if |a| > 0 {
      assert (a + b)[1..] == a[1..] + b;
      FilterFolderEntriesAppend(a[1..], b);
    } else {
      assert a + b == b;
    }
  }

  /** Every node of the list that has a children list is typed "folder", as
      the walk of `getFolders` leaves an untyped tree. */
  ghost predicate TypedFolders(ns: seq<BookmarkNode>) {
    forall x :: x in ns ==> (x.children.ChildList? ==> x.kind == Some(FOLDER))
  }

  /** The walk of `getFolders` types every folder of a tree whose folders
      are untyped or typed "folder", as the browsers deliver them; on its
      result `createOption` therefore sees every folder. */
  lemma {:induction false} NormalizeTypesFolders(n: BookmarkNode)
    requires forall x :: x in Preorder(n) ==> (x.children.ChildList? ==> x.kind.None? || x.kind == Some(FOLDER))
    ensures TypedFolders(Preorder(Normalize(n)))
  {
    var before := Preorder(n);
    var after := Preorder(Normalize(n));
    NormalizeRetypesPreorder(n);
    forall y | y in after
      ensures y.children.ChildList? ==> y.kind == Some(FOLDER)
    {
      var i :| 0 <= i < |after| && after[i] == y;
      assert Retyped(before[i], after[i]);
      assert before[i] in before;
    }
  }

  /** On a tree whose folders are all typed, `createOption` lists every
      folder below the starting node and nothing else, in preorder, each at
      its depth in the tree: the starting node itself (unless at depth 0),
      then the folder entries of the depth-annotated preorder of its
      children, one level down. */
  lemma {:induction false} EntriesAreFolderPreorder(n: BookmarkNode, depth: nat)
    requires TypedFolders(Preorder(n))
    ensures Entries(n, depth) ==
              (if depth > 0 then [FolderEntry(n, depth)] else [])
              + FilterFolderEntries(DepthPreorderAll(ChildrenOf(n), depth + 1))
    decreases n, 1
  {
    var head := if depth > 0 then [FolderEntry(n, depth)] else [];
    match n.children {
      case NoChildren =>
        assert Entries(n, depth) == head + [];
      case ChildList(cs) =>
        assert Preorder(n) == [n] + PreorderAll(cs);
        ChildEntriesAreFolderPreorder(cs, depth + 1);
        assert Entries(n, depth) == head + ChildEntries(cs, depth + 1);
    }
  }

  lemma {:induction false} ChildEntriesAreFolderPreorder(ns: seq<BookmarkNode>, depth: nat)
    requires depth >= 1
    requires TypedFolders(PreorderAll(ns))
    ensures ChildEntries(ns, depth) == FilterFolderEntries(DepthPreorderAll(ns, depth))
    decreases ns, 0
  {
    if |ns| > 0 {
      var c := ns[0];
      var below := DepthPreorderAll(ChildrenOf(c), depth + 1);
      assert PreorderAll(ns) == Preorder(c) + PreorderAll(ns[1..]);
      ChildEntriesAreFolderPreorder(ns[1..], depth);
      FilterFolderEntriesAppend(DepthPreorder(c, depth), DepthPreorderAll(ns[1..], depth));
      assert DepthPreorder(c, depth) == [FolderEntry(c, depth)] + below;
      FilterFolderEntriesAppend([FolderEntry(c, depth)], below);
      assert [FolderEntry(c, depth)][1..] == [];
      if c.kind == Some(FOLDER) {
        assert Preorder(c) == [c] + PreorderAll(ChildrenOf(c));
        EntriesAreFolderPreorder(c, depth);
      } else {
        assert c in PreorderAll(ns);
        assert c.children.NoChildren?;
        assert FilterFolderEntries(DepthPreorder(c, depth)) == [];
      }
    }
  }

  /** The `<option>`s for a list of visited folders: one per entry, valued
      by the folder's id, with a label that reads back to its depth and
      title. */
  function OptionsOf(es: seq<FolderEntry>): (opts: seq<SelectOption>)
    requires forall i :: 0 <= i < |es| ==> es[i].depth >= 1
    ensures |opts| == |es|
    ensures forall i :: 0 <= i < |es| ==>
              opts[i].value == es[i].node.id
              && DecodeLabel(opts[i].caption) == Some((es[i].depth, es[i].node.title))
  {
    var opts := seq(|es|, i requires 0 <= i < |es| => SelectOption(es[i].node.id, Label(es[i].depth, es[i].node.title)));
    assert forall i :: 0 <= i < |es| ==> DecodeLabel(opts[i].caption) == Some((es[i].depth, es[i].node.title)) by {
      forall i | 0 <= i < |es| {
        DecodeLabelRoundTrip(es[i].depth, es[i].node.title);
      }
    }
    opts
  }

  /** `createOption(select, Bookmarks.list[0])` in `TileOptions.initForm`:
      the options for every folder reachable from the root through
      folder-typed children, the root itself excluded. Without a root the
      script fails, shown here as None. Each label reads back to a depth of
      at least 1 and the folder's title, and the value is the folder's id. */
  function FolderSelectOptions(list: map<string, BookmarkNode>): (r: Option<seq<SelectOption>>)
    ensures r.Some? <==> "0" in list
    ensures r.Some? ==> |r.value| == |Entries(list["0"], 0)|
    ensures r.Some? ==> forall i :: 0 <= i < |r.value| ==>
              var e := Entries(list["0"], 0)[i];
              e.depth >= 1 && r.value[i].value == e.node.id
              && DecodeLabel(r.value[i].caption) == Some((e.depth, e.node.title))
  {
    if "0" !in list then None
    else
      var es := Entries(list["0"], 0);
      assert AllDeeperFolders(es, 0);
      Some(OptionsOf(es))
  }

  /** On a typed tree every option's label carries the folder's depth in the
      tree: the options are, in order, the folder entries of the
      depth-annotated preorder of the root's children, starting at depth 1. */
  lemma FolderSelectOptionsDepths(list: map<string, BookmarkNode>)
    requires "0" in list && TypedFolders(Preorder(list["0"]))
    ensures var r := FolderSelectOptions(list).value;
            var fs := FilterFolderEntries(DepthPreorderAll(ChildrenOf(list["0"]), 1));
            |r| == |fs|
            && forall i :: 0 <= i < |r| ==>
                 r[i].value == fs[i].node.id
                 && DecodeLabel(r[i].caption) == Some((fs[i].depth, fs[i].node.title))
  {
    EntriesAreFolderPreorder(list["0"], 0);
  }

  /** A folder two levels below the root is listed at depth 2, one tilde
      deep: root, folder `c` inside it, folder `g` inside `c`. */
  lemma EntriesNestedExample()
    ensures var g := BookmarkNode("g", "G", None, Some(FOLDER), ChildList([]));
            var c := BookmarkNode("c", "C", None, Some(FOLDER), ChildList([g]));
            var root := BookmarkNode("0", "", None, Some(FOLDER), ChildList([c]));
            Entries(root, 0) == [FolderEntry(c, 1), FolderEntry(g, 2)]
            && Label(2, "G") == "~> G"
  {
    var g := BookmarkNode("g", "G", None, Some(FOLDER), ChildList([]));
    var c := BookmarkNode("c", "C", None, Some(FOLDER), ChildList([g]));
    var root := BookmarkNode("0", "", None, Some(FOLDER), ChildList([c]));
    assert [g][1..] == [] && [c][1..] == [];
    assert Entries(g, 2) == [FolderEntry(g, 2)];
    assert ChildEntries([g], 2) == [FolderEntry(g, 2)];
    assert Entries(c, 1) == [FolderEntry(c, 1), FolderEntry(g, 2)];
    assert ChildEntries([c], 1) == Entries(c, 1);
    assert Repeat('~', 1) == "~";
  }
}
