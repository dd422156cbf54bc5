/**
 * The folder mapper and the item dispatcher. A folder heading `<H3>` and its
 * body `<DL>` are siblings, so building a folder walks sideways along the
 * heading's following siblings before walking down into a `<DL>`'s children,
 * where each child is dispatched as a bookmark or, failing that, a folder.
 * The mapper and the dispatcher call each other, so they share this module.
 */
module Folders {
  import opened Options
  import opened Dom
  import opened Bookmarks
  import opened Items

  /** The derived builder of a folder: every field has a default, so it always builds. */
  datatype FolderBuilder = FolderBuilder(
    title: Option<string>,
    folded: Option<bool>,
    addDate: Option<string>,
    lastModified: Option<string>,
    personalToolbarFolder: Option<bool>,
    unfiledBookmarksFolder: Option<bool>,
    children: Option<seq<Item>>)
  {
    /** `build()`: never fails; each unset field takes its default ("", `false`, the empty list). */
    function Build(): (r: Result<Folder, BuildError>)
      ensures r.Ok?
      ensures r.value.title == OrEmpty(title)
      ensures r.value.addDate == OrEmpty(addDate) && r.value.lastModified == OrEmpty(lastModified)
      ensures r.value.folded == OrFalse(folded)
      ensures r.value.personalToolbarFolder == OrFalse(personalToolbarFolder)
      ensures r.value.unfiledBookmarksFolder == OrFalse(unfiledBookmarksFolder)
      ensures children.Some? ==> r.value.children == children.value
      ensures children.None? ==> r.value.children == []
    {
      Ok(Folder(OrEmpty(title), OrFalse(folded), OrEmpty(addDate), OrEmpty(lastModified),
                OrFalse(personalToolbarFolder), OrFalse(unfiledBookmarksFolder),
                if children.Some? then children.value else []))
    }
  }

  const EmptyFolderBuilder := FolderBuilder(None, None, None, None, None, None, None)

  function OrFalse(o: Option<bool>): bool {
    o.Some? && o.value
  }

  // ---------------------------------------------------------------------------
  // The mapping, stated on values

  /**
   * What `Folder::from_node` returns for the node `sibs[pos]`: an `<H3>` always
   * gives a folder; a `<DT>` maps as its first `<H3>` child; anything else gives nothing.
   */
  function FolderOf(sibs: seq<Node>, pos: nat): Option<Folder>
    requires pos < |sibs|
    decreases SizeOf(sibs[pos..]), 1
  {
    var n := sibs[pos];
    if IsElement(n, "DT") then
      match FirstElement(n.children, "H3")
      case None => None
      case Some(i) =>
        SizeOfSuffix(sibs, pos);
        SizeOfSuffix(n.children, i);
        FolderOf(n.children, i)
    else if IsElement(n, "H3") then
      Some(Folder(TextContents(n), SelectAttribute(n, "FOLDED").Some?,
                  AttributeValue(n, "ADD_DATE"), AttributeValue(n, "LAST_MODIFIED"),
                  SelectAttribute(n, "PERSONAL_TOOLBAR_FOLDER").Some?,
                  SelectAttribute(n, "UNFILED_BOOKMARKS_FOLDER").Some?,
                  BodyOf(sibs, pos)))
    else None
  }

  /** The children of a folder whose heading is `sibs[pos]`: the items of its last following `<DL>` sibling. */
  function BodyOf(sibs: seq<Node>, pos: nat): seq<Item>
    requires pos < |sibs|
    decreases SizeOf(sibs[pos..]), 0
  {
    match LastElementIn(sibs, "DL", pos + 1, |sibs|)
    case None => []
    case Some(j) =>
      SizeOfSuffix(sibs, pos);
      SizeOfSuffix(sibs, j);
      SizeOfLaterSuffix(sibs, pos + 1, j);
      ItemsFrom(sibs[j].children, 0)
  }

  /** `Item::from_node` for the node `sibs[pos]`: a bookmark if possible, else a folder, else nothing. */
  function ItemOf(sibs: seq<Node>, pos: nat): Option<Item>
    requires pos < |sibs|
    decreases SizeOf(sibs[pos..]), 2
  {
    match BookmarkOf(sibs[pos])
    case Some(b) => Some(Shortcut(b))
    case None =>
      match FolderOf(sibs, pos)
      case Some(f) => Some(Subfolder(f))
      case None => None
  }

  /** The items that the nodes `ns[k..]` dispatch to, in order, each seen with its own following siblings. */
  function ItemsFrom(ns: seq<Node>, k: nat): seq<Item>
    requires k <= |ns|
    decreases SizeOf(ns[k..]), 3
  {
    if k == |ns| then []
    else
      SizeOfSuffix(ns, k);
      (match ItemOf(ns, k) case Some(x) => [x] case None => []) + ItemsFrom(ns, k + 1)
  }

  // ---------------------------------------------------------------------------
  // The mapper as the source runs it

  /**
   * `Folder::from_node`: fills a builder, then scans every following sibling and
   * re-assigns the builder's children at each `<DL>`, collecting that list's
   * dispatched children in a fresh vector.
   */
  method FolderFromNode(sibs: seq<Node>, pos: nat) returns (folder: Option<Folder>)
    requires pos < |sibs|
    ensures folder == FolderOf(sibs, pos)
    decreases SizeOf(sibs[pos..])
  {
    folder := None;
    var node := sibs[pos];

    if IsElement(node, "DT") {
      var h3 := FirstElement(node.children, "H3");
      if h3.Some? {
        SizeOfSuffix(sibs, pos);
        SizeOfSuffix(node.children, h3.value);
        folder := FolderFromNode(node.children, h3.value);
      }
    } else if IsElement(node, "H3") {
      var builder := EmptyFolderBuilder;

      if SelectAttribute(node, "FOLDED").Some? {
        builder := builder.(folded := Some(true));
      }
      var attribute := SelectAttribute(node, "ADD_DATE");
      if attribute.Some? {
        builder := builder.(addDate := Some(attribute.value.value));
      }
      attribute := SelectAttribute(node, "LAST_MODIFIED");
      if attribute.Some? {
        builder := builder.(lastModified := Some(attribute.value.value));
      }
      if SelectAttribute(node, "PERSONAL_TOOLBAR_FOLDER").Some? {
        builder := builder.(personalToolbarFolder := Some(true));
      }
      if SelectAttribute(node, "UNFILED_BOOKMARKS_FOLDER").Some? {
        builder := builder.(unfiledBookmarksFolder := Some(true));
      }
      builder := builder.(title := Some(TextContents(node)));

      builder := ScanFollowingSiblings(sibs, pos, builder);

      var built := builder.Build();
      if built.Ok? {
        folder := Some(built.value);
      }
    }
  }

  /**
   * The inner loop of `Folder::from_node` (and of `Netscape::from_node`): push
   * every child of a `<DL>` that the dispatcher maps, skipping the others.
   */
  method DispatchChildren(ns: seq<Node>) returns (children: seq<Item>)
    ensures children == ItemsFrom(ns, 0)
  {
    children := [];
    var k := 0;
    while k < |ns|
      invariant 0 <= k <= |ns|
      invariant ItemsFrom(ns, 0) == children + ItemsFrom(ns, k)
    {
      var item := ItemOf(ns, k);
      if item.Some? {
        children := children + [item.value];
      }
      k := k + 1;
    }
  }

  /**
   * The sibling loop of `Folder::from_node`: every following `<DL>` sibling
   * re-assigns the builder's children, so the last one wins.
   */
  method ScanFollowingSiblings(sibs: seq<Node>, pos: nat, heading: FolderBuilder) returns (builder: FolderBuilder)
    requires pos < |sibs|
    ensures builder == heading.(children := match LastElementIn(sibs, "DL", pos + 1, |sibs|)
                                            case None => heading.children
                                            case Some(j) => Some(ItemsFrom(sibs[j].children, 0)))
  {
    builder := heading;
    var i := pos + 1;
    while i < |sibs|
      invariant pos + 1 <= i <= |sibs|
      invariant builder == heading.(children := match LastElementIn(sibs, "DL", pos + 1, i)
                                                case None => heading.children
                                                case Some(j) => Some(ItemsFrom(sibs[j].children, 0)))
    {
      var sibling := sibs[i];
      if IsElement(sibling, "DL") {
        var children := DispatchChildren(sibling.children);
        builder := builder.(children := Some(children));
      }
      assert LastElementIn(sibs, "DL", pos + 1, i + 1) ==
             if IsElement(sibling, "DL") then Some(i) else LastElementIn(sibs, "DL", pos + 1, i);
      i := i + 1;
    }
  }

  // ---------------------------------------------------------------------------
  // What the mapping promises

  /** The attribute `name` is present on `n`, whatever its value. */
  predicate HasAttribute(n: Node, name: string) {
    exists i :: 0 <= i < |AttributesOf(n)| && EqIgnoreAsciiCase(AttributesOf(n)[i].name, name)
  }

  /**
   * A heading always maps to a folder: its flags are true exactly when their
   * attribute is present (the value is ignored), its dates are the attribute
   * values or "", its title is its text, and its children are the items of its
   * last following `<DL>` sibling.
   */
  lemma HeadingMapsToFolder(sibs: seq<Node>, pos: nat)
    requires pos < |sibs| && IsElement(sibs[pos], "H3")
    ensures FolderOf(sibs, pos).Some?
    ensures var f, n := FolderOf(sibs, pos).value, sibs[pos];
            && (f.folded <==> HasAttribute(n, "FOLDED"))
            && (f.personalToolbarFolder <==> HasAttribute(n, "PERSONAL_TOOLBAR_FOLDER"))
            && (f.unfiledBookmarksFolder <==> HasAttribute(n, "UNFILED_BOOKMARKS_FOLDER"))
            && f.addDate == AttributeValue(n, "ADD_DATE")
            && f.lastModified == AttributeValue(n, "LAST_MODIFIED")
            && f.title == TextContents(n)
            && f.children == BodyOf(sibs, pos)
  {
    var n := sibs[pos];
    assert !EqIgnoreAsciiCase("H3", "DT");
    if IsElement(n, "DT") {
      IsElementOfOneName(n, "H3", "DT");
    }
    SelectAttributeIsFirstMatch(n, "FOLDED");
    SelectAttributeIsFirstMatch(n, "PERSONAL_TOOLBAR_FOLDER");
    SelectAttributeIsFirstMatch(n, "UNFILED_BOOKMARKS_FOLDER");
  }

  /**
   * A node maps to a folder exactly when it is an `<H3>` or a `<DT>` with an
   * `<H3>` child; a `<DT>` maps as its first `<H3>` child, and later ones are never tried.
   */
  lemma FolderOfSomeIff(sibs: seq<Node>, pos: nat)
    requires pos < |sibs|
    ensures FolderOf(sibs, pos).Some? <==>
              || IsElement(sibs[pos], "H3")
              || (IsElement(sibs[pos], "DT") && exists i :: 0 <= i < |sibs[pos].children| && IsElement(sibs[pos].children[i], "H3"))
  {
    var n := sibs[pos];
    if IsElement(n, "DT") {
      assert !EqIgnoreAsciiCase("DT", "H3");
      FirstElementIsFirst(n.children, "H3");
      match FirstElement(n.children, "H3")
      case None =>
      case Some(i) => HeadingMapsToFolder(n.children, i);
    }
  }

  /** A `<DT>` maps exactly as its first `<H3>` child does, whatever follows that child. */
  lemma WrapperMapsAsFirstHeading(sibs: seq<Node>, pos: nat, i: nat)
    requires pos < |sibs| && IsElement(sibs[pos], "DT")
    requires i < |sibs[pos].children| && IsElement(sibs[pos].children[i], "H3")
    requires forall j :: 0 <= j < i ==> !IsElement(sibs[pos].children[j], "H3")
    ensures FolderOf(sibs, pos) == FolderOf(sibs[pos].children, i)
  {
    FirstElementIsFirst(sibs[pos].children, "H3");
  }

  /** With no `<DL>` among the heading's following siblings, the folder is empty. */
  lemma NoListNoChildren(sibs: seq<Node>, pos: nat)
    requires pos < |sibs|
    requires forall j :: pos < j < |sibs| ==> !IsElement(sibs[j], "DL")
    ensures BodyOf(sibs, pos) == []
  {
    LastElementInIsLast(sibs, "DL", pos + 1, |sibs|);
  }

  /** With several `<DL>` siblings, the last one's items are the folder's children: the others are overwritten. */
  lemma LastListWins(sibs: seq<Node>, pos: nat, j: nat)
    requires pos < j < |sibs| && IsElement(sibs[j], "DL")
    requires forall k :: j < k < |sibs| ==> !IsElement(sibs[k], "DL")
    ensures BodyOf(sibs, pos) == ItemsFrom(sibs[j].children, 0)
  {
    LastElementInIsLast(sibs, "DL", pos + 1, |sibs|);
    var last := LastElementIn(sibs, "DL", pos + 1, |sibs|);
    assert last.Some?;
    assert last.value == j;
  }

  /** The non-empty results of a list of lookups, in order. */
  function Somes<T(!new)>(xs: seq<Option<T>>): (r: seq<T>)
    ensures forall v :: v in r <==> Some(v) in xs
  {
    if xs == [] then []
    else (if xs[0].Some? then [xs[0].value] else []) + Somes(xs[1..])
  }

  /** What the dispatcher makes of each node of `ns`, position by position. */
  function Dispatch(ns: seq<Node>): (r: seq<Option<Item>>)
    ensures |r| == |ns|
  {
    seq(|ns|, k requires 0 <= k < |ns| => ItemOf(ns, k))
  }

  /**
   * The children collected from a `<DL>` are the dispatched items of its
   * children in encounter order: those that map to nothing are skipped, and
   * nothing else is dropped or reordered.
   */
  lemma ItemsAreDispatchedInOrder(ns: seq<Node>)
    ensures ItemsFrom(ns, 0) == Somes(Dispatch(ns))
  {
    ItemsFromIsSomes(ns, 0);
    assert Dispatch(ns)[0..] == Dispatch(ns);
  }

  lemma {:induction false} ItemsFromIsSomes(ns: seq<Node>, k: nat)
    requires k <= |ns|
    ensures ItemsFrom(ns, k) == Somes(Dispatch(ns)[k..])
    decreases |ns| - k
  {
    if k < |ns| {
      ItemsFromIsSomes(ns, k + 1);
      assert Dispatch(ns)[k..][1..] == Dispatch(ns)[k + 1..];
    }
  }

  /** A node is skipped by the dispatcher exactly when it maps to neither a bookmark nor a folder. */
  predicate Mappable(n: Node) {
    || IsLinkAnchor(n)
    || IsElement(n, "H3")
    || (IsElement(n, "DT") && exists i :: 0 <= i < |n.children| && MappableChild(n.children, i))
  }

  /** Child `i` makes its `<DT>` parent map: it is a heading, or the first anchor and a linked one. */
  predicate MappableChild(ns: seq<Node>, i: nat)
    requires i < |ns|
  {
    || IsElement(ns[i], "H3")
    || (IsLinkAnchor(ns[i]) && forall j :: 0 <= j < i ==> !IsElement(ns[j], "A"))
  }

  /**
   * The dispatcher tries the bookmark mapper first: it yields a shortcut exactly
   * when that mapper succeeds, a subfolder exactly when only the folder mapper
   * does, and nothing exactly when the node is not `Mappable`.
   */
  lemma DispatchOrder(sibs: seq<Node>, pos: nat)
    requires pos < |sibs|
    ensures ItemOf(sibs, pos).Some? <==> Mappable(sibs[pos])
    ensures BookmarkOf(sibs[pos]).Some? ==> ItemOf(sibs, pos) == Some(Shortcut(BookmarkOf(sibs[pos]).value))
    ensures BookmarkOf(sibs[pos]).None? && FolderOf(sibs, pos).Some? ==>
              ItemOf(sibs, pos) == Some(Subfolder(FolderOf(sibs, pos).value))
    ensures ItemOf(sibs, pos).None? <==> BookmarkOf(sibs[pos]).None? && FolderOf(sibs, pos).None?
  {
    var n := sibs[pos];
    BookmarkOfSomeIff(n);
    FolderOfSomeIff(sibs, pos);
    if IsElement(n, "DT") {
      if BookmarkOf(n).Some? && !IsLinkAnchor(n) {
        var i :| 0 <= i < |n.children| && IsLinkAnchor(n.children[i])
                 && forall j :: 0 <= j < i ==> !IsElement(n.children[j], "A");
        assert MappableChild(n.children, i);
      } else if FolderOf(sibs, pos).Some? && !IsElement(n, "H3") {
        var i :| 0 <= i < |n.children| && IsElement(n.children[i], "H3");
        assert MappableChild(n.children, i);
      }
      if Mappable(n) && !IsLinkAnchor(n) && !IsElement(n, "H3") {
        var i :| 0 <= i < |n.children| && MappableChild(n.children, i);
        if IsElement(n.children[i], "H3") {
          assert FolderOf(sibs, pos).Some?;
        } else {
          assert BookmarkOf(n).Some?;
        }
      }
    }
  }

  /**
   * A `<DT>` holding both a linked `<A>` and an `<H3>` would map to a folder
   * too, but the dispatcher returns the shortcut.
   */
  lemma ShortcutWinsOverSubfolder(sibs: seq<Node>, pos: nat, a: nat, h: nat)
    requires pos < |sibs| && IsElement(sibs[pos], "DT")
    requires a < |sibs[pos].children| && IsLinkAnchor(sibs[pos].children[a])
    requires forall j :: 0 <= j < a ==> !IsElement(sibs[pos].children[j], "A")
    requires h < |sibs[pos].children| && IsElement(sibs[pos].children[h], "H3")
    ensures FolderOf(sibs, pos).Some?
    ensures ItemOf(sibs, pos) == Some(Shortcut(BookmarkOf(sibs[pos].children[a]).value))
  {
    FolderOfSomeIff(sibs, pos);
    BookmarkOfSomeIff(sibs[pos]);
    FirstElementIsFirst(sibs[pos].children, "A");
    assert FirstElement(sibs[pos].children, "A") == Some(a);
  }

  // ---------------------------------------------------------------------------
  // Scenario: four nested folders

  /** The paragraph a `<p>` opens when whitespace follows it before the next tag. */
  const Filler := Element("p", [], [Text("\n    ")])

  /** The paragraph a `<p>` opens at the very end of the input: it stays empty. */
  const EmptyParagraph := Element("p", [], [])

  /**
   * One level of `<DT><H3>title</H3> <DL><p> inner </DL><p>` in the shape an
   * HTML5 parser gives it. The `<DL>` ends up inside the `<DT>`, after the
   * heading, and holds a paragraph and the inner level. The innermost level has
   * no list at all. The paragraph after the outermost `</DL>` ends the input, so
   * it is empty.
   */
  function NestedLevel(title: string, inner: Option<Node>, outermost: bool): Node {
    var heading := Element("h3", [], [Text(title)]);
    var trailer := if outermost then EmptyParagraph else Filler;
    match inner
    case None => Element("dt", [], [heading, Text("\n    ")])
    case Some(d) => Element("dt", [], [heading, Text("\n    "), Element("dl", [], [Filler, d]), trailer])
  }

  /** A folder the builder makes from a title and children alone. */
  function TitledFolder(title: string, children: seq<Item>): Folder {
    Folder(title, false, "", "", false, false, children)
  }

  /** A `<DT>` maps the same way wherever it stands: it only looks at its own children. */
  lemma WrapperIgnoresSiblings(sibs: seq<Node>, pos: nat, n: Node)
    requires pos < |sibs| && sibs[pos] == n && IsElement(n, "DT")
    ensures FolderOf(sibs, pos) == FolderOf([n], 0)
  {
  }

  lemma NestedLevelMaps(title: string, inner: Option<Node>, outermost: bool, innerFolder: Folder)
    requires inner.Some? ==> IsElement(inner.value, "DT") && BookmarkOf(inner.value).None?
                             && FolderOf([inner.value], 0) == Some(innerFolder)
    ensures IsElement(NestedLevel(title, inner, outermost), "DT")
    ensures BookmarkOf(NestedLevel(title, inner, outermost)).None?
    ensures FolderOf([NestedLevel(title, inner, outermost)], 0)
            == Some(TitledFolder(title, if inner.Some? then [Subfolder(innerFolder)] else []))
  {
    NestedHeading(title, inner, outermost);
    NestedBody(title, inner, outermost, innerFolder);
  }

  /** The level's heading gives the folder's title and default fields; the level is no bookmark. */
  lemma NestedHeading(title: string, inner: Option<Node>, outermost: bool)
    ensures IsElement(NestedLevel(title, inner, outermost), "DT")
    ensures BookmarkOf(NestedLevel(title, inner, outermost)).None?
    ensures FolderOf([NestedLevel(title, inner, outermost)], 0)
            == Some(TitledFolder(title, BodyOf(NestedLevel(title, inner, outermost).children, 0)))
  {
    var n := NestedLevel(title, inner, outermost);
    var heading := Element("h3", [], [Text(title)]);
    assert EqIgnoreAsciiCase("dt", "DT") && EqIgnoreAsciiCase("h3", "H3");
    assert !EqIgnoreAsciiCase("h3", "A") && !EqIgnoreAsciiCase("dl", "A") && !EqIgnoreAsciiCase("p", "A");
    assert !EqIgnoreAsciiCase("h3", "DT");
    assert n.children[0] == heading;
    assert FirstElement(n.children, "H3") == Some(0);
    FirstElementIsFirst(n.children, "A");
    assert TextsFrom(heading.children, 1) == "";
    assert TextsFrom(heading.children, 0) == title + "" == title;
    assert FolderOf([n], 0) == FolderOf(n.children, 0);
    assert !HasAttribute(heading, "FOLDED") && !HasAttribute(heading, "PERSONAL_TOOLBAR_FOLDER") && !HasAttribute(heading, "UNFILED_BOOKMARKS_FOLDER");
    HeadingMapsToFolder(n.children, 0);
  }

  /** The level's list holds the inner level alone, so the folder's children are its folder alone. */
  lemma NestedBody(title: string, inner: Option<Node>, outermost: bool, innerFolder: Folder)
    requires inner.Some? ==> IsElement(inner.value, "DT") && BookmarkOf(inner.value).None?
                             && FolderOf([inner.value], 0) == Some(innerFolder)
    ensures BodyOf(NestedLevel(title, inner, outermost).children, 0) == if inner.Some? then [Subfolder(innerFolder)] else []
  {
    var n := NestedLevel(title, inner, outermost);
    match inner
    case None =>
      assert LastElementIn(n.children, "DL", 1, 1) == None;
      assert LastElementIn(n.children, "DL", 1, 2) == None;
    case Some(d) =>
      assert EqIgnoreAsciiCase("dl", "DL");
      assert !EqIgnoreAsciiCase("p", "A") && !EqIgnoreAsciiCase("p", "DT") && !EqIgnoreAsciiCase("p", "H3") && !EqIgnoreAsciiCase("p", "DL");
      var list := n.children[2];
      assert LastElementIn(n.children, "DL", 1, 4) == Some(2);
      assert BodyOf(n.children, 0) == ItemsFrom(list.children, 0);
      assert list.children == [Filler, d];
      assert ItemOf(list.children, 0) == None;
      WrapperIgnoresSiblings(list.children, 1, d);
      assert ItemOf(list.children, 1) == Some(Subfolder(innerFolder));
      assert ItemsFrom(list.children, 2) == [];
      assert ItemsFrom(list.children, 1) == [Subfolder(innerFolder)];
  }

  /**
   * Four nested levels map to a chain of single-subfolder folders ending in an
   * empty one; every other field keeps the builder's default.
   */
  lemma NestedFoldersScenario()
    ensures FolderOf([NestedLevel("nested0", Some(NestedLevel("nested1", Some(NestedLevel("nested2",
                       Some(NestedLevel("nested3", None, false)), false)), false)), true)], 0)
            == Some(TitledFolder("nested0", [Subfolder(TitledFolder("nested1", [Subfolder(TitledFolder("nested2", [Subfolder(TitledFolder("nested3", []))]))]))]))
  {
    var n3 := NestedLevel("nested3", None, false);
    NestedLevelMaps("nested3", None, false, TitledFolder("", []));
    var f3 := TitledFolder("nested3", []);
    var n2 := NestedLevel("nested2", Some(n3), false);
    NestedLevelMaps("nested2", Some(n3), false, f3);
    var f2 := TitledFolder("nested2", [Subfolder(f3)]);
    var n1 := NestedLevel("nested1", Some(n2), false);
    NestedLevelMaps("nested1", Some(n2), false, f2);
    var f1 := TitledFolder("nested1", [Subfolder(f2)]);
    NestedLevelMaps("nested0", Some(n1), true, f1);
  }

  // ---------------------------------------------------------------------------
  // Scenario: a folded, empty folder

  /** The heading of `<DT><H3 FOLDED ADD_DATE="date" LAST_MODIFIED="date">title</H3> <DL><p> </DL><p>`. */
  const EmptyFolderHeading := Element("h3",
    [Attribute("folded", ""), Attribute("add_date", "date"), Attribute("last_modified", "date")],
    [Text("title")])

  /**
   * The heading with its following siblings inside the `<DT>`: whitespace, the
   * list holding only a paragraph of whitespace, and the empty paragraph that
   * ends the input.
   */
  const EmptyFolderSiblings := [EmptyFolderHeading, Text("\n    "), Element("dl", [], [Filler]), EmptyParagraph]

  lemma EmptyFolderFlags()
    ensures HasAttribute(EmptyFolderHeading, "FOLDED")
    ensures !HasAttribute(EmptyFolderHeading, "PERSONAL_TOOLBAR_FOLDER")
    ensures !HasAttribute(EmptyFolderHeading, "UNFILED_BOOKMARKS_FOLDER")
  {
    var names := seq(3, j requires 0 <= j < 3 => EmptyFolderHeading.attributes[j].name);
    assert names == ["folded", "add_date", "last_modified"];
    assert EqIgnoreAsciiCase("folded", "FOLDED");
    assert EqIgnoreAsciiCase(AttributesOf(EmptyFolderHeading)[0].name, "FOLDED");
  }

  lemma EmptyFolderDates()
    ensures AttributeValue(EmptyFolderHeading, "ADD_DATE") == "date"
    ensures AttributeValue(EmptyFolderHeading, "LAST_MODIFIED") == "date"
  {
    var names := seq(3, j requires 0 <= j < 3 => EmptyFolderHeading.attributes[j].name);
    assert names == ["folded", "add_date", "last_modified"];
    assert EqIgnoreAsciiCase("add_date", "ADD_DATE");
    assert EqIgnoreAsciiCase("last_modified", "LAST_MODIFIED");
    SelectAttributeAt(EmptyFolderHeading, "ADD_DATE", 1);
    SelectAttributeAt(EmptyFolderHeading, "LAST_MODIFIED", 2);
  }

  /** The heading maps to a folded folder with its title and dates and no children: its list is empty. */
  lemma EmptyFolderScenario()
    ensures FolderOf(EmptyFolderSiblings, 0) == Some(Folder("title", true, "date", "date", false, false, []))
  {
    var sibs := EmptyFolderSiblings;
    assert EqIgnoreAsciiCase("h3", "H3") && EqIgnoreAsciiCase("dl", "DL");
    HeadingMapsToFolder(sibs, 0);
    EmptyFolderFlags();
    EmptyFolderDates();
    assert TextsFrom(EmptyFolderHeading.children, 0) == "title";
    assert !EqIgnoreAsciiCase("p", "DL") && !EqIgnoreAsciiCase("p", "A") && !EqIgnoreAsciiCase("p", "DT") && !EqIgnoreAsciiCase("p", "H3");
    assert LastElementIn(sibs, "DL", 1, 4) == Some(2);
    assert ItemOf(sibs[2].children, 0) == None;
    assert ItemsFrom(sibs[2].children, 1) == [];
  }
}
