/**
 * The `shortcut` item of the Netscape Bookmark File format and the mapper that
 * builds it from an `<A>` element (or from the `<DT>` that wraps one).
 */
module Bookmarks {
  import opened Options
  import opened Dom

  datatype Bookmark = Bookmark(
    href: string,
    title: string,
    addDate: string,
    lastVisit: string,
    lastModified: string,
    iconUri: string,
    icon: string)

  /** Why a builder refused to build: the name of a field that has no default and was never set. */
  datatype BuildError = UninitializedField(field: string)

  /**
   * The derived builder: one optional slot per field, all unset at first.
   * `href` and `title` have no default; every other field defaults to "".
   */
  datatype BookmarkBuilder = BookmarkBuilder(
    href: Option<string>,
    title: Option<string>,
    addDate: Option<string>,
    lastVisit: Option<string>,
    lastModified: Option<string>,
    iconUri: Option<string>,
    icon: Option<string>)
  {
    /** `build()`: fails on the first unset field without a default, in declaration order. */
    function Build(): (r: Result<Bookmark, BuildError>)
      ensures r.Ok? <==> href.Some? && title.Some?
      ensures href.None? ==> r == Err(UninitializedField("href"))
      ensures href.Some? && title.None? ==> r == Err(UninitializedField("title"))
      ensures r.Ok? ==> r.value.href == href.value && r.value.title == title.value
      ensures r.Ok? ==> && r.value.addDate == OrEmpty(addDate) && r.value.lastVisit == OrEmpty(lastVisit)
                        && r.value.lastModified == OrEmpty(lastModified)
                        && r.value.iconUri == OrEmpty(iconUri) && r.value.icon == OrEmpty(icon)
    {
      if href.None? then Err(UninitializedField("href"))
      else if title.None? then Err(UninitializedField("title"))
      else Ok(Bookmark(href.value, title.value, OrEmpty(addDate), OrEmpty(lastVisit),
                       OrEmpty(lastModified), OrEmpty(iconUri), OrEmpty(icon)))
    }
  }

  const EmptyBuilder := BookmarkBuilder(None, None, None, None, None, None, None)

  function OrEmpty(o: Option<string>): string {
    match o
    case Some(v) => v
    case None => ""
  }

  /**
   * What `Bookmark::from_node` returns, stated on values: an `<A>` with an
   * `HREF` gives a bookmark made of its attribute values and text; a `<DT>`
   * maps as its first `<A>` child; anything else gives nothing.
   */
  function BookmarkOf(n: Node): Option<Bookmark> {
    if IsElement(n, "DT") then
      match FirstElement(n.children, "A")
      case None => None
      case Some(i) => BookmarkOf(n.children[i])
    else if IsElement(n, "A") then
      match SelectAttribute(n, "HREF")
      case None => None
      case Some(href) =>
        Some(Bookmark(href.value, TextContents(n), AttributeValue(n, "ADD_DATE"),
                      AttributeValue(n, "LAST_VISIT"), AttributeValue(n, "LAST_MODIFIED"),
                      AttributeValue(n, "ICON_URI"), AttributeValue(n, "ICON")))
    else None
  }

  /** `Bookmark::from_node`: fills a builder through conditional setter calls, then builds. */
  method BookmarkFromNode(node: Node) returns (bookmark: Option<Bookmark>)
    ensures bookmark == BookmarkOf(node)
    ensures IsElement(node, "A") ==> (bookmark.Some? <==> SelectAttribute(node, "HREF").Some?)
    ensures IsElement(node, "A") && bookmark.Some? ==>
              && bookmark.value.href == SelectAttribute(node, "HREF").value.value
              && bookmark.value.title == TextContents(node)
              && bookmark.value.addDate == AttributeValue(node, "ADD_DATE")
              && bookmark.value.lastVisit == AttributeValue(node, "LAST_VISIT")
              && bookmark.value.lastModified == AttributeValue(node, "LAST_MODIFIED")
              && bookmark.value.iconUri == AttributeValue(node, "ICON_URI")
              && bookmark.value.icon == AttributeValue(node, "ICON")
    ensures IsElement(node, "DT") ==>
              bookmark == match FirstElement(node.children, "A")
                          case None => None
                          case Some(i) => BookmarkOf(node.children[i])
    ensures !IsElement(node, "DT") && !IsElement(node, "A") ==> bookmark.None?
  {
    bookmark := None;
    var builder := EmptyBuilder;

    if IsElement(node, "DT") {
      var a := FirstElement(node.children, "A");
      if a.Some? {
        bookmark := BookmarkFromNode(node.children[a.value]);
      }
    } else if IsElement(node, "A") {
      var attribute := SelectAttribute(node, "HREF");
      if attribute.Some? {
        builder := builder.(href := Some(attribute.value.value));
      }
      attribute := SelectAttribute(node, "ADD_DATE");
      if attribute.Some? {
        builder := builder.(addDate := Some(attribute.value.value));
      }
      attribute := SelectAttribute(node, "LAST_VISIT");
      if attribute.Some? {
        builder := builder.(lastVisit := Some(attribute.value.value));
      }
      attribute := SelectAttribute(node, "LAST_MODIFIED");
      if attribute.Some? {
        builder := builder.(lastModified := Some(attribute.value.value));
      }
      attribute := SelectAttribute(node, "ICON_URI");
      if attribute.Some? {
        builder := builder.(iconUri := Some(attribute.value.value));
      }
      attribute := SelectAttribute(node, "ICON");
      if attribute.Some? {
        builder := builder.(icon := Some(attribute.value.value));
      }
      builder := builder.(title := Some(TextContents(node)));

      var built := builder.Build();
      if built.Ok? {
        bookmark := Some(built.value);
      }
    }
  }

  /** A bookmark can only come from an `<A>` element carrying an `HREF`, possibly wrapped in a `<DT>`. */
  lemma BookmarkOfSource(n: Node)
    requires BookmarkOf(n).Some?
    ensures exists a :: (a == n || a in ChildrenOf(n)) && IsElement(a, "A") && SelectAttribute(a, "HREF").Some?
                        && BookmarkOf(n).value.href == SelectAttribute(a, "HREF").value.value
                        && BookmarkOf(n).value.title == TextContents(a)
  {
    var a := n;
    if IsElement(n, "DT") {
      a := n.children[FirstElement(n.children, "A").value];
      assert a in ChildrenOf(n);
    }
    assert IsElement(a, "A");
    assert BookmarkOf(n) == BookmarkOf(a);
  }

  /** An `<A>` element carrying an `HREF` attribute. */
  predicate IsLinkAnchor(n: Node) {
    IsElement(n, "A") && SelectAttribute(n, "HREF").Some?
  }

  /**
   * A node maps to a bookmark exactly when it is an `<A>` with an `HREF`, or a
   * `<DT>` whose first `<A>` child has one (later `<A>` children are never tried).
   */
  lemma BookmarkOfSomeIff(n: Node)
    ensures BookmarkOf(n).Some? <==>
              || IsLinkAnchor(n)
              || (IsElement(n, "DT") && exists i :: 0 <= i < |n.children| && IsLinkAnchor(n.children[i])
                                                      && forall j :: 0 <= j < i ==> !IsElement(n.children[j], "A"))
  {
    if IsElement(n, "DT") {
      FirstElementIsFirst(n.children, "A");
      assert !EqIgnoreAsciiCase("DT", "A");
      match FirstElement(n.children, "A")
      case None =>
      case Some(i) =>
        if !IsLinkAnchor(n.children[i]) {
          forall k | 0 <= k < |n.children| && IsLinkAnchor(n.children[k])
            ensures exists j :: 0 <= j < k && IsElement(n.children[j], "A")
          {
            assert i < k && IsElement(n.children[i], "A");
          }
        }
    } else {
      assert !EqIgnoreAsciiCase("A", "DT");
    }
  }

  // ---------------------------------------------------------------------------
  // Equality

  /** `PartialEq for Bookmark`: the icon fields are not part of a bookmark's identity. */
  predicate BookmarkEq(a: Bookmark, b: Bookmark) {
    && a.href == b.href
    && a.addDate == b.addDate
    && a.lastVisit == b.lastVisit
    && a.lastModified == b.lastModified
    && a.title == b.title
  }

  /** The bookmark with its icon fields blanked: what equality looks at. */
  function Identity(b: Bookmark): Bookmark {
    b.(iconUri := "", icon := "")
  }

  lemma BookmarkEqIffSameIdentity(a: Bookmark, b: Bookmark)
    ensures BookmarkEq(a, b) <==> Identity(a) == Identity(b)
  {
  }

  /** Bookmark equality is an equivalence relation that ignores `icon_uri` and `icon`. */
  lemma BookmarkEqIsEquivalence(a: Bookmark, b: Bookmark, c: Bookmark, iconUri: string, icon: string)
    ensures BookmarkEq(a, a)
    ensures BookmarkEq(a, b) ==> BookmarkEq(b, a)
    ensures BookmarkEq(a, b) && BookmarkEq(b, c) ==> BookmarkEq(a, c)
    ensures BookmarkEq(a, a.(iconUri := iconUri, icon := icon))
  {
  }

  // ---------------------------------------------------------------------------
  // The parsing scenario of the sources' unit test

  /** `<A HREF="url" ADD_DATE="date" LAST_VISIT="date" LAST_MODIFIED="date" ICON="icon">name</A>`, as the parser lower-cases it. */
  const ScenarioAnchor: Node :=
    Element("a", [Attribute("href", "url"), Attribute("add_date", "date"), Attribute("last_visit", "date"),
                  Attribute("last_modified", "date"), Attribute("icon", "icon")],
            [Text("name")])

  lemma ScenarioAnchorParses()
    ensures BookmarkOf(ScenarioAnchor) == Some(Bookmark("url", "name", "date", "date", "date", "", "icon"))
  {
    ScenarioAnchorShape();
    ScenarioAnchorDates();
    ScenarioAnchorIcons();
  }

  lemma ScenarioAnchorShape()
    ensures IsElement(ScenarioAnchor, "A") && !IsElement(ScenarioAnchor, "DT")
    ensures SelectAttribute(ScenarioAnchor, "HREF") == Some(Attribute("href", "url"))
    ensures TextContents(ScenarioAnchor) == "name"
  {
  }

  lemma ScenarioAnchorDates()
    ensures AttributeValue(ScenarioAnchor, "ADD_DATE") == "date"
    ensures AttributeValue(ScenarioAnchor, "LAST_VISIT") == "date"
    ensures AttributeValue(ScenarioAnchor, "LAST_MODIFIED") == "date"
  {
    var names := seq(5, j requires 0 <= j < 5 => ScenarioAnchor.attributes[j].name);
    assert names == ["href", "add_date", "last_visit", "last_modified", "icon"];
    assert EqIgnoreAsciiCase("last_visit", "LAST_VISIT");
    assert EqIgnoreAsciiCase("last_modified", "LAST_MODIFIED");
    SelectAttributeAt(ScenarioAnchor, "LAST_VISIT", 2);
    SelectAttributeAt(ScenarioAnchor, "LAST_MODIFIED", 3);
  }

  lemma ScenarioAnchorIcons()
    ensures AttributeValue(ScenarioAnchor, "ICON_URI") == ""
    ensures AttributeValue(ScenarioAnchor, "ICON") == "icon"
  {
  }

  /**
   * The same anchor inside its `<dt>` wrapper maps the same way, also when a
   * whitespace text node comes first (as when `<DT>` and `<A>` stand on separate lines).
   */
  lemma ScenarioWrappedAnchorParses()
    ensures BookmarkOf(Element("dt", [], [ScenarioAnchor])) == BookmarkOf(ScenarioAnchor)
    ensures BookmarkOf(Element("dt", [], [Text("\n"), ScenarioAnchor])) == BookmarkOf(ScenarioAnchor)
  {
    assert EqIgnoreAsciiCase("dt", "DT");
    assert FirstElementFrom([ScenarioAnchor], "A", 0) == Some(0);
    assert FirstElementFrom([Text("\n"), ScenarioAnchor], "A", 0) == Some(1);
  }
}
