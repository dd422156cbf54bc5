/**
 * The whole document: its title, its `<H1>` heading and the items of its
 * body's lists, and the two nested-collection queries over them.
 */
module NetscapeFile {
  import opened Options
  import opened Dom
  import opened Bookmarks
  import opened Items
  import opened Folders
  import Collection

  datatype Netscape = Netscape(title: string, h1: string, children: seq<Item>)

  /** The I/O error that `from_node` declares and never returns. */
  datatype IoError = IoError(message: string)

  // ---------------------------------------------------------------------------
  // Specification

  /** The last `name` element among `ns[..hi]`: the one a loop re-assigning on every match keeps. */
  function LastNamed(ns: seq<Node>, name: string, hi: nat): (r: Option<Node>)
    requires hi <= |ns|
    ensures r.Some? ==> IsElement(r.value, name)
  {
    match LastElementIn(ns, name, 0, hi)
    case None => None
    case Some(k) => Some(ns[k])
  }

  /** The text of the last `name` element among `ns[..hi]`, or "" when there is none. */
  function LastText(ns: seq<Node>, name: string, hi: nat): string
    requires hi <= |ns|
  {
    match LastNamed(ns, name, hi)
    case None => ""
    case Some(t) => TextContents(t)
  }

  /** The children of the document's first `<HTML>` child; none when there is no such child. */
  function RootChildren(node: Node): seq<Node> {
    match FirstElement(ChildrenOf(node), "HTML")
    case None => []
    case Some(i) => ChildrenOf(node)[i].children
  }

  /** The last `name` child of the root: the one the loop over the root's children keeps. */
  function LastRootChild(node: Node, name: string): (r: Option<Node>)
    ensures r.Some? ==> IsElement(r.value, name)
  {
    LastNamed(RootChildren(node), name, |RootChildren(node)|)
  }

  /** The items of every `<DL>` among `ns[..hi]`, list after list: each list adds to what came before. */
  function DlItems(ns: seq<Node>, hi: nat): seq<Item>
    requires hi <= |ns|
  {
    if hi == 0 then []
    else DlItems(ns, hi - 1) + (if IsElement(ns[hi - 1], "DL") then ItemsFrom(ns[hi - 1].children, 0) else [])
  }

  /** What `Netscape::from_node` makes of a parsed document. */
  function NetscapeOf(node: Node): Netscape {
    var head := LastRootChild(node, "HEAD");
    var body := LastRootChild(node, "BODY");
    Netscape(
      match head case None => "" case Some(h) => LastText(h.children, "TITLE", |h.children|),
      match body case None => "" case Some(b) => LastText(b.children, "H1", |b.children|),
      match body case None => [] case Some(b) => DlItems(b.children, |b.children|))
  }

  // ---------------------------------------------------------------------------
  // The mapper as the source runs it

  /** `Netscape::from_node`: it never fails. */
  method FromNode(node: Node) returns (r: Result<Netscape, IoError>)
    ensures r == Ok(NetscapeOf(node))
  {
    var title := "";
    var h1 := "";
    var children: seq<Item> := [];
    var head: Option<Node> := None;
    var body: Option<Node> := None;

    var html := FirstElement(ChildrenOf(node), "HTML");
    if html.Some? {
      head, body := ScanRoot(ChildrenOf(node)[html.value].children);
    }
    if head.Some? {
      title := ScanHead(head.value.children);
    }
    if body.Some? {
      h1, children := ScanBody(body.value.children);
    }
    r := Ok(Netscape(title, h1, children));
  }

  /** The loop over the root's children: every `<HEAD>` and every `<BODY>` replaces the previous one. */
  method ScanRoot(rs: seq<Node>) returns (head: Option<Node>, body: Option<Node>)
    ensures head == LastNamed(rs, "HEAD", |rs|)
    ensures body == LastNamed(rs, "BODY", |rs|)
  {
    head, body := None, None;
    var i := 0;
    while i < |rs|
      invariant i <= |rs|
      invariant head == LastNamed(rs, "HEAD", i)
      invariant body == LastNamed(rs, "BODY", i)
    {
      DistinctNamesNeverBoth(rs[i], "HEAD", "BODY");
      if IsElement(rs[i], "HEAD") {
        head := Some(rs[i]);
      } else if IsElement(rs[i], "BODY") {
        body := Some(rs[i]);
      }
      i := i + 1;
    }
  }

  /** The loop over the head's children: every `<TITLE>` replaces the title. */
  method ScanHead(hs: seq<Node>) returns (title: string)
    ensures title == LastText(hs, "TITLE", |hs|)
  {
    title := "";
    var i := 0;
    while i < |hs|
      invariant i <= |hs|
      invariant title == LastText(hs, "TITLE", i)
    {
      if IsElement(hs[i], "TITLE") {
        title := TextContents(hs[i]);
      }
      i := i + 1;
    }
  }

  /** The loop over the body's children: every `<H1>` replaces the heading, every `<DL>` adds its items. */
  method ScanBody(bs: seq<Node>) returns (h1: string, children: seq<Item>)
    ensures h1 == LastText(bs, "H1", |bs|)
    ensures children == DlItems(bs, |bs|)
  {
    h1, children := "", [];
    var i := 0;
    while i < |bs|
      invariant i <= |bs|
      invariant h1 == LastText(bs, "H1", i)
      invariant children == DlItems(bs, i)
    {
      DistinctNamesNeverBoth(bs[i], "H1", "DL");
      if IsElement(bs[i], "H1") {
        h1 := TextContents(bs[i]);
      } else if IsElement(bs[i], "DL") {
        children := PushItems(children, bs[i].children);
      }
      i := i + 1;
    }
  }

  /** The innermost loop: each child of a list that dispatches to an item is pushed, in order. */
  method PushItems(children: seq<Item>, ns: seq<Node>) returns (r: seq<Item>)
    ensures r == children + ItemsFrom(ns, 0)
  {
    r := children;
    var k := 0;
    while k < |ns|
      invariant k <= |ns|
      invariant children + ItemsFrom(ns, 0) == r + ItemsFrom(ns, k)
    {
      var item := ItemOf(ns, k);
      if item.Some? {
        r := r + [item.value];
      }
      k := k + 1;
    }
  }

  /** `get_bookmarks`: every bookmark of the document, depth first. */
  method GetBookmarks(doc: Netscape) returns (r: seq<Bookmark>)
    ensures r == Collection.ShortcutsOf(doc.children)
  {
    r := Collection.Shortcuts(doc.children);
  }

  /** `get_folders`: every folder of the document, in pre-order. */
  method GetFolders(doc: Netscape) returns (r: seq<Folder>)
    ensures r == Collection.SubfoldersOf(doc.children)
  {
    r := Collection.Subfolders(doc.children);
  }

  // ---------------------------------------------------------------------------
  // Properties

  /** A document without an `<HTML>` child maps to the empty document. */
  lemma NoHtmlNoContent(node: Node)
    requires forall i :: 0 <= i < |ChildrenOf(node)| ==> !IsElement(ChildrenOf(node)[i], "HTML")
    ensures NetscapeOf(node) == Netscape("", "", [])
  {
    FirstElementIsFirst(ChildrenOf(node), "HTML");
  }

  /** Only the first `<HTML>` child is read: whatever follows it does not matter. */
  lemma OnlyFirstHtmlCounts(ns: seq<Node>, rest: seq<Node>, i: nat)
    requires i < |ns| && IsElement(ns[i], "HTML")
    requires forall j :: 0 <= j < i ==> !IsElement(ns[j], "HTML")
    ensures NetscapeOf(Document(ns)) == NetscapeOf(Document(ns[..i + 1] + rest))
  {
    var ms := ns[..i + 1] + rest;
    assert ms[i] == ns[i];
    FirstElementIsFirst(ns, "HTML");
    FirstElementIsFirst(ms, "HTML");
    var a := FirstElement(ns, "HTML").value;
    var b := FirstElement(ms, "HTML").value;
    assert a == i;
    assert b == i;
  }

  /** The last element named `name` among `ns` is the one `LastNamed` keeps, and `LastText` reads. */
  lemma LastNamedIsLast(ns: seq<Node>, name: string, j: nat)
    requires j < |ns| && IsElement(ns[j], name)
    requires forall k :: j < k < |ns| ==> !IsElement(ns[k], name)
    ensures LastNamed(ns, name, |ns|) == Some(ns[j])
    ensures LastText(ns, name, |ns|) == TextContents(ns[j])
  {
    LastElementInIsLast(ns, name, 0, |ns|);
    var k := LastElementIn(ns, name, 0, |ns|).value;
    assert k == j;
  }

  /** With no element named `name` among `ns`, `LastText` is empty. */
  lemma NoneNamedNoText(ns: seq<Node>, name: string)
    requires forall k :: 0 <= k < |ns| ==> !IsElement(ns[k], name)
    ensures LastNamed(ns, name, |ns|) == None
    ensures LastText(ns, name, |ns|) == ""
  {
    LastElementInIsLast(ns, name, 0, |ns|);
  }

  /**
   * The last `<HEAD>` among the root's children gives the title (the text of
   * its own last `<TITLE>`); earlier heads are overwritten.
   */
  lemma LastHeadGivesTitle(node: Node, j: nat)
    requires j < |RootChildren(node)| && IsElement(RootChildren(node)[j], "HEAD")
    requires forall k :: j < k < |RootChildren(node)| ==> !IsElement(RootChildren(node)[k], "HEAD")
    ensures var hs := RootChildren(node)[j].children;
            NetscapeOf(node).title == LastText(hs, "TITLE", |hs|)
  {
    LastNamedIsLast(RootChildren(node), "HEAD", j);
  }

  /**
   * The last `<BODY>` among the root's children gives the heading (the text of
   * its own last `<H1>`) and the items of every one of its `<DL>` children.
   */
  lemma LastBodyGivesContent(node: Node, j: nat)
    requires j < |RootChildren(node)| && IsElement(RootChildren(node)[j], "BODY")
    requires forall k :: j < k < |RootChildren(node)| ==> !IsElement(RootChildren(node)[k], "BODY")
    ensures var bs := RootChildren(node)[j].children;
            && NetscapeOf(node).h1 == LastText(bs, "H1", |bs|)
            && NetscapeOf(node).children == DlItems(bs, |bs|)
  {
    LastNamedIsLast(RootChildren(node), "BODY", j);
  }

  /** `DlItems` only looks at the nodes below `hi`. */
  lemma {:induction false} DlItemsOfPrefix(ns: seq<Node>, ms: seq<Node>, hi: nat)
    requires hi <= |ns| && hi <= |ms| && ns[..hi] == ms[..hi]
    ensures DlItems(ns, hi) == DlItems(ms, hi)
  {
    if hi > 0 {
      assert ns[hi - 1] == ns[..hi][hi - 1] == ms[hi - 1];
      assert ns[..hi - 1] == ns[..hi][..hi - 1];
      assert ms[..hi - 1] == ms[..hi][..hi - 1];
      DlItemsOfPrefix(ns, ms, hi - 1);
    }
  }

  /**
   * Unlike a folder, which keeps its last list only, the body accumulates: the
   * items of the lists of `a + b` are those of `a`'s lists followed by those of `b`'s.
   */
  lemma {:induction false} BodyListsAccumulate(a: seq<Node>, b: seq<Node>)
    ensures DlItems(a + b, |a + b|) == DlItems(a, |a|) + DlItems(b, |b|)
    decreases |b|
  {
    if b == [] {
      assert a + b == a;
    } else {
      var b' := b[..|b| - 1];
      BodyListsAccumulate(a, b');
      DlItemsOfPrefix(a + b, a + b', |a + b'|);
      DlItemsOfPrefix(b, b', |b'|);
      assert (a + b)[|a + b| - 1] == b[|b| - 1];
    }
  }

  /** `PartialEq for Netscape`: the title, the heading and the children (item by item) count. */
  predicate NetscapeEq(x: Netscape, y: Netscape) {
    x.title == y.title && x.h1 == y.h1 && ItemsEq(x.children, y.children)
  }

  /** Document equality is an equivalence relation: two documents are equal exactly when their keys are. */
  lemma NetscapeEqIsEquivalence(x: Netscape, y: Netscape, z: Netscape)
    ensures NetscapeEq(x, y) <==> x.title == y.title && x.h1 == y.h1 && ItemsKey(x.children) == ItemsKey(y.children)
    ensures NetscapeEq(x, x)
    ensures NetscapeEq(x, y) ==> NetscapeEq(y, x)
    ensures NetscapeEq(x, y) && NetscapeEq(y, z) ==> NetscapeEq(x, z)
  {
    ItemsEqIffSameKey(x.children, y.children);
    ItemsEqIsEquivalence(x.children, y.children, z.children);
  }

  // ---------------------------------------------------------------------------
  // Scenario: a header alone

  /**
   * The header of the sources' unit test in the shape an HTML5 parser gives it.
   * The doctype and the comment stay children of the document. The title goes
   * into a synthesized head, followed by the whitespace after it. The heading
   * goes into a synthesized body. The doctype is written as a comment node.
   */
  const HeaderDocument := Document([
    Comment("NETSCAPE-Bookmark-file-1"),
    Comment("This is an automatically generated file.\n    It will be read and overwritten.\n    Do Not Edit! "),
    Element("html", [], [
      Element("head", [], [
        Element("title", [], [Text("Collection Title")]),
        Text("\n    ")]),
      Element("body", [], [
        Element("h1", [], [Text("Collection Head")])])])])

  lemma HeaderScenario()
    ensures NetscapeOf(HeaderDocument) == Netscape("Collection Title", "Collection Head", [])
  {
    var html := HeaderDocument.children[2];
    assert EqIgnoreAsciiCase("html", "HTML");
    assert FirstElement(HeaderDocument.children, "HTML") == Some(2);
    var head := html.children[0];
    var body := html.children[1];
    assert EqIgnoreAsciiCase("head", "HEAD") && !EqIgnoreAsciiCase("body", "HEAD");
    assert EqIgnoreAsciiCase("body", "BODY");
    LastNamedIsLast(html.children, "HEAD", 0);
    LastNamedIsLast(html.children, "BODY", 1);
    assert EqIgnoreAsciiCase("title", "TITLE");
    LastNamedIsLast(head.children, "TITLE", 0);
    assert TextsFrom(head.children[0].children, 0) == "Collection Title";
    assert EqIgnoreAsciiCase("h1", "H1") && !EqIgnoreAsciiCase("h1", "DL");
    LastNamedIsLast(body.children, "H1", 0);
    assert TextsFrom(body.children[0].children, 0) == "Collection Head";
    assert DlItems(body.children, 1) == [];
  }
}
