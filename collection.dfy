/**
 * The nested-collection queries over a list of items: every bookmark of the
 * tree, depth first in document order, and every folder, in pre-order.
 */
module Collection {
  import opened Bookmarks
  import opened Items

  // ---------------------------------------------------------------------------
  // Specification

  /** Every bookmark at or below the items `xs`, in document order. */
  function ShortcutsOf(xs: seq<Item>): seq<Bookmark>
    decreases xs
  {
    if xs == [] then [] else ShortcutsOfItem(xs[0]) + ShortcutsOf(xs[1..])
  }

  function ShortcutsOfItem(x: Item): seq<Bookmark>
    decreases x
  {
    match x
    case Shortcut(b) => [b]
    case Subfolder(f) => ShortcutsOf(f.children)
  }

  /** Every folder at or below the items `xs`, each listed before its own descendants. */
  function SubfoldersOf(xs: seq<Item>): seq<Folder>
    decreases xs
  {
    if xs == [] then [] else SubfoldersOfItem(xs[0]) + SubfoldersOf(xs[1..])
  }

  function SubfoldersOfItem(x: Item): seq<Folder>
    decreases x
  {
    match x
    case Shortcut(_) => []
    case Subfolder(f) => [f] + SubfoldersOf(f.children)
  }

  /** The number of items at or below `xs`: the measure that the queries' recursion decreases. */
  function ItemCount(xs: seq<Item>): nat
    decreases xs
  {
    if xs == [] then 0 else ItemCountOf(xs[0]) + ItemCount(xs[1..])
  }

  function ItemCountOf(x: Item): (r: nat)
    ensures r >= 1
    decreases x
  {
    match x
    case Shortcut(_) => 1
    case Subfolder(f) => 1 + ItemCount(f.children)
  }

  /** A subfolder's children hold fewer items than any list the subfolder sits in. */
  lemma {:induction false} ChildrenHoldFewer(xs: seq<Item>, i: nat)
    requires i < |xs| && xs[i].Subfolder?
    ensures ItemCount(xs[i].folder.children) < ItemCount(xs)
  {
    if i > 0 {
      ChildrenHoldFewer(xs[1..], i - 1);
    }
  }

  // ---------------------------------------------------------------------------
  // The queries as the source runs them

  /** `shortcuts`: a loop that pushes each bookmark and appends each subfolder's own listing. */
  method Shortcuts(xs: seq<Item>) returns (all: seq<Bookmark>)
    ensures all == ShortcutsOf(xs)
    decreases ItemCount(xs)
  {
    all := [];
    var i := 0;
    while i < |xs|
      invariant i <= |xs|
      invariant all == ShortcutsOf(xs[..i])
    {
      ShortcutsOfExtend(xs, i);
      match xs[i] {
        case Subfolder(f) =>
          ChildrenHoldFewer(xs, i);
          var nested := Shortcuts(f.children);
          all := all + nested;
        case Shortcut(b) =>
          all := all + [b];
      }
      i := i + 1;
    }
    assert xs[..i] == xs;
  }

  /** Extending a prefix by one item extends its listing by that item's own. */
  lemma ShortcutsOfExtend(xs: seq<Item>, i: nat)
    requires i < |xs|
    ensures ShortcutsOf(xs[..i + 1]) == ShortcutsOf(xs[..i]) + ShortcutsOfItem(xs[i])
  {
    ShortcutsOfConcat(xs[..i], [xs[i]]);
    assert xs[..i + 1] == xs[..i] + [xs[i]];
    assert ShortcutsOf([xs[i]]) == ShortcutsOfItem(xs[i]) + ShortcutsOf([]);
  }

  /** `subfolders`: a loop that pushes each subfolder, then appends its own listing. */
  method Subfolders(xs: seq<Item>) returns (all: seq<Folder>)
    ensures all == SubfoldersOf(xs)
    decreases ItemCount(xs)
  {
    all := [];
    var i := 0;
    while i < |xs|
      invariant i <= |xs|
      invariant all == SubfoldersOf(xs[..i])
    {
      SubfoldersOfExtend(xs, i);
      match xs[i] {
        case Subfolder(f) =>
          ChildrenHoldFewer(xs, i);
          var nested := Subfolders(f.children);
          all := all + ([f] + nested);
        case Shortcut(_) =>
      }
      i := i + 1;
    }
    assert xs[..i] == xs;
  }

  lemma SubfoldersOfExtend(xs: seq<Item>, i: nat)
    requires i < |xs|
    ensures SubfoldersOf(xs[..i + 1]) == SubfoldersOf(xs[..i]) + SubfoldersOfItem(xs[i])
  {
    SubfoldersOfConcat(xs[..i], [xs[i]]);
    assert xs[..i + 1] == xs[..i] + [xs[i]];
    assert SubfoldersOf([xs[i]]) == SubfoldersOfItem(xs[i]) + SubfoldersOf([]);
  }

  // ---------------------------------------------------------------------------
  // Properties

  /** The loops only append, left to right: both queries distribute over concatenation. */
  lemma {:induction false} ShortcutsOfConcat(a: seq<Item>, b: seq<Item>)
    ensures ShortcutsOf(a + b) == ShortcutsOf(a) + ShortcutsOf(b)
  {
    if a == [] {
      assert a + b == b;
    } else {
      assert (a + b)[1..] == a[1..] + b;
      ShortcutsOfConcat(a[1..], b);
    }
  }

  lemma {:induction false} SubfoldersOfConcat(a: seq<Item>, b: seq<Item>)
    ensures SubfoldersOf(a + b) == SubfoldersOf(a) + SubfoldersOf(b)
  {
    if a == [] {
      assert a + b == b;
    } else {
      assert (a + b)[1..] == a[1..] + b;
      SubfoldersOfConcat(a[1..], b);
    }
  }

  /** Every item at or below `xs`, each listed before its own descendants. */
  function Flatten(xs: seq<Item>): seq<Item>
    decreases xs
  {
    if xs == [] then [] else FlattenItem(xs[0]) + Flatten(xs[1..])
  }

  function FlattenItem(x: Item): (r: seq<Item>)
    ensures |r| >= 1 && r[0] == x
    decreases x
  {
    [x] + match x case Subfolder(f) => Flatten(f.children) case Shortcut(_) => []
  }

  /** The bookmarks held directly by a flat list, in order. */
  function ShortcutPayloads(ys: seq<Item>): (r: seq<Bookmark>)
    ensures forall b :: b in r <==> Shortcut(b) in ys
  {
    if ys == [] then []
    else OwnBookmark(ys[0]) + ShortcutPayloads(ys[1..])
  }

  /** The bookmark an item is, if it is one. */
  function OwnBookmark(x: Item): seq<Bookmark> {
    match x case Shortcut(b) => [b] case Subfolder(_) => []
  }

  /** The folder an item is, if it is one. */
  function OwnFolder(x: Item): seq<Folder> {
    match x case Subfolder(f) => [f] case Shortcut(_) => []
  }

  /** The folders held directly by a flat list, in order. */
  function SubfolderPayloads(ys: seq<Item>): (r: seq<Folder>)
    ensures forall f :: f in r <==> Subfolder(f) in ys
  {
    if ys == [] then []
    else OwnFolder(ys[0]) + SubfolderPayloads(ys[1..])
  }

  lemma {:induction false} ShortcutPayloadsConcat(a: seq<Item>, b: seq<Item>)
    ensures ShortcutPayloads(a + b) == ShortcutPayloads(a) + ShortcutPayloads(b)
  {
    if a == [] {
      assert a + b == b;
    } else {
      assert (a + b)[0] == a[0];
      assert (a + b)[1..] == a[1..] + b;
      ShortcutPayloadsConcat(a[1..], b);
      assert ShortcutPayloads(a + b) == OwnBookmark(a[0]) + ShortcutPayloads(a[1..] + b);
    }
  }

  lemma {:induction false} SubfolderPayloadsConcat(a: seq<Item>, b: seq<Item>)
    ensures SubfolderPayloads(a + b) == SubfolderPayloads(a) + SubfolderPayloads(b)
  {
    if a == [] {
      assert a + b == b;
    } else {
      assert (a + b)[0] == a[0];
      assert (a + b)[1..] == a[1..] + b;
      SubfolderPayloadsConcat(a[1..], b);
      assert SubfolderPayloads(a + b) == OwnFolder(a[0]) + SubfolderPayloads(a[1..] + b);
    }
  }

  /**
   * The queries are the pre-order walk of the whole tree, filtered by kind:
   * `shortcuts` keeps the bookmarks and `subfolders` the folders, in the order
   * the walk meets them.
   */
  lemma QueriesFilterTheWalk(xs: seq<Item>)
    ensures ShortcutsOf(xs) == ShortcutPayloads(Flatten(xs))
    ensures SubfoldersOf(xs) == SubfolderPayloads(Flatten(xs))
  {
    WalkShortcuts(xs);
    WalkSubfolders(xs);
  }

  lemma {:induction false} WalkShortcuts(xs: seq<Item>)
    ensures ShortcutsOf(xs) == ShortcutPayloads(Flatten(xs))
    decreases ItemCount(xs)
  {
    if xs != [] {
      var x := xs[0];
      WalkShortcuts(xs[1..]);
      ShortcutPayloadsConcat(FlattenItem(x), Flatten(xs[1..]));
      match x {
        case Subfolder(f) =>
          ChildrenHoldFewer(xs, 0);
          WalkShortcuts(f.children);
          ShortcutPayloadsConcat([x], Flatten(f.children));
        case Shortcut(_) =>
      }
    }
  }

  lemma {:induction false} WalkSubfolders(xs: seq<Item>)
    ensures SubfoldersOf(xs) == SubfolderPayloads(Flatten(xs))
    decreases ItemCount(xs)
  {
    if xs != [] {
      var x := xs[0];
      WalkSubfolders(xs[1..]);
      SubfolderPayloadsConcat(FlattenItem(x), Flatten(xs[1..]));
      match x {
        case Subfolder(f) =>
          ChildrenHoldFewer(xs, 0);
          WalkSubfolders(f.children);
          SubfolderPayloadsConcat([x], Flatten(f.children));
        case Shortcut(_) =>
      }
    }
  }

  /** Every item of the tree is listed exactly once by one of the two queries. */
  lemma {:induction false} EveryItemListedOnce(xs: seq<Item>)
    ensures |ShortcutsOf(xs)| + |SubfoldersOf(xs)| == |Flatten(xs)| == ItemCount(xs)
  {
    QueriesFilterTheWalk(xs);
    PayloadsPartition(Flatten(xs));
    WalkVisitsEveryItem(xs);
  }

  lemma {:induction false} WalkVisitsEveryItem(xs: seq<Item>)
    ensures |Flatten(xs)| == ItemCount(xs)
    decreases ItemCount(xs)
  {
    if xs != [] {
      WalkVisitsEveryItem(xs[1..]);
      match xs[0]
      case Subfolder(f) =>
        ChildrenHoldFewer(xs, 0);
        WalkVisitsEveryItem(f.children);
      case Shortcut(_) =>
    }
  }

  lemma {:induction false} PayloadsPartition(ys: seq<Item>)
    ensures |ShortcutPayloads(ys)| + |SubfolderPayloads(ys)| == |ys|
  {
    if ys != [] {
      PayloadsPartition(ys[1..]);
    }
  }

  /** `b` occurs somewhere in the tree below `xs`, directly or inside a subfolder. */
  predicate HoldsShortcut(xs: seq<Item>, b: Bookmark)
    decreases xs
  {
    exists i :: 0 <= i < |xs| && ItemHoldsShortcut(xs[i], b)
  }

  predicate ItemHoldsShortcut(x: Item, b: Bookmark)
    decreases x
  {
    match x
    case Shortcut(c) => c == b
    case Subfolder(f) => HoldsShortcut(f.children, b)
  }

  /** `f` occurs somewhere in the tree below `xs`, directly or inside a subfolder. */
  predicate HoldsSubfolder(xs: seq<Item>, f: Folder)
    decreases xs
  {
    exists i :: 0 <= i < |xs| && ItemHoldsSubfolder(xs[i], f)
  }

  predicate ItemHoldsSubfolder(x: Item, f: Folder)
    decreases x
  {
    match x
    case Shortcut(_) => false
    case Subfolder(g) => g == f || HoldsSubfolder(g.children, f)
  }

  /** Nothing is missed and nothing is made up: a bookmark is listed exactly when it occurs in the tree. */
  lemma {:induction false} ShortcutsAreExactlyTheHeldOnes(xs: seq<Item>, b: Bookmark)
    ensures b in ShortcutsOf(xs) <==> HoldsShortcut(xs, b)
    decreases ItemCount(xs)
  {
    if xs != [] {
      ShortcutsAreExactlyTheHeldOnes(xs[1..], b);
      match xs[0] {
        case Subfolder(f) =>
          ChildrenHoldFewer(xs, 0);
          ShortcutsAreExactlyTheHeldOnes(f.children, b);
        case Shortcut(_) =>
      }
      HoldsFirstOrRest(xs, b, Folder("", false, "", "", false, false, []));
    }
  }

  /** A list holds something exactly when its first item or the rest of it does. */
  lemma HoldsFirstOrRest(xs: seq<Item>, b: Bookmark, f: Folder)
    requires xs != []
    ensures HoldsShortcut(xs, b) <==> ItemHoldsShortcut(xs[0], b) || HoldsShortcut(xs[1..], b)
    ensures HoldsSubfolder(xs, f) <==> ItemHoldsSubfolder(xs[0], f) || HoldsSubfolder(xs[1..], f)
  {
    if HoldsShortcut(xs[1..], b) {
      var i :| 0 <= i < |xs[1..]| && ItemHoldsShortcut(xs[1..][i], b);
      assert ItemHoldsShortcut(xs[i + 1], b);
    }
    if HoldsSubfolder(xs[1..], f) {
      var i :| 0 <= i < |xs[1..]| && ItemHoldsSubfolder(xs[1..][i], f);
      assert ItemHoldsSubfolder(xs[i + 1], f);
    }
    if HoldsShortcut(xs, b) && !ItemHoldsShortcut(xs[0], b) {
      var i :| 0 <= i < |xs| && ItemHoldsShortcut(xs[i], b);
      assert ItemHoldsShortcut(xs[1..][i - 1], b);
    }
    if HoldsSubfolder(xs, f) && !ItemHoldsSubfolder(xs[0], f) {
      var i :| 0 <= i < |xs| && ItemHoldsSubfolder(xs[i], f);
      assert ItemHoldsSubfolder(xs[1..][i - 1], f);
    }
  }

  /** A folder is listed exactly when it occurs in the tree. */
  lemma {:induction false} SubfoldersAreExactlyTheHeldOnes(xs: seq<Item>, f: Folder)
    ensures f in SubfoldersOf(xs) <==> HoldsSubfolder(xs, f)
    decreases ItemCount(xs)
  {
    if xs != [] {
      SubfoldersAreExactlyTheHeldOnes(xs[1..], f);
      match xs[0] {
        case Subfolder(g) =>
          ChildrenHoldFewer(xs, 0);
          SubfoldersAreExactlyTheHeldOnes(g.children, f);
        case Shortcut(_) =>
      }
      HoldsFirstOrRest(xs, Bookmark("", "", "", "", "", "", ""), f);
    }
  }

  /** Each listed folder is followed at once by the listing of its own descendants. */
  predicate PreOrdered(s: seq<Folder>) {
    forall i :: 0 <= i < |s| ==> FollowedByDescendants(s, i)
  }

  predicate FollowedByDescendants(s: seq<Folder>, i: nat)
    requires i < |s|
  {
    var below := SubfoldersOf(s[i].children);
    i + 1 + |below| <= |s| && s[i + 1..i + 1 + |below|] == below
  }

  lemma PreOrderedConcat(a: seq<Folder>, b: seq<Folder>)
    requires PreOrdered(a) && PreOrdered(b)
    ensures PreOrdered(a + b)
  {
    forall i | 0 <= i < |a + b|
      ensures FollowedByDescendants(a + b, i)
    {
      if i < |a| {
        assert FollowedByDescendants(a, i);
        var below := SubfoldersOf(a[i].children);
        assert (a + b)[i + 1..i + 1 + |below|] == a[i + 1..i + 1 + |below|];
      } else {
        assert FollowedByDescendants(b, i - |a|);
        var below := SubfoldersOf(b[i - |a|].children);
        assert (a + b)[i + 1..i + 1 + |below|] == b[i - |a| + 1..i - |a| + 1 + |below|];
      }
    }
  }

  lemma PreOrderedCons(f: Folder, rest: seq<Folder>)
    requires rest == SubfoldersOf(f.children) && PreOrdered(rest)
    ensures PreOrdered([f] + rest)
  {
    forall i | 0 <= i < |[f] + rest|
      ensures FollowedByDescendants([f] + rest, i)
    {
      if i == 0 {
        assert ([f] + rest)[1..1 + |rest|] == rest;
      } else {
        assert FollowedByDescendants(rest, i - 1);
        var below := SubfoldersOf(rest[i - 1].children);
        assert ([f] + rest)[i + 1..i + 1 + |below|] == rest[i..i + |below|];
      }
    }
  }

  /** `subfolders` lists in pre-order: every folder comes right before its own descendants. */
  lemma {:induction false} SubfoldersArePreOrdered(xs: seq<Item>)
    ensures PreOrdered(SubfoldersOf(xs))
    decreases ItemCount(xs)
  {
    if xs != [] {
      SubfoldersArePreOrdered(xs[1..]);
      match xs[0]
      case Subfolder(f) =>
        ChildrenHoldFewer(xs, 0);
        SubfoldersArePreOrdered(f.children);
        PreOrderedCons(f, SubfoldersOf(f.children));
        PreOrderedConcat([f] + SubfoldersOf(f.children), SubfoldersOf(xs[1..]));
      case Shortcut(_) =>
        assert SubfoldersOf(xs) == SubfoldersOf(xs[1..]);
    }
  }

  /** A list of bookmarks alone: `shortcuts` gives them back in order, and `subfolders` nothing. */
  lemma {:induction false} FlatShortcuts(bs: seq<Bookmark>)
    ensures ShortcutsOf(seq(|bs|, i requires 0 <= i < |bs| => Shortcut(bs[i]))) == bs
    ensures SubfoldersOf(seq(|bs|, i requires 0 <= i < |bs| => Shortcut(bs[i]))) == []
  {
    var xs := seq(|bs|, i requires 0 <= i < |bs| => Shortcut(bs[i]));
    if bs != [] {
      FlatShortcuts(bs[1..]);
      assert xs[1..] == seq(|bs[1..]|, i requires 0 <= i < |bs[1..]| => Shortcut(bs[1..][i]));
      assert bs == [bs[0]] + bs[1..];
    }
  }

  // ---------------------------------------------------------------------------
  // Scenario: a bookmark beside a folder that holds a folder that holds a bookmark

  function Titled(name: string): Bookmark {
    Bookmark(name, name, "", "", "", "", "")
  }

  function Holding(children: seq<Item>): Folder {
    Folder("", false, "", "", false, false, children)
  }

  lemma NestedCollectionScenario()
    ensures var f1 := Holding([Shortcut(Titled("test1"))]);
            var f0 := Holding([Subfolder(f1)]);
            var xs := [Shortcut(Titled("test0")), Subfolder(f0)];
            && ShortcutsOf(xs) == [Titled("test0"), Titled("test1")]
            && SubfoldersOf(xs) == [f0, f1]
  {
    var b1 := Titled("test1");
    var f1 := Holding([Shortcut(b1)]);
    var f0 := Holding([Subfolder(f1)]);
    var xs := [Shortcut(Titled("test0")), Subfolder(f0)];
    assert ShortcutsOf(f1.children) == [b1];
    assert ShortcutsOf(f0.children) == [b1];
    assert SubfoldersOf(f1.children) == [];
    assert SubfoldersOf(f0.children) == [f1];
    assert xs[1..] == [Subfolder(f0)];
    assert ShortcutsOf([Subfolder(f0)]) == [b1];
    assert SubfoldersOf([Subfolder(f0)]) == [f0, f1];
    assert ShortcutsOf(xs) == [Titled("test0")] + [b1];
    assert SubfoldersOf(xs) == [] + [f0, f1];
  }
}
