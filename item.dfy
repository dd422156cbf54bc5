/**
 * The two kinds of item of a bookmark tree. `Folder` (a `subfolder`) and `Item`
 * are declared together because each contains the other.
 */
module Items {
  import opened Options
  import opened Bookmarks

  datatype Folder = Folder(
    title: string,
    folded: bool,
    addDate: string,
    lastModified: string,
    personalToolbarFolder: bool,
    unfiledBookmarksFolder: bool,
    children: seq<Item>)

  datatype Item = Subfolder(folder: Folder) | Shortcut(bookmark: Bookmark)

  // ---------------------------------------------------------------------------
  // Accessors

  predicate IsShortcut(item: Item) {
    match item
    case Subfolder(_) => false
    case Shortcut(_) => true
  }

  function TakeShortcut(item: Item): Option<Bookmark> {
    match item
    case Subfolder(_) => None
    case Shortcut(b) => Some(b)
  }

  predicate IsSubfolder(item: Item) {
    match item
    case Subfolder(_) => true
    case Shortcut(_) => false
  }

  function TakeSubfolder(item: Item): Option<Folder> {
    match item
    case Subfolder(f) => Some(f)
    case Shortcut(_) => None
  }

  /** Every item is exactly one of the two kinds, and each accessor gives back the payload of its kind. */
  lemma AccessorsAgree(item: Item, b: Bookmark, f: Folder)
    ensures IsShortcut(item) == !IsSubfolder(item)
    ensures TakeShortcut(item) == Some(b) <==> item == Shortcut(b)
    ensures TakeSubfolder(item) == Some(f) <==> item == Subfolder(f)
    ensures TakeShortcut(item).Some? == IsShortcut(item) && TakeSubfolder(item).Some? == IsSubfolder(item)
  {
  }

  // ---------------------------------------------------------------------------
  // Equality

  /** `PartialEq for Folder`: only the title, the creation date and the children (recursively) count. */
  predicate FolderEq(a: Folder, b: Folder) {
    && a.addDate == b.addDate
    && a.title == b.title
    && ItemsEq(a.children, b.children)
  }

  /** `PartialEq for Item`: items of different kinds are never equal. */
  predicate ItemEq(x: Item, y: Item) {
    match (x, y)
    case (Subfolder(f1), Subfolder(f2)) => FolderEq(f1, f2)
    case (Shortcut(b1), Shortcut(b2)) => BookmarkEq(b1, b2)
    case _ => false
  }

  /** Equality of two item lists, as `Vec` compares them: same length, equal at every position. */
  predicate ItemsEq(xs: seq<Item>, ys: seq<Item>) {
    |xs| == |ys| && forall i :: 0 <= i < |xs| ==> ItemEq(xs[i], ys[i])
  }

  /**
   * The part of an item that equality looks at: every field equality ignores is
   * reset to its default, all the way down the tree.
   */
  function ItemKey(x: Item): Item {
    match x
    case Shortcut(b) => Shortcut(Identity(b))
    case Subfolder(f) => Subfolder(FolderKey(f))
  }

  function FolderKey(f: Folder): Folder {
    Folder(f.title, false, f.addDate, "", false, false, ItemsKey(f.children))
  }

  function ItemsKey(xs: seq<Item>): (r: seq<Item>)
    ensures |r| == |xs|
  {
    seq(|xs|, i requires 0 <= i < |xs| => ItemKey(xs[i]))
  }

  /** Two items are equal exactly when their keys are identical. */
  lemma {:induction false} ItemEqIffSameKey(x: Item, y: Item)
    ensures ItemEq(x, y) <==> ItemKey(x) == ItemKey(y)
  {
    match (x, y)
    case (Subfolder(f1), Subfolder(f2)) => FolderEqIffSameKey(f1, f2);
    case (Shortcut(b1), Shortcut(b2)) => BookmarkEqIffSameIdentity(b1, b2);
    case _ =>
  }

  lemma {:induction false} FolderEqIffSameKey(a: Folder, b: Folder)
    ensures FolderEq(a, b) <==> FolderKey(a) == FolderKey(b)
  {
    ItemsEqIffSameKey(a.children, b.children);
  }

  lemma {:induction false} ItemsEqIffSameKey(xs: seq<Item>, ys: seq<Item>)
    ensures ItemsEq(xs, ys) <==> ItemsKey(xs) == ItemsKey(ys)
  {
    if |xs| == |ys| {
      forall i | 0 <= i < |xs| ensures ItemEq(xs[i], ys[i]) <==> ItemsKey(xs)[i] == ItemsKey(ys)[i] {
        ItemEqIffSameKey(xs[i], ys[i]);
      }
      if ItemsEq(xs, ys) {
        assert ItemsKey(xs) == ItemsKey(ys);
      }
    }
  }

  /**
   * Item equality is an equivalence relation; items of different kinds are never
   * equal, and items of one kind are equal exactly when their payloads are.
   */
  lemma ItemEqIsEquivalence(x: Item, y: Item, z: Item)
    ensures ItemEq(x, x)
    ensures ItemEq(x, y) ==> ItemEq(y, x)
    ensures ItemEq(x, y) && ItemEq(y, z) ==> ItemEq(x, z)
    ensures ItemEq(x, y) ==> IsShortcut(x) == IsShortcut(y)
    ensures x.Shortcut? && y.Shortcut? ==> (ItemEq(x, y) <==> BookmarkEq(x.bookmark, y.bookmark))
    ensures x.Subfolder? && y.Subfolder? ==> (ItemEq(x, y) <==> FolderEq(x.folder, y.folder))
  {
    ItemEqIffSameKey(x, x);
    ItemEqIffSameKey(x, y);
    ItemEqIffSameKey(y, x);
    ItemEqIffSameKey(y, z);
    ItemEqIffSameKey(x, z);
  }

  /** Folder equality is an equivalence relation that ignores the display flags and `last_modified`. */
  lemma FolderEqIsEquivalence(a: Folder, b: Folder, c: Folder)
    ensures FolderEq(a, a)
    ensures FolderEq(a, b) ==> FolderEq(b, a)
    ensures FolderEq(a, b) && FolderEq(b, c) ==> FolderEq(a, c)
    ensures FolderEq(a, a.(folded := !a.folded, lastModified := b.lastModified,
                           personalToolbarFolder := !a.personalToolbarFolder,
                           unfiledBookmarksFolder := !a.unfiledBookmarksFolder))
  {
    FolderEqIffSameKey(a, a);
    FolderEqIffSameKey(a, b);
    FolderEqIffSameKey(b, a);
    FolderEqIffSameKey(b, c);
    FolderEqIffSameKey(a, c);
    var a' := a.(folded := !a.folded, lastModified := b.lastModified,
                 personalToolbarFolder := !a.personalToolbarFolder,
                 unfiledBookmarksFolder := !a.unfiledBookmarksFolder);
    FolderEqIffSameKey(a, a');
  }

  /** Item-list equality is an equivalence relation. */
  lemma ItemsEqIsEquivalence(xs: seq<Item>, ys: seq<Item>, zs: seq<Item>)
    ensures ItemsEq(xs, xs)
    ensures ItemsEq(xs, ys) ==> ItemsEq(ys, xs)
    ensures ItemsEq(xs, ys) && ItemsEq(ys, zs) ==> ItemsEq(xs, zs)
  {
    ItemsEqIffSameKey(xs, xs);
    ItemsEqIffSameKey(xs, ys);
    ItemsEqIffSameKey(ys, xs);
    ItemsEqIffSameKey(ys, zs);
    ItemsEqIffSameKey(xs, zs);
  }
}
