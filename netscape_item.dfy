/**
 * `NetscapeItem`, an earlier twin of `Item` with the same two kinds, the same
 * dispatcher and the same equality.
 */
module NetscapeItems {
  import opened Options
  import opened Dom
  import B = Bookmarks
  import I = Items
  import F = Folders

  datatype NetscapeItem = Subfolder(folder: I.Folder) | Shortcut(bookmark: B.Bookmark)

  /** `NetscapeItem::from_node`: the bookmark mapper first, then the folder mapper. */
  function NetscapeItemOf(sibs: seq<Node>, pos: nat): Option<NetscapeItem>
    requires pos < |sibs|
  {
    match B.BookmarkOf(sibs[pos])
    case Some(b) => Some(Shortcut(b))
    case None =>
      match F.FolderOf(sibs, pos)
      case Some(f) => Some(Subfolder(f))
      case None => None
  }

  /** `PartialEq for NetscapeItem`: kinds must agree, then payloads are compared. */
  predicate NetscapeItemEq(x: NetscapeItem, y: NetscapeItem) {
    match (x, y)
    case (Subfolder(f1), Subfolder(f2)) => I.FolderEq(f1, f2)
    case (Shortcut(b1), Shortcut(b2)) => B.BookmarkEq(b1, b2)
    case _ => false
  }

  /** The renaming of the constructors onto those of `Item`. */
  function ToItem(x: NetscapeItem): (r: I.Item)
    ensures r.Shortcut? <==> x.Shortcut?
  {
    match x
    case Subfolder(f) => I.Subfolder(f)
    case Shortcut(b) => I.Shortcut(b)
  }

  function FromItem(x: I.Item): NetscapeItem {
    match x
    case Subfolder(f) => Subfolder(f)
    case Shortcut(b) => Shortcut(b)
  }

  /** The renaming is a bijection. */
  lemma RenamingRoundTrips(x: NetscapeItem, y: I.Item)
    ensures FromItem(ToItem(x)) == x
    ensures ToItem(FromItem(y)) == y
  {
  }

  /** On every node the twin dispatcher gives what `Item`'s gives, renamed. */
  lemma DispatchersAgree(sibs: seq<Node>, pos: nat)
    requires pos < |sibs|
    ensures NetscapeItemOf(sibs, pos).None? <==> F.ItemOf(sibs, pos).None?
    ensures NetscapeItemOf(sibs, pos).Some? ==> ToItem(NetscapeItemOf(sibs, pos).value) == F.ItemOf(sibs, pos).value
  {
  }

  /**
   * A successful bookmark mapping gives a shortcut; otherwise a successful
   * folder mapping gives a subfolder; nothing exactly when both fail.
   */
  lemma DispatchOrder(sibs: seq<Node>, pos: nat)
    requires pos < |sibs|
    ensures B.BookmarkOf(sibs[pos]).Some? ==> NetscapeItemOf(sibs, pos) == Some(Shortcut(B.BookmarkOf(sibs[pos]).value))
    ensures B.BookmarkOf(sibs[pos]).None? && F.FolderOf(sibs, pos).Some? ==>
              NetscapeItemOf(sibs, pos) == Some(Subfolder(F.FolderOf(sibs, pos).value))
    ensures NetscapeItemOf(sibs, pos).None? <==> B.BookmarkOf(sibs[pos]).None? && F.FolderOf(sibs, pos).None?
    ensures NetscapeItemOf(sibs, pos).Some? <==> F.Mappable(sibs[pos])
  {
    DispatchersAgree(sibs, pos);
    F.DispatchOrder(sibs, pos);
  }

  /**
   * The twin equality is `Item` equality under the renaming, so it is an
   * equivalence relation, never relates different kinds, and compares the
   * payloads of one kind.
   */
  lemma EqualityAgrees(x: NetscapeItem, y: NetscapeItem, z: NetscapeItem)
    ensures NetscapeItemEq(x, y) <==> I.ItemEq(ToItem(x), ToItem(y))
    ensures NetscapeItemEq(x, x)
    ensures NetscapeItemEq(x, y) ==> NetscapeItemEq(y, x)
    ensures NetscapeItemEq(x, y) && NetscapeItemEq(y, z) ==> NetscapeItemEq(x, z)
    ensures x.Shortcut? != y.Shortcut? ==> !NetscapeItemEq(x, y)
    ensures x.Shortcut? && y.Shortcut? ==> (NetscapeItemEq(x, y) <==> B.BookmarkEq(x.bookmark, y.bookmark))
    ensures x.Subfolder? && y.Subfolder? ==> (NetscapeItemEq(x, y) <==> I.FolderEq(x.folder, y.folder))
  {
    I.ItemEqIsEquivalence(ToItem(x), ToItem(y), ToItem(z));
    I.ItemEqIsEquivalence(ToItem(y), ToItem(x), ToItem(z));
  }
}
