// What the walks that read trees, inodes and references find, told from the items of
// the tree and their written layouts (src/fs.rs, src/disk.rs).

module TreeLaws {
  import opened Bytes
  import opened Disk
  import opened Volumes
  import opened Walks
  import opened FileData
  import opened Namespace
  import opened Paths

  // ----- Tree roots -----

  lemma {:induction false} FoldLast(items: seq<Item>, acc: Option<seq<byte>>)
    ensures Fold(items, KeepLast, acc)
         == Walked(if items == [] then acc else Some(items[|items| - 1].data), More)
  {
    if items != [] {
      FoldLast(items[1..], Some(items[0].data));
    }
  }

  /** `it` is the item with the greatest offset of its object and type. */
  ghost predicate Greatest(items: seq<Item>, objectid: nat, ty: nat, it: Item) {
    && it in items && it.key.objectid == objectid && it.key.ty == ty
    && forall x :: x in items && x.key.objectid == objectid && x.key.ty == ty ==> x.key.offset <= it.key.offset
  }

  /** And here with the smallest. */
  ghost predicate Smallest(items: seq<Item>, objectid: nat, ty: nat, it: Item) {
    && it in items && it.key.objectid == objectid && it.key.ty == ty
    && forall x :: x in items && x.key.objectid == objectid && x.key.ty == ty ==> it.key.offset <= x.key.offset
  }

  ghost predicate FitItems(items: seq<Item>) {
    forall it :: it in items ==> it.key.Fits()
  }

  /** The items of an object and type are those of its key range, from the smallest to
      the greatest. */
  lemma RangeOfType(items: seq<Item>, objectid: nat, ty: nat)
    requires AscendingItems(items) && FitItems(items)
    ensures var hits := InRange(items, Key(objectid, ty, 0), Key(objectid, ty, U64_MAX));
            && (forall it :: it in hits <==> it in items && it.key.objectid == objectid && it.key.ty == ty)
            && (hits != [] ==>
                  Smallest(items, objectid, ty, hits[0]) && Greatest(items, objectid, ty, hits[|hits| - 1]))
  {
    var min, max := Key(objectid, ty, 0), Key(objectid, ty, U64_MAX);
    var hits := InRange(items, min, max);
    InRangeMembers(items, min, max);
    InRangeAscends(items, min, max);
    if hits != [] {
      FirstAndLast(hits);
    }
  }

  lemma FirstAndLast(hits: seq<Item>)
    requires AscendingItems(hits) && hits != []
    ensures hits[0] in hits && hits[|hits| - 1] in hits
    ensures forall x :: x in hits ==> hits[0].key.Leq(x.key) && x.key.Leq(hits[|hits| - 1].key)
  {
    forall x | x in hits
      ensures hits[0].key.Leq(x.key) && x.key.Leq(hits[|hits| - 1].key)
    {
      var i :| 0 <= i < |hits| && hits[i] == x;
      assert i > 0 ==> hits[0].key.Less(hits[i].key);
      assert i < |hits| - 1 ==> hits[i].key.Less(hits[|hits| - 1].key);
    }
  }

  /** The keys of a tree's items fit their widths: they were read from blocks. */
  lemma {:induction false} LeafFits(n: Node, i: nat)
    ensures FitItems(LeafItems(n, i))
    decreases NrItems(n) - i
  {
    hide NrItems;
    hide KeyAt;
    if i < NrItems(n) && ItemAt(n, i).Ok? {
      LeafFits(n, i + 1);
    }
  }

  lemma {:induction false} TreeFits(v: Volume, logical: nat, level: nat)
    ensures FitItems(ItemsOf(v, logical, level))
    decreases level, 1, 0
  {
    hide NodeOf;
    hide NrItems;
    if NodeOf(v, logical).Ok? {
      var n := NodeOf(v, logical).value;
      if level == 0 {
        LeafFits(n, 0);
      } else {
        ChildrenFit(v, n, 0, level);
      }
    }
  }

  lemma {:induction false} ChildrenFit(v: Volume, n: Node, i: nat, level: nat)
    requires level > 0
    ensures FitItems(ChildItems(v, n, i, level))
    decreases level, 0, NrItems(n) - i
  {
    hide NodeOf;
    hide NrItems;
    hide PtrAt;
    if i < NrItems(n) && PtrAt(n, i).Ok? {
      TreeFits(v, PtrAt(n, i).value.1, level - 1);
      ChildrenFit(v, n, i + 1, level);
    }
  }

  /** A subvolume's tree is where its last ROOT_ITEM says; without one there is none. */
  lemma TreeIsLastRoot(v: Volume, level: nat, id: nat)
    requires Tree(v, v.root, level)
    ensures var items := ItemsOf(v, v.root, level);
            && (forall it :: Greatest(items, id, ROOT_ITEM_KEY, it) ==> TreeOf(v, id) == RootItem(Some(it.data)))
            && ((forall it :: it in items ==> it.key.objectid != id || it.key.ty != 132) ==>
                  TreeOf(v, id) == Err(NoTree))
  {
    hide WellFormed;
    hide ItemsOf;
    hide WalkNode;
    hide RootItem;
    var items := ItemsOf(v, v.root, level);
    var min, max := Key(id, ROOT_ITEM_KEY, 0), Key(id, ROOT_ITEM_KEY, U64_MAX);
    WalkIsScan(v, v.root, level, min, max, KeepLast, None);
    TreeFits(v, v.root, level);
    RangeOfType(items, id, ROOT_ITEM_KEY);
    var hits := InRange(items, min, max);
    FoldLast(hits, None);
    hide Greatest;
    hide AscendingItems;
    hide FitItems;
    hide InRange;
    forall it | Greatest(items, id, ROOT_ITEM_KEY, it)
      ensures TreeOf(v, id) == RootItem(Some(it.data))
    {
      OnlyGreatest(items, id, ROOT_ITEM_KEY, it, hits);
    }
    NoRootItem();
  }

  lemma NoRootItem()
    ensures RootItem(None) == Err(NoTree)
  {
  }

  lemma OnlyGreatest(items: seq<Item>, objectid: nat, ty: nat, it: Item, hits: seq<Item>)
    requires AscendingItems(items) && Greatest(items, objectid, ty, it)
    requires forall x :: x in hits <==> x in items && x.key.objectid == objectid && x.key.ty == ty
    requires hits != [] ==> Greatest(items, objectid, ty, hits[|hits| - 1])
    ensures hits != [] && hits[|hits| - 1] == it
  {
    assert it in hits;
    SameKey(items, it, hits[|hits| - 1]);
  }

  lemma SameKey(items: seq<Item>, a: Item, b: Item)
    requires AscendingItems(items) && a in items && b in items && a.key == b.key
    ensures a == b
  {
    var i :| 0 <= i < |items| && items[i] == a;
    var j :| 0 <= j < |items| && items[j] == b;
    assert i == j;
  }

  /** A written ROOT_ITEM says where its tree starts and which directory is its root. */
  lemma RootItemReadBack(f: RootFields)
    requires f.Fits()
    ensures RootItem(Some(RootBytes(f))) == Ok(TreeRoot(f.bytenr, f.dirid))
  {
    hide U64At;
    hide RootBytes;
    RootLayout(f);
  }

  // ----- Inodes -----

  /** An inode is what its INODE_ITEM holds. */
  lemma InodeIsItem(v: Volume, loc: Loc, level: nat)
    requires loc.tree != 0 && TreeOf(v, loc.tree).Ok? && Tree(v, TreeOf(v, loc.tree).value.bytenr, level)
    ensures var items := ItemsOf(v, TreeOf(v, loc.tree).value.bytenr, level);
            && (forall d :: Item(Key(loc.ino, 1, 0), d) in items ==> InodeOf(v, loc) == InodeAt(d))
            && ((forall it :: it in items ==> it.key != Key(loc.ino, 1, 0)) ==> InodeOf(v, loc) == Err(NoInode))
  {
    hide TreeOf;
    hide Tree;
    hide ItemsOf;
    hide GetOf;
    hide InodeAt;
    GetIsLookup(v, TreeOf(v, loc.tree).value.bytenr, level, Key(loc.ino, INODE_ITEM_KEY, 0));
  }

  /** A subvolume that is not linked here stands as an empty directory. */
  lemma PlaceholderIsEmpty(v: Volume, ino: nat, name: Name)
    ensures var loc := Loc(0, ino);
            && InodeOf(v, loc).Ok? && InodeOf(v, loc).value.IsDir() && InodeOf(v, loc).value.size == 0
            && ReadDirOf(v, loc) == Ok([]) && LookupOf(v, loc, name) == Ok(None)
  {
  }

  // ----- Entries -----

  /** Where a directory entry leads: to an inode of its own tree, or for a subvolume to
      that tree's root directory if a ROOT_REF links it to this very tree, and else to
      the empty stand-in. */
  lemma EntryLeads(v: Volume, level: nat, dir: Loc, e: DirEntry)
    requires Tree(v, v.root, level)
    ensures var child := e.location.objectid;
            var linked := exists d :: Item(Key(dir.tree, 156, child), d) in ItemsOf(v, v.root, level);
            EntryOf(v, dir, e)
            == if e.location.ty != 132 then Ok(Entry(e.name, Loc(dir.tree, child), e.ftype, false))
               else if !linked then Ok(Entry(e.name, Loc(0, 0), 2, true))
               else match TreeOf(v, child)
                    case Ok(root) => Ok(Entry(e.name, Loc(child, root.rootDirid), 2, true))
                    case Err(x) => Err(x)
  {
    hide TreeOf;
    hide Tree;
    hide ItemsOf;
    hide GetOf;
    var key := Key(dir.tree, ROOT_REF_KEY, e.location.objectid);
    GetIsLookup(v, v.root, level, key);
    var items := ItemsOf(v, v.root, level);
    forall it | it in items && it.key == key
      ensures Item(key, it.data) in items
    {
      assert it == Item(key, it.data);
    }
  }

  // ----- What makes a listing succeed -----

  /** A visitor that goes on over good items and fails over others fails a scan exactly
      when there is one of those. */
  lemma {:induction false} FoldSucceeds<A(!new)>(items: seq<Item>, visit: Visitor<A>, acc: A, good: Item -> bool)
    requires forall a, it: Item {:trigger visit(a, it.key, it.data)} ::
               if good(it) then visit(a, it.key, it.data).Go? else visit(a, it.key, it.data).Fail?
    ensures Fold(items, visit, acc).out.Failed? <==> exists it :: it in items && !good(it)
  {
    if items != [] {
      var it := items[0];
      var r := visit(acc, it.key, it.data);
      assert it in items;
      if r.Go? {
        FoldSucceeds(items[1..], visit, r.acc, good);
        assert forall x :: x in items <==> x == it || x in items[1..];
      }
    }
  }

  /** A file's extents can be listed exactly when each of its items parses. */
  lemma ExtentsListed(v: Volume, loc: Loc, level: nat)
    requires TreeOf(v, loc.tree).Ok? && Tree(v, TreeOf(v, loc.tree).value.bytenr, level)
    ensures var items := ItemsOf(v, TreeOf(v, loc.tree).value.bytenr, level);
            ExtentsOf(v, loc).Ok? <==>
              forall it :: it in items && it.key.objectid == loc.ino && it.key.ty == 108 ==>
                ExtentAt(it.key.offset, it.data).Ok?
  {
    hide TreeOf;
    hide Tree;
    hide ItemsOf;
    hide WalkNode;
    hide ExtentAt;
    var root := TreeOf(v, loc.tree).value.bytenr;
    var items := ItemsOf(v, root, level);
    var min, max := Key(loc.ino, EXTENT_DATA_KEY, 0), Key(loc.ino, EXTENT_DATA_KEY, U64_MAX);
    WalkIsScan(v, root, level, min, max, CollectExtent, []);
    TreeFits(v, root, level);
    RangeOfType(items, loc.ino, EXTENT_DATA_KEY);
    FoldSucceeds(InRange(items, min, max), CollectExtent, [], (it: Item) => ExtentAt(it.key.offset, it.data).Ok?);
  }

  lemma {:induction false} EntriesResolve(v: Volume, dir: Loc, raw: seq<DirEntry>)
    ensures EntriesFrom(v, dir, raw).Ok? <==> forall e :: e in raw ==> EntryOf(v, dir, e).Ok?
  {
    hide EntryOf;
    if raw != [] {
      EntriesResolve(v, dir, raw[1..]);
      assert forall e :: e in raw <==> e == raw[0] || e in raw[1..];
    }
  }

  /** A directory can be listed exactly when each of its index items parses and what
      each entry leads to is there. */
  lemma DirectoryListed(v: Volume, dir: Loc, level: nat)
    requires dir.tree != 0 && TreeOf(v, dir.tree).Ok? && Tree(v, TreeOf(v, dir.tree).value.bytenr, level)
    ensures var items := ItemsOf(v, TreeOf(v, dir.tree).value.bytenr, level);
            ReadDirOf(v, dir).Ok? <==>
              && (forall it :: it in items && it.key.objectid == dir.ino && it.key.ty == 96 ==> DirEntries(it.data).Ok?)
              && (forall e :: Indexed(items, dir.ino, e) ==> EntryOf(v, dir, e).Ok?)
  {
    hide TreeOf;
    hide Tree;
    hide ItemsOf;
    hide WalkNode;
    hide DirEntries;
    hide EntryOf;
    hide EntriesFrom;
    hide Indexed;
    var root := TreeOf(v, dir.tree).value.bytenr;
    var items := ItemsOf(v, root, level);
    IndexParses(v, dir, level);
    hide RawEntriesOf;
    if RawEntriesOf(v, dir).Ok? {
      RawEntriesAreIndexed(v, dir, level);
      EntriesResolve(v, dir, RawEntriesOf(v, dir).value);
    }
  }

  lemma IndexParses(v: Volume, dir: Loc, level: nat)
    requires TreeOf(v, dir.tree).Ok? && Tree(v, TreeOf(v, dir.tree).value.bytenr, level)
    ensures var items := ItemsOf(v, TreeOf(v, dir.tree).value.bytenr, level);
            RawEntriesOf(v, dir).Ok? <==>
              forall it :: it in items && it.key.objectid == dir.ino && it.key.ty == 96 ==> DirEntries(it.data).Ok?
  {
    hide TreeOf;
    hide Tree;
    hide ItemsOf;
    hide WalkNode;
    hide DirEntries;
    var root := TreeOf(v, dir.tree).value.bytenr;
    var items := ItemsOf(v, root, level);
    var min, max := Key(dir.ino, DIR_INDEX_KEY, 0), Key(dir.ino, DIR_INDEX_KEY, U64_MAX);
    WalkIsScan(v, root, level, min, max, CollectEntries, []);
    TreeFits(v, root, level);
    RangeOfType(items, dir.ino, DIR_INDEX_KEY);
    FoldSucceeds(InRange(items, min, max), CollectEntries, [], (it: Item) => DirEntries(it.data).Ok?);
  }

  // ----- Parents -----

  /** What an INODE_REF says of its inode's parent. */
  ghost predicate Names(data: seq<byte>, name: Name) {
    U16At(data, 8) == Ok(|name|) && Sub(data, 10, |name|) == Ok(name)
  }

  /** The parent is that of the first INODE_REF; without one there is none. */
  lemma ParentIsFirstRef(v: Volume, level: nat, root: TreeRoot, ino: nat)
    requires Tree(v, root.bytenr, level)
    ensures var items := ItemsOf(v, root.bytenr, level);
            && (forall it, name :: Smallest(items, ino, 12, it) && Names(it.data, name) ==>
                  ParentOf(v, root, ino) == Ok((it.key.offset, name)))
            && ((forall it :: it in items ==> it.key.objectid != ino || it.key.ty != 12) ==>
                  ParentOf(v, root, ino) == Err(NoParentRef))
  {
    hide WellFormed;
    hide ItemsOf;
    hide WalkNode;
    hide U16At;
    var items := ItemsOf(v, root.bytenr, level);
    var min, max := Key(ino, INODE_REF_KEY, 0), Key(ino, INODE_REF_KEY, U64_MAX);
    WalkIsScan(v, root.bytenr, level, min, max, KeepRef, None);
    TreeFits(v, root.bytenr, level);
    RangeOfType(items, ino, INODE_REF_KEY);
    var hits := InRange(items, min, max);
    forall it, name | Smallest(items, ino, 12, it) && Names(it.data, name)
      ensures ParentOf(v, root, ino) == Ok((it.key.offset, name))
    {
      assert it in hits;
      SameKey(items, it, hits[0]);
    }
  }

  /** A written INODE_REF names what was written. */
  lemma RefNames(index: seq<byte>, name: Name, post: seq<byte>)
    requires |index| == 8 && |name| < TWO16
    ensures Names(RefBytes(index, name) + post, name)
  {
    RefRoundTrip(index, name, post);
  }
}
