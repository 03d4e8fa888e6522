// Names (src/fs.rs): hashed lookup and directory scan, resolving a path down
// from the top-level subvolume, and climbing parent references up to a
// subvolume's root.

module Namespace {
  import opened Bytes
  import opened Disk
  import opened Volumes
  import opened Walks
  import opened FileData

  type Name = seq<byte>

  datatype Entry = Entry(name: Name, loc: Loc, ftype: byte, subvol: bool)

  // ----- Entries, lookup and scan -----

  /** What a raw directory entry of `dir` leads to. A subvolume is a placeholder
      unless a ROOT_REF ties it to this very tree. */
  function EntryOf(v: Volume, dir: Loc, e: DirEntry): (r: Result<Entry>)
    ensures r.Ok? ==> r.value.name == e.name
  {
    if e.location.ty != ROOT_ITEM_KEY then
      Ok(Entry(e.name, Loc(dir.tree, e.location.objectid), e.ftype, false))
    else
      var child := e.location.objectid;
      var link :- GetOf(v, v.root, Key(dir.tree, ROOT_REF_KEY, child));
      if link.None? then Ok(Entry(e.name, Loc(0, 0), FT_DIR, true)) else
        var tree :- TreeOf(v, child);
        Ok(Entry(e.name, Loc(child, tree.rootDirid), FT_DIR, true))
  }

  function Find(es: seq<DirEntry>, name: Name): Option<DirEntry> {
    if es == [] then None
    else if es[0].name == name then Some(es[0])
    else Find(es[1..], name)
  }

  /** Of several entries with one name the first is found. */
  lemma {:induction false} FindIsFirst(es: seq<DirEntry>, name: Name, i: nat)
    requires i < |es| && es[i].name == name && forall j :: 0 <= j < i ==> es[j].name != name
    ensures Find(es, name) == Some(es[i])
  {
    if i > 0 {
      FindIsFirst(es[1..], name, i - 1);
    }
  }

  function LookupOf(v: Volume, dir: Loc, name: Name): Result<Option<Entry>> {
    if IsPlaceholder(dir) then Ok(None) else
      var tree :- TreeOf(v, dir.tree);
      var item :- GetOf(v, tree.bytenr, Key(dir.ino, DIR_ITEM_KEY, v.nameHash(name)));
      if item.None? then Ok(None) else
        var es :- DirEntries(item.value);
        match Find(es, name)
        case None => Ok(None)
        case Some(e) =>
          var entry :- EntryOf(v, dir, e);
          Ok(Some(entry))
  }

  function CollectEntries(acc: seq<DirEntry>, k: Key, d: seq<byte>): Visit<seq<DirEntry>> {
    match DirEntries(d)
    case Ok(es) => Go(acc + es)
    case Err(e) => Fail(acc, e)
  }

  function EntriesFrom(v: Volume, dir: Loc, raw: seq<DirEntry>): (r: Result<seq<Entry>>)
    ensures r.Ok? ==> |r.value| == |raw|
  {
    if raw == [] then Ok([]) else
      var e :- EntryOf(v, dir, raw[0]);
      var rest :- EntriesFrom(v, dir, raw[1..]);
      Ok([e] + rest)
  }

  /** The order of byte strings. */
  predicate Before(a: Name, b: Name) {
    b != [] && (a == [] || a[0] < b[0] || (a[0] == b[0] && Before(a[1..], b[1..])))
  }

  /** A name comes before another when it is a proper beginning of it, or is smaller in
      the first byte in which they differ. */
  lemma {:induction false} BeforeExactly(a: Name, b: Name, n: nat)
    requires n <= |a| && n <= |b| && a[..n] == b[..n]
    requires n == |a| || n == |b| || a[n] != b[n]
    ensures Before(a, b) <==> n < |b| && (n == |a| || a[n] < b[n])
    decreases n
  {
    if n > 0 {
      assert a[0] == a[..n][0] == b[..n][0] == b[0];
      assert a[1..][..n - 1] == a[..n][1..] && b[1..][..n - 1] == b[..n][1..];
      BeforeExactly(a[1..], b[1..], n - 1);
    }
  }

  function Insert(e: Entry, es: seq<Entry>): seq<Entry> {
    if es == [] || !Before(es[0].name, e.name) then [e] + es
    else [es[0]] + Insert(e, es[1..])
  }

  /** The stable sort by name. */
  function SortByName(es: seq<Entry>): seq<Entry> {
    if es == [] then [] else Insert(es[0], SortByName(es[1..]))
  }

  function RawEntriesOf(v: Volume, dir: Loc): Result<seq<DirEntry>> {
    var tree :- TreeOf(v, dir.tree);
    var w := Walk(v, tree.bytenr, Key(dir.ino, DIR_INDEX_KEY, 0), Key(dir.ino, DIR_INDEX_KEY, U64_MAX),
                  CollectEntries, []);
    match w.out
    case Failed(e) => Err(e)
    case _ => Ok(w.acc)
  }

  function ReadDirOf(v: Volume, dir: Loc): Result<seq<Entry>> {
    if IsPlaceholder(dir) then Ok([]) else
      var raw :- RawEntriesOf(v, dir);
      var out :- EntriesFrom(v, dir, raw);
      Ok(SortByName(out))
  }

  // ----- Sorting keeps the entries and orders them -----

  lemma {:induction false} InsertKeeps(e: Entry, es: seq<Entry>)
    ensures multiset(Insert(e, es)) == multiset{e} + multiset(es)
  {
    if es != [] && Before(es[0].name, e.name) {
      InsertKeeps(e, es[1..]);
      assert es == [es[0]] + es[1..];
    }
  }

  lemma {:induction false} SortKeeps(es: seq<Entry>)
    ensures multiset(SortByName(es)) == multiset(es)
    ensures forall e :: e in SortByName(es) <==> e in es
  {
    if es != [] {
      SortKeeps(es[1..]);
      InsertKeeps(es[0], SortByName(es[1..]));
      assert es == [es[0]] + es[1..];
    }
    assert forall e :: e in SortByName(es) <==> e in multiset(SortByName(es));
    assert forall e :: e in es <==> e in multiset(es);
  }

  lemma {:induction false} BeforeTransitive(a: Name, b: Name, c: Name)
    requires !Before(b, a) && !Before(c, b)
    ensures !Before(c, a)
    decreases |a|
  {
    if a != [] && b != [] && c != [] {
      if a[0] == b[0] == c[0] {
        BeforeTransitive(a[1..], b[1..], c[1..]);
      }
    }
  }

  lemma {:induction false} BeforeAsymmetric(a: Name, b: Name)
    requires Before(a, b)
    ensures !Before(b, a)
  {
    if a != [] && a[0] == b[0] {
      BeforeAsymmetric(a[1..], b[1..]);
    }
  }

  ghost predicate SortedByName(es: seq<Entry>) {
    forall i, j :: 0 <= i < j < |es| ==> !Before(es[j].name, es[i].name)
  }

  lemma SortedFirst(e: Entry, es: seq<Entry>)
    requires SortedByName(es) && forall x :: x in es ==> !Before(x.name, e.name)
    ensures SortedByName([e] + es)
  {
    hide Before;
    var all := [e] + es;
    forall i, j | 0 <= i < j < |all|
      ensures !Before(all[j].name, all[i].name)
    {
      assert all[j] == es[j - 1] && all[j] in es;
      assert i > 0 ==> all[i] == es[i - 1];
    }
  }

  lemma SortedRest(es: seq<Entry>)
    requires SortedByName(es) && es != []
    ensures SortedByName(es[1..]) && forall x :: x in es[1..] ==> !Before(x.name, es[0].name)
  {
    hide Before;
    forall x | x in es[1..]
      ensures !Before(x.name, es[0].name)
    {
      var j :| 0 <= j < |es[1..]| && es[1..][j] == x;
      assert x == es[j + 1];
    }
  }

  lemma {:induction false} InsertSorts(e: Entry, es: seq<Entry>)
    requires SortedByName(es)
    ensures SortedByName(Insert(e, es))
  {
    if es != [] {
      hide SortedByName;
      hide Before;
      SortedRest(es);
      if Before(es[0].name, e.name) {
        InsertSorts(e, es[1..]);
        InsertMembers(e, es[1..]);
        BeforeAsymmetric(es[0].name, e.name);
        SortedFirst(es[0], Insert(e, es[1..]));
      } else {
        forall x | x in es
          ensures !Before(x.name, e.name)
        {
          if x != es[0] {
            assert x in es[1..];
            BeforeTransitive(e.name, es[0].name, x.name);
          }
        }
        SortedFirst(e, es);
      }
    }
  }

  lemma InsertMembers(e: Entry, es: seq<Entry>)
    ensures forall x :: x in Insert(e, es) ==> x == e || x in es
  {
    InsertKeeps(e, es);
    assert forall x :: x in Insert(e, es) ==> x in multiset(Insert(e, es));
  }

  /** A listing is the directory's entries, ordered by name. */
  lemma {:induction false} SortSorts(es: seq<Entry>)
    ensures SortedByName(SortByName(es)) && multiset(SortByName(es)) == multiset(es)
  {
    SortKeeps(es);
    if es != [] {
      SortSorts(es[1..]);
      InsertSorts(es[0], SortByName(es[1..]));
    }
  }

  /** What the raw entries lead to, one by one. */
  ghost predicate Led(v: Volume, dir: Loc, raw: seq<DirEntry>, out: seq<Entry>) {
    |out| == |raw| && forall i :: 0 <= i < |raw| ==> EntryOf(v, dir, raw[i]) == Ok(out[i])
  }

  lemma {:induction false} EntriesAreLed(v: Volume, dir: Loc, raw: seq<DirEntry>)
    requires EntriesFrom(v, dir, raw).Ok?
    ensures Led(v, dir, raw, EntriesFrom(v, dir, raw).value)
  {
    hide EntryOf;
    if raw != [] {
      EntriesAreLed(v, dir, raw[1..]);
      var out, rest := EntriesFrom(v, dir, raw).value, EntriesFrom(v, dir, raw[1..]).value;
      forall i | 0 < i < |raw|
        ensures EntryOf(v, dir, raw[i]) == Ok(out[i])
      {
        assert raw[i] == raw[1..][i - 1] && out[i] == rest[i - 1];
      }
    }
  }

  /** A listing holds each of the directory's entries as often as its index does, ordered
      by name. */
  lemma ListingIsSorted(v: Volume, dir: Loc) returns (out: seq<Entry>)
    requires dir.tree != 0 && ReadDirOf(v, dir).Ok?
    ensures RawEntriesOf(v, dir).Ok? && Led(v, dir, RawEntriesOf(v, dir).value, out)
    ensures SortedByName(ReadDirOf(v, dir).value) && multiset(ReadDirOf(v, dir).value) == multiset(out)
  {
    hide RawEntriesOf;
    hide Led;
    out := EntriesFrom(v, dir, RawEntriesOf(v, dir).value).value;
    EntriesAreLed(v, dir, RawEntriesOf(v, dir).value);
    SortSorts(out);
  }

  // ----- Hashed lookup agrees with the scan -----

  /** `it` is one of the DIR_INDEX items a scan of `ino` visits. */
  ghost predicate IndexItem(ino: nat, it: Item) {
    Key(ino, DIR_INDEX_KEY, 0).Leq(it.key) && it.key.Leq(Key(ino, DIR_INDEX_KEY, U64_MAX))
  }

  ghost predicate Holds(it: Item, e: DirEntry) {
    DirEntries(it.data).Ok? && e in DirEntries(it.data).value
  }

  ghost predicate Indexed(items: seq<Item>, ino: nat, e: DirEntry) {
    exists it :: it in items && IndexItem(ino, it) && Holds(it, e)
  }

  /** A directory whose two indexes agree: every DIR_INDEX entry is also in the
      DIR_ITEM of its name's hash, every DIR_ITEM parses and holds only indexed
      entries, and names do not repeat. Names may collide under the hash. */
  ghost predicate ConsistentDir(v: Volume, items: seq<Item>, ino: nat) {
    && (forall e :: Indexed(items, ino, e) ==>
          exists it :: it in items && it.key == Key(ino, DIR_ITEM_KEY, v.nameHash(e.name)) && Holds(it, e))
    && (forall it :: it in items && it.key.objectid == ino && it.key.ty == DIR_ITEM_KEY ==>
          DirEntries(it.data).Ok? && forall e :: Holds(it, e) ==> Indexed(items, ino, e))
    && (forall e, e' :: Indexed(items, ino, e) && Indexed(items, ino, e') && e.name == e'.name ==> e == e')
  }

  ghost predicate HeldBy(items: seq<Item>, e: DirEntry) {
    exists it :: it in items && Holds(it, e)
  }

  lemma HeldByFirst(items: seq<Item>, e: DirEntry)
    requires items != []
    ensures HeldBy(items, e) <==> Holds(items[0], e) || HeldBy(items[1..], e)
  {
    hide Holds;
    assert items[0] in items;
    assert forall it :: it in items <==> it == items[0] || it in items[1..];
  }

  lemma {:induction false} FoldCollects(items: seq<Item>, acc: seq<DirEntry>)
    ensures var w := Fold(items, CollectEntries, acc);
            !w.out.Failed? ==> forall e :: e in w.acc <==> e in acc || HeldBy(items, e)
  {
    if items != [] && DirEntries(items[0].data).Ok? {
      var es := DirEntries(items[0].data).value;
      FoldCollects(items[1..], acc + es);
      forall e
        ensures HeldBy(items, e) <==> e in es || HeldBy(items[1..], e)
      {
        HeldByFirst(items, e);
      }
    }
  }

  lemma {:induction false} FindFinds(es: seq<DirEntry>, name: Name)
    ensures match Find(es, name)
            case Some(e) => e in es && e.name == name
            case None => forall e :: e in es ==> e.name != name
  {
    if es != [] {
      FindFinds(es[1..], name);
    }
  }

  lemma {:induction false} EntriesMap(v: Volume, dir: Loc, raw: seq<DirEntry>)
    requires EntriesFrom(v, dir, raw).Ok?
    ensures forall e :: e in raw ==>
              EntryOf(v, dir, e).Ok? && EntryOf(v, dir, e).value in EntriesFrom(v, dir, raw).value
    ensures forall x :: x in EntriesFrom(v, dir, raw).value ==> exists e :: e in raw && EntryOf(v, dir, e) == Ok(x)
  {
    hide EntryOf;
    if raw != [] {
      EntriesMap(v, dir, raw[1..]);
      assert raw[0] in raw;
      assert forall e :: e in raw <==> e == raw[0] || e in raw[1..];
    }
  }

  /** What a scan gathers is exactly what the index items hold. */
  lemma RawEntriesAreIndexed(v: Volume, dir: Loc, level: nat)
    requires TreeOf(v, dir.tree).Ok? && Tree(v, TreeOf(v, dir.tree).value.bytenr, level)
    requires RawEntriesOf(v, dir).Ok?
    ensures var items := ItemsOf(v, TreeOf(v, dir.tree).value.bytenr, level);
            forall e :: e in RawEntriesOf(v, dir).value <==> Indexed(items, dir.ino, e)
  {
    hide WellFormed;
    hide ItemsOf;
    hide WalkNode;
    hide TreeOf;
    hide Holds;
    var root := TreeOf(v, dir.tree).value.bytenr;
    var min, max := Key(dir.ino, DIR_INDEX_KEY, 0), Key(dir.ino, DIR_INDEX_KEY, U64_MAX);
    var items := ItemsOf(v, root, level);
    WalkIsScan(v, root, level, min, max, CollectEntries, []);
    FoldCollects(InRange(items, min, max), []);
    InRangeMembers(items, min, max);
  }

  /** Whenever a directory can be listed, looking a name up gives exactly the
      listed entry of that name, or none, whatever the hash function. */
  lemma LookupAgreesWithScan(v: Volume, dir: Loc, level: nat, name: Name)
    requires !IsPlaceholder(dir)
    requires TreeOf(v, dir.tree).Ok? && Tree(v, TreeOf(v, dir.tree).value.bytenr, level)
    requires ConsistentDir(v, ItemsOf(v, TreeOf(v, dir.tree).value.bytenr, level), dir.ino)
    requires ReadDirOf(v, dir).Ok?
    ensures LookupOf(v, dir, name).Ok?
    ensures forall x :: x in ReadDirOf(v, dir).value && x.name == name <==> LookupOf(v, dir, name) == Ok(Some(x))
  {
    hide WellFormed;
    hide ItemsOf;
    hide WalkNode;
    hide TreeOf;
    hide GetOf;
    hide EntryOf;
    hide Holds;
    hide RawEntriesOf;
    var root := TreeOf(v, dir.tree).value.bytenr;
    var items := ItemsOf(v, root, level);
    var key := Key(dir.ino, DIR_ITEM_KEY, v.nameHash(name));
    var raw := RawEntriesOf(v, dir).value;
    RawEntriesAreIndexed(v, dir, level);
    EntriesMap(v, dir, raw);
    SortKeeps(EntriesFrom(v, dir, raw).value);
    GetIsLookup(v, root, level, key);
    NamedEntryHashed(v, items, dir.ino, name);
    match GetOf(v, root, key).value {
      case None =>
        assert forall e :: e in raw ==> e.name != name;
      case Some(d) =>
        var it := Item(key, d);
        assert it in items;
        HashedItemDecides(v, items, dir.ino, name, it, raw);
    }
  }

  /** An indexed entry of the name lies in the item of its hash. */
  lemma NamedEntryHashed(v: Volume, items: seq<Item>, ino: nat, name: Name)
    requires ConsistentDir(v, items, ino)
    ensures forall e :: Indexed(items, ino, e) && e.name == name ==>
              exists it :: it in items && it.key == Key(ino, DIR_ITEM_KEY, v.nameHash(name)) && Holds(it, e)
  {
  }

  lemma HashedItemDecides(v: Volume, items: seq<Item>, ino: nat, name: Name, it: Item, raw: seq<DirEntry>)
    requires ConsistentDir(v, items, ino)
    requires it in items && it.key == Key(ino, DIR_ITEM_KEY, v.nameHash(name))
    requires forall it' :: it' in items && it'.key == it.key ==> it' == it
    requires forall e :: e in raw <==> Indexed(items, ino, e)
    ensures DirEntries(it.data).Ok?
    ensures match Find(DirEntries(it.data).value, name)
            case Some(e) => e in raw && e.name == name && forall e' :: e' in raw && e'.name == name ==> e' == e
            case None => forall e :: e in raw ==> e.name != name
  {
    FindFinds(DirEntries(it.data).value, name);
    NamedEntryHashed(v, items, ino, name);
    match Find(DirEntries(it.data).value, name) {
      case Some(e) => assert Holds(it, e);
      case None =>
    }
  }
}
