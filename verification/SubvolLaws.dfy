// The subvolume listing told from the items of the root tree (src/fs.rs): which
// subvolumes there are, what is said of each, and whose references lead up from it.

module SubvolLaws {
  import opened Bytes
  import opened Disk
  import opened Volumes
  import opened Walks
  import opened Namespace
  import opened Paths
  import opened Subvols
  import opened TreeLaws

  const FIRST_ID: nat := 256
  const LAST_ID: nat := 0xFFFF_FFFF_FFFF_FEFF

  /** The root tree holds a ROOT_ITEM of a subvolume's id. */
  ghost predicate IsRoot(items: seq<Item>, id: nat) {
    FIRST_ID <= id <= LAST_ID && exists it :: it in items && it.key.objectid == id && it.key.ty == 132
  }

  /** What a ROOT_BACKREF holds. */
  ghost predicate Says(data: seq<byte>, dirid: nat, name: Name) {
    U64At(data, 0) == Ok(dirid) && U16At(data, 16) == Ok(|name|) && Sub(data, 18, |name|) == Ok(name)
  }

  /** The last ROOT_BACKREF of subvolume `id` names its parent in the key's offset, and
      the directory and name there. */
  ghost predicate RefersTo(items: seq<Item>, id: nat, b: Backref) {
    && FIRST_ID <= id <= LAST_ID
    && exists it :: Greatest(items, id, 144, it) && b.parent == it.key.offset && Says(it.data, b.dirid, b.name)
  }

  /** `id` is the top-level tree, or a root whose reference leads to it in `n` steps. */
  ghost predicate LeadsUp(items: seq<Item>, id: nat, n: nat)
    decreases n
  {
    if n == 0 then id == 5
    else IsRoot(items, id) && exists b :: RefersTo(items, id, b) && LeadsUp(items, b.parent, n - 1)
  }

  // ----- What is gathered -----

  /** The last ROOT_BACKREF of `id`. */
  ghost function LastBackref(hits: seq<Item>, id: nat): Option<Item> {
    if hits == [] then None
    else if LastBackref(hits[1..], id).Some? then LastBackref(hits[1..], id)
    else if hits[0].key.objectid == id && hits[0].key.ty == 144 then Some(hits[0])
    else None
  }

  /** What the ROOT_ITEMs say, in order. */
  ghost function Infos(hits: seq<Item>): seq<RootInfo> {
    if hits == [] then []
    else if hits[0].key.ty == 132 && RootInfoAt(hits[0].key.objectid, hits[0].data).Ok?
    then [RootInfoAt(hits[0].key.objectid, hits[0].data).value] + Infos(hits[1..])
    else Infos(hits[1..])
  }

  ghost predicate RootsParse(hits: seq<Item>) {
    && (forall it :: it in hits && it.key.ty == 132 ==> RootInfoAt(it.key.objectid, it.data).Ok?)
    && (forall it :: it in hits && it.key.ty == 144 ==> BackrefAt(it.key.offset, it.data).Ok?)
  }

  /** `b` is what the gathered references hold for `id` after those in `acc`. */
  ghost predicate Gathers(hits: seq<Item>, acc: map<nat, Backref>, got: map<nat, Backref>, id: nat) {
    match LastBackref(hits, id)
    case Some(it) => id in got && BackrefAt(it.key.offset, it.data) == Ok(got[id])
    case None => (id in got <==> id in acc) && (id in acc ==> got[id] == acc[id])
  }

  lemma {:induction false} FoldGathers(hits: seq<Item>, acc: Found)
    ensures var w := Fold(hits, CollectRoots, acc);
            !w.out.Failed? ==>
              && RootsParse(hits) && w.acc.items == acc.items + Infos(hits)
              && forall id :: Gathers(hits, acc.backrefs, w.acc.backrefs, id)
  {
    hide RootInfoAt;
    hide BackrefAt;
    if hits == [] {
      assert acc.items + [] == acc.items;
    } else {
      var it := hits[0];
      var r := CollectRoots(acc, it.key, it.data);
      if r.Go? {
        FoldGathers(hits[1..], r.acc);
        assert forall x :: x in hits <==> x == it || x in hits[1..];
        GatherOne(hits, acc, r.acc);
      }
    }
  }

  lemma GatherOne(hits: seq<Item>, acc: Found, next: Found)
    requires hits != [] && CollectRoots(acc, hits[0].key, hits[0].data) == Go(next)
    ensures forall more: seq<RootInfo> :: more == Infos(hits[1..]) ==> next.items + more == acc.items + Infos(hits)
    ensures forall id, got :: Gathers(hits[1..], next.backrefs, got, id) ==> Gathers(hits, acc.backrefs, got, id)
  {
    hide RootInfoAt;
    hide BackrefAt;
    assert next.items + Infos(hits[1..]) == acc.items + Infos(hits);
  }

  lemma {:induction false} LastIsGreatest(hits: seq<Item>, id: nat)
    requires AscendingItems(hits)
    ensures match LastBackref(hits, id)
            case Some(it) => Greatest(hits, id, 144, it)
            case None => forall it :: it in hits ==> it.key.objectid != id || it.key.ty != 144
  {
    if hits != [] {
      LastIsGreatest(hits[1..], id);
      assert forall x :: x in hits <==> x == hits[0] || x in hits[1..];
      FirstAndLast(hits);
    }
  }

  /** Two items cannot both be the greatest. */
  lemma OneGreatest(items: seq<Item>, objectid: nat, ty: nat, a: Item, b: Item)
    requires AscendingItems(items) && Greatest(items, objectid, ty, a) && Greatest(items, objectid, ty, b)
    ensures a == b
  {
    SameKey(items, a, b);
  }

  /** A reference that parses says what is gathered of it. */
  lemma BackrefSays(parent: nat, data: seq<byte>, b: Backref)
    requires BackrefAt(parent, data).Ok?
    ensures BackrefAt(parent, data) == Ok(b) <==> b.parent == parent && Says(data, b.dirid, b.name)
  {
    hide U64At;
    hide U16At;
  }

  /** A written ROOT_BACKREF says what was written. */
  lemma WrittenBackref(dirid: nat, sequence: seq<byte>, name: Name, post: seq<byte>)
    requires dirid < TWO64 && |sequence| == 8 && |name| < TWO16
    ensures Says(BackrefBytes(dirid, sequence, name) + post, dirid, name)
  {
    BackrefLayout(dirid, sequence, name, post);
  }

  /** A written ROOT_ITEM tells generation, flags and whether it is a snapshot. */
  lemma WrittenRoot(id: nat, f: RootFields)
    requires f.Fits()
    ensures RootInfoAt(id, RootBytes(f))
         == Ok(RootInfo(id, f.generation, f.flags % 2 == 1, exists i :: 0 <= i < 16 && f.parentUuid[i] != 0))
  {
    hide U64At;
    hide RootBytes;
    RootLayout(f);
    var b := RootBytes(f);
    assert forall i :: 0 <= i < 16 ==> b[263..279][i] == b[263 + i];
    if i :| 263 <= i < 279 && b[i] != 0 {
      assert f.parentUuid[i - 263] != 0;
    }
    if i :| 0 <= i < 16 && f.parentUuid[i] != 0 {
      assert b[263 + i] != 0;
    }
  }

  /** The range that is walked: all of a subvolume's items. */
  lemma RangeOfSubvols(items: seq<Item>, it: Item)
    requires it.key.Fits()
    ensures var min, max := Key(FIRST_FREE_OBJECTID, 0, 0), Key(LAST_FREE_OBJECTID, 255, U64_MAX);
            min.Leq(it.key) && it.key.Leq(max) <==> FIRST_ID <= it.key.objectid <= LAST_ID
  {
  }

  ghost function Hits(items: seq<Item>): seq<Item> {
    InRange(items, Key(FIRST_FREE_OBJECTID, 0, 0), Key(LAST_FREE_OBJECTID, 255, U64_MAX))
  }

  lemma HitsAre(items: seq<Item>)
    requires AscendingItems(items) && FitItems(items)
    ensures AscendingItems(Hits(items))
    ensures forall it :: it in Hits(items) <==> it in items && FIRST_ID <= it.key.objectid <= LAST_ID
  {
    var min, max := Key(FIRST_FREE_OBJECTID, 0, 0), Key(LAST_FREE_OBJECTID, 255, U64_MAX);
    InRangeMembers(items, min, max);
    InRangeAscends(items, min, max);
    forall it | it in items
      ensures it in Hits(items) <==> FIRST_ID <= it.key.objectid <= LAST_ID
    {
      RangeOfSubvols(items, it);
    }
  }

  lemma GreatestOfHits(items: seq<Item>, id: nat, it: Item)
    requires AscendingItems(items) && FitItems(items)
    ensures Greatest(Hits(items), id, 144, it) <==> Greatest(items, id, 144, it) && FIRST_ID <= id <= LAST_ID
  {
    hide Hits;
    HitsAre(items);
  }

  /** The items and references gathered from a well-formed root tree. */
  lemma Gathered(v: Volume, level: nat)
    requires Tree(v, v.root, level) && GatheredOf(v).Ok?
    ensures var items := ItemsOf(v, v.root, level);
            && AscendingItems(items) && FitItems(items) && RootsParse(Hits(items))
            && GatheredOf(v).value.items == Dedup(Infos(Hits(items)))
            && forall id :: Gathers(Hits(items), map[], GatheredOf(v).value.backrefs, id)
  {
    hide WellFormed;
    hide ItemsOf;
    hide WalkNode;
    hide Dedup;
    hide CollectRoots;
    hide RootsParse;
    hide Infos;
    hide Gathers;
    var items := ItemsOf(v, v.root, level);
    var min, max := Key(FIRST_FREE_OBJECTID, 0, 0), Key(LAST_FREE_OBJECTID, 255, U64_MAX);
    WalkIsScan(v, v.root, level, min, max, CollectRoots, NOTHING);
    TreeFits(v, v.root, level);
    FoldGathers(Hits(items), NOTHING);
    assert [] + Infos(Hits(items)) == Infos(Hits(items));
  }

  /** The gathered references are those the root tree holds: child and parent, directory
      and name. */
  lemma BackrefsAreItems(v: Volume, level: nat, id: nat, b: Backref)
    requires Tree(v, v.root, level) && GatheredOf(v).Ok?
    ensures var backrefs := GatheredOf(v).value.backrefs;
            id in backrefs && backrefs[id] == b <==> RefersTo(ItemsOf(v, v.root, level), id, b)
  {
    hide GatheredOf;
    hide ItemsOf;
    hide Tree;
    hide Hits;
    hide BackrefAt;
    hide Says;
    Gathered(v, level);
    var items := ItemsOf(v, v.root, level);
    var backrefs := GatheredOf(v).value.backrefs;
    HitsAre(items);
    LastIsGreatest(Hits(items), id);
    assert Gathers(Hits(items), map[], backrefs, id);
    match LastBackref(Hits(items), id) {
      case Some(it) =>
        GreatestOfHits(items, id, it);
        BackrefSays(it.key.offset, it.data, b);
        forall x | Greatest(items, id, 144, x)
          ensures x == it
        {
          OneGreatest(items, id, 144, x, it);
        }
      case None =>
        forall x | Greatest(items, id, 144, x)
          ensures !(FIRST_ID <= id <= LAST_ID)
        {
          GreatestOfHits(items, id, x);
        }
    }
  }

  lemma {:induction false} InfoIds(hits: seq<Item>)
    requires RootsParse(hits)
    ensures forall id :: id in Ids(Infos(hits)) <==>
                           exists it :: it in hits && it.key.objectid == id && it.key.ty == 132
  {
    hide RootInfoAt;
    hide BackrefAt;
    if hits != [] {
      var it, rest := hits[0], hits[1..];
      assert it in hits;
      InfoIds(rest);
      assert forall x :: x in hits <==> x == it || x in rest;
      if it.key.ty == 132 {
        var info := RootInfoAt(it.key.objectid, it.data).value;
        assert forall r :: r in Infos(hits) <==> r == info || r in Infos(rest);
        assert Ids(Infos(hits)) == {info.id} + Ids(Infos(rest));
      }
    }
  }

  /** The subvolumes gathered are those the root tree holds. */
  lemma RootsAreItems(v: Volume, level: nat, id: nat)
    requires Tree(v, v.root, level) && GatheredOf(v).Ok?
    ensures id in Ids(GatheredOf(v).value.items) <==> IsRoot(ItemsOf(v, v.root, level), id)
  {
    hide GatheredOf;
    hide ItemsOf;
    hide Tree;
    hide Hits;
    hide RootsParse;
    hide Infos;
    Gathered(v, level);
    var items := ItemsOf(v, v.root, level);
    HitsAre(items);
    InfoIds(Hits(items));
    DedupIds(Infos(Hits(items)));
  }

  // ----- The listing -----

  lemma {:induction false} ChainLeadsUp(v: Volume, level: nat, id: nat, n: nat)
    requires Tree(v, v.root, level) && GatheredOf(v).Ok?
    ensures Chain(Ids(GatheredOf(v).value.items), GatheredOf(v).value.backrefs, id, n)
            <==> LeadsUp(ItemsOf(v, v.root, level), id, n)
    decreases n
  {
    hide GatheredOf;
    hide ItemsOf;
    hide Tree;
    hide IsRoot;
    hide RefersTo;
    if n > 0 {
      var items := ItemsOf(v, v.root, level);
      var backrefs := GatheredOf(v).value.backrefs;
      RootsAreItems(v, level, id);
      if id in backrefs {
        BackrefsAreItems(v, level, id, backrefs[id]);
        ChainLeadsUp(v, level, backrefs[id].parent, n - 1);
      }
      forall b | RefersTo(items, id, b)
        ensures id in backrefs && backrefs[id] == b
      {
        BackrefsAreItems(v, level, id, b);
      }
    }
  }

  /** What is said of a subvolume that is listed: what its first ROOT_ITEM holds, and the
      parent that its last reference names. */
  ghost predicate Described(items: seq<Item>, s: Subvol) {
    && (exists it :: Smallest(items, s.info.id, 132, it) && RootInfoAt(s.info.id, it.data) == Ok(s.info))
    && exists b :: RefersTo(items, s.info.id, b) && s.parent == b.parent
  }

  /** The listing told from the root tree: its subvolumes are exactly the roots whose
      references lead up to the top-level tree. */
  lemma ListedExactly(v: Volume, level: nat, id: nat)
    requires Tree(v, v.root, level) && SubvolsOf(v).Ok?
    ensures (exists s :: s in SubvolsOf(v).value && s.info.id == id)
            <==> IsRoot(ItemsOf(v, v.root, level), id) && exists n: nat :: LeadsUp(ItemsOf(v, v.root, level), id, n)
  {
    hide Rounds;
    hide SortById;
    hide Chain;
    hide IsRoot;
    hide LeadsUp;
    SubvolsAreTheReachable(v, level);
    hide GatheredOf;
    hide SubvolsOf;
    hide ItemsOf;
    hide Tree;
    var items := ItemsOf(v, v.root, level);
    var Found(roots, backrefs) := GatheredOf(v).value;
    RootsAreItems(v, level, id);
    forall n: nat
      ensures Chain(Ids(roots), backrefs, id, n) <==> LeadsUp(items, id, n)
    {
      ChainLeadsUp(v, level, id, n);
    }
    if Reachable(Ids(roots), backrefs, id) {
      var n: nat :| Chain(Ids(roots), backrefs, id, n);
      assert LeadsUp(items, id, n);
    }
    if n: nat :| LeadsUp(items, id, n) {
      assert Chain(Ids(roots), backrefs, id, n);
    }
  }

  // ----- What is said of each -----

  /** What a round lists it takes from what was gathered. */
  ghost predicate Told(v: Volume, roots: seq<RootInfo>, backrefs: map<nat, Backref>, out: seq<Subvol>) {
    forall s :: s in out ==>
      s.info in roots && s.info.id in backrefs && s.parent == backrefs[s.info.id].parent
      && WayUp(v, backrefs[s.info.id])
  }

  lemma {:induction false} RoundTells(v: Volume, roots: seq<RootInfo>, backrefs: map<nat, Backref>,
                                      pending: seq<RootInfo>, next: seq<RootInfo>, p: Progress)
    requires Told(v, roots, backrefs, p.out)
    requires forall it :: it in pending || it in next ==> it in roots
    requires Round(v, backrefs, pending, next, p).Ok?
    ensures var (next', p') := Round(v, backrefs, pending, next, p).value;
            Told(v, roots, backrefs, p'.out) && forall it :: it in next' ==> it in roots
    decreases |pending|
  {
    hide PathInTreeOf;
    hide Join;
    hide NonEmpty;
    if pending != [] {
      var it := pending[0];
      assert it in pending;
      if it.id !in backrefs {
        RoundTells(v, roots, backrefs, pending[1..], next, p);
      } else if backrefs[it.id].parent !in p.paths {
        RoundTells(v, roots, backrefs, pending[1..], next + [it], p);
      } else {
        var b := backrefs[it.id];
        var dir := PathInTreeOf(v, b.parent, b.dirid).value;
        var path := Join(NonEmpty([p.paths[b.parent], dir, v.lossy(b.name)]));
        var s := Subvol(it, b.parent, [SLASH] + path);
        assert forall q :: q in p.out + [s] <==> q in p.out || q == s;
        RoundTells(v, roots, backrefs, pending[1..], next, Progress(p.paths[it.id := path], p.out + [s]));
      }
    }
  }

  lemma {:induction false} RoundsTell(v: Volume, roots: seq<RootInfo>, backrefs: map<nat, Backref>,
                                      pending: seq<RootInfo>, p: Progress)
    requires Told(v, roots, backrefs, p.out) && forall it :: it in pending ==> it in roots
    requires Rounds(v, backrefs, pending, p).Ok?
    ensures Told(v, roots, backrefs, Rounds(v, backrefs, pending, p).value.out)
    decreases |pending|
  {
    hide Round;
    hide Told;
    if pending != [] {
      RoundTells(v, roots, backrefs, pending, [], p);
      var (next, p') := Round(v, backrefs, pending, [], p).value;
      if |next| != |pending| {
        RoundsTell(v, roots, backrefs, next, p');
      }
    }
  }

  lemma SmallestFirst(hits: seq<Item>)
    requires AscendingItems(hits) && hits != []
    ensures Smallest(hits, hits[0].key.objectid, hits[0].key.ty, hits[0])
  {
    FirstAndLast(hits);
  }

  lemma SmallestLater(hits: seq<Item>, objectid: nat, ty: nat, x: Item)
    requires hits != [] && (hits[0].key.objectid != objectid || hits[0].key.ty != ty)
    requires Smallest(hits[1..], objectid, ty, x)
    ensures Smallest(hits, objectid, ty, x)
  {
    assert forall y :: y in hits <==> y == hits[0] || y in hits[1..];
  }

  lemma FirstAfter(first: RootInfo, rest: seq<RootInfo>, r: RootInfo)
    requires FirstOfItsId([first] + rest, r)
    ensures if first.id == r.id then first == r else FirstOfItsId(rest, r)
  {
    var all := [first] + rest;
    var i :| 0 <= i < |all| && all[i] == r && forall j :: 0 <= j < i ==> all[j].id != r.id;
    assert all[0] == first;
    if first.id != r.id {
      assert rest[i - 1] == r;
      assert forall j :: 0 <= j < i - 1 ==> rest[j] == all[j + 1];
    }
  }

  /** The first info of its id comes from the item with the smallest offset. */
  lemma {:induction false} FirstInfo(hits: seq<Item>, r: RootInfo) returns (it: Item)
    requires AscendingItems(hits) && RootsParse(hits) && FirstOfItsId(Infos(hits), r)
    ensures Smallest(hits, r.id, 132, it) && RootInfoAt(r.id, it.data) == Ok(r)
  {
    hide RootInfoAt;
    hide BackrefAt;
    hide FirstOfItsId;
    hide Smallest;
    hide AscendingItems;
    NoneFirst(r);
    var first, rest := hits[0], hits[1..];
    assert first in hits && forall x :: x in rest ==> x in hits;
    SmallestFirst(hits);
    AscendingTail(hits);
    if first.key.ty == 132 {
      FirstAfter(RootInfoAt(first.key.objectid, first.data).value, Infos(rest), r);
      if first.key.objectid == r.id {
        return first;
      }
    }
    it := FirstInfo(rest, r);
    SmallestLater(hits, r.id, 132, it);
  }

  lemma NoneFirst(r: RootInfo)
    ensures !FirstOfItsId([], r)
  {
  }

  lemma AscendingTail(hits: seq<Item>)
    requires AscendingItems(hits) && hits != []
    ensures AscendingItems(hits[1..])
  {
  }

  lemma {:induction false} InfosRise(hits: seq<Item>)
    requires AscendingItems(hits)
    ensures RisingIds(Infos(hits))
    ensures hits != [] ==> forall r :: r in Infos(hits) ==> hits[0].key.objectid <= r.id
  {
    hide RootInfoAt;
    if hits != [] {
      InfosRise(hits[1..]);
      if |hits| > 1 {
        assert hits[0].key.Less(hits[1].key);
      }
      var rest := Infos(hits[1..]);
      assert forall j :: 0 <= j < |rest| ==> rest[j] in rest;
    }
  }

  lemma ListedDescribed(v: Volume, level: nat)
    requires Tree(v, v.root, level) && SubvolsOf(v).Ok?
    ensures forall s :: s in SubvolsOf(v).value ==> Described(ItemsOf(v, v.root, level), s)
  {
    hide Rounds;
    hide ItemsOf;
    hide Tree;
    hide Described;
    hide Told;
    Gathered(v, level);
    hide GatheredOf;
    var Found(roots, backrefs) := GatheredOf(v).value;
    assert Told(v, roots, backrefs, START.out) by { NothingTold(v, roots, backrefs); }
    RoundsTell(v, roots, backrefs, roots, START);
    var out := Rounds(v, backrefs, roots, START).value.out;
    SortByIdKeeps(out);
    forall s | s in SubvolsOf(v).value
      ensures Described(ItemsOf(v, v.root, level), s)
    {
      assert s in out;
      ToldDescribed(v, level, roots, backrefs, out, s);
    }
  }

  lemma NothingTold(v: Volume, roots: seq<RootInfo>, backrefs: map<nat, Backref>)
    ensures Told(v, roots, backrefs, [])
  {
  }

  lemma ToldDescribed(v: Volume, level: nat, roots: seq<RootInfo>, backrefs: map<nat, Backref>, out: seq<Subvol>,
                      s: Subvol)
    requires Tree(v, v.root, level) && GatheredOf(v) == Ok(Found(roots, backrefs))
    requires Told(v, roots, backrefs, out) && s in out
    ensures Described(ItemsOf(v, v.root, level), s)
  {
    hide GatheredOf;
    hide ItemsOf;
    hide Tree;
    hide Hits;
    hide RootInfoAt;
    hide RefersTo;
    hide RootsParse;
    hide Infos;
    hide FirstOfItsId;
    Gathered(v, level);
    var items := ItemsOf(v, v.root, level);
    HitsAre(items);
    InfosRise(Hits(items));
    DedupKeepsFirst(Infos(Hits(items)));
    var it := FirstInfo(Hits(items), s.info);
    assert Smallest(items, s.info.id, 132, it);
    BackrefsAreItems(v, level, s.info.id, backrefs[s.info.id]);
  }

  // ----- The printed paths -----

  ghost predicate LiesAt(out: seq<Subvol>, id: nat, path: seq<byte>) {
    (id == 5 && path == []) || exists q :: q in out && q.info.id == id && q.path == path
  }

  /** A subvolume's path begins with a slash; its parts are those of its parent's path,
      then those of the directory it lies in there, then its name. */
  ghost predicate PathGoes(v: Volume, backrefs: map<nat, Backref>, out: seq<Subvol>, s: Subvol) {
    && s.info.id in backrefs && s.path != [] && s.path[0] == 0x2F
    && var b := backrefs[s.info.id];
       && WayUp(v, b)
       && exists above :: LiesAt(out, b.parent, above) && Parts(s.path) == Parts(above) + PartsBelow(v, b)
  }

  ghost function PartsBelow(v: Volume, b: Backref): seq<Name>
    requires WayUp(v, b)
  {
    Parts(PathInTreeOf(v, b.parent, b.dirid).value) + Parts(v.lossy(b.name))
  }

  /** The known paths are those listed, without the slash in front. */
  ghost predicate PathsListed(p: Progress) {
    forall id :: id in p.paths ==>
      (id == 5 && p.paths[id] == []) || LiesAt(p.out, id, [SLASH] + p.paths[id])
  }

  ghost predicate AllGo(v: Volume, backrefs: map<nat, Backref>, out: seq<Subvol>) {
    forall s :: s in out ==> PathGoes(v, backrefs, out, s)
  }

  lemma GoesStill(v: Volume, backrefs: map<nat, Backref>, a: seq<Subvol>, b: seq<Subvol>, s: Subvol)
    requires PathGoes(v, backrefs, a, s) && forall q :: q in a ==> q in b
    ensures PathGoes(v, backrefs, b, s)
  {
    hide WayUp;
    hide PartsBelow;
    hide Parts;
    var above :| LiesAt(a, backrefs[s.info.id].parent, above)
                 && Parts(s.path) == Parts(above) + PartsBelow(v, backrefs[s.info.id]);
    assert LiesAt(b, backrefs[s.info.id].parent, above);
  }

  lemma ComposedParts(v: Volume, b: Backref, above: seq<byte>)
    requires WayUp(v, b)
    ensures var path := Join(NonEmpty([above, PathInTreeOf(v, b.parent, b.dirid).value, v.lossy(b.name)]));
            && Parts([SLASH] + path) == Parts(above) + PartsBelow(v, b)
            && Parts([SLASH] + above) == Parts(above)
  {
    hide PathInTreeOf;
    hide Parts;
    hide Join;
    hide NonEmpty;
    var dir, name := PathInTreeOf(v, b.parent, b.dirid).value, v.lossy(b.name);
    var ps := [above, dir, name];
    PartsOfNonEmpty(ps);
    PartsOfRooted(Join(NonEmpty(ps)));
    PartsOfRooted(above);
    var two: seq<seq<byte>>, one: seq<seq<byte>> := [dir, name], [name];
    assert ps[1..] == two && two[1..] == one && |one[1..]| == 0;
    assert AllParts(one) == Parts(name) + [];
    assert AllParts(two) == Parts(dir) + AllParts(one);
    assert AllParts(ps) == Parts(above) + AllParts(two);
  }

  lemma OneMoreGoes(v: Volume, backrefs: map<nat, Backref>, it: RootInfo, p: Progress)
    requires it.id in backrefs && backrefs[it.id].parent in p.paths && WayUp(v, backrefs[it.id])
    requires PathsListed(p) && AllGo(v, backrefs, p.out)
    ensures var b := backrefs[it.id];
            var dir := PathInTreeOf(v, b.parent, b.dirid).value;
            var path := Join(NonEmpty([p.paths[b.parent], dir, v.lossy(b.name)]));
            var p' := Progress(p.paths[it.id := path], p.out + [Subvol(it, b.parent, [SLASH] + path)]);
            PathsListed(p') && AllGo(v, backrefs, p'.out)
  {
    hide PathInTreeOf;
    hide Parts;
    hide Join;
    hide NonEmpty;
    hide PartsBelow;
    hide PathGoes;
    var b := backrefs[it.id];
    var above := p.paths[b.parent];
    var path := Join(NonEmpty([above, PathInTreeOf(v, b.parent, b.dirid).value, v.lossy(b.name)]));
    var s := Subvol(it, b.parent, [SLASH] + path);
    var out := p.out + [s];
    ComposedParts(v, b, above);
    forall q | q in out
      ensures PathGoes(v, backrefs, out, q)
    {
      if q in p.out {
        GoesStill(v, backrefs, p.out, out, q);
      } else {
        NewGoes(v, backrefs, p, out, s, if b.parent == 5 && above == [] then [] else [SLASH] + above);
      }
    }
    assert s in out;
    ListedStill(p, out, it.id, path);
  }

  lemma ListedStill(p: Progress, out: seq<Subvol>, id: nat, path: seq<byte>)
    requires PathsListed(p) && LiesAt(out, id, [SLASH] + path) && forall q :: q in p.out ==> q in out
    ensures PathsListed(Progress(p.paths[id := path], out))
  {
    forall x | x in p.paths && x != id
      ensures (x == 5 && p.paths[x] == []) || LiesAt(out, x, [SLASH] + p.paths[x])
    {
    }
  }

  lemma NewGoes(v: Volume, backrefs: map<nat, Backref>, p: Progress, out: seq<Subvol>, s: Subvol, at: seq<byte>)
    requires s.info.id in backrefs && backrefs[s.info.id].parent in p.paths && WayUp(v, backrefs[s.info.id])
    requires forall q :: q in p.out ==> q in out
    requires LiesAt(p.out, backrefs[s.info.id].parent, at) && s.path != [] && s.path[0] == SLASH
    requires Parts(s.path) == Parts(at) + PartsBelow(v, backrefs[s.info.id])
    ensures PathGoes(v, backrefs, out, s)
  {
    hide WayUp;
    hide PartsBelow;
    hide Parts;
    assert LiesAt(out, backrefs[s.info.id].parent, at);
  }

  lemma {:induction false} RoundGoes(v: Volume, backrefs: map<nat, Backref>, pending: seq<RootInfo>,
                                     next: seq<RootInfo>, p: Progress)
    requires PathsListed(p) && AllGo(v, backrefs, p.out) && Round(v, backrefs, pending, next, p).Ok?
    ensures var p' := Round(v, backrefs, pending, next, p).value.1;
            PathsListed(p') && AllGo(v, backrefs, p'.out)
    decreases |pending|
  {
    hide PathInTreeOf;
    hide Join;
    hide NonEmpty;
    hide PathsListed;
    hide AllGo;
    if pending != [] {
      var it := pending[0];
      if it.id !in backrefs {
        RoundGoes(v, backrefs, pending[1..], next, p);
      } else if backrefs[it.id].parent !in p.paths {
        RoundGoes(v, backrefs, pending[1..], next + [it], p);
      } else {
        OneMoreGoes(v, backrefs, it, p);
        var b := backrefs[it.id];
        var path := Join(NonEmpty([p.paths[b.parent], PathInTreeOf(v, b.parent, b.dirid).value, v.lossy(b.name)]));
        RoundGoes(v, backrefs, pending[1..], next,
                  Progress(p.paths[it.id := path], p.out + [Subvol(it, b.parent, [SLASH] + path)]));
      }
    }
  }

  lemma {:induction false} RoundsGo(v: Volume, backrefs: map<nat, Backref>, pending: seq<RootInfo>, p: Progress)
    requires PathsListed(p) && AllGo(v, backrefs, p.out) && Rounds(v, backrefs, pending, p).Ok?
    ensures AllGo(v, backrefs, Rounds(v, backrefs, pending, p).value.out)
    decreases |pending|
  {
    hide Round;
    hide PathsListed;
    hide AllGo;
    if pending != [] {
      RoundGoes(v, backrefs, pending, [], p);
      var (next, p') := Round(v, backrefs, pending, [], p).value;
      if |next| != |pending| {
        RoundsGo(v, backrefs, next, p');
      }
    }
  }

  /** Every path that is listed is put together so, matched by entries or not. */
  lemma ListedPathsGo(v: Volume)
    requires SubvolsOf(v).Ok?
    ensures GatheredOf(v).Ok? && AllGo(v, GatheredOf(v).value.backrefs, SubvolsOf(v).value)
  {
    hide GatheredOf;
    hide Rounds;
    hide PathGoes;
    var Found(roots, backrefs) := GatheredOf(v).value;
    RoundsGo(v, backrefs, roots, START);
    var out := Rounds(v, backrefs, roots, START).value.out;
    SortByIdKeeps(out);
    forall s | s in SubvolsOf(v).value
      ensures PathGoes(v, backrefs, SubvolsOf(v).value, s)
    {
      GoesStill(v, backrefs, out, SubvolsOf(v).value, s);
    }
  }

  // ----- When the listing succeeds -----

  /** Gathering fails exactly over an item of a subvolume that does not parse. */
  lemma GatheredExactly(v: Volume, level: nat)
    requires Tree(v, v.root, level)
    ensures GatheredOf(v).Ok? <==> RootsParse(Hits(ItemsOf(v, v.root, level)))
  {
    hide Tree;
    hide ItemsOf;
    hide WalkNode;
    hide RootInfoAt;
    hide BackrefAt;
    var min, max := Key(FIRST_FREE_OBJECTID, 0, 0), Key(LAST_FREE_OBJECTID, 255, U64_MAX);
    WalkIsScan(v, v.root, level, min, max, CollectRoots, NOTHING);
    var hits := Hits(ItemsOf(v, v.root, level));
    FoldSucceeds(hits, CollectRoots, NOTHING, Parses);
  }

  const Parses: Item -> bool := (it: Item) =>
    && (it.key.ty == 132 ==> RootInfoAt(it.key.objectid, it.data).Ok?)
    && (it.key.ty == 144 ==> BackrefAt(it.key.offset, it.data).Ok?)

  /** The way up from where each reachable subvolume is linked can be climbed. */
  ghost predicate WaysUp(v: Volume, ids: set<nat>, backrefs: map<nat, Backref>) {
    forall id :: id in ids && id in backrefs && Reachable(ids, backrefs, id) ==> WayUp(v, backrefs[id])
  }

  ghost predicate WayUp(v: Volume, b: Backref) {
    PathInTreeOf(v, b.parent, b.dirid).Ok?
  }

  lemma KnownReachable(ids: set<nat>, backrefs: map<nat, Backref>, p: Progress, id: nat)
    requires Sound(ids, backrefs, p) && id in p.paths
    ensures Reachable(ids, backrefs, id)
  {
    hide Reachable;
    TopReachable(ids, backrefs);
    if id != FS_TREE_OBJECTID {
      var s :| s in p.out && s.info.id == id;
    }
  }

  lemma {:induction false} RoundSucceeds(v: Volume, ids: set<nat>, backrefs: map<nat, Backref>,
                                         pending: seq<RootInfo>, next: seq<RootInfo>, p: Progress)
    requires Sound(ids, backrefs, p) && Accounted(ids, backrefs, pending, next, p) && WaysUp(v, ids, backrefs)
    ensures Round(v, backrefs, pending, next, p).Ok?
    decreases |pending|
  {
    hide Sound;
    hide Accounted;
    hide PathInTreeOf;
    hide Join;
    hide NonEmpty;
    hide Reachable;
    if pending != [] {
      var it := pending[0];
      AccountedFirst(ids, backrefs, pending, next, p);
      if it.id !in backrefs {
        AccountedDrop(ids, backrefs, pending, next, p);
        RoundSucceeds(v, ids, backrefs, pending[1..], next, p);
      } else if backrefs[it.id].parent !in p.paths {
        AccountedPutOff(ids, backrefs, pending, next, p);
        RoundSucceeds(v, ids, backrefs, pending[1..], next + [it], p);
      } else {
        var b := backrefs[it.id];
        KnownReachable(ids, backrefs, p, b.parent);
        ReachableStep(ids, backrefs, it.id);
        assert WayUp(v, b);
        var path := Join(NonEmpty([p.paths[b.parent], PathInTreeOf(v, b.parent, b.dirid).value, v.lossy(b.name)]));
        var p' := Progress(p.paths[it.id := path], p.out + [Subvol(it, b.parent, [SLASH] + path)]);
        SoundStep(ids, backrefs, it, path, [SLASH] + path, p);
        AccountedResolve(ids, backrefs, pending, next, p, p');
        RoundSucceeds(v, ids, backrefs, pending[1..], next, p');
      }
    }
  }

  lemma {:induction false} RoundsSucceed(v: Volume, ids: set<nat>, backrefs: map<nat, Backref>,
                                         pending: seq<RootInfo>, p: Progress)
    requires Sound(ids, backrefs, p) && Accounted(ids, backrefs, pending, [], p) && WaysUp(v, ids, backrefs)
    ensures Rounds(v, backrefs, pending, p).Ok?
    decreases |pending|
  {
    hide Sound;
    hide Accounted;
    hide Round;
    hide WaysUp;
    if pending != [] {
      RoundSucceeds(v, ids, backrefs, pending, [], p);
      RoundKeeps(v, ids, backrefs, pending, [], p);
      var (next, p') := Round(v, backrefs, pending, [], p).value;
      if |next| != |pending| {
        AccountedSwap(ids, backrefs, next, p');
        RoundsSucceed(v, ids, backrefs, next, p');
      }
    }
  }

  /** The subvolumes can be listed exactly when the items of the root tree parse and the
      way up from where each reachable subvolume is linked can be climbed. Others, without
      a reference or with one that leads nowhere, do not make it fail. */
  lemma ListingSucceeds(v: Volume, level: nat)
    requires Tree(v, v.root, level)
    ensures GatheredOf(v).Ok? <==> RootsParse(Hits(ItemsOf(v, v.root, level)))
    ensures SubvolsOf(v).Ok? <==>
              GatheredOf(v).Ok? && WaysUp(v, Ids(GatheredOf(v).value.items), GatheredOf(v).value.backrefs)
  {
    hide Rounds;
    hide ItemsOf;
    hide Tree;
    hide RootsParse;
    hide Hits;
    hide WayUp;
    hide Reachable;
    hide Told;
    GatheredExactly(v, level);
    if GatheredOf(v).Ok? {
      GatheredDistinct(v, level);
      hide GatheredOf;
      var Found(roots, backrefs) := GatheredOf(v).value;
      var ids := Ids(roots);
      StartAccounted(ids, backrefs, roots);
      if WaysUp(v, ids, backrefs) {
        RoundsSucceed(v, ids, backrefs, roots, START);
      }
      if SubvolsOf(v).Ok? {
        NothingTold(v, roots, backrefs);
        RoundsTell(v, roots, backrefs, roots, START);
        SubvolsAreTheReachable(v, level);
        SortByIdKeeps(Rounds(v, backrefs, roots, START).value.out);
        forall id | id in ids && id in backrefs && Reachable(ids, backrefs, id)
          ensures WayUp(v, backrefs[id])
        {
          var s :| s in SubvolsOf(v).value && s.info.id == id;
          ToldWayUp(v, roots, backrefs, Rounds(v, backrefs, roots, START).value.out, s);
        }
      }
    }
  }

  lemma ToldWayUp(v: Volume, roots: seq<RootInfo>, backrefs: map<nat, Backref>, out: seq<Subvol>, s: Subvol)
    requires Told(v, roots, backrefs, out) && s in out
    ensures s.info.id in backrefs && WayUp(v, backrefs[s.info.id])
  {
    hide WayUp;
  }
}
