// Listing subvolumes (src/fs.rs): gathering root items and back references,
// then resolving paths in rounds until nothing new resolves.
//
// The rounds compute reachability of the back references, and every path they
// print resolves to its subvolume's root directory.

module Subvols {
  import opened Bytes
  import opened Disk
  import opened Volumes
  import opened Walks
  import opened FileData
  import opened Namespace
  import opened Paths

  datatype RootInfo = RootInfo(id: nat, generation: nat, readonly: bool, snapshot: bool)

  datatype Backref = Backref(parent: nat, dirid: nat, name: Name)

  datatype Found = Found(items: seq<RootInfo>, backrefs: map<nat, Backref>)

  datatype Subvol = Subvol(info: RootInfo, parent: nat, path: seq<byte>)

  // ----- Gathering -----

  function RootInfoAt(id: nat, d: seq<byte>): (r: Result<RootInfo>)
    ensures r.Ok? ==> r.value.id == id
  {
    var snapshot := |d| >= 279 && exists i :: 263 <= i < 279 && d[i] != 0;
    var generation :- U64At(d, 160);
    var flags :- U64At(d, 208);
    Ok(RootInfo(id, generation, flags % 2 == 1, snapshot))
  }

  function BackrefAt(parent: nat, d: seq<byte>): Result<Backref> {
    var len :- U16At(d, 16);
    var name :- Sub(d, 18, len);
    // The directory id lies before the name's length.
    Ok(Backref(parent, U64At(d, 0).value, name))
  }

  function CollectRoots(acc: Found, k: Key, d: seq<byte>): Visit<Found> {
    if k.ty == ROOT_ITEM_KEY then
      match RootInfoAt(k.objectid, d)
      case Ok(info) => Go(acc.(items := acc.items + [info]))
      case Err(e) => Fail(acc, e)
    else if k.ty == ROOT_BACKREF_KEY then
      match BackrefAt(k.offset, d)
      case Ok(b) => Go(acc.(backrefs := acc.backrefs[k.objectid := b]))
      case Err(e) => Fail(acc, e)
    else Go(acc)
  }

  const NOTHING := Found([], map[])

  /** Of consecutive items with one id, the first. */
  function Dedup(items: seq<RootInfo>): seq<RootInfo> {
    if |items| <= 1 then items
    else
      var rest := Dedup(items[..|items| - 1]);
      var last := items[|items| - 1];
      if rest != [] && rest[|rest| - 1].id == last.id then rest else rest + [last]
  }

  function GatheredOf(v: Volume): Result<Found> {
    var w := Walk(v, v.root, Key(FIRST_FREE_OBJECTID, 0, 0), Key(LAST_FREE_OBJECTID, 255, U64_MAX),
                  CollectRoots, NOTHING);
    match w.out
    case Failed(e) => Err(e)
    case _ => Ok(Found(Dedup(w.acc.items), w.acc.backrefs))
  }

  // ----- The rounds -----

  /** The paths known so far and the subvolumes listed so far. */
  datatype Progress = Progress(paths: map<nat, seq<byte>>, out: seq<Subvol>)

  const START := Progress(map[FS_TREE_OBJECTID := []], [])

  /** A round over `pending`: what it resolves, and what it puts off. */
  function Round(v: Volume, backrefs: map<nat, Backref>, pending: seq<RootInfo>, next: seq<RootInfo>, p: Progress)
      : (r: Result<(seq<RootInfo>, Progress)>)
    ensures r.Ok? ==> |r.value.0| <= |next| + |pending|
    decreases |pending|
  {
    if pending == [] then Ok((next, p)) else
      var it := pending[0];
      if it.id !in backrefs then Round(v, backrefs, pending[1..], next, p) else
        var b := backrefs[it.id];
        if b.parent !in p.paths then Round(v, backrefs, pending[1..], next + [it], p) else
          var dir :- PathInTreeOf(v, b.parent, b.dirid);
          var path := Join(NonEmpty([p.paths[b.parent], dir, v.lossy(b.name)]));
          Round(v, backrefs, pending[1..], next,
                Progress(p.paths[it.id := path], p.out + [Subvol(it, b.parent, [SLASH] + path)]))
  }

  function Rounds(v: Volume, backrefs: map<nat, Backref>, pending: seq<RootInfo>, p: Progress): Result<Progress>
    decreases |pending|
  {
    if pending == [] then Ok(p) else
      var round :- Round(v, backrefs, pending, [], p);
      if |round.0| == |pending| then Ok(round.1) else Rounds(v, backrefs, round.0, round.1)
  }

  function InsertById(s: Subvol, ss: seq<Subvol>): seq<Subvol> {
    if ss == [] || s.info.id <= ss[0].info.id then [s] + ss else [ss[0]] + InsertById(s, ss[1..])
  }

  function SortById(ss: seq<Subvol>): seq<Subvol> {
    if ss == [] then [] else InsertById(ss[0], SortById(ss[1..]))
  }

  function SubvolsOf(v: Volume): Result<seq<Subvol>> {
    var found :- GatheredOf(v);
    var p :- Rounds(v, found.backrefs, found.items, START);
    Ok(SortById(p.out))
  }

  // ----- Reachability -----

  ghost function Ids(items: seq<RootInfo>): set<nat> {
    set it | it in items :: it.id
  }

  /** `id` is the top-level tree, or a root item whose back reference leads in
      `n` steps to it through root items. */
  ghost predicate Chain(ids: set<nat>, backrefs: map<nat, Backref>, id: nat, n: nat)
    decreases n
  {
    if n == 0 then id == FS_TREE_OBJECTID
    else id in ids && id in backrefs && Chain(ids, backrefs, backrefs[id].parent, n - 1)
  }

  ghost predicate Reachable(ids: set<nat>, backrefs: map<nat, Backref>, id: nat) {
    exists n: nat :: Chain(ids, backrefs, id, n)
  }

  lemma ReachableStep(ids: set<nat>, backrefs: map<nat, Backref>, id: nat)
    requires id in ids && id in backrefs && Reachable(ids, backrefs, backrefs[id].parent)
    ensures Reachable(ids, backrefs, id)
  {
    var n: nat :| Chain(ids, backrefs, backrefs[id].parent, n);
    assert Chain(ids, backrefs, id, n + 1);
  }

  ghost predicate Distinct(items: seq<RootInfo>) {
    forall i, j :: 0 <= i < j < |items| ==> items[i].id != items[j].id
  }

  /** What a round keeps: the known paths are those of the listed subvolumes and
      of the top-level tree, all reachable, none listed twice or still pending. */
  ghost predicate Sound(ids: set<nat>, backrefs: map<nat, Backref>, p: Progress) {
    && FS_TREE_OBJECTID !in ids
    && p.paths.Keys == {FS_TREE_OBJECTID} + (set s | s in p.out :: s.info.id)
    && (forall s :: s in p.out ==> s.info.id in ids && Reachable(ids, backrefs, s.info.id))
    && (forall i, j :: 0 <= i < j < |p.out| ==> p.out[i].info.id != p.out[j].info.id)
  }

  /** Every root item is listed, pending, put off, or without a back reference. */
  ghost predicate Accounted(ids: set<nat>, backrefs: map<nat, Backref>, pending: seq<RootInfo>, next: seq<RootInfo>,
                            p: Progress) {
    && (forall it :: it in pending ==> it.id in ids && it.id !in p.paths)
    && (forall it :: it in next ==> it.id in ids && it.id !in p.paths && it.id in backrefs)
    && (forall id :: id in ids ==>
          id in p.paths || id !in backrefs || InList(pending, id) || InList(next, id))
    && Distinct(pending + next)
  }

  ghost predicate InList(items: seq<RootInfo>, id: nat) {
    exists it :: it in items && it.id == id
  }

  lemma SoundStep(ids: set<nat>, backrefs: map<nat, Backref>, it: RootInfo, path: seq<byte>, printed: seq<byte>,
                  p: Progress)
    requires Sound(ids, backrefs, p)
    requires it.id in ids && it.id in backrefs && it.id !in p.paths && backrefs[it.id].parent in p.paths
    ensures Sound(ids, backrefs,
                  Progress(p.paths[it.id := path], p.out + [Subvol(it, backrefs[it.id].parent, printed)]))
  {
    hide Reachable;
    var s := Subvol(it, backrefs[it.id].parent, printed);
    var out := p.out + [s];
    var parent := backrefs[it.id].parent;
    if parent == FS_TREE_OBJECTID {
      TopReachable(ids, backrefs);
    } else {
      var q :| q in p.out && q.info.id == parent;
    }
    ReachableStep(ids, backrefs, it.id);
    assert forall q :: q in out <==> q in p.out || q == s;
    assert forall i :: 0 <= i < |p.out| ==> p.out[i] in p.out && p.out[i].info.id in p.paths.Keys;
  }

  lemma TopReachable(ids: set<nat>, backrefs: map<nat, Backref>)
    ensures Reachable(ids, backrefs, FS_TREE_OBJECTID)
  {
    assert Chain(ids, backrefs, FS_TREE_OBJECTID, 0);
  }

  /** Leaving out the first pending item, which has no back reference. */
  lemma AccountedDrop(ids: set<nat>, backrefs: map<nat, Backref>, pending: seq<RootInfo>, next: seq<RootInfo>,
                      p: Progress)
    requires pending != [] && Accounted(ids, backrefs, pending, next, p) && pending[0].id !in backrefs
    ensures Accounted(ids, backrefs, pending[1..], next, p)
  {
    assert pending[1..] + next == (pending + next)[1..];
    assert forall it :: it in pending <==> it == pending[0] || it in pending[1..];
    forall id | InList(pending, id) && id != pending[0].id
      ensures InList(pending[1..], id)
    {
      var it :| it in pending && it.id == id;
    }
  }

  lemma AccountedPutOff(ids: set<nat>, backrefs: map<nat, Backref>, pending: seq<RootInfo>, next: seq<RootInfo>,
                        p: Progress)
    requires pending != [] && Accounted(ids, backrefs, pending, next, p) && pending[0].id in backrefs
    ensures Accounted(ids, backrefs, pending[1..], next + [pending[0]], p)
  {
    var it0, next' := pending[0], next + [pending[0]];
    assert forall it :: it in pending <==> it == it0 || it in pending[1..];
    assert forall it :: it in next' <==> it == it0 || it in next;
    forall id | InList(pending, id)
      ensures InList(pending[1..], id) || InList(next', id)
    {
      var it :| it in pending && it.id == id;
      assert it in pending[1..] || it in next';
    }
    forall id | InList(next, id)
      ensures InList(next', id)
    {
      var it :| it in next && it.id == id;
      assert it in next';
    }
    RotateDistinct(pending, next);
  }

  lemma RotateDistinct(pending: seq<RootInfo>, next: seq<RootInfo>)
    requires pending != [] && Distinct(pending + next)
    ensures Distinct(pending[1..] + (next + [pending[0]]))
  {
    var a, b := pending + next, pending[1..] + (next + [pending[0]]);
    assert b == a[1..] + [a[0]];
  }

  lemma AccountedResolve(ids: set<nat>, backrefs: map<nat, Backref>, pending: seq<RootInfo>, next: seq<RootInfo>,
                         p: Progress,
                         p': Progress)
    requires pending != [] && Accounted(ids, backrefs, pending, next, p)
    requires p'.paths.Keys == p.paths.Keys + {pending[0].id}
    ensures Accounted(ids, backrefs, pending[1..], next, p')
  {
    var all := pending + next;
    assert pending[1..] + next == all[1..];
    assert forall it :: it in pending <==> it == pending[0] || it in pending[1..];
    forall it | it in pending[1..] || it in next
      ensures it.id != pending[0].id
    {
      assert it in all[1..];
      var j :| 0 <= j < |all[1..]| && all[1..][j] == it;
      assert all[0].id != all[j + 1].id;
    }
    forall id | InList(pending, id) && id != pending[0].id
      ensures InList(pending[1..], id)
    {
      var it :| it in pending && it.id == id;
    }
  }

  /** A round keeps the books, and when it resolves nothing no parent of what it
      put off is known. */
  lemma {:induction false} RoundKeeps(v: Volume, ids: set<nat>, backrefs: map<nat, Backref>, pending: seq<RootInfo>,
                                      next: seq<RootInfo>, p: Progress)
    requires Sound(ids, backrefs, p) && Accounted(ids, backrefs, pending, next, p)
    requires Round(v, backrefs, pending, next, p).Ok?
    ensures var (next', p') := Round(v, backrefs, pending, next, p).value;
            && Sound(ids, backrefs, p') && Accounted(ids, backrefs, [], next', p')
            && (|next'| == |pending| + |next| ==>
                  p' == p && next' == next + pending
                  && forall it :: it in pending ==> it.id in backrefs && backrefs[it.id].parent !in p.paths)
    decreases |pending|
  {
    hide Sound;
    hide Accounted;
    hide PathInTreeOf;
    hide Join;
    hide NonEmpty;
    if pending == [] {
      assert next + pending == next;
    } else {
      var it := pending[0];
      AccountedFirst(ids, backrefs, pending, next, p);
      if it.id !in backrefs {
        AccountedDrop(ids, backrefs, pending, next, p);
        RoundKeeps(v, ids, backrefs, pending[1..], next, p);
      } else if backrefs[it.id].parent !in p.paths {
        AccountedPutOff(ids, backrefs, pending, next, p);
        RoundKeeps(v, ids, backrefs, pending[1..], next + [it], p);
        assert next + [it] + pending[1..] == next + pending;
      } else {
        var b := backrefs[it.id];
        var path := Join(NonEmpty([p.paths[b.parent], PathInTreeOf(v, b.parent, b.dirid).value, v.lossy(b.name)]));
        var p' := Progress(p.paths[it.id := path], p.out + [Subvol(it, b.parent, [SLASH] + path)]);
        SoundStep(ids, backrefs, it, path, [SLASH] + path, p);
        AccountedResolve(ids, backrefs, pending, next, p, p');
        RoundKeeps(v, ids, backrefs, pending[1..], next, p');
      }
    }
  }

  lemma AccountedFirst(ids: set<nat>, backrefs: map<nat, Backref>, pending: seq<RootInfo>, next: seq<RootInfo>,
                       p: Progress)
    requires pending != [] && Accounted(ids, backrefs, pending, next, p)
    ensures pending[0].id in ids && pending[0].id !in p.paths
  {
    assert pending[0] in pending;
  }

  /** When nothing pending has a known parent, all that is reachable is known. */
  lemma {:induction false} NothingLeft(ids: set<nat>, backrefs: map<nat, Backref>, pending: seq<RootInfo>,
                                       p: Progress, id: nat, n: nat)
    requires Sound(ids, backrefs, p) && Accounted(ids, backrefs, [], pending, p)
    requires forall it :: it in pending ==> it.id in backrefs && backrefs[it.id].parent !in p.paths
    requires Chain(ids, backrefs, id, n)
    ensures id in p.paths
    decreases n
  {
    if n > 0 {
      NothingLeft(ids, backrefs, pending, p, backrefs[id].parent, n - 1);
    }
  }

  /** The listing is exactly the reachable root items, each once. */
  ghost predicate Exact(ids: set<nat>, backrefs: map<nat, Backref>, p: Progress) {
    && Sound(ids, backrefs, p)
    && forall id :: id in ids && Reachable(ids, backrefs, id) ==> id in p.paths
  }

  lemma {:induction false} RoundsExact(v: Volume, ids: set<nat>, backrefs: map<nat, Backref>, pending: seq<RootInfo>,
                                       p: Progress)
    requires Sound(ids, backrefs, p) && Accounted(ids, backrefs, pending, [], p)
    requires Rounds(v, backrefs, pending, p).Ok?
    ensures Exact(ids, backrefs, Rounds(v, backrefs, pending, p).value)
    decreases |pending|
  {
    hide Sound;
    hide Accounted;
    hide Round;
    if pending == [] {
      StuckIsExact(ids, backrefs, [], p);
    } else {
      RoundKeeps(v, ids, backrefs, pending, [], p);
      var (next, p') := Round(v, backrefs, pending, [], p).value;
      assert [] + pending == pending;
      if |next| == |pending| {
        StuckIsExact(ids, backrefs, next, p');
      } else {
        AccountedSwap(ids, backrefs, next, p');
        RoundsExact(v, ids, backrefs, next, p');
      }
    }
  }

  lemma StuckIsExact(ids: set<nat>, backrefs: map<nat, Backref>, pending: seq<RootInfo>, p: Progress)
    requires Sound(ids, backrefs, p) && Accounted(ids, backrefs, [], pending, p)
    requires forall it :: it in pending ==> it.id in backrefs && backrefs[it.id].parent !in p.paths
    ensures Exact(ids, backrefs, p)
  {
    forall id | id in ids && Reachable(ids, backrefs, id)
      ensures id in p.paths
    {
      var n: nat :| Chain(ids, backrefs, id, n);
      NothingLeft(ids, backrefs, pending, p, id, n);
    }
  }

  lemma AccountedSwap(ids: set<nat>, backrefs: map<nat, Backref>, next: seq<RootInfo>, p: Progress)
    requires Accounted(ids, backrefs, [], next, p)
    ensures Accounted(ids, backrefs, next, [], p)
  {
    assert [] + next == next + [];
  }

  // ----- Sorting -----

  lemma {:induction false} InsertByIdKeeps(s: Subvol, ss: seq<Subvol>)
    ensures multiset(InsertById(s, ss)) == multiset{s} + multiset(ss)
  {
    if ss != [] && s.info.id > ss[0].info.id {
      InsertByIdKeeps(s, ss[1..]);
      assert ss == [ss[0]] + ss[1..];
    }
  }

  ghost predicate AscendingIds(ss: seq<Subvol>) {
    forall i, j :: 0 <= i < j < |ss| ==> ss[i].info.id < ss[j].info.id
  }

  lemma AscendingFirst(s: Subvol, ss: seq<Subvol>)
    requires AscendingIds(ss) && forall q :: q in ss ==> s.info.id < q.info.id
    ensures AscendingIds([s] + ss)
  {
    var all := [s] + ss;
    forall i, j | 0 <= i < j < |all|
      ensures all[i].info.id < all[j].info.id
    {
      assert all[j] == ss[j - 1] && all[j] in ss;
      assert i > 0 ==> all[i] == ss[i - 1];
    }
  }

  lemma AscendingRest(ss: seq<Subvol>)
    requires AscendingIds(ss) && ss != []
    ensures AscendingIds(ss[1..]) && forall q :: q in ss[1..] ==> ss[0].info.id < q.info.id
  {
    forall q | q in ss[1..]
      ensures ss[0].info.id < q.info.id
    {
      var j :| 0 <= j < |ss[1..]| && ss[1..][j] == q;
      assert q == ss[j + 1];
    }
  }

  lemma {:induction false} InsertByIdSorts(s: Subvol, ss: seq<Subvol>)
    requires AscendingIds(ss) && forall q :: q in ss ==> q.info.id != s.info.id
    ensures AscendingIds(InsertById(s, ss))
  {
    if ss != [] {
      hide AscendingIds;
      assert ss[0] in ss;
      AscendingRest(ss);
      if s.info.id > ss[0].info.id {
        InsertByIdSorts(s, ss[1..]);
        InsertByIdMembers(s, ss[1..]);
        AscendingFirst(ss[0], InsertById(s, ss[1..]));
      } else {
        forall q | q in ss
          ensures s.info.id < q.info.id
        {
          assert q == ss[0] || q in ss[1..];
        }
        AscendingFirst(s, ss);
      }
    }
  }

  lemma InsertByIdMembers(s: Subvol, ss: seq<Subvol>)
    ensures forall q :: q in InsertById(s, ss) ==> q == s || q in ss
  {
    InsertByIdKeeps(s, ss);
    assert forall q :: q in InsertById(s, ss) ==> q in multiset(InsertById(s, ss));
  }

  lemma {:induction false} SortByIdSorts(ss: seq<Subvol>)
    requires forall i, j :: 0 <= i < j < |ss| ==> ss[i].info.id != ss[j].info.id
    ensures AscendingIds(SortById(ss))
  {
    if ss != [] {
      SortByIdSorts(ss[1..]);
      SortByIdKeeps(ss[1..]);
      forall q | q in SortById(ss[1..])
        ensures q.info.id != ss[0].info.id
      {
        var j :| 0 <= j < |ss[1..]| && ss[1..][j] == q;
        assert ss[j + 1] == q;
      }
      InsertByIdSorts(ss[0], SortById(ss[1..]));
    }
  }

  // ----- The root items of a well-formed root tree -----

  ghost predicate RisingIds(items: seq<RootInfo>) {
    forall i, j :: 0 <= i < j < |items| ==> items[i].id <= items[j].id
  }

  ghost predicate StrictlyRising(items: seq<RootInfo>) {
    forall i, j :: 0 <= i < j < |items| ==> items[i].id < items[j].id
  }

  lemma {:induction false} DedupRises(items: seq<RootInfo>)
    requires RisingIds(items)
    ensures StrictlyRising(Dedup(items))
    ensures items != [] ==> Dedup(items) != [] && Dedup(items)[|Dedup(items)| - 1].id == items[|items| - 1].id
  {
    if |items| > 1 {
      var init := items[..|items| - 1];
      DedupRises(init);
      assert init[|init| - 1] == items[|items| - 2];
    }
  }

  ghost predicate FirstOfItsId(items: seq<RootInfo>, it: RootInfo) {
    exists i :: 0 <= i < |items| && items[i] == it && forall j :: 0 <= j < i ==> items[j].id != it.id
  }

  /** Of several root items with one id, the first is listed. */
  lemma {:induction false} DedupKeepsFirst(items: seq<RootInfo>)
    requires RisingIds(items)
    ensures forall it :: it in Dedup(items) ==> FirstOfItsId(items, it)
  {
    if |items| == 1 {
      assert FirstOfItsId(items, items[0]);
    } else if |items| > 1 {
      var init, last := items[..|items| - 1], items[|items| - 1];
      DedupKeepsFirst(init);
      DedupRises(init);
      forall it | it in Dedup(items)
        ensures FirstOfItsId(items, it)
      {
        if it in Dedup(init) {
          var i :| 0 <= i < |init| && init[i] == it && forall j :: 0 <= j < i ==> init[j].id != it.id;
          assert items[i] == it && forall j :: 0 <= j < i ==> items[j] == init[j];
        } else {
          assert it == last && init[|init| - 1].id != last.id;
          assert forall j :: 0 <= j < |init| ==> init[j].id <= init[|init| - 1].id && items[j] == init[j];
          assert items[|init|] == last;
        }
      }
    }
  }

  lemma IdsAppend(items: seq<RootInfo>, last: RootInfo)
    ensures Ids(items + [last]) == Ids(items) + {last.id}
  {
    assert forall it :: it in items + [last] <==> it in items || it == last;
  }

  lemma {:induction false} DedupIds(items: seq<RootInfo>)
    ensures Ids(Dedup(items)) == Ids(items)
  {
    if |items| > 1 {
      var init, last := items[..|items| - 1], items[|items| - 1];
      DedupIds(init);
      assert items == init + [last];
      IdsAppend(init, last);
      var rest := Dedup(init);
      IdsAppend(rest, last);
      if rest != [] && rest[|rest| - 1].id == last.id {
        assert rest[|rest| - 1] in rest && last.id in Ids(rest);
      }
    }
  }

  /** All gathered ids lie at or below `bound` and in key order. */
  lemma {:induction false} FoldRises(items: seq<Item>, acc: Found, bound: nat)
    requires AscendingItems(items) && forall it :: it in items ==> bound <= it.key.objectid
    requires RisingIds(acc.items) && forall r :: r in acc.items ==> FIRST_FREE_OBJECTID <= r.id <= bound
    requires FIRST_FREE_OBJECTID <= bound
    ensures var f := Fold(items, CollectRoots, acc).acc.items;
            RisingIds(f) && forall r :: r in f ==> FIRST_FREE_OBJECTID <= r.id
    decreases |items|
  {
    hide RootInfoAt;
    hide BackrefAt;
    if items != [] {
      var it, rest := items[0], items[1..];
      assert it in items;
      var r := CollectRoots(acc, it.key, it.data);
      forall x | x in rest
        ensures it.key.objectid <= x.key.objectid
      {
        var j :| 0 <= j < |rest| && rest[j] == x;
        assert items[0].key.Less(items[j + 1].key);
      }
      if r.Go? {
        assert AscendingItems(rest) by {
          assert forall i :: 0 <= i < |rest| ==> rest[i] == items[i + 1];
        }
        FoldRises(rest, r.acc, it.key.objectid);
      }
    }
  }

  /** The ids gathered from a well-formed root tree rise strictly, and none is
      that of the top-level tree. */
  lemma GatheredDistinct(v: Volume, level: nat)
    requires Tree(v, v.root, level) && GatheredOf(v).Ok?
    ensures StrictlyRising(GatheredOf(v).value.items)
    ensures FS_TREE_OBJECTID !in Ids(GatheredOf(v).value.items)
  {
    hide WellFormed;
    hide ItemsOf;
    hide WalkNode;
    hide Dedup;
    hide CollectRoots;
    var min, max := Key(FIRST_FREE_OBJECTID, 0, 0), Key(LAST_FREE_OBJECTID, 255, U64_MAX);
    var items := ItemsOf(v, v.root, level);
    var hits := InRange(items, min, max);
    WalkIsScan(v, v.root, level, min, max, CollectRoots, NOTHING);
    InRangeMembers(items, min, max);
    InRangeAscends(items, min, max);
    FoldRises(hits, NOTHING, FIRST_FREE_OBJECTID);
    var got := Fold(hits, CollectRoots, NOTHING).acc.items;
    DedupRises(got);
    DedupIds(got);
    assert forall id :: id in Ids(got) ==> FIRST_FREE_OBJECTID <= id;
  }

  /** When no path lookup fails, the listing is sorted by id and holds exactly
      once each root item whose chain of back references reaches the top-level
      tree, in whatever order parents and children come. */
  lemma SubvolsAreTheReachable(v: Volume, level: nat)
    requires Tree(v, v.root, level) && SubvolsOf(v).Ok?
    ensures GatheredOf(v).Ok?
    ensures var Found(items, backrefs) := GatheredOf(v).value;
            var out := SubvolsOf(v).value;
            && AscendingIds(out)
            && forall id :: (exists s :: s in out && s.info.id == id)
                 <==> id in Ids(items) && Reachable(Ids(items), backrefs, id)
  {
    hide GatheredOf;
    hide Rounds;
    hide Reachable;
    hide SortById;
    var Found(items, backrefs) := GatheredOf(v).value;
    var ids := Ids(items);
    GatheredDistinct(v, level);
    StartAccounted(ids, backrefs, items);
    RoundsExact(v, ids, backrefs, items, START);
    var p := Rounds(v, backrefs, items, START).value;
    SortByIdSorts(p.out);
    SortByIdKeeps(p.out);
    forall id | id in ids && Reachable(ids, backrefs, id)
      ensures exists s :: s in SortById(p.out) && s.info.id == id
    {
      assert id in p.paths;
      var s :| s in p.out && s.info.id == id;
      assert s in SortById(p.out);
    }
  }

  lemma StartAccounted(ids: set<nat>, backrefs: map<nat, Backref>, items: seq<RootInfo>)
    requires ids == Ids(items) && StrictlyRising(items) && FS_TREE_OBJECTID !in ids
    ensures Sound(ids, backrefs, START) && Accounted(ids, backrefs, items, [], START)
  {
    assert items + [] == items;
    forall id | id in ids
      ensures InList(items, id)
    {
      var it :| it in items && it.id == id;
    }
  }

  // ----- Printed paths lead back -----

  /** A back reference that a directory entry of its parent tree matches, as do the
      parent references from that entry's directory up. */
  ghost predicate BackrefMatches(v: Volume, id: nat, b: Backref) {
    && TreeOf(v, id).Ok? && TreeOf(v, b.parent).Ok?
    && ClimbMatches(v, b.parent, TreeOf(v, b.parent).value, b.dirid, 0)
    && GoodName(v, b.name)
    && Leads(v, Loc(b.parent, b.dirid), [b.name], Loc(id, TreeOf(v, id).value.rootDirid))
  }

  /** The back references from `id` lead in `n` steps to the top-level tree, and
      each of them is matched. */
  ghost predicate ChainMatches(v: Volume, backrefs: map<nat, Backref>, id: nat, n: nat)
    decreases n
  {
    if n == 0 then id == FS_TREE_OBJECTID
    else id in backrefs && BackrefMatches(v, id, backrefs[id]) && ChainMatches(v, backrefs, backrefs[id].parent, n - 1)
  }

  /** Nothing on the way up from `id` is damaged or oddly named; what other
      subvolumes look like does not matter. */
  ghost predicate Matched(v: Volume, backrefs: map<nat, Backref>, id: nat) {
    exists n: nat :: ChainMatches(v, backrefs, id, n)
  }

  lemma MatchedParent(v: Volume, backrefs: map<nat, Backref>, id: nat)
    requires Matched(v, backrefs, id) && id != FS_TREE_OBJECTID
    ensures id in backrefs && BackrefMatches(v, id, backrefs[id]) && Matched(v, backrefs, backrefs[id].parent)
  {
    hide BackrefMatches;
    var n: nat :| ChainMatches(v, backrefs, id, n);
    assert ChainMatches(v, backrefs, backrefs[id].parent, n - 1);
  }

  /** The path leads from the top-level root to the tree's root directory. */
  ghost predicate LeadsToTree(v: Volume, path: seq<byte>, id: nat) {
    && RootOf(v).Ok? && TreeOf(v, id).Ok?
    && Leads(v, RootOf(v).value, Parts(path), Loc(id, TreeOf(v, id).value.rootDirid))
  }

  ghost predicate AllLead(v: Volume, backrefs: map<nat, Backref>, p: Progress) {
    && (forall id :: id in p.paths && Matched(v, backrefs, id) ==> LeadsToTree(v, p.paths[id], id))
    && (forall s :: s in p.out && Matched(v, backrefs, s.info.id) ==>
          exists path :: s.path == [SLASH] + path && LeadsToTree(v, path, s.info.id))
  }

  /** None of the items is the top-level tree. */
  ghost predicate AllBelow(items: seq<RootInfo>) {
    forall it :: it in items ==> it.id != FS_TREE_OBJECTID
  }

  lemma PathOfChild(v: Volume, above: seq<byte>, dir: seq<byte>, b: Backref, id: nat)
    requires LeadsToTree(v, above, b.parent) && BackrefMatches(v, id, b)
    requires PathInTreeOf(v, b.parent, b.dirid) == Ok(dir)
    ensures LeadsToTree(v, Join(NonEmpty([above, dir, v.lossy(b.name)])), id)
  {
    hide TreeOf;
    hide Leads;
    hide Join;
    hide NonEmpty;
    hide PathInTreeOf;
    hide RootOf;
    hide ClimbMatches;
    var ps := [above, dir, b.name];
    var top := RootOf(v).value;
    var parentRoot := Loc(b.parent, TreeOf(v, b.parent).value.rootDirid);
    PathInTreeLeadsBack(v, b.parent, b.dirid);
    PartsOfNonEmpty(ps);
    PartsOfThree(above, dir, b.name);
    LeadsConcat(v, top, Parts(above), parentRoot, Parts(dir), Loc(b.parent, b.dirid));
    LeadsConcat(v, top, Parts(above) + Parts(dir), Loc(b.parent, b.dirid), [b.name],
                Loc(id, TreeOf(v, id).value.rootDirid));
  }

  lemma PartsOfThree(a: seq<byte>, b: seq<byte>, name: Name)
    requires name != [] && name != DOT && forall x :: x in name ==> !IsSeparator(x)
    ensures AllParts([a, b, name]) == Parts(a) + Parts(b) + [name]
  {
    PartsOfName(name, []);
    assert [] + name == name;
    var ps := [a, b, name];
    assert ps[1..] == [b, name] && [b, name][1..] == [name] && [name][1..] == [];
    assert AllParts([name]) == [name];
    assert AllParts([b, name]) == Parts(b) + [name];
  }

  lemma {:induction false} RoundLeads(v: Volume, backrefs: map<nat, Backref>, pending: seq<RootInfo>,
                                      next: seq<RootInfo>, p: Progress)
    requires AllLead(v, backrefs, p) && AllBelow(pending) && AllBelow(next)
    requires Round(v, backrefs, pending, next, p).Ok?
    ensures AllLead(v, backrefs, Round(v, backrefs, pending, next, p).value.1)
    ensures AllBelow(Round(v, backrefs, pending, next, p).value.0)
    decreases |pending|
  {
    hide AllLead;
    hide PathInTreeOf;
    hide Join;
    hide NonEmpty;
    if pending != [] {
      var it := pending[0];
      assert it in pending && AllBelow(pending[1..]);
      if it.id !in backrefs {
        RoundLeads(v, backrefs, pending[1..], next, p);
      } else if backrefs[it.id].parent !in p.paths {
        RoundLeads(v, backrefs, pending[1..], next + [it], p);
      } else {
        var b := backrefs[it.id];
        var dir := PathInTreeOf(v, b.parent, b.dirid).value;
        var path := Join(NonEmpty([p.paths[b.parent], dir, v.lossy(b.name)]));
        LeadsStep(v, backrefs, it, dir, path, p);
        RoundLeads(v, backrefs, pending[1..], next,
                   Progress(p.paths[it.id := path], p.out + [Subvol(it, b.parent, [SLASH] + path)]));
      }
    }
  }

  lemma LeadsStep(v: Volume, backrefs: map<nat, Backref>, it: RootInfo, dir: seq<byte>, path: seq<byte>, p: Progress)
    requires AllLead(v, backrefs, p) && it.id != FS_TREE_OBJECTID && it.id in backrefs
    requires backrefs[it.id].parent in p.paths
    requires PathInTreeOf(v, backrefs[it.id].parent, backrefs[it.id].dirid) == Ok(dir)
    requires path == Join(NonEmpty([p.paths[backrefs[it.id].parent], dir, v.lossy(backrefs[it.id].name)]))
    ensures AllLead(v, backrefs, Progress(p.paths[it.id := path],
                                          p.out + [Subvol(it, backrefs[it.id].parent, [SLASH] + path)]))
  {
    hide LeadsToTree;
    hide BackrefMatches;
    hide Matched;
    hide PathInTreeOf;
    hide Join;
    hide NonEmpty;
    var b := backrefs[it.id];
    var s := Subvol(it, b.parent, [SLASH] + path);
    if Matched(v, backrefs, it.id) {
      MatchedParent(v, backrefs, it.id);
      PathOfChild(v, p.paths[b.parent], dir, b, it.id);
    }
    assert forall q :: q in p.out + [s] <==> q in p.out || q == s;
  }

  lemma {:induction false} RoundsLead(v: Volume, backrefs: map<nat, Backref>, pending: seq<RootInfo>, p: Progress)
    requires AllLead(v, backrefs, p) && AllBelow(pending)
    requires Rounds(v, backrefs, pending, p).Ok?
    ensures AllLead(v, backrefs, Rounds(v, backrefs, pending, p).value)
    decreases |pending|
  {
    hide AllLead;
    if pending != [] {
      RoundLeads(v, backrefs, pending, [], p);
      var (next, p') := Round(v, backrefs, pending, [], p).value;
      if |next| != |pending| {
        RoundsLead(v, backrefs, next, p');
      }
    }
  }

  /** Whatever the root tree looks like, the gathered items are not the top-level
      tree: the walk shows only keys of the range. */
  lemma GatheredBelow(v: Volume)
    requires GatheredOf(v).Ok?
    ensures AllBelow(GatheredOf(v).value.items)
  {
    hide WalkNode;
    hide RootInfoAt;
    hide BackrefAt;
    hide Dedup;
    var min, max := Key(FIRST_FREE_OBJECTID, 0, 0), Key(LAST_FREE_OBJECTID, 255, U64_MAX);
    var kept := (acc: Found) => AllBelow(acc.items);
    WalkKeeps(v, v.root, min, max, CollectRoots, NOTHING, 0, None, kept);
    var items := Walk(v, v.root, min, max, CollectRoots, NOTHING).acc.items;
    DedupIds(items);
    forall it | it in Dedup(items)
      ensures it.id != FS_TREE_OBJECTID
    {
      assert it.id in Ids(Dedup(items));
    }
  }

  /** Every printed path whose way up is matched resolves to the root directory of
      the subvolume it was printed for. */
  lemma PrintedPathsResolve(v: Volume)
    requires SubvolsOf(v).Ok? && RootOf(v).Ok?
    ensures forall s :: s in SubvolsOf(v).value && Matched(v, GatheredOf(v).value.backrefs, s.info.id) ==>
              TreeOf(v, s.info.id).Ok?
              && ResolveOf(v, s.path) == Ok(Loc(s.info.id, TreeOf(v, s.info.id).value.rootDirid))
  {
    hide GatheredOf;
    hide Rounds;
    hide TreeOf;
    hide ResolveOf;
    hide Leads;
    hide Matched;
    var Found(items, backrefs) := GatheredOf(v).value;
    GatheredBelow(v);
    StartLeads(v, backrefs);
    RoundsLead(v, backrefs, items, START);
    var out := Rounds(v, backrefs, items, START).value.out;
    SortByIdKeeps(out);
    forall s | s in SubvolsOf(v).value && Matched(v, backrefs, s.info.id)
      ensures TreeOf(v, s.info.id).Ok?
      ensures ResolveOf(v, s.path) == Ok(Loc(s.info.id, TreeOf(v, s.info.id).value.rootDirid))
    {
      assert s in out;
      var path :| s.path == [SLASH] + path && LeadsToTree(v, path, s.info.id);
      PathResolves(v, path, Loc(s.info.id, TreeOf(v, s.info.id).value.rootDirid));
    }
  }

  lemma StartLeads(v: Volume, backrefs: map<nat, Backref>)
    requires RootOf(v).Ok?
    ensures AllLead(v, backrefs, START)
  {
    hide TreeOf;
    LeadsNowhere(v, RootOf(v).value);
    assert Parts([]) == [];
  }

  lemma {:induction false} SortByIdKeeps(ss: seq<Subvol>)
    ensures multiset(SortById(ss)) == multiset(ss)
    ensures forall s :: s in SortById(ss) <==> s in ss
  {
    if ss != [] {
      SortByIdKeeps(ss[1..]);
      InsertByIdKeeps(ss[0], SortById(ss[1..]));
      assert ss == [ss[0]] + ss[1..];
    }
    assert forall s :: s in SortById(ss) <==> s in multiset(SortById(ss));
    assert forall s :: s in ss <==> s in multiset(ss);
  }
}
