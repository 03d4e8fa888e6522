// The filesystem reader (src/fs.rs) with its three caches: tree blocks, tree
// roots and the last decompressed extent. Every operation is proved to return
// what the uncached functions say, after any history of calls; the extent cache
// appears in `ReadRange` as the state that `FileLaws` proves invisible.

module Reader {
  import opened Bytes
  import opened Disk
  import opened Dev
  import opened Decompress
  import opened Volumes
  import opened Walks
  import opened FileData
  import opened Namespace
  import opened Paths
  import opened Subvols

  const MAX_NODES: nat := 8192
  const MAX_TARGET: nat := 4096

  /** Every device of the volume is there, and stands on what the volume says. */
  ghost predicate Wired(v: Volume, devs: map<nat, Device>, backings: set<Backing>) {
    forall id :: id in v.devs ==> id in devs && devs[id].backing in backings && devs[id].backing.disk == v.devs[id]
  }

  class Fs {
    const v: Volume
    const devs: map<nat, Device>
    /** What the devices stand on, whose schedules reading uses up. */
    const backings: set<Backing>
    var nodes: map<nat, Node>
    var roots: map<nat, TreeRoot>
    var lastExtent: Cache

    /** Cached blocks and roots are those an uncached read gives. */
    ghost predicate Valid()
      reads this
    {
      && Wired(v, devs, backings)
      && |nodes| <= MAX_NODES
      && (forall a :: a in nodes ==> NodeOf(v, a) == Ok(nodes[a]))
      && (forall id :: id in roots ==> TreeOf(v, id) == Ok(roots[id]))
      && !lastExtent.Off?
    }

    constructor (v: Volume, devs: map<nat, Device>)
      requires forall id :: id in v.devs ==> id in devs && devs[id].backing.disk == v.devs[id]
      ensures Valid() && this.v == v && this.devs == devs && lastExtent == Empty
      ensures forall b :: b in backings ==> exists id :: id in devs && devs[id].backing == b
    {
      this.v, this.devs := v, devs;
      backings := set id | id in devs :: devs[id].backing;
      nodes, roots, lastExtent := map[], map[], Empty;
    }

    method ReadLogical(logical: nat, len: nat) returns (r: Result<seq<byte>>)
      requires Valid()
      modifies backings
      ensures Valid() && r == LogicalBytes(v, logical, len)
    {
      hide Mirrors;
      hide ReadOf;
      var lastErr := Unreadable;
      var ms :- Mirrors(v, logical, len);
      MirrorsAreDevices(v, logical, len);
      for i := 0 to |ms|
        invariant Valid()
        invariant FirstRead(ms, len, Unreadable) == FirstRead(ms[i..], len, lastErr)
      {
        assert ms[i..][1..] == ms[i + 1..] && ms[i] in ms;
        var read := devs[ms[i].devid].Read(ms[i].phys, len);
        match read {
          case Ok(b) => return Ok(b);
          case Err(e) => lastErr := e;
        }
      }
      return Err(lastErr);
    }

    /** Node cache and mirror fallback are invisible. */
    method ReadNode(logical: nat) returns (r: Result<Node>)
      requires Valid()
      modifies this`nodes, backings
      ensures Valid() && r == NodeOf(v, logical)
    {
      hide Mirrors;
      hide U64At;
      hide U32At;
      if logical in nodes {
        return Ok(nodes[logical]);
      }
      var lastErr := Unreadable;
      var ms :- Mirrors(v, logical, v.nodesize);
      MirrorsAreDevices(v, logical, v.nodesize);
      for i := 0 to |ms|
        invariant Valid()
        invariant FirstNode(v, logical, ms, Unreadable) == FirstNode(v, logical, ms[i..], lastErr)
      {
        assert ms[i..][1..] == ms[i + 1..] && ms[i] in ms;
        var read := devs[ms[i].devid].Read(ms[i].phys, v.nodesize);
        if read.Err? {
          lastErr := read.error;
          continue;
        }
        var buf := read.value;
        if U64At(buf, 48).value != logical {
          lastErr := WrongAddress;
          continue;
        }
        if v.csumType == 0 && U32At(buf, 0).value != v.crc(buf[32..]) {
          lastErr := BadChecksum;
          continue;
        }
        var maxItems := (v.nodesize - HEADER_SIZE) / 25;
        if NrItems(buf) > maxItems {
          return Err(TooManyItems);
        }
        Remember(logical, buf);
        return Ok(buf);
      }
      return Err(lastErr);
    }

    /** Caches a block; a full cache is emptied first. */
    method Remember(logical: nat, n: Node)
      requires Valid() && NodeOf(v, logical) == Ok(n)
      modifies this`nodes
      ensures Valid() && logical in nodes
    {
      hide NodeOf;
      if |nodes| >= MAX_NODES {
        nodes := map[];
      }
      nodes := nodes[logical := n];
    }

    method VisitLeaf<A>(n: Node, min: Key, max: Key, visit: Visitor<A>, acc: A) returns (w: Walked<A>)
      ensures w == WalkItems(n, 0, min, max, visit, acc)
    {
      var a := acc;
      for i := 0 to NrItems(n)
        invariant WalkItems(n, 0, min, max, visit, acc) == WalkItems(n, i, min, max, visit, a)
      {
        var item := ItemAt(n, i);
        if item.Err? {
          return Walked(a, Failed(item.error));
        }
        var (key, data) := item.value;
        if key.Less(min) {
          continue;
        }
        if max.Less(key) {
          return Walked(a, Done);
        }
        match visit(a, key, data) {
          case Go(next) => a := next;
          case Stop(next) => return Walked(next, Done);
          case Fail(next, e) => return Walked(next, Failed(e));
        }
      }
      return Walked(a, More);
    }

    method VisitNode<A>(logical: nat, min: Key, max: Key, visit: Visitor<A>, acc: A, depth: nat, level: Option<nat>)
        returns (w: Walked<A>)
      requires Valid()
      modifies this`nodes, backings
      ensures Valid() && w == WalkNode(v, logical, min, max, visit, acc, depth, level)
      decreases if depth > MAX_DEPTH then 0 else MAX_DEPTH + 1 - depth
    {
      hide PtrAt;
      hide NrItems;
      hide NodeOf;
      hide Level;
      hide WalkItems;
      if depth > MAX_DEPTH {
        return Walked(acc, Failed(TooDeep));
      }
      var read := ReadNode(logical);
      if read.Err? {
        return Walked(acc, Failed(read.error));
      }
      var n := read.value;
      if level.Some? && Level(n) != level.value {
        return Walked(acc, Failed(WrongLevel));
      }
      if Level(n) == 0 {
        w := VisitLeaf(n, min, max, visit, acc);
        return w;
      }
      var a := acc;
      for i := 0 to NrItems(n)
        invariant Valid()
        invariant WalkPtrs(v, n, 0, min, max, visit, acc, depth) == WalkPtrs(v, n, i, min, max, visit, a, depth)
      {
        var ptr := PtrAt(n, i);
        if ptr.Err? {
          return Walked(a, Failed(ptr.error));
        }
        var (key, child) := ptr.value;
        if max.Less(key) {
          return Walked(a, Done);
        }
        // Nothing of the range is in this child: the next one starts at or before it.
        if i + 1 < NrItems(n) {
          var sibling := PtrAt(n, i + 1);
          if sibling.Err? {
            return Walked(a, Failed(sibling.error));
          }
          if sibling.value.0.Leq(min) {
            continue;
          }
        }
        var below := VisitNode(child, min, max, visit, a, depth + 1, Some(Level(n) - 1));
        if !below.out.More? {
          return below;
        }
        a := below.acc;
      }
      return Walked(a, More);
    }

    method Get(root: nat, key: Key) returns (r: Result<Option<seq<byte>>>)
      requires Valid()
      modifies this`nodes, backings
      ensures Valid() && r == GetOf(v, root, key)
    {
      var w := VisitNode(root, key, key, KeepFirst, None, 0, None);
      match w.out {
        case Failed(e) => return Err(e);
        case _ => return Ok(w.acc);
      }
    }

    method TreeRootOf(id: nat) returns (r: Result<TreeRoot>)
      requires Valid()
      modifies this`nodes, this`roots, backings
      ensures Valid() && r == TreeOf(v, id)
    {
      if id in roots {
        return Ok(roots[id]);
      }
      var w := VisitNode(v.root, Key(id, ROOT_ITEM_KEY, 0), Key(id, ROOT_ITEM_KEY, U64_MAX), KeepLast, None, 0, None);
      if w.out.Failed? {
        return Err(w.out.error);
      }
      var root :- RootItem(w.acc);
      roots := roots[id := root];
      return Ok(root);
    }

    method ReadInode(loc: Loc) returns (r: Result<Inode>)
      requires Valid()
      modifies this`nodes, this`roots, backings
      ensures Valid() && r == InodeOf(v, loc)
    {
      if IsPlaceholder(loc) {
        return Ok(PLACEHOLDER_INODE);
      }
      var tree :- TreeRootOf(loc.tree);
      var item :- Get(tree.bytenr, Key(loc.ino, INODE_ITEM_KEY, 0));
      if item.None? {
        return Err(NoInode);
      }
      return InodeAt(item.value);
    }

    // ----- File data -----

    method Extents(loc: Loc) returns (r: Result<seq<Extent>>)
      requires Valid()
      modifies this`nodes, this`roots, backings
      ensures Valid() && r == ExtentsOf(v, loc)
    {
      var tree :- TreeRootOf(loc.tree);
      var w := VisitNode(tree.bytenr, Key(loc.ino, EXTENT_DATA_KEY, 0), Key(loc.ino, EXTENT_DATA_KEY, U64_MAX),
                         CollectExtent, [], 0, None);
      if w.out.Failed? {
        return Err(w.out.error);
      }
      return Ok(w.acc);
    }

    method CompressedExtent(addr: nat, num: nat, algo: nat, ramBytes: nat) returns (r: Result<seq<byte>>)
      requires Valid()
      modifies this`lastExtent, backings
      ensures Valid() && (r, lastExtent) == CompressedOf(v, addr, Shape(num, algo, ramBytes), old(lastExtent))
    {
      if lastExtent.Slot? && lastExtent.addr == addr {
        return Ok(lastExtent.plain);
      }
      if ramBytes > MAX_EXTENT || num > MAX_EXTENT {
        return Err(Implausible);
      }
      var raw :- ReadLogical(addr, num);
      var plain :- Decode(v.codecs, algo, raw, ramBytes, v.sectorsize, false);
      lastExtent := Slot(addr, plain);
      return Ok(plain);
    }

    /** Makes an extent ready to be emitted. */
    method PrepareExtent(e: Extent) returns (r: Result<Ready>)
      requires Valid()
      modifies this`lastExtent, backings
      ensures Valid() && (r, lastExtent) == Prepare(v, e, old(lastExtent))
    {
      hide Valid;
      hide Decompressed;
      hide CompressedOf;
      match e.kind {
        case Prealloc =>
          return Ok(Ready(Nothing, End(e)));
        case Inline(raw) =>
          if e.ramBytes > v.nodesize {
            return Err(Implausible);
          }
          var plain := raw;
          if e.compression != 0 {
            plain :- Decode(v.codecs, e.compression, raw, e.ramBytes, v.sectorsize, true);
          }
          return Ok(Ready(Held(e.fileOff, plain), Add64(e.fileOff, |plain|)));
        case Regular(addr, num, offset) =>
          if addr == 0 {
            return Ok(Ready(Nothing, End(e)));
          }
          if e.compression == 0 {
            if addr + offset >= TWO64 {
              return Err(AddressOverflow);
            }
            return Ok(Ready(Stored(e.fileOff, addr + offset), End(e)));
          }
          var plain :- CompressedExtent(addr, num, e.compression, e.ramBytes);
          return Ok(Ready(Window(e.fileOff, plain, offset), End(e)));
      }
    }

    /** `n` bytes of a source at file position `at`. */
    method FetchBytes(src: Source, at: nat, n: nat) returns (r: Result<seq<byte>>)
      requires Valid() && StartsBy(src, at)
      modifies backings
      ensures Valid() && r == Fetch(v, src, at, n)
    {
      hide Valid;
      hide LogicalBytes;
      match src {
        case Nothing => return Ok(Zeros(n));
        case Held(from, plain) => return Sub(plain, at - from, n);
        case Window(from, plain, offset) =>
          var s := Add64(offset, at - from);
          return if s + n <= |plain| then Ok(plain[s..s + n]) else Err(OutsideExtent);
        case Stored(from, base) =>
          if base + (at - from) >= TWO64 {
            return Err(AddressOverflow);
          }
          r := ReadLogical(base + (at - from), n);
      }
    }

    /** Sends [at, to) of a source in chunks of at most 1 MiB. */
    method SendChunks(src: Source, at: nat, to: nat) returns (em: Emitted)
      requires Valid() && StartsBy(src, at)
      modifies backings
      ensures Valid() && em == Chunks(v, src, at, to)
    {
      hide Fetch;
      hide Chunks;
      hide Valid;
      var pieces: seq<Piece> := [];
      var pos: nat := at;
      ChunksAfter(v, src, at, to, []);
      while pos < to
        invariant Valid() && StartsBy(src, pos)
        invariant Chunks(v, src, at, to) == After(pieces, Chunks(v, src, pos, to))
        decreases Max(0, to - pos)
      {
        var n := Min(to - pos, CHUNK);
        ChunksAfter(v, src, pos, to, pieces);
        var fetched := FetchBytes(src, pos, n);
        match fetched {
          case Err(e) => return Emitted(pieces, Some(e));
          case Ok(b) => pieces := pieces + [Data(b)];
        }
        pos := pos + n;
      }
      ChunksAfter(v, src, pos, to, pieces);
      return Emitted(pieces, None);
    }

    /** Clips [from, to) to what is still wanted and fills the gap before it. */
    method EmitExtent(src: Source, from: nat, to: nat, pos: nat, end: nat) returns (em: Emitted, pos': nat)
      requires Valid() && StartsBy(src, from)
      modifies backings
      ensures Valid() && em == Emit(v, src, from, to, pos, end)
      ensures em.status.None? ==> pos' == Advanced(from, to, pos, end)
    {
      hide Valid;
      hide Chunks;
      var from', to' := Max(from, pos), Min(to, end);
      if from' >= to' {
        return Emitted([], None), pos;
      }
      var pieces: seq<Piece> := [];
      if from' > pos {
        pieces := [Hole(from' - pos)];
      }
      if src.Nothing? {
        return Emitted(pieces + [Hole(to' - from')], None), to';
      }
      var body := SendChunks(src, from', to');
      return Emitted(pieces + body.pieces, body.status), to';
    }

    /** The loop of `read_range` over a file's extents. */
    method StreamExtents(exts: seq<Extent>, start: nat, end: nat) returns (pieces: seq<Piece>, status: Option<Error>)
      requires Valid()
      modifies this`lastExtent, backings
      ensures Valid()
      ensures Streamed(pieces, status, lastExtent) == Stream(v, exts, start, end, old(lastExtent))
    {
      hide Prepare;
      hide Emit;
      hide Valid;
      hide Advanced;
      pieces := [];
      var pos: nat := start;
      var i := 0;
      while i < |exts| && !(pos >= end || exts[i].fileOff >= end)
        invariant i <= |exts| && Valid()
        invariant var rest := Stream(v, exts[i..], pos, end, lastExtent);
                  Stream(v, exts, start, end, old(lastExtent))
                  == Streamed(pieces + rest.pieces, rest.status, rest.cache)
      {
        var e := exts[i];
        assert exts[i..][0] == e && exts[i..][1..] == exts[i + 1..];
        if End(e) > pos {
          var ready := PrepareExtent(e);
          if ready.Err? {
            return pieces, Some(ready.error);
          }
          assert StartsBy(ready.value.source, e.fileOff) by {
            ReadyStarts(v, e, ready.value);
          }
          var em, next := EmitExtent(ready.value.source, e.fileOff, ready.value.to, pos, end);
          if em.status.Some? {
            return pieces + em.pieces, em.status;
          }
          ghost var rest := Stream(v, exts[i + 1..], next, end, lastExtent);
          Associate(pieces, em.pieces, rest.pieces);
          pieces := pieces + em.pieces;
          pos := next;
        }
        i := i + 1;
      }
      if pos < end {
        pieces := pieces + [Hole(end - pos)];
      }
      status := None;
    }

    /** Streams [start, end) of a file, clamped to its size. */
    method ReadRange(loc: Loc, start: nat, end: nat) returns (pieces: seq<Piece>, status: Option<Error>)
      requires Valid()
      modifies this, backings
      ensures Valid()
      ensures Streamed(pieces, status, lastExtent) == ReadRangeOf(v, loc, start, end, old(lastExtent))
    {
      hide Stream;
      var inode := ReadInode(loc);
      if inode.Err? {
        return [], Some(inode.error);
      }
      var exts := Extents(loc);
      if exts.Err? {
        return [], Some(exts.error);
      }
      pieces, status := StreamExtents(exts.value, start, Min(end, inode.value.size));
    }

    // ----- Names -----

    method ReadEntry(dir: Loc, e: DirEntry) returns (r: Result<Entry>)
      requires Valid()
      modifies this`nodes, this`roots, backings
      ensures Valid() && r == EntryOf(v, dir, e)
    {
      if e.location.ty != ROOT_ITEM_KEY {
        return Ok(Entry(e.name, Loc(dir.tree, e.location.objectid), e.ftype, false));
      }
      var child := e.location.objectid;
      var link :- Get(v.root, Key(dir.tree, ROOT_REF_KEY, child));
      var loc := Loc(0, 0);
      if link.Some? {
        var tree :- TreeRootOf(child);
        loc := Loc(child, tree.rootDirid);
      }
      return Ok(Entry(e.name, loc, FT_DIR, true));
    }

    method Lookup(dir: Loc, name: Name) returns (r: Result<Option<Entry>>)
      requires Valid()
      modifies this`nodes, this`roots, backings
      ensures Valid() && r == LookupOf(v, dir, name)
    {
      if IsPlaceholder(dir) {
        return Ok(None);
      }
      var tree :- TreeRootOf(dir.tree);
      var item :- Get(tree.bytenr, Key(dir.ino, DIR_ITEM_KEY, v.nameHash(name)));
      if item.None? {
        return Ok(None);
      }
      var es :- ParseDirEntries(item.value);
      var found := Find(es, name);
      if found.None? {
        return Ok(None);
      }
      var entry :- ReadEntry(dir, found.value);
      return Ok(Some(entry));
    }

    method ReadDir(dir: Loc) returns (r: Result<seq<Entry>>)
      requires Valid()
      modifies this`nodes, this`roots, backings
      ensures Valid() && r == ReadDirOf(v, dir)
    {
      hide EntryOf;
      if IsPlaceholder(dir) {
        return Ok([]);
      }
      var tree :- TreeRootOf(dir.tree);
      var w := VisitNode(tree.bytenr, Key(dir.ino, DIR_INDEX_KEY, 0), Key(dir.ino, DIR_INDEX_KEY, U64_MAX),
                         CollectEntries, [], 0, None);
      if w.out.Failed? {
        return Err(w.out.error);
      }
      var raw := w.acc;
      var out: seq<Entry> := [];
      for i := 0 to |raw|
        invariant Valid()
        invariant EntriesFrom(v, dir, raw) == Prepend(out, EntriesFrom(v, dir, raw[i..]))
      {
        assert raw[i..][0] == raw[i] && raw[i..][1..] == raw[i + 1..];
        var e :- ReadEntry(dir, raw[i]);
        PrependOne(out, e, EntriesFrom(v, dir, raw[i + 1..]));
        out := out + [e];
      }
      assert raw[|raw|..] == [];
      return Ok(SortByName(out));
    }

    /** Resolves an absolute path with a stack of the directories passed. */
    method Resolve(path: seq<byte>) returns (r: Result<Loc>)
      requires Valid()
      modifies this`nodes, this`roots, backings
      ensures Valid() && r == ResolveOf(v, path)
    {
      hide LookupOf;
      hide InodeOf;
      var root :- TreeRootOf(FS_TREE_OBJECTID);
      var stack := [Loc(FS_TREE_OBJECTID, root.rootDirid)];
      var parts := SplitPath(path);
      for i := 0 to |parts|
        invariant Valid() && stack != []
        invariant ResolveOf(v, path) == ResolveFrom(v, stack, parts[i..])
      {
        assert parts[i..][0] == parts[i] && parts[i..][1..] == parts[i + 1..];
        var part := parts[i];
        if part == DOT_DOT {
          if |stack| > 1 {
            stack := stack[..|stack| - 1];
          }
          continue;
        }
        var dir := stack[|stack| - 1];
        if !IsPlaceholder(dir) {
          var inode :- ReadInode(dir);
          if inode.IsSymlink() {
            return Err(SymlinkInPath);
          }
          if !inode.IsDir() {
            return Err(NotADirectory);
          }
        }
        var found :- Lookup(dir, part);
        if found.None? {
          return Err(NotFound);
        }
        stack := stack + [found.value.loc];
      }
      return Ok(stack[|stack| - 1]);
    }

    method ReadParent(root: TreeRoot, ino: nat) returns (r: Result<(nat, Name)>)
      requires Valid()
      modifies this`nodes, backings
      ensures Valid() && r == ParentOf(v, root, ino)
    {
      var w := VisitNode(root.bytenr, Key(ino, INODE_REF_KEY, 0), Key(ino, INODE_REF_KEY, U64_MAX), KeepRef, None,
                         0, None);
      if w.out.Failed? {
        return Err(w.out.error);
      }
      if w.acc.None? {
        return Err(NoParentRef);
      }
      return Ok(w.acc.value);
    }

    /** Climbs INODE_REFs to the subvolume's root, then turns the parts round. */
    method ClimbParts(root: TreeRoot, start: nat) returns (r: Result<seq<Name>>)
      requires Valid()
      modifies this`nodes, backings
      ensures Valid() && r == Climb(v, root, start, 0)
    {
      hide ParentOf;
      hide Valid;
      var parts: seq<Name> := [];
      var ino := start;
      AppendNothing(Climb(v, root, start, 0));
      while ino != root.rootDirid
        invariant Valid() && |parts| <= MAX_PARTS
        invariant Climb(v, root, start, 0) == Append(Climb(v, root, ino, |parts|), Reversed(parts))
        decreases MAX_PARTS - |parts|
      {
        if |parts| >= MAX_PARTS {
          return Err(EndlessParents);
        }
        var ref :- ReadParent(root, ino);
        var (parent, name) := ref;
        AppendOne(Climb(v, root, parent, |parts| + 1), v.lossy(name), parts);
        parts := parts + [v.lossy(name)];
        ino := parent;
      }
      assert [] + Reversed(parts) == Reversed(parts);
      return Ok(Reversed(parts));
    }

    method PathInTree(tree: nat, ino: nat) returns (r: Result<seq<byte>>)
      requires Valid()
      modifies this`nodes, this`roots, backings
      ensures Valid() && r == PathInTreeOf(v, tree, ino)
    {
      var root :- TreeRootOf(tree);
      var parts :- ClimbParts(root, ino);
      return Ok(Join(parts));
    }

    /** Lists the subvolumes, resolving their paths in rounds. */
    method ListSubvols() returns (r: Result<seq<Subvol>>)
      requires Valid()
      modifies this`nodes, this`roots, backings
      ensures Valid() && r == SubvolsOf(v)
    {
      hide CollectRoots;
      hide Dedup;
      var w := VisitNode(v.root, Key(FIRST_FREE_OBJECTID, 0, 0), Key(LAST_FREE_OBJECTID, 255, U64_MAX),
                         CollectRoots, NOTHING, 0, None);
      if w.out.Failed? {
        return Err(w.out.error);
      }
      var backrefs := w.acc.backrefs;
      var pending := Dedup(w.acc.items);
      var p := START;
      ghost var all := Rounds(v, backrefs, pending, START);
      while pending != []
        invariant Valid()
        invariant all == Rounds(v, backrefs, pending, p)
        decreases |pending|
      {
        var round :- RunRound(backrefs, pending, p);
        var (next, p') := round;
        p := p';
        if |next| == |pending| {
          break;
        }
        pending := next;
      }
      return Ok(SortById(p.out));
    }

    method RunRound(backrefs: map<nat, Backref>, pending: seq<RootInfo>, start: Progress)
        returns (r: Result<(seq<RootInfo>, Progress)>)
      requires Valid()
      modifies this`nodes, this`roots, backings
      ensures Valid() && r == Round(v, backrefs, pending, [], start)
    {
      hide PathInTreeOf;
      hide Join;
      hide NonEmpty;
      var next: seq<RootInfo> := [];
      var p := start;
      for i := 0 to |pending|
        invariant Valid()
        invariant Round(v, backrefs, pending, [], start) == Round(v, backrefs, pending[i..], next, p)
      {
        assert pending[i..][0] == pending[i] && pending[i..][1..] == pending[i + 1..];
        var it := pending[i];
        if it.id !in backrefs {
          continue;
        }
        var b := backrefs[it.id];
        if b.parent !in p.paths {
          next := next + [it];
          continue;
        }
        var dir :- PathInTree(b.parent, b.dirid);
        var path := Join(NonEmpty([p.paths[b.parent], dir, v.lossy(b.name)]));
        p := Progress(p.paths[it.id := path], p.out + [Subvol(it, b.parent, [SLASH] + path)]);
      }
      return Ok((next, p));
    }
  }

  // ----- What the loops need -----

  /** What was sent before, and then the rest. */
  function After(pieces: seq<Piece>, rest: Emitted): Emitted {
    Emitted(pieces + rest.pieces, rest.status)
  }

  /** The next chunk, if there is one. */
  lemma ChunksAfter(v: Volume, src: Source, at: nat, to: nat, pieces: seq<Piece>)
    requires StartsBy(src, at)
    ensures pieces == [] ==> After(pieces, Chunks(v, src, at, to)) == Chunks(v, src, at, to)
    ensures at >= to ==> After(pieces, Chunks(v, src, at, to)) == Emitted(pieces, None)
    ensures at < to ==>
              var n := Min(to - at, CHUNK);
              After(pieces, Chunks(v, src, at, to))
              == match Fetch(v, src, at, n)
                 case Err(e) => Emitted(pieces, Some(e))
                 case Ok(b) => After(pieces + [Data(b)], Chunks(v, src, at + n, to))
  {
    hide Fetch;
    var all := Chunks(v, src, at, to);
    assert pieces == [] ==> pieces + all.pieces == all.pieces;
    if at < to {
      var n := Min(to - at, CHUNK);
      match Fetch(v, src, at, n) {
        case Err(e) => assert pieces + [] == pieces;
        case Ok(b) => Associate(pieces, [Data(b)], Chunks(v, src, at + n, to).pieces);
      }
    } else {
      assert pieces + [] == pieces;
    }
  }

  lemma Associate<T>(a: seq<T>, b: seq<T>, c: seq<T>)
    ensures a + (b + c) == a + b + c
  {
  }

  lemma ReadyStarts(v: Volume, e: Extent, ready: Ready)
    requires exists cache :: Prepare(v, e, cache).0 == Ok(ready)
    ensures StartsBy(ready.source, e.fileOff)
  {
  }

  function Reversed(parts: seq<Name>): seq<Name> {
    if parts == [] then [] else Reversed(parts[1..]) + [parts[0]]
  }

  function Append(above: Result<seq<Name>>, below: seq<Name>): Result<seq<Name>> {
    match above
    case Ok(parts) => Ok(parts + below)
    case Err(e) => Err(e)
  }

  lemma AppendNothing(above: Result<seq<Name>>)
    ensures Append(above, Reversed([])) == above
  {
    if above.Ok? {
      assert above.value + [] == above.value;
    }
  }

  lemma {:induction false} ReversedSnoc(parts: seq<Name>, name: Name)
    ensures Reversed(parts + [name]) == [name] + Reversed(parts)
  {
    if parts != [] {
      assert (parts + [name])[1..] == parts[1..] + [name];
      ReversedSnoc(parts[1..], name);
    }
  }

  lemma AppendOne(above: Result<seq<Name>>, name: Name, parts: seq<Name>)
    ensures Append(Append(above, [name]), Reversed(parts)) == Append(above, Reversed(parts + [name]))
  {
    ReversedSnoc(parts, name);
    if above.Ok? {
      assert above.value + [name] + Reversed(parts) == above.value + ([name] + Reversed(parts));
    }
  }
}
