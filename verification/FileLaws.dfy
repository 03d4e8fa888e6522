// Laws of file reading (src/fs.rs): the extent list of a well-formed tree, when
// a read succeeds, the invisibility of the decompressed-extent cache, and
// exactly when splitting a read of an inline extent changes its bytes.

module FileLaws {
  import opened Bytes
  import opened Disk
  import opened Decompress
  import opened Volumes
  import opened Walks
  import opened FileData

  // ----- The extent list of a well-formed tree -----

  /** The items parse to the extents, one by one and in order. */
  ghost predicate ParsedFrom(items: seq<Item>, exts: seq<Extent>) {
    && |exts| == |items|
    && forall i :: 0 <= i < |items| ==> ExtentAt(items[i].key.offset, items[i].data) == Ok(exts[i])
  }

  lemma {:induction false} FoldParses(items: seq<Item>, done: seq<Item>, acc: seq<Extent>)
    requires ParsedFrom(done, acc)
    ensures var w := Fold(items, CollectExtent, acc);
            !w.out.Failed? ==> ParsedFrom(done + items, w.acc)
  {
    if items == [] {
      assert done + items == done;
    } else {
      var r := ExtentAt(items[0].key.offset, items[0].data);
      if r.Ok? {
        FoldParses(items[1..], done + [items[0]], acc + [r.value]);
        assert done + items == done + [items[0]] + items[1..];
      }
    }
  }

  /** On a well-formed tree a file's extents are its EXTENT_DATA items, parsed, in
      ascending order of file offset. */
  lemma ExtentsAreItems(v: Volume, loc: Loc, level: nat)
    requires TreeOf(v, loc.tree).Ok? && Tree(v, TreeOf(v, loc.tree).value.bytenr, level)
    requires ExtentsOf(v, loc).Ok?
    ensures var items := ItemsOf(v, TreeOf(v, loc.tree).value.bytenr, level);
            ParsedFrom(InRange(items, Key(loc.ino, EXTENT_DATA_KEY, 0), Key(loc.ino, EXTENT_DATA_KEY, U64_MAX)),
                       ExtentsOf(v, loc).value)
    ensures SortedExtents(ExtentsOf(v, loc).value)
  {
    hide WellFormed;
    hide ItemsOf;
    hide WalkNode;
    hide TreeOf;
    var root := TreeOf(v, loc.tree).value.bytenr;
    var min, max := Key(loc.ino, EXTENT_DATA_KEY, 0), Key(loc.ino, EXTENT_DATA_KEY, U64_MAX);
    var items := ItemsOf(v, root, level);
    var hits := InRange(items, min, max);
    WalkIsScan(v, root, level, min, max, CollectExtent, []);
    FoldParses(hits, [], []);
    assert [] + hits == hits;
    InRangeMembers(items, min, max);
    InRangeAscends(items, min, max);
    OffsetsAscend(hits, ExtentsOf(v, loc).value, loc.ino);
  }

  lemma OffsetsAscend(items: seq<Item>, exts: seq<Extent>, ino: nat)
    requires ParsedFrom(items, exts) && AscendingItems(items)
    requires forall it :: it in items ==>
               Key(ino, EXTENT_DATA_KEY, 0).Leq(it.key) && it.key.Leq(Key(ino, EXTENT_DATA_KEY, U64_MAX))
    ensures SortedExtents(exts)
  {
    hide ExtentAt;
    forall i, j | 0 <= i < j < |exts|
      ensures exts[i].fileOff <= exts[j].fileOff
    {
      assert items[i] in items && items[j] in items;
      assert items[i].key.Less(items[j].key);
      assert ExtentAt(items[i].key.offset, items[i].data) == Ok(exts[i]);
      assert ExtentAt(items[j].key.offset, items[j].data) == Ok(exts[j]);
    }
  }

  // ----- When a read succeeds -----

  /** Every chunk of the extent the reader may ask for can be fetched. */
  ghost predicate Streamable(v: Volume, e: Extent) {
    && Prepare(v, e, Off).0.Ok?
    && var Ready(src, to) := Prepare(v, e, Off).0.value;
       && StartsBy(src, e.fileOff)
       && forall at, n :: e.fileOff <= at && 0 < n <= CHUNK && at + n <= to ==> Fetch(v, src, at, n).Ok?
  }

  /** An extent that can be read, told from its record: a hole; a payload no larger
      than a leaf, which decodes; stored bytes of which every part of a chunk's size can
      be read; or compressed ones of plausible sizes that can be read, that decode, and
      that hold the window. */
  ghost predicate Readable(v: Volume, e: Extent) {
    match e.kind
    case Prealloc => true
    case Inline(raw) =>
      && e.ramBytes <= v.nodesize
      && (e.compression != 0 ==> Decompressed(v.codecs, e.compression, raw, e.ramBytes, v.sectorsize, true).Ok?)
    case Regular(addr, num, offset) =>
      if addr == 0 then true
      else if e.compression == 0 then
        PartsReadable(v, addr + offset, End(e) - e.fileOff)
      else
        && e.ramBytes <= MAX_EXTENT && num <= MAX_EXTENT && LogicalBytes(v, addr, num).Ok?
        && Decompressed(v.codecs, e.compression, LogicalBytes(v, addr, num).value, e.ramBytes, v.sectorsize, false).Ok?
        && (e.fileOff < End(e) ==> offset + (End(e) - e.fileOff) <= e.ramBytes)
  }

  ghost predicate PartReadable(v: Volume, base: nat, k: nat, n: nat) {
    LogicalBytes(v, base + k, n).Ok?
  }

  ghost predicate PartsReadable(v: Volume, base: nat, len: int) {
    forall k: nat, n: nat :: 0 < n <= CHUNK && k + n <= len ==> PartReadable(v, base, k, n)
  }

  /** A read fails over no other extent. */
  lemma ReadableExactly(v: Volume, e: Extent)
    requires Sane(v, e)
    ensures Streamable(v, e) <==> Readable(v, e)
  {
    hide LogicalBytes;
    hide Decompressed;
    match e.kind {
      case Prealloc =>
      case Inline(raw) => InlineReadable(v, e);
      case Regular(addr, num, offset) =>
        if addr != 0 {
          if e.compression == 0 {
            StoredReadable(v, e);
          } else {
            WindowReadable(v, e);
          }
        }
    }
  }

  lemma InlineReadable(v: Volume, e: Extent)
    requires Sane(v, e) && e.kind.Inline?
    ensures Streamable(v, e) <==> Readable(v, e)
  {
    hide Decompressed;
  }

  lemma StoredReadable(v: Volume, e: Extent)
    requires Sane(v, e) && e.kind.Regular? && e.kind.diskBytenr != 0 && e.compression == 0
    ensures Streamable(v, e) <==> Readable(v, e)
  {
    hide LogicalBytes;
    var base := e.kind.diskBytenr + e.kind.offset;
    if Streamable(v, e) {
      forall k: nat, n: nat | 0 < n <= CHUNK && k + n <= End(e) - e.fileOff
        ensures PartReadable(v, base, k, n)
      {
        assert Fetch(v, Stored(e.fileOff, base), e.fileOff + k, n).Ok?;
      }
    }
    if Readable(v, e) {
      forall at, n | e.fileOff <= at && 0 < n <= CHUNK && at + n <= End(e)
        ensures Fetch(v, Stored(e.fileOff, base), at, n).Ok?
      {
        assert PartReadable(v, base, at - e.fileOff, n);
      }
    }
  }

  lemma WindowReadable(v: Volume, e: Extent)
    requires Sane(v, e) && e.kind.Regular? && e.kind.diskBytenr != 0 && e.compression != 0
    ensures Streamable(v, e) <==> Readable(v, e)
  {
    hide LogicalBytes;
    hide Decompressed;
    if Streamable(v, e) && e.fileOff < End(e) {
      var Ready(src, to) := Prepare(v, e, Off).0.value;
      assert Fetch(v, src, End(e) - 1, 1).Ok?;
    }
  }

  lemma {:induction false} ChunksSucceed(v: Volume, e: Extent, at: nat, stop: nat)
    requires Streamable(v, e) && e.fileOff <= at && stop <= Prepare(v, e, Off).0.value.to
    ensures Chunks(v, Prepare(v, e, Off).0.value.source, at, stop).status.None?
    decreases Max(0, stop - at)
  {
    hide Prepare;
    hide Fetch;
    if at < stop {
      var n: nat := Min(stop - at, CHUNK);
      var Ready(src, to) := Prepare(v, e, Off).0.value;
      assert Fetch(v, src, at, n).Ok?;
      ChunksSucceed(v, e, at + n, stop);
    }
  }

  /** An extent that ends before what is read, or starts after it. */
  predicate Outside(e: Extent, pos: nat, end: nat) {
    End(e) <= pos || end <= e.fileOff
  }

  /** A read fails only over an extent of its range that it cannot fetch. */
  lemma {:induction false} StreamSucceeds(v: Volume, exts: seq<Extent>, pos: nat, end: nat)
    requires forall e :: e in exts ==> Streamable(v, e) || Outside(e, pos, end)
    ensures Stream(v, exts, pos, end, Off).status.None?
  {
    hide Prepare;
    hide Fetch;
    hide Streamable;
    if exts != [] && pos < end && exts[0].fileOff < end {
      var e := exts[0];
      assert e in exts;
      if End(e) <= pos {
        StreamSucceeds(v, exts[1..], pos, end);
      } else {
        assert Streamable(v, e);
        OffStays(v, e);
        SentWhole(v, e, pos, end);
        var Ready(src, to) := Prepare(v, e, Off).0.value;
        StreamSucceeds(v, exts[1..], Advanced(e.fileOff, to, pos, end), end);
      }
    }
  }

  lemma SentWhole(v: Volume, e: Extent, pos: nat, end: nat)
    requires Streamable(v, e)
    ensures Prepare(v, e, Off).0.Ok?
    ensures var Ready(src, to) := Prepare(v, e, Off).0.value;
            StartsBy(src, e.fileOff) && Emit(v, src, e.fileOff, to, pos, end).status.None?
  {
    hide Prepare;
    hide Fetch;
    var Ready(src, to) := Prepare(v, e, Off).0.value;
    var (f, t) := Clip(e.fileOff, to, pos, end);
    ChunksSucceed(v, e, f, t);
  }

  /** A read succeeds when the extents of its range can be read, whatever the others. */
  lemma ReadableStreams(v: Volume, exts: seq<Extent>, pos: nat, end: nat)
    requires AllSane(v, exts) && forall e :: e in exts ==> Readable(v, e) || Outside(e, pos, end)
    ensures Stream(v, exts, pos, end, Off).status.None?
  {
    hide Readable;
    hide Streamable;
    hide Sane;
    hide Stream;
    forall e | e in exts
      ensures Streamable(v, e) || Outside(e, pos, end)
    {
      ReadableExactly(v, e);
    }
    StreamSucceeds(v, exts, pos, end);
  }

  /** No piece of data is longer than a chunk, and holes are sent as holes. */
  lemma {:induction false} ChunkSizes(v: Volume, src: Source, at: nat, to: nat)
    requires StartsBy(src, at)
    ensures forall p :: p in Chunks(v, src, at, to).pieces ==> p.Data? && |p.bytes| <= CHUNK
    decreases Max(0, to - at)
  {
    hide Fetch;
    if at < to {
      var n := Min(to - at, CHUNK);
      ChunkSizes(v, src, at + n, to);
    }
  }

  lemma PiecesOfEmit(v: Volume, src: Source, from: nat, to: nat, pos: nat, end: nat)
    requires StartsBy(src, from)
    ensures forall p :: p in Emit(v, src, from, to, pos, end).pieces ==> p.Data? ==> !src.Nothing? && |p.bytes| <= CHUNK
  {
    hide Chunks;
    var (f, t) := Clip(from, to, pos, end);
    ChunkSizes(v, src, f, t);
  }

  /** An extent without bytes of its own. */
  predicate IsHole(e: Extent) {
    e.kind.Prealloc? || (e.kind.Regular? && e.kind.diskBytenr == 0)
  }

  ghost predicate OnlyHoles(ps: seq<Piece>) {
    forall p :: p in ps ==> p.Hole?
  }

  ghost predicate SmallPieces(ps: seq<Piece>) {
    forall p :: p in ps ==> p.Data? ==> |p.bytes| <= CHUNK
  }

  lemma EmitSparse(v: Volume, e: Extent, pos: nat, end: nat)
    requires Prepare(v, e, Off).0.Ok?
    ensures var Ready(src, to) := Prepare(v, e, Off).0.value;
            && StartsBy(src, e.fileOff) && SmallPieces(Emit(v, src, e.fileOff, to, pos, end).pieces)
            && (IsHole(e) ==> OnlyHoles(Emit(v, src, e.fileOff, to, pos, end).pieces))
  {
    hide Fetch;
    hide Chunks;
    hide Inflated;
    hide InlineBytes;
    var Ready(src, to) := Prepare(v, e, Off).0.value;
    PiecesOfEmit(v, src, e.fileOff, to, pos, end);
  }

  /** Data goes out in pieces of at most 1 MiB; where a file has only holes nothing but
      holes is sent, the one behind its last extent too. */
  lemma {:induction false} StreamSparse(v: Volume, exts: seq<Extent>, pos: nat, end: nat)
    ensures SmallPieces(Stream(v, exts, pos, end, Off).pieces)
    ensures (forall e :: e in exts ==> IsHole(e)) ==> OnlyHoles(Stream(v, exts, pos, end, Off).pieces)
  {
    hide Prepare;
    hide Emit;
    hide IsHole;
    if exts != [] && pos < end && exts[0].fileOff < end {
      var e := exts[0];
      assert e in exts;
      if End(e) <= pos {
        StreamSparse(v, exts[1..], pos, end);
      } else {
        OffStays(v, e);
        if Prepare(v, e, Off).0.Ok? {
          EmitSparse(v, e, pos, end);
          var Ready(src, to) := Prepare(v, e, Off).0.value;
          StreamSparse(v, exts[1..], Advanced(e.fileOff, to, pos, end), end);
        }
      }
    }
  }

  // ----- The one-slot cache is invisible -----

  /** The slot holds what decompressing its address gives, for the one shape that
      references to that address have. */
  ghost predicate Consistent(v: Volume, shape: nat -> Shape, cache: Cache) {
    cache.Slot? ==> Inflated(v, cache.addr, shape(cache.addr)) == Ok(cache.plain)
  }

  ghost predicate RefersAs(shape: nat -> Shape, e: Extent) {
    e.kind.Regular? && e.kind.diskBytenr != 0 && e.compression != 0 ==>
      shape(e.kind.diskBytenr) == Shape(e.kind.diskNumBytes, e.compression, e.ramBytes)
  }

  lemma PrepareCacheInvisible(v: Volume, shape: nat -> Shape, e: Extent, cache: Cache)
    requires RefersAs(shape, e) && Consistent(v, shape, cache)
    ensures Prepare(v, e, cache).0 == Prepare(v, e, Off).0
    ensures Consistent(v, shape, Prepare(v, e, cache).1)
  {
    hide Inflated;
  }

  lemma {:induction false} StreamCacheInvisible(v: Volume, shape: nat -> Shape, exts: seq<Extent>, pos: nat, end: nat,
                                                cache: Cache)
    requires forall e :: e in exts ==> RefersAs(shape, e)
    requires Consistent(v, shape, cache)
    ensures var s, t := Stream(v, exts, pos, end, cache), Stream(v, exts, pos, end, Off);
            s.pieces == t.pieces && s.status == t.status && Consistent(v, shape, s.cache)
  {
    hide Prepare;
    hide Emit;
    hide Consistent;
    if exts != [] {
      var e := exts[0];
      assert e in exts;
      PrepareCacheInvisible(v, shape, e, cache);
      OffStays(v, e);
      StreamCacheInvisible(v, shape, exts[1..], pos, end, cache);
      if Prepare(v, e, Off).0.Ok? {
        var Ready(src, to) := Prepare(v, e, Off).0.value;
        StreamCacheInvisible(v, shape, exts[1..], Advanced(e.fileOff, to, pos, end), end, Prepare(v, e, cache).1);
      }
    }
  }

  /** A read through the cache delivers the file's meaning, or a prefix of it when
      it fails, and leaves a cache the next read can rely on. */
  lemma CachedReadDelivers(v: Volume, content: nat -> byte, shape: nat -> Shape, loc: Loc, start: nat, end: nat,
                           cache: Cache)
    requires Faithful(v, content) && InodeOf(v, loc).Ok? && GoodFile(v, loc)
    requires Consistent(v, shape, cache)
    requires forall e :: e in ExtentsOf(v, loc).value ==> RefersAs(shape, e)
    ensures var s := ReadRangeOf(v, loc, start, end, cache);
            && Flatten(s.pieces) <= Meaning(v, content, loc, start, end)
            && (s.status.None? ==> Flatten(s.pieces) == Meaning(v, content, loc, start, end))
            && Consistent(v, shape, s.cache)
  {
    hide Stream;
    hide ExtentsOf;
    hide InodeOf;
    hide RefersAs;
    hide Consistent;
    hide Meaning;
    ReadRangeDelivers(v, content, loc, start, end);
    StreamCacheInvisible(v, shape, ExtentsOf(v, loc).value, start, Min(end, InodeOf(v, loc).value.size), cache);
  }

  datatype Request = Request(loc: Loc, start: nat, end: nat)

  datatype Reply = Reply(pieces: seq<Piece>, status: Option<Error>)

  /** A series of reads, over any files, sharing one cache. */
  ghost function Replies(v: Volume, reqs: seq<Request>, cache: Cache): seq<Reply> {
    if reqs == [] then [] else
      var s := ReadRangeOf(v, reqs[0].loc, reqs[0].start, reqs[0].end, cache);
      [Reply(s.pieces, s.status)] + Replies(v, reqs[1..], s.cache)
  }

  /** If the references to one disk address agree on codec and sizes, any series
      of reads over many files streams what decompressing each time would. */
  lemma {:induction false} CacheInvisible(v: Volume, shape: nat -> Shape, reqs: seq<Request>, cache: Cache)
    requires Consistent(v, shape, cache)
    requires forall r :: r in reqs && ExtentsOf(v, r.loc).Ok? ==>
               forall e :: e in ExtentsOf(v, r.loc).value ==> RefersAs(shape, e)
    ensures Replies(v, reqs, cache) == Replies(v, reqs, Off)
  {
    hide Stream;
    hide ExtentsOf;
    hide InodeOf;
    hide RefersAs;
    hide Consistent;
    if reqs != [] {
      var r := reqs[0];
      assert r in reqs;
      var s, t := ReadRangeOf(v, r.loc, r.start, r.end, cache), ReadRangeOf(v, r.loc, r.start, r.end, Off);
      if InodeOf(v, r.loc).Ok? && ExtentsOf(v, r.loc).Ok? {
        var stop := Min(r.end, InodeOf(v, r.loc).value.size);
        StreamCacheInvisible(v, shape, ExtentsOf(v, r.loc).value, r.start, stop, cache);
        StreamOff(v, ExtentsOf(v, r.loc).value, r.start, stop);
      }
      assert Consistent(v, shape, s.cache) && t.cache == Off;
      CacheInvisible(v, shape, reqs[1..], s.cache);
    }
  }

  lemma {:induction false} StreamOff(v: Volume, exts: seq<Extent>, pos: nat, end: nat)
    ensures Stream(v, exts, pos, end, Off).cache == Off
  {
    hide Prepare;
    hide Emit;
    if exts != [] {
      OffStays(v, exts[0]);
      StreamOff(v, exts[1..], pos, end);
      if Prepare(v, exts[0], Off).0.Ok? {
        var Ready(src, to) := Prepare(v, exts[0], Off).0.value;
        StreamOff(v, exts[1..], Advanced(exts[0].fileOff, to, pos, end), end);
      }
    }
  }

  // ----- Splitting a read of an inline extent -----

  /** An uncompressed inline extent of a leaf. */
  ghost predicate PlainInline(v: Volume, e: Extent) {
    && e.kind.Inline? && e.compression == 0 && e.len == e.ramBytes <= v.nodesize
    && e.fileOff + e.ramBytes < U64_MAX && e.fileOff + |e.kind.raw| < U64_MAX
  }

  /** Extents that follow an inline one: in order behind it, sane and readable. */
  ghost predicate Following(v: Volume, content: nat -> byte, e: Extent, rest: seq<Extent>) {
    && SortedExtents([e] + rest) && AllSane(v, rest) && Grounded(v, content, rest)
    && forall x :: x in rest ==> Streamable(v, x)
  }

  /** Byte `p` of a read that starts at `pos`: the inline payload's, unless the
      extent's declared end is passed already. */
  ghost function ByteFrom(v: Volume, content: nat -> byte, e: Extent, rest: seq<Extent>, pos: nat, p: nat): byte
    requires e.kind.Inline?
  {
    if e.fileOff + e.ramBytes <= pos || p < e.fileOff || p >= e.fileOff + |e.kind.raw|
    then FileByte(v, content, rest, p) else e.kind.raw[p - e.fileOff]
  }

  /** What the reader streams of [pos, end). */
  ghost function BytesFrom(v: Volume, content: nat -> byte, e: Extent, rest: seq<Extent>, pos: nat, end: nat)
      : (r: seq<byte>)
    requires e.kind.Inline?
    ensures |r| == Max(0, end - pos)
    ensures forall k :: 0 <= k < |r| ==> r[k] == ByteFrom(v, content, e, rest, pos, pos + k)
  {
    var n: nat := Max(0, end - pos);
    seq<byte>(n, (k: nat) => ByteFrom(v, content, e, rest, pos, pos + k))
  }

  lemma BytesFromAre(v: Volume, content: nat -> byte, e: Extent, rest: seq<Extent>, pos: nat, end: nat, b: seq<byte>)
    requires e.kind.Inline? && |b| == Max(0, end - pos)
    requires forall k :: 0 <= k < |b| ==> b[k] == ByteFrom(v, content, e, rest, pos, pos + k)
    ensures b == BytesFrom(v, content, e, rest, pos, end)
  {
    hide ByteFrom;
  }

  lemma {:induction false} HeldChunks(v: Volume, from: nat, raw: seq<byte>, at: nat, to: nat)
    requires from <= at && to <= from + |raw|
    ensures Chunks(v, Held(from, raw), at, to).status.None?
    decreases Max(0, to - at)
  {
    if at < to {
      HeldChunks(v, from, raw, at + Min(to - at, CHUNK), to);
    }
  }

  lemma InlineEmits(v: Volume, from: nat, raw: seq<byte>, pos: nat, end: nat)
    ensures Emit(v, Held(from, raw), from, from + |raw|, pos, end).status.None?
  {
    hide Chunks;
    var (f, t) := Clip(from, from + |raw|, pos, end);
    HeldChunks(v, from, raw, f, t);
  }

  lemma RestIsSorted(e: Extent, rest: seq<Extent>)
    requires SortedExtents([e] + rest)
    ensures SortedExtents(rest) && forall x :: x in rest ==> e.fileOff <= x.fileOff
  {
    var all := [e] + rest;
    forall i | 0 <= i < |rest|
      ensures rest[i] == all[i + 1] && all[0].fileOff <= rest[i].fileOff
    {
    }
  }

  /** A read of a sane list of readable extents streams its bytes. */
  lemma RestStreams(v: Volume, content: nat -> byte, e: Extent, rest: seq<Extent>, pos: nat, end: nat)
    requires Following(v, content, e, rest) && end < TWO64
    ensures var s := Stream(v, rest, pos, end, Off);
            && s.status.None? && |Flatten(s.pieces)| == Max(0, end - pos)
            && forall k :: 0 <= k < |Flatten(s.pieces)| ==>
                 Flatten(s.pieces)[k] == FileByte(v, content, rest, pos + k)
  {
    hide Stream;
    hide Streamable;
    hide AllSane;
    hide Grounded;
    hide FileByte;
    RestIsSorted(e, rest);
    StreamDelivers(v, content, rest, pos, end);
    StreamSucceeds(v, rest, pos, end);
  }

  lemma InlineSource(v: Volume, e: Extent)
    requires PlainInline(v, e)
    ensures Prepare(v, e, Off) == (Ok(Ready(Held(e.fileOff, e.kind.raw), e.fileOff + |e.kind.raw|)), Off)
  {
  }

  /** A read into the extent: its payload first, then what follows. */
  lemma StreamInto(v: Volume, content: nat -> byte, e: Extent, rest: seq<Extent>, pos: nat, end: nat)
    requires PlainInline(v, e) && Following(v, content, e, rest) && end < TWO64
    requires pos < end && e.fileOff < end && pos < e.fileOff + e.ramBytes
    ensures var s := Stream(v, [e] + rest, pos, end, Off);
            s.status.None? && Flatten(s.pieces) == BytesFrom(v, content, e, rest, pos, end)
  {
    hide Emit;
    hide Prepare;
    hide Following;
    hide FileByte;
    hide Advanced;
    hide SourceByte;
    hide ByteFrom;
    hide Faithful;
    var src, to := Held(e.fileOff, e.kind.raw), e.fileOff + |e.kind.raw|;
    InlineSource(v, e);
    var em := Emit(v, src, e.fileOff, to, pos, end);
    EmitDelivers(v, content, src, e.fileOff, to, pos, end);
    InlineEmits(v, e.fileOff, e.kind.raw, pos, end);
    var next := Advanced(e.fileOff, to, pos, end);
    RestStreams(v, content, e, rest, next, end);
    assert ([e] + rest)[1..] == rest;
    var tail := Stream(v, rest, next, end, Off);
    FollowingSorted(v, content, e, rest);
    FlattenConcat(em.pieces, tail.pieces);
    IntoBytes(v, content, e, rest, pos, end, Flatten(em.pieces), Flatten(tail.pieces));
  }

  lemma IntoBytes(v: Volume, content: nat -> byte, e: Extent, rest: seq<Extent>, pos: nat, end: nat, head: seq<byte>,
                  tail: seq<byte>)
    requires e.kind.Inline? && pos < end && e.fileOff < end && pos < e.fileOff + e.ramBytes
    requires SortedExtents([e] + rest)
    requires var next := Advanced(e.fileOff, e.fileOff + |e.kind.raw|, pos, end);
             && |head| == next - pos && |tail| == Max(0, end - next)
             && (forall k :: 0 <= k < |head| ==>
                   head[k] == if pos + k < e.fileOff then 0
                              else SourceByte(content, Held(e.fileOff, e.kind.raw), pos + k))
             && (forall k :: 0 <= k < |tail| ==> tail[k] == FileByte(v, content, rest, next + k))
    ensures head + tail == BytesFrom(v, content, e, rest, pos, end)
  {
    hide FileByte;
    RestIsSorted(e, rest);
    var next := Advanced(e.fileOff, e.fileOff + |e.kind.raw|, pos, end);
    var all := head + tail;
    forall k | 0 <= k < |all|
      ensures all[k] == ByteFrom(v, content, e, rest, pos, pos + k)
    {
      if pos + k < e.fileOff {
        NothingBefore(v, content, rest, pos + k);
      }
      if k >= |head| {
        assert all[k] == tail[k - |head|] && next + (k - |head|) == pos + k;
      }
    }
    BytesFromAre(v, content, e, rest, pos, end, all);
  }

  /** A read that stops before the extent or starts past its declared end. */
  lemma StreamPast(v: Volume, content: nat -> byte, e: Extent, rest: seq<Extent>, pos: nat, end: nat)
    requires PlainInline(v, e) && Following(v, content, e, rest) && end < TWO64
    requires !(pos < end && e.fileOff < end && pos < e.fileOff + e.ramBytes)
    ensures var s := Stream(v, [e] + rest, pos, end, Off);
            s.status.None? && Flatten(s.pieces) == BytesFrom(v, content, e, rest, pos, end)
  {
    hide Following;
    hide FileByte;
    var exts := [e] + rest;
    assert exts[1..] == rest;
    if pos >= end || e.fileOff >= end {
      FollowingSorted(v, content, e, rest);
      RestIsSorted(e, rest);
      var hole := TrailingHole(pos, end);
      assert pos < end ==> hole[1..] == [];
      assert Flatten(hole) == Zeros(Max(0, end - pos));
      var zeros := Flatten(hole);
      forall k | 0 <= k < |zeros|
        ensures zeros[k] == ByteFrom(v, content, e, rest, pos, pos + k)
      {
        NothingBefore(v, content, rest, pos + k);
      }
      BytesFromAre(v, content, e, rest, pos, end, zeros);
    } else {
      RestStreams(v, content, e, rest, pos, end);
      BytesFromAre(v, content, e, rest, pos, end, Flatten(Stream(v, rest, pos, end, Off).pieces));
    }
  }

  lemma FollowingSorted(v: Volume, content: nat -> byte, e: Extent, rest: seq<Extent>)
    requires Following(v, content, e, rest)
    ensures SortedExtents([e] + rest)
  {
  }

  lemma StreamOfInline(v: Volume, content: nat -> byte, e: Extent, rest: seq<Extent>, pos: nat, end: nat)
    requires PlainInline(v, e) && Following(v, content, e, rest) && end < TWO64
    ensures var s := Stream(v, [e] + rest, pos, end, Off);
            s.status.None? && Flatten(s.pieces) == BytesFrom(v, content, e, rest, pos, end)
  {
    if pos < end && e.fileOff < end && pos < e.fileOff + e.ramBytes {
      StreamInto(v, content, e, rest, pos, end);
    } else {
      StreamPast(v, content, e, rest, pos, end);
    }
  }

  // ----- Extents in front of it -----

  /** The list around an inline extent: in order, sane and readable but for it. */
  ghost predicate Around(v: Volume, content: nat -> byte, pre: seq<Extent>, e: Extent, rest: seq<Extent>) {
    && Following(v, content, e, rest)
    && SortedExtents(pre + ([e] + rest)) && AllSane(v, pre) && Grounded(v, content, pre)
    && forall x :: x in pre ==> Streamable(v, x)
  }

  /** How many bytes an extent gives. */
  ghost function Stretch(x: Extent): nat {
    if x.kind.Inline? && x.compression == 0 then |x.kind.raw| else x.len
  }

  /** How far a read gets that passes an extent. */
  ghost function ReachOf(v: Volume, x: Extent): nat {
    if Stretch(x) == 0 then 0 else Min(x.fileOff + Stretch(x), U64_MAX)
  }

  /** An extent made ready ends where its record says. */
  lemma ReadyReaches(v: Volume, x: Extent)
    requires Sane(v, x) && Prepare(v, x, Off).0.Ok?
    ensures var to := Prepare(v, x, Off).0.value.to;
            x.fileOff < U64_MAX ==> ReachOf(v, x) == if x.fileOff < to then to else 0
  {
    hide Decompressed;
    hide Inflated;
  }

  ghost function Reach(v: Volume, pre: seq<Extent>): nat {
    if pre == [] then 0 else Max(ReachOf(v, pre[0]), Reach(v, pre[1..]))
  }

  /** The byte that the first of some extents gives which reaches `p`, if one does. */
  ghost function Earlier(v: Volume, content: nat -> byte, pre: seq<Extent>, p: nat): Option<byte> {
    if pre == [] then None else
      match Contribution(v, content, pre[0], p)
      case Some(b) => Some(b)
      case None => Earlier(v, content, pre[1..], p)
  }

  /** Byte `p` of a read that starts at `pos`: from the extents in front, or as the
      inline extent and those behind it give it to a read that got past those. */
  ghost function ByteThrough(v: Volume, content: nat -> byte, pre: seq<Extent>, e: Extent, rest: seq<Extent>,
                             pos: nat, p: nat): byte
    requires e.kind.Inline?
  {
    match Earlier(v, content, pre, p)
    case Some(b) => b
    case None => ByteFrom(v, content, e, rest, Max(pos, Reach(v, pre)), p)
  }

  /** `b` is what a read of [pos, end) streams. */
  ghost predicate Through(v: Volume, content: nat -> byte, pre: seq<Extent>, e: Extent, rest: seq<Extent>,
                          pos: nat, end: nat, b: seq<byte>)
    requires e.kind.Inline?
  {
    |b| == Max(0, end - pos) && forall k :: 0 <= k < |b| ==> b[k] == ByteThrough(v, content, pre, e, rest, pos, pos + k)
  }

  lemma AroundRest(v: Volume, content: nat -> byte, pre: seq<Extent>, e: Extent, rest: seq<Extent>)
    requires Around(v, content, pre, e, rest) && pre != []
    ensures Around(v, content, pre[1..], e, rest)
    ensures Sane(v, pre[0]) && Streamable(v, pre[0]) && (OnDevice(pre[0]) ==> Faithful(v, content))
    ensures forall x :: x in pre[1..] + ([e] + rest) ==> pre[0].fileOff <= x.fileOff
    ensures (pre + ([e] + rest))[0] == pre[0] && (pre + ([e] + rest))[1..] == pre[1..] + ([e] + rest)
  {
    hide Following;
    hide Sane;
    hide Streamable;
    hide Faithful;
    var all := pre + ([e] + rest);
    assert pre[0] in pre && all == [pre[0]] + (pre[1..] + ([e] + rest));
    RestIsSorted(pre[0], pre[1..] + ([e] + rest));
  }

  /** Before every extent there is nothing. */
  lemma {:induction false} ThroughBefore(v: Volume, content: nat -> byte, pre: seq<Extent>, e: Extent,
                                         rest: seq<Extent>, pos: nat, p: nat)
    requires e.kind.Inline? && forall x :: x in pre + ([e] + rest) ==> p < x.fileOff
    ensures ByteThrough(v, content, pre, e, rest, pos, p) == 0
  {
    if pre == [] {
      assert e in pre + ([e] + rest);
      assert forall x :: x in rest ==> x in pre + ([e] + rest);
      NothingBefore(v, content, rest, p);
    } else {
      assert pre[0] in pre + ([e] + rest);
      BeforeFirst(v, content, pre[0], p);
      assert forall x :: x in pre[1..] + ([e] + rest) ==> x in pre + ([e] + rest);
      ThroughBefore(v, content, pre[1..], e, rest, Max(pos, ReachOf(v, pre[0])), p);
    }
  }

  /** Passing one extent. */
  lemma ThroughStep(v: Volume, content: nat -> byte, pre: seq<Extent>, e: Extent, rest: seq<Extent>, pos: nat, p: nat)
    requires e.kind.Inline? && pre != []
    ensures ByteThrough(v, content, pre, e, rest, pos, p)
         == match Contribution(v, content, pre[0], p)
            case Some(b) => b
            case None => ByteThrough(v, content, pre[1..], e, rest, Max(pos, ReachOf(v, pre[0])), p)
  {
    hide Contribution;
    hide ByteFrom;
    hide ReachOf;
  }

  /** A read of a readable extent sends something of every position it passes. */
  lemma EmitSucceeds(v: Volume, x: Extent, pos: nat, end: nat)
    requires Streamable(v, x)
    ensures var Ready(src, to) := Prepare(v, x, Off).0.value;
            Emit(v, src, x.fileOff, to, pos, end).status.None?
  {
    hide Prepare;
    hide Fetch;
    var Ready(src, to) := Prepare(v, x, Off).0.value;
    var (f, t) := Clip(x.fileOff, to, pos, end);
    ChunksSucceed(v, x, f, t);
  }

  /** What an extent in front sends, and where the read goes on. */
  lemma FrontSends(v: Volume, content: nat -> byte, x: Extent, pos: nat, end: nat)
    requires Sane(v, x) && Streamable(v, x) && (OnDevice(x) ==> Faithful(v, content))
    requires pos < end <= U64_MAX && x.fileOff < end && End(x) > pos
    ensures var Ready(src, to) := Prepare(v, x, Off).0.value;
            var em, next := Emit(v, src, x.fileOff, to, pos, end), Advanced(x.fileOff, to, pos, end);
            var b := Flatten(em.pieces);
            && em.status.None? && pos <= next <= end && |b| == next - pos
            && (next < end ==> next == Max(pos, ReachOf(v, x)))
            && (forall k :: 0 <= k < |b| ==>
                  if pos + k < x.fileOff then b[k] == 0 else Contribution(v, content, x, pos + k) == Some(b[k]))
            && (forall p :: next <= p < end ==> Contribution(v, content, x, p) == None)
  {
    hide Contribution;
    hide Prepare;
    hide Emit;
    hide Streamable;
    hide Faithful;
    StreamableIsReady(v, x);
    var Ready(src, to) := Prepare(v, x, Off).0.value;
    PreparedContributes(v, content, x);
    ReadyReaches(v, x);
    hide ReachOf;
    EmitSucceeds(v, x, pos, end);
    EmitDelivers(v, content, src, x.fileOff, to, pos, end);
    var next := Advanced(x.fileOff, to, pos, end);
    forall p | next <= p < end
      ensures Contribution(v, content, x, p) == None
    {
      if p < x.fileOff {
        BeforeFirst(v, content, x, p);
      } else {
        assert to <= p;
      }
    }
  }

  lemma StreamableIsReady(v: Volume, x: Extent)
    requires Streamable(v, x)
    ensures Prepare(v, x, Off).0.Ok? && StartsBy(Prepare(v, x, Off).0.value.source, x.fileOff)
  {
  }

  /** A read through the extents in front, the inline one and those behind it. */
  lemma {:induction false} StreamThrough(v: Volume, content: nat -> byte, pre: seq<Extent>, e: Extent,
                                         rest: seq<Extent>, pos: nat, end: nat)
    requires PlainInline(v, e) && Around(v, content, pre, e, rest) && end < TWO64
    ensures var s := Stream(v, pre + ([e] + rest), pos, end, Off);
            s.status.None? && Through(v, content, pre, e, rest, pos, end, Flatten(s.pieces))
  {
    hide Emit;
    hide Prepare;
    hide ByteThrough;
    hide Around;
    hide ReachOf;
    hide Contribution;
    hide Sane;
    hide Streamable;
    hide Faithful;
    if pre == [] {
      assert pre + ([e] + rest) == [e] + rest;
      InlineThrough(v, content, e, rest, pos, end);
    } else {
      var x, all := pre[0], pre + ([e] + rest);
      AroundRest(v, content, pre, e, rest);
      if pos >= end || x.fileOff >= end {
        HoleThrough(v, content, pre, e, rest, pos, end);
      } else if End(x) <= pos {
        StreamThrough(v, content, pre[1..], e, rest, pos, end);
        SkipThrough(v, content, pre, e, rest, pos, end, Flatten(Stream(v, all[1..], pos, end, Off).pieces));
      } else {
        OffStays(v, x);
        StreamableIsReady(v, x);
        FrontSends(v, content, x, pos, end);
        var Ready(src, to) := Prepare(v, x, Off).0.value;
        var em, next := Emit(v, src, x.fileOff, to, pos, end), Advanced(x.fileOff, to, pos, end);
        StreamThrough(v, content, pre[1..], e, rest, next, end);
        var tail := Stream(v, all[1..], next, end, Off);
        FlattenConcat(em.pieces, tail.pieces);
        JoinThrough(v, content, pre, e, rest, pos, next, end, Flatten(em.pieces), Flatten(tail.pieces));
      }
    }
  }

  lemma InlineThrough(v: Volume, content: nat -> byte, e: Extent, rest: seq<Extent>, pos: nat, end: nat)
    requires PlainInline(v, e) && Around(v, content, [], e, rest) && end < TWO64
    ensures var s := Stream(v, [e] + rest, pos, end, Off);
            s.status.None? && Through(v, content, [], e, rest, pos, end, Flatten(s.pieces))
  {
    hide Stream;
    hide ByteFrom;
    hide Following;
    StreamOfInline(v, content, e, rest, pos, end);
  }

  lemma HoleThrough(v: Volume, content: nat -> byte, pre: seq<Extent>, e: Extent, rest: seq<Extent>, pos: nat, end: nat)
    requires e.kind.Inline? && pre != [] && (pos >= end || pre[0].fileOff >= end)
    requires forall x :: x in pre[1..] + ([e] + rest) ==> pre[0].fileOff <= x.fileOff
    ensures Through(v, content, pre, e, rest, pos, end, Flatten(TrailingHole(pos, end)))
  {
    hide ByteThrough;
    var hole := TrailingHole(pos, end);
    var b := Flatten(hole);
    if pos < end {
      assert hole[1..] == [] && Flatten(hole[1..]) == [];
    }
    assert b == Zeros(Max(0, end - pos));
    forall k | 0 <= k < |b|
      ensures b[k] == ByteThrough(v, content, pre, e, rest, pos, pos + k)
    {
      assert forall x :: x in pre + ([e] + rest) ==> x == pre[0] || x in pre[1..] + ([e] + rest);
      ThroughBefore(v, content, pre, e, rest, pos, pos + k);
    }
  }

  /** An extent that a read starts behind. */
  lemma SkipThrough(v: Volume, content: nat -> byte, pre: seq<Extent>, e: Extent, rest: seq<Extent>, pos: nat,
                    end: nat, b: seq<byte>)
    requires e.kind.Inline? && pre != [] && Sane(v, pre[0]) && Streamable(v, pre[0])
    requires End(pre[0]) <= pos && end <= U64_MAX && Through(v, content, pre[1..], e, rest, pos, end, b)
    ensures Through(v, content, pre, e, rest, pos, end, b)
  {
    hide ByteThrough;
    hide Contribution;
    hide Prepare;
    hide Streamable;
    assert Max(pos, ReachOf(v, pre[0])) == pos;
    hide ReachOf;
    forall k | 0 <= k < |b|
      ensures b[k] == ByteThrough(v, content, pre, e, rest, pos, pos + k)
    {
      NothingPastEnd(v, content, pre[0], pos + k);
      ThroughStep(v, content, pre, e, rest, pos, pos + k);
    }
  }

  /** What one extent sends and what the others do make up the read. */
  lemma JoinThrough(v: Volume, content: nat -> byte, pre: seq<Extent>, e: Extent, rest: seq<Extent>, pos: nat,
                    next: nat, end: nat, head: seq<byte>, tail: seq<byte>)
    requires e.kind.Inline? && pre != [] && pos <= next <= end && |head| == next - pos
    requires forall x :: x in pre[1..] + ([e] + rest) ==> pre[0].fileOff <= x.fileOff
    requires next < end ==> next == Max(pos, ReachOf(v, pre[0]))
    requires forall k :: 0 <= k < |head| ==>
               if pos + k < pre[0].fileOff then head[k] == 0
               else Contribution(v, content, pre[0], pos + k) == Some(head[k])
    requires forall p :: next <= p < end ==> Contribution(v, content, pre[0], p) == None
    requires Through(v, content, pre[1..], e, rest, next, end, tail)
    ensures Through(v, content, pre, e, rest, pos, end, head + tail)
  {
    hide ByteThrough;
    hide Contribution;
    hide ReachOf;
    var all := head + tail;
    forall k | 0 <= k < |all|
      ensures all[k] == ByteThrough(v, content, pre, e, rest, pos, pos + k)
    {
      ThroughStep(v, content, pre, e, rest, pos, pos + k);
      if k >= |head| {
        assert all[k] == tail[k - |head|] && next + (k - |head|) == pos + k;
      } else if pos + k < pre[0].fileOff {
        assert forall x :: x in pre + ([e] + rest) ==> x == pre[0] || x in pre[1..] + ([e] + rest);
        ThroughBefore(v, content, pre, e, rest, pos, pos + k);
      }
    }
  }

  // ----- The exact condition -----

  /** Each payload byte past the declared size that no extent in front gives, as far as
      the file goes, is what the extents that follow give there (zero where nothing
      does); or those in front reach past the declared end, and the extent is never
      read. */
  ghost predicate ExcessAgrees(v: Volume, content: nat -> byte, pre: seq<Extent>, e: Extent, rest: seq<Extent>,
                               size: nat)
    requires e.kind.Inline?
  {
    || e.fileOff + e.ramBytes <= Reach(v, pre)
    || forall i {:trigger e.kind.raw[i]} ::
         (e.ramBytes <= i < |e.kind.raw| && e.fileOff + i < size && Earlier(v, content, pre, e.fileOff + i).None?) ==>
           e.kind.raw[i] == FileByte(v, content, rest, e.fileOff + i)
  }

  /** Reads of a file of `size` bytes with these extents join up. */
  ghost predicate Splits(v: Volume, exts: seq<Extent>, size: nat) {
    forall a, b, c :: 0 <= a <= b <= c ==> SplitsAt(v, exts, size, a, b, c)
  }

  ghost predicate SplitsAt(v: Volume, exts: seq<Extent>, size: nat, a: nat, b: nat, c: nat) {
    Flatten(Stream(v, exts, a, Min(c, size), Off).pieces)
    == Flatten(Stream(v, exts, a, Min(b, size), Off).pieces) + Flatten(Stream(v, exts, b, Min(c, size), Off).pieces)
  }

  /** Splitting a read never changes the bytes of a file with a plain inline extent,
      whatever sane extents lie around it, if and only if its payload past `ram_bytes`
      agrees with those. */
  lemma InlineSplitsExactly(v: Volume, content: nat -> byte, pre: seq<Extent>, e: Extent, rest: seq<Extent>, size: nat)
    requires PlainInline(v, e) && Around(v, content, pre, e, rest) && size < TWO64
    ensures Splits(v, pre + ([e] + rest), size) <==> ExcessAgrees(v, content, pre, e, rest, size)
  {
    hide Stream;
    hide Around;
    hide Through;
    if ExcessAgrees(v, content, pre, e, rest, size) {
      hide ExcessAgrees;
      forall a: nat, b: nat, c: nat | a <= b <= c
        ensures SplitsAt(v, pre + ([e] + rest), size, a, b, c)
      {
        StreamThrough(v, content, pre, e, rest, a, Min(c, size));
        StreamThrough(v, content, pre, e, rest, a, Min(b, size));
        StreamThrough(v, content, pre, e, rest, b, Min(c, size));
        AgreeingJoins(v, content, pre, e, rest, size, a, b, c,
                      Flatten(Stream(v, pre + ([e] + rest), a, Min(c, size), Off).pieces),
                      Flatten(Stream(v, pre + ([e] + rest), a, Min(b, size), Off).pieces),
                      Flatten(Stream(v, pre + ([e] + rest), b, Min(c, size), Off).pieces));
      }
    } else {
      var i :| e.ramBytes <= i < |e.kind.raw| && e.fileOff + i < size
               && Earlier(v, content, pre, e.fileOff + i).None?
               && e.kind.raw[i] != FileByte(v, content, rest, e.fileOff + i);
      DisagreeingSplits(v, content, pre, e, rest, size, i);
    }
  }

  lemma DisagreeingSplits(v: Volume, content: nat -> byte, pre: seq<Extent>, e: Extent, rest: seq<Extent>, size: nat,
                          i: nat)
    requires PlainInline(v, e) && Around(v, content, pre, e, rest) && size < TWO64
    requires e.fileOff + e.ramBytes > Reach(v, pre)
    requires e.ramBytes <= i < |e.kind.raw| && e.fileOff + i < size && Earlier(v, content, pre, e.fileOff + i).None?
    requires e.kind.raw[i] != FileByte(v, content, rest, e.fileOff + i)
    ensures !Splits(v, pre + ([e] + rest), size)
  {
    hide Stream;
    hide Around;
    hide Earlier;
    hide FileByte;
    hide ByteThrough;
    hide Splits;
    var exts := pre + ([e] + rest);
    var b, c := e.fileOff + e.ramBytes, e.fileOff + i + 1;
    DisagreeingByte(v, content, pre, e, rest, i);
    StreamThrough(v, content, pre, e, rest, 0, c);
    StreamThrough(v, content, pre, e, rest, 0, b);
    StreamThrough(v, content, pre, e, rest, b, c);
    var whole, first := Flatten(Stream(v, exts, 0, c, Off).pieces), Flatten(Stream(v, exts, 0, b, Off).pieces);
    var second := Flatten(Stream(v, exts, b, c, Off).pieces);
    assert whole[c - 1] == e.kind.raw[i];
    assert (first + second)[c - 1] == second[c - 1 - b] == FileByte(v, content, rest, e.fileOff + i);
    assert Min(c, size) == c && Min(b, size) == b;
    assert !SplitsAt(v, exts, size, 0, b, c);
    NotSplit(v, exts, size, 0, b, c);
  }

  lemma NotSplit(v: Volume, exts: seq<Extent>, size: nat, a: nat, b: nat, c: nat)
    requires a <= b <= c && !SplitsAt(v, exts, size, a, b, c)
    ensures !Splits(v, exts, size)
  {
    hide SplitsAt;
  }

  /** Read from the front the byte is the payload's, read from the declared end it is not. */
  lemma DisagreeingByte(v: Volume, content: nat -> byte, pre: seq<Extent>, e: Extent, rest: seq<Extent>, i: nat)
    requires e.kind.Inline? && e.fileOff + e.ramBytes > Reach(v, pre)
    requires e.ramBytes <= i < |e.kind.raw| && Earlier(v, content, pre, e.fileOff + i).None?
    ensures ByteThrough(v, content, pre, e, rest, 0, e.fileOff + i) == e.kind.raw[i]
    ensures ByteThrough(v, content, pre, e, rest, e.fileOff + e.ramBytes, e.fileOff + i)
         == FileByte(v, content, rest, e.fileOff + i)
  {
    hide Earlier;
    hide FileByte;
    hide Reach;
  }

  lemma AgreeingJoins(v: Volume, content: nat -> byte, pre: seq<Extent>, e: Extent, rest: seq<Extent>, size: nat,
                      a: nat, b: nat, c: nat, x: seq<byte>, y: seq<byte>, z: seq<byte>)
    requires e.kind.Inline? && ExcessAgrees(v, content, pre, e, rest, size) && a <= b <= c
    requires Through(v, content, pre, e, rest, a, Min(c, size), x)
    requires Through(v, content, pre, e, rest, a, Min(b, size), y)
    requires Through(v, content, pre, e, rest, b, Min(c, size), z)
    ensures x == y + z
  {
    hide ByteThrough;
    hide ExcessAgrees;
    forall k | 0 <= k < |x|
      ensures x[k] == (y + z)[k]
    {
      if k >= |y| {
        assert (y + z)[k] == z[k - |y|];
        SameFromBoth(v, content, pre, e, rest, size, a, b, a + k);
      }
    }
  }

  /** A byte does not depend on where the read began. */
  lemma SameFromBoth(v: Volume, content: nat -> byte, pre: seq<Extent>, e: Extent, rest: seq<Extent>, size: nat,
                     a: nat, b: nat, p: nat)
    requires e.kind.Inline? && ExcessAgrees(v, content, pre, e, rest, size) && a <= b <= p < size
    ensures ByteThrough(v, content, pre, e, rest, a, p) == ByteThrough(v, content, pre, e, rest, b, p)
  {
    hide FileByte;
    hide Reach;
    hide Earlier;
    if e.fileOff <= p < e.fileOff + |e.kind.raw| {
      assert e.kind.raw[p - e.fileOff] == e.kind.raw[p - e.fileOff];
    }
  }

  lemma InlineIsAround(v: Volume, content: nat -> byte, e: Extent, rest: seq<Extent>)
    requires Following(v, content, e, rest)
    ensures Around(v, content, [], e, rest) && Reach(v, []) == 0
  {
    assert [] + ([e] + rest) == [e] + rest;
  }

  /** A concrete file whose bytes depend on how it is read: two payload bytes
      declared as one. */
  lemma OverrunningInlineSplitsBadly(v: Volume)
    ensures !Splits(v, [Extent(0, 1, 1, 0, Inline([7, 7]))], 2)
  {
    var e := Extent(0, 1, 1, 0, Inline([7, 7]));
    var content: nat -> byte := _ => 0;
    InlineIsAround(v, content, e, []);
    assert [] + ([e] + []) == [e];
    assert e.kind.raw[1] != FileByte(v, content, [], 1);
    DisagreeingSplits(v, content, [], e, [], 2, 1);
  }

  const SHADOWING := Extent(0, 1, 1, 0, Inline([7, 0]))
  const SHADOWED := Extent(1, 1, 1, 0, Inline([9]))

  lemma ShadowedFollows(v: Volume, content: nat -> byte)
    ensures Following(v, content, SHADOWING, [SHADOWED])
  {
    hide Streamable;
    InlineIsStreamable(v, SHADOWED);
    assert [SHADOWING] + [SHADOWED] == [SHADOWING, SHADOWED];
  }

  lemma ShadowedByte(v: Volume, content: nat -> byte)
    ensures FileByte(v, content, [SHADOWED], 1) == 9
  {
    InlineSource(v, SHADOWED);
    assert Contribution(v, content, SHADOWED, 1) == Some(9);
  }

  /** And one whose excess byte is zero, but not what the next extent gives. */
  lemma ShadowingInlineSplitsBadly(v: Volume)
    ensures !Splits(v, [SHADOWING, SHADOWED], 2)
  {
    hide Splits;
    hide Following;
    hide Around;
    hide Reach;
    hide FileByte;
    var content: nat -> byte := _ => 0;
    ShadowedFollows(v, content);
    ShadowedByte(v, content);
    InlineIsAround(v, content, SHADOWING, [SHADOWED]);
    assert [] + ([SHADOWING] + [SHADOWED]) == [SHADOWING, SHADOWED];
    DisagreeingSplits(v, content, [], SHADOWING, [SHADOWED], 2, 1);
  }

  lemma InlineIsStreamable(v: Volume, e: Extent)
    requires PlainInline(v, e)
    ensures Streamable(v, e)
  {
    hide Prepare;
    InlineSource(v, e);
  }
}
