// File data (src/fs.rs): from a file's extent list to the pieces streamed to a
// sink, through the one-slot cache of decompressed extents.
//
// The meaning of a file is a byte function: byte p comes from the first extent
// that covers p, or is zero. Streaming a range is proved to deliver it.

module FileData {
  import opened Bytes
  import opened Disk
  import opened Decompress
  import opened Volumes
  import opened Walks

  // ----- Trees, inodes and extent lists -----

  datatype Loc = Loc(tree: nat, ino: nat)

  datatype TreeRoot = TreeRoot(bytenr: nat, rootDirid: nat)

  function KeepLast(acc: Option<seq<byte>>, k: Key, d: seq<byte>): Visit<Option<seq<byte>>> {
    Go(Some(d))
  }

  function RootItem(item: Option<seq<byte>>): Result<TreeRoot> {
    if item.None? then Err(NoTree) else
      var bytenr :- U64At(item.value, 176);
      // The directory id lies before the address.
      Ok(TreeRoot(bytenr, U64At(item.value, 168).value))
  }

  /** The root of subvolume tree `id`: its last ROOT_ITEM. */
  function TreeOf(v: Volume, id: nat): Result<TreeRoot> {
    var w := Walk(v, v.root, Key(id, ROOT_ITEM_KEY, 0), Key(id, ROOT_ITEM_KEY, U64_MAX), KeepLast, None);
    match w.out
    case Failed(e) => Err(e)
    case _ => RootItem(w.acc)
  }

  /** The empty-directory stand-in for a subvolume that is not linked here. */
  predicate IsPlaceholder(loc: Loc) {
    loc.tree == 0
  }

  const PLACEHOLDER_INODE := Inode(0, 0x41ED)

  function InodeOf(v: Volume, loc: Loc): (r: Result<Inode>)
    ensures r.Ok? ==> r.value.size < TWO64
  {
    if IsPlaceholder(loc) then Ok(PLACEHOLDER_INODE) else
      var tree :- TreeOf(v, loc.tree);
      var item :- GetOf(v, tree.bytenr, Key(loc.ino, INODE_ITEM_KEY, 0));
      if item.None? then Err(NoInode) else InodeAt(item.value)
  }

  function CollectExtent(acc: seq<Extent>, k: Key, d: seq<byte>): Visit<seq<Extent>> {
    match ExtentAt(k.offset, d)
    case Ok(e) => Go(acc + [e])
    case Err(e) => Fail(acc, e)
  }

  function ExtentsOf(v: Volume, loc: Loc): Result<seq<Extent>> {
    var tree :- TreeOf(v, loc.tree);
    var w := Walk(v, tree.bytenr, Key(loc.ino, EXTENT_DATA_KEY, 0), Key(loc.ino, EXTENT_DATA_KEY, U64_MAX),
                  CollectExtent, []);
    match w.out
    case Failed(e) => Err(e)
    case _ => Ok(w.acc)
  }

  // ----- Pieces -----

  datatype Piece = Data(bytes: seq<byte>) | Hole(n: nat)

  function PieceBytes(p: Piece): seq<byte> {
    match p
    case Data(b) => b
    case Hole(n) => Zeros(n)
  }

  function Flatten(ps: seq<Piece>): seq<byte> {
    if ps == [] then [] else PieceBytes(ps[0]) + Flatten(ps[1..])
  }

  lemma {:induction false} FlattenConcat(a: seq<Piece>, b: seq<Piece>)
    ensures Flatten(a + b) == Flatten(a) + Flatten(b)
  {
    if a == [] {
      assert a + b == b;
    } else {
      assert (a + b)[1..] == a[1..] + b;
      FlattenConcat(a[1..], b);
    }
  }

  // ----- Where an extent's bytes come from -----

  /** The decompressed extent last used, keyed by its disk address. `Off` is the
      reader without a cache. */
  datatype Cache = Off | Empty | Slot(addr: nat, plain: seq<byte>)

  const MAX_EXTENT: nat := 0x4000_0000
  const CHUNK: nat := 0x10_0000

  datatype Shape = Shape(diskNumBytes: nat, algo: nat, ramBytes: nat)

  /** Reading and decompressing one extent. */
  function Inflated(v: Volume, addr: nat, s: Shape): Result<seq<byte>> {
    if s.ramBytes > MAX_EXTENT || s.diskNumBytes > MAX_EXTENT then Err(Implausible) else
      var raw :- LogicalBytes(v, addr, s.diskNumBytes);
      Decompressed(v.codecs, s.algo, raw, s.ramBytes, v.sectorsize, false)
  }

  function CompressedOf(v: Volume, addr: nat, s: Shape, cache: Cache): (Result<seq<byte>>, Cache) {
    if cache.Slot? && cache.addr == addr then (Ok(cache.plain), cache) else
      var r := Inflated(v, addr, s);
      (r, if r.Ok? && !cache.Off? then Slot(addr, r.value) else cache)
  }

  datatype Source =
    | Nothing
    | Held(from: nat, plain: seq<byte>)
    | Window(from: nat, plain: seq<byte>, offset: nat)
    | Stored(from: nat, base: nat)

  /** An extent made ready: its bytes, and where in the file they end. */
  datatype Ready = Ready(source: Source, to: nat)

  function End(e: Extent): nat {
    Min(e.fileOff + e.len, U64_MAX)
  }

  function InlineBytes(v: Volume, e: Extent): Result<seq<byte>>
    requires e.kind.Inline?
  {
    if e.ramBytes > v.nodesize then Err(Implausible)
    else if e.compression == 0 then Ok(e.kind.raw)
    else Decompressed(v.codecs, e.compression, e.kind.raw, e.ramBytes, v.sectorsize, true)
  }

  function Prepare(v: Volume, e: Extent, cache: Cache): (Result<Ready>, Cache) {
    match e.kind
    case Prealloc => (Ok(Ready(Nothing, End(e))), cache)
    case Inline(_) =>
      (match InlineBytes(v, e)
       case Ok(plain) => Ok(Ready(Held(e.fileOff, plain), Add64(e.fileOff, |plain|)))
       case Err(x) => Err(x), cache)
    case Regular(addr, num, offset) =>
      if addr == 0 then (Ok(Ready(Nothing, End(e))), cache)
      else if e.compression == 0 then
        (if addr + offset >= TWO64 then Err(AddressOverflow)
         else Ok(Ready(Stored(e.fileOff, addr + offset), End(e))), cache)
      else
        var (r, cache') := CompressedOf(v, addr, Shape(num, e.compression, e.ramBytes), cache);
        (match r
         case Ok(plain) => Ok(Ready(Window(e.fileOff, plain, offset), End(e)))
         case Err(x) => Err(x), cache')
  }

  predicate StartsBy(src: Source, at: nat) {
    src.Nothing? || src.from <= at
  }

  function Fetch(v: Volume, src: Source, at: nat, n: nat): (r: Result<seq<byte>>)
    requires StartsBy(src, at)
    ensures r.Ok? ==> |r.value| == n
  {
    match src
    case Nothing => Ok(Zeros(n))
    case Held(from, plain) => Sub(plain, at - from, n)
    case Window(from, plain, offset) =>
      var s := Add64(offset, at - from);
      if s + n <= |plain| then Ok(plain[s..s + n]) else Err(OutsideExtent)
    case Stored(from, base) =>
      if base + (at - from) >= TWO64 then Err(AddressOverflow)
      else LogicalBytes(v, base + (at - from), n)
  }

  // ----- Emitting -----

  /** What was sent to the sink, and the error that ended it, if any. */
  datatype Emitted = Emitted(pieces: seq<Piece>, status: Option<Error>)

  function Chunks(v: Volume, src: Source, at: nat, to: nat): Emitted
    requires StartsBy(src, at)
    decreases Max(0, to - at)
  {
    if at >= to then Emitted([], None) else
      var n := Min(to - at, CHUNK);
      match Fetch(v, src, at, n)
      case Err(e) => Emitted([], Some(e))
      case Ok(b) =>
        var rest := Chunks(v, src, at + n, to);
        Emitted([Data(b)] + rest.pieces, rest.status)
  }

  /** [from, to) clipped to what is still wanted. */
  function Clip(from: nat, to: nat, pos: nat, end: nat): (c: (nat, nat)) {
    (Max(from, pos), Min(to, end))
  }

  function Emit(v: Volume, src: Source, from: nat, to: nat, pos: nat, end: nat): Emitted
    requires StartsBy(src, from)
  {
    var (from, to) := Clip(from, to, pos, end);
    if from >= to then Emitted([], None) else
      var gap := if from > pos then [Hole(from - pos)] else [];
      if src.Nothing? then Emitted(gap + [Hole(to - from)], None) else
        var body := Chunks(v, src, from, to);
        Emitted(gap + body.pieces, body.status)
  }

  function Advanced(from: nat, to: nat, pos: nat, end: nat): nat {
    var (from, to) := Clip(from, to, pos, end);
    if from >= to then pos else to
  }

  datatype Streamed = Streamed(pieces: seq<Piece>, status: Option<Error>, cache: Cache)

  function TrailingHole(pos: nat, end: nat): seq<Piece> {
    if pos < end then [Hole(end - pos)] else []
  }

  /** Streaming [pos, end) from the extents that remain. */
  function Stream(v: Volume, exts: seq<Extent>, pos: nat, end: nat, cache: Cache): Streamed {
    if exts == [] || pos >= end || exts[0].fileOff >= end then Streamed(TrailingHole(pos, end), None, cache)
    else if End(exts[0]) <= pos then Stream(v, exts[1..], pos, end, cache)
    else
      var (ready, cache') := Prepare(v, exts[0], cache);
      match ready
      case Err(e) => Streamed([], Some(e), cache')
      case Ok(Ready(src, to)) =>
        var from := exts[0].fileOff;
        var em := Emit(v, src, from, to, pos, end);
        if em.status.Some? then Streamed(em.pieces, em.status, cache') else
          var rest := Stream(v, exts[1..], Advanced(from, to, pos, end), end, cache');
          Streamed(em.pieces + rest.pieces, rest.status, rest.cache)
  }

  /** What `read_range` sends to its sink. */
  function ReadRangeOf(v: Volume, loc: Loc, start: nat, end: nat, cache: Cache): Streamed {
    match InodeOf(v, loc)
    case Err(e) => Streamed([], Some(e), cache)
    case Ok(inode) =>
      match ExtentsOf(v, loc)
      case Err(e) => Streamed([], Some(e), cache)
      case Ok(exts) => Stream(v, exts, start, Min(end, inode.size), cache)
  }

  // ----- The meaning of a file -----

  /** The bytes [addr, addr + n) of the volume. */
  ghost function DiskBytes(content: nat -> byte, addr: nat, n: nat): (b: seq<byte>)
    ensures |b| == n && forall i :: 0 <= i < n ==> b[i] == content(addr + i)
  {
    seq(n, i requires 0 <= i < n => content(addr + i))
  }

  /** What an extent's stored bytes decode to, whole. */
  ghost function Decoding(v: Volume, content: nat -> byte, e: Extent): Result<seq<byte>> {
    match e.kind
    case Prealloc => Ok([])
    case Inline(raw) => Decompressed(v.codecs, e.compression, raw, e.ramBytes, v.sectorsize, true)
    case Regular(addr, num, _) =>
      Decompressed(v.codecs, e.compression, DiskBytes(content, addr, num), e.ramBytes, v.sectorsize, false)
  }

  /** The byte extent `e` gives position `p`, from the extent's record alone; none where
      it does not reach. A record is a hole or preallocated, which is zeros; a payload in
      the leaf; or a window on what lies on disk from `addr` on. */
  ghost function Contribution(v: Volume, content: nat -> byte, e: Extent, p: nat): Option<byte> {
    if p < e.fileOff then None else
      var k := p - e.fileOff;
      match e.kind
      case Prealloc => if k < e.len then Some(0) else None
      case Inline(raw) =>
        if e.compression == 0 then (if k < |raw| then Some(raw[k]) else None)
        else if Decoding(v, content, e).Err? then None
        else if k < |Decoding(v, content, e).value| then Some(Decoding(v, content, e).value[k])
        else None
      case Regular(addr, num, offset) =>
        if k >= e.len then None
        else if addr == 0 then Some(0)
        else if e.compression == 0 then Some(content(addr + offset + k))
        else if Decoding(v, content, e).Err? || offset + k >= |Decoding(v, content, e).value| then Some(0)
        else Some(Decoding(v, content, e).value[offset + k])
  }

  /** Byte `p`: from the first extent that reaches it, or zero. */
  ghost function FileByte(v: Volume, content: nat -> byte, exts: seq<Extent>, p: nat): byte {
    if exts == [] then 0 else
      match Contribution(v, content, exts[0], p)
      case Some(b) => b
      case None => FileByte(v, content, exts[1..], p)
  }

  ghost predicate SortedExtents(exts: seq<Extent>) {
    forall i, j :: 0 <= i < j < |exts| ==> exts[i].fileOff <= exts[j].fileOff
  }

  /** No sum of the extent's addresses passes 2^64, and a plain inline payload is
      no longer than the size the extent declares. */
  ghost predicate Sane(v: Volume, e: Extent) {
    match e.kind
    case Prealloc => true
    case Inline(raw) =>
      && (e.compression == 0 ==> |raw| <= e.ramBytes)
      && e.fileOff + e.ramBytes < TWO64 && e.len == e.ramBytes
    case Regular(addr, num, offset) => addr + offset + e.len < TWO64 && addr + num < TWO64
  }

  ghost predicate AllSane(v: Volume, exts: seq<Extent>) {
    forall e :: e in exts ==> Sane(v, e)
  }

  /** An extent whose bytes lie on the devices. */
  predicate OnDevice(e: Extent) {
    e.kind.Regular? && e.kind.diskBytenr != 0
  }

  /** `content` is what the devices hold, if any of the extents asks for it. */
  ghost predicate Grounded(v: Volume, content: nat -> byte, exts: seq<Extent>) {
    (exists e :: e in exts && OnDevice(e)) ==> Faithful(v, content)
  }

  /** `bytes` are the file's from `pos` on. */
  ghost predicate Delivers(v: Volume, content: nat -> byte, exts: seq<Extent>, pos: nat, bytes: seq<byte>) {
    forall k :: 0 <= k < |bytes| ==> bytes[k] == FileByte(v, content, exts, pos + k)
  }

  // ----- Streaming delivers the meaning -----

  ghost function SourceByte(content: nat -> byte, src: Source, p: nat): byte
    requires StartsBy(src, p)
  {
    match src
    case Nothing => 0
    case Held(from, plain) => if p - from < |plain| then plain[p - from] else 0
    case Window(from, plain, offset) => if offset + (p - from) < |plain| then plain[offset + (p - from)] else 0
    case Stored(from, base) => content(base + (p - from))
  }

  /** The source's addresses up to file position `to` do not wrap. */
  ghost predicate Reaches(src: Source, to: nat) {
    match src
    case Nothing => true
    case Held(_, _) => true
    case Window(from, _, offset) => offset + to < TWO64 + from
    case Stored(from, base) => base + to < TWO64 + from
  }

  lemma FetchDelivers(v: Volume, content: nat -> byte, src: Source, at: nat, n: nat)
    requires StartsBy(src, at) && Reaches(src, at + n) && (src.Stored? ==> Faithful(v, content))
    ensures var r := Fetch(v, src, at, n);
            r.Ok? ==> forall k :: 0 <= k < n ==> r.value[k] == SourceByte(content, src, at + k)
  {
    hide LogicalBytes;
    if src.Stored? && Fetch(v, src, at, n).Ok? {
      var addr := src.base + (at - src.from);
      LogicalBytesFaithful(v, content, addr, n);
      forall k | 0 <= k < n
        ensures Fetch(v, src, at, n).value[k] == SourceByte(content, src, at + k)
      {
        assert addr + k == src.base + (at + k - src.from);
      }
    }
  }

  lemma {:induction false} ChunksDeliver(v: Volume, content: nat -> byte, src: Source, at: nat, to: nat)
    requires StartsBy(src, at) && Reaches(src, to) && (src.Stored? ==> Faithful(v, content)) && at <= to
    ensures var em := Chunks(v, src, at, to);
            var b := Flatten(em.pieces);
            && |b| <= to - at && (em.status.None? ==> |b| == to - at)
            && (forall k :: 0 <= k < |b| ==> b[k] == SourceByte(content, src, at + k))
    decreases Max(0, to - at)
  {
    hide Fetch;
    hide SourceByte;
    if at < to {
      var n := Min(to - at, CHUNK);
      FetchDelivers(v, content, src, at, n);
      if Fetch(v, src, at, n).Ok? {
        ChunksDeliver(v, content, src, at + n, to);
        var got, rest := Fetch(v, src, at, n).value, Chunks(v, src, at + n, to);
        var tail := Flatten(rest.pieces);
        assert Chunks(v, src, at, to).pieces[1..] == rest.pieces;
        forall k | 0 <= k < |got + tail|
          ensures (got + tail)[k] == SourceByte(content, src, at + k)
        {
          if k >= n {
            assert (got + tail)[k] == tail[k - n];
            assert at + k == at + n + (k - n);
          }
        }
      }
    }
  }

  /** What an emission sends: zeros up to the extent, then the extent's bytes. */
  lemma EmitDelivers(v: Volume, content: nat -> byte, src: Source, from: nat, to: nat, pos: nat, end: nat)
    requires StartsBy(src, from) && Reaches(src, to) && (src.Stored? ==> Faithful(v, content))
    ensures var em := Emit(v, src, from, to, pos, end);
            var b := Flatten(em.pieces);
            && |b| <= Advanced(from, to, pos, end) - pos
            && (em.status.None? ==> |b| == Advanced(from, to, pos, end) - pos)
            && (forall k :: 0 <= k < |b| ==>
                  b[k] == if pos + k < from then 0 else SourceByte(content, src, pos + k))
  {
    hide SourceByte;
    hide Chunks;
    hide Reaches;
    hide Faithful;
    var (f, t) := Clip(from, to, pos, end);
    if f < t {
      var gap: seq<Piece> := if f > pos then [Hole(f - pos)] else [];
      assert Flatten(gap) == Zeros(f - pos) by {
        if f > pos {
          assert gap[1..] == [] && Flatten(gap[1..]) == [];
        }
      }
      var body: seq<Piece> := if src.Nothing? then [Hole(t - f)] else Chunks(v, src, f, t).pieces;
      FlattenConcat(gap, body);
      if src.Nothing? {
        NothingByte(content, src);
        assert body[1..] == [];
        assert Flatten(body) == Zeros(t - f);
      } else {
        ReachesLess(src, to, t);
        ChunksDeliver(v, content, src, f, t);
      }
      GapThenBody(content, src, from, f, pos, Flatten(body));
    }
  }

  lemma GapThenBody(content: nat -> byte, src: Source, from: nat, f: nat, pos: nat, body: seq<byte>)
    requires StartsBy(src, from) && f == Max(from, pos)
    requires forall k :: 0 <= k < |body| ==> body[k] == SourceByte(content, src, f + k)
    ensures var whole := Zeros(f - pos) + body;
            forall k :: 0 <= k < |whole| ==>
              whole[k] == if pos + k < from then 0 else SourceByte(content, src, pos + k)
  {
    hide SourceByte;
    var whole := Zeros(f - pos) + body;
    forall k | 0 <= k < |whole|
      ensures whole[k] == if pos + k < from then 0 else SourceByte(content, src, pos + k)
    {
      if k >= f - pos {
        assert whole[k] == body[k - (f - pos)];
        assert f + (k - (f - pos)) == pos + k;
      }
    }
  }

  lemma NothingByte(content: nat -> byte, src: Source)
    requires src.Nothing?
    ensures forall p :: StartsBy(src, p) && SourceByte(content, src, p) == 0
  {
  }

  lemma ReachesLess(src: Source, to: nat, to': nat)
    requires Reaches(src, to) && to' <= to
    ensures Reaches(src, to')
  {
  }

  lemma InflatedIsDecoding(v: Volume, content: nat -> byte, e: Extent)
    requires e.kind.Regular? && Faithful(v, content) && e.kind.diskBytenr + e.kind.diskNumBytes < TWO64
    requires Inflated(v, e.kind.diskBytenr, Shape(e.kind.diskNumBytes, e.compression, e.ramBytes)).Ok?
    ensures Decoding(v, content, e)
         == Inflated(v, e.kind.diskBytenr, Shape(e.kind.diskNumBytes, e.compression, e.ramBytes))
  {
    hide Decompressed;
    hide LogicalBytes;
    var Regular(addr, num, _) := e.kind;
    LogicalBytesFaithful(v, content, addr, num);
    assert LogicalBytes(v, addr, num).value == DiskBytes(content, addr, num);
  }

  /** An extent made ready gives its contribution and nothing past its end. */
  lemma PreparedContributes(v: Volume, content: nat -> byte, e: Extent)
    requires Sane(v, e) && Prepare(v, e, Off).0.Ok? && (OnDevice(e) ==> Faithful(v, content))
    ensures var Ready(src, to) := Prepare(v, e, Off).0.value;
            && StartsBy(src, e.fileOff) && Reaches(src, to) && to <= End(e) && (src.Stored? ==> OnDevice(e))
            && (forall p :: e.fileOff <= p < to ==> Contribution(v, content, e, p) == Some(SourceByte(content, src, p)))
            && (forall p :: to <= p < U64_MAX ==> Contribution(v, content, e, p) == None)
  {
    hide Decompressed;
    hide Inflated;
    hide Faithful;
    if e.compression != 0 {
      if OnDevice(e) {
        InflatedIsDecoding(v, content, e);
      }
      hide Decoding;
    }
  }

  /** Past its declared end an extent contributes nothing. */
  lemma NothingPastEnd(v: Volume, content: nat -> byte, e: Extent, p: nat)
    requires Sane(v, e) && End(e) <= p < U64_MAX
    ensures Contribution(v, content, e, p) == None
  {
    hide Decompressed;
  }

  lemma {:induction false} NothingBefore(v: Volume, content: nat -> byte, exts: seq<Extent>, p: nat)
    requires forall e :: e in exts ==> p < e.fileOff
    ensures FileByte(v, content, exts, p) == 0
  {
    if exts != [] {
      assert exts[0] in exts;
      NothingBefore(v, content, exts[1..], p);
    }
  }

  /** Streaming [pos, end) from sorted extents delivers the file's bytes there:
      all of them on success, a prefix of them on an error. */
  lemma {:induction false} StreamDelivers(v: Volume, content: nat -> byte, exts: seq<Extent>, pos: nat, end: nat)
    requires SortedExtents(exts) && AllSane(v, exts) && Grounded(v, content, exts) && end <= U64_MAX
    ensures var s := Stream(v, exts, pos, end, Off);
            var b := Flatten(s.pieces);
            && |b| <= Max(0, end - pos) && (s.status.None? ==> |b| == Max(0, end - pos))
            && Delivers(v, content, exts, pos, b)
  {
    hide Prepare;
    hide Contribution;
    hide Emit;
    hide Faithful;
    if exts == [] || pos >= end || exts[0].fileOff >= end {
      TrailingZeros(v, content, exts, pos, end);
    } else {
      var e, rest := exts[0], exts[1..];
      assert e in exts;
      if End(e) <= pos {
        StreamDelivers(v, content, rest, pos, end);
        forall p | pos <= p < end
          ensures FileByte(v, content, exts, p) == FileByte(v, content, rest, p)
        {
          NothingPastEnd(v, content, e, p);
        }
      } else if Prepare(v, e, Off).0.Ok? {
        var Ready(src, to) := Prepare(v, e, Off).0.value;
        OffStays(v, e);
        PreparedContributes(v, content, e);
        EmitDelivers(v, content, src, e.fileOff, to, pos, end);
        var em := Emit(v, src, e.fileOff, to, pos, end);
        var pos' := Advanced(e.fileOff, to, pos, end);
        HeadDelivers(v, content, exts, src, to, pos, end, Flatten(em.pieces));
        if em.status.None? {
          StreamDelivers(v, content, rest, pos', end);
          TailDelivers(v, content, exts, to, pos, end, Flatten(em.pieces),
                       Flatten(Stream(v, rest, pos', end, Off).pieces));
          FlattenConcat(em.pieces, Stream(v, rest, pos', end, Off).pieces);
        }
      }
    }
  }

  lemma OffStays(v: Volume, e: Extent)
    ensures Prepare(v, e, Off).1 == Off
  {
  }

  lemma TrailingZeros(v: Volume, content: nat -> byte, exts: seq<Extent>, pos: nat, end: nat)
    requires SortedExtents(exts)
    requires exts == [] || pos >= end || exts[0].fileOff >= end
    ensures var b := Flatten(TrailingHole(pos, end));
            |b| == Max(0, end - pos) && Delivers(v, content, exts, pos, b)
  {
    if pos < end {
      assert TrailingHole(pos, end)[1..] == [];
      forall p | pos <= p < end
        ensures FileByte(v, content, exts, p) == 0
      {
        NothingBefore(v, content, exts, p);
      }
    }
  }

  lemma HeadDelivers(v: Volume, content: nat -> byte, exts: seq<Extent>, src: Source, to: nat, pos: nat, end: nat,
                     b: seq<byte>)
    requires SortedExtents(exts) && exts != []
    requires StartsBy(src, exts[0].fileOff)
    requires forall p :: exts[0].fileOff <= p < to ==>
               Contribution(v, content, exts[0], p) == Some(SourceByte(content, src, p))
    requires |b| <= Advanced(exts[0].fileOff, to, pos, end) - pos
    requires forall k :: 0 <= k < |b| ==>
               b[k] == if pos + k < exts[0].fileOff then 0 else SourceByte(content, src, pos + k)
    ensures Delivers(v, content, exts, pos, b)
  {
    hide SourceByte;
    forall k | 0 <= k < |b|
      ensures b[k] == FileByte(v, content, exts, pos + k)
    {
      if pos + k < exts[0].fileOff {
        NothingBefore(v, content, exts, pos + k);
      } else {
        assert Contribution(v, content, exts[0], pos + k) == Some(SourceByte(content, src, pos + k));
      }
    }
  }

  lemma TailDelivers(v: Volume, content: nat -> byte, exts: seq<Extent>, to: nat, pos: nat, end: nat, b: seq<byte>,
                     tail: seq<byte>)
    requires exts != [] && end <= U64_MAX
    requires var pos' := Advanced(exts[0].fileOff, to, pos, end);
             |b| == pos' - pos && |tail| <= Max(0, end - pos') && Delivers(v, content, exts[1..], pos', tail)
    requires Delivers(v, content, exts, pos, b)
    requires forall p :: to <= p < U64_MAX ==> Contribution(v, content, exts[0], p) == None
    requires exts[0].fileOff < end && pos < end
    ensures Delivers(v, content, exts, pos, b + tail)
  {
    var pos' := Advanced(exts[0].fileOff, to, pos, end);
    forall k | 0 <= k < |b + tail|
      ensures (b + tail)[k] == FileByte(v, content, exts, pos + k)
    {
      if k >= |b| {
        assert (b + tail)[k] == tail[k - |b|];
        assert pos' + (k - |b|) == pos + k;
        if pos + k < exts[0].fileOff {
          BeforeFirst(v, content, exts[0], pos + k);
        } else {
          assert to <= pos + k;
        }
      }
    }
  }

  lemma BeforeFirst(v: Volume, content: nat -> byte, e: Extent, p: nat)
    requires p < e.fileOff
    ensures Contribution(v, content, e, p) == None
  {
  }

  // ----- Reading a range of a file -----

  /** A file the reader can stream: its extents in order and within bounds. */
  ghost predicate GoodFile(v: Volume, loc: Loc) {
    && ExtentsOf(v, loc).Ok?
    && SortedExtents(ExtentsOf(v, loc).value)
    && AllSane(v, ExtentsOf(v, loc).value)
  }

  /** The bytes of [start, stop) that an extent list means. */
  ghost function FileBytes(v: Volume, content: nat -> byte, exts: seq<Extent>, start: nat, stop: nat): (r: seq<byte>)
    ensures |r| == Max(0, stop - start) && Delivers(v, content, exts, start, r)
  {
    var n: nat := Max(0, stop - start);
    seq<byte>(n, (k: nat) => FileByte(v, content, exts, start + k))
  }

  lemma DeliveredIsPrefix(v: Volume, content: nat -> byte, exts: seq<Extent>, start: nat, stop: nat, b: seq<byte>)
    requires Delivers(v, content, exts, start, b) && |b| <= Max(0, stop - start)
    ensures b <= FileBytes(v, content, exts, start, stop)
  {
    hide FileByte;
  }

  lemma FileBytesJoin(v: Volume, content: nat -> byte, exts: seq<Extent>, size: nat, a: nat, b: nat, c: nat)
    requires a <= b <= c
    ensures FileBytes(v, content, exts, a, Min(c, size))
         == FileBytes(v, content, exts, a, Min(b, size)) + FileBytes(v, content, exts, b, Min(c, size))
  {
    hide FileByte;
    var x, y := FileBytes(v, content, exts, a, Min(b, size)), FileBytes(v, content, exts, b, Min(c, size));
    forall k | 0 <= k < |x + y|
      ensures (x + y)[k] == FileByte(v, content, exts, a + k)
    {
      if k >= |x| {
        assert (x + y)[k] == y[k - |x|];
        assert b + (k - |x|) == a + k;
      }
    }
  }

  /** The bytes of [start, min(end, size)) of a file. */
  ghost function Meaning(v: Volume, content: nat -> byte, loc: Loc, start: nat, end: nat): seq<byte>
    requires InodeOf(v, loc).Ok? && ExtentsOf(v, loc).Ok?
  {
    FileBytes(v, content, ExtentsOf(v, loc).value, start, Min(end, InodeOf(v, loc).value.size))
  }

  /** A successful `read_range` streams exactly the file's bytes in the range; a
      failing one has streamed a prefix of them. */
  lemma ReadRangeDelivers(v: Volume, content: nat -> byte, loc: Loc, start: nat, end: nat)
    requires Faithful(v, content) && InodeOf(v, loc).Ok? && GoodFile(v, loc)
    ensures var s := ReadRangeOf(v, loc, start, end, Off);
            && Flatten(s.pieces) <= Meaning(v, content, loc, start, end)
            && (s.status.None? ==> Flatten(s.pieces) == Meaning(v, content, loc, start, end))
  {
    hide Stream;
    hide FileByte;
    hide ExtentsOf;
    hide InodeOf;
    hide FileBytes;
    hide Delivers;
    var exts, stop := ExtentsOf(v, loc).value, Min(end, InodeOf(v, loc).value.size);
    StreamDelivers(v, content, exts, start, stop);
    DeliveredIsPrefix(v, content, exts, start, stop, Flatten(Stream(v, exts, start, stop, Off).pieces));
  }

  /** Reading [a, b) and then [b, c) is reading [a, c). */
  lemma RangesJoin(v: Volume, content: nat -> byte, loc: Loc, a: nat, b: nat, c: nat)
    requires Faithful(v, content) && InodeOf(v, loc).Ok? && GoodFile(v, loc)
    requires a <= b <= c
    requires ReadRangeOf(v, loc, a, b, Off).status.None?
    requires ReadRangeOf(v, loc, b, c, Off).status.None?
    requires ReadRangeOf(v, loc, a, c, Off).status.None?
    ensures Flatten(ReadRangeOf(v, loc, a, c, Off).pieces)
         == Flatten(ReadRangeOf(v, loc, a, b, Off).pieces) + Flatten(ReadRangeOf(v, loc, b, c, Off).pieces)
  {
    hide ReadRangeOf;
    hide ExtentsOf;
    hide InodeOf;
    hide FileBytes;
    ReadRangeDelivers(v, content, loc, a, b);
    ReadRangeDelivers(v, content, loc, b, c);
    ReadRangeDelivers(v, content, loc, a, c);
    FileBytesJoin(v, content, ExtentsOf(v, loc).value, InodeOf(v, loc).value.size, a, b, c);
  }
}
