// The chunk map and its mirrors (src/fs.rs): from a logical address to the
// bytes of the first mirror that delivers them, for file data and for tree
// blocks.

module Volumes {
  import opened Bytes
  import opened Disk
  import opened Dev
  import opened Decompress

  /** The sizes a superblock may declare. */
  type NodeSize = n: nat | 4096 <= n <= 65536 witness 4096
  type SectorSize = n: nat | 512 <= n <= 65536 witness 512

  /** A raw tree block: at least a header. */
  type Node = b: seq<byte> | |b| >= HEADER_SIZE witness Zeros(HEADER_SIZE)

  /** An opened filesystem: its devices by id, its chunks in ascending order of
      start, what the superblock says, and the library functions it relies on. */
  datatype Volume = Volume(
    devs: map<nat, Media>,
    chunks: seq<Chunk>,
    nodesize: NodeSize,
    sectorsize: SectorSize,
    csumType: nat,
    root: nat,
    crc: seq<byte> -> nat,
    nameHash: seq<byte> -> nat,
    lossy: seq<byte> -> seq<byte>,
    codecs: Codecs)

  // ----- Chunks and mirrors -----

  ghost predicate Ascending(chunks: seq<Chunk>) {
    forall i, j :: 0 <= i < j < |chunks| ==> chunks[i].start < chunks[j].start
  }

  /** The last chunk that starts at or before `logical`. */
  function Predecessor(chunks: seq<Chunk>, logical: nat): (r: Option<Chunk>)
    ensures r.Some? ==> r.value.start <= logical
  {
    if chunks == [] then None
    else if chunks[|chunks| - 1].start <= logical then Some(chunks[|chunks| - 1])
    else Predecessor(chunks[..|chunks| - 1], logical)
  }

  function Bit(n: nat, value: nat): bool
    requires value > 0
  {
    n / value % 2 == 1
  }

  /** RAID0, RAID10, RAID5 or RAID6. */
  predicate StripedProfile(ty: nat) {
    Bit(ty, 0x8) || Bit(ty, 0x40) || Bit(ty, 0x80) || Bit(ty, 0x100)
  }

  /** Chunks the reader refuses, because their data is spread over devices. */
  predicate Spread(c: Chunk) {
    StripedProfile(c.ty) && |c.stripes| > 1
  }

  datatype Mirror = Mirror(devid: nat, media: Media, phys: nat)

  /** The given devices that hold a copy of `logical`, in stripe order. */
  function Copies(devs: map<nat, Media>, c: Chunk, logical: nat, stripes: seq<Stripe>): seq<Mirror>
    requires c.start <= logical
  {
    if stripes == [] then [] else
      var rest := Copies(devs, c, logical, stripes[1..]);
      var s := stripes[0];
      if s.devid in devs
      then [Mirror(s.devid, devs[s.devid], Add64(s.phys, logical - c.start))] + rest
      else rest
  }

  /** The copies come in the order of the stripes: one for each device that is given. */
  lemma {:induction false} CopiesInOrder(devs: map<nat, Media>, c: Chunk, logical: nat, a: seq<Stripe>, b: seq<Stripe>)
    requires c.start <= logical
    ensures Copies(devs, c, logical, a + b) == Copies(devs, c, logical, a) + Copies(devs, c, logical, b)
  {
    if a == [] {
      assert a + b == b;
    } else {
      assert (a + b)[1..] == a[1..] + b;
      CopiesInOrder(devs, c, logical, a[1..], b);
    }
  }

  lemma CopyOfStripe(devs: map<nat, Media>, c: Chunk, logical: nat, s: Stripe)
    requires c.start <= logical && s.phys + (logical - c.start) < TWO64
    ensures s.devid in devs ==>
              Copies(devs, c, logical, [s]) == [Mirror(s.devid, devs[s.devid], s.phys + (logical - c.start))]
    ensures s.devid !in devs ==> Copies(devs, c, logical, [s]) == []
  {
    assert [s][1..] == [];
  }

  /** The profiles of the format, by their bits: those that stripe are refused. */
  lemma Profiles(ty: nat)
    ensures StripedProfile(0x8) && StripedProfile(0x40) && StripedProfile(0x80) && StripedProfile(0x100)
    ensures !StripedProfile(0) && !StripedProfile(0x10) && !StripedProfile(0x20)
         && !StripedProfile(0x200) && !StripedProfile(0x400)
    ensures ty < 8 ==> !StripedProfile(ty)
  {
  }

  lemma {:induction false} CopiesAreDevices(devs: map<nat, Media>, c: Chunk, logical: nat, stripes: seq<Stripe>)
    requires c.start <= logical
    ensures forall m :: m in Copies(devs, c, logical, stripes) ==> m.devid in devs && m.media == devs[m.devid]
  {
    if stripes != [] {
      CopiesAreDevices(devs, c, logical, stripes[1..]);
    }
  }

  lemma MirrorsAreDevices(v: Volume, logical: nat, len: nat)
    requires Mirrors(v, logical, len).Ok?
    ensures forall m :: m in Mirrors(v, logical, len).value ==> m.devid in v.devs && m.media == v.devs[m.devid]
  {
    var c := Predecessor(v.chunks, logical).value;
    CopiesAreDevices(v.devs, c, logical, c.stripes);
  }

  function Mirrors(v: Volume, logical: nat, len: nat): (r: Result<seq<Mirror>>)
    ensures r.Ok? ==> r.value != []
  {
    match Predecessor(v.chunks, logical)
    case None => Err(Unmapped)
    case Some(c) =>
      if Add64(logical, len) > Add64(c.start, c.length) then Err(Unmapped)
      else if Spread(c) then Err(Striped)
      else
        var out := Copies(v.devs, c, logical, c.stripes);
        if out == [] then Err(DeviceMissing) else Ok(out)
  }

  lemma {:induction false} PredecessorFound(chunks: seq<Chunk>, logical: nat)
    ensures match Predecessor(chunks, logical)
            case Some(c) => c in chunks && c.start <= logical
            case None => forall c :: c in chunks ==> logical < c.start
    ensures Ascending(chunks) && Predecessor(chunks, logical).Some? ==>
              forall c :: c in chunks && c.start <= logical ==> c.start <= Predecessor(chunks, logical).value.start
  {
    if chunks != [] {
      var last, init := chunks[|chunks| - 1], chunks[..|chunks| - 1];
      PredecessorFound(init, logical);
      assert chunks == init + [last];
    }
  }

  /** When a range is refused, for a chunk map whose addresses do not wrap: no chunk of
      it; data striped over more than one device, a single stripe being read like any
      other; or no device of the chunk was given. */
  lemma RefusedExactly(v: Volume, logical: nat, len: nat, c: Chunk)
    requires Predecessor(v.chunks, logical) == Some(c)
    requires c.start + c.length < TWO64 && logical + len < TWO64
    ensures var r := Mirrors(v, logical, len);
            if !c.Holds(logical, len) then r == Err(Unmapped)
            else if |c.stripes| > 1 && StripedProfile(c.ty) then r == Err(Striped)
            else if forall s :: s in c.stripes ==> s.devid !in v.devs then r == Err(DeviceMissing)
            else r.Ok?
  {
    SomeCopy(v.devs, c, logical, c.stripes);
  }

  lemma {:induction false} SomeCopy(devs: map<nat, Media>, c: Chunk, logical: nat, stripes: seq<Stripe>)
    requires c.start <= logical
    ensures Copies(devs, c, logical, stripes) == [] <==> forall s :: s in stripes ==> s.devid !in devs
  {
    if stripes != [] {
      SomeCopy(devs, c, logical, stripes[1..]);
      assert forall s :: s in stripes <==> s == stripes[0] || s in stripes[1..];
    }
  }

  ghost predicate Disjoint(chunks: seq<Chunk>) {
    forall c, d :: c in chunks && d in chunks && c.start < d.start ==> c.start + c.length <= d.start
  }

  /** For chunks that do not overlap, the predecessor search finds the one chunk
      that holds a range, and none when there is none. */
  lemma SearchIsExact(v: Volume, logical: nat, len: nat)
    requires Ascending(v.chunks) && Disjoint(v.chunks)
    requires forall c :: c in v.chunks ==> c.start + c.length < TWO64
    requires len > 0 && logical + len < TWO64
    ensures forall c :: c in v.chunks && c.Holds(logical, len) ==> Predecessor(v.chunks, logical) == Some(c)
    ensures Mirrors(v, logical, len) == Err(Unmapped)
        <==> forall c :: c in v.chunks ==> !c.Holds(logical, len)
  {
    PredecessorFound(v.chunks, logical);
    forall c | c in v.chunks && c.Holds(logical, len)
      ensures Predecessor(v.chunks, logical) == Some(c)
    {
      var p := Predecessor(v.chunks, logical).value;
      assert c.start <= p.start;
      if c.start < p.start {
        assert false;
      }
      SameStart(v.chunks, c, p);
    }
  }

  lemma SameStart(chunks: seq<Chunk>, c: Chunk, d: Chunk)
    requires Ascending(chunks) && c in chunks && d in chunks && c.start == d.start
    ensures c == d
  {
    var i :| 0 <= i < |chunks| && chunks[i] == c;
    var j :| 0 <= j < |chunks| && chunks[j] == d;
    assert i == j;
  }

  // ----- File data: the first readable mirror -----

  function FirstRead(ms: seq<Mirror>, len: nat, lastErr: Error): (r: Result<seq<byte>>)
    ensures r.Ok? ==> |r.value| == len
  {
    if ms == [] then Err(lastErr) else
      match ReadOf(ms[0].media, ms[0].phys, len)
      case Ok(b) => Ok(b)
      case Err(e) => FirstRead(ms[1..], len, e)
  }

  /** Mirror `i` can be read and none before it. */
  ghost predicate ReadableFirst(ms: seq<Mirror>, len: nat, i: nat)
    requires i < |ms|
  {
    && ReadOf(ms[i].media, ms[i].phys, len).Ok?
    && forall j :: 0 <= j < i ==> ReadOf(ms[j].media, ms[j].phys, len).Err?
  }

  /** A read succeeds as soon as one mirror can be read, with the first that can. */
  lemma {:induction false} FirstReadExact(ms: seq<Mirror>, len: nat, lastErr: Error)
    ensures FirstRead(ms, len, lastErr).Ok? <==> exists m :: m in ms && ReadOf(m.media, m.phys, len).Ok?
    ensures forall i :: 0 <= i < |ms| && ReadableFirst(ms, len, i) ==>
              FirstRead(ms, len, lastErr) == ReadOf(ms[i].media, ms[i].phys, len)
  {
    hide ReadOf;
    if ms != [] {
      assert ms[0] in ms;
      var r := ReadOf(ms[0].media, ms[0].phys, len);
      if r.Err? {
        FirstReadExact(ms[1..], len, r.error);
        assert forall m :: m in ms <==> m == ms[0] || m in ms[1..];
        forall i | 0 < i < |ms| && ReadableFirst(ms, len, i)
          ensures FirstRead(ms, len, lastErr) == ReadOf(ms[i].media, ms[i].phys, len)
        {
          forall j | 0 <= j < i - 1
            ensures ReadOf(ms[1..][j].media, ms[1..][j].phys, len).Err?
          {
            assert ms[1..][j] == ms[j + 1];
          }
          assert ms[1..][i - 1] == ms[i] && ReadableFirst(ms[1..], len, i - 1);
        }
      }
    }
  }

  function LogicalBytes(v: Volume, logical: nat, len: nat): (r: Result<seq<byte>>)
    ensures r.Ok? ==> |r.value| == len
  {
    var ms :- Mirrors(v, logical, len);
    FirstRead(ms, len, Unreadable)
  }

  /** Every copy of every chunk that is read at all, where it exists, holds
      `content`. */
  ghost predicate Faithful(v: Volume, content: nat -> byte) {
    forall c :: c in v.chunks && !Spread(c) ==> FaithfulChunk(v, content, c)
  }

  ghost predicate FaithfulChunk(v: Volume, content: nat -> byte, c: Chunk) {
    && c.start + c.length < TWO64
    && forall s :: s in c.stripes && s.devid in v.devs ==>
         && s.phys + c.length < TWO64
         && HoldsContent(v.devs[s.devid].data, s.phys, content, c.start, c.length)
  }

  ghost predicate HoldsContent(data: seq<byte>, phys: nat, content: nat -> byte, start: nat, length: nat) {
    forall p :: phys <= p < phys + length && p < |data| ==> data[p] == content(start + (p - phys))
  }

  lemma {:induction false} CopiesFaithful(v: Volume, content: nat -> byte, c: Chunk, logical: nat, len: nat,
                                          stripes: seq<Stripe>)
    requires FaithfulChunk(v, content, c) && c.Holds(logical, len)
    requires forall s :: s in stripes ==> s in c.stripes
    ensures forall m :: m in Copies(v.devs, c, logical, stripes) ==>
              HoldsContent(m.media.data, m.phys, content, logical, len)
  {
    if stripes != [] {
      CopiesFaithful(v, content, c, logical, len, stripes[1..]);
      var s := stripes[0];
      assert s in stripes;
    }
  }

  lemma {:induction false} FirstReadFaithful(ms: seq<Mirror>, content: nat -> byte, logical: nat, len: nat,
                                             lastErr: Error)
    requires forall m :: m in ms ==> HoldsContent(m.media.data, m.phys, content, logical, len)
    ensures var r := FirstRead(ms, len, lastErr);
            r.Ok? ==> forall i :: 0 <= i < len ==> r.value[i] == content(logical + i)
  {
    if ms != [] {
      var m := ms[0];
      assert m in ms;
      match ReadOf(m.media, m.phys, len) {
        case Ok(b) =>
          forall i | 0 <= i < len
            ensures b[i] == content(logical + i)
          {
            assert b[i] == m.media.data[m.phys + i];
          }
        case Err(e) => FirstReadFaithful(ms[1..], content, logical, len, e);
      }
    }
  }

  /** Whichever mirror answers, a logical read delivers the volume's content. */
  lemma LogicalBytesFaithful(v: Volume, content: nat -> byte, logical: nat, len: nat)
    requires Faithful(v, content) && logical + len < TWO64
    requires LogicalBytes(v, logical, len).Ok?
    ensures forall i :: 0 <= i < len ==> LogicalBytes(v, logical, len).value[i] == content(logical + i)
  {
    PredecessorFound(v.chunks, logical);
    var c := Predecessor(v.chunks, logical).value;
    assert FaithfulChunk(v, content, c);
    CopiesFaithful(v, content, c, logical, len, c.stripes);
    FirstReadFaithful(Mirrors(v, logical, len).value, content, logical, len, Unreadable);
  }

  // ----- Tree blocks: the first mirror that proves itself -----

  function Level(n: Node): byte {
    n[100]
  }

  function NrItems(n: Node): (k: nat) {
    U32At(n, 96).value
  }

  function ItemAt(n: Node, i: nat): Result<(Key, seq<byte>)> {
    var o := HEADER_SIZE + i * 25;
    var key :- KeyAt(n, o);
    var off :- U32At(n, o + 17);
    var size :- U32At(n, o + 21);
    var data :- Sub(n, HEADER_SIZE + off, size);
    Ok((key, data))
  }

  function PtrAt(n: Node, i: nat): Result<(Key, nat)> {
    var o := HEADER_SIZE + i * 33;
    var key :- KeyAt(n, o);
    var child :- U64At(n, o + KEY_SIZE);
    Ok((key, child))
  }

  /** A tree block's header: checksum, filesystem id, its own address, flags up to the
      owner, the number of items, the level. */
  datatype NodeHead = NodeHead(csum: seq<byte>, fsid: seq<byte>, bytenr: nat, mid: seq<byte>, nritems: nat, level: byte)
  {
    predicate Fits() {
      |csum| == 32 && |fsid| == 16 && bytenr < TWO64 && |mid| == 40 && nritems < TWO32
    }
  }

  function NodeBytes(h: NodeHead, body: seq<byte>): (n: Node)
    requires h.Fits()
  {
    h.csum + (h.fsid + (ToLE(h.bytenr, 8) + (h.mid + (ToLE(h.nritems, 4) + ([h.level] + body)))))
  }

  lemma NodeLayout(h: NodeHead, body: seq<byte>)
    requires h.Fits()
    ensures var n := NodeBytes(h, body);
            && U64At(n, 48) == Ok(h.bytenr) && NrItems(n) == h.nritems && Level(n) == h.level
            && n[32..] == h.fsid + (ToLE(h.bytenr, 8) + (h.mid + (ToLE(h.nritems, 4) + ([h.level] + body))))
  {
    hide U64At;
    hide U32At;
    hide ToLE;
    var r4 := [h.level] + body;
    var r3 := ToLE(h.nritems, 4) + r4;
    var r2 := h.mid + r3;
    var r1 := ToLE(h.bytenr, 8) + r2;
    var r0 := h.fsid + r1;
    U64Shift(h.csum, r0, 16);
    U64Shift(h.fsid, r1, 0);
    U64Head(h.bytenr, r2);
    U32Shift(h.csum, r0, 64);
    U32Shift(h.fsid, r1, 48);
    U32Shift(ToLE(h.bytenr, 8), r2, 40);
    U32Shift(h.mid, r3, 0);
    U32Head(h.nritems, r4);
    LevelLaidOut(h, body);
  }

  lemma LevelLaidOut(h: NodeHead, body: seq<byte>)
    requires h.Fits()
    ensures NodeBytes(h, body)[100] == h.level
  {
    hide ToLE;
    var front := h.csum + (h.fsid + (ToLE(h.bytenr, 8) + (h.mid + ToLE(h.nritems, 4))));
    assert NodeBytes(h, body) == front + ([h.level] + body);
  }

  /** The i-th item of a leaf: its key, and where its data lies after the header. */
  lemma ItemLayout(n: Node, i: nat, front: seq<byte>, key: Key, off: nat, size: nat, post: seq<byte>)
    requires key.Fits() && off < TWO32 && size < TWO32 && |front| == 101 + 25 * i
    requires n == front + (KeyBytes(key) + (ToLE(off, 4) + (ToLE(size, 4) + post)))
    ensures 101 + off + size <= |n| ==> ItemAt(n, i) == Ok((key, n[101 + off..101 + off + size]))
    ensures 101 + off + size > |n| ==> ItemAt(n, i).Err?
  {
    hide U32At;
    hide KeyAt;
    hide KeyBytes;
    hide ToLE;
    var r := ToLE(off, 4) + (ToLE(size, 4) + post);
    KeyShift(front, KeyBytes(key) + r, 0);
    KeyHead(key, r);
    U32Shift(front, KeyBytes(key) + r, 17);
    U32Shift(KeyBytes(key), r, 0);
    U32Head(off, ToLE(size, 4) + post);
    U32Shift(front, KeyBytes(key) + r, 21);
    U32Shift(KeyBytes(key), r, 4);
    U32Shift(ToLE(off, 4), ToLE(size, 4) + post, 0);
    U32Head(size, post);
  }

  /** The i-th pointer of an inner node: its key and the child's address. */
  lemma PtrLayout(n: Node, i: nat, front: seq<byte>, key: Key, child: nat, post: seq<byte>)
    requires key.Fits() && child < TWO64 && |front| == 101 + 33 * i
    requires n == front + (KeyBytes(key) + (ToLE(child, 8) + post))
    ensures PtrAt(n, i) == Ok((key, child))
  {
    hide U64At;
    hide KeyAt;
    hide KeyBytes;
    hide ToLE;
    var r := ToLE(child, 8) + post;
    KeyShift(front, KeyBytes(key) + r, 0);
    KeyHead(key, r);
    U64Shift(front, KeyBytes(key) + r, 17);
    U64Shift(KeyBytes(key), r, 0);
    U64Head(child, post);
  }

  /** What the first mirror that can be read decides about: a block with its own address
      and, under crc32c, the checksum of all that follows the checksum field. */
  lemma SoundBlock(v: Volume, h: NodeHead, body: seq<byte>)
    requires h.Fits() && U32At(h.csum, 0) == Ok(v.crc(NodeBytes(h, body)[32..]))
    requires h.nritems <= (v.nodesize - HEADER_SIZE) / 25
    ensures Judge(v, h.bytenr, NodeBytes(h, body)) == Accept(NodeBytes(h, body))
  {
    hide U32At;
    hide U64At;
    NodeLayout(h, body);
    ChecksumField(h, body);
  }

  lemma ChecksumField(h: NodeHead, body: seq<byte>)
    requires h.Fits()
    ensures U32At(NodeBytes(h, body), 0) == U32At(h.csum, 0)
  {
    assert NodeBytes(h, body)[0..4] == h.csum[0..4];
  }

  /** What becomes of a block one mirror delivered. */
  datatype Verdict = Accept(node: Node) | TryNext(error: Error) | Abort(error: Error)

  function Judge(v: Volume, logical: nat, buf: Node): (d: Verdict)
    ensures d.Accept? ==> d.node == buf
  {
    if U64At(buf, 48).value != logical then TryNext(WrongAddress)
    else if v.csumType == 0 && U32At(buf, 0).value != v.crc(buf[32..]) then TryNext(BadChecksum)
    else if NrItems(buf) > (v.nodesize - HEADER_SIZE) / 25 then Abort(TooManyItems)
    else Accept(buf)
  }

  function MirrorVerdict(v: Volume, logical: nat, m: Mirror): Verdict {
    match ReadOf(m.media, m.phys, v.nodesize)
    case Err(e) => TryNext(e)
    case Ok(buf) => Judge(v, logical, buf)
  }

  function FirstNode(v: Volume, logical: nat, ms: seq<Mirror>, lastErr: Error): Result<Node> {
    if ms == [] then Err(lastErr) else
      match MirrorVerdict(v, logical, ms[0])
      case Accept(n) => Ok(n)
      case Abort(e) => Err(e)
      case TryNext(e) => FirstNode(v, logical, ms[1..], e)
  }

  /** What reading the tree block at `logical` gives without any cache. */
  function NodeOf(v: Volume, logical: nat): Result<Node> {
    var ms :- Mirrors(v, logical, v.nodesize);
    FirstNode(v, logical, ms, Unreadable)
  }

  /** A mirror is passed over exactly when it is unreadable, carries another
      address, or (under crc32c) fails its checksum. */
  ghost predicate PassedOver(v: Volume, logical: nat, m: Mirror) {
    var r := ReadOf(m.media, m.phys, v.nodesize);
    || r.Err?
    || U64At(r.value, 48) != Ok(logical)
    || (v.csumType == 0 && U32At(r.value, 0) != Ok(v.crc(r.value[32..])))
  }

  /** Mirror `i` is the first one not passed over. */
  ghost predicate Decides(v: Volume, logical: nat, ms: seq<Mirror>, i: nat)
    requires i < |ms|
  {
    !PassedOver(v, logical, ms[i]) && forall j :: 0 <= j < i ==> PassedOver(v, logical, ms[j])
  }

  lemma {:induction false} FirstNodeDecides(v: Volume, logical: nat, ms: seq<Mirror>, i: nat, lastErr: Error)
    requires i < |ms| && Decides(v, logical, ms, i)
    ensures var buf := ReadOf(ms[i].media, ms[i].phys, v.nodesize).value;
            FirstNode(v, logical, ms, lastErr)
            == if NrItems(buf) > (v.nodesize - HEADER_SIZE) / 25 then Err(TooManyItems) else Ok(buf)
  {
    if i > 0 {
      assert PassedOver(v, logical, ms[0]);
      assert MirrorVerdict(v, logical, ms[0]).TryNext?;
      forall j | 0 <= j < i - 1
        ensures PassedOver(v, logical, ms[1..][j])
      {
        assert PassedOver(v, logical, ms[j + 1]);
      }
      FirstNodeDecides(v, logical, ms[1..], i - 1, MirrorVerdict(v, logical, ms[0]).error);
    }
  }

  lemma {:induction false} NoneDecides(v: Volume, logical: nat, ms: seq<Mirror>, lastErr: Error)
    requires forall m :: m in ms ==> PassedOver(v, logical, m)
    ensures FirstNode(v, logical, ms, lastErr).Err?
  {
    if ms != [] {
      assert PassedOver(v, logical, ms[0]);
      assert MirrorVerdict(v, logical, ms[0]).TryNext?;
      NoneDecides(v, logical, ms[1..], MirrorVerdict(v, logical, ms[0]).error);
    }
  }

  /** The first mirror in stripe order that is readable, self-addressed and
      checksummed decides; a block of it that claims too many items is an error
      even when a later mirror is sound. Without such a mirror there is none. */
  lemma NodeDecidedByFirstSoundMirror(v: Volume, logical: nat)
    requires Mirrors(v, logical, v.nodesize).Ok?
    ensures var ms := Mirrors(v, logical, v.nodesize).value;
            && (forall i :: 0 <= i < |ms| && Decides(v, logical, ms, i) ==>
                  var buf := ReadOf(ms[i].media, ms[i].phys, v.nodesize).value;
                  NodeOf(v, logical) == if NrItems(buf) > (v.nodesize - HEADER_SIZE) / 25
                                        then Err(TooManyItems) else Ok(buf))
            && ((forall m :: m in ms ==> PassedOver(v, logical, m)) ==> NodeOf(v, logical).Err?)
  {
    var ms := Mirrors(v, logical, v.nodesize).value;
    forall i | 0 <= i < |ms| && Decides(v, logical, ms, i)
      ensures var buf := ReadOf(ms[i].media, ms[i].phys, v.nodesize).value;
              NodeOf(v, logical) == if NrItems(buf) > (v.nodesize - HEADER_SIZE) / 25
                                    then Err(TooManyItems) else Ok(buf)
    {
      FirstNodeDecides(v, logical, ms, i, Unreadable);
    }
    if forall m :: m in ms ==> PassedOver(v, logical, m) {
      NoneDecides(v, logical, ms, Unreadable);
    }
  }
}
