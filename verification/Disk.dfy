// On-disk structures (src/disk.rs): keys and their order, chunk items,
// directory entries, file extents and inodes. The writers lay a structure out
// as the format describes it; the parsers are proved to invert them.

module Disk {
  import opened Bytes

  const HEADER_SIZE: nat := 101
  const KEY_SIZE: nat := 17
  const INODE_ITEM_SIZE: nat := 160

  const FS_TREE_OBJECTID: nat := 5
  const FIRST_FREE_OBJECTID: nat := 256
  const LAST_FREE_OBJECTID: nat := U64_MAX - 256

  const INODE_ITEM_KEY: nat := 1
  const INODE_REF_KEY: nat := 12
  const DIR_ITEM_KEY: nat := 84
  const DIR_INDEX_KEY: nat := 96
  const EXTENT_DATA_KEY: nat := 108
  const ROOT_ITEM_KEY: nat := 132
  const ROOT_BACKREF_KEY: nat := 144
  const ROOT_REF_KEY: nat := 156

  const FT_DIR: nat := 2

  // ----- Keys -----

  datatype Key = Key(objectid: nat, ty: nat, offset: nat) {
    /** The derived lexicographic order. */
    predicate Less(k: Key) {
      || objectid < k.objectid
      || (objectid == k.objectid && ty < k.ty)
      || (objectid == k.objectid && ty == k.ty && offset < k.offset)
    }

    predicate Leq(k: Key) {
      this == k || Less(k)
    }

    /** The fields fit their on-disk widths. */
    predicate Fits() {
      objectid < TWO64 && ty < 256 && offset < TWO64
    }
  }

  function KeyAt(b: seq<byte>, off: nat): (r: Result<Key>)
    ensures r.Ok? <==> off + KEY_SIZE <= |b|
    ensures r.Ok? ==> r.value.Fits()
  {
    var objectid :- U64At(b, off);
    var ty :- U8At(b, off + 8);
    var offset :- U64At(b, off + 9);
    Ok(Key(objectid, ty, offset))
  }

  function KeyBytes(k: Key): (s: seq<byte>)
    requires k.Fits()
    ensures |s| == KEY_SIZE
  {
    ToLE(k.objectid, 8) + ([k.ty] + ToLE(k.offset, 8))
  }

  lemma KeyShift(x: seq<byte>, y: seq<byte>, off: nat)
    ensures KeyAt(x + y, |x| + off) == KeyAt(y, off)
  {
    hide U64At;
    U64Shift(x, y, off);
    SubShift(x, y, off + 8, 1);
    U64Shift(x, y, off + 9);
  }

  lemma KeyHead(k: Key, y: seq<byte>)
    requires k.Fits()
    ensures KeyAt(KeyBytes(k) + y, 0) == Ok(k)
  {
    hide U64At;
    var a, t, c := ToLE(k.objectid, 8), [k.ty], ToLE(k.offset, 8);
    assert KeyBytes(k) + y == a + (t + (c + y));
    U64Head(k.objectid, t + (c + y));
    SubShift(a, t + (c + y), 0, 1);
    SubHead(t, c + y);
    U64Shift(a, t + (c + y), 1);
    U64Shift(t, c + y, 0);
    U64Head(k.offset, y);
  }

  // ----- Chunks -----

  datatype Stripe = Stripe(devid: nat, phys: nat)

  datatype Chunk = Chunk(start: nat, length: nat, ty: nat, stripes: seq<Stripe>) {
    predicate Holds(logical: nat, len: nat) {
      start <= logical && logical + len <= start + length
    }
  }

  function StripesFrom(b: seq<byte>, i: nat, n: nat): (r: Result<seq<Stripe>>)
    requires i <= n
    ensures r.Ok? ==> |r.value| == n - i
    decreases n - i
  {
    if i == n then Ok([]) else
      var devid :- U64At(b, 48 + i * 32);
      var phys :- U64At(b, 48 + i * 32 + 8);
      Prepend([Stripe(devid, phys)], StripesFrom(b, i + 1, n))
  }

  /** What a chunk item says, with the number of bytes it occupies. */
  function ChunkAt(start: nat, b: seq<byte>): (r: Result<(Chunk, nat)>)
    ensures r.Ok? ==> r.value.0.stripes != []
  {
    var n :- U16At(b, 44);
    if n == 0 then Err(Corrupt) else
      var stripes :- StripesFrom(b, 0, n);
      // Neither field can be missing: num_stripes lies past both.
      Ok((Chunk(start, U64At(b, 0).value, U64At(b, 24).value, stripes), 48 + n * 32))
  }

  method ParseChunk(start: nat, b: seq<byte>) returns (r: Result<(Chunk, nat)>)
    ensures r == ChunkAt(start, b)
  {
    var n :- U16At(b, 44);
    if n == 0 {
      return Err(Corrupt);
    }
    var stripes: seq<Stripe> := [];
    for i := 0 to n
      invariant |stripes| == i
      invariant StripesFrom(b, 0, n) == Prepend(stripes, StripesFrom(b, i, n))
    {
      var devid :- U64At(b, 48 + i * 32);
      var phys :- U64At(b, 48 + i * 32 + 8);
      PrependOne(stripes, Stripe(devid, phys), StripesFrom(b, i + 1, n));
      stripes := stripes + [Stripe(devid, phys)];
    }
    return Ok((Chunk(start, U64At(b, 0).value, U64At(b, 24).value, stripes), 48 + n * 32));
  }

  /** A stripe as it is laid out, with the device's uuid. */
  datatype LaidStripe = LaidStripe(stripe: Stripe, uuid: seq<byte>) {
    predicate Fits() {
      stripe.devid < TWO64 && stripe.phys < TWO64 && |uuid| == 16
    }
  }

  /** A chunk item's fields that the reader skips: owner and stripe length, the three
      of input and output, and the number of sub-stripes. */
  datatype ChunkRest = ChunkRest(owner: seq<byte>, io: seq<byte>, sub: seq<byte>) {
    predicate Fits() {
      |owner| == 16 && |io| == 12 && |sub| == 2
    }
  }

  function StripeBytes(l: LaidStripe): (s: seq<byte>)
    requires l.Fits()
    ensures |s| == 32
  {
    ToLE(l.stripe.devid, 8) + (ToLE(l.stripe.phys, 8) + l.uuid)
  }

  function StripesBytes(ls: seq<LaidStripe>): (s: seq<byte>)
    requires forall l :: l in ls ==> l.Fits()
    ensures |s| == 32 * |ls|
  {
    if ls == [] then [] else StripeBytes(ls[0]) + StripesBytes(ls[1..])
  }

  function StripesOf(ls: seq<LaidStripe>): (ss: seq<Stripe>)
    ensures |ss| == |ls| && forall i :: 0 <= i < |ls| ==> ss[i] == ls[i].stripe
  {
    if ls == [] then [] else [ls[0].stripe] + StripesOf(ls[1..])
  }

  function ChunkBytes(length: nat, ty: nat, rest: ChunkRest, ls: seq<LaidStripe>): seq<byte>
    requires rest.Fits() && forall l :: l in ls ==> l.Fits()
  {
    ToLE(length, 8) + (rest.owner + (ToLE(ty, 8) + (rest.io + (ToLE(|ls|, 2) + (rest.sub + StripesBytes(ls))))))
  }

  lemma StripeReadBack(pre: seq<byte>, l: LaidStripe, post: seq<byte>)
    requires l.Fits()
    ensures var b := pre + (StripeBytes(l) + post);
            U64At(b, |pre|) == Ok(l.stripe.devid) && U64At(b, |pre| + 8) == Ok(l.stripe.phys)
  {
    hide U64At;
    var d, p := ToLE(l.stripe.devid, 8), ToLE(l.stripe.phys, 8);
    var tail := d + (p + (l.uuid + post));
    assert StripeBytes(l) + post == tail;
    U64Shift(pre, tail, 0);
    U64Head(l.stripe.devid, p + (l.uuid + post));
    U64Shift(pre, tail, 8);
    U64Shift(d, p + (l.uuid + post), 0);
    U64Head(l.stripe.phys, l.uuid + post);
  }

  lemma {:induction false} StripesReadBack(b: seq<byte>, pre: seq<byte>, ls: seq<LaidStripe>, post: seq<byte>, i: nat,
                                           n: nat)
    requires forall l :: l in ls ==> l.Fits()
    requires b == pre + (StripesBytes(ls) + post) && |pre| == 48 + i * 32 && i + |ls| == n
    ensures StripesFrom(b, i, n) == Ok(StripesOf(ls))
    decreases |ls|
  {
    hide U64At;
    if ls != [] {
      assert ls[0] in ls;
      var first, rest := StripeBytes(ls[0]), StripesBytes(ls[1..]);
      assert (first + rest) + post == first + (rest + post);
      StripeReadBack(pre, ls[0], rest + post);
      assert b == (pre + first) + (rest + post);
      StripesReadBack(b, pre + first, ls[1..], post, i + 1, n);
    }
  }

  /** The fields of a chunk item before its stripes. */
  lemma ChunkHeaderReadBack(length: nat, ty: nat, n: nat, rest: ChunkRest, post: seq<byte>)
    requires length < TWO64 && ty < TWO64 && n < TWO16 && rest.Fits()
    ensures var b := ToLE(length, 8) + (rest.owner + (ToLE(ty, 8) + (rest.io + (ToLE(n, 2) + post))));
            U64At(b, 0) == Ok(length) && U64At(b, 24) == Ok(ty) && U16At(b, 44) == Ok(n)
  {
    hide U64At;
    hide U16At;
    hide ToLE;
    U64Head(length, rest.owner + (ToLE(ty, 8) + (rest.io + (ToLE(n, 2) + post))));
    U64Third(ToLE(length, 8), rest.owner, ty, rest.io + (ToLE(n, 2) + post));
    U16Fifth(ToLE(length, 8), rest.owner, ToLE(ty, 8), rest.io, n, post);
  }

  lemma U64Third(a: seq<byte>, b: seq<byte>, x: nat, post: seq<byte>)
    requires x < TWO64
    ensures U64At(a + (b + (ToLE(x, 8) + post)), |a| + |b|) == Ok(x)
  {
    hide U64At;
    hide ToLE;
    U64Shift(a, b + (ToLE(x, 8) + post), |b|);
    U64Shift(b, ToLE(x, 8) + post, 0);
    U64Head(x, post);
  }

  lemma U16Fifth(a: seq<byte>, b: seq<byte>, c: seq<byte>, d: seq<byte>, x: nat, post: seq<byte>)
    requires x < TWO16
    ensures U16At(a + (b + (c + (d + (ToLE(x, 2) + post)))), |a| + |b| + |c| + |d|) == Ok(x)
  {
    hide U16At;
    hide ToLE;
    var r4 := ToLE(x, 2) + post;
    U16Shift(a, b + (c + (d + r4)), |b| + |c| + |d|);
    U16Shift(b, c + (d + r4), |c| + |d|);
    U16Shift(c, d + r4, |d|);
    U16Shift(d, r4, 0);
    U16Head(x, post);
  }

  /** `Chunk::parse` inverts the item's layout, whatever follows it. */
  lemma ChunkRoundTrip(start: nat, length: nat, ty: nat, rest: ChunkRest, ls: seq<LaidStripe>, post: seq<byte>)
    requires length < TWO64 && ty < TWO64 && 0 < |ls| < TWO16 && rest.Fits() && forall l :: l in ls ==> l.Fits()
    ensures ChunkAt(start, ChunkBytes(length, ty, rest, ls) + post)
         == Ok((Chunk(start, length, ty, StripesOf(ls)), |ChunkBytes(length, ty, rest, ls)|))
  {
    hide U64At;
    hide U16At;
    hide StripesFrom;
    hide ToLE;
    var b := ChunkBytes(length, ty, rest, ls) + post;
    ChunkLayout(length, ty, rest, ls, post);
    ChunkHeaderReadBack(length, ty, |ls|, rest, rest.sub + (StripesBytes(ls) + post));
    var pre := ToLE(length, 8) + (rest.owner + (ToLE(ty, 8) + (rest.io + (ToLE(|ls|, 2) + rest.sub))));
    StripesReadBack(b, pre, ls, post, 0, |ls|);
  }

  lemma ChunkLayout(length: nat, ty: nat, rest: ChunkRest, ls: seq<LaidStripe>, post: seq<byte>)
    requires rest.Fits() && forall l :: l in ls ==> l.Fits()
    ensures var tail := StripesBytes(ls) + post;
            var b := ChunkBytes(length, ty, rest, ls) + post;
            && b == ToLE(length, 8) + (rest.owner + (ToLE(ty, 8) + (rest.io + (ToLE(|ls|, 2) + (rest.sub + tail)))))
            && b == (ToLE(length, 8) + (rest.owner + (ToLE(ty, 8) + (rest.io + (ToLE(|ls|, 2) + rest.sub))))) + tail
  {
    hide ToLE;
    hide StripesBytes;
    var a, t, n, all := ToLE(length, 8), ToLE(ty, 8), ToLE(|ls|, 2), StripesBytes(ls);
    var tail := all + post;
    Layer(rest.sub, all, post, tail);
    Layer(n, rest.sub + all, post, rest.sub + tail);
    Layer(rest.io, n + (rest.sub + all), post, n + (rest.sub + tail));
    Layer(t, rest.io + (n + (rest.sub + all)), post, rest.io + (n + (rest.sub + tail)));
    Layer(rest.owner, t + (rest.io + (n + (rest.sub + all))), post, t + (rest.io + (n + (rest.sub + tail))));
    Layer(a, rest.owner + (t + (rest.io + (n + (rest.sub + all)))), post,
          rest.owner + (t + (rest.io + (n + (rest.sub + tail)))));
    Layer(n, rest.sub, tail, rest.sub + tail);
    Layer(rest.io, n + rest.sub, tail, n + (rest.sub + tail));
    Layer(t, rest.io + (n + rest.sub), tail, rest.io + (n + (rest.sub + tail)));
    Layer(rest.owner, t + (rest.io + (n + rest.sub)), tail, t + (rest.io + (n + (rest.sub + tail))));
    Layer(a, rest.owner + (t + (rest.io + (n + rest.sub))), tail,
          rest.owner + (t + (rest.io + (n + (rest.sub + tail)))));
  }

  lemma Layer(x: seq<byte>, r: seq<byte>, post: seq<byte>, q: seq<byte>)
    requires r + post == q
    ensures (x + r) + post == x + q
  {
    assert (x + r) + post == x + (r + post);
  }

  // ----- Directory entries -----

  datatype DirEntry = DirEntry(name: seq<byte>, location: Key, ftype: byte)

  /** One packed entry: what the reader keeps, and the fields it skips. */
  datatype Packed = Packed(entry: DirEntry, transid: nat, data: seq<byte>) {
    predicate Fits() {
      entry.location.Fits() && transid < TWO64 && |entry.name| < TWO16 && |data| < TWO16
    }
  }

  /** The entry at `off` and the offset of the next. */
  function DirEntryAt(b: seq<byte>, off: nat): (r: Result<(DirEntry, nat)>)
    ensures r.Ok? ==> r.value.1 >= off + 30
  {
    var location :- KeyAt(b, off);
    var dataLen :- U16At(b, off + 25);
    var nameLen :- U16At(b, off + 27);
    var ftype :- U8At(b, off + 29);
    var name :- Sub(b, off + 30, nameLen);
    Ok((DirEntry(name, location, ftype), off + 30 + nameLen + dataLen))
  }

  /** The entries packed into `b` from `off` on. */
  function DirEntriesFrom(b: seq<byte>, off: nat): Result<seq<DirEntry>>
    decreases |b| - off
  {
    if off >= |b| then Ok([]) else
      var (e, next) :- DirEntryAt(b, off);
      Prepend([e], DirEntriesFrom(b, next))
  }

  function DirEntries(b: seq<byte>): Result<seq<DirEntry>> {
    DirEntriesFrom(b, 0)
  }

  method ParseDirEntries(b: seq<byte>) returns (r: Result<seq<DirEntry>>)
    ensures r == DirEntries(b)
  {
    var out: seq<DirEntry> := [];
    var off := 0;
    while off < |b|
      invariant DirEntries(b) == Prepend(out, DirEntriesFrom(b, off))
      decreases |b| - off
    {
      var parsed :- DirEntryAt(b, off);
      var (e, next) := parsed;
      PrependOne(out, e, DirEntriesFrom(b, next));
      out := out + [e];
      off := next;
    }
    return Ok(out);
  }

  function PackedBytes(p: Packed): (s: seq<byte>)
    requires p.Fits()
    ensures |s| == 30 + |p.entry.name| + |p.data|
  {
    KeyBytes(p.entry.location) + (ToLE(p.transid, 8) + (ToLE(|p.data|, 2)
    + (ToLE(|p.entry.name|, 2) + ([p.entry.ftype] + (p.entry.name + p.data)))))
  }

  function PackAll(ps: seq<Packed>): seq<byte>
    requires forall p :: p in ps ==> p.Fits()
  {
    if ps == [] then [] else PackedBytes(ps[0]) + PackAll(ps[1..])
  }

  function EntriesOf(ps: seq<Packed>): seq<DirEntry> {
    seq(|ps|, i requires 0 <= i < |ps| => ps[i].entry)
  }

  lemma FieldsOfPacked(p: Packed, post: seq<byte>)
    requires p.Fits()
    ensures var b := PackedBytes(p) + post;
            DirEntryAt(b, 0) == Ok((p.entry, |PackedBytes(p)|))
  {
    hide U16At;
    hide KeyAt;
    var k, t := KeyBytes(p.entry.location), ToLE(p.transid, 8);
    var d, n, f := ToLE(|p.data|, 2), ToLE(|p.entry.name|, 2), [p.entry.ftype];
    var r5 := p.entry.name + (p.data + post);
    var r4 := f + r5;
    var r3 := n + r4;
    var r2 := d + r3;
    var r1 := t + r2;
    assert PackedBytes(p) + post == k + r1;
    KeyHead(p.entry.location, r1);
    U16Shift(k, r1, 8);
    U16Shift(t, r2, 0);
    U16Head(|p.data|, r3);
    U16Shift(k, r1, 10);
    U16Shift(t, r2, 2);
    U16Shift(d, r3, 0);
    U16Head(|p.entry.name|, r4);
    var len := |p.entry.name|;
    SubShift(k, r1, 12, 1);
    SubShift(t, r2, 4, 1);
    SubShift(d, r3, 2, 1);
    SubShift(n, r4, 0, 1);
    SubHead(f, r5);
    SubShift(k, r1, 13, len);
    SubShift(t, r2, 5, len);
    SubShift(d, r3, 3, len);
    SubShift(n, r4, 1, len);
    SubShift(f, r5, 0, len);
    SubHead(p.entry.name, p.data + post);
  }

  lemma DirEntryShift(x: seq<byte>, y: seq<byte>, off: nat)
    ensures DirEntryAt(x + y, |x| + off) ==
            match DirEntryAt(y, off)
            case Ok((e, next)) => Ok((e, |x| + next))
            case Err(e) => Err(e)
  {
    hide U16At;
    hide KeyAt;
    KeyShift(x, y, off);
    U16Shift(x, y, off + 25);
    U16Shift(x, y, off + 27);
    SubShift(x, y, off + 29, 1);
    var nameLen := U16At(y, off + 27);
    if nameLen.Ok? {
      SubShift(x, y, off + 30, nameLen.value);
    }
  }

  /** Parsing from inside a buffer is parsing what remains of it. */
  lemma {:induction false} DirEntriesShift(x: seq<byte>, y: seq<byte>, off: nat)
    ensures DirEntriesFrom(x + y, |x| + off) == DirEntriesFrom(y, off)
    decreases |y| - off
  {
    hide DirEntryAt;
    if off < |y| {
      DirEntryShift(x, y, off);
      var r := DirEntryAt(y, off);
      if r.Ok? {
        DirEntriesShift(x, y, r.value.1);
      }
    }
  }

  /** `parse_dir_entries` inverts the layout of packed entries. */
  lemma {:induction false} DirEntriesRoundTrip(ps: seq<Packed>)
    requires forall p :: p in ps ==> p.Fits()
    ensures DirEntries(PackAll(ps)) == Ok(EntriesOf(ps))
  {
    hide DirEntryAt;
    hide PackedBytes;
    if ps != [] {
      var p, rest := ps[0], PackAll(ps[1..]);
      FieldsOfPacked(p, rest);
      DirEntriesRoundTrip(ps[1..]);
      DirEntriesShift(PackedBytes(p), rest, 0);
      assert EntriesOf(ps) == [p.entry] + EntriesOf(ps[1..]);
    }
  }

  // ----- File extents -----

  datatype ExtentKind =
    | Inline(raw: seq<byte>)
    | Regular(diskBytenr: nat, diskNumBytes: nat, offset: nat)
    | Prealloc

  datatype Extent = Extent(fileOff: nat, len: nat, ramBytes: nat, compression: byte, kind: ExtentKind) {
    predicate Fits() {
      && len < TWO64 && ramBytes < TWO64
      && match kind
         case Inline(_) => len == ramBytes
         case Prealloc => true
         case Regular(a, n, o) => a < TWO64 && n < TWO64 && o < TWO64
    }
  }

  /** The type byte at 20 and what follows it, given the fields before. */
  function ExtentBody(fileOff: nat, ramBytes: nat, compression: byte, t: seq<byte>): (r: Result<Extent>)
    requires ramBytes < TWO64
    ensures r.Ok? ==> r.value.Fits() && r.value.fileOff == fileOff
  {
    var ty :- U8At(t, 0);
    if ty == 0 then
      Ok(Extent(fileOff, ramBytes, ramBytes, compression, Inline(t[1..])))
    else if ty == 1 || ty == 2 then
      var numBytes :- U64At(t, 25);
      if ty == 2 then Ok(Extent(fileOff, numBytes, ramBytes, compression, Prealloc)) else
        // num_bytes lies past the other three fields.
        var kind := Regular(U64At(t, 1).value, U64At(t, 9).value, U64At(t, 17).value);
        Ok(Extent(fileOff, numBytes, ramBytes, compression, kind))
    else Err(UnknownExtentType)
  }

  function ExtentAt(fileOff: nat, b: seq<byte>): (r: Result<Extent>)
    ensures r.Ok? ==> r.value.Fits() && r.value.fileOff == fileOff
  {
    var ramBytes :- U64At(b, 8);
    var compression :- U8At(b, 16);
    var encryption :- U8At(b, 17);
    if encryption != 0 then Err(Encrypted)
    else if |b| < 20 then Err(Corrupt)
    else ExtentBody(fileOff, ramBytes, compression, b[20..])
  }

  /** An encrypted extent is refused, and one of an unknown type. */
  lemma ExtentRefused(fileOff: nat, b: seq<byte>)
    ensures |b| > 17 && b[17] != 0 ==> ExtentAt(fileOff, b) == Err(Encrypted)
    ensures |b| > 20 && b[17] == 0 && b[20] > 2 ==> ExtentAt(fileOff, b) == Err(UnknownExtentType)
    ensures ExtentAt(fileOff, b).Ok? ==> |b| > 20 && b[17] == 0 && b[20] <= 2
  {
  }

  function ExtentTail(e: Extent): seq<byte>
    requires e.Fits()
  {
    match e.kind
    case Inline(raw) => [0] + raw
    case Regular(a, n, o) => [1] + (ToLE(a, 8) + (ToLE(n, 8) + (ToLE(o, 8) + (ToLE(e.len, 8) + []))))
    case Prealloc => [2] + (Zeros(24) + (ToLE(e.len, 8) + []))
  }

  /** An EXTENT_DATA item: generation, ram_bytes, compression, no encryption,
      two bytes of other encoding, type, then the type's own fields. */
  function ExtentBytes(e: Extent, generation: nat, other: seq<byte>): seq<byte>
    requires e.Fits() && |other| == 2
  {
    ToLE(generation, 8) + (ToLE(e.ramBytes, 8) + ([e.compression, 0] + (other + ExtentTail(e))))
  }

  lemma BodyOfTail(e: Extent)
    requires e.Fits()
    ensures ExtentBody(e.fileOff, e.ramBytes, e.compression, ExtentTail(e)) == Ok(e)
  {
    hide U64At;
    match e.kind {
      case Inline(raw) =>
        assert ExtentTail(e)[1..] == raw;
      case Regular(a, n, o) =>
        var r4: seq<byte> := ToLE(e.len, 8) + [];
        var r3 := ToLE(o, 8) + r4;
        var r2 := ToLE(n, 8) + r3;
        var r1 := ToLE(a, 8) + r2;
        U64Shift([1], r1, 0);
        U64Head(a, r2);
        U64Shift([1], r1, 8);
        U64Shift(ToLE(a, 8), r2, 0);
        U64Head(n, r3);
        U64Shift([1], r1, 16);
        U64Shift(ToLE(a, 8), r2, 8);
        U64Shift(ToLE(n, 8), r3, 0);
        U64Head(o, r4);
        U64Shift([1], r1, 24);
        U64Shift(ToLE(a, 8), r2, 16);
        U64Shift(ToLE(n, 8), r3, 8);
        U64Shift(ToLE(o, 8), r4, 0);
        U64Head(e.len, []);
      case Prealloc =>
        U64Shift([2], Zeros(24) + (ToLE(e.len, 8) + []), 24);
        U64Shift(Zeros(24), ToLE(e.len, 8) + [], 0);
        U64Head(e.len, []);
    }
  }

  /** `Extent::parse` inverts the item's layout, for all three kinds. */
  lemma ExtentRoundTrip(e: Extent, generation: nat, other: seq<byte>)
    requires e.Fits() && |other| == 2
    ensures ExtentAt(e.fileOff, ExtentBytes(e, generation, other)) == Ok(e)
  {
    hide U64At;
    hide ExtentBody;
    hide ExtentTail;
    var g, r, t := ToLE(generation, 8), ToLE(e.ramBytes, 8), ExtentTail(e);
    var c: seq<byte> := [e.compression, 0];
    var r2 := c + (other + t);
    var r1 := r + r2;
    U64Shift(g, r1, 0);
    U64Head(e.ramBytes, r2);
    SubShift(g, r1, 8, 1);
    SubShift(r, r2, 0, 1);
    SubShift(g, r1, 9, 1);
    SubShift(r, r2, 1, 1);
    assert (g + r1)[20..] == t;
    BodyOfTail(e);
  }

  // ----- Inodes -----

  datatype Inode = Inode(size: nat, mode: nat) {
    predicate IsDir() {
      mode / 0x1000 % 16 == 4
    }

    predicate IsFile() {
      mode / 0x1000 % 16 == 8
    }

    predicate IsSymlink() {
      mode / 0x1000 % 16 == 10
    }
  }

  function InodeAt(b: seq<byte>): (r: Result<Inode>)
    ensures r.Ok? ==> r.value.size < TWO64
  {
    var _ :- Sub(b, 0, INODE_ITEM_SIZE);
    Ok(Inode(U64At(b, 16).value, U32At(b, 52).value))
  }

  /** The fields of an inode item around its size and mode. */
  datatype InodeRest = InodeRest(versions: seq<byte>, owners: seq<byte>, times: seq<byte>) {
    predicate Fits() {
      |versions| == 16 && |owners| == 28 && |times| == 104
    }
  }

  function InodeBytes(i: Inode, rest: InodeRest): (s: seq<byte>)
    requires rest.Fits()
    ensures |s| == INODE_ITEM_SIZE
  {
    rest.versions + (ToLE(i.size, 8) + (rest.owners + (ToLE(i.mode, 4) + rest.times)))
  }

  /** `Inode::parse` inverts the item's layout, whatever follows it. */
  lemma InodeRoundTrip(i: Inode, rest: InodeRest, post: seq<byte>)
    requires i.size < TWO64 && i.mode < TWO32 && rest.Fits()
    ensures InodeAt(InodeBytes(i, rest) + post) == Ok(i)
  {
    hide U64At;
    hide U32At;
    hide ToLE;
    var m := ToLE(i.mode, 4) + (rest.times + post);
    var s := ToLE(i.size, 8) + (rest.owners + m);
    assert InodeBytes(i, rest) + post == rest.versions + s;
    U64Shift(rest.versions, s, 0);
    U64Head(i.size, rest.owners + m);
    U32Shift(rest.versions, s, 36);
    U32Shift(ToLE(i.size, 8), rest.owners + m, 28);
    U32Shift(rest.owners, m, 0);
    U32Head(i.mode, rest.times + post);
  }

  /** The kinds of the modes that directories, files and links commonly have; no inode
      is of two kinds. */
  lemma Kinds(size: nat, mode: nat)
    ensures Inode(size, 0x41ED).IsDir() && Inode(size, 0x81A4).IsFile() && Inode(size, 0xA1FF).IsSymlink()
    ensures var i := Inode(size, mode);
            !(i.IsDir() && i.IsFile()) && !(i.IsDir() && i.IsSymlink()) && !(i.IsFile() && i.IsSymlink())
  {
  }

  // ----- References -----

  /** An INODE_REF: index, the name's length, the name. */
  function RefBytes(index: seq<byte>, name: seq<byte>): seq<byte>
    requires |index| == 8
  {
    index + (ToLE(|name|, 2) + name)
  }

  lemma RefRoundTrip(index: seq<byte>, name: seq<byte>, post: seq<byte>)
    requires |index| == 8 && |name| < TWO16
    ensures var b := RefBytes(index, name) + post;
            U16At(b, 8) == Ok(|name|) && Sub(b, 10, |name|) == Ok(name)
  {
    hide U16At;
    hide ToLE;
    var r := ToLE(|name|, 2) + (name + post);
    assert RefBytes(index, name) + post == index + r;
    U16Shift(index, r, 0);
    U16Head(|name|, name + post);
    SubShift(index, r, 2, |name|);
    SubShift(ToLE(|name|, 2), name + post, 0, |name|);
    SubHead(name, post);
  }

  /** A ROOT_BACKREF: the directory's id, sequence, the name's length, the name. */
  function BackrefBytes(dirid: nat, sequence: seq<byte>, name: seq<byte>): seq<byte>
    requires |sequence| == 8
  {
    ToLE(dirid, 8) + (sequence + (ToLE(|name|, 2) + name))
  }

  lemma BackrefLayout(dirid: nat, sequence: seq<byte>, name: seq<byte>, post: seq<byte>)
    requires dirid < TWO64 && |sequence| == 8 && |name| < TWO16
    ensures var b := BackrefBytes(dirid, sequence, name) + post;
            U64At(b, 0) == Ok(dirid) && U16At(b, 16) == Ok(|name|) && Sub(b, 18, |name|) == Ok(name)
  {
    hide U64At;
    hide U16At;
    hide ToLE;
    var r := RefBytes(sequence, name) + post;
    assert BackrefBytes(dirid, sequence, name) + post == ToLE(dirid, 8) + r;
    U64Head(dirid, r);
    RefRoundTrip(sequence, name, post);
    U16Shift(ToLE(dirid, 8), r, 8);
    SubShift(ToLE(dirid, 8), r, 10, |name|);
  }

  /** A ROOT_ITEM's fields that are read, and what lies between and after them: the inode
      item, the limits, the reference count up to the uuid, and the times. */
  datatype RootFields = RootFields(generation: nat, dirid: nat, bytenr: nat, flags: nat, parentUuid: seq<byte>,
                                   inode: seq<byte>, limits: seq<byte>, drops: seq<byte>, times: seq<byte>)
  {
    predicate Fits() {
      && generation < TWO64 && dirid < TWO64 && bytenr < TWO64 && flags < TWO64 && |parentUuid| == 16
      && |inode| == 160 && |limits| == 24 && |drops| == 47
    }
  }

  function RootBytes(f: RootFields): seq<byte>
    requires f.Fits()
  {
    f.inode + (ToLE(f.generation, 8) + (ToLE(f.dirid, 8) + (ToLE(f.bytenr, 8) + (f.limits
    + (ToLE(f.flags, 8) + (f.drops + (f.parentUuid + f.times)))))))
  }

  lemma RootLayout(f: RootFields)
    requires f.Fits()
    ensures var b := RootBytes(f);
            && U64At(b, 160) == Ok(f.generation) && U64At(b, 168) == Ok(f.dirid) && U64At(b, 176) == Ok(f.bytenr)
            && U64At(b, 208) == Ok(f.flags) && |b| >= 279 && b[263..279] == f.parentUuid
  {
    hide U64At;
    hide ToLE;
    var r6 := f.parentUuid + f.times;
    var r5 := f.drops + r6;
    var r4 := ToLE(f.flags, 8) + r5;
    var r3 := f.limits + r4;
    var r2 := ToLE(f.bytenr, 8) + r3;
    var r1 := ToLE(f.dirid, 8) + r2;
    var r0 := ToLE(f.generation, 8) + r1;
    U64Shift(f.inode, r0, 0);
    U64Head(f.generation, r1);
    U64Shift(f.inode, r0, 8);
    U64Shift(ToLE(f.generation, 8), r1, 0);
    U64Head(f.dirid, r2);
    U64Shift(f.inode, r0, 16);
    U64Shift(ToLE(f.generation, 8), r1, 8);
    U64Shift(ToLE(f.dirid, 8), r2, 0);
    U64Head(f.bytenr, r3);
    RootTail(f, r0, r1, r2, r3, r4, r5, r6);
  }

  lemma RootTail(f: RootFields, r0: seq<byte>, r1: seq<byte>, r2: seq<byte>, r3: seq<byte>, r4: seq<byte>,
                 r5: seq<byte>, r6: seq<byte>)
    requires f.Fits() && r6 == f.parentUuid + f.times && r5 == f.drops + r6 && r4 == ToLE(f.flags, 8) + r5
    requires r3 == f.limits + r4 && r2 == ToLE(f.bytenr, 8) + r3 && r1 == ToLE(f.dirid, 8) + r2
    requires r0 == ToLE(f.generation, 8) + r1
    ensures var b := f.inode + r0;
            U64At(b, 208) == Ok(f.flags) && |b| >= 279 && b[263..279] == f.parentUuid
  {
    hide U64At;
    hide ToLE;
    var front := f.inode + (ToLE(f.generation, 8) + (ToLE(f.dirid, 8) + (ToLE(f.bytenr, 8) + f.limits)));
    assert f.inode + r0 == front + r4;
    U64Shift(front, r4, 0);
    U64Head(f.flags, r5);
    SliceShift(front, r4, 55, 71);
    SliceShift(ToLE(f.flags, 8), r5, 47, 63);
    SliceShift(f.drops, r6, 0, 16);
    assert r6[0..16] == f.parentUuid;
  }
}
