// Decompression (src/decompress.rs): how a decoded stream is settled against
// the size its extent declares, and the btrfs framing of LZO segments.
//
// The codecs themselves are parameters. A streaming decoder is the bytes it
// yields and whether it fails after them.

module Decompress {
  import opened Bytes

  const MAX_RAM_BYTES: nat := 0x4000_0000

  /** The frame's total length comes first; segments follow it. */
  const LEN_SIZE: nat := 4

  datatype Decoder = Decoder(bytes: seq<byte>, fails: bool)

  datatype Codecs = Codecs(
    zlib: seq<byte> -> Decoder,
    zstd: seq<byte> -> Option<Decoder>,
    lzo1x: (seq<byte>, nat) -> Option<seq<byte>>)

  /** What an extent declares, the most it may decode to, and the sector size. */
  datatype Size = Size(ramBytes: nat, most: nat, sector: nat) {
    ghost predicate Valid() {
      sector > 0 && ramBytes <= most
    }
  }

  function NextMultiple(n: nat, m: nat): (r: nat)
    requires m > 0
    ensures n <= r < n + m
  {
    if n % m == 0 then n else n + (m - n % m)
  }

  // ----- Settling up -----

  /** The first `limit` bytes a decoder yields. */
  function Take(s: Decoder, limit: nat): (r: Result<seq<byte>>)
    ensures r.Ok? ==> |r.value| <= limit
  {
    if |s.bytes| >= limit then Ok(s.bytes[..limit])
    else if s.fails then Err(CodecFailed)
    else Ok(s.bytes)
  }

  /** Whether a decode of `n` bytes is one the extent's declared size explains. */
  predicate Plausible(n: nat, size: Size) {
    n <= size.most && size.ramBytes < n + size.sector
  }

  /** The declared bytes of a decoded stream, short of them by zeros only. */
  function Padded(out: seq<byte>, ramBytes: nat): (r: seq<byte>)
    ensures |r| == ramBytes
    ensures forall i :: 0 <= i < ramBytes ==> r[i] == if i < |out| then out[i] else 0
  {
    if |out| >= ramBytes then out[..ramBytes] else out + Zeros(ramBytes - |out|)
  }

  function Settled(out: seq<byte>, size: Size): (r: Result<seq<byte>>)
    ensures r.Ok? <==> Plausible(|out|, size)
    ensures r.Ok? ==> r.value == Padded(out, size.ramBytes)
  {
    if |out| > size.most then Err(TooLong)
    else if size.ramBytes >= |out| + size.sector then Err(TooShort)
    else Ok(Padded(out, size.ramBytes))
  }

  method Finish(decoded: seq<byte>, size: Size) returns (r: Result<seq<byte>>)
    requires size.sector > 0
    ensures r == Settled(decoded, size)
  {
    var out := decoded;
    if |out| > size.most {
      return Err(TooLong);
    }
    if |out| > size.ramBytes {
      out := out[..size.ramBytes];
    }
    var shortBy := size.ramBytes - |out|;
    if shortBy >= size.sector {
      return Err(TooShort);
    }
    out := out + Zeros(shortBy);
    assert out == Padded(decoded, size.ramBytes);
    return Ok(out);
  }

  // ----- The LZO frame -----

  /** Bytes skipped before a segment header. */
  function Padding(pos: nat, sector: nat): (p: nat)
    requires sector > 0
    ensures p < 4
  {
    var left := sector - pos % sector;
    if left < 4 then left else 0
  }

  /** Padding brings a header inside a sector, and moves none that is there. */
  lemma PaddingFits(pos: nat, sector: nat)
    requires sector > 0
    ensures sector >= 4 ==> (pos + Padding(pos, sector)) % sector + 4 <= sector
    ensures Padding(pos, sector) == 0 <==> pos % sector + 4 <= sector
  {
    NextSector(pos, sector);
  }

  lemma NextSector(pos: nat, sector: nat)
    requires sector > 0
    ensures (pos + (sector - pos % sector)) % sector == 0
  {
    var q := pos / sector + 1;
    assert pos + (sector - pos % sector) == q * sector;
    MultipleHasNoRest(q, sector);
  }

  lemma MultipleHasNoRest(q: nat, m: nat)
    requires m > 0
    ensures q * m % m == 0
  {
    var d, r := q * m / m, q * m % m;
    assert (q - d) * m == r && (d - q) * m == -r;
    if q > d {
      ProductAtLeast(q - d, m);
    } else if q < d {
      ProductAtLeast(d - q, m);
    }
  }

  lemma ProductAtLeast(k: nat, m: nat)
    requires k > 0
    ensures k * m >= m
  {
    assert k * m == (k - 1) * m + m;
  }

  /** One segment's plain bytes: it must fit the frame and its sector. */
  function Unpacked(c: Codecs, src: seq<byte>, total: nat, at: nat, segLen: nat, sector: nat): (r: Result<seq<byte>>)
    requires total <= |src|
    ensures r.Ok? ==> segLen > 0 && at + segLen <= total && |r.value| <= sector
  {
    if segLen == 0 || at + segLen > total then Err(BadFrame)
    else
      match c.lzo1x(src[at..at + segLen], sector)
      case None => Err(CodecFailed)
      case Some(plain) => if |plain| > sector then Err(BadFrame) else Ok(plain)
  }

  /** The segment at `pos`: its plain bytes and where the next one starts; none
      when padding reaches the end of the frame. Every byte taken as segment
      data lies inside the declared frame. */
  function Segment(c: Codecs, src: seq<byte>, total: nat, pos: nat, sector: nat)
      : (r: Result<Option<(seq<byte>, nat)>>)
    requires sector > 0 && pos < total <= |src|
    ensures r.Ok? && r.value.Some? ==> pos < r.value.value.1 <= total && |r.value.value.0| <= sector
  {
    var at := pos + Padding(pos, sector);
    if at >= total then Ok(None) else
      var segLen :- U32At(src, at);
      var plain :- Unpacked(c, src, total, at + 4, segLen, sector);
      Ok(Some((plain, at + 4 + segLen)))
  }

  /** The segments from `pos` on, appended to `out` until it is long enough. */
  function SegmentsFrom(c: Codecs, src: seq<byte>, total: nat, pos: nat, out: seq<byte>, size: Size)
      : Result<seq<byte>>
    requires size.sector > 0 && total <= |src|
    decreases total - pos
  {
    if pos >= total || |out| >= size.ramBytes then Ok(out) else
      var seg :- Segment(c, src, total, pos, size.sector);
      match seg
      case None => Ok(out)
      case Some((plain, next)) => SegmentsFrom(c, src, total, next, out + plain, size)
  }

  /** Everything an LZO frame decodes to before it is settled. */
  function Unframed(c: Codecs, src: seq<byte>, size: Size): Result<seq<byte>>
    requires size.sector > 0
  {
    var total := U32At(src, 0);
    if total.Err? || total.value < 4 || total.value > |src| then Err(BadFrame)
    else SegmentsFrom(c, src, total.value, LEN_SIZE, [], size)
  }

  function LzoOf(c: Codecs, src: seq<byte>, size: Size): Result<seq<byte>>
    requires size.sector > 0
  {
    var out :- Unframed(c, src, size);
    Settled(out, size)
  }

  method Lzo(c: Codecs, src: seq<byte>, size: Size) returns (r: Result<seq<byte>>)
    requires size.sector > 0
    ensures r == LzoOf(c, src, size)
  {
    hide Padding;
    hide U32At;
    var header := U32At(src, 0);
    if header.Err? || header.value < 4 || header.value > |src| {
      return Err(BadFrame);
    }
    var total := header.value;
    var out: seq<byte> := [];
    var pos: nat := LEN_SIZE;
    while pos < total && |out| < size.ramBytes
      invariant Unframed(c, src, size) == SegmentsFrom(c, src, total, pos, out, size)
      invariant |out| < size.ramBytes + size.sector
      decreases total - pos
    {
      var at := pos + Padding(pos, size.sector);
      if at >= total {
        break;
      }
      var segLen :- U32At(src, at);
      at := at + 4;
      var plain :- Unpacked(c, src, total, at, segLen, size.sector);
      assert Segment(c, src, total, pos, size.sector) == Ok(Some((plain, at + segLen)));
      out := out + plain;
      pos := at + segLen;
    }
    r := Finish(out, size);
  }

  /** On any input, the buffer stays within one sector of the declared size. */
  lemma {:induction false} SegmentsBounded(c: Codecs, src: seq<byte>, total: nat, pos: nat, out: seq<byte>, size: Size)
    requires size.sector > 0 && total <= |src|
    requires |out| < size.ramBytes + size.sector
    ensures var r := SegmentsFrom(c, src, total, pos, out, size);
            r.Ok? ==> out <= r.value && |r.value| < size.ramBytes + size.sector
    decreases total - pos
  {
    if pos < total && |out| < size.ramBytes {
      var seg := Segment(c, src, total, pos, size.sector);
      if seg.Ok? && seg.value.Some? {
        var (plain, next) := seg.value.value;
        SegmentsBounded(c, src, total, next, out + plain, size);
      }
    }
  }

  // ----- The writer of the framing -----

  function Concat(pages: seq<seq<byte>>): seq<byte> {
    if pages == [] then [] else pages[0] + Concat(pages[1..])
  }

  /** The segments of `pages`, the first header at frame offset `pos` or after
      the padding that keeps it within a sector. */
  function WriteSegments(compress: seq<byte> -> seq<byte>, pages: seq<seq<byte>>, pos: nat, sector: nat): seq<byte>
    requires sector > 0
  {
    if pages == [] then [] else
      var seg := compress(pages[0]);
      var pad := Padding(pos, sector);
      Zeros(pad) + (ToLE(|seg|, 4) + (seg
      + WriteSegments(compress, pages[1..], pos + pad + 4 + |seg|, sector)))
  }

  /** Where in the frame the segments' headers are written. */
  function HeadersAt(compress: seq<byte> -> seq<byte>, pages: seq<seq<byte>>, pos: nat, sector: nat): seq<nat>
    requires sector > 0
  {
    if pages == [] then [] else
      var at := pos + Padding(pos, sector);
      [at] + HeadersAt(compress, pages[1..], at + 4 + |compress(pages[0])|, sector)
  }

  /** A header at frame offset `at` lies within one sector and holds `len`; `segs`
      starts at frame offset `pos`. */
  predicate HeaderFits(segs: seq<byte>, pos: nat, at: nat, len: nat, sector: nat)
    requires sector > 0
  {
    pos <= at && at % sector + 4 <= sector && U32At(segs, at - pos) == Ok(len)
  }

  lemma HeaderShift(front: seq<byte>, more: seq<byte>, pos: nat, at: nat, len: nat, sector: nat)
    requires sector > 0 && HeaderFits(more, pos + |front|, at, len, sector)
    ensures HeaderFits(front + more, pos, at, len, sector)
  {
    hide U32At;
    U32Shift(front, more, at - pos - |front|);
  }

  lemma FirstHeader(seg: seq<byte>, more: seq<byte>, pos: nat, sector: nat)
    requires sector >= 4 && |seg| < TWO32
    ensures var pad := Padding(pos, sector);
            HeaderFits(Zeros(pad) + (ToLE(|seg|, 4) + (seg + more)), pos, pos + pad, |seg|, sector)
  {
    hide U32At;
    var segs := Zeros(Padding(pos, sector)) + (ToLE(|seg|, 4) + (seg + more));
    PaddingFits(pos, sector);
    LengthReadBack([], Zeros(Padding(pos, sector)), |seg|, seg + more);
    assert [] + segs == segs;
  }

  ghost predicate HeadersFit(segs: seq<byte>, pos: nat, hs: seq<nat>, compress: seq<byte> -> seq<byte>,
                             pages: seq<seq<byte>>, sector: nat)
    requires sector > 0
  {
    |hs| == |pages| && forall i :: 0 <= i < |hs| ==> HeaderFits(segs, pos, hs[i], |compress(pages[i])|, sector)
  }

  lemma NoHeaders(compress: seq<byte> -> seq<byte>, pos: nat, sector: nat)
    requires sector > 0
    ensures HeadersFit([], pos, [], compress, [], sector)
  {
  }

  lemma OneMoreHeader(front: seq<byte>, more: seq<byte>, pos: nat, at: nat, hs: seq<nat>,
                      compress: seq<byte> -> seq<byte>, pages: seq<seq<byte>>, sector: nat)
    requires sector > 0 && pages != [] && HeaderFits(front + more, pos, at, |compress(pages[0])|, sector)
    requires HeadersFit(more, pos + |front|, hs, compress, pages[1..], sector)
    ensures HeadersFit(front + more, pos, [at] + hs, compress, pages, sector)
  {
    hide HeaderFits;
    var all := [at] + hs;
    forall i | 0 < i < |all|
      ensures HeaderFits(front + more, pos, all[i], |compress(pages[i])|, sector)
    {
      assert all[i] == hs[i - 1] && pages[i] == pages[1..][i - 1];
      HeaderShift(front, more, pos, all[i], |compress(pages[i])|, sector);
    }
  }

  /** Every header of a written frame lies within one sector and holds its segment's
      length. */
  lemma {:induction false} HeadersNeverStraddle(compress: seq<byte> -> seq<byte>, pages: seq<seq<byte>>, pos: nat,
                                                sector: nat)
    requires sector >= 4 && forall p :: p in pages ==> |compress(p)| < TWO32
    ensures HeadersFit(WriteSegments(compress, pages, pos, sector), pos, HeadersAt(compress, pages, pos, sector),
                       compress, pages, sector)
    decreases |pages|
  {
    hide Padding;
    hide HeadersFit;
    hide HeaderFits;
    if pages == [] {
      NoHeaders(compress, pos, sector);
    } else {
      assert pages[0] in pages;
      var front, more, next := FirstSegment(compress, pages, pos, sector);
      HeadersNeverStraddle(compress, pages[1..], next, sector);
      OneMoreHeader(front, more, pos, pos + Padding(pos, sector), HeadersAt(compress, pages[1..], next, sector),
                    compress, pages, sector);
    }
  }

  lemma FirstSegment(compress: seq<byte> -> seq<byte>, pages: seq<seq<byte>>, pos: nat, sector: nat)
      returns (front: seq<byte>, more: seq<byte>, next: nat)
    requires sector >= 4 && pages != [] && |compress(pages[0])| < TWO32
    ensures next == pos + |front| && more == WriteSegments(compress, pages[1..], next, sector)
    ensures WriteSegments(compress, pages, pos, sector) == front + more
    ensures HeadersAt(compress, pages, pos, sector)
         == [pos + Padding(pos, sector)] + HeadersAt(compress, pages[1..], next, sector)
    ensures HeaderFits(front + more, pos, pos + Padding(pos, sector), |compress(pages[0])|, sector)
  {
    hide HeaderFits;
    hide Padding;
    var seg, pad := compress(pages[0]), Padding(pos, sector);
    next := pos + pad + 4 + |seg|;
    more := WriteSegments(compress, pages[1..], next, sector);
    front := Zeros(pad) + (ToLE(|seg|, 4) + seg);
    FirstHeader(seg, more, pos, sector);
    assert Zeros(pad) + (ToLE(|seg|, 4) + (seg + more)) == front + more;
  }

  /** A frame of `pages`, followed inside the frame by `more` bytes. */
  function WriteFrame(compress: seq<byte> -> seq<byte>, pages: seq<seq<byte>>, more: seq<byte>, sector: nat): seq<byte>
    requires sector > 0
  {
    var segs := WriteSegments(compress, pages, LEN_SIZE, sector);
    ToLE(LEN_SIZE + |segs| + |more|, 4) + (segs + more)
  }

  /** `compress` is one the codec undoes, page by page. */
  ghost predicate Writable(c: Codecs, compress: seq<byte> -> seq<byte>, pages: seq<seq<byte>>, sector: nat) {
    forall p :: p in pages ==>
      0 < |p| <= sector && 0 < |compress(p)| < TWO32 && c.lzo1x(compress(p), sector) == Some(p)
  }

  /** The segments read from `pos` are exactly `pages`, and end at `end`. */
  ghost predicate ReadsAs(c: Codecs, src: seq<byte>, total: nat, pos: nat, pages: seq<seq<byte>>, end: nat, sector: nat)
    requires sector > 0 && total <= |src|
    decreases |pages|
  {
    if pages == [] then pos == end else
      && pos < total
      && match Segment(c, src, total, pos, sector)
         case Ok(Some((plain, next))) => plain == pages[0] && ReadsAs(c, src, total, next, pages[1..], end, sector)
         case _ => false
  }

  /** A header and segment lying at `at`, after any padding, are read back. */
  lemma SegmentReadBack(c: Codecs, src: seq<byte>, total: nat, pos: nat, at: nat, seg: seq<byte>, page: seq<byte>,
                        next: nat, sector: nat)
    requires sector > 0 && pos < total <= |src| && at == pos + Padding(pos, sector)
    requires 0 < |seg| && next == at + 4 + |seg| <= total && |page| <= sector
    requires U32At(src, at) == Ok(|seg|) && src[at + 4..at + 4 + |seg|] == seg
    requires c.lzo1x(seg, sector) == Some(page)
    ensures Segment(c, src, total, pos, sector) == Ok(Some((page, next)))
  {
  }

  lemma LengthReadBack(pre: seq<byte>, z: seq<byte>, n: nat, rest: seq<byte>)
    requires n < TWO32
    ensures U32At(pre + (z + (ToLE(n, 4) + rest)), |pre| + |z|) == Ok(n)
  {
    hide U32At;
    U32Shift(pre, z + (ToLE(n, 4) + rest), |z|);
    U32Shift(z, ToLE(n, 4) + rest, 0);
    U32Head(n, rest);
  }

  lemma DataReadBack(pre: seq<byte>, z: seq<byte>, h: seq<byte>, seg: seq<byte>, rest: seq<byte>, src: seq<byte>,
                     at: nat)
    requires src == pre + (z + (h + (seg + rest))) && at == |pre| + |z| + |h|
    ensures at + |seg| <= |src| && src[at..at + |seg|] == seg
  {
    SliceShift(pre, z + (h + (seg + rest)), |z| + |h|, |z| + |h| + |seg|);
    SliceShift(z, h + (seg + rest), |h|, |h| + |seg|);
    SliceShift(h, seg + rest, 0, |seg|);
    assert (seg + rest)[0..|seg|] == seg;
  }

  lemma Reassociate(pre: seq<byte>, z: seq<byte>, h: seq<byte>, seg: seq<byte>, more: seq<byte>, post: seq<byte>)
    ensures pre + ((z + (h + (seg + more))) + post) == pre + (z + (h + (seg + (more + post))))
    ensures pre + ((z + (h + (seg + more))) + post) == (pre + (z + (h + seg))) + (more + post)
  {
    assert (z + (h + (seg + more))) + post == z + (h + (seg + (more + post)));
    assert pre + (z + (h + (seg + (more + post)))) == (pre + (z + (h + seg))) + (more + post);
  }

  lemma ReadsStep(c: Codecs, src: seq<byte>, total: nat, pos: nat, next: nat, pages: seq<seq<byte>>, end: nat,
                  sector: nat)
    requires sector > 0 && pos < total <= |src| && pages != []
    requires Segment(c, src, total, pos, sector) == Ok(Some((pages[0], next)))
    requires ReadsAs(c, src, total, next, pages[1..], end, sector)
    ensures ReadsAs(c, src, total, pos, pages, end, sector)
  {
  }

  /** What the writer lays out after `pre` reads as its pages. */
  lemma {:induction false} WrittenReadsBack(c: Codecs, compress: seq<byte> -> seq<byte>, pages: seq<seq<byte>>,
                                            pre: seq<byte>, pos: nat, segs: seq<byte>, post: seq<byte>,
                                            src: seq<byte>, total: nat, end: nat, sector: nat)
    requires sector > 0 && Writable(c, compress, pages, sector)
    requires pos == |pre| && segs == WriteSegments(compress, pages, pos, sector)
    requires src == pre + (segs + post)
    requires end == pos + |segs| && end <= total <= |src|
    ensures ReadsAs(c, src, total, pos, pages, end, sector)
    decreases |pages|
  {
    hide Padding;
    hide Segment;
    hide U32At;
    hide WriteSegments;
    if pages == [] {
      assert segs == [] by { NothingWritten(compress, pos, sector); }
    } else {
      hide ReadsAs;
      var front, more := FirstReadsBack(c, compress, pages, pre, segs, post, src, total, sector);
      var next := pos + |front|;
      assert src == (pre + front) + (more + post);
      assert forall p :: p in pages[1..] ==> p in pages;
      WrittenReadsBack(c, compress, pages[1..], pre + front, next, more, post, src, total, end, sector);
      ReadsStep(c, src, total, pos, next, pages, end, sector);
    }
  }

  lemma NothingWritten(compress: seq<byte> -> seq<byte>, pos: nat, sector: nat)
    requires sector > 0
    ensures WriteSegments(compress, [], pos, sector) == []
  {
  }

  lemma FirstReadsBack(c: Codecs, compress: seq<byte> -> seq<byte>, pages: seq<seq<byte>>, pre: seq<byte>,
                       segs: seq<byte>, post: seq<byte>, src: seq<byte>, total: nat, sector: nat)
      returns (front: seq<byte>, more: seq<byte>)
    requires sector > 0 && Writable(c, compress, pages, sector) && pages != []
    requires segs == WriteSegments(compress, pages, |pre|, sector)
    requires src == pre + (segs + post) && |pre| + |segs| <= total <= |src|
    ensures front != [] && segs == front + more
    ensures more == WriteSegments(compress, pages[1..], |pre| + |front|, sector)
    ensures |pre| < total && Segment(c, src, total, |pre|, sector) == Ok(Some((pages[0], |pre| + |front|)))
  {
    hide Padding;
    hide U32At;
    hide Segment;
    hide Writable;
    var page, seg := pages[0], compress(pages[0]);
    PageWritable(c, compress, pages, sector);
    var pad := Padding(|pre|, sector);
    var next := |pre| + pad + 4 + |seg|;
    front := Zeros(pad) + (ToLE(|seg|, 4) + seg);
    more := WriteSegments(compress, pages[1..], next, sector);
    assert segs == Zeros(pad) + (ToLE(|seg|, 4) + (seg + more));
    hide WriteSegments;
    var z, h := Zeros(pad), ToLE(|seg|, 4);
    Reassociate(pre, z, h, seg, more, post);
    LaidOut(pre, z, h, seg, more + post, src);
    SegmentReadBack(c, src, total, |pre|, |pre| + pad, seg, page, next, sector);
  }

  lemma PageWritable(c: Codecs, compress: seq<byte> -> seq<byte>, pages: seq<seq<byte>>, sector: nat)
    requires Writable(c, compress, pages, sector) && pages != []
    ensures var page := pages[0];
            0 < |page| <= sector && 0 < |compress(page)| < TWO32 && c.lzo1x(compress(page), sector) == Some(page)
  {
  }

  /** A segment after padding `z`: its header and data can be read where they lie. */
  lemma LaidOut(pre: seq<byte>, z: seq<byte>, h: seq<byte>, seg: seq<byte>, rest: seq<byte>, src: seq<byte>)
    requires |seg| < TWO32 && h == ToLE(|seg|, 4) && src == pre + (z + (h + (seg + rest)))
    ensures var at := |pre| + |z|;
            && at + 4 + |seg| <= |src|
            && U32At(src, at) == Ok(|seg|) && src[at + 4..at + 4 + |seg|] == seg
  {
    hide U32At;
    hide ToLE;
    LengthReadBack(pre, z, |seg|, seg + rest);
    DataReadBack(pre, z, h, seg, rest, src, |pre| + |z| + |h|);
  }

  /** Decoding segments that read as `pages` collects them, to the end of the
      frame or until the declared size is reached with more to come. */
  lemma {:induction false} SegmentsCollect(c: Codecs, src: seq<byte>, total: nat, pos: nat, pages: seq<seq<byte>>,
                                           end: nat, out: seq<byte>, size: Size)
    requires size.sector > 0 && total <= |src|
    requires ReadsAs(c, src, total, pos, pages, end, size.sector)
    requires forall p :: p in pages ==> |p| > 0
    requires |out| + |Concat(pages)| <= size.ramBytes
    requires end < total ==> |out| + |Concat(pages)| == size.ramBytes
    ensures SegmentsFrom(c, src, total, pos, out, size) == Ok(out + Concat(pages))
    decreases |pages|
  {
    hide Segment;
    if pages == [] {
      assert out + Concat(pages) == out;
    } else {
      var (plain, next) := Segment(c, src, total, pos, size.sector).value.value;
      assert pages[0] in pages;
      SegmentsCollect(c, src, total, next, pages[1..], end, out + plain, size);
      assert (out + plain) + Concat(pages[1..]) == out + Concat(pages);
    }
  }

  lemma ReadsUnframed(c: Codecs, src: seq<byte>, total: nat, pages: seq<seq<byte>>, end: nat, size: Size)
    requires size.sector > 0 && LEN_SIZE <= total <= |src| && U32At(src, 0) == Ok(total)
    requires ReadsAs(c, src, total, LEN_SIZE, pages, end, size.sector)
    requires forall p :: p in pages ==> |p| > 0
    requires |Concat(pages)| <= size.ramBytes && (end < total ==> |Concat(pages)| == size.ramBytes)
    ensures Unframed(c, src, size) == Ok(Concat(pages))
  {
    SegmentsCollect(c, src, total, LEN_SIZE, pages, end, [], size);
    assert [] + Concat(pages) == Concat(pages);
  }

  lemma SettledExactly(plain: seq<byte>, size: Size)
    requires size.Valid() && |plain| <= size.ramBytes < |plain| + size.sector
    ensures Settled(plain, size) == Ok(plain + Zeros(size.ramBytes - |plain|))
  {
    assert Padded(plain, size.ramBytes) == plain + Zeros(size.ramBytes - |plain|);
  }

  /** Decoding a written frame gives its pages back, zero-padded to any declared
      size that exceeds them by less than a sector; bytes after the frame are
      ignored. A frame that still has segments (`more`) once the declared size
      is reached is accepted too: the rest of it is never looked at. */
  lemma LzoRoundTrip(c: Codecs, compress: seq<byte> -> seq<byte>, pages: seq<seq<byte>>, more: seq<byte>,
                     post: seq<byte>, size: Size)
    requires size.Valid() && Writable(c, compress, pages, size.sector)
    requires |Concat(pages)| <= size.ramBytes < |Concat(pages)| + size.sector
    requires more != [] ==> |Concat(pages)| == size.ramBytes
    requires |WriteFrame(compress, pages, more, size.sector)| < TWO32
    ensures LzoOf(c, WriteFrame(compress, pages, more, size.sector) + post, size)
         == Ok(Concat(pages) + Zeros(size.ramBytes - |Concat(pages)|))
  {
    hide Padding;
    hide WriteSegments;
    hide ReadsAs;
    var segs := WriteSegments(compress, pages, LEN_SIZE, size.sector);
    var end, total := LEN_SIZE + |segs|, LEN_SIZE + |segs| + |more|;
    var src := WriteFrame(compress, pages, more, size.sector) + post;
    FrameLayout(segs, more, post, total);
    WrittenReadsBack(c, compress, pages, ToLE(total, 4), LEN_SIZE, segs, more + post, src, total, end, size.sector);
    ReadsUnframed(c, src, total, pages, end, size);
    SettledExactly(Concat(pages), size);
  }

  lemma FrameLayout(segs: seq<byte>, more: seq<byte>, post: seq<byte>, total: nat)
    requires total < TWO32
    ensures var src := (ToLE(total, 4) + (segs + more)) + post;
            src == ToLE(total, 4) + (segs + (more + post)) && U32At(src, 0) == Ok(total)
  {
    var h := ToLE(total, 4);
    assert (h + (segs + more)) + post == h + (segs + (more + post));
    U32Head(total, segs + (more + post));
  }

  // ----- Dispatch -----

  /** What the extent's codec yields before it is settled. */
  function Decoded(c: Codecs, algo: nat, src: seq<byte>, size: Size): Result<seq<byte>>
    requires size.sector > 0
  {
    // Asking for one byte too many shows a stream that is too long.
    if algo == 1 then Take(c.zlib(src), size.most + 1)
    else if algo == 2 then Unframed(c, src, size)
    else if algo == 3 then
      match c.zstd(src)
      case None => Err(CodecFailed)
      case Some(s) => Take(s, size.most + 1)
    else Err(UnknownCodec)
  }

  function SizeOf(ramBytes: nat, sector: nat, inline: bool): (s: Size)
    requires sector > 0
    ensures s.Valid()
  {
    Size(ramBytes, if inline then NextMultiple(ramBytes, sector) else ramBytes, sector)
  }

  function Decompressed(c: Codecs, algo: nat, src: seq<byte>, ramBytes: nat, sector: nat, inline: bool)
      : (r: Result<seq<byte>>)
    ensures r.Ok? ==> |r.value| == ramBytes
  {
    if ramBytes > MAX_RAM_BYTES then Err(Implausible)
    else if sector == 0 then Err(BadSectorSize)
    else
      var out :- Decoded(c, algo, src, SizeOf(ramBytes, sector, inline));
      Settled(out, SizeOf(ramBytes, sector, inline))
  }

  method Decode(c: Codecs, algo: nat, src: seq<byte>, ramBytes: nat, sector: nat, inline: bool)
      returns (r: Result<seq<byte>>)
    ensures r == Decompressed(c, algo, src, ramBytes, sector, inline)
  {
    if ramBytes > MAX_RAM_BYTES {
      return Err(Implausible);
    }
    if sector == 0 {
      return Err(BadSectorSize);
    }
    var size := SizeOf(ramBytes, sector, inline);
    if algo == 2 {
      r := Lzo(c, src, size);
    } else {
      var out :- Decoded(c, algo, src, size);
      r := Finish(out, size);
    }
  }

  /** Whatever the input, a success is the decoded stream cut or zero-padded to
      the declared size, short by less than a sector, and the buffer never grew
      more than a sector past what the extent may hold. */
  lemma DecompressionSettles(c: Codecs, algo: nat, src: seq<byte>, ramBytes: nat, sector: nat, inline: bool)
    requires Decompressed(c, algo, src, ramBytes, sector, inline).Ok?
    ensures sector > 0
    ensures var out := Decoded(c, algo, src, SizeOf(ramBytes, sector, inline));
            && out.Ok?
            && |out.value| <= SizeOf(ramBytes, sector, inline).most < ramBytes + sector
            && ramBytes < |out.value| + sector
            && Decompressed(c, algo, src, ramBytes, sector, inline).value
               == out.value[..Min(ramBytes, |out.value|)] + Zeros(Max(0, ramBytes - |out.value|))
  {
    var size := SizeOf(ramBytes, sector, inline);
    var out := Decoded(c, algo, src, size).value;
    assert Padded(out, ramBytes) == out[..Min(ramBytes, |out|)] + Zeros(Max(0, ramBytes - |out|));
  }

  // ----- Exactly when, by codec -----

  /** A decoder's stream is taken exactly when it ends well within what the extent may
      decode to and short of its declared size by less than a sector. */
  ghost predicate Takes(s: Decoder, ramBytes: nat, sector: nat, inline: bool)
    requires sector > 0
  {
    && !s.fails
    && |s.bytes| <= (if inline then NextMultiple(ramBytes, sector) else ramBytes)
    && ramBytes < |s.bytes| + sector
  }

  lemma StreamTaken(s: Decoder, ramBytes: nat, sector: nat, inline: bool)
    requires sector > 0
    ensures var size := SizeOf(ramBytes, sector, inline);
            var r := Take(s, size.most + 1);
            (r.Ok? && Settled(r.value, size).Ok? <==> Takes(s, ramBytes, sector, inline))
            && (Takes(s, ramBytes, sector, inline) ==> r == Ok(s.bytes))
  {
  }

  /** Codec 1 is zlib and codec 3 is zstd: a success is the stream, cut or zero-padded to
      the declared size. */
  lemma ZlibExactly(c: Codecs, src: seq<byte>, ramBytes: nat, sector: nat, inline: bool)
    requires ramBytes <= 0x4000_0000 && sector > 0
    ensures var r := Decompressed(c, 1, src, ramBytes, sector, inline);
            (r.Ok? <==> Takes(c.zlib(src), ramBytes, sector, inline))
            && (r.Ok? ==> r.value == Padded(c.zlib(src).bytes, ramBytes))
  {
    hide Padded;
    StreamTaken(c.zlib(src), ramBytes, sector, inline);
  }

  lemma ZstdExactly(c: Codecs, src: seq<byte>, ramBytes: nat, sector: nat, inline: bool)
    requires ramBytes <= 0x4000_0000 && sector > 0
    ensures var r := Decompressed(c, 3, src, ramBytes, sector, inline);
            (r.Ok? <==> c.zstd(src).Some? && Takes(c.zstd(src).value, ramBytes, sector, inline))
            && (r.Ok? ==> r.value == Padded(c.zstd(src).value.bytes, ramBytes))
  {
    hide Padded;
    if c.zstd(src).Some? {
      StreamTaken(c.zstd(src).value, ramBytes, sector, inline);
    }
  }

  /** Codec 2 is framed LZO; there are no others, and no sizes out of bounds. */
  lemma LzoByNumber(c: Codecs, src: seq<byte>, ramBytes: nat, sector: nat, inline: bool)
    requires ramBytes <= 0x4000_0000 && sector > 0
    ensures Decompressed(c, 2, src, ramBytes, sector, inline) == LzoOf(c, src, SizeOf(ramBytes, sector, inline))
  {
  }

  lemma Refused(c: Codecs, algo: nat, src: seq<byte>, ramBytes: nat, sector: nat, inline: bool)
    ensures ramBytes > 0x4000_0000 ==> Decompressed(c, algo, src, ramBytes, sector, inline) == Err(Implausible)
    ensures algo == 0 || algo > 3 || sector == 0 ==> Decompressed(c, algo, src, ramBytes, sector, inline).Err?
  {
  }

  /** An inline extent may decode to its whole last sector, any other to its declared
      size. */
  lemma InlineRoom(ramBytes: nat, sector: nat)
    requires sector > 0
    ensures SizeOf(ramBytes, sector, true).most % sector == 0
    ensures ramBytes <= SizeOf(ramBytes, sector, true).most < ramBytes + sector
    ensures SizeOf(ramBytes, sector, false).most == ramBytes
  {
    if ramBytes % sector != 0 {
      NextSector(ramBytes, sector);
    }
  }

  /** A frame that lies about its length is refused, and a segment that is empty, leaves
      the frame, does not decode or decodes to more than a sector. */
  lemma FrameRefused(c: Codecs, src: seq<byte>, size: Size)
    requires size.sector > 0
    requires |src| < 4 || U32At(src, 0).value < 4 || U32At(src, 0).value > |src|
    ensures LzoOf(c, src, size) == Err(BadFrame)
  {
    hide U32At;
  }

  lemma SegmentRefused(c: Codecs, src: seq<byte>, total: nat, pos: nat, sector: nat)
    requires sector > 0 && pos < total <= |src| && pos + Padding(pos, sector) < total
    ensures var at := pos + Padding(pos, sector);
            var len := U32At(src, at);
            Segment(c, src, total, pos, sector).Err?
            <==> || len.Err? || len.value == 0 || at + 4 + len.value > total
                 || c.lzo1x(src[at + 4..at + 4 + len.value], sector).None?
                 || |c.lzo1x(src[at + 4..at + 4 + len.value], sector).value| > sector
  {
    hide U32At;
    hide Padding;
  }
}
