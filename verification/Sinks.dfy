// The three sinks of streamed file data: the sparse file that `cp` writes
// (src/copy.rs), the blocks that `cat` writes (src/main.rs) and the vector that
// small reads gather into (src/fs.rs). All three end up with the same bytes.

module Sinks {
  import opened Bytes
  import opened Volumes
  import opened FileData
  import opened Reader

  const I64_MAX: nat := 0x7FFF_FFFF_FFFF_FFFF
  const BLOCK: nat := 65536

  /** `b` cut or zero-extended to `n` bytes. */
  function Resized(b: seq<byte>, n: nat): (r: seq<byte>)
    ensures |r| == n && forall i :: 0 <= i < n ==> r[i] == if i < |b| then b[i] else 0
  {
    if |b| >= n then b[..n] else b + Zeros(n - |b|)
  }

  /** A file opened for writing: its bytes and its cursor, which may lie past
      the end. */
  class HostFile {
    var data: seq<byte>
    var cursor: nat

    constructor ()
      ensures data == [] && cursor == 0
    {
      data, cursor := [], 0;
    }

    /** Overwrites or extends at the cursor; a gap before it reads as zeros. */
    method Write(b: seq<byte>)
      modifies this
      ensures cursor == old(cursor) + |b|
      ensures b != [] ==> |data| == Max(|old(data)|, cursor)
      ensures b == [] ==> data == old(data)
      ensures forall i :: 0 <= i < |data| ==>
                data[i] == if old(cursor) <= i < cursor then b[i - old(cursor)]
                           else if i < |old(data)| then old(data)[i] else 0
    {
      if b != [] {
        var end := cursor + |b|;
        var size := Max(|data|, end);
        var before := Resized(data, size);
        data := before[..cursor] + b + before[end..];
        cursor := end;
      }
    }

    method SeekForward(n: nat)
      requires n <= I64_MAX
      modifies this`cursor
      ensures cursor == old(cursor) + n
    {
      cursor := cursor + n;
    }

    method SetLen(n: nat)
      modifies this`data
      ensures data == Resized(old(data), n)
    {
      data := Resized(data, n);
    }

    /** What has been sent so far: the file holds a prefix of it, and all that it
        does not hold yet is zeros. */
    ghost predicate Holds(sent: seq<byte>)
      reads this
    {
      && cursor == |sent| && |data| <= |sent|
      && forall i :: 0 <= i < |sent| ==> sent[i] == if i < |data| then data[i] else 0
    }

    /** Seeks over a hole in steps a signed offset can express. */
    method SkipHole(n: nat, ghost sent: seq<byte>)
      requires Holds(sent)
      modifies this`cursor
      ensures Holds(sent + Zeros(n))
    {
      var left := n;
      while left > 0
        invariant 0 <= left <= n
        invariant cursor == |sent| + (n - left)
      {
        var step := Min(left, I64_MAX);
        SeekForward(step);
        left := left - step;
      }
    }

    method WriteData(b: seq<byte>, ghost sent: seq<byte>)
      requires Holds(sent)
      modifies this
      ensures Holds(sent + b)
    {
      Write(b);
    }

    /** The sink that `cp` hands to the reader. */
    method Send(pieces: seq<Piece>)
      requires data == [] && cursor == 0
      modifies this
      ensures Holds(Flatten(pieces))
    {
      for i := 0 to |pieces|
        invariant Holds(Flatten(pieces[..i]))
      {
        FlattenNext(pieces, i);
        match pieces[i] {
          case Data(b) => WriteData(b, Flatten(pieces[..i]));
          case Hole(n) => SkipHole(n, Flatten(pieces[..i]));
        }
      }
      assert pieces[..|pieces|] == pieces;
    }

    /** `cp` writing pieces into a fresh file, then fixing its length. */
    method Receive(pieces: seq<Piece>, size: nat)
      requires data == [] && cursor == 0
      modifies this
      ensures data == Resized(Flatten(pieces), size)
    {
      Send(pieces);
      ghost var sent := Flatten(pieces);
      SetLen(size);
      assert data == Resized(sent, size);
    }
  }

  lemma FlattenNext(pieces: seq<Piece>, i: nat)
    requires i < |pieces|
    ensures Flatten(pieces[..i + 1]) == Flatten(pieces[..i]) + PieceBytes(pieces[i])
  {
    assert pieces[..i + 1] == pieces[..i] + [pieces[i]];
    FlattenConcat(pieces[..i], [pieces[i]]);
    assert [pieces[i]][1..] == [];
    assert Flatten([pieces[i]]) == PieceBytes(pieces[i]) + [] == PieceBytes(pieces[i]);
  }

  /** `cat` writing zeros in blocks of at most 64 KiB. */
  method WriteZeros(n: nat) returns (out: seq<byte>)
    ensures out == Zeros(n)
  {
    out := [];
    var zeros := Zeros(BLOCK);
    var left := n;
    while left > 0
      invariant 0 <= left <= n && |out| == n - left
      invariant forall i :: 0 <= i < |out| ==> out[i] == 0
    {
      var k := Min(left, |zeros|);
      out := out + zeros[..k];
      left := left - k;
    }
  }

  method Cat(pieces: seq<Piece>) returns (out: seq<byte>)
    ensures out == Flatten(pieces)
  {
    out := [];
    for i := 0 to |pieces|
      invariant out == Flatten(pieces[..i])
    {
      FlattenNext(pieces, i);
      match pieces[i] {
        case Data(b) => out := out + b;
        case Hole(n) =>
          var zeros := WriteZeros(n);
          out := out + zeros;
      }
    }
    assert pieces[..|pieces|] == pieces;
  }

  /** Growing a vector by data and by resizing. */
  method Gather(pieces: seq<Piece>) returns (out: seq<byte>)
    ensures out == Flatten(pieces)
  {
    out := [];
    for i := 0 to |pieces|
      invariant out == Flatten(pieces[..i])
    {
      FlattenNext(pieces, i);
      match pieces[i] {
        case Data(b) => out := out + b;
        case Hole(n) =>
          var grown := Resized(out, |out| + n);
          assert grown == out + Zeros(n);
          out := grown;
      }
    }
    assert pieces[..|pieces|] == pieces;
  }

  method ReadToVec(fs: Fs, loc: Loc, cap: nat) returns (r: Result<seq<byte>>)
    requires fs.Valid()
    modifies fs, fs.backings
    ensures fs.Valid()
    ensures var s := ReadRangeOf(fs.v, loc, 0, cap, old(fs.lastExtent));
            r == if s.status.None? then Ok(Flatten(s.pieces)) else Err(s.status.value)
  {
    var pieces, status := fs.ReadRange(loc, 0, cap);
    if status.Some? {
      return Err(status.value);
    }
    var out := Gather(pieces);
    return Ok(out);
  }

  /** A symlink target, refused past the kernel's limit before anything is read. */
  method ReadSymlinkTarget(fs: Fs, loc: Loc) returns (r: Result<seq<byte>>)
    requires fs.Valid()
    modifies fs, fs.backings
    ensures fs.Valid()
    ensures match InodeOf(fs.v, loc)
            case Err(e) => r == Err(e)
            case Ok(inode) =>
              if inode.size > MAX_TARGET then r == Err(TargetTooLong)
              else var s := ReadRangeOf(fs.v, loc, 0, inode.size, old(fs.lastExtent));
                   r == if s.status.None? then Ok(Flatten(s.pieces)) else Err(s.status.value)
  {
    var inode :- fs.ReadInode(loc);
    if inode.size > MAX_TARGET {
      return Err(TargetTooLong);
    }
    r := ReadToVec(fs, loc, inode.size);
  }

  /** After a successful whole-file read the three sinks hold the same bytes: the
      file's meaning, of exactly the size its inode declares. `cp` holds
      `Resized` of the pieces, `cat` and the vector hold the pieces flattened. */
  lemma SinksAgree(v: Volume, content: nat -> byte, loc: Loc)
    requires Faithful(v, content) && InodeOf(v, loc).Ok? && GoodFile(v, loc)
    requires ReadRangeOf(v, loc, 0, U64_MAX, Off).status.None?
    ensures var sent := Flatten(ReadRangeOf(v, loc, 0, U64_MAX, Off).pieces);
            var size := InodeOf(v, loc).value.size;
            && |sent| == size && Resized(sent, size) == sent
            && sent == Meaning(v, content, loc, 0, size)
  {
    hide ReadRangeOf;
    hide ExtentsOf;
    hide InodeOf;
    ReadRangeDelivers(v, content, loc, 0, U64_MAX);
  }
}
