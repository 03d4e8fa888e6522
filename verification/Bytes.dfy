// Byte strings and the little-endian accessors of src/disk.rs, with the
// error values that the read path of the program reports.

module Bytes {

  type byte = b: int | 0 <= b < 256

  const TWO16: nat := 0x1_0000
  const TWO32: nat := 0x1_0000_0000
  const TWO64: nat := 0x1_0000_0000_0000_0000
  const U64_MAX: nat := TWO64 - 1

  datatype Option<+T> = None | Some(value: T)

  /** Why an operation of the reader failed. */
  datatype Error =
    | Corrupt            // a structure is shorter than its fields
    | Fault              // the device refused a read
    | EndOfDevice        // the device is shorter than the request
    | Unmapped           // no chunk holds the logical range
    | Striped            // a profile that stripes across devices
    | DeviceMissing      // no device of the chunk was given
    | Unreadable         // no mirror was tried
    | WrongAddress       // a tree block with another address in its header
    | BadChecksum
    | TooManyItems
    | TooDeep
    | WrongLevel
    | NoTree             // the subvolume tree has no ROOT_ITEM
    | NoInode
    | Encrypted
    | UnknownExtentType
    | Implausible        // a size no extent can have
    | AddressOverflow
    | OutsideExtent      // a reference past its decompressed data
    | BadSectorSize
    | UnknownCodec
    | CodecFailed        // the codec rejected its input
    | BadFrame           // the LZO frame lies about its lengths
    | TooLong            // decodes to more than declared
    | TooShort           // decodes to less than sector padding explains
    | NotFound
    | SymlinkInPath
    | NotADirectory
    | NoParentRef
    | EndlessParents
    | TargetTooLong

  datatype Result<+T> = Ok(value: T) | Err(error: Error) {
    predicate IsFailure() {
      Err?
    }

    function PropagateFailure<U>(): Result<U>
      requires Err?
    {
      Err(error)
    }

    function Extract(): T
      requires Ok?
    {
      value
    }
  }

  /** A parse that has already produced `out` and continues with `rest`. */
  function Prepend<T>(out: seq<T>, rest: Result<seq<T>>): (r: Result<seq<T>>)
    ensures out == [] ==> r == rest
    ensures rest == Ok([]) ==> r == Ok(out)
  {
    match rest
    case Ok(more) =>
      assert out == [] ==> out + more == more;
      assert more == [] ==> out + more == out;
      Ok(out + more)
    case Err(e) => Err(e)
  }

  lemma PrependOne<T>(out: seq<T>, x: T, rest: Result<seq<T>>)
    ensures Prepend(out, Prepend([x], rest)) == Prepend(out + [x], rest)
  {
    if rest.Ok? {
      assert out + ([x] + rest.value) == out + [x] + rest.value;
    }
  }

  /** The sum as the release build computes it on u64 values: it wraps. */
  function Add64(a: nat, b: nat): (r: nat)
    ensures a + b < TWO64 ==> r == a + b
    ensures a < TWO64 && b < TWO64 ==> r < TWO64
    ensures a < TWO64 && b < TWO64 && a + b >= TWO64 ==> r == a + b - TWO64
  {
    if a + b < TWO64 then a + b else (a + b) % TWO64
  }

  function Min(a: int, b: int): int {
    if a <= b then a else b
  }

  function Max(a: int, b: int): int {
    if a <= b then b else a
  }

  /** `n` zero bytes. */
  function Zeros(n: nat): (z: seq<byte>)
    ensures |z| == n && forall i :: 0 <= i < n ==> z[i] == 0
  {
    seq(n, _ => 0)
  }

  // ----- Little-endian numbers -----

  function Pow256(n: nat): (p: nat)
    ensures p > 0
  {
    if n == 0 then 1 else 256 * Pow256(n - 1)
  }

  function FromLE(s: seq<byte>): nat {
    if s == [] then 0 else s[0] + 256 * FromLE(s[1..])
  }

  function ToLE(n: nat, width: nat): (s: seq<byte>)
    ensures |s| == width
  {
    if width == 0 then [] else [n % 256] + ToLE(n / 256, width - 1)
  }

  lemma {:induction false} FromToLE(n: nat, width: nat)
    requires n < Pow256(width)
    ensures FromLE(ToLE(n, width)) == n
  {
    if width > 0 {
      FromToLE(n / 256, width - 1);
      var s := ToLE(n, width);
      assert s[1..] == ToLE(n / 256, width - 1);
    }
  }

  /** The last byte counts most. */
  lemma {:induction false} LastCountsMost(s: seq<byte>, b: byte)
    ensures FromLE(s + [b]) == FromLE(s) + b * Pow256(|s|)
  {
    if s == [] {
      assert [b][1..] == [];
    } else {
      assert (s + [b])[1..] == s[1..] + [b];
      LastCountsMost(s[1..], b);
    }
  }

  lemma {:induction false} ToFromLE(s: seq<byte>)
    ensures FromLE(s) < Pow256(|s|)
    ensures ToLE(FromLE(s), |s|) == s
  {
    if s != [] {
      ToFromLE(s[1..]);
      var n, rest := FromLE(s), FromLE(s[1..]);
      assert n % 256 == s[0] && n / 256 == rest;
      assert ToLE(n, |s|) == [s[0]] + ToLE(rest, |s| - 1) == [s[0]] + s[1..] == s;
    }
  }

  lemma Widths()
    ensures Pow256(1) == 256 && Pow256(2) == TWO16 && Pow256(4) == TWO32 && Pow256(8) == TWO64
  {
    assert Pow256(2) == 256 * Pow256(1);
    assert Pow256(3) == 256 * Pow256(2);
    assert Pow256(4) == 256 * Pow256(3);
    assert Pow256(5) == 256 * Pow256(4);
    assert Pow256(6) == 256 * Pow256(5);
    assert Pow256(7) == 256 * Pow256(6);
    assert Pow256(8) == 256 * Pow256(7);
  }

  // ----- The bounds-checked accessors -----

  /** The `len` bytes at `off`, or an error when they are not all there. */
  function Sub(b: seq<byte>, off: nat, len: nat): (r: Result<seq<byte>>)
    ensures r.Ok? <==> off + len <= |b|
    ensures r.Ok? ==> |r.value| == len && forall i :: 0 <= i < len ==> r.value[i] == b[off + i]
  {
    if off + len <= |b| then Ok(b[off..off + len]) else Err(Corrupt)
  }

  function NumAt(b: seq<byte>, off: nat, width: nat): (r: Result<nat>)
    ensures r.Ok? <==> off + width <= |b|
    ensures r.Ok? ==> r.value < Pow256(width)
  {
    var s :- Sub(b, off, width);
    ToFromLE(s);
    Ok(FromLE(s))
  }

  function U8At(b: seq<byte>, off: nat): (r: Result<byte>)
    ensures r.Ok? <==> off < |b|
  {
    var s :- Sub(b, off, 1);
    Ok(s[0])
  }

  function U16At(b: seq<byte>, off: nat): (r: Result<nat>)
    ensures r.Ok? <==> off + 2 <= |b|
    ensures r.Ok? ==> r.value < TWO16
  {
    Widths();
    NumAt(b, off, 2)
  }

  function U32At(b: seq<byte>, off: nat): (r: Result<nat>)
    ensures r.Ok? <==> off + 4 <= |b|
    ensures r.Ok? ==> r.value < TWO32
  {
    Widths();
    NumAt(b, off, 4)
  }

  function U64At(b: seq<byte>, off: nat): (r: Result<nat>)
    ensures r.Ok? <==> off + 8 <= |b|
    ensures r.Ok? ==> r.value < TWO64
  {
    Widths();
    NumAt(b, off, 8)
  }

  // ----- Reading a field back where it was written -----

  /** What lies past `x` is read from `y`. */
  lemma SubShift(x: seq<byte>, y: seq<byte>, off: nat, len: nat)
    ensures Sub(x + y, |x| + off, len) == Sub(y, off, len)
  {
    if off + len <= |y| {
      assert (x + y)[|x| + off..|x| + off + len] == y[off..off + len];
    }
  }

  lemma SliceShift(x: seq<byte>, y: seq<byte>, i: nat, j: nat)
    requires i <= j <= |y|
    ensures (x + y)[|x| + i..|x| + j] == y[i..j]
  {
  }

  lemma SubHead(x: seq<byte>, y: seq<byte>)
    ensures Sub(x + y, 0, |x|) == Ok(x)
  {
    assert (x + y)[0..|x|] == x;
  }

  lemma NumShift(x: seq<byte>, y: seq<byte>, off: nat, width: nat)
    ensures NumAt(x + y, |x| + off, width) == NumAt(y, off, width)
  {
    SubShift(x, y, off, width);
  }

  lemma NumHead(n: nat, width: nat, y: seq<byte>)
    requires n < Pow256(width)
    ensures NumAt(ToLE(n, width) + y, 0, width) == Ok(n)
  {
    SubHead(ToLE(n, width), y);
    FromToLE(n, width);
  }

  lemma U16Shift(x: seq<byte>, y: seq<byte>, off: nat)
    ensures U16At(x + y, |x| + off) == U16At(y, off)
  {
    NumShift(x, y, off, 2);
  }

  lemma U16Head(n: nat, y: seq<byte>)
    requires n < TWO16
    ensures U16At(ToLE(n, 2) + y, 0) == Ok(n)
  {
    Widths();
    NumHead(n, 2, y);
  }

  lemma U32Shift(x: seq<byte>, y: seq<byte>, off: nat)
    ensures U32At(x + y, |x| + off) == U32At(y, off)
  {
    NumShift(x, y, off, 4);
  }

  lemma U32Head(n: nat, y: seq<byte>)
    requires n < TWO32
    ensures U32At(ToLE(n, 4) + y, 0) == Ok(n)
  {
    Widths();
    NumHead(n, 4, y);
  }

  lemma U64Shift(x: seq<byte>, y: seq<byte>, off: nat)
    ensures U64At(x + y, |x| + off) == U64At(y, off)
  {
    NumShift(x, y, off, 8);
  }

  lemma U64Head(n: nat, y: seq<byte>)
    requires n < TWO64
    ensures U64At(ToLE(n, 8) + y, 0) == Ok(n)
  {
    Widths();
    NumHead(n, 8, y);
  }
}
