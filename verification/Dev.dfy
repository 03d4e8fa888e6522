// A device and its aligned reads (src/dev.rs).
//
// `Media` is what a device holds. `Backing` delivers it as an operating system
// does: in counts as short as its schedule likes, with interrupts in between.
// `Device.Read` is proved to give one answer whatever the schedule.

module Dev {
  import opened Bytes

  const ALIGN: nat := 4096
  const MAX_IO: nat := 4 * 1024 * 1024

  /** The bytes of a device, and the positions it fails to read. */
  datatype Media = Media(data: seq<byte>, bad: set<nat>) {
    /** Some byte that exists in [from, to) cannot be read. */
    ghost predicate Damaged(from: nat, to: nat) {
      exists p :: p in bad && from <= p < to && p < |data|
    }
  }

  function AlignDown(off: nat): (r: nat)
    ensures r <= off < r + ALIGN && r % ALIGN == 0
  {
    off - off % ALIGN
  }

  function AlignUp(off: nat): (r: nat)
    ensures r < off + ALIGN && off <= r && r % ALIGN == 0
  {
    (off + ALIGN - 1) / ALIGN * ALIGN
  }

  /** What reading `len` bytes at `off` gives: the widened range has to be
      undamaged, but only the requested bytes have to exist. A request whose
      widened range is empty asks the device nothing. */
  function ReadOf(d: Media, off: nat, len: nat): (r: Result<seq<byte>>)
    ensures r.Ok? ==> |r.value| == len
    ensures r.Ok? && len > 0 ==> off + len <= |d.data| && r.value == d.data[off..off + len]
    ensures len > 0 && off + len > |d.data| ==> r.Err?
    ensures r.Ok? ==> forall p :: off <= p < off + len ==> p !in d.bad
  {
    var start, end := AlignDown(off), AlignUp(off + len);
    if start == end then Ok([])
    else if exists p :: p in d.bad && start <= p < end && p < |d.data| then Err(Fault)
    else if |d.data| < off + len then Err(EndOfDevice)
    else Ok(d.data[off..off + len])
  }

  /** A fault means damage in the widened range and damage there a fault; otherwise the
      range that was asked for decides. */
  lemma ReadOfExactly(d: Media, off: nat, len: nat)
    requires len > 0
    ensures var r := ReadOf(d, off, len);
            && (r == Err(Fault) <==> d.Damaged(AlignDown(off), AlignUp(off + len)))
            && (!d.Damaged(AlignDown(off), AlignUp(off + len)) ==>
                  r == if off + len <= |d.data| then Ok(d.data[off..off + len]) else Err(EndOfDevice))
  {
  }

  /** An undamaged device can be read up to its last byte, wherever that lies. */
  lemma ReadToTheEnd(d: Media, off: nat, len: nat)
    requires d.bad == {} && len > 0
    ensures ReadOf(d, off, len) == if off + len <= |d.data| then Ok(d.data[off..off + len]) else Err(EndOfDevice)
  {
  }

  /** A smaller read of a readable range succeeds too. */
  lemma ReadOfPart(d: Media, off: nat, len: nat, off': nat, len': nat)
    requires off <= off' && off' + len' <= off + len && len' > 0
    requires ReadOf(d, off, len).Ok?
    ensures ReadOf(d, off', len') == Ok(ReadOf(d, off, len).value[off' - off..off' - off + len'])
  {
    AlignMonotone(off, off');
    AlignMonotone(off' + len' + ALIGN - 1, off + len + ALIGN - 1);
    assert AlignUp(off' + len') <= AlignUp(off + len);
    assert off + len <= |d.data|;
    assert d.data[off'..off' + len'] == d.data[off..off + len][off' - off..off' - off + len'];
  }

  lemma AlignMonotone(a: nat, b: nat)
    requires a <= b
    ensures AlignDown(a) <= AlignDown(b)
    ensures a / ALIGN * ALIGN <= b / ALIGN * ALIGN
  {
  }

  // ----- The device as the operating system offers it -----

  datatype Event = Interrupted | AtMost(count: nat)

  datatype Answer = Bytes(n: nat) | Interrupt | Failure

  class Backing {
    const disk: Media
    /** What the coming reads do; once it is used up they are as long as asked. */
    var schedule: seq<Event>

    constructor (disk: Media, schedule: seq<Event>)
      ensures this.disk == disk && this.schedule == schedule
    {
      this.disk := disk;
      this.schedule := schedule;
    }

    /** One positioned read into buf[at..at + want]. It may be short, be
        interrupted, or meet damage; zero bytes mean the end of the device. */
    method ReadAt(buf: array<byte>, at: nat, want: nat, off: nat) returns (a: Answer)
      requires at + want <= buf.Length && want > 0
      modifies this, buf
      ensures |schedule| <= |old(schedule)|
      ensures a.Interrupt? ==> |schedule| < |old(schedule)|
      ensures forall i :: 0 <= i < at ==> buf[i] == old(buf[i])
      ensures a.Failure? ==> disk.Damaged(off, off + want)
      ensures a.Bytes? ==> a.n <= want && (a.n == 0 <==> off >= |disk.data|)
      ensures a.Bytes? ==> off + a.n <= Max(off, |disk.data|) && !disk.Damaged(off, off + a.n)
      ensures a.Bytes? ==> forall i :: at <= i < at + a.n ==> buf[i] == disk.data[off - at + i]
    {
      var most := want;
      if schedule != [] {
        var e := schedule[0];
        schedule := schedule[1..];
        match e {
          case Interrupted => return Interrupt;
          case AtMost(count) => most := Min(want, Max(1, count));
        }
      }
      if off >= |disk.data| {
        return Bytes(0);
      }
      var n := Min(most, |disk.data| - off);
      if exists p :: p in disk.bad && off <= p < off + n {
        return Failure;
      }
      forall i | 0 <= i < n {
        buf[at + i] := disk.data[off + i];
      }
      return Bytes(n);
    }
  }

  /** The first `done` bytes of a buffer are the device's from `start` on. */
  ghost predicate Filled(buf: seq<byte>, d: Media, start: nat, done: nat) {
    && done <= |buf|
    && (done > 0 ==> start + done <= |d.data|)
    && (forall i :: 0 <= i < done ==> buf[i] == d.data[start + i])
    && !d.Damaged(start, start + done)
  }

  /** Truncating and draining a filled buffer leaves the slice asked for. */
  lemma TrimmedIsSlice(buf: seq<byte>, d: Media, start: nat, done: nat, skip: nat, len: nat)
    requires Filled(buf, d, start, done) && skip + len <= done && 0 < done
    ensures buf[..skip + len][skip..] == d.data[start + skip..start + skip + len]
  {
  }

  class Device {
    const backing: Backing

    constructor (backing: Backing)
      ensures this.backing == backing
    {
      this.backing := backing;
    }

    /** Reads on until the buffer is full or the device ends; false on a fault. */
    method Fill(buf: array<byte>, start: nat) returns (ok: bool, done: nat)
      modifies backing, buf
      ensures ok <==> !backing.disk.Damaged(start, start + buf.Length)
      ensures ok ==> Filled(buf[..], backing.disk, start, done)
      ensures ok && done < buf.Length ==> start + done >= |backing.disk.data|
    {
      done := 0;
      while done < buf.Length
        invariant Filled(buf[..], backing.disk, start, done)
        decreases buf.Length - done + |backing.schedule|
      {
        var want := Min(buf.Length - done, MAX_IO);
        var a := backing.ReadAt(buf, done, want, start + done);
        match a {
          case Bytes(n) =>
            if n == 0 {
              break;
            }
            done := done + n;
          case Interrupt =>
          case Failure =>
            return false, done;
        }
      }
      ok := true;
    }

    /** The widened, resumed read equals the slice of the device, whatever
        short counts and interrupts the schedule holds. */
    method Read(off: nat, len: nat) returns (r: Result<seq<byte>>)
      modifies backing
      ensures r == ReadOf(backing.disk, off, len)
    {
      var start, end := AlignDown(off), AlignUp(off + len);
      var buf := new byte[end - start](_ => 0);
      var ok, done := Fill(buf, start);
      if !ok {
        return Err(Fault);
      }
      var skip := off - start;
      if done < skip + len {
        return Err(EndOfDevice);
      }
      if done > 0 {
        TrimmedIsSlice(buf[..], backing.disk, start, done, skip, len);
      }
      var bytes := buf[..skip + len];
      return Ok(bytes[skip..]);
    }
  }
}
