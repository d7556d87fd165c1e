/** The AHCI block device: byte-addressed read, write and seek over a device that moves whole
    sectors, at most 4 KiB per command. */
module AhciDevice {
  import opened Common

  datatype BlockError = ReadError | WriteError | SeekError | UnsupportedOperation | DeviceNotFound

  datatype SeekFrom = Start(position: nat) | End(fromEnd: int) | Current(offset: int)

  datatype Command = Command(lba: nat, sectors: nat, write: bool)

  /** The command packet holds 48 bits of sector number, so byte addresses repeat after 2^57. */
  const SPAN: nat := 0x200_0000_0000_0000

  function Wrap(a: int): (r: nat)
    ensures r < SPAN
  {
    a % 0x200_0000_0000_0000
  }

  /** How much of `left` bytes at byte address `c` goes into one command. */
  function ChunkLen(c: nat, left: nat): nat { Min(left, 4096 - c % 512) }

  function SectorsFor(bytes: nat): nat { (bytes + 511) / 512 }

  /** The sector number that reaches the device. */
  function SentLba(c: nat): nat { c / 512 % 0x1_0000_0000_0000 }

  /** The disk address of byte `i` from cursor `c` on, and its inverse. */
  function At(c: nat, i: nat): nat { Wrap(c + i) }
  function OffsetOf(c: nat, a: nat): nat { Wrap(a - c) }

  lemma OffsetOfAt(c: nat, i: nat)
    requires i < SPAN
    ensures OffsetOf(c, At(c, i)) == i
  {
  }

  lemma AtNear(c: nat, i: nat)
    requires At(c, 0) + i < SPAN
    ensures At(c, i) == At(c, 0) + i
  {
  }

  lemma OffsetOfNear(c: nat, a: nat)
    requires a < SPAN
    ensures OffsetOf(c, a) == if At(c, 0) <= a then a - At(c, 0) else a - At(c, 0) + SPAN
  {
  }

  lemma OffsetOfLater(c: nat, n: nat, a: nat)
    requires n <= SPAN
    ensures OffsetOf(c + n, a) == if n <= OffsetOf(c, a) then OffsetOf(c, a) - n else OffsetOf(c, a) - n + SPAN
  {
  }

  /** `d` after writing `buf` at cursor `c`, addresses taken modulo 2^57. */
  function Written(d: seq<Byte>, c: nat, buf: seq<Byte>): (r: seq<Byte>)
    ensures |r| == |d|
    ensures forall a | 0 <= a < |d| :: r[a] == if OffsetOf(c, a) < |buf| then buf[OffsetOf(c, a)] else d[a]
  {
    seq(|d|, a requires 0 <= a < |d| => if OffsetOf(c, a) < |buf| then buf[OffsetOf(c, a)] else d[a])
  }

  lemma WrittenNothing(d: seq<Byte>, c: nat)
    ensures Written(d, c, []) == d
  {
  }

  /** Writing the front of a buffer and then the rest writes the buffer. */
  lemma WrittenJoin(d: seq<Byte>, c: nat, front: seq<Byte>, back: seq<Byte>)
    requires |front| + |back| <= SPAN
    ensures Written(Written(d, c, front), c + |front|, back) == Written(d, c, front + back)
  {
    forall a | 0 <= a < |d|
      ensures Written(Written(d, c, front), c + |front|, back)[a] == Written(d, c, front + back)[a]
    {
      hide At, OffsetOf;
      OffsetOfLater(c, |front|, a);
    }
  }

  /** One command: a splice at the wrapped address. */
  lemma WrittenChunk(d: seq<Byte>, c: nat, bytes: seq<Byte>)
    requires |d| <= SPAN && At(c, 0) + |bytes| <= |d|
    ensures Splice(d, At(c, 0), bytes) == Written(d, c, bytes)
  {
    hide At, OffsetOf;
    forall a | 0 <= a < |d| ensures Splice(d, At(c, 0), bytes)[a] == Written(d, c, bytes)[a] {
      OffsetOfNear(c, a);
    }
  }

  /** A write to a flat byte array: exactly the addresses from `c` to `c + |buf|` are replaced. */
  function FlatWritten(d: seq<Byte>, c: nat, buf: seq<Byte>): (r: seq<Byte>)
    ensures |r| == |d|
  {
    seq(|d|, a requires 0 <= a < |d| => if c <= a < c + |buf| then buf[a - c] else d[a])
  }

  predicate HasRoom(d: seq<Byte>, c: nat, n: nat) { forall i | 0 <= i < n :: At(c, i) < |d| }

  /** Below 2^57 the device is a flat byte array. */
  lemma WrittenIsFlat(d: seq<Byte>, c: nat, buf: seq<Byte>)
    requires |d| <= SPAN && c + |buf| <= SPAN
    ensures Written(d, c, buf) == FlatWritten(d, c, buf)
  {
    forall a | 0 <= a < |d| ensures Written(d, c, buf)[a] == FlatWritten(d, c, buf)[a] {
      OffsetOfNear(c, a);
    }
  }

  /** Above it, it is not: a write 2^57 further on lands on the same bytes. */
  lemma WrittenWraps(d: seq<Byte>, c: nat, buf: seq<Byte>)
    ensures Written(d, c + SPAN, buf) == Written(d, c, buf)
  {
    forall a | 0 <= a < |d| ensures OffsetOf(c + SPAN, a) == OffsetOf(c, a) {
      OffsetOfLater(c, SPAN, a);
    }
    hide OffsetOf;
    assert Written(d, c + SPAN, buf) == Written(d, c, buf);
  }

  /** The device acts as a flat byte array for every buffer of `n` bytes at `c` exactly when the
      buffer ends at or below 2^57. */
  lemma FlatExactlyBelowSpan(d: seq<Byte>, c: nat, n: nat)
    requires |d| <= SPAN && 0 < n <= SPAN && HasRoom(d, c, n)
    ensures (forall buf: seq<Byte> | |buf| == n :: Written(d, c, buf) == FlatWritten(d, c, buf)) <==> c + n <= SPAN
  {
    if c + n <= SPAN {
      forall buf: seq<Byte> | |buf| == n ensures Written(d, c, buf) == FlatWritten(d, c, buf) {
        WrittenIsFlat(d, c, buf);
      }
    } else {
      var last := At(c, n - 1);
      var other: Byte := if d[last] == 0 then 1 else 0;
      var buf: seq<Byte> := seq(n, _ => other);
      OffsetOfAt(c, n - 1);
      assert last < c;
      assert Written(d, c, buf)[last] == other != FlatWritten(d, c, buf)[last];
    }
  }

  /** `s` is what the disk holds from cursor `c` on. */
  predicate Holds(d: seq<Byte>, c: nat, s: seq<Byte>) {
    forall i | 0 <= i < |s| :: At(c, i) < |d| && s[i] == d[At(c, i)]
  }

  lemma HoldsNothing(d: seq<Byte>, c: nat)
    ensures Holds(d, c, [])
  {
  }

  lemma HoldsJoin(d: seq<Byte>, c: nat, s: seq<Byte>, t: seq<Byte>)
    requires Holds(d, c, s) && Holds(d, c + |s|, t)
    ensures Holds(d, c, s + t)
  {
    forall i | 0 <= i < |s + t| ensures At(c, i) < |d| && (s + t)[i] == d[At(c, i)] {
      if |s| <= i {
        assert At(c + |s|, i - |s|) == At(c, i);
        assert t[i - |s|] == d[At(c + |s|, i - |s|)];
      }
    }
  }

  lemma HoldsChunk(d: seq<Byte>, c: nat, n: nat)
    requires |d| <= SPAN && At(c, 0) + n <= |d|
    ensures Holds(d, c, d[At(c, 0)..At(c, 0) + n])
  {
    forall i | 0 <= i < n ensures At(c, i) == At(c, 0) + i {
      AtNear(c, i);
    }
    hide At;
  }

  /** What was written is what is read back, wherever the disk has room for it. */
  lemma WriteThenRead(d: seq<Byte>, c: nat, buf: seq<Byte>)
    requires |buf| <= SPAN && HasRoom(d, c, |buf|)
    ensures Holds(Written(d, c, buf), c, buf)
  {
    forall i | 0 <= i < |buf| ensures Written(d, c, buf)[At(c, i)] == buf[i] {
      OffsetOfAt(c, i);
    }
  }

  /** Where a command goes, in bytes. */
  lemma CommandRange(c: nat, n: nat)
    requires 0 < n <= 4096 - c % 512
    ensures 1 <= SectorsFor(c % 512 + n) <= 8
    ensures 512 * SentLba(c) + c % 512 == At(c, 0)
    ensures c % 512 + n <= 512 * SectorsFor(c % 512 + n) < c % 512 + n + 512
  {
  }

  /** The sectors of a command lie on the medium when its bytes do. */
  lemma SectorsInRange(d: nat, c: nat, n: nat)
    requires 0 < n <= 4096 - c % 512
    ensures d % 512 == 0 && At(c, 0) + n <= d ==> 512 * (SentLba(c) + SectorsFor(c % 512 + n)) <= d
  {
    hide At;
    CommandRange(c, n);
  }

  lemma AtSmall(c: nat)
    requires c < SPAN
    ensures At(c, 0) == c
  {
  }

  /** After `n` of `len` bytes from cursor `c` a command ends: nothing was written yet, all was,
      or the command before was a full one. */
  predicate AtChunkEnd(c: nat, len: nat, n: nat) { n == 0 || n == len || (c % 512 + n) % 4096 == 0 }

  lemma ChunksStart(c: nat, len: nat)
    ensures AtChunkEnd(c, len, 0)
  {
  }

  lemma ChunkEndsFollow(c: nat, len: nat, n: nat)
    requires AtChunkEnd(c, len, n) && n < len
    ensures AtChunkEnd(c, len, n + ChunkLen(c + n, len - n)) && 0 < ChunkLen(c + n, len - n) <= len - n
  {
    if n == 0 {
      assert c % 512 + (4096 - c % 512) == 4096;
    } else {
      assert (c + n) % 512 == 0;
    }
  }

  /** The read-modify-write of one command: laying `bytes` over the sectors read from `lba` on, and
      writing them back, replaces exactly the bytes at `lba * 512 + offset`. */
  lemma ReadModifyWrite(d: seq<Byte>, lba: nat, offset: nat, sectors: seq<Byte>, bytes: seq<Byte>)
    requires offset + |bytes| <= |sectors| && 512 * lba + |sectors| <= |d|
    requires sectors == d[512 * lba..][..|sectors|] || (offset == 0 && |bytes| == |sectors|)
    ensures Splice(d, 512 * lba, Splice(sectors, offset, bytes)) == Splice(d, 512 * lba + offset, bytes)
  {
    assert |Splice(d, 512 * lba, Splice(sectors, offset, bytes))| == |Splice(d, 512 * lba + offset, bytes)|;
    forall a | 0 <= a < |d|
      ensures Splice(d, 512 * lba, Splice(sectors, offset, bytes))[a] == Splice(d, 512 * lba + offset, bytes)[a]
    {
    }
  }

  /** `d1` is `d0` except in the sectors that a command for `n` bytes at `c` addresses. */
  predicate SameOutside(d0: seq<Byte>, d1: seq<Byte>, c: nat, n: nat) {
    && |d0| == |d1|
    && forall a | 0 <= a < |d0| && !(0 <= a - 512 * SentLba(c) < 512 * SectorsFor(c % 512 + n)) :: d1[a] == d0[a]
  }

  /** What a failed write leaves behind: some whole commands of it took effect, in order, and when
      failures are not clean the next one may have damaged the sectors it addressed. */
  ghost predicate WrittenInPart(d0: seq<Byte>, d1: seq<Byte>, c: nat, buf: seq<Byte>, clean: bool) {
    exists n | 0 <= n <= |buf| && AtChunkEnd(c, |buf|, n) :: LeftAt(d0, d1, c, buf, clean, n)
  }

  predicate LeftAt(d0: seq<Byte>, d1: seq<Byte>, c: nat, buf: seq<Byte>, clean: bool, n: nat)
    requires n <= |buf|
  {
    || d1 == Written(d0, c, buf[..n])
    || (!clean && n < |buf| && SameOutside(Written(d0, c, buf[..n]), d1, c + n, ChunkLen(c + n, |buf| - n)))
  }

  /** A chunk that fails leaves the chunks before it, perhaps with its own, or damage in its range. */
  lemma ChunkFailed(d0: seq<Byte>, before: seq<Byte>, after: seq<Byte>, c: nat, buf: seq<Byte>, clean: bool, n: nat,
                    len: nat)
    requires n < |buf| && len == ChunkLen(c + n, |buf| - n) && n + len <= |buf| && AtChunkEnd(c, |buf|, n)
             && AtChunkEnd(c, |buf|, n + len)
    requires before == Written(d0, c, buf[..n])
             && Written(before, c + n, buf[n..n + len]) == Written(d0, c, buf[..n + len])
    requires after == before || after == Written(before, c + n, buf[n..n + len])
             || (!clean && SameOutside(before, after, c + n, len))
    ensures WrittenInPart(d0, after, c, buf, clean)
  {
    hide Written, SameOutside, AtChunkEnd;
    assert LeftAt(d0, after, c, buf, clean, n) || LeftAt(d0, after, c, buf, clean, n + len);
  }

  class AhciBlockDevice {
    var cursor: nat
    var disk: seq<Byte>             // the medium, sector after sector
    const cleanFailure: bool        // a command that fails has not changed the medium
    const reliable: bool            // nothing fails but requests beyond the medium
    ghost var issued: seq<Command>

    ghost predicate Valid()
      reads this
    {
      |disk| % 512 == 0 && |disk| <= SPAN && cursor < 0x1_0000_0000_0000_0000
    }

    constructor (disk: seq<Byte>, cleanFailure: bool, reliable: bool)
      requires |disk| % 512 == 0 && |disk| <= SPAN
      ensures Valid() && cursor == 0 && this.disk == disk && issued == []
      ensures this.cleanFailure == cleanFailure && this.reliable == reliable
    {
      this.cursor, this.disk, this.cleanFailure, this.reliable, this.issued := 0, disk, cleanFailure, reliable, [];
    }

    /** Memory, ports and commands may fail at any time unless the device is reliable. */
    method Works() returns (ok: bool)
      ensures reliable ==> ok
    {
      ok := *;
      ok := ok || reliable;
    }

    /** Every command issued since `before` moves 1 to 8 sectors, that is at most 4096 bytes. */
    ghost predicate SmallSince(before: seq<Command>)
      reads this
    {
      before <= issued && forall i | |before| <= i < |issued| :: 1 <= issued[i].sectors <= 8
    }

    /** Reads whole sectors. Out of range is an error, and any command may fail. */
    method ReadSectors(lba: nat, count: nat) returns (data: Option<seq<Byte>>)
      modifies this`issued
      ensures data.Some? ==> 512 * (lba % 0x1_0000_0000_0000 + count) <= |disk|
                             && data.value == disk[512 * (lba % 0x1_0000_0000_0000)..][..512 * count]
      ensures reliable && 1 <= count <= 8 && 512 * (lba % 0x1_0000_0000_0000 + count) <= |disk| ==> data.Some?
      ensures issued == old(issued) || (1 <= count <= 8 && issued == old(issued) + [Command(lba, count, false)])
    {
      var slotAndBuffer := Works();
      if 512 * count == 0 || 512 * count > 4096 || !slotAndBuffer {
        return None;
      }
      issued := issued + [Command(lba, count, false)];
      var sent := lba % 0x1_0000_0000_0000;
      var completed := Works();
      if !completed || 512 * (sent + count) > |disk| {
        return None;
      }
      data := Some(disk[512 * sent..][..512 * count]);
    }

    /** Writes whole sectors. A command that fails may leave anything in the sectors it addressed,
        unless failures are clean. */
    method WriteSectors(lba: nat, count: nat, data: seq<Byte>) returns (ok: bool)
      requires |data| == 512 * count
      modifies this`disk, this`issued
      ensures |disk| == |old(disk)|
      ensures ok ==> 512 * (lba % 0x1_0000_0000_0000) + |data| <= |disk|
                     && disk == Splice(old(disk), 512 * (lba % 0x1_0000_0000_0000), data)
      ensures !ok && cleanFailure ==> disk == old(disk)
      ensures reliable && 1 <= count <= 8 && 512 * (lba % 0x1_0000_0000_0000 + count) <= |disk| ==> ok
      ensures !ok ==>
                forall a | 0 <= a < |disk| && !(0 <= a - 512 * (lba % 0x1_0000_0000_0000) < |data|) ::
                  disk[a] == old(disk)[a]
      ensures issued == old(issued) || (1 <= count <= 8 && issued == old(issued) + [Command(lba, count, true)])
    {
      ok := false;
      var slotAndBuffer := Works();
      if 512 * count == 0 || 512 * count > 4096 || !slotAndBuffer {
        return;
      }
      issued := issued + [Command(lba, count, true)];
      var sent := lba % 0x1_0000_0000_0000;
      if 512 * sent + |data| > |disk| {
        return;
      }
      ok := Works();
      if ok {
        disk := Splice(disk, 512 * sent, data);
      } else if !cleanFailure {
        var junk: seq<Byte> :| |junk| == |data|;
        disk := Splice(disk, 512 * sent, junk);
      }
    }

    method Seek(pos: SeekFrom) returns (r: Result<nat, BlockError>)
      requires Valid() && (pos.Start? ==> pos.position < 0x1_0000_0000_0000_0000)
      modifies this`cursor
      ensures Valid()
      ensures match pos
              case Start(p) => r == Ok(p)
              case End(_) => r == Err(UnsupportedOperation)
              case Current(o) =>
                r == if 0 <= old(cursor) + o < 0x1_0000_0000_0000_0000 then Ok(old(cursor) + o) else Err(SeekError)
      ensures cursor == if r.Ok? then r.value else old(cursor)
    {
      match pos {
        case Start(p) =>
          cursor := p;
        case End(_) =>
          return Err(UnsupportedOperation);
        case Current(o) =>
          if o < 0 {
            if cursor < -o {
              return Err(SeekError);
            }
            cursor := cursor - (-o);
          } else {
            if cursor + o >= 0x1_0000_0000_0000_0000 {
              return Err(SeekError);
            }
            cursor := cursor + o;
          }
      }
      r := Ok(cursor);
    }

    /** One pass of the read loop: a bounce buffer, the port, one command, the copy. */
    method ReadChunk(c: nat, n: nat) returns (r: Result<seq<Byte>, BlockError>)
      requires |disk| <= SPAN && 0 < n <= 4096 - c % 512
      modifies this`issued
      ensures r.Ok? ==> |r.value| == n && Holds(disk, c, r.value)
      ensures r.Err? ==> r.error in {ReadError, DeviceNotFound}
      ensures reliable && |disk| % 512 == 0 && At(c, 0) + n <= |disk| ==> r.Ok?
      ensures SmallSince(old(issued))
    {
      hide At, Holds;
      CommandRange(c, n);
      SectorsInRange(|disk|, c, n);
      var bounceBuffer := Works();
      if !bounceBuffer {
        return Err(ReadError);
      }
      var portFound := Works();
      if !portFound {
        return Err(DeviceNotFound);
      }
      var data := ReadSectors(c / 512, SectorsFor(c % 512 + n));
      if data.None? {
        return Err(ReadError);
      }
      var bytes := data.value[c % 512..c % 512 + n];
      assert bytes == disk[At(c, 0)..At(c, 0) + n];
      HoldsChunk(disk, c, n);
      var freed := Works();
      if !freed {
        return Err(ReadError);
      }
      r := Ok(bytes);
    }

    /** Fills `buf` from the cursor on, chunk by chunk through a bounce buffer. */
    method Read(buf: array<Byte>) returns (r: Result<nat, BlockError>)
      requires Valid() && cursor + buf.Length < 0x1_0000_0000_0000_0000
      modifies this`cursor, this`issued, buf
      ensures Valid() && SmallSince(old(issued))
      ensures r.Ok? ==> r.value == buf.Length && cursor == old(cursor) + buf.Length && Holds(disk, old(cursor), buf[..])
      ensures r.Err? ==> cursor == old(cursor) && r.error in {ReadError, DeviceNotFound}
      ensures reliable && old(cursor) + buf.Length <= |disk| ==> r.Ok?
    {
      hide At, Holds;
      var totalRead := 0;
      HoldsNothing(disk, cursor);
      assert buf[..0] == [];
      while totalRead < buf.Length
        invariant totalRead <= buf.Length && cursor == old(cursor) && SmallSince(old(issued))
        invariant Holds(disk, cursor, buf[..totalRead])
      {
        var c := cursor + totalRead;
        var chunkLen := ChunkLen(c, buf.Length - totalRead);
        if c < SPAN {
          AtSmall(c);
        }
        var result := ReadChunk(c, chunkLen);
        if result.Err? {
          return Err(result.error);
        }
        var chunk := result.value;
        HoldsJoin(disk, cursor, buf[..totalRead], chunk);
        ghost var front := buf[..totalRead];
        forall i | 0 <= i < chunkLen {
          buf[totalRead + i] := chunk[i];
        }
        assert buf[..totalRead + chunkLen] == front + chunk;
        totalRead := totalRead + chunkLen;
      }
      assert buf[..totalRead] == buf[..];
      cursor := cursor + totalRead;
      r := Ok(totalRead);
    }

    /** One pass of the write loop. The bounce buffer starts with any contents. */
    method WriteChunk(c: nat, bytes: seq<Byte>) returns (r: Option<BlockError>)
      requires |disk| <= SPAN && 0 < |bytes| <= 4096 - c % 512
      modifies this`disk, this`issued
      ensures |disk| == old(|disk|) && SmallSince(old(issued))
      ensures r.None? ==> disk == Written(old(disk), c, bytes)
      ensures r.Some? ==> r.value in {WriteError, DeviceNotFound}
      ensures r.Some? ==> disk == old(disk) || disk == Written(old(disk), c, bytes)
                          || (!cleanFailure && SameOutside(old(disk), disk, c, |bytes|))
      ensures reliable && |disk| % 512 == 0 && At(c, 0) + |bytes| <= |disk| ==> r.None?
    {
      hide At, Written, Splice;
      CommandRange(c, |bytes|);
      SectorsInRange(|disk|, c, |bytes|);
      var lba, offset, sectors := c / 512, c % 512, SectorsFor(c % 512 + |bytes|);
      var bounceBuffer := Works();
      if !bounceBuffer {
        return Some(WriteError);
      }
      var page: seq<Byte> := seq(512 * sectors, _ => 0);
      var ubuf: seq<Byte> :| |ubuf| == |page|;
      var portFound := Works();
      if !portFound {
        return Some(DeviceNotFound);
      }
      if offset != 0 || |bytes| != 512 * sectors {
        var data := ReadSectors(lba, sectors);
        if data.None? {
          return Some(WriteError);
        }
        ubuf := data.value;
      }
      ghost var before := ubuf;
      ubuf := Splice(ubuf, offset, bytes);
      var ok := WriteSectors(lba, sectors, ubuf);
      if !ok {
        return Some(WriteError);
      }
      ReadModifyWrite(old(disk), SentLba(c), offset, before, bytes);
      WrittenChunk(old(disk), c, bytes);
      var freed := Works();
      r := if freed then None else Some(WriteError);
    }

    /** Writes `buf` at the cursor, chunk by chunk. */
    method Write(buf: seq<Byte>) returns (r: Result<nat, BlockError>)
      requires Valid() && cursor + |buf| < 0x1_0000_0000_0000_0000 && |buf| <= SPAN
      modifies this`cursor, this`disk, this`issued
      ensures Valid() && SmallSince(old(issued)) && |disk| == old(|disk|)
      ensures r.Ok? ==>
                r.value == |buf| && cursor == old(cursor) + |buf| && disk == Written(old(disk), old(cursor), buf)
      ensures r.Err? ==> cursor == old(cursor) && r.error in {WriteError, DeviceNotFound}
      ensures r.Err? ==> WrittenInPart(old(disk), disk, cursor, buf, cleanFailure)
      ensures reliable && old(cursor) + |buf| <= |disk| ==> r.Ok?
    {
      hide Written, SameOutside, At, AtChunkEnd, Wrap, WrittenInPart, LeftAt;
      var totalWritten := 0;
      WrittenNothing(disk, cursor);
      ChunksStart(cursor, |buf|);
      assert buf[..0] == [];
      while totalWritten < |buf|
        invariant totalWritten <= |buf| && AtChunkEnd(cursor, |buf|, totalWritten)
        invariant Valid() && cursor == old(cursor) && SmallSince(old(issued)) && |disk| == old(|disk|)
        invariant disk == Written(old(disk), cursor, buf[..totalWritten])
      {
        var c := cursor + totalWritten;
        var chunkLen := ChunkLen(c, |buf| - totalWritten);
        ChunkEndsFollow(cursor, |buf|, totalWritten);
        var bytes := buf[totalWritten..totalWritten + chunkLen];
        WrittenJoin(old(disk), cursor, buf[..totalWritten], bytes);
        assert buf[..totalWritten] + bytes == buf[..totalWritten + chunkLen];
        if c < SPAN {
          AtSmall(c);
        }
        ghost var before := disk;
        var failed := WriteChunk(c, bytes);
        if failed.Some? {
          ChunkFailed(old(disk), before, disk, cursor, buf, cleanFailure, totalWritten, chunkLen);
          return Err(failed.value);
        }
        totalWritten := totalWritten + chunkLen;
      }
      assert buf[..totalWritten] == buf;
      cursor := cursor + totalWritten;
      r := Ok(totalWritten);
    }
  }
}
