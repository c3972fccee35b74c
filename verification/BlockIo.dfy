/** Byte-granular I/O over sector-granular drivers: bdrv_read, bdrv_write, bdrv_pread and
    bdrv_pwrite of block.c, on a device that does not grow. */
module BlockIo {
  import opened Common
  import opened Errno

  const SECTOR_SIZE: nat := 512

  /** n rounded up to whole sectors. */
  function SectorEnd(n: int): (r: int)
    ensures r % SECTOR_SIZE == 0 && n <= r < n + SECTOR_SIZE
  {
    (n + 511) / 512 * 512
  }

  /** t is s after a write of x at position i that may have stopped anywhere: every byte in its
      range is the old or the new one, and every other byte is the old one. */
  ghost predicate Torn(s: seq<byte>, t: seq<byte>, i: nat, x: seq<byte>)
    requires i + |x| <= |s|
  {
    && |t| == |s|
    && forall k :: 0 <= k < |s| ==> t[k] == s[k] || (i <= k < i + |x| && t[k] == x[k - i])
  }

  /** A BlockDriverState with a driver that may fail at any time unless it is reliable. */
  class Device {
    var data: seq<byte>
    const present: bool
    const readOnly: bool
    const reliable: bool

    /** bdrv_getlength of a device that does not grow: its length is a number of sectors. */
    predicate Valid()
      reads this
    {
      |data| % SECTOR_SIZE == 0
    }

    constructor (data: seq<byte>, present: bool, readOnly: bool, reliable: bool)
      requires |data| % SECTOR_SIZE == 0
      ensures Valid()
      ensures this.data == data && this.present == present && this.readOnly == readOnly && this.reliable == reliable
    {
      this.data, this.present, this.readOnly, this.reliable := data, present, readOnly, reliable;
    }

    /** bdrv_check_byte_request, on an inserted medium. */
    predicate InRange(offset: int, size: int)
      reads this
    {
      0 <= offset <= |data| && size <= |data| - offset
    }

    /** The driver's read function: all the sectors or an error. */
    method DriverRead(offset: nat, size: nat) returns (ret: int, buf: seq<byte>)
      requires offset + size <= |data|
      ensures ret == 0 || (ret < 0 && !reliable)
      ensures ret == 0 ==> buf == data[offset..offset + size]
    {
      ret, buf := 0, data[offset..offset + size];
      if !reliable {
        ret :| ret <= 0;
      }
    }

    /** The driver's write function: all the sectors, or an error after some of the bytes. */
    method DriverWrite(offset: nat, buf: seq<byte>) returns (ret: int)
      requires offset + |buf| <= |data|
      modifies this`data
      ensures ret == 0 || (ret < 0 && !reliable)
      ensures ret == 0 ==> data == Splice(old(data), offset, buf)
      ensures Torn(old(data), data, offset, buf)
    {
      ret := 0;
      if !reliable {
        ret :| ret <= 0;
      }
      if ret < 0 {
        for k := 0 to |buf|
          invariant Torn(old(data), data, offset, buf)
        {
          if * {
            data := data[offset + k := buf[k]];
          }
        }
      } else {
        data := Splice(data, offset, buf);
      }
    }

    /** bdrv_read. */
    method Read(sector: int, n: nat) returns (ret: int, buf: seq<byte>)
      ensures ret <= 0 && (ret == 0 ==> present && InRange(sector * SECTOR_SIZE, n * SECTOR_SIZE))
      ensures ret == 0 ==> buf == data[sector * SECTOR_SIZE..(sector + n) * SECTOR_SIZE]
      ensures reliable && present && InRange(sector * SECTOR_SIZE, n * SECTOR_SIZE) ==> ret == 0
      ensures !present ==> ret == -ENOMEDIUM
      ensures present && !InRange(sector * SECTOR_SIZE, n * SECTOR_SIZE) ==> ret == -EIO
    {
      buf := [];
      if !present {
        return -ENOMEDIUM, [];
      }
      if !InRange(sector * SECTOR_SIZE, n * SECTOR_SIZE) {
        return -EIO, [];
      }
      ret, buf := DriverRead(sector * SECTOR_SIZE, n * SECTOR_SIZE);
    }

    /** bdrv_write, without the dirty bitmap and the high-water mark. */
    method Write(sector: int, buf: seq<byte>, n: nat) returns (ret: int)
      requires |buf| == n * SECTOR_SIZE
      modifies this`data
      ensures ret <= 0 && (ret == 0 ==> present && !readOnly && old(InRange(sector * SECTOR_SIZE, |buf|)))
      ensures ret == 0 ==> data == Splice(old(data), sector * SECTOR_SIZE, buf)
      ensures if old(InRange(sector * SECTOR_SIZE, |buf|)) then Torn(old(data), data, sector * SECTOR_SIZE, buf)
              else data == old(data)
      ensures reliable && present && !readOnly && old(InRange(sector * SECTOR_SIZE, |buf|)) ==> ret == 0
      ensures !present ==> ret == -ENOMEDIUM && data == old(data)
      ensures present && readOnly ==> ret == -EACCES && data == old(data)
      ensures present && !readOnly && !old(InRange(sector * SECTOR_SIZE, |buf|)) ==> ret == -EIO && data == old(data)
    {
      if !present {
        return -ENOMEDIUM;
      }
      if readOnly {
        return -EACCES;
      }
      if !InRange(sector * SECTOR_SIZE, n * SECTOR_SIZE) {
        return -EIO;
      }
      ret := DriverWrite(sector * SECTOR_SIZE, buf);
    }

    /** Whether the sectors that a byte request touches all lie on the device. */
    predicate Reachable(offset: int, count: int)
      reads this
    {
      count <= 0 || (present && 0 <= offset && SectorEnd(offset + count) <= |data|)
    }

    /** Reads n sectors and copies len of their bytes, after skipping some, behind the first
        `done` bytes of a request. */
    method ReadInto(sector: int, n: nat, skip: nat, len: nat, buf: array<byte>, done: nat, ghost offset: int,
                    ghost was: seq<byte>)
      returns (ret: int)
      requires skip + len <= n * SECTOR_SIZE && done + len <= buf.Length && 0 < len
      requires sector * SECTOR_SIZE + skip == offset + done && Fetched(data, offset, was, buf[..], done)
      modifies buf
      ensures ret <= 0
      ensures ret == 0 ==> present && InRange(sector * SECTOR_SIZE, n * SECTOR_SIZE) && Fetched(data, offset, was, buf[..], done + len)
      ensures reliable && present && InRange(sector * SECTOR_SIZE, n * SECTOR_SIZE) ==> ret == 0
    {
      ghost var before := buf[..];
      var tmp: seq<byte>;
      ret, tmp := Read(sector, n);
      if ret == 0 {
        assert tmp[skip..skip + len] == data[offset + done..offset + done + len];
        CopyIn(buf, done, tmp[skip..skip + len]);
        FetchedMore(data, offset, was, before, buf[..], done, len);
      }
    }

    /** bdrv_pread: exactly the bytes asked for, or an error. With a reliable driver it succeeds
        exactly when the bytes are in range on an inserted medium. */
    method Pread(offset: int, buf: array<byte>, count1: int) returns (ret: int)
      requires Valid() && count1 <= buf.Length
      modifies buf
      ensures ret == count1 || ret < 0
      ensures ret == count1 > 0 ==> present && InRange(offset, count1)
      ensures ret == count1 > 0 ==> Fetched(data, offset, old(buf[..]), buf[..], count1)
      ensures count1 <= 0 ==> ret == count1 && buf[..] == old(buf[..])
      ensures reliable && count1 > 0 ==> (ret == count1 <==> present && InRange(offset, count1))
    {
      hide Fetched;
      hide SectorEnd;
      if count1 > 0 {
        InRangeIsReachable(|data|, offset, count1);
      }
      ghost var was := buf[..];
      var count, done: nat := count1, 0;
      Alignment(offset);
      var len := (SECTOR_SIZE - offset) % SECTOR_SIZE;
      if len > count {
        len := count;
      }
      var sector := offset / SECTOR_SIZE;
      FetchedNone(data, offset, was);
      if len > 0 {
        ret := ReadInto(sector, 1, offset % SECTOR_SIZE, len, buf, 0, offset, was);
        HeadSector(offset, len);
        SectorEndGrows(offset + len, offset + count1);
        if ret < 0 {
          return;
        }
        count, done := count - len, len;
        if count == 0 {
          return count1;
        }
        sector := sector + 1;
      }
      if count <= 0 {
        return count1;
      }
      ret := PreadAligned(sector, count, buf, done, offset, was);
      ret := if ret < 0 then ret else count1;
    }

    /** The rest of bdrv_pread, from a sector boundary on: whole sectors in place, then the data
        from the last sector. */
    method PreadAligned(sector1: int, count1: nat, buf: array<byte>, done1: nat, ghost offset: int,
                        ghost was: seq<byte>) returns (ret: int)
      requires 0 < count1 && done1 + count1 <= buf.Length && sector1 * SECTOR_SIZE == offset + done1
      requires Fetched(data, offset, was, buf[..], done1)
      modifies buf
      ensures ret <= 0
      ensures ret == 0 ==> Reachable(sector1 * SECTOR_SIZE, count1) && Fetched(data, offset, was, buf[..], done1 + count1)
      ensures reliable && Reachable(sector1 * SECTOR_SIZE, count1) ==> ret == 0
    {
      hide Fetched;
      hide SectorEnd;
      ret := 0;
      var sector, count, done := sector1, count1, done1;
      var n := count / SECTOR_SIZE;
      if n > 0 {
        ret := ReadInto(sector, n, 0, n * SECTOR_SIZE, buf, done, offset, was);
        WholeSectors(sector + n);
        SectorEndGrows((sector + n) * SECTOR_SIZE, sector * SECTOR_SIZE + count);
        if ret < 0 {
          return;
        }
        sector, count, done := sector + n, count - n * SECTOR_SIZE, done + n * SECTOR_SIZE;
      }
      if count > 0 {
        ret := ReadInto(sector, 1, 0, count, buf, done, offset, was);
        TailSector(sector, count);
      }
    }

    /** Reads a sector, puts x into it and writes it back. */
    method PatchSector(sector: int, skip: nat, x: seq<byte>) returns (ret: int)
      requires skip + |x| <= SECTOR_SIZE
      modifies this`data
      ensures ret <= 0 && (ret == 0 ==> present && !readOnly && old(InRange(sector * SECTOR_SIZE, SECTOR_SIZE)))
      ensures ret == 0 ==> data == Splice(old(data), sector * SECTOR_SIZE + skip, x)
      ensures if old(InRange(sector * SECTOR_SIZE, SECTOR_SIZE)) then Torn(old(data), data, sector * SECTOR_SIZE + skip, x)
              else data == old(data)
      ensures reliable && present && !readOnly && old(InRange(sector * SECTOR_SIZE, SECTOR_SIZE)) ==> ret == 0
    {
      var tmp: seq<byte>;
      ret, tmp := Read(sector, 1);
      if ret < 0 {
        return;
      }
      ret := Write(sector, Splice(tmp, skip, x), 1);
    }

    /** Writes len bytes of a request, behind the first `done`: n whole sectors, or part of one
        sector that is read, patched and written back. */
    method WriteFrom(sector: int, n: nat, skip: nat, x: seq<byte>, done: nat, len: nat, ghost offset: int,
                     ghost was: seq<byte>)
      returns (ret: int)
      requires 0 < len && done + len <= |x| && sector * SECTOR_SIZE + skip == offset + done
      requires if n * SECTOR_SIZE == len then skip == 0 else n == 1 && skip + len <= SECTOR_SIZE
      requires Written(was, data, offset, x, done)
      modifies this`data
      ensures ret <= 0
      ensures ret == 0 ==>
        present && !readOnly && old(InRange(sector * SECTOR_SIZE, n * SECTOR_SIZE)) && Written(was, data, offset, x, done + len)
      ensures ret < 0 ==> Spilled(was, data, offset, x)
      ensures reliable && present && !readOnly && old(InRange(sector * SECTOR_SIZE, n * SECTOR_SIZE)) ==> ret == 0
      ensures |data| == |old(data)|
    {
      hide Written;
      hide Spilled;
      hide Torn;
      hide Splice;
      ghost var before := data;
      var part := x[done..done + len];
      WrittenLength(was, data, offset, x, done);
      if n * SECTOR_SIZE == len {
        ret := Write(sector, part, n);
      } else {
        ret := PatchSector(sector, skip, part);
      }
      WrittenMore(was, before, data, offset, x, done, len, ret == 0);
    }

    /** bdrv_pwrite: on success exactly the bytes of the request change, to those of the buffer; on
        an error some of them may have. With a reliable driver it succeeds exactly when the bytes
        are in range on an inserted medium that can be written. */
    method Pwrite(offset: int, buf: array<byte>, count1: int) returns (ret: int)
      requires Valid() && count1 <= buf.Length
      modifies this`data
      ensures Valid()
      ensures ret == count1 || ret < 0
      ensures count1 <= 0 ==> ret == count1 && data == old(data)
      ensures ret == count1 > 0 ==> present && !readOnly && old(InRange(offset, count1))
      ensures ret == count1 > 0 ==> data == Splice(old(data), offset, buf[..count1])
      ensures ret < 0 && count1 > 0 ==> Spilled(old(data), data, offset, buf[..count1])
      ensures reliable && count1 > 0 ==> (ret == count1 <==> present && !readOnly && old(InRange(offset, count1)))
    {
      hide SectorEnd;
      hide Spilled;
      hide Written;
      if count1 <= 0 {
        return count1;
      }
      InRangeIsReachable(|data|, offset, count1);
      ghost var was := data;
      var x := buf[..count1];
      var count, done: nat := count1, 0;
      Alignment(offset);
      var len := (SECTOR_SIZE - offset) % SECTOR_SIZE;
      if len > count {
        len := count;
      }
      var sector := offset / SECTOR_SIZE;
      WrittenNone(data, offset, x);
      if len > 0 {
        ret := WriteFrom(sector, 1, offset % SECTOR_SIZE, x, 0, len, offset, was);
        HeadSector(offset, len);
        SectorEndGrows(offset + len, offset + count1);
        if ret < 0 {
          SpilledLength(was, data, offset, x);
          return;
        }
        count, done := count - len, len;
        if count == 0 {
          WrittenAll(was, data, offset, x);
          return count1;
        }
        sector := sector + 1;
      }
      ret := PwriteAligned(sector, x, done, offset, was);
      if ret == 0 {
        WrittenAll(was, data, offset, x);
        ret := count1;
      } else {
        SpilledLength(was, data, offset, x);
      }
    }

    /** The rest of bdrv_pwrite, from a sector boundary on. */
    method PwriteAligned(sector1: int, x: seq<byte>, done1: nat, ghost offset: int, ghost was: seq<byte>)
      returns (ret: int)
      requires done1 < |x| && sector1 * SECTOR_SIZE == offset + done1 && Written(was, data, offset, x, done1)
      modifies this`data
      ensures ret <= 0
      ensures ret == 0 ==> !readOnly && old(Reachable(offset + done1, |x| - done1)) && Written(was, data, offset, x, |x|)
      ensures ret < 0 ==> Spilled(was, data, offset, x)
      ensures reliable && !readOnly && old(Reachable(offset + done1, |x| - done1)) ==> ret == 0
    {
      hide SectorEnd;
      hide Spilled;
      hide Written;
      ret := 0;
      var sector, count, done := sector1, |x| - done1, done1;
      var n := count / SECTOR_SIZE;
      if n > 0 {
        ret := WriteFrom(sector, n, 0, x, done, n * SECTOR_SIZE, offset, was);
        WholeSectors(sector + n);
        SectorEndGrows((sector + n) * SECTOR_SIZE, sector * SECTOR_SIZE + count);
        if ret < 0 {
          return;
        }
        sector, count, done := sector + n, count - n * SECTOR_SIZE, done + n * SECTOR_SIZE;
      }
      if count > 0 {
        ret := WriteFrom(sector, 1, 0, x, done, count, offset, was);
        TailSector(sector, count);
      }
    }

    /** A write followed by a read of the same range returns what was written, whatever the
        driver does in between short of reporting an error. */
    method WriteThenRead(offset: int, buf: array<byte>, count: nat, back: array<byte>) returns (ok: bool)
      requires Valid() && count <= buf.Length && count <= back.Length && buf != back
      modifies this`data, back
      ensures ok ==> back[..count] == buf[..count]
      ensures reliable && present && !readOnly && old(InRange(offset, count)) ==> ok
    {
      var w := Pwrite(offset, buf, count);
      if w < 0 {
        return false;
      }
      var r := Pread(offset, back, count);
      ok := r == count;
      if ok && count > 0 {
        assert data[offset..offset + count] == buf[..count];
        assert back[..count] == data[offset..offset + count];
      }
    }
  }

  /** Every byte outside the request at offset is as it was; inside, it is as it was or new. */
  ghost predicate Spilled(was: seq<byte>, data: seq<byte>, offset: int, x: seq<byte>) {
    && |data| == |was|
    && forall k :: 0 <= k < |was| ==> data[k] == was[k] || (offset <= k < offset + |x| && data[k] == x[k - offset])
  }

  lemma SpilledLength(was: seq<byte>, data: seq<byte>, offset: int, x: seq<byte>)
    requires Spilled(was, data, offset, x)
    ensures |data| == |was|
  {}

  /** The device after the first n bytes of a request have been written. */
  ghost predicate Written(was: seq<byte>, data: seq<byte>, offset: int, x: seq<byte>, n: nat) {
    && n <= |x| && (n > 0 ==> 0 <= offset && offset + n <= |was|)
    && data == if n == 0 then was else Splice(was, offset, x[..n])
  }

  lemma WrittenNone(was: seq<byte>, offset: int, x: seq<byte>)
    ensures Written(was, was, offset, x, 0)
  {}

  lemma WrittenLength(was: seq<byte>, data: seq<byte>, offset: int, x: seq<byte>, n: nat)
    requires Written(was, data, offset, x, n)
    ensures |data| == |was| && (n > 0 ==> 0 <= offset)
  {}

  lemma WrittenAll(was: seq<byte>, data: seq<byte>, offset: int, x: seq<byte>)
    requires Written(was, data, offset, x, |x|) && x != []
    ensures 0 <= offset && offset + |x| <= |was| && data == Splice(was, offset, x)
  {
    assert x[..|x|] == x;
  }

  lemma WrittenMore(was: seq<byte>, before: seq<byte>, data: seq<byte>, offset: int, x: seq<byte>, n: nat,
                    len: nat, complete: bool)
    requires Written(was, before, offset, x, n) && 0 < len && n + len <= |x|
    requires data == before || (0 <= offset + n && offset + n + len <= |before| && Torn(before, data, offset + n, x[n..n + len]))
    requires complete ==> 0 <= offset && offset + n + len <= |before| && data == Splice(before, offset + n, x[n..n + len])
    ensures |data| == |was| && Spilled(was, data, offset, x)
    ensures complete ==> Written(was, data, offset, x, n + len)
  {}

  /** The buffer after the first n bytes of a request at offset have been read into it. */
  ghost predicate Fetched(data: seq<byte>, offset: int, was: seq<byte>, buf: seq<byte>, n: int) {
    && 0 <= n <= |was| && (n > 0 ==> 0 <= offset && offset + n <= |data|)
    && buf == if n == 0 then was else Splice(was, 0, data[offset..offset + n])
  }

  lemma FetchedNone(data: seq<byte>, offset: int, was: seq<byte>)
    ensures Fetched(data, offset, was, was, 0)
  {}

  lemma FetchedMore(data: seq<byte>, offset: int, was: seq<byte>, before: seq<byte>, after: seq<byte>, n: int, len: int)
    requires Fetched(data, offset, was, before, n) && 0 < len && n + len <= |was|
    requires 0 <= offset + n && offset + n + len <= |data| && |before| == |was|
    requires n == 0 ==> 0 <= offset
    requires after == Splice(before, n, data[offset + n..offset + n + len])
    ensures Fetched(data, offset, was, after, n + len)
  {}

  lemma SectorEndGrows(x: int, y: int)
    requires x <= y
    ensures SectorEnd(x) <= SectorEnd(y)
  {}

  lemma WholeSectors(n: int)
    ensures SectorEnd(n * SECTOR_SIZE) == n * SECTOR_SIZE
  {}

  lemma TailSector(sector: int, count: int)
    requires 0 < count <= SECTOR_SIZE
    ensures SectorEnd(sector * SECTOR_SIZE + count) == (sector + 1) * SECTOR_SIZE
  {}

  /** On a device of whole sectors, the sectors that a request touches lie on it exactly if the bytes do. */
  lemma InRangeIsReachable(length: nat, offset: int, count: int)
    requires 0 < count && length % SECTOR_SIZE == 0
    ensures 0 <= offset && SectorEnd(offset + count) <= length <==> 0 <= offset <= length && count <= length - offset
  {}

  lemma Alignment(offset: int)
    ensures offset == offset / SECTOR_SIZE * SECTOR_SIZE + offset % SECTOR_SIZE
    ensures (SECTOR_SIZE - offset) % SECTOR_SIZE == if offset % SECTOR_SIZE == 0 then 0 else SECTOR_SIZE - offset % SECTOR_SIZE
  {}

  /** A request of len bytes inside one sector, not starting at its beginning. */
  lemma HeadSector(offset: int, len: int)
    requires 0 < len && offset % SECTOR_SIZE + len <= SECTOR_SIZE
    ensures SectorEnd(offset + len) == offset / SECTOR_SIZE * SECTOR_SIZE + SECTOR_SIZE
  {
    Alignment(offset);
  }

  /** memcpy into a buffer. */
  method CopyIn(buf: array<byte>, p: nat, x: seq<byte>)
    requires p + |x| <= buf.Length
    modifies buf
    ensures buf[..] == Splice(old(buf[..]), p, x)
  {
    for n := 0 to |x|
      invariant forall k :: 0 <= k < buf.Length ==> buf[k] == if p <= k < p + n then x[k - p] else old(buf[k])
    {
      buf[p + n] := x[n];
    }
  }
}
