/** cbuffer.c: a ring of bytes in a fixed buffer. */
module CBuffers {
  import opened Common

  /** The bytes held by a ring: count of them from rpos on, wrapping around at the end of the buffer. */
  function Ring(buff: seq<byte>, rpos: nat, count: nat): (r: seq<byte>)
    requires rpos < |buff| && count <= |buff|
    ensures |r| == count
  {
    if rpos + count <= |buff| then buff[rpos..rpos + count] else buff[rpos..] + buff[..rpos + count - |buff|]
  }

  /** Where the free part of a ring starts. */
  function WritePos(size: nat, rpos: nat, count: nat): (w: nat)
    requires rpos < size && count <= size
    ensures w < size
  {
    if rpos + count >= size then rpos + count - size else rpos + count
  }

  function Wrap(size: nat, pos: nat): nat { if pos >= size then pos - size else pos }

  /** Bytes stored into the free part extend what the ring holds. */
  lemma RingGrows(buff: seq<byte>, rpos: nat, count: nat, data: seq<byte>)
    requires rpos < |buff| && count + |data| <= |buff| && WritePos(|buff|, rpos, count) + |data| <= |buff|
    ensures Ring(Splice(buff, WritePos(|buff|, rpos, count), data), rpos, count + |data|) == Ring(buff, rpos, count) + data
  {
    var now := Splice(buff, WritePos(|buff|, rpos, count), data);
    RingIs(buff, rpos, count);
    RingIs(now, rpos, count + |data|);
    hide Ring;
    var held, grown := Ring(buff, rpos, count), Ring(now, rpos, count + |data|);
    forall i | 0 <= i < count + |data|
      ensures grown[i] == (held + data)[i]
    {
      assert grown[i] == now[Wrap(|buff|, rpos + i)];
    }
  }

  lemma RingIs(buff: seq<byte>, rpos: nat, count: nat)
    requires rpos < |buff| && count <= |buff|
    ensures forall i :: 0 <= i < count ==> Ring(buff, rpos, count)[i] == buff[Wrap(|buff|, rpos + i)]
  {}

  lemma SpliceSame(b: seq<byte>, at: nat, n: nat)
    requires at + n <= |b|
    ensures Splice(b, at, b[at..at + n]) == b
  {}

  /** A longer ring starts with what a shorter one holds. */
  lemma RingLonger(buff: seq<byte>, rpos: nat, count: nat, n: nat)
    requires rpos < |buff| && count + n <= |buff|
    ensures Ring(buff, rpos, count) <= Ring(buff, rpos, count + n)
  {
    var short, long := Ring(buff, rpos, count), Ring(buff, rpos, count + n);
    forall i | 0 <= i < count
      ensures short[i] == long[i] == buff[Wrap(|buff|, rpos + i)]
    {}
  }

  /** The first bytes that a ring holds are read from rpos on, and what remains is a ring again. */
  lemma RingShrinks(buff: seq<byte>, rpos: nat, count: nat, n: nat)
    requires rpos < |buff| && n <= count <= |buff| && rpos + n <= |buff|
    ensures Ring(buff, rpos, count) == buff[rpos..rpos + n] + Ring(buff, Wrap(|buff|, rpos + n), count - n)
  {
    RingIs(buff, rpos, count);
    RingIs(buff, Wrap(|buff|, rpos + n), count - n);
    hide Ring;
    var held, rest := Ring(buff, rpos, count), Ring(buff, Wrap(|buff|, rpos + n), count - n);
    forall i | 0 <= i < count
      ensures held[i] == (buff[rpos..rpos + n] + rest)[i]
    {
      if i >= n {
        assert rest[i - n] == buff[Wrap(|buff|, Wrap(|buff|, rpos + n) + (i - n))];
      }
    }
  }

  class CBuffer {
    const buff: array<byte>
    var rpos: nat
    var count: nat

    predicate Valid()
      reads this, buff
    {
      rpos < buff.Length && count <= buff.Length
    }

    ghost function Contents(): (r: seq<byte>)
      requires Valid()
      reads this, buff
      ensures |r| == count
    {
      Ring(buff[..], rpos, count)
    }

    constructor (size: nat)
      requires size > 0
      ensures Valid() && fresh(buff) && buff.Length == size && Contents() == []
    {
      buff := new byte[size];
      rpos, count := 0, 0;
    }

    /** cbuffer_reset, with the buffer it has. */
    method Reset()
      requires buff.Length > 0
      modifies this
      ensures Valid() && Contents() == []
    {
      rpos, count := 0, 0;
    }

    /** memcpy into the buffer. */
    method Store(at: nat, data: seq<byte>)
      requires at + |data| <= buff.Length
      modifies buff
      ensures buff[..] == Splice(old(buff[..]), at, data)
    {
      forall k | 0 <= k < |data| {
        buff[at + k] := data[k];
      }
    }

    /** One turn of the loop of cbuffer_write. */
    method WriteSome(from: seq<byte>) returns (avail: nat)
      requires Valid() && from != [] && count < buff.Length
      modifies this`count, buff
      ensures Valid() && 0 < avail <= |from| && count == old(count) + avail
      ensures Contents() == old(Contents()) + from[..avail]
    {
      avail := buff.Length - count;
      var wpos := rpos + count;
      if wpos >= buff.Length {
        wpos := wpos - buff.Length;
      }
      if wpos + avail > buff.Length {
        avail := buff.Length - wpos;
      }
      if avail > |from| {
        avail := |from|;
      }
      hide Ring;
      hide Splice;
      Append(wpos, from[..avail]);
    }

    /** Bytes stored at the end of the contents are added to them. */
    method Append(wpos: nat, data: seq<byte>)
      requires Valid() && wpos == WritePos(buff.Length, rpos, count)
      requires wpos + |data| <= buff.Length && count + |data| <= buff.Length
      modifies this`count, buff
      ensures Valid() && count == old(count) + |data| && Contents() == old(Contents()) + data
    {
      RingGrows(buff[..], rpos, count, data);
      hide Ring;
      hide Splice;
      Store(wpos, data);
      count := count + |data|;
    }

    /** cbuffer_write: as much of the data as there is room for is added at the end. */
    method Write(from: seq<byte>) returns (written: nat)
      requires Valid()
      modifies this`count, buff
      ensures Valid() && written == (if |from| <= buff.Length - old(count) then |from| else buff.Length - old(count))
      ensures Contents() == old(Contents()) + from[..written]
    {
      hide Ring;
      hide Contents;
      written := 0;
      ghost var was := Contents();
      assert was + from[..0] == was;
      while written < |from|
        invariant Valid() && written <= |from| && count == old(count) + written
        invariant Contents() == was + from[..written]
      {
        if count == buff.Length {
          break;
        }
        var avail := WriteSome(from[written..]);
        assert was + from[..written] + from[written..][..avail] == was + from[..written + avail];
        written := written + avail;
      }
    }

    /** One turn of the loop of cbuffer_read. */
    method ReadSome(len: nat) returns (to: seq<byte>)
      requires Valid() && len > 0 && count > 0
      modifies this
      ensures Valid() && 0 < |to| <= len && count == old(count) - |to| && to + Contents() == old(Contents())
    {
      var avail := count;
      if rpos + avail > buff.Length {
        avail := buff.Length - rpos;
      }
      if avail > len {
        avail := len;
      }
      RingShrinks(buff[..], rpos, count, avail);
      hide Ring;
      to := buff[rpos..rpos + avail];
      count := count - avail;
      rpos := rpos + avail;
      if rpos >= buff.Length {
        rpos := rpos - buff.Length;
      }
    }

    /** cbuffer_read: the first bytes are taken out, at most len of them. */
    method Read(len: nat) returns (to: seq<byte>)
      requires Valid()
      modifies this
      ensures Valid() && |to| == (if len <= old(count) then len else old(count))
      ensures to + Contents() == old(Contents())
    {
      hide Ring;
      hide Contents;
      to := [];
      ghost var was := Contents();
      assert [] + was == was;
      while |to| < len
        invariant Valid() && |to| <= len && to + Contents() == was && count == old(count) - |to|
        decreases len - |to|
      {
        if count == 0 {
          break;
        }
        var part := ReadSome(len - |to|);
        assert to + (part + Contents()) == to + part + Contents();
        to := to + part;
      }
    }

    /** How many bytes lie next to each other from rpos on. */
    function Part(): nat
      requires Valid()
      reads this, buff
    {
      if count <= buff.Length - rpos then count else buff.Length - rpos
    }

    /** cbuffer_read_peek: the bytes that lie next to each other from rpos on. */
    method ReadPeek() returns (base: seq<byte>)
      requires Valid()
      ensures base <= Contents() && (count > 0 ==> base != [])
      ensures rpos + |base| <= buff.Length && base == buff[rpos..rpos + |base|]
      ensures |base| == Part()
    {
      var avail := count;
      if rpos + avail > buff.Length {
        avail := buff.Length - rpos;
      }
      base := buff[rpos..rpos + avail];
    }

    /** cbuffer_read_step, for no more than was peeked at. */
    method ReadStep(len: nat)
      requires Valid() && rpos + len <= buff.Length
      modifies this
      ensures Valid() && Contents() == old(Contents())[if len <= old(count) then len else old(count)..]
    {
      var n := len;
      if n > count {
        n := count;
      }
      RingShrinks(buff[..], rpos, count, n);
      hide Ring;
      rpos := rpos + n;
      if rpos >= buff.Length {
        rpos := rpos - buff.Length;
      }
      count := count - n;
    }

    /** cbuffer_write_peek: where bytes may be stored, and how many next to each other. */
    method WritePeek() returns (wpos: nat, avail: nat)
      requires Valid()
      ensures wpos == WritePos(buff.Length, rpos, count) && wpos + avail <= buff.Length && count + avail <= buff.Length
      ensures count < buff.Length ==> avail > 0
      ensures count + avail == buff.Length || wpos + avail == buff.Length
    {
      wpos := rpos + count;
      avail := buff.Length - count;
      if wpos >= buff.Length {
        wpos := wpos - buff.Length;
      }
      if wpos + avail > buff.Length {
        avail := buff.Length - wpos;
      }
    }

    /** cbuffer_write_step: what has been stored at wpos becomes part of the contents, behind what was
        there, as long as there is room. */
    method WriteStep(len: nat)
      requires Valid()
      modifies this`count
      ensures Valid() && old(Contents()) <= Contents()
      ensures |Contents()| == if old(count) + len <= buff.Length then old(count) + len else buff.Length
      ensures var wpos := WritePos(buff.Length, rpos, old(count));
        count == old(count) + len && wpos + len <= buff.Length ==> Contents() == old(Contents()) + buff[wpos..wpos + len]
    {
      hide Ring;
      ghost var was, wpos := count, WritePos(buff.Length, rpos, count);
      count := count + len;
      if count > buff.Length {
        count := buff.Length;
      }
      RingLonger(buff[..], rpos, was, count - was);
      if count == was + len && wpos + len <= buff.Length {
        RingGrows(buff[..], rpos, was, buff[wpos..wpos + len]);
        SpliceSame(buff[..], wpos, len);
      }
    }

    /** Peeking, storing and stepping is writing without a copy: the stored bytes are added. */
    method WriteInPlace(data: seq<byte>) returns (written: nat)
      requires Valid()
      modifies this`count, buff
      ensures Valid() && written <= |data| && Contents() == old(Contents()) + data[..written]
      ensures written == 0 ==> data == [] || old(count) == buff.Length
    {
      var wpos, avail := WritePeek();
      written := if avail < |data| then avail else |data|;
      RingGrows(buff[..], rpos, count, data[..written]);
      Store(wpos, data[..written]);
      WriteStep(written);
    }
  }
}
