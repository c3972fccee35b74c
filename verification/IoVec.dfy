/** QEMUIOVector (cutils.c): a list of buffers that chunks are appended to. */
module IoVec {
  import opened Common

  /** The bytes that a vector gathers. */
  function Flatten(iov: seq<seq<byte>>): seq<byte> {
    if iov == [] then [] else Flatten(iov[..|iov| - 1]) + iov[|iov| - 1]
  }

  lemma {:induction false} FlattenAppend(a: seq<seq<byte>>, b: seq<seq<byte>>)
    ensures Flatten(a + b) == Flatten(a) + Flatten(b)
  {
    if b == [] {
      assert a + b == a;
    } else {
      FlattenAppend(a, b[..|b| - 1]);
      assert (a + b)[..|a + b| - 1] == a + b[..|b| - 1];
    }
  }

  lemma FlattenTake(iov: seq<seq<byte>>, i: nat)
    requires i < |iov|
    ensures Flatten(iov[..i + 1]) == Flatten(iov[..i]) + iov[i]
  {
    assert iov[..i + 1][..i] == iov[..i];
  }

  lemma {:induction false} FlattenPrefix(iov: seq<seq<byte>>, i: nat)
    requires i <= |iov|
    ensures |Flatten(iov[..i])| <= |Flatten(iov)| && Flatten(iov[..i]) == Flatten(iov)[..|Flatten(iov[..i])|]
  {
    FlattenAppend(iov[..i], iov[i..]);
    assert iov == iov[..i] + iov[i..];
  }

  /** The bytes of s from skip on, at most size of them. */
  function Window(s: seq<byte>, skip: nat, size: nat): seq<byte> {
    if skip >= |s| then [] else s[skip..Min(skip + size, |s|)]
  }

  /** A copy in progress: `out` has been appended after going over `seen`, and `left` bytes are
      still to be skipped. */
  ghost predicate Copying(seen: seq<byte>, skip: nat, left: nat, out: seq<byte>) {
    if |seen| <= skip then left == skip - |seen| && out == [] else left == 0 && out == seen[skip..]
  }

  lemma CopyStep(seen: seq<byte>, skip: nat, left: nat, out: seq<byte>, chunk: seq<byte>)
    requires Copying(seen, skip, left, out)
    ensures left >= |chunk| ==> Copying(seen + chunk, skip, left - |chunk|, out)
    ensures left < |chunk| ==> Copying(seen + chunk, skip, 0, out + chunk[left..])
  {}

  lemma CopyEnds(all: seq<byte>, seen: seq<byte>, skip: nat, left: nat, out: seq<byte>, size: nat)
    requires Copying(seen, skip, left, out) && seen <= all && |out| <= size
    requires |out| == size || seen == all
    ensures out == Window(all, skip, size)
  {}

  lemma CopyCut(all: seq<byte>, seen: seq<byte>, skip: nat, out: seq<byte>, part: seq<byte>, size: nat)
    requires Copying(seen, skip, 0, out + part) && seen <= all && |out| <= size < |out| + |part|
    ensures out + part[..size - |out|] == Window(all, skip, size)
  {}

  lemma Begins(src: seq<seq<byte>>, skip: nat)
    ensures Flatten(src[..0]) == [] && Copying([], skip, skip, [])
  {}

  lemma FlattenSnoc(iov: seq<seq<byte>>, chunk: seq<byte>)
    ensures Flatten(iov + [chunk]) == Flatten(iov) + chunk
  {
    assert (iov + [chunk])[..|iov|] == iov;
  }

  class IoVector {
    var iov: seq<seq<byte>>
    var size: nat

    ghost predicate Valid()
      reads this
    {
      size == |Flatten(iov)|
    }

    constructor ()
      ensures Valid() && iov == []
    {
      iov, size := [], 0;
    }

    /** qemu_iovec_add. */
    method Add(chunk: seq<byte>)
      requires Valid()
      modifies this
      ensures Valid() && iov == old(iov) + [chunk] && Flatten(iov) == old(Flatten(iov)) + chunk
    {
      FlattenSnoc(iov, chunk);
      iov := iov + [chunk];
      size := size + |chunk|;
    }

    /** qemu_iovec_copy: appends the window of src, chunk by chunk, cutting the first and the last. */
    method Copy(src: IoVector, skip: nat, limit: nat)
      requires Valid() && src != this
      modifies this
      ensures Valid() && Flatten(iov) == old(Flatten(iov)) + Window(Flatten(src.iov), skip, limit)
      ensures |iov| <= |old(iov)| + |src.iov|
    {
      hide Flatten;
      hide Copying;
      hide Window;
      var left, done := skip, 0;
      ghost var base, all, seen, out := Flatten(iov), Flatten(src.iov), [], [];
      Begins(src.iov, skip);
      var i := 0;
      while i < |src.iov| && done != limit
        invariant Valid() && src.iov == old(src.iov)
        invariant 0 <= i <= |src.iov| && 0 <= left && done == |out| <= limit && |iov| <= |old(iov)| + i
        invariant seen == Flatten(src.iov[..i]) && seen <= all
        invariant Copying(seen, skip, left, out) && Flatten(iov) == base + out
      {
        var chunk := src.iov[i];
        FlattenTake(src.iov, i);
        FlattenPrefix(src.iov, i + 1);
        CopyStep(seen, skip, left, out, chunk);
        seen := seen + chunk;
        i := i + 1;
        if left >= |chunk| {
          left := left - |chunk|;
          continue;
        }
        var part := chunk[left..];
        left := 0;
        if done + |part| > limit {
          CopyCut(all, seen, skip, out, part, limit);
          Add(part[..limit - done]);
          assert base + (out + part[..limit - done]) == base + out + part[..limit - done];
          return;
        }
        Add(part);
        assert base + (out + part) == base + out + part;
        out := out + part;
        done := done + |part|;
      }
      assert i == |src.iov| ==> src.iov[..i] == src.iov;
      CopyEnds(all, seen, skip, left, out, limit);
    }

    /** qemu_iovec_concat: appends the first bytes of src. */
    method Concat(src: IoVector, limit: nat)
      requires Valid() && src != this
      modifies this
      ensures Valid() && Flatten(iov) == old(Flatten(iov)) + Flatten(src.iov)[..Min(limit, |Flatten(src.iov)|)]
      ensures |iov| <= |old(iov)| + |src.iov|
    {
      Copy(src, 0, limit);
    }

    /** qemu_iovec_to_buffer: the bytes are gathered at the front of the buffer. */
    method ToBuffer(buf: array<byte>)
      requires Valid() && size <= buf.Length
      modifies buf
      ensures buf[..] == Flatten(iov) + old(buf[..])[size..]
    {
      hide Flatten;
      ghost var was, all := buf[..], Flatten(iov);
      FlattenNone(iov);
      assert [] + was == was;
      var p := 0;
      for i := 0 to |iov|
        invariant p == |Flatten(iov[..i])| <= |all| && buf[..] == Flatten(iov[..i]) + was[p..]
      {
        FlattenTake(iov, i);
        FlattenPrefix(iov, i + 1);
        ghost var done := Flatten(iov[..i]);
        PutAfter(buf, done, was[p..], p, iov[i]);
        assert was[p..][|iov[i]|..] == was[p + |iov[i]|..];
        p := p + |iov[i]|;
      }
      assert iov[..|iov|] == iov;
    }

    /** qemu_iovec_from_buffer: the first bytes of the vector are replaced, chunk by chunk, and its
        shape stays. */
    method FromBuffer(buf: seq<byte>)
      requires Valid()
      modifies this`iov
      ensures Valid() && Flatten(iov) == Overlay(old(Flatten(iov)), buf)
      ensures |iov| == |old(iov)| && forall k :: 0 <= k < |iov| ==> |iov[k]| == |old(iov)[k]|
    {
      hide Flatten;
      hide Overlay;
      ghost var was := iov;
      FlattenNone(iov);
      OverlayNone(buf);
      var p, i := 0, 0;
      while i < |iov| && p < |buf|
        invariant 0 <= i <= |iov| == |was| && iov[i..] == was[i..]
        invariant p == Min(|buf|, |Flatten(was[..i])|) && Flatten(iov[..i]) == Overlay(Flatten(was[..i]), buf)
        invariant forall k :: 0 <= k < |iov| ==> |iov[k]| == |was[k]|
      {
        assert iov[i] == iov[i..][0] == was[i..][0] == was[i];
        var copy := |buf| - p;
        if copy > |iov[i]| {
          copy := |iov[i]|;
        }
        FlattenTake(was, i);
        OverlayMore(Flatten(was[..i]), was[i], buf, copy);
        ghost var before := iov;
        iov := iov[i := buf[p..p + copy] + iov[i][copy..]];
        assert iov[..i] == before[..i] && iov[i + 1..] == before[i..][1..];
        FlattenTake(iov, i);
        p := p + copy;
        i := i + 1;
      }
      assert iov == iov[..i] + was[i..] && was == was[..i] + was[i..];
      FlattenAppend(iov[..i], was[i..]);
      FlattenAppend(was[..i], was[i..]);
      OverlayRest(Flatten(was[..i]), Flatten(was[i..]), buf);
      if i == |was| {
        assert was[i..] == [];
      }
      SameSize(Flatten(was), buf);
    }
  }

  /** memcpy to the position that follows what has been put so far. */
  method PutAfter(buf: array<byte>, ghost done: seq<byte>, ghost rest: seq<byte>, at: nat, data: seq<byte>)
    requires at == |done| && buf[..] == done + rest && |data| <= |rest|
    modifies buf
    ensures buf[..] == done + data + rest[|data|..]
  {
    forall k | 0 <= k < |data| {
      buf[at + k] := data[k];
    }
  }

  /** s with its first bytes replaced by those of buf. */
  function Overlay(s: seq<byte>, buf: seq<byte>): (r: seq<byte>)
    ensures |r| == |s|
  {
    if |buf| >= |s| then buf[..|s|] else buf + s[|buf|..]
  }

  lemma FlattenNone(iov: seq<seq<byte>>)
    ensures Flatten(iov[..0]) == [] && Flatten([]) == []
  {}

  lemma OverlayNone(buf: seq<byte>)
    ensures Overlay([], buf) == []
  {}

  lemma OverlayMore(s: seq<byte>, chunk: seq<byte>, buf: seq<byte>, copy: nat)
    requires |s| < |buf| && copy == Min(|buf| - |s|, |chunk|)
    ensures Overlay(s + chunk, buf) == Overlay(s, buf) + (buf[|s|..|s| + copy] + chunk[copy..])
  {}

  lemma OverlayRest(s: seq<byte>, rest: seq<byte>, buf: seq<byte>)
    ensures |buf| <= |s| || rest == [] ==> Overlay(s + rest, buf) == Overlay(s, buf) + rest
  {}

  lemma SameSize(s: seq<byte>, buf: seq<byte>)
    ensures |Overlay(s, buf)| == |s|
  {}
}
