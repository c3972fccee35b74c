/** dma-helpers.c: disk requests on scatter-gather lists of guest memory, in as many batches as the
    mapping of guest memory allows. */
module Dma {
  const SECTOR: nat := 512

  datatype Entry = Entry(base: nat, len: nat)

  /** The guest addresses of an entry, byte by byte. */
  function Addresses(e: Entry): (r: seq<nat>)
    ensures |r| == e.len
  {
    seq(e.len, k requires k >= 0 => e.base + k)
  }

  /** The guest addresses of a scatter-gather list, in order. */
  function Bytes(sg: seq<Entry>): seq<nat> {
    if sg == [] then [] else Bytes(sg[..|sg| - 1]) + Addresses(sg[|sg| - 1])
  }

  lemma BytesSnoc(sg: seq<Entry>, e: Entry)
    ensures Bytes(sg + [e]) == Bytes(sg) + Addresses(e)
  {
    assert (sg + [e])[..|sg|] == sg;
  }

  /** The addresses before byte `offset` of entry `index`. */
  function Reached(sg: seq<Entry>, index: nat, offset: nat): seq<nat>
    requires index <= |sg| && (index < |sg| ==> offset <= sg[index].len) && (index == |sg| ==> offset == 0)
  {
    Bytes(sg[..index]) + if index < |sg| then Addresses(sg[index])[..offset] else []
  }

  lemma ReachedNext(sg: seq<Entry>, index: nat)
    requires index < |sg|
    ensures Reached(sg, index + 1, 0) == Reached(sg, index, sg[index].len)
  {
    assert sg[..index + 1][..index] == sg[..index];
  }

  lemma ReachedMore(sg: seq<Entry>, index: nat, offset: nat, n: nat)
    requires index < |sg| && offset + n <= sg[index].len
    ensures Reached(sg, index, offset + n) == Reached(sg, index, offset) + Addresses(Entry(sg[index].base + offset, n))
  {}

  lemma ReachedEnds(sg: seq<Entry>)
    ensures Reached(sg, 0, 0) == [] && Reached(sg, |sg|, 0) == Bytes(sg)
  {
    assert sg[..|sg|] == sg;
  }

  lemma BytesPrefix(sg: seq<Entry>, n: nat)
    requires n <= |sg|
    ensures |Bytes(sg[..n])| <= |Bytes(sg)|
  {
    if n < |sg| {
      BytesPrefix(sg[..|sg| - 1], n);
      assert sg[..|sg| - 1][..n] == sg[..n];
    } else {
      assert sg[..n] == sg;
    }
  }

  /** What is left of the entry at the cursor has not been reached. */
  lemma ReachedRoom(sg: seq<Entry>, index: nat, offset: nat)
    requires index < |sg| && offset <= sg[index].len
    ensures |Reached(sg, index, offset)| + sg[index].len - offset <= |Bytes(sg)|
  {
    BytesSnoc(sg[..index], sg[index]);
    assert sg[..index + 1] == sg[..index] + [sg[index]];
    BytesPrefix(sg, index + 1);
  }

  predicate NonEmpty(sg: seq<Entry>) {
    forall k :: 0 <= k < |sg| ==> sg[k].len > 0
  }

  /** Every entry is whole sectors. */
  predicate WholeEntries(sg: seq<Entry>) {
    forall k :: 0 <= k < |sg| ==> sg[k].len % SECTOR == 0
  }

  /** Every map gives whole sectors, unless the entry ends first. */
  predicate WholeMaps(maps: seq<nat>) {
    forall k :: 0 <= k < |maps| ==> maps[k] % SECTOR == 0
  }

  lemma WholePart(sg: seq<Entry>, index: nat, offset: nat, maps: seq<nat>, n: nat, size: nat)
    requires index < |sg| && offset <= sg[index].len && n < |maps|
    ensures WholeEntries(sg) && offset % SECTOR == 0 ==> (sg[index].len - offset) % SECTOR == 0
    ensures WholeMaps(maps) ==> maps[n] % SECTOR == 0
    ensures size % SECTOR == 0 ==> forall m :: m % SECTOR == 0 ==> (size + m) % SECTOR == 0
  {}

  lemma WholeStep(offset: nat, n: nat)
    ensures offset % SECTOR == 0 && n % SECTOR == 0 ==> (offset + n) % SECTOR == 0
  {}

  lemma NoBytes(submitted: seq<nat>)
    ensures Bytes([]) == [] && submitted + Bytes([]) == submitted
  {}

  // ----- Batches: what the block layer is asked to transfer -----

  /** A batch: its first sector and the addresses in its vector. */
  datatype Batch = Batch(sector: nat, bytes: seq<nat>) {
    /** The number of sectors asked for, and the bytes left over. */
    function Sectors(): nat { |bytes| / SECTOR }
    predicate Whole() { |bytes| % SECTOR == 0 }
  }

  /** The addresses of all batches, in order. */
  function Joined(batches: seq<Batch>): seq<nat> {
    if batches == [] then [] else Joined(batches[..|batches| - 1]) + batches[|batches| - 1].bytes
  }

  /** The number of sectors of all batches. */
  function Sectors(batches: seq<Batch>): nat {
    if batches == [] then 0 else Sectors(batches[..|batches| - 1]) + batches[|batches| - 1].Sectors()
  }

  predicate AllWhole(batches: seq<Batch>) {
    forall k :: 0 <= k < |batches| ==> batches[k].Whole()
  }

  /** Each batch starts behind the sectors of those before it: what dma_bdrv_cb keeps. */
  ghost predicate Numbered(start: nat, batches: seq<Batch>) {
    forall k :: 0 <= k < |batches| ==> batches[k].sector == start + Sectors(batches[..k])
  }

  /** Each batch starts where its bytes belong: what the request is for. */
  ghost predicate Placed(start: nat, batches: seq<Batch>) {
    forall k :: 0 <= k < |batches| ==> PlacedAt(start, batches, k)
  }

  predicate PlacedAt(start: nat, batches: seq<Batch>, k: nat)
    requires k < |batches|
  {
    batches[k].sector * SECTOR == start * SECTOR + |Joined(batches[..k])|
  }

  /** Where the bytes of a batch are asked to go to or come from: the position on the disk, and the
      address in memory. Bytes beyond the last whole sector go nowhere. */
  function MovedBy(b: Batch): seq<(nat, nat)> {
    seq(b.Sectors() * SECTOR, i requires 0 <= i < b.Sectors() * SECTOR => (b.sector * SECTOR + i, b.bytes[i]))
  }

  function Moved(batches: seq<Batch>): seq<(nat, nat)> {
    if batches == [] then [] else Moved(batches[..|batches| - 1]) + MovedBy(batches[|batches| - 1])
  }

  /** Where they should go: from the first sector on, one after the other. */
  function Wanted(start: nat, bytes: seq<nat>): seq<(nat, nat)> {
    seq(|bytes|, i requires 0 <= i < |bytes| => (start * SECTOR + i, bytes[i]))
  }

  lemma NoBatches()
    ensures Sectors([]) == 0 && AllWhole([])
  {}

  lemma BatchesSnoc(start: nat, batches: seq<Batch>, b: Batch)
    ensures Joined(batches + [b]) == Joined(batches) + b.bytes
    ensures Sectors(batches + [b]) == Sectors(batches) + b.Sectors()
    ensures AllWhole(batches + [b]) <==> AllWhole(batches) && b.Whole()
    ensures Numbered(start, batches) && b.sector == start + Sectors(batches) ==> Numbered(start, batches + [b])
  {
    var all := batches + [b];
    assert all[..|batches|] == batches;
    assert forall k :: 0 <= k < |batches| ==> all[k] == batches[k] && all[..k] == batches[..k];
    assert all[|batches|] == b;
  }

  lemma MovedSnoc(batches: seq<Batch>, b: Batch)
    ensures Moved(batches + [b]) == Moved(batches) + MovedBy(b)
  {
    assert (batches + [b])[..|batches|] == batches;
  }

  /** The sectors fall short of the bytes by what the batches leave over. */
  lemma {:induction false} SectorsFallShort(batches: seq<Batch>)
    ensures Sectors(batches) * SECTOR <= |Joined(batches)|
    ensures Sectors(batches) * SECTOR == |Joined(batches)| <==> AllWhole(batches)
    ensures |Moved(batches)| == Sectors(batches) * SECTOR
  {
    if batches != [] {
      var n := |batches| - 1;
      SectorsFallShort(batches[..n]);
      BatchesSnoc(0, batches[..n], batches[n]);
      MovedSnoc(batches[..n], batches[n]);
      assert batches[..n] + [batches[n]] == batches;
    }
  }

  /** All batches start where their bytes belong if and only if every batch but the last is whole
      sectors; the sector is then the start and the sectors of the bytes done. */
  lemma PlacedExactly(start: nat, batches: seq<Batch>)
    requires Numbered(start, batches)
    ensures Placed(start, batches) <==> AllWhole(if batches == [] then [] else batches[..|batches| - 1])
    ensures forall k :: 0 <= k < |batches| && PlacedAt(start, batches, k) ==>
      batches[k].sector == start + |Joined(batches[..k])| / SECTOR
  {
    hide Joined;
    hide Sectors;
    forall k | 0 <= k < |batches|
      ensures PlacedAt(start, batches, k) <==> AllWhole(batches[..k])
    {
      SectorsFallShort(batches[..k]);
    }
    if batches != [] {
      var n := |batches| - 1;
      if AllWhole(batches[..n]) {
        forall k | 0 <= k < |batches|
          ensures PlacedAt(start, batches, k)
        {
          assert forall j :: 0 <= j < k ==> batches[..k][j] == batches[..n][j];
        }
      }
    }
  }

  /** The bytes are moved between the addresses and consecutive positions from the first sector on,
      all of them, if and only if every batch is whole sectors. */
  lemma {:induction false} MovedExactly(start: nat, batches: seq<Batch>)
    requires Numbered(start, batches)
    ensures Moved(batches) == Wanted(start, Joined(batches)) <==> AllWhole(batches)
  {
    hide Joined;
    SectorsFallShort(batches);
    if batches == [] {
      assert Joined([]) == [] by { JoinedNone(); }
    } else if AllWhole(batches) {
      var n := |batches| - 1;
      assert batches[..n] + [batches[n]] == batches;
      BatchesSnoc(start, batches[..n], batches[n]);
      MovedSnoc(batches[..n], batches[n]);
      assert Numbered(start, batches[..n]) by {
        assert forall k :: 0 <= k < n ==> batches[..n][k] == batches[k] && batches[..n][..k] == batches[..k];
      }
      MovedExactly(start, batches[..n]);
      SectorsFallShort(batches[..n]);
      WantedSnoc(start, Joined(batches[..n]), batches[n]);
    }
  }

  lemma JoinedNone()
    ensures Joined([]) == []
  {}

  lemma WantedSnoc(start: nat, bytes: seq<nat>, b: Batch)
    requires b.Whole() && b.sector * SECTOR == start * SECTOR + |bytes|
    ensures Wanted(start, bytes + b.bytes) == Wanted(start, bytes) + MovedBy(b)
  {}

  /** qemu_sglist_add. */
  class SgList {
    var sg: seq<Entry>
    var size: nat

    constructor ()
      ensures sg == [] && size == 0 == |Bytes(sg)|
    {
      sg, size := [], 0;
    }

    method Add(base: nat, len: nat)
      requires size == |Bytes(sg)|
      modifies this
      ensures Bytes(sg) == old(Bytes(sg)) + Addresses(Entry(base, len)) && size == |Bytes(sg)|
    {
      BytesSnoc(sg, Entry(base, len));
      sg := sg + [Entry(base, len)];
      size := size + len;
    }
  }

  /** A request on its way. `maps` stands for what cpu_physical_memory_map gives at each attempt: how
      many bytes, or 0 for a null pointer. */
  class DmaRequest {
    const sg: seq<Entry>
    const start: nat
    var sectorNum: nat
    var sgCurIndex: nat
    var sgCurByte: nat
    var iov: seq<Entry>
    var iovSize: nat
    var acb: bool
    var waiting: bool
    var callbacks: seq<int>
    var releases: nat
    ghost var submitted: seq<nat>
    ghost var batches: seq<Batch>
    ghost var dead: bool

    /** The cursor is inside the list, and no entry before it is empty. */
    ghost predicate CursorOk()
      reads this`sgCurIndex, this`sgCurByte
    {
      && sgCurIndex <= |sg|
      && (if sgCurIndex < |sg| then sgCurByte == 0 || sgCurByte < sg[sgCurIndex].len else sgCurByte == 0)
      && forall k :: 0 <= k < sgCurIndex ==> sg[k].len > 0
    }

    /** The batches are those of what has been submitted, each behind the sectors of those before. */
    ghost predicate Recorded()
      reads this`submitted, this`batches
    {
      submitted == Joined(batches) && Numbered(start, batches)
    }

    /** The batches that have ended: all but the one under way. */
    ghost function Ended(): seq<Batch>
      reads this
    {
      if acb && batches != [] then batches[..|batches| - 1] else batches
    }

    /** Between calls: what has been submitted is the list up to the cursor, and the current sector is
        behind those of the batches that have ended. */
    ghost predicate Live()
      reads this
    {
      && CursorOk() && !dead && callbacks == [] && releases == 0
      && submitted == Reached(sg, sgCurIndex, sgCurByte)
      && iovSize == |Bytes(iov)| && (acb <==> iovSize > 0) && !(acb && waiting)
      && Recorded() && sectorNum == start + Sectors(Ended())
      && (acb ==> batches != [] && batches[|batches| - 1].bytes == Bytes(iov))
    }

    /** Everything so far is whole sectors. */
    ghost predicate Aligned()
      reads this
    {
      WholeEntries(sg) && sgCurByte % SECTOR == 0 && AllWhole(batches)
    }

    /** The request is over: its callback has been called once, and it has been released once. */
    ghost predicate Over()
      reads this
    {
      |callbacks| == 1 && releases == 1 && !acb && !waiting && !dead
    }

    constructor (sg: seq<Entry>, start: nat)
      ensures Live() && this.sg == sg && this.start == start && sectorNum == start && !acb && !waiting
      ensures submitted == [] && batches == []
    {
      this.sg, this.start := sg, start;
      sectorNum, sgCurIndex, sgCurByte, iov, iovSize := start, 0, 0, [], 0;
      acb, waiting, callbacks, releases := false, false, [], 0;
      submitted, batches, dead := [], [], false;
      new;
      ReachedEnds(sg);
    }

    /** One map that succeeds, for curLen bytes from the cursor on. */
    method MapOne(curLen: nat)
      requires CursorOk() && submitted + Bytes(iov) == Reached(sg, sgCurIndex, sgCurByte) && iovSize == |Bytes(iov)|
      requires sgCurIndex < |sg| && 0 < curLen <= sg[sgCurIndex].len - sgCurByte
      modifies this`sgCurIndex, this`sgCurByte, this`iov, this`iovSize
      ensures CursorOk() && submitted + Bytes(iov) == Reached(sg, sgCurIndex, sgCurByte) && iovSize == |Bytes(iov)| > 0
      ensures |iov| == |old(iov)| + 1 && iovSize == old(iovSize) + curLen
      ensures WholeEntries(sg) && old(sgCurByte) % SECTOR == 0 && curLen % SECTOR == 0 ==> sgCurByte % SECTOR == 0
      ensures curLen == sg[old(sgCurIndex)].len - old(sgCurByte) ==> sgCurIndex == old(sgCurIndex) + 1 && sgCurByte == 0
    {
      hide Bytes;
      hide Reached;
      hide Addresses;
      hide WholeEntries;
      WholeStep(sgCurByte, curLen);
      var e := Entry(sg[sgCurIndex].base + sgCurByte, curLen);
      BytesSnoc(iov, e);
      ReachedMore(sg, sgCurIndex, sgCurByte, curLen);
      ReachedNext(sg, sgCurIndex);
      assert submitted + Bytes(iov) + Addresses(e) == submitted + (Bytes(iov) + Addresses(e));
      iov := iov + [e];
      iovSize := iovSize + curLen;
      sgCurByte := sgCurByte + curLen;
      if sgCurByte == sg[sgCurIndex].len {
        sgCurByte := 0;
        sgCurIndex := sgCurIndex + 1;
      }
    }

    /** Exactly one map succeeds, and it gives the rest of the current entry. */
    predicate TakesOne(maps: seq<nat>)
      reads this
    {
      sgCurIndex < |sg| && |maps| == 1 && maps[0] >= sg[sgCurIndex].len - sgCurByte > 0
    }

    /** The loop of dma_bdrv_cb: entries are mapped from the cursor on, until a map fails. An empty
        entry maps to a null pointer. */
    method MapSome(maps: seq<nat>)
      requires CursorOk() && submitted == Reached(sg, sgCurIndex, sgCurByte) && iov == [] && iovSize == 0
      modifies this`sgCurIndex, this`sgCurByte, this`iov, this`iovSize
      ensures CursorOk() && submitted + Bytes(iov) == Reached(sg, sgCurIndex, sgCurByte) && iovSize == |Bytes(iov)|
      ensures iovSize == 0 ==> sgCurIndex == old(sgCurIndex) && sgCurByte == old(sgCurByte)
      ensures |iov| <= |maps|
      ensures sgCurIndex == |sg| || |iov| == |maps| || maps[|iov|] == 0 || sg[sgCurIndex].len == sgCurByte
      ensures iovSize > 0 <==>
        old(sgCurIndex) < |sg| && maps != [] && maps[0] > 0 && sg[old(sgCurIndex)].len > old(sgCurByte)
      ensures WholeEntries(sg) && old(sgCurByte) % SECTOR == 0 && WholeMaps(maps) ==>
        sgCurByte % SECTOR == 0 && iovSize % SECTOR == 0
      ensures old(TakesOne(maps)) ==>
        sgCurIndex == old(sgCurIndex) + 1 && sgCurByte == 0 && iovSize == sg[old(sgCurIndex)].len - old(sgCurByte)
    {
      hide Bytes;
      hide Reached;
      hide Addresses;
      hide WholeEntries;
      hide WholeMaps;
      NoBytes(submitted);
      var n := 0;
      while sgCurIndex < |sg|
        invariant CursorOk() && submitted + Bytes(iov) == Reached(sg, sgCurIndex, sgCurByte) && iovSize == |Bytes(iov)|
        invariant iovSize == 0 <==> n == 0
        invariant n == 0 ==> sgCurIndex == old(sgCurIndex) && sgCurByte == old(sgCurByte)
        invariant n > 0 ==> old(sgCurIndex) < |sg| && maps != [] && maps[0] > 0 && sg[old(sgCurIndex)].len > old(sgCurByte)
        invariant n == |iov| <= |maps|
        invariant WholeEntries(sg) && old(sgCurByte) % SECTOR == 0 && WholeMaps(maps) ==>
          sgCurByte % SECTOR == 0 && iovSize % SECTOR == 0
        invariant old(TakesOne(maps)) && n == 1 ==>
          sgCurIndex == old(sgCurIndex) + 1 && sgCurByte == 0 && iovSize == sg[old(sgCurIndex)].len - old(sgCurByte)
        decreases |maps| - n
      {
        var curLen := sg[sgCurIndex].len - sgCurByte;
        if n == |maps| || maps[n] == 0 || curLen == 0 {
          break;
        }
        WholePart(sg, sgCurIndex, sgCurByte, maps, n, iovSize);
        if maps[n] < curLen {
          curLen := maps[n];
        }
        n := n + 1;
        MapOne(curLen);
      }
    }

    /** dma_bdrv_cb. `accept` tells whether the block layer takes the batch. */
    method Callback(ret: int, maps: seq<nat>, accept: bool)
      requires Live() && !waiting
      modifies this
      ensures Live() || Over() || dead
      ensures submitted == old(submitted) + Bytes(if acb then iov else [])
      ensures Over() <==> old(sgCurIndex) == |sg| || ret < 0
      ensures Live() ==> callbacks == [] && releases == 0 && !dead
      ensures Over() ==> callbacks == [ret] && submitted == old(submitted)
      ensures dead ==> !accept && callbacks == [] && releases == 0 && !acb && !waiting && CursorOk()
      ensures !Over() ==> (acb || dead <==> maps != [] && maps[0] > 0 && sg[old(sgCurIndex)].len > old(sgCurByte))
      ensures !Over() && !dead ==> waiting == !acb && (acb ==> accept)
      ensures Recorded() && batches == if acb then old(batches) + [Batch(sectorNum, Bytes(iov))] else old(batches)
      ensures !Over() ==> sectorNum == start + Sectors(old(batches))
      ensures old(Aligned()) && WholeMaps(maps) ==> Aligned()
      ensures old(TakesOne(maps)) && ret >= 0 && accept ==> OneTaken(old(sgCurIndex), old(sgCurByte))
      ensures Over() && ret >= 0 ==> submitted == Bytes(sg) && NonEmpty(sg)
    {
      hide Bytes;
      hide Reached;
      hide Addresses;
      hide Joined;
      hide Sectors;
      hide Numbered;
      hide AllWhole;
      hide WholeEntries;
      hide WholeMaps;
      hide CursorOk;
      hide Recorded;
      hide Ended;
      hide Live;
      EndBatch();
      NoBytes(submitted);
      LiveMeans();
      if sgCurIndex == |sg| {
        AtTheEnd();
      }
      if sgCurIndex == |sg| || ret < 0 {
        callbacks := callbacks + [ret];
        releases := releases + 1;
      } else {
        MapAndSubmit(maps, accept);
      }
      if Live() {
        LiveMeans();
      }
    }

    /** The bookkeeping for the batch that has ended. */
    method EndBatch()
      requires Live() && !waiting
      modifies this`acb, this`sectorNum, this`iov, this`iovSize
      ensures Live() && !acb && iov == [] && sectorNum == start + Sectors(batches)
    {
      hide Reached;
      hide Numbered;
      hide Joined;
      acb := false;
      sectorNum := sectorNum + iovSize / SECTOR;
      iov, iovSize := [], 0;
    }

    lemma AtTheEnd()
      requires Live() && sgCurIndex == |sg|
      ensures submitted == Bytes(sg) && NonEmpty(sg)
    {
      ReachedEnds(sg);
    }

    /** The batch under way is the rest of the entry at that cursor. */
    ghost predicate OneTaken(index: nat, offset: nat)
      reads this
    {
      acb && index < |sg| && sgCurIndex == index + 1 && sgCurByte == 0 && iovSize + offset == sg[index].len
    }

    /** The second half of dma_bdrv_cb: the next batch, or a wait for memory that can be mapped. */
    method MapAndSubmit(maps: seq<nat>, accept: bool)
      requires Live() && !waiting && !acb && iov == [] && sgCurIndex < |sg|
      modifies this
      ensures Live() || dead
      ensures submitted == old(submitted) + Bytes(if acb then iov else [])
      ensures dead ==> !accept && callbacks == [] && releases == 0 && !acb && !waiting && CursorOk()
      ensures acb || dead <==> maps != [] && maps[0] > 0 && sg[old(sgCurIndex)].len > old(sgCurByte)
      ensures (!dead ==> waiting == !acb) && (acb ==> accept)
      ensures sectorNum == old(sectorNum) && |callbacks| == 0
      ensures Recorded() && batches == if acb then old(batches) + [Batch(sectorNum, Bytes(iov))] else old(batches)
      ensures old(Aligned()) && WholeMaps(maps) ==> Aligned()
      ensures old(TakesOne(maps)) && accept ==> OneTaken(old(sgCurIndex), old(sgCurByte))
    {
      hide Bytes;
      hide Reached;
      hide Addresses;
      hide Joined;
      hide Sectors;
      hide Numbered;
      hide AllWhole;
      hide WholeEntries;
      hide WholeMaps;
      NoBytes(submitted);
      MapSome(maps);
      if iovSize == 0 {
        waiting := true;
        return;
      }
      if accept {
        Submit();
      } else {
        iov := [];
        dead := true;
      }
    }

    /** The call of bdrv_aio_readv or bdrv_aio_writev, when it is accepted. */
    method Submit()
      requires CursorOk() && !dead && callbacks == [] && releases == 0 && !acb && !waiting
      requires submitted + Bytes(iov) == Reached(sg, sgCurIndex, sgCurByte) && iovSize == |Bytes(iov)| > 0
      requires Recorded() && sectorNum == start + Sectors(batches)
      modifies this`acb, this`submitted, this`batches
      ensures Live() && acb && !dead
      ensures submitted == old(submitted) + Bytes(iov) && batches == old(batches) + [Batch(sectorNum, Bytes(iov))]
      ensures old(AllWhole(batches)) && iovSize % SECTOR == 0 ==> AllWhole(batches)
    {
      hide Bytes;
      hide Reached;
      hide Addresses;
      hide Joined;
      hide Sectors;
      hide Batch.Sectors;
      hide Numbered;
      hide AllWhole;
      hide CursorOk;
      ghost var b := Batch(sectorNum, Bytes(iov));
      BatchesSnoc(start, batches, b);
      hide Ended;
      acb := true;
      submitted, batches := submitted + Bytes(iov), batches + [b];
      EndedBefore(old(batches), b);
    }

    lemma EndedBefore(was: seq<Batch>, b: Batch)
      requires acb && batches == was + [b]
      ensures Ended() == was && batches != [] && batches[|batches| - 1] == b
    {}

    /** reschedule_dma, after the map client has been notified. */
    method Reschedule(maps: seq<nat>, accept: bool)
      requires Live() && waiting
      modifies this
      ensures Live() || Over() || dead
      ensures submitted == old(submitted) + Bytes(if acb then iov else [])
      ensures Over() <==> old(sgCurIndex) == |sg|
      ensures Over() ==> callbacks == [0] && submitted == old(submitted) == Bytes(sg) && NonEmpty(sg)
      ensures dead ==> !accept && callbacks == [] && releases == 0 && !acb && !waiting && CursorOk()
      ensures !Over() ==> (acb || dead <==> maps != [] && maps[0] > 0 && sg[old(sgCurIndex)].len > old(sgCurByte))
      ensures !Over() && !dead ==> waiting == !acb && (acb ==> accept)
      ensures Recorded() && batches == if acb then old(batches) + [Batch(sectorNum, Bytes(iov))] else old(batches)
      ensures !Over() ==> sectorNum == start + Sectors(old(batches))
      ensures old(Aligned()) && WholeMaps(maps) ==> Aligned()
    {
      waiting := false;
      Callback(0, maps, accept);
    }

    /** dma_bdrv_io. It is sound, that is, it returns a request that is under way, or none and leaves
        nothing behind, exactly if the list is not empty and its first entry can be mapped. The first
        batch starts at the given sector. */
    method Start(maps: seq<nat>, accept: bool) returns (ok: bool)
      requires Live() && !acb && !waiting && submitted == [] && batches == []
      modifies this
      ensures ok ==> Live() && acb && sectorNum == start && batches == [Batch(start, Bytes(iov))]
      ensures ok ==> (WholeEntries(sg) && WholeMaps(maps) ==> Aligned())
      ensures ok && old(TakesOne(maps)) ==> OneTaken(0, 0)
      ensures !ok ==> releases > 0 && !acb && batches == []
      ensures ok || (releases == 1 && callbacks == [] && !waiting) <==>
        sg != [] && sg[0].len > 0 && maps != [] && maps[0] > 0
      ensures accept && sg != [] && sg[0].len > 0 && maps != [] && maps[0] > 0 ==> ok
      ensures sg == [] ==> !ok && callbacks == [0] && releases == 2
      ensures sg != [] && (sg[0].len == 0 || maps == [] || maps[0] == 0) ==> !ok && waiting && releases == 1
    {
      hide Bytes;
      hide Reached;
      hide Addresses;
      hide Joined;
      hide Sectors;
      hide Numbered;
      hide AllWhole;
      hide WholeEntries;
      hide WholeMaps;
      hide CursorOk;
      hide Ended;
      hide Live;
      NoBatches();
      AtTheStart();
      Callback(0, maps, accept);
      if !acb {
        releases := releases + 1;
        return false;
      }
      return true;
    }

    lemma AtTheStart()
      requires Live() && submitted == []
      ensures sgCurByte == 0 && sgCurIndex == 0
    {}

    /** One turn of a request under way: the completion of its batch or, if it waits for memory that
        can be mapped, the retry. Each turn that maps something and does not end the request submits
        at least one byte, in a batch behind the sectors of those before it. */
    method TakeTurn(turn: Turn)
      requires Live() && (acb || waiting)
      modifies this
      ensures (Live() && (acb || waiting)) || Over() || dead
      ensures Over() && callbacks[0] >= 0 ==> submitted == Bytes(sg) && NonEmpty(sg)
      ensures Over() ==> callbacks == [if old(acb) then turn.ret else 0]
      ensures dead ==> !turn.accept && callbacks == [] && releases == 0 && !acb && !waiting
      ensures Live() ==> |submitted| >= |old(submitted)|
      ensures Live() && NonEmpty(sg) && turn.Maps() ==> |old(submitted)| < |submitted| <= |Bytes(sg)|
      ensures Recorded() && batches == if acb then old(batches) + [Batch(start + Sectors(old(batches)), Bytes(iov))] else old(batches)
      ensures old(Aligned()) && WholeMaps(turn.maps) ==> Aligned()
      ensures Over() <==> old(sgCurIndex) == |sg| || (old(acb) && turn.ret < 0)
      ensures old(acb) && old(TakesOne(turn.maps)) && turn.ret >= 0 && turn.accept ==> OneTaken(old(sgCurIndex), old(sgCurByte))
    {
      hide Bytes;
      hide Reached;
      hide Addresses;
      hide Numbered;
      hide AllWhole;
      hide WholeEntries;
      hide WholeMaps;
      hide Sectors;
      hide Joined;
      if acb {
        Callback(turn.ret, turn.maps, turn.accept);
      } else {
        Reschedule(turn.maps, turn.accept);
      }
      if Live() {
        SubmittedAtMost();
        if NonEmpty(sg) && turn.Maps() {
          assert iovSize == |Bytes(iov)| > 0;
        }
      }
    }

    /** A completion after which just the next entry can be mapped. */
    method TakeEntry()
      requires Live() && acb && sgCurIndex < |sg| && sgCurByte == 0 && sg[sgCurIndex].len > 0
      modifies this
      ensures Live() && acb && !waiting && sgCurIndex == old(sgCurIndex) + 1 && sgCurByte == 0
      ensures |batches| == |old(batches)| + 1 && old(batches) <= batches
      ensures iovSize == |batches[|batches| - 1].bytes| == sg[old(sgCurIndex)].len
    {
      hide Bytes;
      hide Reached;
      hide Addresses;
      hide Numbered;
      hide Joined;
      hide Sectors;
      hide AllWhole;
      hide WholeEntries;
      hide WholeMaps;
      TakeTurn(Turn(0, OneMap(sg[sgCurIndex].len), true));
    }

    lemma LiveMeans()
      requires Live()
      ensures callbacks == [] && releases == 0 && !dead && Recorded() && sgCurIndex <= |sg|
    {}

    lemma SubmittedAtMost()
      requires Live()
      ensures |submitted| <= |Bytes(sg)|
    {
      if sgCurIndex < |sg| {
        ReachedRoom(sg, sgCurIndex, sgCurByte);
      } else {
        ReachedEnds(sg);
      }
    }

    /** A request under way, over any turns: however maps fail and are retried, its callback is called
        at most once, and without an error only after all addresses of the list have been submitted,
        in order. It has been called, or a refused batch has ended the request silently, as soon as
        more turns have mapped something than the list has bytes left, if no entry is empty. So if no
        batch fails and none is refused the callback comes exactly if no entry is empty.
        The batches start where their bytes belong exactly if all but the last are whole sectors, and
        what the block layer is asked to move is the list, to or from consecutive positions, exactly
        if all are: so it is if all entries and maps are. */
    method Run(turns: seq<Turn>)
      requires Live() && (acb || waiting)
      modifies this
      ensures Live() || Over() || dead
      ensures Over() && callbacks[0] >= 0 ==> submitted == Bytes(sg) && NonEmpty(sg)
      ensures Over() && callbacks[0] != 0 ==> exists i :: 0 <= i < |turns| && turns[i].ret == callbacks[0]
      ensures dead ==> callbacks == [] && releases == 0 && exists i :: 0 <= i < |turns| && !turns[i].accept
      ensures NonEmpty(sg) && Mapped(turns) > |Bytes(sg)| - |old(submitted)| ==> Over() || dead
      ensures Mapped(turns) > |Bytes(sg)| - |old(submitted)| && (forall i :: 0 <= i < |turns| ==> turns[i].ret == 0 && turns[i].accept)
        ==> (Over() <==> NonEmpty(sg)) && (Over() ==> callbacks == [0] && releases == 1 && submitted == Bytes(sg))
      ensures submitted == Joined(batches) && old(batches) <= batches
      ensures Placed(start, batches) <==> AllWhole(if batches == [] then [] else batches[..|batches| - 1])
      ensures Moved(batches) == Wanted(start, submitted) <==> AllWhole(batches)
      ensures old(Aligned()) && AllMapsWhole(turns) ==> AllWhole(batches)
      ensures AllWhole(batches) && acb ==> sectorNum == start + (|submitted| - iovSize) / SECTOR
    {
      hide Bytes;
      hide Reached;
      hide Addresses;
      hide Numbered;
      hide AllWhole;
      hide WholeEntries;
      hide WholeMaps;
      hide Sectors;
      hide Joined;
      hide Mapped;
      hide CursorOk;
      hide Recorded;
      hide Aligned;
      hide Placed;
      hide Moved;
      hide Wanted;
      hide Ended;
      hide Live;
      MappedNone();
      LiveMeans();
      SubmittedAtMost();
      for i := 0 to |turns|
        invariant (Live() && (acb || waiting)) || Over() || dead
        invariant Over() && callbacks[0] >= 0 ==> submitted == Bytes(sg) && NonEmpty(sg)
        invariant Over() && callbacks[0] != 0 ==> exists k :: 0 <= k < i && turns[k].ret == callbacks[0]
        invariant dead ==> callbacks == [] && releases == 0 && !acb && !waiting && exists k :: 0 <= k < i && !turns[k].accept
        invariant Recorded() && old(batches) <= batches
        invariant old(Aligned()) && (forall k :: 0 <= k < i ==> WholeMaps(turns[k].maps)) ==> Aligned()
        invariant Live() && NonEmpty(sg) ==> |Bytes(sg)| >= |submitted| >= |old(submitted)| + Mapped(turns[..i])
      {
        MappedNext(turns, i);
        if Live() {
          LiveMeans();
        }
        if acb || waiting {
          TakeTurn(turns[i]);
          if Live() {
            SubmittedAtMost();
          }
        }
      }
      assert turns[..|turns|] == turns;
      BatchesMean();
    }

    lemma BatchesMean()
      requires Recorded() && (acb ==> Live())
      ensures submitted == Joined(batches) && (Aligned() ==> AllWhole(batches))
      ensures Placed(start, batches) <==> AllWhole(if batches == [] then [] else batches[..|batches| - 1])
      ensures Moved(batches) == Wanted(start, submitted) <==> AllWhole(batches)
      ensures AllWhole(batches) && acb ==> sectorNum == start + (|submitted| - iovSize) / SECTOR
    {
      hide Reached;
      hide Bytes;
      PlacedExactly(start, batches);
      MovedExactly(start, batches);
      if AllWhole(batches) && acb {
        SectorsFallShort(batches[..|batches| - 1]);
      }
    }
  }

  predicate AllMapsWhole(turns: seq<Turn>) {
    forall i :: 0 <= i < |turns| ==> WholeMaps(turns[i].maps)
  }

  /** A request from its start on. One that reports success has moved the list of its addresses, in
      order, to or from the positions from the given sector on, if all entries and maps are whole
      sectors; in general exactly if all its batches are. */
  method Request(sg: seq<Entry>, start: nat, maps: seq<nat>, accept: bool, turns: seq<Turn>) returns (r: DmaRequest, ok: bool)
    ensures fresh(r) && r.sg == sg && r.start == start
    ensures ok ==> r.batches != [] && r.batches[0].sector == start && r.submitted == Joined(r.batches)
    ensures ok && r.Over() && r.callbacks[0] >= 0 ==> (Moved(r.batches) == Wanted(start, Bytes(sg)) <==> AllWhole(r.batches))
    ensures ok && WholeEntries(sg) && WholeMaps(maps) && AllMapsWhole(turns) ==> AllWhole(r.batches)
  {
    hide Bytes;
    hide Reached;
    hide Addresses;
    hide Moved;
    hide Wanted;
    hide Joined;
    hide Sectors;
    hide AllWhole;
    r := new DmaRequest(sg, start);
    ok := r.Start(maps, accept);
    if ok {
      r.Run(turns);
    }
  }

  /** One map and no more, of that many sectors. */
  function OneMap(n: nat): (r: seq<nat>)
    ensures WholeMaps(r)
  {
    [n * SECTOR]
  }

  lemma OneMapTakes(n: nat)
    ensures |OneMap(n)| == 1 && OneMap(n)[0] >= n
  {}

  /** The list is mapped an entry at a time, since each second map fails. The request reports success,
      with a batch for each entry, and moves what it should exactly if every entry is whole sectors.
      Since such a list is moved as it should under any whole maps, these are the lists on which a
      request can be relied on. */
  method EntryByEntry(sg: seq<Entry>, start: nat) returns (r: DmaRequest)
    requires sg != [] && NonEmpty(sg)
    ensures fresh(r) && r.sg == sg && r.start == start && r.Over() && r.callbacks == [0] && r.submitted == Bytes(sg)
    ensures |r.batches| == |sg| && forall k :: 0 <= k < |sg| ==> |r.batches[k].bytes| == sg[k].len
    ensures r.Recorded() && (Moved(r.batches) == Wanted(start, Bytes(sg)) <==> WholeEntries(sg))
  {
    hide Bytes;
    hide Reached;
    hide Moved;
    hide Wanted;
    hide Joined;
    hide Sectors;
    hide Numbered;
    hide AllWhole;
    hide WholeEntries;
    hide WholeMaps;
    hide OneMap;
    r := new DmaRequest(sg, start);
    r.AtTheStart();
    OneMapTakes(sg[0].len);
    var ok := r.Start(OneMap(sg[0].len), true);
    for i := 1 to |sg|
      invariant r.Live() && r.acb && !r.waiting && r.sg == sg && r.start == start
      invariant r.sgCurIndex == i && r.sgCurByte == 0 && |r.batches| == i && r.iovSize == sg[i - 1].len
      invariant forall k :: 0 <= k < i ==> |r.batches[k].bytes| == sg[k].len
    {
      r.TakeEntry();
    }
    r.TakeTurn(Turn(0, [], true));
    WholeAlike(sg, r.batches);
    MovedExactly(start, r.batches);
  }

  lemma WholeAlike(sg: seq<Entry>, batches: seq<Batch>)
    requires |batches| == |sg| && forall k :: 0 <= k < |sg| ==> |batches[k].bytes| == sg[k].len
    ensures AllWhole(batches) <==> WholeEntries(sg)
  {
    assert forall k :: 0 <= k < |sg| ==> (batches[k].Whole() <==> sg[k].len % SECTOR == 0);
  }

  /** Two entries of half a sector, of which the second cannot be mapped at first: both batches go to
      the first sector, with no sector to move, and the result is 0. */
  method TwoHalves(base: nat, start: nat) returns (r: DmaRequest)
    ensures r.Over() && r.callbacks == [0] && |r.submitted| == SECTOR
    ensures |r.batches| == 2 && r.batches[0].sector == r.batches[1].sector == start && Moved(r.batches) == []
  {
    var sg := [Entry(base, 256), Entry(base + 256, 256)];
    r := EntryByEntry(sg, start);
    assert r.batches[..1][..0] == [] && r.batches[..2] == r.batches && r.batches[..0] == [];
    assert r.batches[0].Sectors() == 0 && r.batches[1].Sectors() == 0;
    assert Sectors(r.batches[..1]) == 0 && Sectors(r.batches) == 0;
    SectorsFallShort(r.batches);
    assert Bytes(sg[..1]) == Bytes([]) + Addresses(sg[0]);
  }

  /** What one completion or retry meets: the result of the batch that ends, what the attempts to map
      memory give, and whether the block layer takes the next batch. */
  datatype Turn = Turn(ret: int, maps: seq<nat>, accept: bool) {
    /** The first map succeeds. */
    predicate Maps() {
      maps != [] && maps[0] > 0
    }
  }

  /** The number of turns that map something. */
  function Mapped(turns: seq<Turn>): (r: nat)
    ensures r <= |turns|
  {
    if turns == [] then 0 else Mapped(turns[..|turns| - 1]) + if turns[|turns| - 1].Maps() then 1 else 0
  }

  lemma MappedNone()
    ensures Mapped([]) == 0
  {}

  lemma MappedNext(turns: seq<Turn>, i: nat)
    requires i < |turns|
    ensures Mapped(turns[..i + 1]) == Mapped(turns[..i]) + if turns[i].Maps() then 1 else 0
  {
    assert turns[..i + 1][..i] == turns[..i];
  }
}
