/** multiwrite_merge (block.c): sorts write requests in place and merges neighbours, recording what
    it allocates in the callback slots of the request. */
module Multiwrite {
  import opened Common
  import opened IoVec
  import opened MergeSpec

  const SECTOR: nat := 512
  const IOV_MAX: nat := 1024

  /** `cb` stands for the callback together with its opaque argument. */
  datatype BlockRequest = BlockRequest(sector: nat, nbSectors: nat, qiov: IoVector, cb: nat)

  /** What a driver sees of a request when it is asked whether to merge. */
  datatype Snapshot = Snapshot(sector: nat, nbSectors: nat, iov: seq<seq<byte>>)

  /** bdrv_merge_requests, which a driver need not have. */
  type MergeHook = Option<(Snapshot, Snapshot) -> bool>

  datatype Slot = Slot(cb: nat, freeQiov: IoVector?, freeBuf: array?<byte>)

  function Snap(r: BlockRequest): Snapshot
    reads r.qiov
  {
    Snapshot(r.sector, r.nbSectors, r.qiov.iov)
  }

  /** A request's vector holds as many bytes as its sectors do. */
  ghost predicate Sound(r: BlockRequest)
    reads r.qiov
  {
    r.qiov.Valid() && r.qiov.size == r.nbSectors * SECTOR
  }

  function ViewOf(s: Snapshot): Write { Write(s.sector * SECTOR, Flatten(s.iov)) }

  function View(r: BlockRequest): Write
    reads r.qiov
  {
    ViewOf(Snap(r))
  }

  function Vectors(reqs: seq<BlockRequest>): set<IoVector> { set r | r in reqs :: r.qiov }

  function Views(reqs: seq<BlockRequest>): (r: seq<Write>)
    reads Vectors(reqs)
    ensures |r| == |reqs|
  {
    seq(|reqs|, i requires 0 <= i < |reqs| reads Vectors(reqs) => View(reqs[i]))
  }

  /** The number of chunks in each vector. */
  function Counts(reqs: seq<BlockRequest>): (r: seq<nat>)
    reads Vectors(reqs)
    ensures |r| == |reqs|
  {
    seq(|reqs|, i requires 0 <= i < |reqs| reads Vectors(reqs) => |reqs[i].qiov.iov|)
  }

  /** No vector has more chunks than the system takes. */
  predicate Short(counts: seq<nat>) {
    forall i :: 0 <= i < |counts| ==> counts[i] <= IOV_MAX
  }

  function Sum(counts: seq<nat>, n: nat): nat
    requires n <= |counts|
  {
    if n == 0 then 0 else Sum(counts, n - 1) + counts[n - 1]
  }

  lemma {:induction false} SumGrows(counts: seq<nat>, n: nat, m: nat)
    requires n <= m <= |counts|
    ensures Sum(counts, n) <= Sum(counts, m)
  {
    if n < m {
      SumGrows(counts, n, m - 1);
    }
  }

  lemma SumNext(counts: seq<nat>, n: nat)
    requires n < |counts|
    ensures Sum(counts, n + 1) == Sum(counts, n) + counts[n]
    ensures Sum(counts, n + 1) <= Sum(counts, |counts|)
  {
    SumGrows(counts, n + 1, |counts|);
  }

  /** Request i starts at the end of the one before it, or earlier. */
  predicate Touches(writes: seq<Write>, i: nat)
    requires 0 < i < |writes|
  {
    writes[i].start <= writes[i - 1].End()
  }

  predicate InOrder(reqs: seq<BlockRequest>) {
    forall i, j :: 0 <= i < j < |reqs| ==> reqs[i].sector <= reqs[j].sector
  }

  // ----- Sorting -----

  /** The first n + 1 requests are in order but for request k, which belongs further down. */
  predicate Sinking(reqs: seq<BlockRequest>, n: nat, k: nat)
    requires k <= n < |reqs|
  {
    && (forall i, j :: 0 <= i < j <= n && j != k ==> reqs[i].sector <= reqs[j].sector)
    && (forall j :: k < j <= n ==> reqs[k].sector <= reqs[j].sector)
  }

  lemma SwapSinks(reqs: seq<BlockRequest>, n: nat, k: nat)
    requires 0 < k <= n < |reqs| && Sinking(reqs, n, k) && reqs[k].sector < reqs[k - 1].sector
    ensures Sinking(reqs[k := reqs[k - 1]][k - 1 := reqs[k]], n, k - 1)
  {}

  lemma SwapKeeps(reqs: seq<BlockRequest>, k: nat)
    requires 0 < k < |reqs|
    ensures multiset(reqs[k := reqs[k - 1]][k - 1 := reqs[k]]) == multiset(reqs)
  {}

  lemma SunkIsOrdered(reqs: seq<BlockRequest>, n: nat, k: nat)
    requires k <= n < |reqs| && Sinking(reqs, n, k) && (k == 0 || reqs[k - 1].sector <= reqs[k].sector)
    ensures InOrder(reqs[..n + 1])
  {
    forall i, j | 0 <= i < j <= n
      ensures reqs[i].sector <= reqs[j].sector
    {
      assert k > 0 ==> i == k - 1 || i >= k || reqs[i].sector <= reqs[k - 1].sector;
    }
  }

  /** qsort with multiwrite_req_compare. Which of two requests for the same sector comes first is
      not part of the contract. */
  method SortRequests(reqs: array<BlockRequest>)
    modifies reqs
    ensures InOrder(reqs[..]) && multiset(reqs[..]) == multiset(old(reqs[..]))
  {
    var n := 0;
    while n < reqs.Length
      invariant 0 <= n <= reqs.Length
      invariant InOrder(reqs[..n]) && multiset(reqs[..]) == multiset(old(reqs[..]))
    {
      SinkRequest(reqs, n);
      n := n + 1;
    }
    assert reqs[..n] == reqs[..];
  }

  method SinkRequest(reqs: array<BlockRequest>, n: nat)
    requires n < reqs.Length && InOrder(reqs[..n])
    modifies reqs
    ensures InOrder(reqs[..n + 1]) && multiset(reqs[..]) == multiset(old(reqs[..]))
  {
    var k := n;
    assert Sinking(reqs[..], n, n) by {
      assert forall i :: 0 <= i < n ==> reqs[..n][i] == reqs[..][i];
    }
    while k > 0 && reqs[k].sector < reqs[k - 1].sector
      invariant 0 <= k <= n && Sinking(reqs[..], n, k)
      invariant multiset(reqs[..]) == multiset(old(reqs[..]))
    {
      hide InOrder;
      hide Sinking;
      ghost var was := reqs[..];
      SwapSinks(was, n, k);
      SwapKeeps(was, k);
      reqs[k], reqs[k - 1] := reqs[k - 1], reqs[k];
      assert reqs[..] == was[k := was[k - 1]][k - 1 := was[k]];
      k := k - 1;
    }
    SunkIsOrdered(reqs[..], n, k);
    assert reqs[..][..n + 1] == reqs[..n + 1];
  }

  // ----- One merge -----

  lemma FlattenNothing()
    ensures Flatten([]) == []
  {}

  lemma ZerosAre(s: seq<byte>)
    requires forall k :: 0 <= k < |s| ==> s[k] == 0
    ensures s == Zeros(|s|)
  {}

  /** The data of two combined writes, put together in the order in which the source does. */
  lemma CombineBytes(a: Write, b: Write, size: nat)
    requires a.start <= b.start && size == b.start - a.start
    ensures var cut := [] + a.data[..Min(size, |a.data|)];
            Combine(a, b).data == (if size > |a.data| then cut + Zeros(size - |a.data|) else cut) + b.data[..Min(|b.data|, |b.data|)]
  {}

  /** The vector for two requests merged: as much of the first as comes before the second, zeros
      for a gap between them, and the second. */
  method CombineVectors(a: BlockRequest, b: BlockRequest) returns (qiov: IoVector, buf: array?<byte>)
    requires Sound(a) && Sound(b) && a.sector <= b.sector
    ensures fresh(qiov) && qiov.Valid()
    ensures Flatten(qiov.iov) == Combine(View(a), View(b)).data
    ensures qiov.size == (b.sector + b.nbSectors - a.sector) * SECTOR && |qiov.iov| <= |a.qiov.iov| + |b.qiov.iov| + 1
    ensures buf != null <==> b.sector > a.sector + a.nbSectors
    ensures buf != null ==> fresh(buf) && buf[..] == Zeros((b.sector - a.sector - a.nbSectors) * SECTOR)
  {
    hide Flatten;
    hide Combine;
    hide Zeros;
    qiov := new IoVector();
    FlattenNothing();
    CombineBytes(View(a), View(b), (b.sector - a.sector) * SECTOR);
    var oldLast := a.sector + a.nbSectors;
    qiov.Concat(a.qiov, (b.sector - a.sector) * SECTOR);
    if b.sector > oldLast {
      buf := new byte[(b.sector - oldLast) * SECTOR](_ => 0);
      ZerosAre(buf[..]);
      qiov.Add(buf[..]);
    } else {
      buf := null;
    }
    qiov.Concat(b.qiov, b.qiov.size);
  }

  // ----- The whole list -----

  lemma {:induction false} MergedDepends(writes: seq<Write>, m1: seq<bool>, m2: seq<bool>, n: nat)
    requires Sorted(writes) && n <= |writes| == |m1| == |m2| && m1[..n] == m2[..n]
    ensures Merged(writes, m1, n) == Merged(writes, m2, n)
  {
    if n > 0 {
      assert m1[n - 1] == m1[..n][n - 1] == m2[n - 1];
      assert m1[..n - 1] == m1[..n][..n - 1] == m2[..n - 1];
      MergedDepends(writes, m1, m2, n - 1);
    }
  }

  /** How the merged list grows when the decision for write n is taken. */
  lemma MergedGrows(writes: seq<Write>, merge: seq<bool>, n: nat, d: bool, before: seq<Write>)
    requires Sorted(writes) && 0 < n < |writes| == |merge| && before == Merged(writes, merge, n)
    ensures before != [] && before[|before| - 1].start <= writes[n].start
    ensures Merged(writes, merge[n := d], n + 1) ==
            if d then before[..|before| - 1] + [Combine(before[|before| - 1], writes[n])] else before + [writes[n]]
  {
    var now := merge[n := d];
    assert now[..n] == merge[..n];
    MergedDepends(writes, now, merge, n);
    assert writes[n - 1].start <= writes[n].start;
  }

  /** The first requests of the array are the merged list. */
  ghost predicate Holds(reqs: seq<BlockRequest>, merged: seq<Write>)
    reads Vectors(reqs)
  {
    |reqs| == |merged| && forall k :: 0 <= k < |reqs| ==> Sound(reqs[k]) && View(reqs[k]) == merged[k]
  }

  ghost predicate AllSound(reqs: seq<BlockRequest>)
    reads Vectors(reqs)
  {
    forall r :: r in reqs ==> Sound(r)
  }

  /** No vector and no buffer is to be freed twice. */
  ghost predicate FreedOnce(slots: seq<Slot>) {
    forall i, j :: 0 <= i < j < |slots| ==>
      && (slots[i].freeQiov != null ==> slots[i].freeQiov != slots[j].freeQiov)
      && (slots[i].freeBuf != null ==> slots[i].freeBuf != slots[j].freeBuf)
  }

  /** The vector of every request is one of the caller's, or is recorded in a slot. */
  ghost predicate Owned(reqs: seq<BlockRequest>, slots: seq<Slot>, sorted: seq<BlockRequest>) {
    forall k :: 0 <= k < |reqs| ==> OwnedBy(reqs[k].qiov, slots, sorted)
  }

  ghost predicate OwnedBy(qiov: IoVector, slots: seq<Slot>, sorted: seq<BlockRequest>) {
    (exists j :: 0 <= j < |sorted| && sorted[j].qiov == qiov) || (exists j :: 0 <= j < |slots| && slots[j].freeQiov == qiov)
  }

  lemma OwnedGrows(reqs: seq<BlockRequest>, slots: seq<Slot>, sorted: seq<BlockRequest>, i: nat, slot: Slot,
                   r: BlockRequest)
    requires Owned(reqs, slots, sorted) && i < |slots| == |sorted| && slots[i].freeQiov == null
    requires r.qiov == sorted[i].qiov || slot.freeQiov == r.qiov
    ensures Owned(reqs + [r], slots[i := slot], sorted)
    ensures reqs != [] ==> Owned(reqs[..|reqs| - 1] + [r], slots[i := slot], sorted)
  {
    forall k | 0 <= k < |reqs|
      ensures OwnedBy(reqs[k].qiov, slots[i := slot], sorted)
    {
      assert OwnedBy(reqs[k].qiov, slots, sorted);
      if j :| 0 <= j < |slots| && slots[j].freeQiov == reqs[k].qiov {
        assert slots[i := slot][j].freeQiov == reqs[k].qiov;
      }
    }
    if slot.freeQiov == r.qiov {
      assert slots[i := slot][i].freeQiov == r.qiov;
    }
    assert OwnedBy(r.qiov, slots[i := slot], sorted);
  }

  /** Slot i holds a vector if request i was merged among the first n, and a buffer if a gap was
      filled before it. */
  ghost predicate RecordedAt(slot: Slot, writes: seq<Write>, merge: seq<bool>, i: nat, n: nat)
    requires i < |writes| == |merge|
  {
    && (slot.freeQiov != null <==> 0 < i < n && merge[i])
    && (slot.freeBuf != null <==> 0 < i < n && merge[i] && writes[i - 1].End() < writes[i].start)
  }

  ghost predicate Recorded(slots: seq<Slot>, writes: seq<Write>, merge: seq<bool>, n: nat)
    requires |slots| == |writes| == |merge|
  {
    forall i :: 0 <= i < |slots| ==> RecordedAt(slots[i], writes, merge, i, n)
  }

  lemma RecordedGrows(slots: seq<Slot>, writes: seq<Write>, merge: seq<bool>, n: nat, slot: Slot, d: bool)
    requires |slots| == |writes| == |merge| && 0 < n < |slots| && Recorded(slots, writes, merge, n) && FreedOnce(slots)
    requires slot.freeQiov != null <==> d
    requires slot.freeBuf != null <==> d && writes[n - 1].End() < writes[n].start
    requires d ==> forall k :: 0 <= k < n ==> slot.freeQiov != slots[k].freeQiov
    requires slot.freeBuf != null ==> forall k :: 0 <= k < n ==> slot.freeBuf != slots[k].freeBuf
    ensures Recorded(slots[n := slot], writes, merge[n := d], n + 1) && FreedOnce(slots[n := slot])
  {
    var now := slots[n := slot];
    forall i, j | 0 <= i < j < |now|
      ensures now[i].freeQiov != null ==> now[i].freeQiov != now[j].freeQiov
      ensures now[i].freeBuf != null ==> now[i].freeBuf != now[j].freeBuf
    {
      assert i != n ==> now[i] == slots[i];
      assert j > n ==> now[j] == slots[j] && RecordedAt(slots[j], writes, merge, j, n);
    }
  }

  lemma HoldsGrows(reqs: seq<BlockRequest>, before: seq<Write>, r: BlockRequest, w: Write, d: bool)
    requires reqs != [] && Holds(reqs, before) && before[|before| - 1].start <= w.start
    requires Sound(r) && View(r) == if d then Combine(before[|before| - 1], w) else w
    ensures d ==> Holds(reqs[..|reqs| - 1] + [r], before[..|before| - 1] + [Combine(before[|before| - 1], w)])
    ensures !d ==> Holds(reqs + [r], before + [w])
  {}

  lemma SortedIsSound(reqs: seq<BlockRequest>, sorted: seq<BlockRequest>)
    requires AllSound(reqs) && multiset(sorted) == multiset(reqs)
    ensures AllSound(sorted) && |sorted| == |reqs|
  {
    assert |multiset(sorted)| == |multiset(reqs)|;
    forall r | r in sorted
      ensures Sound(r)
    {
      assert r in multiset(sorted);
    }
  }

  lemma ViewsSorted(reqs: seq<BlockRequest>)
    requires InOrder(reqs)
    ensures Sorted(Views(reqs))
  {
    forall i, j | 0 <= i < j < |reqs|
      ensures Views(reqs)[i].start <= Views(reqs)[j].start
    {
      assert reqs[i].sector <= reqs[j].sector;
    }
  }

  /** The slot that records what was allocated to merge request i. */
  ghost predicate SlotFor(slot: Slot, cb: nat, qiov: IoVector, gap: bool) {
    slot.cb == cb && slot.freeQiov == qiov && (slot.freeBuf != null <==> gap)
  }

  /** One turn of the loop: request i is merged into the accumulated one, or becomes it. */
  method MergeOne(hook: MergeHook, reqs: array<BlockRequest>, slots: array<Slot>, outidx: nat, i: nat,
                  ghost held: seq<BlockRequest>, ghost merged: seq<Write>, ghost sorted: seq<BlockRequest>)
    returns (out: nat, merge: bool)
    requires outidx < i < reqs.Length == slots.Length
    requires Sound(reqs[outidx]) && Sound(reqs[i]) && reqs[outidx].sector <= reqs[i].sector
    requires slots[i].freeQiov == null && slots[i].freeBuf == null
    modifies reqs, slots
    ensures merge <==>
      && (old(reqs[i].sector <= reqs[outidx].sector + reqs[outidx].nbSectors)
          || (hook.Some? && hook.value(old(Snap(reqs[outidx])), old(Snap(reqs[i])))))
      && old(|reqs[outidx].qiov.iov| + |reqs[i].qiov.iov| + 1) <= IOV_MAX
    ensures out == (if merge then outidx else outidx + 1) && Sound(reqs[out])
    ensures reqs[..] == old(reqs[..])[out := reqs[out]] && reqs[out].cb == old(reqs[..])[out].cb
    ensures !merge ==> reqs[out].qiov == old(reqs[i].qiov) && View(reqs[out]) == old(View(reqs[i]))
    ensures !merge ==> slots[..] == old(slots[..])
    ensures merge ==> fresh(reqs[out].qiov) && View(reqs[out]) == Combine(old(View(reqs[outidx])), old(View(reqs[i])))
    ensures merge ==> slots[..] == old(slots[..])[i := slots[i]]
    ensures merge ==> SlotFor(slots[i], old(slots[i].cb), reqs[out].qiov,
                              old(View(reqs[outidx]).End()) < old(View(reqs[i]).start))
    ensures merge ==> slots[i].freeBuf == null || fresh(slots[i].freeBuf)
    ensures old(Holds(held, merged)) ==> Holds(held, merged)
    ensures old(AllSound(sorted)) ==> AllSound(sorted)
    ensures old(Views(sorted)) == Views(sorted) && old(Counts(sorted)) == Counts(sorted)
    ensures |reqs[out].qiov.iov| <= old(|reqs[outidx].qiov.iov| + |reqs[i].qiov.iov|) + 1
    ensures |reqs[out].qiov.iov| <= IOV_MAX || (!merge && |reqs[out].qiov.iov| == old(|reqs[i].qiov.iov|))
  {
    hide Combine;
    hide Flatten;
    merge := false;
    var oldLast := reqs[outidx].sector + reqs[outidx].nbSectors;
    if reqs[i].sector <= oldLast {
      merge := true;
    }
    if !merge && hook.Some? {
      merge := hook.value(Snap(reqs[outidx]), Snap(reqs[i]));
    }
    if |reqs[outidx].qiov.iov| + |reqs[i].qiov.iov| + 1 > IOV_MAX {
      merge := false;
    }
    if merge {
      out := outidx;
      var qiov, buf := CombineVectors(reqs[outidx], reqs[i]);
      SizeInSectors(reqs[i].sector + reqs[i].nbSectors - reqs[outidx].sector);
      reqs[outidx] := reqs[outidx].(nbSectors := qiov.size / SECTOR, qiov := qiov);
      slots[i] := slots[i].(freeQiov := qiov, freeBuf := buf);
    } else {
      out := outidx + 1;
      reqs[out] := reqs[out].(sector := reqs[i].sector, nbSectors := reqs[i].nbSectors, qiov := reqs[i].qiov);
    }
  }

  lemma SizeInSectors(n: nat)
    ensures n * SECTOR / SECTOR == n
  {}

  lemma OwnedBegins(sorted: seq<BlockRequest>, slots: seq<Slot>)
    requires sorted != []
    ensures Owned(sorted[..1], slots, sorted)
  {
    assert sorted[0].qiov == sorted[..1][0].qiov;
  }

  lemma MergeBegins(sorted: seq<BlockRequest>, merge: seq<bool>, slots: seq<Slot>)
    requires AllSound(sorted) && InOrder(sorted) && Sorted(Views(sorted)) && 0 < |sorted| == |merge| == |slots|
    requires forall i :: 0 <= i < |slots| ==> slots[i].freeQiov == null && slots[i].freeBuf == null
    ensures Holds(sorted[..1], Merged(Views(sorted), merge, 1))
    ensures Recorded(slots, Views(sorted), merge, 1) && FreedOnce(slots) && Owned(sorted[..1], slots, sorted)
  {
    OwnedBegins(sorted, slots);
    hide Owned;
    assert Merged(Views(sorted), merge, 0) == [];
    assert sorted[0] in sorted;
    assert Merged(Views(sorted), merge, 1) == [] + [View(sorted[0])] == [View(sorted[0])];
  }

  /** The state of the loop before request i is looked at. */
  ghost predicate Progress(reqs: seq<BlockRequest>, slots: seq<Slot>, sorted: seq<BlockRequest>, merge: seq<bool>,
                           outidx: nat, i: nat)
    reads Vectors(reqs), Vectors(sorted)
  {
    && outidx < i <= |reqs| == |sorted| == |slots| == |merge| && reqs[i..] == sorted[i..]
    && AllSound(sorted) && Sorted(Views(sorted)) && Holds(reqs[..outidx + 1], Merged(Views(sorted), merge, i))
    && Recorded(slots, Views(sorted), merge, i) && FreedOnce(slots)
    && Owned(reqs[..outidx + 1], slots, sorted)
  }

  /** What a turn of the loop may assume of the two requests it looks at. */
  lemma TurnReady(reqs: seq<BlockRequest>, slots: seq<Slot>, sorted: seq<BlockRequest>, merge: seq<bool>,
                  outidx: nat, i: nat)
    requires Progress(reqs, slots, sorted, merge, outidx, i) && i < |reqs|
    ensures Sound(reqs[outidx]) && Sound(reqs[i]) && reqs[outidx].sector <= reqs[i].sector
    ensures View(reqs[i]) == Views(sorted)[i] && View(reqs[outidx]) == Merged(Views(sorted), merge, i)[outidx]
    ensures |Merged(Views(sorted), merge, i)| == outidx + 1
    ensures View(reqs[outidx]).End() == Views(sorted)[i - 1].End() && View(reqs[outidx]).start <= Views(sorted)[i].start
    ensures slots[i].freeQiov == null && slots[i].freeBuf == null && |reqs[i].qiov.iov| == Counts(sorted)[i]
    ensures Touches(Views(sorted), i) <==> reqs[i].sector <= reqs[outidx].sector + reqs[outidx].nbSectors
  {
    hide FreedOnce;
    hide Combine;
    assert reqs[i] == reqs[i..][0] == sorted[i..][0] == sorted[i];
    assert sorted[i] in sorted;
    assert reqs[..outidx + 1][outidx] == reqs[outidx];
    assert Views(sorted)[i - 1].start <= Views(sorted)[i].start;
    assert RecordedAt(slots[i], Views(sorted), merge, i, i);
    hide Merged;
    assert View(reqs[outidx]).start <= View(reqs[i]).start;
  }

  /** The state of the loop after request i has been looked at. */
  lemma Progresses(was: seq<BlockRequest>, slotsWas: seq<Slot>, reqs: seq<BlockRequest>, slots: seq<Slot>,
                   sorted: seq<BlockRequest>, merge: seq<bool>, outidx: nat, i: nat, out: nat, d: bool)
    requires outidx < i < |was| == |sorted| == |slotsWas| == |merge| && was[i..] == sorted[i..]
    requires AllSound(sorted) && Sorted(Views(sorted)) && Holds(was[..outidx + 1], Merged(Views(sorted), merge, i))
    requires Recorded(slotsWas, Views(sorted), merge, i) && FreedOnce(slotsWas)
    requires Owned(was[..outidx + 1], slotsWas, sorted) && slotsWas[i].freeQiov == null
    requires out == (if d then outidx else outidx + 1) && |reqs| == |was| && reqs == was[out := reqs[out]]
    requires Sound(reqs[out])
    requires d ==> View(reqs[out]) == Combine(Merged(Views(sorted), merge, i)[outidx], Views(sorted)[i])
    requires !d ==> View(reqs[out]) == Views(sorted)[i]
    requires |slots| == |slotsWas| && slots == slotsWas[i := slots[i]]
    requires reqs[out].qiov == sorted[i].qiov || slots[i].freeQiov == reqs[out].qiov
    requires slots[i].freeQiov != null <==> d
    requires slots[i].freeBuf != null <==> d && Views(sorted)[i - 1].End() < Views(sorted)[i].start
    requires d ==> forall k :: 0 <= k < i ==> slots[i].freeQiov != slotsWas[k].freeQiov
    requires slots[i].freeBuf != null ==> forall k :: 0 <= k < i ==> slots[i].freeBuf != slotsWas[k].freeBuf
    ensures Progress(reqs, slots, sorted, merge[i := d], out, i + 1)
  {
    hide Holds;
    hide Recorded;
    hide FreedOnce;
    hide Merged;
    hide Combine;
    hide View;
    hide AllSound;
    hide Owned;
    hide SlotFor;
    OwnedGrows(was[..outidx + 1], slotsWas, sorted, i, slots[i], reqs[out]);
    var writes := Views(sorted);
    var before := Merged(writes, merge, i);
    MergedGrows(writes, merge, i, d, before);
    HeldLength(was[..outidx + 1], before);
    HoldsGrows(was[..outidx + 1], before, reqs[out], writes[i], d);
    RecordedGrows(slotsWas, writes, merge, i, slots[i], d);
    assert reqs[i + 1..] == sorted[i + 1..] by {
      assert was[i + 1..] == was[i..][1..] && sorted[i + 1..] == sorted[i..][1..];
    }
    assert reqs[..out + 1] == if d then was[..outidx + 1][..outidx] + [reqs[out]] else was[..outidx + 1] + [reqs[out]];
  }

  lemma HeldViews(reqs: seq<BlockRequest>, merged: seq<Write>)
    requires Holds(reqs, merged)
    ensures AllSound(reqs) && Views(reqs) == merged
  {}

  lemma HeldLength(reqs: seq<BlockRequest>, merged: seq<Write>)
    requires Holds(reqs, merged)
    ensures |reqs| == |merged|
  {}

  lemma ProgressEnds(reqs: seq<BlockRequest>, slots: seq<Slot>, sorted: seq<BlockRequest>, merge: seq<bool>,
                     outidx: nat, i: nat)
    requires Progress(reqs, slots, sorted, merge, outidx, i) && i == |reqs|
    ensures |sorted| == |slots| == |merge| == i && Sorted(Views(sorted))
    ensures Holds(reqs[..outidx + 1], Merged(Views(sorted), merge, i))
    ensures Recorded(slots, Views(sorted), merge, i) && FreedOnce(slots) && Owned(reqs[..outidx + 1], slots, sorted)
  {}

  lemma ProgressBounds(reqs: seq<BlockRequest>, slots: seq<Slot>, sorted: seq<BlockRequest>, merge: seq<bool>,
                       outidx: nat, i: nat)
    requires Progress(reqs, slots, sorted, merge, outidx, i)
    ensures outidx < i <= |reqs| == |merge|
  {}

  method Turn(hook: MergeHook, reqs: array<BlockRequest>, slots: array<Slot>, outidx: nat, i: nat,
              ghost sorted: seq<BlockRequest>, ghost merge: seq<bool>)
    returns (out: nat, ghost d: bool)
    requires reqs.Length == slots.Length && i < reqs.Length && i < |merge|
    requires Progress(reqs[..], slots[..], sorted, merge, outidx, i)
    requires outidx < reqs.Length && |sorted| == reqs.Length
    modifies reqs, slots
    ensures Progress(reqs[..], slots[..], sorted, merge[i := d], out, i + 1)
    ensures out < reqs.Length && Views(sorted) == old(Views(sorted)) && Counts(sorted) == old(Counts(sorted))
    ensures |reqs[out].qiov.iov| <= old(|reqs[outidx].qiov.iov|) + Counts(sorted)[i] + 1
    ensures forall k :: 0 <= k < reqs.Length ==> reqs[k].cb == old(reqs[k].cb)
    ensures d ==> hook.Some? || Touches(Views(sorted), i)
    ensures Touches(Views(sorted), i) && old(|reqs[outidx].qiov.iov|) + Counts(sorted)[i] + 1 <= IOV_MAX ==> d
    ensures forall i :: 0 <= i < slots.Length ==> slots[i].cb == old(slots[i].cb)
    ensures old(Short(Counts(reqs[..outidx + 1])) && Short(Counts(sorted))) ==> Short(Counts(reqs[..out + 1]))
  {
    hide Holds;
    hide Recorded;
    hide FreedOnce;
    hide Merged;
    hide Combine;
    hide View;
    hide AllSound;
    hide Sound;
    ghost var was, slotsWas := reqs[..], slots[..];
    ghost var before := Merged(Views(sorted), merge, i);
    TurnReady(was, slotsWas, sorted, merge, outidx, i);
    var merged;
    out, merged := MergeOne(hook, reqs, slots, outidx, i, was[..outidx + 1], before, sorted);
    d := merged;
    Progresses(was, slotsWas, reqs[..], slots[..], sorted, merge, outidx, i, out, d);
    if old(Short(Counts(reqs[..outidx + 1])) && Short(Counts(sorted))) {
      forall k | 0 <= k < out
        ensures |reqs[k].qiov.iov| <= IOV_MAX
      {
        assert reqs[k] == was[k] && old(Counts(reqs[..outidx + 1]))[k] <= IOV_MAX;
      }
    }
  }

  /** Among the first n requests, only those are merged that touch the one before. */
  ghost predicate MergesTouching(writes: seq<Write>, merge: seq<bool>, n: nat)
    requires n <= |writes| == |merge|
  {
    forall i :: 0 < i < n && merge[i] ==> Touches(writes, i)
  }

  /** Among the first n requests, all those are merged that touch the one before. */
  ghost predicate MergesAllTouching(writes: seq<Write>, merge: seq<bool>, n: nat)
    requires n <= |writes| == |merge|
  {
    forall i :: 0 < i < n && Touches(writes, i) ==> merge[i]
  }

  lemma DecisionsGrow(writes: seq<Write>, merge: seq<bool>, n: nat, d: bool)
    requires 0 < n < |writes| == |merge|
    ensures MergesTouching(writes, merge, n) && (d ==> Touches(writes, n)) ==> MergesTouching(writes, merge[n := d], n + 1)
    ensures MergesAllTouching(writes, merge, n) && (Touches(writes, n) ==> d)
      ==> MergesAllTouching(writes, merge[n := d], n + 1)
  {}

  method SortSound(reqs: array<BlockRequest>)
    requires AllSound(reqs[..])
    modifies reqs
    ensures AllSound(reqs[..]) && InOrder(reqs[..]) && multiset(reqs[..]) == multiset(old(reqs[..]))
  {
    SortRequests(reqs);
    SortedIsSound(old(reqs[..]), reqs[..]);
  }

  lemma LoopBegins(sorted: seq<BlockRequest>, merge: seq<bool>, slots: seq<Slot>)
    requires AllSound(sorted) && InOrder(sorted) && |merge| == |slots| == |sorted| > 0
    requires forall i :: 0 <= i < |slots| ==> slots[i].freeQiov == null && slots[i].freeBuf == null
    ensures Progress(sorted, slots, sorted, merge, 0, 1)
    ensures |sorted[0].qiov.iov| == Sum(Counts(sorted), 1)
    ensures MergesTouching(Views(sorted), merge, 1) && MergesAllTouching(Views(sorted), merge, 1)
    ensures Short(Counts(sorted)) ==> Short(Counts(sorted[..0 + 1]))
  {
    ViewsSorted(sorted);
    MergeBegins(sorted, merge, slots);
    assert sorted[..0 + 1] == sorted[..1];
    assert Counts(sorted)[0] == |sorted[0].qiov.iov|;
    assert Sum(Counts(sorted), 1) == Sum(Counts(sorted), 0) + Counts(sorted)[0];
  }

  /** multiwrite_merge: the requests that remain are the merged list of the sorted ones, and every
      vector and buffer allocated on the way is in exactly one slot, those in use included. Callbacks
      are moved by the sort only. */
  method MergeRequests(hook: MergeHook, reqs: array<BlockRequest>, slots: array<Slot>)
    returns (left: nat, ghost sorted: seq<BlockRequest>, ghost merge: seq<bool>)
    requires 0 < reqs.Length == slots.Length && AllSound(reqs[..])
    requires forall i :: 0 <= i < slots.Length ==> slots[i].freeQiov == null && slots[i].freeBuf == null
    modifies reqs, slots
    ensures InOrder(sorted) && multiset(sorted) == multiset(old(reqs[..])) && |sorted| == |merge| == reqs.Length
    ensures Sorted(Views(sorted)) && left <= reqs.Length
    ensures AllSound(reqs[..left]) && Views(reqs[..left]) == Merged(Views(sorted), merge, reqs.Length)
    ensures Recorded(slots[..], Views(sorted), merge, reqs.Length) && FreedOnce(slots[..])
    ensures Owned(reqs[..left], slots[..], sorted)
    ensures forall i :: 0 <= i < reqs.Length ==> reqs[i].cb == sorted[i].cb
    ensures hook.None? ==> MergesTouching(Views(sorted), merge, reqs.Length)
    ensures Sum(Counts(sorted), |sorted|) + |sorted| <= IOV_MAX ==> MergesAllTouching(Views(sorted), merge, reqs.Length)
    ensures forall i :: 0 <= i < slots.Length ==> slots[i].cb == old(slots[i].cb)
    ensures Short(Counts(sorted)) ==> Short(Counts(reqs[..left]))
  {
    hide *;
    SortSound(reqs);
    sorted := reqs[..];
    merge := seq(reqs.Length, _ => false);
    LoopBegins(sorted, merge, slots[..]);
    ghost var writes, counts := Views(sorted), Counts(sorted);
    var outidx, i := 0, 1;
    while i < reqs.Length
      invariant 0 <= i <= reqs.Length && 0 <= outidx
      invariant Progress(reqs[..], slots[..], sorted, merge, outidx, i) && outidx < reqs.Length
      invariant writes == Views(sorted) && counts == Counts(sorted) && |merge| == |writes| == |counts| == reqs.Length
      invariant i > 0 && |reqs[outidx].qiov.iov| <= Sum(counts, i) + i - 1
      invariant |sorted| == reqs.Length && forall k :: 0 <= k < reqs.Length ==> reqs[k].cb == sorted[k].cb
      invariant hook.None? ==> MergesTouching(writes, merge, i)
      invariant Sum(counts, |counts|) + |counts| <= IOV_MAX ==> MergesAllTouching(writes, merge, i)
      invariant forall i :: 0 <= i < slots.Length ==> slots[i].cb == old(slots[i].cb)
      invariant Short(counts) ==> Short(Counts(reqs[..outidx + 1]))
    {
      ProgressBounds(reqs[..], slots[..], sorted, merge, outidx, i);
      ghost var d;
      outidx, d := Turn(hook, reqs, slots, outidx, i, sorted, merge);
      DecisionsGrow(writes, merge, i, d);
      SumNext(counts, i);
      merge := merge[i := d];
      i := i + 1;
    }
    ProgressBounds(reqs[..], slots[..], sorted, merge, outidx, i);
    ProgressEnds(reqs[..], slots[..], sorted, merge, outidx, i);
    left := outidx + 1;
    HeldViews(reqs[..left], Merged(writes, merge, i));
  }

  /** Without a driver that fills gaps, and with no request ending before the one it is merged
      with, the remaining requests leave the same disk as the sorted ones. */
  lemma TouchingMergePreserves(writes: seq<Write>, merge: seq<bool>, disk: Disk, x: nat)
    requires Sorted(writes) && |writes| == |merge| && MergesTouching(writes, merge, |writes|)
    requires forall i :: 0 < i < |writes| && merge[i] ==> writes[i - 1].End() <= writes[i].End()
    ensures After(Merged(writes, merge, |writes|), disk, x) == After(writes, disk, x)
  {
    assert forall i :: 0 < i < |writes| && merge[i] ==> Touches(writes, i);
    OrderedEndsLoseNothing(writes, merge);
    MergePreserves(writes, merge, disk, x);
  }
}
