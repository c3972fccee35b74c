/** multiwrite_merge as a function on write requests, and exactly when submitting its result
    leaves the disk as the sorted requests, applied one after the other, would. */
module MergeSpec {
  import opened Common

  /** A write of `data` at byte position `start` of the disk. */
  datatype Write = Write(start: nat, data: seq<byte>) {
    function End(): nat { start + |data| }
    predicate Covers(x: nat) { start <= x < End() }
  }

  type Disk = nat -> byte

  /** The byte at x after the writes have been applied in order: the last one to cover x wins. */
  function After(writes: seq<Write>, disk: Disk, x: nat): byte {
    if writes == [] then disk(x)
    else
      var last := writes[|writes| - 1];
      if last.Covers(x) then last.data[x - last.start] else After(writes[..|writes| - 1], disk, x)
  }

  predicate Sorted(writes: seq<Write>) {
    forall i, j :: 0 <= i < j < |writes| ==> writes[i].start <= writes[j].start
  }

  function Zeros(n: nat): seq<byte> { seq(n, _ => 0) }

  /** One write for two: the first, cut off where the second starts or filled up with zeros to
      there, followed by the second. */
  function Combine(a: Write, b: Write): (c: Write)
    requires a.start <= b.start
    ensures c.start == a.start && c.End() == b.End()
  {
    var size := b.start - a.start;
    if size <= |a.data| then Write(a.start, a.data[..size] + b.data)
    else Write(a.start, a.data + Zeros(size - |a.data|) + b.data)
  }

  /** The list after the first n writes have been gone over, where merge[i] tells whether write i
      was merged into the write accumulated before it. */
  function Merged(writes: seq<Write>, merge: seq<bool>, n: nat): (r: seq<Write>)
    requires Sorted(writes) && n <= |writes| == |merge|
    ensures n > 0 ==> r != [] && r[|r| - 1].start <= writes[n - 1].start && r[|r| - 1].End() == writes[n - 1].End()
    ensures |r| <= n
  {
    if n == 0 then []
    else
      var before := Merged(writes, merge, n - 1);
      if n > 1 && merge[n - 1] then before[..|before| - 1] + [Combine(before[|before| - 1], writes[n - 1])]
      else before + [writes[n - 1]]
  }

  /** Position x lies in the zeros that are filled in before write i. */
  predicate InGap(writes: seq<Write>, merge: seq<bool>, i: nat, x: nat)
    requires 0 < i < |writes| == |merge|
  {
    merge[i] && writes[i - 1].End() <= x < writes[i].start
  }

  /** Position x lies in the end of write i - 1 that is cut off because write i ends before it. */
  predicate InCut(writes: seq<Write>, merge: seq<bool>, i: nat, x: nat)
    requires 0 < i < |writes| == |merge|
  {
    merge[i] && writes[i].End() <= x < writes[i - 1].End()
  }

  /** Some write from index i up to, but not including, index j covers x. */
  predicate Covered(writes: seq<Write>, i: nat, j: nat, x: nat)
    requires j <= |writes|
  {
    exists k :: i <= k < j && writes[k].Covers(x)
  }

  /** Merging write i wipes out what an earlier write put at x. */
  predicate Wipes(writes: seq<Write>, merge: seq<bool>, i: nat, x: nat)
    requires 0 < i < |writes| == |merge|
  {
    InCut(writes, merge, i, x) || (InGap(writes, merge, i, x) && Covered(writes, 0, i, x))
  }

  /** Nothing that merging wipes out goes without a later write. This depends on the positions
      and lengths of the writes only. */
  ghost predicate NothingLost(writes: seq<Write>, merge: seq<bool>)
    requires |writes| == |merge|
  {
    forall i, x: nat :: 0 < i < |writes| && Wipes(writes, merge, i, x) ==> Covered(writes, i + 1, |writes|, x)
  }

  /** The gaps that are filled with zeros hold zeros on the disk, as unallocated space does. */
  ghost predicate GapsAreZero(writes: seq<Write>, merge: seq<bool>, disk: Disk)
    requires |writes| == |merge|
  {
    forall i, x: nat :: 0 < i < |writes| && InGap(writes, merge, i, x) ==> disk(x) == 0
  }

  lemma AfterSnoc(writes: seq<Write>, w: Write, disk: Disk, x: nat)
    ensures After(writes + [w], disk, x) == if w.Covers(x) then w.data[x - w.start] else After(writes, disk, x)
  {
    assert (writes + [w])[..|writes|] == writes;
  }

  lemma {:induction false} AfterUncovered(writes: seq<Write>, disk: Disk, x: nat)
    requires !Covered(writes, 0, |writes|, x)
    ensures After(writes, disk, x) == disk(x)
  {
    if writes != [] {
      var n := |writes| - 1;
      assert !writes[n].Covers(x);
      forall k | 0 <= k < n
        ensures !writes[..n][k].Covers(x)
      {
        assert writes[..n][k] == writes[k];
      }
      AfterUncovered(writes[..n], disk, x);
    }
  }

  lemma CombineAt(a: Write, b: Write, x: nat)
    requires a.start <= b.start
    ensures var c := Combine(a, b);
      && c.start == a.start && c.End() == b.End()
      && (c.Covers(x) <==> a.start <= x < b.End())
      && (b.Covers(x) ==> c.data[x - c.start] == b.data[x - b.start])
      && (a.start <= x < b.start ==> c.data[x - c.start] == if a.Covers(x) then a.data[x - a.start] else 0)
  {}

  /** One step of the merge, seen at one position. */
  lemma MergedStep(writes: seq<Write>, merge: seq<bool>, n: nat, disk: Disk, x: nat)
    requires Sorted(writes) && 0 < n <= |writes| == |merge|
    ensures var before := Merged(writes, merge, n - 1);
            var now := After(Merged(writes, merge, n), disk, x);
            var w := writes[n - 1];
      && (w.Covers(x) ==> now == w.data[x - w.start])
      && (!w.Covers(x) && (n == 1 || !merge[n - 1]) ==> now == After(before, disk, x))
      && (!w.Covers(x) && n > 1 && merge[n - 1] ==>
            var acc := before[|before| - 1];
            now == if x < acc.start || w.End() <= x then After(before[..|before| - 1], disk, x)
                   else if acc.Covers(x) then acc.data[x - acc.start] else 0)
  {
    var before := Merged(writes, merge, n - 1);
    var w := writes[n - 1];
    if n > 1 && merge[n - 1] {
      var acc := before[|before| - 1];
      assert writes[n - 2].start <= w.start;
      CombineAt(acc, w, x);
      AfterSnoc(before[..|before| - 1], Combine(acc, w), disk, x);
    } else {
      AfterSnoc(before, w, disk, x);
    }
  }

  // ----- Nothing lost: the merged writes leave the same disk -----

  /** Position x was wiped out at some step before n and not written since. */
  ghost predicate WipedAt(writes: seq<Write>, merge: seq<bool>, n: nat, x: nat)
    requires n <= |writes| == |merge|
  {
    exists i :: 0 < i < n && Wipes(writes, merge, i, x) && !Covered(writes, i + 1, n, x)
  }

  lemma WipedNow(writes: seq<Write>, merge: seq<bool>, n: nat, x: nat)
    requires 1 < n <= |writes| == |merge| && Wipes(writes, merge, n - 1, x)
    ensures WipedAt(writes, merge, n, x)
  {
    assert !Covered(writes, n, n, x);
  }

  lemma WipedStays(writes: seq<Write>, merge: seq<bool>, n: nat, x: nat)
    requires 0 < n <= |writes| == |merge| && WipedAt(writes, merge, n - 1, x) && !writes[n - 1].Covers(x)
    ensures WipedAt(writes, merge, n, x)
  {
    var i :| 0 < i < n - 1 && Wipes(writes, merge, i, x) && !Covered(writes, i + 1, n - 1, x);
    assert !Covered(writes, i + 1, n, x);
  }

  lemma UncoveredPrefix(writes: seq<Write>, n: nat, disk: Disk, x: nat)
    requires n <= |writes| && !Covered(writes, 0, n, x)
    ensures After(writes[..n], disk, x) == disk(x)
  {
    forall k | 0 <= k < n
      ensures !writes[..n][k].Covers(x)
    {
      assert writes[..n][k] == writes[k];
    }
    AfterUncovered(writes[..n], disk, x);
  }

  /** After every step, a position holds what the writes so far leave there, unless it was wiped out. */
  lemma {:induction false} MergedAgrees(writes: seq<Write>, merge: seq<bool>, n: nat, disk: Disk, x: nat)
    requires Sorted(writes) && n <= |writes| == |merge| && GapsAreZero(writes, merge, disk)
    ensures After(Merged(writes, merge, n), disk, x) == After(writes[..n], disk, x) || WipedAt(writes, merge, n, x)
  {
    hide WipedAt;
    hide Merged;
    hide GapsAreZero;
    if n == 0 {
      NoneMerged(writes, merge);
    } else {
      MergedAgrees(writes, merge, n - 1, disk, x);
      MergedStep(writes, merge, n, disk, x);
      var w := writes[n - 1];
      assert writes[..n] == writes[..n - 1] + [w];
      AfterSnoc(writes[..n - 1], w, disk, x);
      if !w.Covers(x) {
        if WipedAt(writes, merge, n - 1, x) {
          WipedStays(writes, merge, n, x);
        } else if n > 1 && merge[n - 1] {
          AgreesAfterMerge(writes, merge, n, disk, x);
        }
      }
    }
  }

  lemma NoneMerged(writes: seq<Write>, merge: seq<bool>)
    requires Sorted(writes) && |writes| == |merge|
    ensures Merged(writes, merge, 0) == writes[..0]
  {}

  lemma AgreesAfterMerge(writes: seq<Write>, merge: seq<bool>, n: nat, disk: Disk, x: nat)
    requires Sorted(writes) && 1 < n <= |writes| == |merge| && GapsAreZero(writes, merge, disk)
    requires merge[n - 1] && !writes[n - 1].Covers(x)
    requires After(Merged(writes, merge, n - 1), disk, x) == After(writes[..n - 1], disk, x)
    ensures After(Merged(writes, merge, n), disk, x) == After(writes[..n - 1], disk, x) || WipedAt(writes, merge, n, x)
  {
    hide WipedAt;
    MergedStep(writes, merge, n, disk, x);
    hide Merged;
    var before := Merged(writes, merge, n - 1);
    var acc, w := before[|before| - 1], writes[n - 1];
    assert before == before[..|before| - 1] + [acc];
    AfterSnoc(before[..|before| - 1], acc, disk, x);
    if Wipes(writes, merge, n - 1, x) {
      WipedNow(writes, merge, n, x);
    } else if InGap(writes, merge, n - 1, x) {
      UncoveredPrefix(writes, n - 1, disk, x);
    }
  }

  /** Submitting the merged writes leaves the same disk as the sorted originals in order, whenever
      nothing is lost and gaps are filled over zeros. */
  lemma MergePreserves(writes: seq<Write>, merge: seq<bool>, disk: Disk, x: nat)
    requires Sorted(writes) && |writes| == |merge| && NothingLost(writes, merge) && GapsAreZero(writes, merge, disk)
    ensures After(Merged(writes, merge, |writes|), disk, x) == After(writes, disk, x)
  {
    MergedAgrees(writes, merge, |writes|, disk, x);
    assert writes[..|writes|] == writes;
  }

  // ----- Something lost: some data tells the two apart -----

  predicate SameLayout(v: seq<Write>, w: seq<Write>) {
    |v| == |w| && forall k :: 0 <= k < |v| ==> v[k].start == w[k].start && |v[k].data| == |w[k].data|
  }

  predicate AllZero(writes: seq<Write>) {
    forall k, j :: 0 <= k < |writes| && 0 <= j < |writes[k].data| ==> writes[k].data[j] == 0
  }

  /** The same writes, with ones for the data of write k and zeros for that of all others. */
  function Tagged(writes: seq<Write>, k: nat): (r: seq<Write>)
    ensures |r| == |writes| && SameLayout(writes, r)
  {
    seq(|writes|, j requires 0 <= j < |writes| =>
      Write(writes[j].start, seq(|writes[j].data|, _ => if j == k then 1 else 0)))
  }

  lemma SameCovered(v: seq<Write>, w: seq<Write>, i: nat, j: nat, x: nat)
    requires SameLayout(v, w) && j <= |v|
    ensures Covered(v, i, j, x) <==> Covered(w, i, j, x)
  {
    assert forall k :: 0 <= k < |v| ==> (v[k].Covers(x) <==> w[k].Covers(x));
  }

  lemma SameWipes(v: seq<Write>, w: seq<Write>, merge: seq<bool>, i: nat, x: nat)
    requires SameLayout(v, w) && 0 < i < |v| == |merge|
    ensures Wipes(v, merge, i, x) <==> Wipes(w, merge, i, x)
    ensures InCut(v, merge, i, x) <==> InCut(w, merge, i, x)
  {
    SameCovered(v, w, 0, i, x);
    hide Covered;
    assert v[i].End() == w[i].End() && v[i - 1].End() == w[i - 1].End() && v[i].start == w[i].start;
  }

  lemma SameLoss(v: seq<Write>, w: seq<Write>, merge: seq<bool>)
    requires SameLayout(v, w) && |v| == |merge| && NothingLost(v, merge)
    ensures NothingLost(w, merge)
  {
    forall i, x: nat | 0 < i < |w| && Wipes(w, merge, i, x)
      ensures Covered(w, i + 1, |w|, x)
    {
      SameWipes(v, w, merge, i, x);
      SameCovered(v, w, i + 1, |w|, x);
    }
  }

  lemma AllZeroSnoc(writes: seq<Write>, w: Write)
    ensures AllZero(writes + [w]) <==> AllZero(writes) && forall j :: 0 <= j < |w.data| ==> w.data[j] == 0
  {
    var all := writes + [w];
    assert all[|writes|] == w;
    assert forall k :: 0 <= k < |writes| ==> all[k] == writes[k];
  }

  lemma {:induction false} MergedZero(writes: seq<Write>, merge: seq<bool>, n: nat)
    requires Sorted(writes) && n <= |writes| == |merge| && AllZero(writes[..n])
    ensures AllZero(Merged(writes, merge, n))
  {
    hide AllZero;
    if n == 0 {
      assert Merged(writes, merge, 0) == writes[..0];
    } else {
      var before, w := Merged(writes, merge, n - 1), writes[n - 1];
      assert writes[..n] == writes[..n - 1] + [w];
      AllZeroSnoc(writes[..n - 1], w);
      MergedZero(writes, merge, n - 1);
      AllZeroSnoc(before, w);
      if n > 1 && merge[n - 1] {
        var front, acc := before[..|before| - 1], before[|before| - 1];
        assert before == front + [acc];
        AllZeroSnoc(front, acc);
        AllZeroSnoc(front, Combine(acc, w));
      }
    }
  }

  /** What the writes before the accumulated one leave at x is zero, if all writes before the last are. */
  lemma FrontIsZero(writes: seq<Write>, merge: seq<bool>, n: nat, x: nat)
    requires Sorted(writes) && 0 < n <= |writes| == |merge| && AllZero(writes[..n - 1])
    ensures var m := Merged(writes, merge, n); After(m[..|m| - 1], _ => 0, x) == 0
  {
    hide AllZero;
    var before, m := Merged(writes, merge, n - 1), Merged(writes, merge, n);
    MergedZero(writes, merge, n - 1);
    if n > 1 && merge[n - 1] {
      var front := before[..|before| - 1];
      assert before == front + [before[|before| - 1]];
      AllZeroSnoc(front, before[|before| - 1]);
      assert m[..|m| - 1] == front;
    } else {
      assert m[..|m| - 1] == before;
    }
    AfterZero(m[..|m| - 1], x);
  }

  lemma {:induction false} AfterZero(writes: seq<Write>, x: nat)
    requires AllZero(writes)
    ensures After(writes, _ => 0, x) == 0
  {
    if writes != [] {
      AfterZero(writes[..|writes| - 1], x);
    }
  }

  /** Position x reads as zero after the first n writes have been merged, and stays so as long
      as no write covers it: the write it is read from, if it is the accumulated one, cannot be
      cut there any more. */
  ghost predicate StuckAtZero(writes: seq<Write>, merge: seq<bool>, n: nat, x: nat)
    requires Sorted(writes) && 0 < n <= |writes| == |merge|
  {
    var m := Merged(writes, merge, n);
    && After(m, _ => 0, x) == 0
    && (m[|m| - 1].Covers(x) ==> x < writes[n - 1].start)
  }

  lemma LastMerged(writes: seq<Write>, merge: seq<bool>, n: nat)
    requires Sorted(writes) && 0 < n < |writes| == |merge|
    ensures var before, now := Merged(writes, merge, n), Merged(writes, merge, n + 1);
      && before[|before| - 1].start <= writes[n].start
      && now[|now| - 1] == if merge[n] then Combine(before[|before| - 1], writes[n]) else writes[n]
  {
    assert writes[n - 1].start <= writes[n].start;
  }

  lemma StuckStep(writes: seq<Write>, merge: seq<bool>, n: nat, x: nat)
    requires Sorted(writes) && 0 < n < |writes| == |merge|
    requires StuckAtZero(writes, merge, n, x) && !writes[n].Covers(x)
    ensures StuckAtZero(writes, merge, n + 1, x)
  {
    hide After;
    hide Combine;
    hide Merged;
    MergedStep(writes, merge, n + 1, _ => 0, x);
    LastMerged(writes, merge, n);
    var before := Merged(writes, merge, n);
    var acc, w := before[|before| - 1], writes[n];
    assert before == before[..|before| - 1] + [acc];
    AfterSnoc(before[..|before| - 1], acc, _ => 0, x);
    assert writes[n - 1].start <= w.start;
    CombineAt(acc, w, x);
  }

  lemma {:induction false} StuckToTheEnd(writes: seq<Write>, merge: seq<bool>, n: nat, x: nat)
    requires Sorted(writes) && 0 < n <= |writes| == |merge|
    requires StuckAtZero(writes, merge, n, x) && !Covered(writes, n, |writes|, x)
    ensures StuckAtZero(writes, merge, |writes|, x)
    decreases |writes| - n
  {
    if n < |writes| {
      assert !writes[n].Covers(x);
      StuckStep(writes, merge, n, x);
      StuckToTheEnd(writes, merge, n + 1, x);
    }
  }

  /** The step that wipes x out leaves it at zero, when only the write that covers x last is not zero. */
  lemma WipedIsStuck(writes: seq<Write>, merge: seq<bool>, i: nat, x: nat)
    requires Sorted(writes) && 0 < i < |writes| == |merge| && Wipes(writes, merge, i, x)
    requires InCut(writes, merge, i, x) ==> AllZero(writes[..i - 1])
    ensures StuckAtZero(writes, merge, i + 1, x)
  {
    MergedStep(writes, merge, i + 1, _ => 0, x);
    var before, now := Merged(writes, merge, i), Merged(writes, merge, i + 1);
    var acc, w := before[|before| - 1], writes[i];
    assert now[|now| - 1] == Combine(acc, w);
    assert writes[i - 1].start <= w.start;
    CombineAt(acc, w, x);
    if InCut(writes, merge, i, x) {
      FrontIsZero(writes, merge, i, x);
    } else {
      assert !acc.Covers(x) && acc.start <= x < w.start;
    }
  }

  lemma {:induction false} LastCovering(writes: seq<Write>, n: nat, x: nat) returns (k: nat)
    requires n <= |writes| && Covered(writes, 0, n, x)
    ensures k < n && writes[k].Covers(x) && !Covered(writes, k + 1, n, x)
  {
    if writes[n - 1].Covers(x) {
      k := n - 1;
    } else {
      k := LastCovering(writes, n - 1, x);
    }
  }

  lemma {:induction false} AfterLast(writes: seq<Write>, k: nat, n: nat, disk: Disk, x: nat)
    requires k < n <= |writes| && writes[k].Covers(x) && !Covered(writes, k + 1, n, x)
    ensures After(writes[..n], disk, x) == writes[k].data[x - writes[k].start]
  {
    assert writes[..n] == writes[..n - 1] + [writes[n - 1]];
    AfterSnoc(writes[..n - 1], writes[n - 1], disk, x);
    if k < n - 1 {
      AfterLast(writes, k, n - 1, disk, x);
    }
  }

  /** If something is lost, there are data for the same positions and lengths, and a disk of
      zeros, on which the merged writes and the originals differ. */
  lemma LossShows(writes: seq<Write>, merge: seq<bool>) returns (v: seq<Write>, x: nat)
    requires Sorted(writes) && |writes| == |merge| && !NothingLost(writes, merge)
    ensures SameLayout(writes, v) && Sorted(v) && GapsAreZero(v, merge, _ => 0)
    ensures After(Merged(v, merge, |v|), _ => 0, x) == 0 && After(v, _ => 0, x) == 1
  {
    var i, y: nat :| 0 < i < |writes| && Wipes(writes, merge, i, y) && !Covered(writes, i + 1, |writes|, y);
    x := y;
    WipedIsCovered(writes, merge, i, x);
    var k := LastCovering(writes, i, x);
    NotCoveredSince(writes, i, k, x);
    v := Tagged(writes, k);
    hide *;
    TaggedShows(writes, merge, i, k, x);
    ZeroDisk(v, merge);
  }

  lemma ZeroDisk(writes: seq<Write>, merge: seq<bool>)
    requires |writes| == |merge|
    ensures GapsAreZero(writes, merge, _ => 0)
  {}

  lemma NotCoveredSince(writes: seq<Write>, i: nat, k: nat, x: nat)
    requires k < i < |writes| && !writes[i].Covers(x) && !Covered(writes, i + 1, |writes|, x)
    requires !Covered(writes, k + 1, i, x)
    ensures !Covered(writes, k + 1, |writes|, x) && !Covered(writes, i + 1, |writes|, x)
  {}

  lemma WipedIsCovered(writes: seq<Write>, merge: seq<bool>, i: nat, x: nat)
    requires Sorted(writes) && 0 < i < |writes| == |merge| && Wipes(writes, merge, i, x)
    ensures Covered(writes, 0, i, x) && !writes[i].Covers(x)
    ensures InCut(writes, merge, i, x) ==> writes[i - 1].Covers(x)
  {
    assert writes[i - 1].start <= writes[i].start;
    if InCut(writes, merge, i, x) {
      assert writes[i - 1].Covers(x);
    }
  }

  lemma TaggedKeepsOrder(writes: seq<Write>, k: nat)
    requires Sorted(writes)
    ensures Sorted(Tagged(writes, k)) && AllZero(Tagged(writes, k)[..if k <= |writes| then k else 0])
  {}

  lemma TaggedShows(writes: seq<Write>, merge: seq<bool>, i: nat, k: nat, x: nat)
    requires Sorted(writes) && 0 < i < |writes| == |merge| && Wipes(writes, merge, i, x)
    requires k < i && writes[k].Covers(x) && !Covered(writes, k + 1, |writes|, x) && !Covered(writes, i + 1, |writes|, x)
    requires InCut(writes, merge, i, x) ==> k == i - 1
    ensures var v := Tagged(writes, k);
            Sorted(v) && After(Merged(v, merge, |v|), _ => 0, x) == 0 && After(v, _ => 0, x) == 1
  {
    hide *;
    var v := Tagged(writes, k);
    TaggedKeepsOrder(writes, k);
    SameWipes(writes, v, merge, i, x);
    SameCovered(writes, v, i + 1, |v|, x);
    LossStays(v, merge, i, x);
    TaggedReadsOne(writes, k, x);
  }

  lemma TaggedReadsOne(writes: seq<Write>, k: nat, x: nat)
    requires k < |writes| && writes[k].Covers(x) && !Covered(writes, k + 1, |writes|, x)
    ensures After(Tagged(writes, k), _ => 0, x) == 1
  {
    var v := Tagged(writes, k);
    assert v[k].Covers(x) && v[k].data[x - v[k].start] == 1;
    SameCovered(writes, v, k + 1, |v|, x);
    hide *;
    AfterLast(v, k, |v|, _ => 0, x);
    assert v[..|v|] == v;
  }

  lemma LossStays(writes: seq<Write>, merge: seq<bool>, i: nat, x: nat)
    requires Sorted(writes) && 0 < i < |writes| == |merge| && Wipes(writes, merge, i, x)
    requires !Covered(writes, i + 1, |writes|, x)
    requires InCut(writes, merge, i, x) ==> AllZero(writes[..i - 1])
    ensures After(Merged(writes, merge, |writes|), _ => 0, x) == 0
  {
    hide *;
    WipedIsStuck(writes, merge, i, x);
    StuckToTheEnd(writes, merge, i + 1, x);
    StuckReadsZero(writes, merge, |writes|, x);
  }

  lemma StuckReadsZero(writes: seq<Write>, merge: seq<bool>, n: nat, x: nat)
    requires Sorted(writes) && 0 < n <= |writes| == |merge| && StuckAtZero(writes, merge, n, x)
    ensures After(Merged(writes, merge, n), _ => 0, x) == 0
  {}

  /** The merged writes leave the same disk as the originals, for all data and all disks on which
      the gaps are zero, if and only if nothing is lost. */
  lemma MergeExact(writes: seq<Write>, merge: seq<bool>)
    requires Sorted(writes) && |writes| == |merge|
    ensures NothingLost(writes, merge) <==>
            forall v: seq<Write>, disk: Disk, x: nat :: SameLayout(writes, v) && Sorted(v) && GapsAreZero(v, merge, disk)
              ==> After(Merged(v, merge, |v|), disk, x) == After(v, disk, x)
  {
    if NothingLost(writes, merge) {
      forall v: seq<Write>, disk: Disk, x: nat | SameLayout(writes, v) && Sorted(v) && GapsAreZero(v, merge, disk)
        ensures After(Merged(v, merge, |v|), disk, x) == After(v, disk, x)
      {
        SameLoss(writes, v, merge);
        MergePreserves(v, merge, disk, x);
      }
    } else {
      var v, x := LossShows(writes, merge);
    }
  }

  /** The simplest way to lose nothing: no merged write ends before the write it is merged with,
      and no gap reaches back over an earlier write. */
  lemma OrderedEndsLoseNothing(writes: seq<Write>, merge: seq<bool>)
    requires Sorted(writes) && |writes| == |merge|
    requires forall i :: 0 < i < |writes| && merge[i] ==> writes[i - 1].End() <= writes[i].End()
    requires forall i, k :: 0 <= k < i < |writes| && merge[i] && writes[i - 1].End() < writes[i].start ==>
      writes[k].End() <= writes[i - 1].End()
    ensures NothingLost(writes, merge)
  {}

  /** The merge does lose data: a long write followed by a short one inside it. */
  lemma MergeLoses()
    ensures var writes := [Write(0, [1, 2]), Write(0, [3])];
            Sorted(writes) && !NothingLost(writes, [false, true])
            && After(Merged(writes, [false, true], 2), _ => 0, 1) == 0 && After(writes, _ => 0, 1) == 2
  {
    ShortOverLong(Write(0, [1, 2]), Write(0, [3]), 1);
  }

  /** Of two writes that start together, the merged list keeps the second only. */
  lemma ShortOverLong(a: Write, b: Write, x: nat)
    requires a.start == b.start && b.End() <= x < a.End()
    ensures Sorted([a, b]) && !NothingLost([a, b], [false, true])
    ensures After(Merged([a, b], [false, true], 2), _ => 0, x) == 0
    ensures After([a, b], _ => 0, x) == a.data[x - a.start]
  {
    var writes := [a, b];
    assert writes[0] == a && writes[1] == b;
    var before := Merged(writes, [false, true], 1);
    assert Merged(writes, [false, true], 0) == [];
    assert before == [a];
    assert a.data[..0] + b.data == b.data;
    assert Combine(a, b) == b;
    assert Merged(writes, [false, true], 2) == [b];
    assert Wipes(writes, [false, true], 1, x) && !Covered(writes, 2, 2, x);
    hide *;
    LastOfTwo(a, b, x);
  }

  lemma LastOfTwo(a: Write, b: Write, x: nat)
    requires !b.Covers(x) && a.Covers(x)
    ensures After([b], _ => 0, x) == 0 && After([a, b], _ => 0, x) == a.data[x - a.start]
  {
    AfterSnoc([], b, _ => 0, x);
    AfterSnoc([a], b, _ => 0, x);
    AfterSnoc([], a, _ => 0, x);
    assert [a] + [b] == [a, b] && [] + [a] == [a] && [] + [b] == [b];
  }
}
