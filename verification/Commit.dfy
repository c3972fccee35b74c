/** bdrv_commit: copying an overlay into its backing image, under the contracts of its driver. */
module Commit {
  import opened Common
  import opened Errno

  const COMMIT_BUF_SECTORS: nat := 2048

  type Sector = seq<byte>

  /** An overlay of `total` sectors over a backing image that may be shorter. Backing sectors that
      do not exist read as `zero`. Its drivers may fail at any time unless they are reliable. */
  class Overlay {
    var own: map<nat, Sector>
    var backing: seq<Sector>
    var driver: bool
    const total: nat
    const zero: Sector
    const reliable: bool

    constructor (total: nat, zero: Sector, backing: seq<Sector>, reliable: bool)
      ensures this.total == total && this.zero == zero && this.backing == backing && own == map[] && driver
      ensures this.reliable == reliable
    {
      this.total, this.zero, this.backing, this.reliable := total, zero, backing, reliable;
      own, driver := map[], true;
    }

    /** Every sector of the overlay's own has its place in the backing image. */
    predicate Fits()
      reads this
    {
      forall x :: x in own && x < total ==> x < |backing|
    }

    /** The backing image by itself reads as the guest's view. */
    ghost predicate Holds()
      reads this
    {
      forall x: nat :: x < total ==> BackingAt(x) == View(x)
    }

    function BackingAt(x: nat): Sector
      reads this
    {
      if x < |backing| then backing[x] else zero
    }

    /** What the guest reads. */
    function View(x: nat): Sector
      reads this
    {
      if x in own then own[x] else BackingAt(x)
    }

    /** The driver's bdrv_is_allocated: the state of a sector and the length of a run, positive and
        inside the image, that shares it. */
    method IsAllocated(sector: nat, max: nat) returns (flag: bool, n: nat)
      requires sector < total && 0 < max
      ensures 0 < n <= max && sector + n <= total
      ensures forall x :: sector <= x < sector + n ==> (x in own <==> flag)
    {
      flag, n := sector in own, 1;
      while n < max && sector + n < total && (sector + n in own) == flag
        invariant 0 < n <= max && sector + n <= total
        invariant forall x :: sector <= x < sector + n ==> (x in own <==> flag)
      {
        if * {
          return;
        }
        n := n + 1;
      }
    }

    /** bdrv_read on the overlay. */
    method Read(sector: nat, n: nat) returns (ret: int, buf: seq<Sector>)
      requires sector + n <= total
      ensures ret <= 0 && (reliable ==> ret == 0)
      ensures ret == 0 ==> |buf| == n && forall k :: 0 <= k < n ==> buf[k] == View(sector + k)
    {
      if !reliable {
        if * {
          return -EIO, [];
        }
      }
      ret, buf := 0, seq(n, k requires 0 <= k reads this => View(sector + k));
    }

    /** bdrv_write on the backing image: refused when it reaches beyond the end, and otherwise
        complete, or failed with any of the sectors written. */
    method WriteBacking(sector: nat, buf: seq<Sector>) returns (ret: int)
      modifies this`backing
      ensures ret <= 0 && |backing| == |old(backing)|
      ensures reliable && sector + |buf| <= |backing| ==> ret == 0
      ensures ret == 0 ==> sector + |buf| <= |backing| && forall k :: 0 <= k < |buf| ==> backing[sector + k] == buf[k]
      ensures forall x :: 0 <= x < |backing| && !(sector <= x < sector + |buf|) ==> backing[x] == old(backing[x])
    {
      if sector + |buf| > |backing| {
        return -EIO;
      }
      for k := 0 to |buf|
        invariant |backing| == |old(backing)|
        invariant forall j :: 0 <= j < k ==> backing[sector + j] == buf[j]
        invariant forall x :: 0 <= x < |backing| && !(sector <= x < sector + k) ==> backing[x] == old(backing[x])
      {
        if !reliable {
          if * {
            return -EIO;
          }
        }
        backing := backing[sector + k := buf[k]];
      }
      return 0;
    }

    /** The driver's bdrv_make_empty: forgets sectors of the overlay, all of them or, on failure or
        when the format does not support it, only some. */
    method MakeEmpty() returns (ret: int)
      modifies this`own
      ensures own.Keys <= old(own.Keys) && forall x :: x in own ==> own[x] == old(own[x])
      ensures reliable ==> ret == 0 && own == map[]
    {
      var done := reliable;
      if * {
        done := true;
      }
      if done {
        own := map[];
        return 0;
      }
      var keep: set<nat> := *;
      own := map x | x in own && x in keep :: own[x];
      ret := *;
    }

    /** The copy loop. The guest's view never changes, whether or not it gets to the end; when it
        does, the backing image holds all of it. With reliable drivers it gets to the end exactly
        when the overlay's own sectors fit into the backing image. */
    method CopyLoop() returns (ret: int)
      modifies this`backing
      ensures (ret == 0 || ret == -EIO) && |backing| == |old(backing)|
      ensures forall x: nat :: View(x) == old(View(x))
      ensures ret == 0 ==> Holds() && old(Fits())
      ensures reliable && old(Fits()) ==> ret == 0
    {
      var sector := 0;
      while sector < total
        invariant sector <= total && |backing| == |old(backing)|
        invariant forall x: nat :: View(x) == old(View(x))
        invariant forall x: nat :: x < sector ==> BackingAt(x) == View(x)
        invariant forall x: nat :: x < sector && x in own ==> x < |backing|
        decreases total - sector
      {
        var flag, n := IsAllocated(sector, COMMIT_BUF_SECTORS);
        if flag {
          var buf;
          ret, buf := Read(sector, n);
          if ret != 0 {
            return -EIO;
          }
          assert sector + n - 1 in own;
          label Before:
          ret := WriteBacking(sector, buf);
          forall x: nat
            ensures View(x) == old@Before(View(x))
          {
            assert x < |backing| && !(sector <= x < sector + n) ==> backing[x] == old@Before(backing[x]);
          }
          if ret != 0 {
            return -EIO;
          }
          forall x: nat | sector <= x < sector + n
            ensures BackingAt(x) == View(x)
          {
            assert backing[sector + (x - sector)] == buf[x - sector];
          }
        }
        sector := sector + n;
      }
      assert forall x :: x in own && x < total ==> x < |old(backing)|;
      return 0;
    }

    /** bdrv_commit. `keepReadOnly` and `readOnly` describe the backing image; reopenRw, fallback
        and reopenRo are what bdrv_open returns at its three calls; `copied` and `emptied` are how the
        copy loop and make_empty ended, as far as they were reached. The guest's view never changes. Whenever the copying went well, the
        backing image holds the view, be it reopened read-only or not, and with reliable drivers it
        goes well exactly when the overlay's own sectors fit. With a writable image the result tells
        of it. With one that has to be reopened read-only, the result of that reopening takes its
        place, so that success is reported however the copying went. The driver is lost exactly when
        a reopening for reading fails. */
    method Commit(hasBacking: bool, keepReadOnly: bool, readOnly: bool, reopenRw: int, fallback: int,
                  reopenRo: int, emptying: bool)
      returns (ret: int, ghost copied: int, ghost emptied: int)
      modifies this`backing, this`own, this`driver
      ensures forall x: nat :: x < total ==> View(x) == old(View(x))
      ensures old(!driver) ==> ret == -ENOMEDIUM && !driver
      ensures old(driver) && !hasBacking ==> ret == -ENOTSUP
      ensures old(driver) && hasBacking && keepReadOnly ==> ret == -EACCES
      ensures old(driver) && (!hasBacking || keepReadOnly) ==> driver && backing == old(backing) && own == old(own)
      ensures old(driver) && hasBacking && !keepReadOnly && readOnly && reopenRw < 0 ==>
        && (ret == if fallback < 0 then fallback else reopenRw)
        && (driver <==> fallback >= 0) && backing == old(backing) && own == old(own)
      ensures Copies(old(driver), hasBacking, keepReadOnly, readOnly, reopenRw) ==>
        && (copied == 0 ==> Holds()) && (copied == 0 ==> old(Fits())) && (copied == 0 || copied == -EIO)
        && (!emptying || reliable ==> emptied == 0)
        && (reliable && old(Fits()) ==> copied == 0)
        && (copied != 0 || !emptying ==> own == old(own))
        && (reliable && copied == 0 ==> own == if emptying then map[] else old(own))
        && own.Keys <= old(own.Keys) && (forall x :: x in own ==> own[x] == old(own[x]))
      ensures Copies(old(driver), hasBacking, keepReadOnly, readOnly, reopenRw) && !readOnly ==>
        driver && ret == (if copied != 0 then copied else emptied) && (reliable ==> (ret == 0 <==> old(Fits())))
      ensures Copies(old(driver), hasBacking, keepReadOnly, readOnly, reopenRw) && readOnly ==>
        ret == reopenRo && (driver <==> reopenRo >= 0)
      ensures |backing| == |old(backing)|
    {
      copied, emptied := -EIO, 0;
      if !driver {
        return -ENOMEDIUM, copied, emptied;
      }
      if !hasBacking {
        return -ENOTSUP, copied, emptied;
      }
      if keepReadOnly {
        return -EACCES, copied, emptied;
      }
      if readOnly && reopenRw < 0 {
        if fallback < 0 {
          driver := false;
          return fallback, copied, emptied;
        }
        return reopenRw, copied, emptied;
      }
      ret := CopyLoop();
      copied := ret;
      if ret == 0 && emptying {
        ret := MakeEmpty();
        emptied := ret;
      }
      if readOnly {
        ret := reopenRo;
        if ret < 0 {
          driver := false;
          return ret, copied, emptied;
        }
      }
    }
  }

  /** The copy loop is reached: there is a backing image that may be written, or reopened for it. */
  predicate Copies(driver: bool, hasBacking: bool, keepReadOnly: bool, readOnly: bool, reopenRw: int) {
    driver && hasBacking && !keepReadOnly && (readOnly ==> reopenRw >= 0)
  }

  /** After a commit that copied everything with reliable drivers and emptied the overlay, no sector is
      the overlay's own any more, and the guest reads everything from the backing image. */
  method CommitAndEmpty(bs: Overlay, readOnly: bool) returns (ret: int)
    requires bs.driver && bs.reliable && bs.Fits()
    modifies bs`backing, bs`own, bs`driver
    ensures ret == 0 && bs.driver && bs.own == map[]
    ensures forall x: nat :: x < bs.total ==> bs.View(x) == bs.BackingAt(x) == old(bs.View(x))
  {
    ghost var copied, emptied;
    ret, copied, emptied := bs.Commit(true, false, readOnly, 0, 0, 0, true);
  }

  /** With reliable drivers, a commit to a backing image that is read-only outside of it reports
      success in any case. Everything was copied if and only if the overlay's own sectors fit, and
      as soon as one that does not fit is more than zeros, which is what sectors behind the end read
      as, the image does not hold the guest's view. */
  method CommitReadOnly(bs: Overlay, emptying: bool) returns (ret: int, ghost copied: int)
    requires bs.driver && bs.reliable
    modifies bs`backing, bs`own, bs`driver
    ensures ret == 0 && bs.driver
    ensures copied == 0 <==> old(bs.Fits())
    ensures copied == 0 ==> bs.Holds()
    ensures old(exists x :: x in bs.own && |bs.backing| <= x < bs.total && bs.own[x] != bs.zero) ==> !bs.Holds()
  {
    ghost var emptied;
    ret, copied, emptied := bs.Commit(true, false, true, 0, 0, 0, emptying);
    forall x | x in old(bs.own) && |bs.backing| <= x < bs.total && old(bs.own[x]) != bs.zero
      ensures !bs.Holds()
    {
      assert bs.BackingAt(x) != bs.View(x);
    }
  }

  /** Success does not mean that the backing image holds the guest's view: here the copying has to
      fail, and 0 comes back all the same. */
  method SuccessWithoutCopy(s: Sector, zero: Sector, reliable: bool) returns (bs: Overlay, ret: int)
    requires s != zero
    ensures ret == 0 && bs.driver && bs.BackingAt(0) != bs.View(0)
  {
    bs := new Overlay(1, zero, [], reliable);
    bs.own := map[0 := s];
    assert bs.View(0) == s;
    ghost var copied, emptied;
    ret, copied, emptied := bs.Commit(true, false, true, 0, 0, 0, false);
    assert bs.View(0) == s && bs.BackingAt(0) == zero;
  }
}
