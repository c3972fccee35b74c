/** The sending side of RAM migration: ram_save_block, ram_save_remaining and ram_save_live as
    functions of the source's state, and what each of them does to the dirty pages. */
module RamSave {
  import opened Common
  import opened RamList
  import opened Wire

  const MIGRATION_DIRTY_FLAG: bv8 := 0x08

  /** ram_list, its dirty flags and host memory, and the static last_block / last_offset. */
  datatype Source = Source(blocks: seq<RamBlock>, mem: seq<Page>, dirty: seq<bv8>, last: Option<nat>, lastPage: nat) {

    predicate Valid() {
      && |dirty| == |mem| && blocks != [] && AllApart(blocks, |mem|)
      && Total(blocks) * PAGE_SIZE < WORD_LIMIT
      && (last.Some? ==> ValidPos(blocks, Pos(last.value, lastPage)))
      && (last.None? ==> lastPage == 0)
    }

    /** Where the next scan begins: at the last page looked at, or at the very first page. */
    function Start(): (p: Pos)
      requires Valid()
      ensures ValidPos(blocks, p)
    {
      if last.Some? then Pos(last.value, lastPage) else (ApartAt(blocks, |mem|, 0, 0); Pos(0, 0))
    }

    /** cpu_physical_memory_get_dirty with the migration flag. */
    predicate Dirty(p: Pos)
      requires Valid() && ValidPos(blocks, p)
    {
      FrameInjective(blocks, |mem|, p, p);
      dirty[Frame(blocks, p)] & MIGRATION_DIRTY_FLAG != 0
    }

    function PageAt(p: Pos): Page
      requires Valid() && ValidPos(blocks, p)
    {
      FrameInjective(blocks, |mem|, p, p);
      mem[Frame(blocks, p)]
    }

    /** cpu_physical_memory_reset_dirty on one page: only the migration flag goes. */
    function Cleaned(p: Pos): Source
      requires Valid() && ValidPos(blocks, p)
    {
      FrameInjective(blocks, |mem|, p, p);
      var f := Frame(blocks, p);
      this.(dirty := dirty[f := dirty[f] & !MIGRATION_DIRTY_FLAG])
    }

    /** ram_save_block goes through last_block at the end of a fruitless first step, so with no
        last block yet the first page has to be dirty. */
    predicate CanSave()
      requires Valid()
    {
      last.None? ==> Dirty(Start())
    }

    ghost predicate AllDirty()
      requires Valid()
    {
      forall p :: ValidPos(blocks, p) ==> Dirty(p)
    }

    ghost predicate AllClean()
      requires Valid()
    {
      forall p :: ValidPos(blocks, p) ==> !Dirty(p)
    }
  }

  lemma ValidIsNonEmpty(s: Source)
    requires s.Valid()
    ensures AllNonEmpty(s.blocks)
  {
    forall b | b in s.blocks
      ensures 0 < b.pages
    {
      var i :| 0 <= i < |s.blocks| && s.blocks[i] == b;
      ApartAt(s.blocks, |s.mem|, i, i);
    }
  }

  // ----- ram_save_block -----

  /** The do-while loop: the first dirty page among the next n of the scan. */
  function Scan(s: Source, p: Pos, n: nat): (r: Option<Pos>)
    requires s.Valid() && ValidPos(s.blocks, p)
    ensures r.Some? ==> ValidPos(s.blocks, r.value) && s.Dirty(r.value)
    decreases n
  {
    if n == 0 then None
    else if s.Dirty(p) then Some(p)
    else
      ValidIsNonEmpty(s);
      RankNext(s.blocks, p);
      Scan(s, Next(s.blocks, p), n - 1)
  }

  /** is_dup_page: every byte equals the first one. */
  predicate IsDup(page: Page) {
    forall i :: 0 <= i < PAGE_SIZE ==> page[i] == page[0]
  }

  /** One page record. */
  function Record(b: RamBlock, page: nat, content: Page, cont: bool): (r: seq<byte>)
    requires b.Valid()
    ensures r != []
  {
    var flags := (if cont then CONTINUE else 0) + (if IsDup(content) then COMPRESS else PAGE);
    Be64(page * PAGE_SIZE + flags)
      + (if cont then [] else IdBytes(b.idstr))
      + (if IsDup(content) then [content[0]] else content)
  }

  /** The state after a scan that stopped at p, and the bytes put on the stream. */
  function SaveAt(s: Source, p: Pos): (Source, seq<byte>)
    requires s.Valid() && ValidPos(s.blocks, p)
  {
    ApartAt(s.blocks, |s.mem|, p.block, p.block);
    (s.Cleaned(p).(last := Some(p.block), lastPage := p.page),
     Record(s.blocks[p.block], p.page, s.PageAt(p), s.last == Some(p.block)))
  }

  /** ram_save_block. Nothing is put on the stream exactly when it returns 0. */
  function SaveBlock(s: Source): (Source, seq<byte>)
    requires s.Valid() && s.CanSave()
  {
    match Scan(s, s.Start(), Total(s.blocks))
    case None => (s, [])
    case Some(p) => SaveAt(s, p)
  }

  /** The scan stops after m clean pages: at the first dirty one, or when all n were clean. */
  lemma {:induction false} ScanIsFirst(s: Source, p: Pos, n: nat) returns (m: nat)
    requires s.Valid() && ValidPos(s.blocks, p)
    ensures AllNonEmpty(s.blocks) && m <= n
    ensures forall k: nat :: k < m ==> !s.Dirty(Steps(s.blocks, p, k))
    ensures Scan(s, p, n) == if m < n then Some(Steps(s.blocks, p, m)) else None
    decreases n
  {
    ValidIsNonEmpty(s);
    assert Steps(s.blocks, p, 0) == p;
    if n == 0 || s.Dirty(p) {
      m := 0;
    } else {
      var q := Next(s.blocks, p);
      RankNext(s.blocks, p);
      m := ScanIsFirst(s, q, n - 1);
      forall k: nat | k < m + 1
        ensures !s.Dirty(Steps(s.blocks, p, k))
      {
        if k > 0 {
          StepsFromNext(s.blocks, p, k - 1);
        }
      }
      StepsFromNext(s.blocks, p, m);
      m := m + 1;
    }
  }

  lemma {:induction false} StepsFromNext(blocks: seq<RamBlock>, p: Pos, n: nat)
    requires AllNonEmpty(blocks) && ValidPos(blocks, p) && ValidPos(blocks, Next(blocks, p))
    ensures Steps(blocks, p, n + 1) == Steps(blocks, Next(blocks, p), n)
  {
    if n > 0 {
      StepsFromNext(blocks, p, n - 1);
    } else {
      assert Steps(blocks, p, 0) == p;
    }
  }

  /** ram_save_block returns 0 exactly when no page at all is dirty; otherwise it sends and cleans
      the first dirty page in scan order, and leaves every other page as it was. */
  lemma SaveBlockSends(s: Source)
    requires s.Valid() && s.CanSave()
    ensures SaveBlock(s).1 == [] <==> s.AllClean()
    ensures SaveBlock(s).1 == [] ==> SaveBlock(s).0 == s
    ensures SaveBlock(s).1 != [] ==>
      var p := Scan(s, s.Start(), Total(s.blocks)).value;
      var s' := SaveBlock(s).0;
      && SaveBlock(s) == SaveAt(s, p) && s'.Valid() && s'.CanSave() && s'.mem == s.mem && s'.blocks == s.blocks
      && s.Dirty(p) && !s'.Dirty(p)
      && (forall q :: ValidPos(s.blocks, q) && q != p ==> s'.Dirty(q) == s.Dirty(q))
      && forall f :: 0 <= f < |s.dirty| ==> OtherFlags(s'.dirty[f]) == OtherFlags(s.dirty[f])
  {
    hide OtherFlags;
    var start, n := s.Start(), Total(s.blocks);
    var k := ScanIsFirst(s, start, n);
    match Scan(s, start, n) {
      case None =>
        forall q | ValidPos(s.blocks, q)
          ensures !s.Dirty(q)
        {
          var m := VisitedAll(s.blocks, start, q);
        }
      case Some(p) =>
        CleanedOnly(s, p);
    }
  }

  lemma SaveBlockKeeps(s: Source)
    requires s.Valid() && s.CanSave()
    ensures SaveBlock(s).0.Valid() && SaveBlock(s).0.CanSave()
    ensures SaveBlock(s).0.blocks == s.blocks && SaveBlock(s).0.mem == s.mem
  {
    SaveBlockSends(s);
  }

  lemma ClearedFlag(x: bv8)
    ensures (x & !MIGRATION_DIRTY_FLAG) & MIGRATION_DIRTY_FLAG == 0
  {}

  /** The flags of a page that are not for migration. */
  function OtherFlags(x: bv8): bv8 { x & !MIGRATION_DIRTY_FLAG }

  lemma ClearedOnly(x: bv8)
    ensures OtherFlags(x & !MIGRATION_DIRTY_FLAG) == OtherFlags(x)
  {}

  lemma CleanedOnly(s: Source, p: Pos)
    requires s.Valid() && ValidPos(s.blocks, p)
    ensures var s' := s.Cleaned(p);
      && s'.Valid() && !s'.Dirty(p)
      && (forall q :: ValidPos(s.blocks, q) && q != p ==> s'.Dirty(q) == s.Dirty(q))
      && forall f :: 0 <= f < |s.dirty| ==> OtherFlags(s'.dirty[f]) == OtherFlags(s.dirty[f])
  {
    var s' := s.Cleaned(p);
    FrameInjective(s.blocks, |s.mem|, p, p);
    ClearedFlag(s.dirty[Frame(s.blocks, p)]);
    ClearedOnly(s.dirty[Frame(s.blocks, p)]);
    hide OtherFlags;
    forall q | ValidPos(s.blocks, q) && q != p
      ensures s'.Dirty(q) == s.Dirty(q)
    {
      FrameInjective(s.blocks, |s.mem|, p, q);
      FrameInjective(s.blocks, |s.mem|, q, q);
      assert s'.dirty[Frame(s.blocks, q)] == s.dirty[Frame(s.blocks, q)];
    }
  }

  // ----- ram_save_remaining -----

  /** The n-th page in list order. */
  function PosAt(blocks: seq<RamBlock>, n: nat): (p: Pos)
    requires AllNonEmpty(blocks)
    ensures ValidPos(blocks, p)
  {
    assert blocks[0] in blocks;
    Steps(blocks, Pos(0, 0), n)
  }

  /** The number of dirty pages among the first n in list order. */
  function DirtyAmong(s: Source, n: nat): (r: nat)
    requires s.Valid()
    ensures r <= n
  {
    if n == 0 then 0
    else
      ValidIsNonEmpty(s);
      DirtyAmong(s, n - 1) + if s.Dirty(PosAt(s.blocks, n - 1)) then 1 else 0
  }

  /** ram_save_remaining. */
  function Remaining(s: Source): nat
    requires s.Valid()
  {
    DirtyAmong(s, Total(s.blocks))
  }

  lemma PosAtRank(blocks: seq<RamBlock>, n: nat)
    requires AllNonEmpty(blocks) && n < Total(blocks)
    ensures Rank(blocks, PosAt(blocks, n)) == n
  {
    assert blocks[0] in blocks;
    StepsRank(blocks, Pos(0, 0), n);
  }

  lemma {:induction false} DirtyAmongCleaned(s: Source, p: Pos, n: nat)
    requires s.Valid() && ValidPos(s.blocks, p) && s.Dirty(p) && n <= Total(s.blocks)
    ensures s.Cleaned(p).Valid()
    ensures DirtyAmong(s, n) == DirtyAmong(s.Cleaned(p), n) + if Rank(s.blocks, p) < n then 1 else 0
  {
    hide Source.Valid;
    hide Source.Dirty;
    hide Rank;
    hide PosAt;
    CleanedOnly(s, p);
    ValidIsNonEmpty(s);
    if n > 0 {
      DirtyAmongCleaned(s, p, n - 1);
      PosAtRank(s.blocks, n - 1);
      if Rank(s.blocks, p) == n - 1 {
        RankInjective(s.blocks, p, PosAt(s.blocks, n - 1));
      }
    }
  }

  lemma {:induction false} DirtyAmongSame(s: Source, t: Source, n: nat)
    requires s.Valid() && t.Valid() && s.blocks == t.blocks && s.dirty == t.dirty
    ensures DirtyAmong(s, n) == DirtyAmong(t, n)
  {
    ValidIsNonEmpty(s);
    if n > 0 {
      DirtyAmongSame(s, t, n - 1);
    }
  }

  /** Every page sent lowers ram_save_remaining by exactly one: the flush loop of stage 3 ends. */
  lemma SaveBlockDecreases(s: Source)
    requires s.Valid() && s.CanSave() && SaveBlock(s).1 != []
    ensures SaveBlock(s).0.Valid()
    ensures Remaining(SaveBlock(s).0) == Remaining(s) - 1
  {
    SaveBlockSends(s);
    var p := Scan(s, s.Start(), Total(s.blocks)).value;
    CleanedOnly(s, p);
    RankBelowTotal(s.blocks, p);
    DirtyAmongCleaned(s, p, Total(s.blocks));
    DirtyAmongSame(s.Cleaned(p), SaveBlock(s).0, Total(s.blocks));
  }

  lemma {:induction false} AmongCounts(s: Source, n: nat)
    requires s.Valid() && n <= Total(s.blocks)
    ensures DirtyAmong(s, n) == |DirtyBelow(s, n)|
  {
    hide Source.Valid;
    ValidIsNonEmpty(s);
    if n == 0 {
      assert DirtyBelow(s, 0) == {};
    } else {
      AmongCounts(s, n - 1);
      BelowNext(s, n - 1);
      hide DirtyBelow;
    }
  }

  lemma BelowNext(s: Source, n: nat)
    requires s.Valid() && AllNonEmpty(s.blocks) && n < Total(s.blocks)
    ensures var p := PosAt(s.blocks, n);
      p !in DirtyBelow(s, n) && DirtyBelow(s, n + 1) == if s.Dirty(p) then DirtyBelow(s, n) + {p} else DirtyBelow(s, n)
  {
    hide Source.Dirty;
    hide Source.Valid;
    hide Rank;
    hide PosAt;
    var p := PosAt(s.blocks, n);
    PosAtRank(s.blocks, n);
    forall q | q in DirtyBelow(s, n + 1)
      ensures q in DirtyBelow(s, n) || q == p
    {
      if Rank(s.blocks, q) == n {
        RankInjective(s.blocks, p, q);
      }
    }
    if s.Dirty(p) {
      assert p in DirtyBelow(s, n + 1);
    }
  }

  /** The dirty pages among the first n in list order. */
  ghost function DirtyBelow(s: Source, n: nat): set<Pos>
    requires s.Valid()
  {
    set b, page | 0 <= b < |s.blocks| && 0 <= page < s.blocks[b].pages
                  && s.Dirty(Pos(b, page)) && Rank(s.blocks, Pos(b, page)) < n :: Pos(b, page)
  }

  ghost function DirtyPages(s: Source): set<Pos>
    requires s.Valid()
  {
    set b, page | 0 <= b < |s.blocks| && 0 <= page < s.blocks[b].pages && s.Dirty(Pos(b, page)) :: Pos(b, page)
  }

  /** ram_save_remaining is the number of dirty pages, and so 0 exactly if all are clean. */
  lemma RemainingCounts(s: Source)
    requires s.Valid()
    ensures Remaining(s) == |DirtyPages(s)|
    ensures Remaining(s) == 0 <==> s.AllClean()
  {
    AmongCounts(s, Total(s.blocks));
    hide Source.Dirty;
    forall p | p in DirtyPages(s)
      ensures p in DirtyBelow(s, Total(s.blocks))
    {
      RankBelowTotal(s.blocks, p);
    }
    assert DirtyPages(s) == DirtyBelow(s, Total(s.blocks));
    if s.AllClean() {
      assert DirtyPages(s) == {};
    } else {
      var p :| ValidPos(s.blocks, p) && s.Dirty(p);
      assert p in DirtyPages(s);
    }
  }

  // ----- ram_save_live -----

  predicate InSomeBlock(blocks: seq<RamBlock>, f: nat) {
    exists b :: b in blocks && b.first <= f < b.first + b.pages
  }

  /** Stage 1: the list is sorted, the scan starts over and every page becomes dirty. */
  function Begin(s: Source): Source
    requires s.Valid()
  {
    Source(SortedBlocks(s.blocks), s.mem,
           seq(|s.dirty|, f requires 0 <= f < |s.dirty| =>
             if InSomeBlock(s.blocks, f) && s.dirty[f] & MIGRATION_DIRTY_FLAG == 0 then 0xff else s.dirty[f]),
           None, 0)
  }

  lemma BeginMarksAll(s: Source)
    requires s.Valid()
    ensures var t := Begin(s);
      t.Valid() && t.AllDirty() && t.CanSave() && t.mem == s.mem && multiset(t.blocks) == multiset(s.blocks)
    ensures var t := Begin(s); InOffsetOrder(t.blocks) && t.Start() == Pos(0, 0) && t.last.None?
    ensures forall f :: 0 <= f < |s.dirty| ==>
      Begin(s).dirty[f] == s.dirty[f] || (s.dirty[f] & MIGRATION_DIRTY_FLAG == 0 && Begin(s).dirty[f] == 0xff)
  {
    var t := Begin(s);
    SortKeeps(s.blocks, |s.mem|);
    TotalSorted(s.blocks);
    assert |multiset(t.blocks)| == |t.blocks|;
    hide SortedBlocks;
    hide AllApart;
    forall p | ValidPos(t.blocks, p)
      ensures t.Dirty(p)
    {
      BeginMarks(s, p);
    }
  }

  lemma BeginMarks(s: Source, p: Pos)
    requires s.Valid() && Begin(s).Valid() && ValidPos(Begin(s).blocks, p) && multiset(Begin(s).blocks) == multiset(s.blocks)
    ensures Begin(s).Dirty(p)
  {
    var t := Begin(s);
    FrameInjective(t.blocks, |t.mem|, p, p);
    hide SortedBlocks;
    hide AllApart;
    var f := Frame(t.blocks, p);
    assert t.blocks[p.block] in multiset(t.blocks);
    assert t.blocks[p.block] in s.blocks;
    assert InSomeBlock(s.blocks, f);
    assert 0xff & MIGRATION_DIRTY_FLAG != 0 as bv8;
  }

  /** The block list of the header: a name and a length for each block. */
  function BlockEntry(b: RamBlock): seq<byte>
    requires b.Valid()
  {
    IdBytes(b.idstr) + Be64(b.pages * PAGE_SIZE)
  }

  function BlockList(blocks: seq<RamBlock>): seq<byte>
    requires forall b :: b in blocks ==> b.Valid()
  {
    if blocks == [] then []
    else
      assert blocks[0].Valid();
      BlockEntry(blocks[0]) + BlockList(blocks[1..])
  }

  function Header(blocks: seq<RamBlock>): seq<byte>
    requires forall b :: b in blocks ==> b.Valid()
  {
    Be64(Total(blocks) * PAGE_SIZE + MEM_SIZE) + BlockList(blocks)
  }

  /** The rate-limited loop: at most k calls of ram_save_block, fewer when one returns 0. */
  function SaveLoop(s: Source, k: nat): (r: (Source, seq<byte>))
    requires s.Valid() && s.CanSave()
    ensures r.0.Valid() && r.0.CanSave()
    decreases k
  {
    if k == 0 then (s, [])
    else
      SaveBlockSends(s);
      var first := SaveBlock(s);
      if first.1 == [] then first
      else
        var rest := SaveLoop(first.0, k - 1);
        (rest.0, first.1 + rest.1)
  }

  /** The loop sends k pages, or all that are dirty if they are fewer. */
  lemma {:induction false} SaveLoopSends(s: Source, k: nat)
    requires s.Valid() && s.CanSave()
    ensures Remaining(SaveLoop(s, k).0) == if k < Remaining(s) then Remaining(s) - k else 0
    decreases k
  {
    hide SaveBlock;
    hide Remaining;
    hide Source.Valid;
    hide Source.CanSave;
    if k > 0 {
      SaveBlockKeeps(s);
      SaveBlockStops(s);
      if SaveBlock(s).1 != [] {
        SaveBlockDecreases(s);
        SaveLoopSends(SaveBlock(s).0, k - 1);
      }
    }
  }

  lemma SaveBlockStops(s: Source)
    requires s.Valid() && s.CanSave()
    ensures SaveBlock(s).1 == [] <==> Remaining(s) == 0
    ensures SaveBlock(s).1 == [] ==> SaveBlock(s).0 == s
  {
    SaveBlockSends(s);
    RemainingCounts(s);
  }

  /** The flush of stage 3: ram_save_block until it returns 0. */
  function SaveAll(s: Source): (r: (Source, seq<byte>))
    requires s.Valid() && s.CanSave()
    ensures r.0.Valid() && r.0.CanSave() && r.0.AllClean()
    decreases Remaining(s)
  {
    SaveBlockSends(s);
    var first := SaveBlock(s);
    if first.1 == [] then first
    else
      SaveBlockDecreases(s);
      var rest := SaveAll(first.0);
      (rest.0, first.1 + rest.1)
  }

  /** Nothing is sent after a failed synchronisation of the dirty bitmap, nor in the clean-up call. */
  predicate Sends(stage: int, synced: bool) { 0 <= stage && synced }

  /** ram_save_live: the new state and the section it puts on the stream, where the rate limit
      admits k calls of ram_save_block. */
  function SaveLive(s: Source, stage: int, synced: bool, k: nat): (r: (Source, seq<byte>))
    requires s.Valid() && (stage == 1 || !Sends(stage, synced) || s.CanSave())
    ensures r.0.Valid()
  {
    if !Sends(stage, synced) then (s, [])
    else
      BeginMarksAll(s);
      var s0 := if stage == 1 then Begin(s) else s;
      var header := if stage == 1 then (ValidBlocks(s0); Header(s0.blocks)) else [];
      var limited := SaveLoop(s0, k);
      var flushed := if stage == 3 then SaveAll(limited.0) else (limited.0, []);
      (flushed.0, header + limited.1 + flushed.1 + Be64(EOS))
  }

  lemma ValidBlocks(s: Source)
    requires s.Valid()
    ensures forall b :: b in s.blocks ==> b.Valid()
  {
    forall b | b in s.blocks
      ensures b.Valid()
    {
      var i :| 0 <= i < |s.blocks| && s.blocks[i] == b;
      ApartAt(s.blocks, |s.mem|, i, i);
    }
  }

  /** Stage 3 leaves no dirty page behind. */
  lemma FinalStageIsClean(s: Source, k: nat)
    requires s.Valid() && s.CanSave()
    ensures SaveLive(s, 3, true, k).0.AllClean()
  {}

  lemma {:induction false} SaveLoopKeepsMemory(s: Source, k: nat)
    requires s.Valid() && s.CanSave()
    ensures SaveLoop(s, k).0.mem == s.mem && SaveLoop(s, k).0.blocks == s.blocks
    decreases k
  {
    hide SaveBlock;
    SaveBlockKeeps(s);
    if k > 0 && SaveBlock(s).1 != [] {
      SaveLoopKeepsMemory(SaveBlock(s).0, k - 1);
    }
  }

  lemma {:induction false} SaveAllKeepsMemory(s: Source)
    requires s.Valid() && s.CanSave()
    ensures SaveAll(s).0.mem == s.mem && SaveAll(s).0.blocks == s.blocks
    decreases Remaining(s)
  {
    hide SaveBlock;
    hide Remaining;
    SaveBlockKeeps(s);
    if SaveBlock(s).1 != [] {
      SaveBlockDecreases(s);
      SaveAllKeepsMemory(SaveBlock(s).0);
    }
  }

  lemma {:induction false} AllAreDirty(s: Source, n: nat)
    requires s.Valid() && s.AllDirty() && n <= Total(s.blocks)
    ensures DirtyAmong(s, n) == n
  {
    ValidIsNonEmpty(s);
    if n > 0 {
      AllAreDirty(s, n - 1);
    }
  }

  lemma AllRemain(s: Source)
    requires s.Valid()
    ensures s.AllDirty() ==> Remaining(s) == Total(s.blocks)
  {
    if s.AllDirty() {
      AllAreDirty(s, Total(s.blocks));
    }
  }

  /** How many pages a section sends: all that are dirty in stage 3, and otherwise as many as the rate limit
      admits, if there are so many. Stage 1 begins with every page. */
  lemma SectionSends(s: Source, stage: int, k: nat)
    requires s.Valid() && 0 <= stage && (stage == 1 || s.CanSave())
    ensures var dirty := if stage == 1 then Total(Begin(s).blocks) else Remaining(s);
      Remaining(SaveLive(s, stage, true, k).0) == if stage == 3 || k >= dirty then 0 else dirty - k
  {
    BeginMarksAll(s);
    var s0 := if stage == 1 then Begin(s) else s;
    AllRemain(s0);
    hide Begin;
    hide Source.Valid;
    hide SaveLoop;
    hide SaveAll;
    hide Header;
    hide Be64;
    hide Source.CanSave;
    hide Source.AllClean;
    hide Remaining;
    SaveLoopSends(s0, k);
    if stage == 3 {
      RemainingCounts(SaveAll(SaveLoop(s0, k).0).0);
    }
  }

  /** Saving never touches the guest's memory. */
  lemma SaveLiveKeepsMemory(s: Source, stage: int, synced: bool, k: nat)
    requires s.Valid() && (stage == 1 || !Sends(stage, synced) || s.CanSave())
    ensures SaveLive(s, stage, synced, k).0.mem == s.mem
  {
    BeginMarksAll(s);
    if Sends(stage, synced) {
      var s0 := if stage == 1 then Begin(s) else s;
      SaveLoopKeepsMemory(s0, k);
      SaveAllKeepsMemory(SaveLoop(s0, k).0);
    }
  }
}
