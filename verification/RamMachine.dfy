/** arch_init.c as it runs: loops over the dirty flags and over the stream, on state that is
    updated in place, proved to compute the functions of RamSave and RamLoad. */
module RamMachine {
  import opened Common
  import opened RamList
  import opened Wire
  import opened RamSave
  import opened RamLoad
  import opened RamOrder
  import opened RamFlat

  /** is_dup_page: compares 32-bit words with the first byte repeated four times. */
  method IsDupPage(page: Page) returns (r: bool)
    ensures r <==> IsDup(page)
  {
    var ch := page[0];
    for i := 0 to PAGE_SIZE / 4
      invariant forall m :: 0 <= m < 4 * i ==> page[m] == ch
    {
      if page[4 * i] != ch || page[4 * i + 1] != ch || page[4 * i + 2] != ch || page[4 * i + 3] != ch {
        return false;
      }
    }
    return true;
  }

  /** Counting one more page in list order. */
  lemma DirtyAmongNext(s: Source, p: Pos)
    requires s.Valid() && ValidPos(s.blocks, p)
    ensures Frame(s.blocks, p) < |s.dirty|
    ensures DirtyAmong(s, Before(s.blocks, p.block) + p.page + 1)
         == DirtyAmong(s, Before(s.blocks, p.block) + p.page)
            + if s.dirty[Frame(s.blocks, p)] & MIGRATION_DIRTY_FLAG != 0 then 1 else 0
  {
    hide PosAt;
    ValidIsNonEmpty(s);
    RankBelowTotal(s.blocks, p);
    PosAtRank(s.blocks, Rank(s.blocks, p));
    RankInjective(s.blocks, p, PosAt(s.blocks, Rank(s.blocks, p)));
    FrameInjective(s.blocks, |s.mem|, p, p);
  }

  /** The scan after n clean pages. */
  ghost predicate Scanning(s: Source, p: Pos, n: nat) {
    && s.Valid() && s.CanSave() && AllNonEmpty(s.blocks) && ValidPos(s.blocks, p) && n <= Total(s.blocks)
    && p == Steps(s.blocks, s.Start(), n)
    && Scan(s, s.Start(), Total(s.blocks)) == Scan(s, p, Total(s.blocks) - n)
  }

  lemma ScanBegins(s: Source)
    requires s.Valid() && s.CanSave()
    ensures Scanning(s, s.Start(), 0) && 0 < Total(s.blocks)
    ensures s.Start() == Pos(if s.last.Some? then s.last.value else 0, s.lastPage)
  {
    ValidIsNonEmpty(s);
    RankBelowTotal(s.blocks, s.Start());
    assert Steps(s.blocks, s.Start(), 0) == s.Start();
  }

  /** A dirty page ends the scan. */
  lemma ScanStops(s: Source, p: Pos, n: nat)
    requires Scanning(s, p, n) && n < Total(s.blocks)
    ensures Frame(s.blocks, p) < |s.dirty|
    ensures s.dirty[Frame(s.blocks, p)] & MIGRATION_DIRTY_FLAG != 0 ==>
      SaveBlock(s) == SaveAt(s, p) && SaveAt(s, p).1 != [] && SaveAt(s, p).0.Valid()
  {
    FrameInjective(s.blocks, |s.mem|, p, p);
    if s.Dirty(p) {
      SaveBlockKeeps(s);
      ApartAt(s.blocks, |s.mem|, p.block, p.block);
    }
  }

  /** After a clean page, the scan goes on with the next one, which is the first one again exactly
      when all have been tested; and there is a last block to compare with. */
  lemma ScanGoesOn(s: Source, p: Pos, n: nat)
    requires Scanning(s, p, n) && n < Total(s.blocks) && !s.Dirty(p)
    ensures var q := Next(s.blocks, p);
      && Scanning(s, q, n + 1) && s.last.Some? && ValidPos(s.blocks, s.Start())
      && s.Start() == Pos(s.last.value, s.lastPage)
      && (Frame(s.blocks, q) == Frame(s.blocks, s.Start()) <==> n + 1 == Total(s.blocks))
      && (n + 1 == Total(s.blocks) ==> SaveBlock(s) == (s, []) && q == s.Start())
  {
    var q := Next(s.blocks, p);
    RankNext(s.blocks, p);
    ScanReturns(s.blocks, s.Start(), n + 1);
    FrameInjective(s.blocks, |s.mem|, q, s.Start());
    if s.last.None? {
      RankBelowTotal(s.blocks, p);
      if n > 0 {
        assert Scan(s, s.Start(), Total(s.blocks)) == Some(s.Start());
        CleanInBetween(s, p, Total(s.blocks) - n, n);
      }
    }
  }

  /** The scan cannot come back to its start before all pages have been tested. */
  lemma CleanInBetween(s: Source, p: Pos, k: nat, n: nat)
    requires Scanning(s, p, n) && 0 < n && k == Total(s.blocks) - n
    ensures Scan(s, p, k) != Some(s.Start())
  {
    var m := ScanIsFirst(s, p, k);
    if m < k {
      StepsAdd(s.blocks, s.Start(), n, m);
      ScanReturns(s.blocks, s.Start(), n + m);
    }
  }

  lemma SameBlocks(s: Source)
    requires s.Valid()
    ensures forall f: nat :: InSomeBlock(Begin(s).blocks, f) == InSomeBlock(s.blocks, f)
  {
    BeginMarksAll(s);
    assert forall b :: b in Begin(s).blocks <==> b in multiset(Begin(s).blocks);
    assert forall b :: b in s.blocks <==> b in multiset(s.blocks);
  }

  /** A dirty flag after stage 1 has gone over some blocks. */
  function Marked(blocks: seq<RamBlock>, f: nat, flags: bv8): bv8 {
    if InSomeBlock(blocks, f) && flags & MIGRATION_DIRTY_FLAG == 0 then 0xff else flags
  }

  lemma MarkedSnoc(blocks: seq<RamBlock>, b: RamBlock, f: nat, flags: bv8)
    ensures Marked(blocks + [b], f, flags)
         == if b.first <= f < b.first + b.pages then Marked([b], f, Marked(blocks, f, flags)) else Marked(blocks, f, flags)
  {
    assert b in blocks + [b] && b in [b];
    assert forall c :: c in blocks ==> c in blocks + [b];
    assert 0xff & MIGRATION_DIRTY_FLAG != 0 as bv8;
  }

  /** The sender: ram_list, the statics of arch_init.c and the file written to. */
  class Sender {
    var blocks: seq<RamBlock>
    const mem: array<Page>
    const dirty: array<bv8>
    var last: Option<nat>
    var lastPage: nat
    var file: seq<byte>
    var fileError: bool

    ghost function Model(): Source
      reads this, mem, dirty
    {
      Source(blocks, mem[..], dirty[..], last, lastPage)
    }

    ghost predicate Valid()
      reads this, mem, dirty
    {
      mem as object != dirty && Model().Valid()
    }

    constructor (blocks: seq<RamBlock>, frames: nat)
      requires blocks != [] && AllApart(blocks, frames) && Total(blocks) * PAGE_SIZE < WORD_LIMIT
      ensures Valid() && fresh(mem) && fresh(dirty)
      ensures this.blocks == blocks && mem.Length == frames && last == None && file == [] && !fileError
    {
      this.blocks := blocks;
      mem := new Page[frames](_ => seq(PAGE_SIZE, _ => 0));
      dirty := new bv8[frames](_ => 0xff);
      last, lastPage, file, fileError := None, 0, [], false;
    }

    /** qemu_get_ram_ptr: the frame's block moves to the head of the list. The static pointer stays with
        its block, which here means a new index. */
    method GetRamPtr(frame: nat)
      requires Valid()
      modifies this`blocks, this`last
      ensures Valid() && Model() == Looked(old(Model()), frame)
    {
      hide AllApart;
      hide Total;
      hide ToFront;
      for i := 0 to |blocks|
        invariant BlockOf(blocks, frame) == match BlockOf(blocks[i..], frame) case None => None case Some(j) => Some(i + j)
        invariant Model() == old(Model())
      {
        assert blocks[i..][0] == blocks[i] && blocks[i..][1..] == blocks[i + 1..];
        if Holds(blocks[i], frame) {
          hide Source.Valid;
          ghost var s := Reordered(Model(), i);
          blocks := ToFront(blocks, i);
          last := match last case None => None case Some(k) => Some(Renumber(i, k));
          assert Model() == s;
          return;
        }
      }
    }

    /** A guest store: directly if all flags of the page are set, and otherwise by notdirty_mem_write,
        which looks the page up; cpu_physical_memory_set_dirty_flags after the store itself. */
    method GuestWrite(frame: nat, content: Page, flags: bv8)
      requires Valid() && frame < mem.Length
      modifies mem, dirty, this`blocks, this`last
      ensures Valid() && Model() == GuestStore(old(Model()), frame, content, flags)
    {
      hide Looked;
      hide AllApart;
      hide Total;
      var flag := dirty[frame] | flags | MIGRATION_DIRTY_FLAG;
      if dirty[frame] != 0xff {
        GetRamPtr(frame);
      }
      ghost var s := Model();
      mem[frame] := content;
      dirty[frame] := flag;
      assert Model() == RamOrder.Write(s, frame, content, flags);
    }

    /** ram_save_block: the do-while loop over the pages from the last one on. */
    method SaveBlock() returns (sent: nat)
      requires Valid() && Model().CanSave()
      modifies this`last, this`lastPage, this`file, dirty
      ensures Valid() && Model() == RamSave.SaveBlock(old(Model())).0
      ensures file == old(file) + RamSave.SaveBlock(old(Model())).1
      ensures sent == 0 <==> RamSave.SaveBlock(old(Model())).1 == []
    {
      hide RamSave.SaveAt;
      hide Scan;
      hide Steps;
      hide Total;
      hide Source.Valid;
      hide Source.CanSave;
      ghost var m := Model();
      ghost var n: nat := 0;
      var block: nat, page: nat := if last.Some? then last.value else 0, lastPage;
      sent := 0;
      ScanBegins(m);
      while true
        invariant Scanning(m, Pos(block, page), n) && n < Total(blocks)
        invariant Model() == m && file == old(file) && (n > 0 ==> last.Some?)
        decreases Total(blocks) - n
      {
        var frame := blocks[block].first + page;
        ScanStops(m, Pos(block, page), n);
        if dirty[frame] & MIGRATION_DIRTY_FLAG != 0 {
          sent := EmitPage(block, page);
          return;
        }
        ScanGoesOn(m, Pos(block, page), n);
        page := page + 1;
        if page >= blocks[block].pages {
          page := 0;
          block := block + 1;
          if block == |blocks| {
            block := 0;
          }
        }
        n := n + 1;
        if blocks[block].first + page == blocks[last.value].first + lastPage {
          break;
        }
      }
      last, lastPage := Some(block), page;
    }

    /** The body of ram_save_block for a dirty page. */
    method EmitPage(block: nat, page: nat) returns (sent: nat)
      requires Valid() && ValidPos(blocks, Pos(block, page))
      modifies this`last, this`lastPage, this`file, dirty
      ensures Model() == SaveAt(old(Model()), Pos(block, page)).0
      ensures file == old(file) + SaveAt(old(Model()), Pos(block, page)).1
      ensures sent == if IsDup(old(Model().PageAt(Pos(block, page)))) then 1 else PAGE_SIZE
    {
      hide Record;
      FrameInjective(blocks, mem.Length, Pos(block, page), Pos(block, page));
      ApartAt(blocks, mem.Length, block, block);
      var b := blocks[block];
      var frame := b.first + page;
      dirty[frame] := dirty[frame] & !MIGRATION_DIRTY_FLAG;
      sent := EmitRecord(b, page, mem[frame], last == Some(block));
      last, lastPage := Some(block), page;
    }

    method EmitRecord(b: RamBlock, page: nat, content: Page, cont: bool) returns (sent: nat)
      requires b.Valid()
      modifies this`file
      ensures file == old(file) + Record(b, page, content, cont)
      ensures sent == if IsDup(content) then 1 else PAGE_SIZE
    {
      hide IsDup;
      hide Be64;
      var flags := if cont then CONTINUE else 0;
      var dup := IsDupPage(content);
      if dup {
        file := file + Be64(page * PAGE_SIZE + (flags + COMPRESS));
        if !cont {
          file := file + IdBytes(b.idstr);
        }
        file := file + [content[0]];
        sent := 1;
      } else {
        file := file + Be64(page * PAGE_SIZE + (flags + PAGE));
        if !cont {
          file := file + IdBytes(b.idstr);
        }
        file := file + content;
        sent := PAGE_SIZE;
      }
    }

    /** ram_save_remaining: counts the dirty pages block by block. */
    method SaveRemaining() returns (count: nat)
      requires Valid()
      ensures count == Remaining(Model())
    {
      hide Source.Valid;
      hide Rank;
      hide PosAt;
      ghost var m := Model();
      ValidIsNonEmpty(m);
      count := 0;
      for i := 0 to |blocks|
        invariant count == DirtyAmong(m, Before(blocks, i))
      {
        var b := blocks[i];
        for page := 0 to b.pages
          invariant count == DirtyAmong(m, Before(blocks, i) + page)
        {
          DirtyAmongNext(m, Pos(i, page));
          if dirty[b.first + page] & MIGRATION_DIRTY_FLAG != 0 {
            count := count + 1;
          }
        }
      }
    }

    /** sort_ram_list: the blocks are taken off the list, sorted by offset, and put back from the
        last one to the first, each at the head. */
    method SortRamList()
      modifies this`blocks
      ensures blocks == SortedBlocks(old(blocks))
    {
      var sorted := SortedBlocks(blocks);
      blocks := [];
      var n := |sorted|;
      while n > 0
        invariant 0 <= n <= |sorted| && blocks == sorted[n..]
      {
        n := n - 1;
        blocks := [sorted[n]] + blocks;
      }
    }

    /** The dirty bits of stage 1, block by block. */
    method MarkAllDirty()
      requires AllApart(blocks, dirty.Length)
      modifies dirty
      ensures forall f :: 0 <= f < dirty.Length ==>
        dirty[f] == if InSomeBlock(blocks, f) && old(dirty[f]) & MIGRATION_DIRTY_FLAG == 0 then 0xff else old(dirty[f])
    {
      for i := 0 to |blocks|
        invariant forall f :: 0 <= f < dirty.Length ==> dirty[f] == Marked(blocks[..i], f, old(dirty[f]))
      {
        ApartAt(blocks, dirty.Length, i, i);
        var b := blocks[i];
        for page := 0 to b.pages
          invariant forall f :: 0 <= f < dirty.Length ==>
            dirty[f] == if b.first <= f < b.first + page then Marked([b], f, Marked(blocks[..i], f, old(dirty[f])))
                        else Marked(blocks[..i], f, old(dirty[f]))
        {
          if dirty[b.first + page] & MIGRATION_DIRTY_FLAG == 0 {
            dirty[b.first + page] := 0xff;
          }
        }
        forall f | 0 <= f < dirty.Length
          ensures dirty[f] == Marked(blocks[..i + 1], f, old(dirty[f]))
        {
          MarkedSnoc(blocks[..i], b, f, old(dirty[f]));
          assert blocks[..i + 1] == blocks[..i] + [b];
        }
      }
      assert blocks[..|blocks|] == blocks;
    }

    /** Stage 1: start over, sort the list, mark every page. */
    method Restart()
      requires Valid()
      modifies this`blocks, this`last, this`lastPage, dirty
      ensures Valid() && Model() == Begin(old(Model())) && Model().CanSave()
    {
      hide Source.Valid;
      hide Source.CanSave;
      ghost var m := Model();
      BeginMarksAll(m);
      ListApart(m);
      last, lastPage := None, 0;
      SortRamList();
      MarkAllDirty();
      SameBlocks(m);
      assert dirty[..] == Begin(m).dirty;
    }

    /** The header: the total with its flag, then a name and a length for each block. */
    method WriteHeader()
      requires forall b :: b in blocks ==> b.Valid()
      modifies this`file
      ensures file == old(file) + Header(blocks)
    {
      hide BlockEntry;
      hide BlockList;
      hide Be64;
      var word := Be64(Total(blocks) * PAGE_SIZE + MEM_SIZE);
      file := file + word;
      ghost var list: seq<byte> := [];
      assert blocks[0..] == blocks && [] + BlockList(blocks) == BlockList(blocks);
      for i := 0 to |blocks|
        invariant file == old(file) + word + list && list + BlockList(blocks[i..]) == BlockList(blocks)
      {
        BlockListNext(blocks, i);
        list := list + BlockEntry(blocks[i]);
        file := file + BlockEntry(blocks[i]);
      }
      BlockListNone(blocks);
    }

    /** The rate-limited loop. */
    method SaveLimited(k: nat)
      requires Valid() && Model().CanSave()
      modifies this`last, this`lastPage, this`file, dirty
      ensures Valid() && Model() == SaveLoop(old(Model()), k).0 && Model().CanSave()
      ensures file == old(file) + SaveLoop(old(Model()), k).1
    {
      hide RamSave.SaveBlock;
      hide SaveLoop;
      hide Source.Valid;
      hide Source.CanSave;
      var left: nat := k;
      ghost var m0 := Model();
      ghost var bytes: seq<byte> := [];
      LoopBegins(m0, k);
      while left > 0
        invariant Valid() && Looping(m0, k, Model(), left, bytes) && file == old(file) + bytes
        decreases left
      {
        LoopAdvances(m0, k, Model(), left, bytes);
        bytes := bytes + RamSave.SaveBlock(Model()).1;
        var sent := SaveBlock();
        left := left - 1;
        if sent == 0 {
          return;
        }
      }
      LoopEnds(m0, k, Model(), bytes);
    }

    /** The flush of stage 3, ended by the number of dirty pages left. */
    method Flush()
      requires Valid() && Model().CanSave()
      modifies this`last, this`lastPage, this`file, dirty
      ensures Valid() && Model() == SaveAll(old(Model())).0
      ensures file == old(file) + SaveAll(old(Model())).1
    {
      hide RamSave.SaveBlock;
      hide SaveAll;
      hide Remaining;
      hide Source.Valid;
      hide Source.CanSave;
      ghost var m0 := Model();
      ghost var bytes: seq<byte> := [];
      FlushBegins(m0);
      while true
        invariant Valid() && Flushing(m0, Model(), bytes) && file == old(file) + bytes
        decreases Remaining(Model())
      {
        FlushAdvances(m0, Model(), bytes);
        bytes := bytes + RamSave.SaveBlock(Model()).1;
        var sent := SaveBlock();
        if sent == 0 {
          break;
        }
      }
    }

    /** ram_save_live, without the bandwidth estimate: stage -1 only ends dirty tracking, a failed
        synchronisation of the dirty bitmap sends nothing, and the rate limit admits k pages. */
    method SaveLive(stage: int, synced: bool, k: nat)
      requires Valid() && (stage == 1 || !Sends(stage, synced) || Model().CanSave())
      modifies this`blocks, this`last, this`lastPage, this`file, this`fileError, dirty
      ensures Valid() && Model() == RamSave.SaveLive(old(Model()), stage, synced, k).0
      ensures fileError == (old(fileError) || (0 <= stage && !synced))
      ensures file == old(file) + RamSave.SaveLive(old(Model()), stage, synced, k).1
    {
      hide SaveLoop;
      hide SaveAll;
      hide Header;
      hide Be64;
      hide Source.Valid;
      hide Source.CanSave;
      hide Source.AllClean;
      if stage < 0 {
        return;
      }
      if !synced {
        fileError := true;
        return;
      }
      if stage == 1 {
        Restart();
        ValidBlocks(Model());
        WriteHeader();
      }
      SaveLimited(k);
      if stage == 3 {
        Flush();
      }
      file := file + Be64(EOS);
    }
  }

  lemma BlockListNext(blocks: seq<RamBlock>, i: nat)
    requires i < |blocks| && forall b :: b in blocks ==> b.Valid()
    ensures BlockList(blocks[i..]) == BlockEntry(blocks[i]) + BlockList(blocks[i + 1..])
  {
    hide BlockEntry;
    assert blocks[i..][0] == blocks[i] && blocks[i..][1..] == blocks[i + 1..];
  }

  lemma BlockListNone(blocks: seq<RamBlock>)
    requires forall b :: b in blocks ==> b.Valid()
    ensures BlockList(blocks[|blocks|..]) == []
  {}

  lemma ListApart(s: Source)
    requires s.Valid()
    ensures AllApart(s.blocks, |s.dirty|) && AllApart(SortedBlocks(s.blocks), |s.dirty|)
  {
    SortKeeps(s.blocks, |s.dirty|);
  }

  /** The rate-limited loop in progress: m with `left` calls to go, `bytes` sent. */
  ghost predicate Looping(m0: Source, k: nat, m: Source, left: nat, bytes: seq<byte>) {
    && m0.Valid() && m0.CanSave() && m.Valid() && m.CanSave()
    && SaveLoop(m0, k).0 == SaveLoop(m, left).0 && SaveLoop(m0, k).1 == bytes + SaveLoop(m, left).1
  }

  lemma LoopAdvances(m0: Source, k: nat, m: Source, left: nat, bytes: seq<byte>)
    requires Looping(m0, k, m, left, bytes) && 0 < left
    ensures m.Valid() && m.CanSave()
    ensures var (s, b) := SaveBlock(m);
            && s.Valid() && s.CanSave()
            && (b != [] ==> Looping(m0, k, s, left - 1, bytes + b))
            && (b == [] ==> SaveLoop(m0, k).0 == s && SaveLoop(m0, k).1 == bytes + b)
  {
    hide SaveBlock;
    hide Source.Valid;
    hide Source.CanSave;
    SaveBlockKeeps(m);
    var s, b := SaveBlock(m).0, SaveBlock(m).1;
    if b != [] {
      var tail := SaveLoop(s, left - 1).1;
      assert SaveLoop(m, left).1 == b + tail;
      assert bytes + (b + tail) == (bytes + b) + tail;
    }
  }

  lemma LoopBegins(m: Source, k: nat)
    requires m.Valid() && m.CanSave()
    ensures Looping(m, k, m, k, [])
  {
    hide SaveLoop;
    hide Source.Valid;
    hide Source.CanSave;
    assert [] + SaveLoop(m, k).1 == SaveLoop(m, k).1;
  }

  lemma LoopEnds(m0: Source, k: nat, m: Source, bytes: seq<byte>)
    requires Looping(m0, k, m, 0, bytes)
    ensures m.CanSave() && SaveLoop(m0, k).0 == m && SaveLoop(m0, k).1 == bytes
  {
    hide Source.Valid;
    hide Source.CanSave;
    assert bytes + [] == bytes;
  }

  ghost predicate Flushing(m0: Source, m: Source, bytes: seq<byte>) {
    && m0.Valid() && m0.CanSave() && m.Valid() && m.CanSave()
    && SaveAll(m0).0 == SaveAll(m).0 && SaveAll(m0).1 == bytes + SaveAll(m).1
  }

  lemma FlushBegins(m: Source)
    requires m.Valid() && m.CanSave()
    ensures Flushing(m, m, [])
  {
    hide SaveAll;
    hide Source.Valid;
    hide Source.CanSave;
    assert [] + SaveAll(m).1 == SaveAll(m).1;
  }

  lemma FlushAdvances(m0: Source, m: Source, bytes: seq<byte>)
    requires Flushing(m0, m, bytes)
    ensures m.Valid() && m.CanSave()
    ensures var (s, b) := SaveBlock(m);
            && s.Valid() && s.CanSave()
            && (b != [] ==> Flushing(m0, s, bytes + b) && Remaining(s) < Remaining(m))
            && (b == [] ==> SaveAll(m0).0 == s && SaveAll(m0).1 == bytes + b)
  {
    hide SaveBlock;
    hide Remaining;
    hide Source.Valid;
    hide Source.CanSave;
    hide Source.AllClean;
    SaveBlockKeeps(m);
    var s, b := SaveBlock(m).0, SaveBlock(m).1;
    if b != [] {
      SaveBlockDecreases(m);
      var tail := SaveAll(s).1;
      assert SaveAll(m).1 == b + tail;
      assert bytes + (b + tail) == (bytes + b) + tail;
    }
  }

  /** The receiver: its ram_list, the static block pointer of the decoder and the file read from. */
  class Receiver {
    var blocks: seq<RamBlock>
    const mem: array<Page>
    var cur: Option<nat>
    var input: seq<byte>

    ghost function Model(): Dest
      reads this, mem
    {
      Dest(blocks, mem[..], cur)
    }

    ghost predicate Valid()
      reads this, mem
    {
      Model().Valid()
    }

    constructor (blocks: seq<RamBlock>, frames: nat)
      requires AllApart(blocks, frames)
      ensures Valid() && fresh(mem) && this.blocks == blocks && mem.Length == frames && cur == None && input == []
    {
      this.blocks := blocks;
      mem := new Page[frames](_ => seq(PAGE_SIZE, _ => 0));
      cur, input := None, [];
    }

    /** The search of the block list by name. */
    method FindBlock(id: seq<byte>) returns (r: Option<nat>)
      ensures r == Find(blocks, id)
    {
      for i := 0 to |blocks|
        invariant Find(blocks, id) == match Find(blocks[i..], id) case None => None case Some(j) => Some(i + j)
      {
        assert blocks[i..][0] == blocks[i] && blocks[i..][1..] == blocks[i + 1..];
        if blocks[i].idstr == id {
          return Some(i);
        }
      }
      r := None;
    }

    /** host_from_stream_offset: which block the record is about; on success it is remembered. */
    method HostFromStreamOffset(flags: nat) returns (err: Option<LoadError>)
      requires Valid()
      modifies this`cur, this`input
      ensures Valid()
      ensures match Locate(old(Model()), flags, old(input))
              case Err(e) => err == Some(e) && Model() == old(Model()) && input == old(input)
              case Ok(d, rest) => err == None && Model() == d && input == rest
    {
      if HasFlag(flags, CONTINUE) {
        return None;
      }
      match GetId(input) {
        case Err(e) => return Some(e);
        case Ok(id, rest) =>
          input := rest;
          cur := FindBlock(id);
          return None;
      }
    }

    /** The block list of the header. */
    method CheckBlockList(total: nat) returns (err: Option<LoadError>)
      requires Valid() && forall b :: b in blocks ==> 0 < b.pages
      modifies this`input
      ensures match LoadBlockList(blocks, total, old(input))
              case Err(e) => err == Some(e)
              case Ok(_, rest) => err == None && input == rest
    {
      hide GetId;
      hide Number;
      var left := total;
      while left != 0
        invariant left >= 0
        invariant LoadBlockList(blocks, total, old(input)) == LoadBlockList(blocks, left, input)
        decreases |input|
      {
        match GetId(input) {
          case Err(e) => return Some(e);
          case Ok(id, rest) =>
            if |rest| < 8 {
              return Some(EIO);
            }
            var length := Number(rest[..8]);
            var i := FindBlock(id);
            if i.None? || blocks[i.value].pages * PAGE_SIZE != length {
              return Some(EINVAL);
            }
            GetIdConsumes(input);
            input := rest[8..];
            left := (left - length) % WORD_LIMIT;
        }
      }
      return None;
    }

    /** One page record's payload, at a page of the remembered block. */
    method StorePage(page: nat, compressed: bool, ghost eos: bool) returns (err: Option<LoadError>)
      requires Valid()
      modifies mem, this`input
      ensures Valid()
      ensures match (if compressed then LoadCompressed(old(Model()), page, eos, old(input))
                     else LoadPlain(old(Model()), page, eos, old(input)))
              case Err(e) => err == Some(e)
              case Ok((d, end), rest) => err == None && Model() == d && eos == end && input == rest
    {
      if cur.None? {
        return Some(if compressed then EINVAL else WildStore);
      }
      var size := if compressed then 1 else PAGE_SIZE;
      if |input| < size {
        return Some(EIO);
      }
      var b := blocks[cur.value];
      if page >= b.pages {
        return Some(WildStore);
      }
      FrameInjective(blocks, mem.Length, Pos(cur.value, page), Pos(cur.value, page));
      if compressed {
        var ch := input[0];
        mem[b.first + page] := seq(PAGE_SIZE, _ => ch);
      } else {
        mem[b.first + page] := input[..PAGE_SIZE];
      }
      input := input[size..];
      return None;
    }

    /** qemu_get_ram_ptr: the frame's block, which moves to the head of the list. The decoder's pointer
        stays with its block, which here means a new index. */
    method GetRamPtr(frame: nat) returns (found: bool)
      requires Valid()
      modifies this`blocks, this`cur
      ensures Valid() && found == BlockOf(old(blocks), frame).Some?
      ensures found ==> frame < mem.Length && Model() == Pointed(old(Model()), BlockOf(old(blocks), frame).value)
      ensures !found ==> Model() == old(Model())
    {
      for i := 0 to |blocks|
        invariant BlockOf(blocks, frame) == match BlockOf(blocks[i..], frame) case None => None case Some(j) => Some(i + j)
        invariant Model() == old(Model())
      {
        assert blocks[i..][0] == blocks[i] && blocks[i..][1..] == blocks[i + 1..];
        if Holds(blocks[i], frame) {
          ApartAt(blocks, mem.Length, i, i);
          ghost var d := Pointed(Model(), i);
          blocks := ToFront(blocks, i);
          cur := match cur case None => None case Some(k) => Some(Renumber(i, k));
          assert Model() == d;
          return true;
        }
      }
      return false;
    }

    /** One page record's payload on a version 4 stream. */
    method StoreFlat(frame: nat, compressed: bool, ghost eos: bool) returns (err: Option<LoadError>)
      requires Valid()
      modifies mem, this`input, this`blocks, this`cur
      ensures Valid()
      ensures match LoadFlat(old(Model()), frame, compressed, eos, old(input))
              case Err(e) => err == Some(e)
              case Ok((d, end), rest) => err == None && Model() == d && eos == end && input == rest
    {
      hide BlockOf;
      hide ToFront;
      hide Pointed;
      var found := GetRamPtr(frame);
      if !found {
        return Some(Abort);
      }
      var size := if compressed then 1 else PAGE_SIZE;
      if |input| < size {
        return Some(EIO);
      }
      if compressed {
        var ch := input[0];
        mem[frame] := seq(PAGE_SIZE, _ => ch);
      } else {
        mem[frame] := input[..PAGE_SIZE];
      }
      input := input[size..];
      return None;
    }

    /** The next record has the flag of the header. */
    predicate StartsWithHeader()
      reads this
    {
      |input| >= 8 && HasFlag(Number(input[..8]) % PAGE_SIZE, MEM_SIZE)
    }

    /** One turn of ram_load's loop. */
    method ReadRecord(version_id: int) returns (err: Option<LoadError>, eos: bool)
      requires Valid()
      modifies mem, this`input, this`cur, this`blocks
      ensures Valid()
      ensures match RecordOf(version_id, old(Model()), old(input))
              case Err(e) => err == Some(e)
              case Ok((d, end), rest) => err == None && Model() == d && eos == end && input == rest
      ensures old(StartsWithHeader()) && err.Some? ==> Model() == old(Model())
    {
      hide LoadBlockList;
      hide LoadCompressed;
      hide LoadPlain;
      hide LoadFlat;
      hide Locate;
      hide Number;
      hide Total;
      hide Dest.Valid;
      if |input| < 8 {
        return Some(EIO), false;
      }
      var v := Number(input[..8]);
      var flags, page := v % PAGE_SIZE, v / PAGE_SIZE;
      input := input[8..];
      eos := HasFlag(flags, EOS);
      if HasFlag(flags, MEM_SIZE) {
        if version_id != 3 {
          err := if page * PAGE_SIZE != Total(blocks) * PAGE_SIZE then Some(EINVAL) else None;
        } else {
          NonEmptyBlocks(Model());
          err := CheckBlockList(page * PAGE_SIZE);
        }
      } else if HasFlag(flags, COMPRESS) {
        err := StoreAny(version_id, flags, page, true, eos);
      } else if HasFlag(flags, PAGE) {
        err := StoreAny(version_id, flags, page, false, eos);
      } else {
        err := None;
      }
    }

    /** A page, by a block and an offset or by an address. */
    method StoreAny(version_id: int, flags: nat, page: nat, compressed: bool, ghost eos: bool) returns (err: Option<LoadError>)
      requires Valid()
      modifies mem, this`input, this`cur, this`blocks
      ensures Valid()
      ensures match (
                if version_id != 3 then LoadFlat(old(Model()), page, compressed, eos, old(input))
                else match Locate(old(Model()), flags, old(input))
                     case Err(e) => Err(e)
                     case Ok(d, rest) => if compressed then LoadCompressed(d, page, eos, rest) else LoadPlain(d, page, eos, rest))
              case Err(e) => err == Some(e)
              case Ok((d, end), rest) => err == None && Model() == d && eos == end && input == rest
    {
      hide LoadCompressed;
      hide LoadPlain;
      hide LoadFlat;
      hide Locate;
      hide Dest.Valid;
      if version_id != 3 {
        err := StoreFlat(page, compressed, eos);
      } else {
        err := HostFromStreamOffset(flags);
        if err.None? {
          err := StorePage(page, compressed, eos);
        }
      }
    }

    /** ram_load: versions before 3 and after 4 are refused with nothing touched, and so is a section
        whose header is not accepted, with nothing stored. */
    method RamLoad(version_id: int) returns (err: Option<LoadError>)
      requires Valid()
      modifies mem, this`input, this`cur, this`blocks
      ensures Valid()
      ensures version_id < 3 || version_id > 4 ==> err == Some(EINVAL) && Model() == old(Model()) && input == old(input)
      ensures 3 <= version_id <= 4 ==>
        match LoadVersion(version_id, old(Model()), old(input))
        case Err(e) => err == Some(e)
        case Ok(d, rest) => err == None && Model() == d && input == rest
      ensures 3 <= version_id <= 4 && old(StartsWithHeader()) && RecordOf(version_id, old(Model()), old(input)).Err? ==>
        Model() == old(Model())
    {
      hide LoadVersion;
      hide LoadRecord;
      hide LoadRecordFlat;
      hide Dest.Valid;
      if version_id < 3 || version_id > 4 {
        return Some(EINVAL);
      }
      var eos := false;
      while !eos
        invariant Valid()
        invariant RecordOf(version_id, old(Model()), old(input)).Err? ==>
          Model() == old(Model()) && input == old(input) && !eos
        invariant !eos ==> LoadVersion(version_id, old(Model()), old(input)) == LoadVersion(version_id, Model(), input)
        invariant eos ==> LoadVersion(version_id, old(Model()), old(input)) == Ok(Model(), input)
        decreases !eos, |input|
      {
        LoadVersionEof(version_id, Model(), input);
        err, eos := ReadRecord(version_id);
        if err.Some? {
          return;
        }
      }
      return None;
    }
  }

  /** One record of a section of either version. */
  function RecordOf(version_id: int, d: Dest, input: seq<byte>): Result<(Dest, bool)>
    requires d.Valid()
  {
    if version_id == 3 then LoadRecord(d, input) else LoadRecordFlat(d, input)
  }

  /** A section of version 3, by blocks, or of version 4, by addresses. */
  function LoadVersion(version_id: int, d: Dest, input: seq<byte>): Result<Dest>
    requires d.Valid()
  {
    if version_id == 3 then Load(d, input) else LoadAllFlat(d, input)
  }

  lemma LoadVersionEof(version_id: int, d: Dest, input: seq<byte>)
    requires d.Valid()
    ensures match RecordOf(version_id, d, input)
            case Err(e) => LoadVersion(version_id, d, input) == Err(e)
            case Ok((d', eos), rest) =>
              d'.Valid() && |rest| < |input|
              && LoadVersion(version_id, d, input) == if eos then Ok(d', rest) else LoadVersion(version_id, d', rest)
  {
    hide LoadRecord;
    hide LoadRecordFlat;
    if version_id == 3 {
      LoadConsumes(d, input);
      LoadEof(d, input);
    } else {
      LoadFlatEof(d, input);
    }
  }

  lemma LoadConsumes(d: Dest, input: seq<byte>)
    requires d.Valid()
    ensures LoadRecord(d, input).Ok? ==> |LoadRecord(d, input).rest| < |input|
  {}

  lemma LoadEof(d: Dest, input: seq<byte>)
    requires d.Valid()
    ensures match LoadRecord(d, input)
            case Err(e) => Load(d, input) == Err(e)
            case Ok((d', eos), rest) => d'.Valid() && Load(d, input) == if eos then Ok(d', rest) else Load(d', rest)
  {
    hide LoadRecord;
  }

  lemma GetIdConsumes(input: seq<byte>)
    ensures GetId(input).Ok? ==> |GetId(input).rest| < |input|
  {}
}
