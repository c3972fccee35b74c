/** Live RAM migration as a two-party protocol: guest writes, sections saved by ram_save_live and
    sections replayed by ram_load, in any interleaving. */
module Migration {
  import opened Common
  import opened RamList
  import opened Wire
  import opened RamSave
  import opened RamLoad
  import opened RamOrder

  predicate Paired(s: Source, d: Dest) {
    s.Valid() && d.Valid() && Compatible(s.blocks, d.blocks)
  }

  /** Where the receiver keeps the sender's page p. */
  function Theirs(s: Source, d: Dest, p: Pos): (q: Pos)
    requires Paired(s, d) && ValidPos(s.blocks, p)
    ensures ValidPos(d.blocks, q) && d.blocks[q.block].idstr == s.blocks[p.block].idstr
  {
    assert Known(s.blocks[p.block], d.blocks);
    Pos(Find(d.blocks, s.blocks[p.block].idstr).value, p.page)
  }

  /** Every page that is not dirty is the same on both sides. */
  ghost predicate Synced(s: Source, d: Dest)
    requires Paired(s, d)
  {
    forall p :: ValidPos(s.blocks, p) && !s.Dirty(p) ==> d.PageAt(Theirs(s, d, p)) == s.PageAt(p)
  }

  /** The decoder remembers the block that the sender would leave out of its next record; before
      the first record, everything is still to be sent. */
  ghost predicate Follows(s: Source, d: Dest)
    requires Paired(s, d)
  {
    match s.last
    case None => s.AllDirty()
    case Some(b) => d.cur == Some(Theirs(s, d, Pos(b, s.lastPage)).block)
  }

  /** The two sides are in step: the invariant that every record keeps. */
  ghost predicate InStep(s: Source, d: Dest) {
    Paired(s, d) && Synced(s, d) && Follows(s, d)
  }

  lemma InStepMeans(s: Source, d: Dest)
    requires InStep(s, d)
    ensures s.Valid() && d.Valid() && s.CanSave()
  {}

  lemma TheirsInjective(s: Source, d: Dest, p: Pos, q: Pos)
    requires Paired(s, d) && ValidPos(s.blocks, p) && ValidPos(s.blocks, q) && p != q
    ensures Frame(d.blocks, Theirs(s, d, p)) != Frame(d.blocks, Theirs(s, d, q))
  {
    ApartAt(s.blocks, |s.mem|, p.block, q.block);
    FrameInjective(d.blocks, |d.mem|, Theirs(s, d, p), Theirs(s, d, q));
  }

  /** A page saved and loaded is in step, and no other page falls out of step. */
  lemma StoredStaysSynced(s: Source, d: Dest, p: Pos)
    requires Paired(s, d) && Synced(s, d) && ValidPos(s.blocks, p)
    ensures var j := Theirs(s, d, p).block;
            var s', d' := SaveAt(s, p).0, d.(cur := Some(j)).Stored(Pos(j, p.page), s.PageAt(p));
            InStep(s', d') && d'.blocks == d.blocks && |d'.mem| == |d.mem|
  {
    var t := Theirs(s, d, p);
    var s', d' := SaveAt(s, p).0, d.(cur := Some(t.block)).Stored(t, s.PageAt(p));
    CleanedOnly(s, p);
    FrameInjective(d.blocks, |d.mem|, t, t);
    forall q | ValidPos(s.blocks, q) && !s'.Dirty(q)
      ensures d'.PageAt(Theirs(s', d', q)) == s'.PageAt(q)
    {
      if q != p {
        TheirsInjective(s, d, p, q);
        FrameInjective(d.blocks, |d.mem|, Theirs(s, d, q), Theirs(s, d, q));
        assert s.PageAt(q) == s'.PageAt(q) && !s.Dirty(q);
      }
    }
  }

  lemma SentRecord(s: Source, p: Pos)
    requires s.Valid() && ValidPos(s.blocks, p)
    ensures s.blocks[p.block].Valid() && s.blocks[p.block].pages * PAGE_SIZE < WORD_LIMIT
    ensures SaveAt(s, p).1 == Record(s.blocks[p.block], p.page, s.PageAt(p), s.last == Some(p.block))
  {
    ApartAt(s.blocks, |s.mem|, p.block, p.block);
    BeforeMonotone(s.blocks, p.block + 1, |s.blocks|);
  }

  /** One record: what ram_save_block puts on the stream is loaded onto the page it came from. */
  lemma BlockLoads(s: Source, d: Dest, rest: seq<byte>) returns (d': Dest)
    requires InStep(s, d) && s.Valid() && s.CanSave() && d.Valid()
    ensures d'.Valid() && Load(d, SaveBlock(s).1 + rest) == Load(d', rest)
    ensures InStep(SaveBlock(s).0, d') && SaveBlock(s).0.Valid() && SaveBlock(s).0.CanSave()
  {
    hide Record;
    hide LoadRecord;
    hide SaveAt;
    SaveBlockSends(s);
    if SaveBlock(s).1 == [] {
      assert SaveBlock(s).1 + rest == rest;
      return d;
    }
    var p := Scan(s, s.Start(), Total(s.blocks)).value;
    var t := Theirs(s, d, p);
    d' := d.(cur := Some(t.block)).Stored(t, s.PageAt(p));
    StoredStaysSynced(s, d, p);
    SentRecord(s, p);
    assert Known(s.blocks[p.block], d.blocks);
    RecordLoads(s.blocks[p.block], p.page, s.PageAt(p), s.last == Some(p.block), d, t.block, rest);
    LoadAfterRecord(d, SaveBlock(s).1 + rest, d', rest);
  }

  lemma LoadAfterRecord(d: Dest, input: seq<byte>, d': Dest, rest: seq<byte>)
    requires d.Valid() && LoadRecord(d, input) == Ok((d', false), rest)
    ensures d'.Valid() && Load(d, input) == Load(d', rest)
  {}

  /** The rate-limited loop. */
  lemma {:induction false} LoopLoads(s: Source, d: Dest, k: nat, rest: seq<byte>) returns (d': Dest)
    requires InStep(s, d) && s.Valid() && s.CanSave() && d.Valid()
    ensures d'.Valid() && Load(d, SaveLoop(s, k).1 + rest) == Load(d', rest)
    ensures InStep(SaveLoop(s, k).0, d')
    decreases k
  {
    hide SaveBlock;
    hide Load;
    hide InStep;
    hide Source.Valid;
    hide Source.CanSave;
    hide Dest.Valid;
    if k == 0 {
      d' := d;
      assert [] + rest == rest;
    } else {
      var s1, b := SaveBlock(s).0, SaveBlock(s).1;
      if b == [] {
        d' := BlockLoads(s, d, rest);
      } else {
        LoopUnfold(s, k, rest);
        d' := BlockLoads(s, d, SaveLoop(s1, k - 1).1 + rest);
        d' := LoopLoads(s1, d', k - 1, rest);
      }
    }
  }

  lemma LoopUnfold(s: Source, k: nat, rest: seq<byte>)
    requires s.Valid() && s.CanSave() && 0 < k && SaveBlock(s).1 != []
    ensures SaveBlock(s).0.Valid() && SaveBlock(s).0.CanSave()
    ensures SaveLoop(s, k).0 == SaveLoop(SaveBlock(s).0, k - 1).0
    ensures SaveLoop(s, k).1 + rest == SaveBlock(s).1 + (SaveLoop(SaveBlock(s).0, k - 1).1 + rest)
  {
    hide SaveBlock;
    hide Source.Valid;
    hide Source.CanSave;
    SaveBlockKeeps(s);
    Append3(SaveBlock(s).1, SaveLoop(SaveBlock(s).0, k - 1).1, rest);
  }

  lemma Append3(a: seq<byte>, b: seq<byte>, c: seq<byte>)
    ensures (a + b) + c == a + (b + c)
  {}

  /** The flush of stage 3. */
  lemma {:induction false} FlushLoads(s: Source, d: Dest, rest: seq<byte>) returns (d': Dest)
    requires InStep(s, d) && s.Valid() && s.CanSave() && d.Valid()
    ensures d'.Valid() && Load(d, SaveAll(s).1 + rest) == Load(d', rest)
    ensures InStep(SaveAll(s).0, d')
    decreases Remaining(s)
  {
    hide SaveBlock;
    hide Load;
    hide InStep;
    hide Source.Valid;
    hide Source.CanSave;
    hide Source.AllClean;
    hide Dest.Valid;
    hide Remaining;
    var s1, b := SaveBlock(s).0, SaveBlock(s).1;
    if b == [] {
      d' := BlockLoads(s, d, rest);
    } else {
      FlushUnfold(s, rest);
      d' := BlockLoads(s, d, SaveAll(s1).1 + rest);
      d' := FlushLoads(s1, d', rest);
    }
  }

  lemma FlushUnfold(s: Source, rest: seq<byte>)
    requires s.Valid() && s.CanSave() && SaveBlock(s).1 != []
    ensures SaveBlock(s).0.Valid() && SaveBlock(s).0.CanSave() && Remaining(SaveBlock(s).0) < Remaining(s)
    ensures SaveAll(s).0 == SaveAll(SaveBlock(s).0).0
    ensures SaveAll(s).1 + rest == SaveBlock(s).1 + (SaveAll(SaveBlock(s).0).1 + rest)
  {
    hide SaveBlock;
    hide Remaining;
    hide Source.Valid;
    hide Source.CanSave;
    hide Source.AllClean;
    SaveBlockKeeps(s);
    SaveBlockDecreases(s);
    Append3(SaveBlock(s).1, SaveAll(SaveBlock(s).0).1, rest);
  }

  /** The list header is consumed exactly if every block is known to the receiver, and refused otherwise. */
  lemma HeaderLoads(s: Source, d: Dest, tail: seq<byte>)
    requires s.Valid() && d.Valid() && forall b :: b in s.blocks ==> b.Valid()
    ensures LoadRecord(d, Header(s.blocks) + tail)
         == if Compatible(s.blocks, d.blocks) then Ok((d, false), tail) else Err(EINVAL)
  {
    hide Be64;
    hide Number;
    hide BlockList;
    hide LoadBlockList;
    var word, list := Be64(Total(s.blocks) * PAGE_SIZE + MEM_SIZE), BlockList(s.blocks);
    assert Header(s.blocks) + tail == word + (list + tail);
    FlagsOfWord(Total(s.blocks), MEM_SIZE);
    Prefix(word, list + tail);
    NonEmptyBlocks(d);
    BlockListLoads(s.blocks, d.blocks, tail);
  }

  lemma BeginCompatible(s: Source, d: Dest)
    requires s.Valid()
    ensures Compatible(Begin(s).blocks, d.blocks) <==> Compatible(s.blocks, d.blocks)
  {
    BeginMarksAll(s);
    assert forall b :: b in Begin(s).blocks <==> b in multiset(Begin(s).blocks);
    assert forall b :: b in s.blocks <==> b in multiset(s.blocks);
  }

  lemma BeginInStep(s: Source, d: Dest)
    requires Paired(s, d)
    ensures InStep(Begin(s), d)
  {
    BeginMarksAll(s);
    BeginCompatible(s, d);
  }

  /** Loops, flush and end-of-section record. */
  lemma BodyOfSectionLoads(s: Source, d: Dest, stage: int, k: nat) returns (d': Dest)
    requires InStep(s, d) && s.Valid() && s.CanSave() && d.Valid()
    ensures var limited := SaveLoop(s, k);
            var flushed := if stage == 3 then SaveAll(limited.0) else (limited.0, []);
            && d'.Valid() && Load(d, limited.1 + (flushed.1 + Be64(EOS))) == Ok(d', [])
            && InStep(flushed.0, d')
  {
    hide Load;
    hide Be64;
    hide InStep;
    hide SaveLoop;
    hide SaveAll;
    hide Source.Valid;
    hide Source.CanSave;
    hide Dest.Valid;
    var limited := SaveLoop(s, k);
    var flushed := if stage == 3 then SaveAll(limited.0) else (limited.0, []);
    d' := LoopLoads(s, d, k, flushed.1 + Be64(EOS));
    if stage == 3 {
      d' := FlushLoads(limited.0, d', Be64(EOS));
    } else {
      assert [] + Be64(EOS) == Be64(EOS);
    }
    EosLoads(d');
  }

  /** ram_load reads back what ram_save_live wrote, to the last byte, and the two sides stay in step. */
  lemma SectionLoads(s: Source, d: Dest, stage: int, k: nat) returns (d': Dest)
    requires Paired(s, d) && 0 <= stage && (stage == 1 || InStep(s, d))
    ensures stage == 1 || s.CanSave()
    ensures Load(d, SaveLive(s, stage, true, k).1) == Ok(d', [])
    ensures InStep(SaveLive(s, stage, true, k).0, d')
  {
    hide Load;
    hide LoadRecord;
    hide Be64;
    hide SaveLoop;
    hide SaveAll;
    hide Header;
    if stage == 1 {
      BeginInStep(s, d);
    }
    var s0 := if stage == 1 then Begin(s) else s;
    InStepMeans(s0, d);
    d' := BodyOfSectionLoads(s0, d, stage, k);
    var limited := SaveLoop(s0, k);
    var flushed := if stage == 3 then SaveAll(limited.0) else (limited.0, []);
    var body := limited.1 + (flushed.1 + Be64(EOS));
    if stage == 1 {
      ValidBlocks(s0);
      HeaderLoads(s0, d, body);
      LoadAfterRecord(d, Header(s0.blocks) + body, d, body);
      assert SaveLive(s, stage, true, k).1 == Header(s0.blocks) + body;
    } else {
      assert SaveLive(s, stage, true, k).1 == body;
    }
  }

  /** The first section is accepted exactly when every block of the sender exists on the receiver
      with the same length; otherwise ram_load returns -EINVAL. */
  lemma FirstSectionAccepted(s: Source, d: Dest, k: nat)
    requires s.Valid() && d.Valid()
    ensures Load(d, SaveLive(s, 1, true, k).1).Ok? <==> Compatible(s.blocks, d.blocks)
    ensures !Compatible(s.blocks, d.blocks) ==> Load(d, SaveLive(s, 1, true, k).1) == Err(EINVAL)
  {
    hide LoadRecord;
    hide Be64;
    hide SaveLoop;
    hide SaveAll;
    hide Header;
    hide Compatible;
    if Compatible(s.blocks, d.blocks) {
      var d' := SectionLoads(s, d, 1, k);
    } else {
      BeginMarksAll(s);
      BeginCompatible(s, d);
      var s0 := Begin(s);
      ValidBlocks(s0);
      var body := SaveLoop(s0, k).1 + Be64(EOS);
      HeaderLoads(s0, d, body);
      assert SaveLive(s, 1, true, k).1 == Header(s0.blocks) + body;
    }
  }

  // ----- Runs -----

  /** The two parties, the sections in flight, oldest first, and whether stage 1 has happened. */
  datatype System = System(src: Source, dst: Dest, wire: seq<seq<byte>>, begun: bool)

  /** A guest store, which sets the migration flag among others and may rearrange the list of blocks;
      a lookup for a device or a TLB entry, at either party, which may do so too; one call of
      ram_save_live; one call of ram_load on the oldest section in flight. */
  datatype Event =
    | GuestWrite(frame: nat, content: Page, flags: bv8)
    | Lookup(sending: bool, frame: nat)
    | Save(stage: int, synced: bool, k: nat)
    | Receive

  /** One event. An event that cannot happen yet, such as a later stage before stage 1 or a
      receipt with nothing in flight, changes nothing; nor does a section that fails to load. */
  function Step(sys: System, e: Event): System {
    match e
    case GuestWrite(frame, content, flags) =>
      if sys.src.Valid() && frame < |sys.src.mem| then sys.(src := GuestStore(sys.src, frame, content, flags)) else sys
    case Lookup(sending, frame) =>
      if sending then if sys.src.Valid() then sys.(src := Looked(sys.src, frame)) else sys
      else if sys.dst.Valid() then sys.(dst := LookedAt(sys.dst, frame)) else sys
    case Save(stage, synced, k) =>
      if !sys.src.Valid() || !(stage == 1 || (sys.begun && sys.src.CanSave())) || !Sends(stage, synced) then sys
      else
        var (s', section) := SaveLive(sys.src, stage, synced, k);
        System(s', sys.dst, sys.wire + [section], true)
    case Receive =>
      if sys.wire == [] || !sys.dst.Valid() then sys
      else match Load(sys.dst, sys.wire[0])
        case Err(_) => sys
        case Ok(d, _) => sys.(dst := d, wire := sys.wire[1..])
  }

  function Run(sys: System, events: seq<Event>): System {
    if events == [] then sys else Step(Run(sys, events[..|events| - 1]), events[|events| - 1])
  }

  /** What the receiver will be once everything in flight has been loaded, each section whole. */
  function Delivered(d: Dest, wire: seq<seq<byte>>): (r: Option<Dest>)
    requires d.Valid()
    ensures r.Some? ==> r.value.Valid()
    decreases |wire|
  {
    if wire == [] then Some(d)
    else match Load(d, wire[0])
      case Err(_) => None
      case Ok(d', rest) => if rest == [] then Delivered(d', wire[1..]) else None
  }

  /** Before stage 1, nothing is in flight; from then on, everything in flight will load, and
      will leave the two sides in step. */
  ghost predicate Inv(sys: System) {
    && sys.dst.Valid()
    && (!sys.begun ==> sys.wire == [] && Paired(sys.src, sys.dst))
    && (sys.begun ==> Delivered(sys.dst, sys.wire).Some? && InStep(sys.src, Delivered(sys.dst, sys.wire).value))
  }

  lemma {:induction false} DeliveredAppend(d: Dest, wire: seq<seq<byte>>, section: seq<byte>)
    requires d.Valid() && Delivered(d, wire).Some?
    ensures Delivered(d, wire + [section]) == Delivered(Delivered(d, wire).value, [section])
    decreases |wire|
  {
    hide Load;
    if wire != [] {
      DeliveredAppend(Load(d, wire[0]).value, wire[1..], section);
      assert (wire + [section])[0] == wire[0] && (wire + [section])[1..] == wire[1..] + [section];
    } else {
      assert wire + [section] == [section];
    }
  }

  lemma FlagSet(x: bv8, y: bv8)
    ensures (x | y | MIGRATION_DIRTY_FLAG) & MIGRATION_DIRTY_FLAG != 0
  {}

  /** A guest store keeps the two sides in step, since it makes its page dirty. */
  lemma WriteInStep(s: Source, d: Dest, frame: nat, content: Page, flags: bv8)
    requires InStep(s, d) && frame < |s.mem|
    ensures InStep(Write(s, frame, content, flags), d)
  {
    var s' := Write(s, frame, content, flags);
    FlagSet(s.dirty[frame], flags);
    forall p | ValidPos(s.blocks, p)
      ensures s.Dirty(p) ==> s'.Dirty(p)
      ensures !s'.Dirty(p) ==> s'.PageAt(p) == s.PageAt(p)
    {
      FrameInjective(s.blocks, |s.mem|, p, p);
    }
  }

  /** Pages in the rearranged list of the sender, and the same pages before. */
  lemma ReorderedPages(s: Source, i: nat, p: Pos)
    requires s.Valid() && i < |s.blocks| && ValidPos(Reordered(s, i).blocks, p)
    ensures var t, q := Reordered(s, i), Pos(Original(i, p.block), p.page);
      && ValidPos(s.blocks, q) && t.blocks[p.block] == s.blocks[q.block]
      && t.Dirty(p) == s.Dirty(q) && t.PageAt(p) == s.PageAt(q)
  {
    hide AllApart;
    hide ToFront;
    hide Total;
    OriginalIs(s.blocks, i, p.block);
  }

  lemma ReorderedPaired(s: Source, d: Dest, i: nat)
    requires Paired(s, d) && i < |s.blocks|
    ensures Paired(Reordered(s, i), d)
  {
    hide AllApart;
    hide ToFront;
    hide Known;
    var now := Reordered(s, i).blocks;
    forall b | b in now
      ensures Known(b, d.blocks)
    {
      var k :| 0 <= k < |now| && now[k] == b;
      OriginalIs(s.blocks, i, k);
    }
  }

  /** Rearranging the sender's list keeps the two sides in step, since blocks are known by name. */
  lemma ReorderedInStep(s: Source, d: Dest, i: nat)
    requires InStep(s, d) && i < |s.blocks|
    ensures InStep(Reordered(s, i), d)
  {
    hide AllApart;
    hide ToFront;
    hide Find;
    hide Known;
    hide Total;
    hide Original;
    ReorderedPaired(s, d, i);
    var t := Reordered(s, i);
    forall p | ValidPos(t.blocks, p)
      ensures s.last.None? ==> t.Dirty(p)
      ensures !t.Dirty(p) ==> d.PageAt(Theirs(t, d, p)) == t.PageAt(p)
    {
      ReorderedPages(s, i, p);
    }
    FrontSame(s.blocks, i);
  }

  /** So does rearranging the receiver's. */
  lemma PointedInStep(s: Source, d: Dest, i: nat)
    requires Paired(s, d) && i < |d.blocks|
    ensures Paired(s, Pointed(d, i)) && (InStep(s, d) ==> InStep(s, Pointed(d, i)))
  {
    hide AllApart;
    hide ToFront;
    hide Find;
    hide Total;
    var e := Pointed(d, i);
    FrontSame(d.blocks, i);
    forall b | b in s.blocks
      ensures Known(b, e.blocks)
    {
      FindFront(d.blocks, |d.mem|, i, b.idstr);
      assert Known(b, d.blocks);
    }
    forall p | ValidPos(s.blocks, p)
      ensures Theirs(s, e, p) == Pos(Renumber(i, Theirs(s, d, p).block), p.page)
      ensures e.PageAt(Theirs(s, e, p)) == d.PageAt(Theirs(s, d, p))
    {
      FindFront(d.blocks, |d.mem|, i, s.blocks[p.block].idstr);
    }
  }

  lemma {:induction false} DeliveredEither(d: Dest, i: nat, wire: seq<seq<byte>>)
    requires d.Valid() && i < |d.blocks|
    ensures match Delivered(d, wire)
            case None => Delivered(Pointed(d, i), wire) == None
            case Some(e) => e.blocks == d.blocks && Delivered(Pointed(d, i), wire) == Some(Pointed(e, i))
    decreases |wire|
  {
    hide Load;
    hide Pointed;
    hide Dest.Valid;
    if wire != [] {
      LoadEither(d, i, wire[0]);
      if Load(d, wire[0]).Ok? && Load(d, wire[0]).rest == [] {
        DeliveredEither(Load(d, wire[0]).value, i, wire[1..]);
      }
    }
  }

  lemma LookedKeeps(s: Source, d: Dest, frame: nat)
    requires Paired(s, d)
    ensures Paired(Looked(s, frame), d) && (InStep(s, d) ==> InStep(Looked(s, frame), d))
  {
    hide Paired;
    hide InStep;
    hide Reordered;
    PairedMeans(s, d);
    match BlockOf(s.blocks, frame)
    case None =>
    case Some(i) =>
      ReorderedPaired(s, d, i);
      if InStep(s, d) {
        ReorderedInStep(s, d, i);
      }
  }

  lemma PairedMeans(s: Source, d: Dest)
    requires Paired(s, d)
    ensures s.Valid() && d.Valid()
  {}

  lemma LookupKeepsInv(sys: System, sending: bool, frame: nat)
    requires Inv(sys)
    ensures Inv(Step(sys, Lookup(sending, frame)))
  {
    hide Load;
    hide InStep;
    hide Paired;
    hide Looked;
    hide Pointed;
    hide Delivered;
    PairedBeforeSave(sys);
    var d := if sys.begun then Delivered(sys.dst, sys.wire).value else sys.dst;
    PairedMeans(sys.src, d);
    if sending {
      LookedKeeps(sys.src, d, frame);
    } else {
      match BlockOf(sys.dst.blocks, frame)
      case None =>
      case Some(i) =>
        DeliveredEither(sys.dst, i, sys.wire);
        if sys.begun {
          PointedInStep(sys.src, d, i);
        } else {
          PointedInStep(sys.src, sys.dst, i);
        }
    }
  }

  /** The lookup and the store itself, one after the other. */
  lemma GuestWriteKeepsInv(sys: System, frame: nat, content: Page, flags: bv8)
    requires Inv(sys)
    ensures Inv(Step(sys, GuestWrite(frame, content, flags)))
  {
    hide Load;
    hide InStep;
    hide Paired;
    hide Looked;
    hide Delivered;
    PairedBeforeSave(sys);
    var d := if sys.begun then Delivered(sys.dst, sys.wire).value else sys.dst;
    PairedMeans(sys.src, d);
    if frame < |sys.src.mem| {
      var s := if sys.src.dirty[frame] != 0xff then Looked(sys.src, frame) else sys.src;
      LookedKeeps(sys.src, d, frame);
      WritePaired(s, d, frame, content, flags);
      if sys.begun {
        WriteInStep(s, d, frame, content, flags);
      }
    }
  }

  lemma WritePaired(s: Source, d: Dest, frame: nat, content: Page, flags: bv8)
    requires Paired(s, d) && frame < |s.mem|
    ensures Paired(Write(s, frame, content, flags), d)
  {}

  lemma SaveKeepsInv(sys: System, stage: int, synced: bool, k: nat)
    requires Inv(sys)
    ensures Inv(Step(sys, Save(stage, synced, k)))
  {
    hide Load;
    hide SaveLive;
    hide InStep;
    hide Source.CanSave;
    hide Paired;
    if sys.src.Valid() && (stage == 1 || (sys.begun && sys.src.CanSave())) && Sends(stage, synced) {
      var d := if sys.begun then Delivered(sys.dst, sys.wire).value else sys.dst;
      PairedBeforeSave(sys);
      var d' := SectionLoads(sys.src, d, stage, k);
      var section := SaveLive(sys.src, stage, true, k).1;
      DeliveredAppend(sys.dst, sys.wire, section);
      OneDelivered(d, section, d');
      InStepMeans(SaveLive(sys.src, stage, true, k).0, d');
    }
  }

  lemma PairedBeforeSave(sys: System)
    requires Inv(sys)
    ensures Paired(sys.src, if sys.begun then Delivered(sys.dst, sys.wire).value else sys.dst)
  {}

  lemma OneDelivered(d: Dest, section: seq<byte>, d': Dest)
    requires d.Valid() && Load(d, section) == Ok(d', [])
    ensures d'.Valid() && Delivered(d, [section]) == Some(d')
  {
    hide Load;
  }

  /** Every event keeps the invariant. */
  lemma StepKeepsInv(sys: System, e: Event)
    requires Inv(sys)
    ensures Inv(Step(sys, e))
  {
    match e
    case GuestWrite(frame, content, flags) =>
      GuestWriteKeepsInv(sys, frame, content, flags);
    case Lookup(sending, frame) =>
      LookupKeepsInv(sys, sending, frame);
    case Save(stage, synced, k) =>
      SaveKeepsInv(sys, stage, synced, k);
    case Receive =>
      ReceiveKeepsInv(sys);
  }

  lemma ReceiveKeepsInv(sys: System)
    requires Inv(sys)
    ensures Inv(Step(sys, Receive))
    ensures sys.wire != [] ==> |Step(sys, Receive).wire| == |sys.wire| - 1
    ensures Step(sys, Receive).src == sys.src && Step(sys, Receive).begun == sys.begun
  {
    hide Load;
    hide InStep;
  }

  /** Safety: in every run from two compatible parties, whatever the interleaving, no section in
      flight or yet to come is misread, and each page already sent is dirty again or will be the
      same on the receiver. */
  lemma {:induction false} RunKeepsInv(sys: System, events: seq<Event>)
    requires Inv(sys)
    ensures Inv(Run(sys, events))
  {
    if events != [] {
      RunKeepsInv(sys, events[..|events| - 1]);
      StepKeepsInv(Run(sys, events[..|events| - 1]), events[|events| - 1]);
    }
  }

  /** What the invariant says once nothing is in flight. */
  lemma QuiescentIsSynced(sys: System, p: Pos)
    requires Inv(sys) && sys.begun && sys.wire == [] && ValidPos(sys.src.blocks, p)
    ensures Paired(sys.src, sys.dst)
    ensures sys.src.Dirty(p) || sys.dst.PageAt(Theirs(sys.src, sys.dst, p)) == sys.src.PageAt(p)
  {}

  function Receipts(n: nat): seq<Event> { seq(n, _ => Receive) }

  lemma {:induction false} ReceiptsDrain(sys: System, n: nat)
    requires Inv(sys) && n <= |sys.wire|
    ensures var end := Run(sys, Receipts(n));
            Inv(end) && |end.wire| == |sys.wire| - n && end.src == sys.src && end.begun == sys.begun
  {
    if n > 0 {
      ReceiptsDrain(sys, n - 1);
      assert Receipts(n)[..n - 1] == Receipts(n - 1);
      ReceiveKeepsInv(Run(sys, Receipts(n - 1)));
    }
  }

  /** Convergence: with the guest stopped, one stage-3 section and the receipt of everything in
      flight make every page of the receiver's RAM equal to the sender's. */
  lemma MigrationConverges(start: System, events: seq<Event>, k: nat, p: Pos)
    requires Inv(start) && Run(start, events).begun
    ensures var last := Step(Run(start, events), Save(3, true, k));
            var end := Run(last, Receipts(|last.wire|));
            && end.wire == [] && end.src.mem == Run(start, events).src.mem
            && Paired(end.src, end.dst)
            && (ValidPos(end.src.blocks, p) ==> end.dst.PageAt(Theirs(end.src, end.dst, p)) == end.src.PageAt(p))
  {
    RunKeepsInv(start, events);
    var sys := Run(start, events);
    InStepMeans(sys.src, Delivered(sys.dst, sys.wire).value);
    StepKeepsInv(sys, Save(3, true, k));
    var last := Step(sys, Save(3, true, k));
    FinalStageIsClean(sys.src, k);
    SaveLiveKeepsMemory(sys.src, 3, true, k);
    ReceiptsDrain(last, |last.wire|);
    var end := Run(last, Receipts(|last.wire|));
    if ValidPos(end.src.blocks, p) {
      QuiescentIsSynced(end, p);
    }
  }
}
