/** When a dirty page is sent: how ram_save_block gets on with the pages, from call to call and with
    the guest storing in between (arch_init.c). */
module RamFair {
  import opened Common
  import opened RamList
  import opened RamSave
  import opened RamLoad
  import opened RamOrder

  /** How far the scan still is from a page. */
  function Distance(s: Source, q: Pos): nat
    requires s.Valid() && ValidPos(s.blocks, q)
  {
    Ahead(s.blocks, s.Start(), q)
  }

  /** The page that the next call sends. */
  function NextSent(s: Source): (p: Pos)
    requires s.Valid() && s.CanSave() && SaveBlock(s).1 != []
    ensures ValidPos(s.blocks, p) && s.Dirty(p)
  {
    SaveBlockSends(s);
    Scan(s, s.Start(), Total(s.blocks)).value
  }

  /** The next scan starts at the page just sent. */
  lemma Resumes(s: Source)
    requires s.Valid() && s.CanSave() && SaveBlock(s).1 != []
    ensures var p, t := NextSent(s), SaveBlock(s).0;
      && t.Valid() && t.CanSave() && t.blocks == s.blocks && t.mem == s.mem && t.Start() == p && t.last.Some?
      && forall r :: ValidPos(s.blocks, r) ==> t.Dirty(r) == (s.Dirty(r) && r != p)
  {
    hide AllApart;
    hide Total;
    hide OtherFlags;
    SaveBlockSends(s);
  }

  lemma ScanMeets(s: Source) returns (m: nat)
    requires s.Valid() && s.CanSave() && SaveBlock(s).1 != []
    ensures AllNonEmpty(s.blocks) && m < Total(s.blocks) && Steps(s.blocks, s.Start(), m) == NextSent(s)
    ensures forall k: nat :: k < m ==> !s.Dirty(Steps(s.blocks, s.Start(), k))
  {
    hide AllApart;
    hide Total;
    hide Steps;
    hide Source.Dirty;
    m := ScanIsFirst(s, s.Start(), Total(s.blocks));
  }

  lemma SomeIsSent(s: Source, q: Pos)
    requires s.Valid() && s.CanSave() && ValidPos(s.blocks, q) && s.Dirty(q)
    ensures SaveBlock(s).1 != []
  {
    SaveBlockSends(s);
  }

  lemma FirstIsNearest(s: Source, q: Pos)
    requires s.Valid() && s.CanSave() && ValidPos(s.blocks, q) && s.Dirty(q)
    ensures SaveBlock(s).1 != []
    ensures Distance(s, NextSent(s)) <= Distance(s, q)
    ensures NextSent(s) != q ==> Distance(s, NextSent(s)) < Distance(s, q)
    ensures Distance(s, NextSent(s)) == 0 <==> s.Dirty(s.Start())
  {
    hide Source.Valid;
    hide Source.Dirty;
    hide Source.CanSave;
    hide Source.Start;
    hide SaveBlock;
    hide Ahead;
    hide Steps;
    SomeIsSent(s, q);
    var p, n := NextSent(s), Distance(s, q);
    var m := ScanMeets(s);
    AheadIs(s.blocks, s.Start(), p, m);
    AheadIs(s.blocks, s.Start(), q, m);
    AheadIs(s.blocks, s.Start(), q, n);
    AheadIs(s.blocks, s.Start(), s.Start(), 0);
    assert n >= m;
  }

  lemma AheadSplits(blocks: seq<RamBlock>, start: Pos, p: Pos, q: Pos)
    requires ValidPos(blocks, start) && ValidPos(blocks, p) && ValidPos(blocks, q)
    requires Ahead(blocks, start, p) <= Ahead(blocks, start, q)
    ensures Ahead(blocks, p, q) == Ahead(blocks, start, q) - Ahead(blocks, start, p)
  {
    RankBelowTotal(blocks, start);
    RankBelowTotal(blocks, p);
    RankBelowTotal(blocks, q);
  }

  /** A call sends the nearest dirty page, and the next scan starts at that page. So no other dirty page
      falls back, and each comes nearer by as much as the scan went on. */
  lemma SendsNearest(s: Source, q: Pos)
    requires s.Valid() && s.CanSave() && ValidPos(s.blocks, q) && s.Dirty(q)
    ensures SaveBlock(s).1 != []
    ensures var p, t := NextSent(s), SaveBlock(s).0;
      && t.Valid() && t.CanSave() && t.blocks == s.blocks && t.mem == s.mem && t.Start() == p && t.last.Some?
      && Distance(s, p) <= Distance(s, q)
      && (Distance(s, p) == 0 <==> s.Dirty(s.Start()))
      && (p != q ==> Distance(s, p) < Distance(s, q) && Distance(t, q) == Distance(s, q) - Distance(s, p))
      && forall r :: ValidPos(s.blocks, r) ==> t.Dirty(r) == (s.Dirty(r) && r != p)
  {
    hide Source.Valid;
    hide Source.CanSave;
    hide Source.Dirty;
    hide Source.Start;
    hide SaveBlock;
    hide Ahead;
    FirstIsNearest(s, q);
    Resumes(s);
    AheadSplits(s.blocks, s.Start(), NextSent(s), q);
  }

  // ----- Runs: before each call the guest stores to some pages -----

  datatype Store = Store(frame: nat, content: Page, flags: bv8)

  /** The store goes past the lookup, or its block is at the head of the list already. */
  predicate Keeps(s: Source, w: Store) {
    w.frame < |s.dirty| && s.dirty[w.frame] != 0xff ==> BlockOf(s.blocks, w.frame) in {None, Some(0)}
  }

  function Stored(s: Source, w: Store): (t: Source)
    requires s.Valid()
    ensures t.Valid()
  {
    if w.frame < |s.mem| then GuestStore(s, w.frame, w.content, w.flags) else s
  }

  function AllStored(s: Source, ws: seq<Store>): (t: Source)
    requires s.Valid()
    ensures t.Valid()
    decreases |ws|
  {
    if ws == [] then s else AllStored(Stored(s, ws[0]), ws[1..])
  }

  ghost predicate AllKeep(s: Source, ws: seq<Store>)
    requires s.Valid()
    decreases |ws|
  {
    ws != [] ==> Keeps(s, ws[0]) && AllKeep(Stored(s, ws[0]), ws[1..])
  }

  /** What no store that keeps the list changes: where the scan is, and which pages are dirty stays so. */
  ghost predicate Grown(s: Source, t: Source)
    requires s.Valid() && t.Valid()
  {
    && t.blocks == s.blocks && t.last == s.last && t.lastPage == s.lastPage
    && forall p :: ValidPos(s.blocks, p) && s.Dirty(p) ==> t.Dirty(p)
  }

  lemma FrontIsSame(s: Source)
    requires s.Valid()
    ensures Reordered(s, 0) == s
  {
    assert ToFront(s.blocks, 0) == s.blocks;
  }

  lemma StoreGrows(s: Source, w: Store)
    requires s.Valid() && Keeps(s, w)
    ensures Grown(s, Stored(s, w))
  {
    hide ToFront;
    hide AllApart;
    hide Total;
    if w.frame < |s.mem| {
      FrontIsSame(s);
      assert (if s.dirty[w.frame] != 0xff then Looked(s, w.frame) else s) == s;
      StoreDirties(s, w);
    }
  }

  lemma StoreDirties(s: Source, w: Store)
    requires s.Valid() && w.frame < |s.mem|
    ensures RamOrder.Write(s, w.frame, w.content, w.flags).Valid() && Grown(s, RamOrder.Write(s, w.frame, w.content, w.flags))
  {
    var t := RamOrder.Write(s, w.frame, w.content, w.flags);
    FlagSet(s.dirty[w.frame], w.flags);
    forall p | ValidPos(s.blocks, p) && s.Dirty(p)
      ensures t.Dirty(p)
    {
      FrameInjective(s.blocks, |s.mem|, p, p);
    }
  }

  lemma FlagSet(x: bv8, y: bv8)
    ensures (x | y | MIGRATION_DIRTY_FLAG) & MIGRATION_DIRTY_FLAG != 0
  {}

  lemma {:induction false} StoresGrow(s: Source, ws: seq<Store>)
    requires s.Valid() && AllKeep(s, ws)
    ensures Grown(s, AllStored(s, ws))
    decreases |ws|
  {
    hide Source.Valid;
    hide Source.Dirty;
    hide Stored;
    hide Keeps;
    if ws != [] {
      StoreGrows(s, ws[0]);
      StoresGrow(Stored(s, ws[0]), ws[1..]);
    }
  }

  lemma GrownCanSave(s: Source, t: Source)
    requires s.Valid() && s.CanSave() && t.Valid() && Grown(s, t)
    ensures t.CanSave() && t.Start() == s.Start()
  {}

  /** Stores, then a call, over and over, as long as the list of blocks stays as it is. */
  ghost predicate Calm(s: Source, rounds: seq<seq<Store>>)
    requires s.Valid()
    decreases |rounds|
  {
    rounds != [] ==>
      && AllKeep(s, rounds[0]) && AllStored(s, rounds[0]).CanSave()
      && (SaveBlockKeeps(AllStored(s, rounds[0])); Calm(SaveBlock(AllStored(s, rounds[0])).0, rounds[1..]))
  }

  /** Whether one of the calls sends page q. */
  ghost predicate Sent(s: Source, rounds: seq<seq<Store>>, q: Pos)
    requires s.Valid() && Calm(s, rounds)
    decreases |rounds|
  {
    if rounds == [] then false
    else
      var t := AllStored(s, rounds[0]);
      SaveBlockKeeps(t);
      (SaveBlock(t).1 != [] && NextSent(t) == q) || Sent(SaveBlock(t).0, rounds[1..], q)
  }

  /** The number of calls that find the page clean at which the last scan ended, and go on from it. */
  ghost function GoingOn(s: Source, rounds: seq<seq<Store>>): nat
    requires s.Valid() && Calm(s, rounds)
    decreases |rounds|
  {
    if rounds == [] then 0
    else
      var t := AllStored(s, rounds[0]);
      SaveBlockKeeps(t);
      (if t.Dirty(t.Start()) then 0 else 1) + GoingOn(SaveBlock(t).0, rounds[1..])
  }

  /** A dirty page is sent after at most as many calls as it is steps away, not counting those that only
      send the page sent last again because the guest has stored to it since. If all do, no other page
      is sent at all. */
  lemma {:induction false} DirtyIsSent(s: Source, rounds: seq<seq<Store>>, q: Pos)
    requires s.Valid() && s.CanSave() && Calm(s, rounds) && ValidPos(s.blocks, q) && s.Dirty(q)
    ensures rounds != [] && GoingOn(s, rounds) >= Distance(s, q) ==> Sent(s, rounds, q)
    ensures GoingOn(s, rounds) == 0 && Distance(s, q) > 0 ==> !Sent(s, rounds, q)
    decreases |rounds|
  {
    hide Source.Valid;
    hide Source.CanSave;
    hide Source.Dirty;
    hide SaveBlock;
    hide Ahead;
    if rounds != [] {
      var t := AllStored(s, rounds[0]);
      StoresGrow(s, rounds[0]);
      GrownCanSave(s, t);
      SaveBlockKeeps(t);
      SendsNearest(t, q);
      var u := SaveBlock(t).0;
      if NextSent(t) != q {
        DirtyIsSent(u, rounds[1..], q);
        if rounds[1..] == [] {
          assert GoingOn(u, rounds[1..]) == 0;
        }
      }
    }
  }

  // ----- Where it is not so -----

  /** The guest stores to the page that the last scan ended at before each of n calls. */
  function Rewritten(frame: nat, content: Page, n: nat): seq<seq<Store>> {
    seq(n, _ => [Store(frame, content, 0)])
  }

  lemma StoredOnce(s: Source, w: Store)
    requires s.Valid()
    ensures AllStored(s, [w]) == Stored(s, w) && (AllKeep(s, [w]) <==> Keeps(s, w))
  {
    hide Stored;
    hide Keeps;
    hide Source.Valid;
    assert AllStored(Stored(s, w), []) == Stored(s, w) && AllKeep(Stored(s, w), []);
    assert [w][1..] == [];
  }

  lemma StartIsSent(s: Source, content: Page, q: Pos)
    requires s.Valid() && s.CanSave() && |s.blocks| == 1 && ValidPos(s.blocks, q) && s.Dirty(q) && q != s.Start()
    ensures var w := Store(Frame(s.blocks, s.Start()), content, 0);
      var t := Stored(s, w);
      && Keeps(s, w) && t.CanSave() && SaveBlock(t).1 != [] && NextSent(t) == s.Start()
      && var u := SaveBlock(t).0;
      u.Valid() && u.CanSave() && u.blocks == s.blocks && u.Start() == s.Start() && u.Dirty(q)
  {
    var w := Store(Frame(s.blocks, s.Start()), content, 0);
    var t := Stored(s, w);
    StoreGrows(s, w);
    GrownCanSave(s, t);
    StartDirty(s, content);
    hide Source.Valid;
    hide Source.CanSave;
    hide Source.Dirty;
    hide Source.Start;
    hide SaveBlock;
    hide Stored;
    hide Ahead;
    SendsNearest(t, q);
    SendsNearest(t, t.Start());
  }

  lemma StartDirty(s: Source, content: Page)
    requires s.Valid() && |s.blocks| == 1
    ensures var w := Store(Frame(s.blocks, s.Start()), content, 0);
      Keeps(s, w) && Stored(s, w).blocks == s.blocks && Stored(s, w).Dirty(s.Start())
  {
    var w := Store(Frame(s.blocks, s.Start()), content, 0);
    FrameInjective(s.blocks, |s.mem|, s.Start(), s.Start());
    FlagSet(s.dirty[w.frame], 0);
    FrontIsSame(s);
    hide ToFront;
    hide Total;
    hide AllApart;
  }

  /** Then that page is sent each time, and no other, however often. */
  lemma {:induction false} RewritingStarves(s: Source, content: Page, n: nat, q: Pos)
    requires s.Valid() && s.CanSave() && |s.blocks| == 1 && ValidPos(s.blocks, q) && s.Dirty(q) && q != s.Start()
    ensures var rounds := Rewritten(Frame(s.blocks, s.Start()), content, n); Calm(s, rounds) && !Sent(s, rounds, q)
    decreases n
  {
    hide Source.Valid;
    hide Source.CanSave;
    hide Source.Dirty;
    hide SaveBlock;
    hide Stored;
    hide Keeps;
    hide AllStored;
    hide AllKeep;
    var frame := Frame(s.blocks, s.Start());
    if n > 0 {
      var w := Store(frame, content, 0);
      var rounds := Rewritten(frame, content, n);
      assert rounds[0] == [w] && rounds[1..] == Rewritten(frame, content, n - 1);
      StoredOnce(s, w);
      StartIsSent(s, content, q);
      RewritingStarves(SaveBlock(Stored(s, w)).0, content, n - 1, q);
    }
  }

  lemma ThreePages(blocks: seq<RamBlock>)
    requires |blocks| == 3 && blocks[0].pages == blocks[1].pages == blocks[2].pages == 1
    ensures Before(blocks, 0) == 0 && Before(blocks, 1) == 1 && Before(blocks, 2) == 2 && Total(blocks) == 3
  {}

  /** A lookup may put a page back, since it moves the page's block: with three blocks of a page each and
      the scan at the first, the second is next, and then last. */
  lemma LookupPutsBack(s: Source)
    requires s.Valid() && |s.blocks| == 3 && s.blocks[0].pages == s.blocks[1].pages == s.blocks[2].pages == 1
    requires s.last == Some(0) && s.lastPage == 0
    ensures Distance(s, Pos(1, 0)) == 1
    ensures var t := Reordered(s, 1); t.blocks[0] == s.blocks[1] && ValidPos(t.blocks, Pos(0, 0)) && Distance(t, Pos(0, 0)) == 2
  {
    var t := Reordered(s, 1);
    OriginalIs(s.blocks, 1, 0);
    OriginalIs(s.blocks, 1, 1);
    OriginalIs(s.blocks, 1, 2);
    hide ToFront;
    hide AllApart;
    ThreePages(s.blocks);
    ThreePages(t.blocks);
  }
}
