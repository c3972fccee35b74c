/** RAM blocks and the cyclic order in which migration walks over their pages (arch_init.c,
    cpu-all.h). Addresses and lengths are counted in target pages; the stream counts bytes. */
module RamList {
  import opened Common

  /** TARGET_PAGE_SIZE of the ARM system target. */
  const PAGE_SIZE: nat := 1024

  type Page = p: seq<byte> | |p| == PAGE_SIZE witness seq(PAGE_SIZE, _ => 0)

  /** struct RAMBlock: `first` is offset >> TARGET_PAGE_BITS, `pages` the length in pages. */
  datatype RamBlock = RamBlock(idstr: seq<byte>, first: nat, pages: nat) {
    /** A C string that fits its 256-byte buffer, on at least one page. */
    predicate Valid() {
      |idstr| < 256 && 0 !in idstr && 0 < pages
    }

    /** Different names, and no page in common. */
    predicate Apart(b: RamBlock) {
      idstr != b.idstr && (first + pages <= b.first || b.first + b.pages <= first)
    }
  }

  /** What qemu_ram_alloc keeps of ram_list: valid blocks within memory, pairwise apart. */
  predicate AllApart(blocks: seq<RamBlock>, frames: nat) {
    blocks == [] || (
      && blocks[0].Valid() && blocks[0].first + blocks[0].pages <= frames
      && (forall b :: b in blocks[1..] ==> blocks[0].Apart(b))
      && AllApart(blocks[1..], frames))
  }

  lemma {:induction false} ApartAt(blocks: seq<RamBlock>, frames: nat, i: nat, j: nat)
    requires AllApart(blocks, frames) && i < |blocks| && j < |blocks|
    ensures blocks[i].Valid() && blocks[i].first + blocks[i].pages <= frames
    ensures i != j ==> blocks[i].Apart(blocks[j])
  {
    if i > 0 && j > 0 {
      ApartAt(blocks[1..], frames, i - 1, j - 1);
    } else if i > 0 {
      ApartAt(blocks[1..], frames, i - 1, i - 1);
      assert blocks[i] in blocks[1..];
    } else if j > 0 {
      assert blocks[j] in blocks[1..];
    }
  }

  // ----- Positions: a block and a page in it -----

  datatype Pos = Pos(block: nat, page: nat)

  predicate ValidPos(blocks: seq<RamBlock>, p: Pos) {
    p.block < |blocks| && p.page < blocks[p.block].pages
  }

  /** The page frame of a position, an index into memory and into the dirty flags. */
  function Frame(blocks: seq<RamBlock>, p: Pos): nat
    requires ValidPos(blocks, p)
  {
    blocks[p.block].first + p.page
  }

  lemma FrameInjective(blocks: seq<RamBlock>, frames: nat, p: Pos, q: Pos)
    requires AllApart(blocks, frames) && ValidPos(blocks, p) && ValidPos(blocks, q)
    ensures Frame(blocks, p) < frames
    ensures Frame(blocks, p) == Frame(blocks, q) ==> p == q
  {
    ApartAt(blocks, frames, p.block, q.block);
  }

  /** One step of the scan: the next page, or the first page of the next block, cyclically. */
  function Next(blocks: seq<RamBlock>, p: Pos): Pos
    requires ValidPos(blocks, p)
  {
    if p.page + 1 < blocks[p.block].pages then Pos(p.block, p.page + 1)
    else if p.block + 1 < |blocks| then Pos(p.block + 1, 0)
    else Pos(0, 0)
  }

  /** The number of pages in the first i blocks. */
  function Before(blocks: seq<RamBlock>, i: nat): nat
    requires i <= |blocks|
  {
    if i == 0 then 0 else Before(blocks, i - 1) + blocks[i - 1].pages
  }

  function Total(blocks: seq<RamBlock>): nat { Before(blocks, |blocks|) }

  function Rank(blocks: seq<RamBlock>, p: Pos): nat
    requires ValidPos(blocks, p)
  {
    Before(blocks, p.block) + p.page
  }

  predicate AllNonEmpty(blocks: seq<RamBlock>) {
    blocks != [] && forall b :: b in blocks ==> 0 < b.pages
  }

  lemma {:induction false} BeforeMonotone(blocks: seq<RamBlock>, i: nat, j: nat)
    requires i <= j <= |blocks|
    ensures Before(blocks, i) <= Before(blocks, j)
  {
    if i < j {
      BeforeMonotone(blocks, i, j - 1);
    }
  }

  lemma RankBelowTotal(blocks: seq<RamBlock>, p: Pos)
    requires ValidPos(blocks, p)
    ensures Rank(blocks, p) < Before(blocks, p.block + 1) <= Total(blocks)
  {
    BeforeMonotone(blocks, p.block + 1, |blocks|);
  }

  lemma RankInjective(blocks: seq<RamBlock>, p: Pos, q: Pos)
    requires ValidPos(blocks, p) && ValidPos(blocks, q) && Rank(blocks, p) == Rank(blocks, q)
    ensures p == q
  {
    if p.block < q.block {
      RankBelowTotal(blocks, p);
      BeforeMonotone(blocks, p.block + 1, q.block);
    } else if q.block < p.block {
      RankBelowTotal(blocks, q);
      BeforeMonotone(blocks, q.block + 1, p.block);
    }
  }

  /** The scan moves up by one in rank, and from the last page to the first. */
  lemma RankNext(blocks: seq<RamBlock>, p: Pos)
    requires AllNonEmpty(blocks) && ValidPos(blocks, p)
    ensures ValidPos(blocks, Next(blocks, p))
    ensures Rank(blocks, Next(blocks, p)) == if Rank(blocks, p) + 1 == Total(blocks) then 0 else Rank(blocks, p) + 1
  {
    var q := Next(blocks, p);
    assert blocks[q.block] in blocks;
    if q == Pos(0, 0) {
    } else {
      RankBelowTotal(blocks, q);
    }
  }

  /** The position after n steps of the scan from p. */
  function Steps(blocks: seq<RamBlock>, p: Pos, n: nat): (q: Pos)
    requires AllNonEmpty(blocks) && ValidPos(blocks, p)
    ensures ValidPos(blocks, q)
  {
    if n == 0 then p
    else
      var q := Steps(blocks, p, n - 1);
      RankNext(blocks, q);
      Next(blocks, q)
  }

  lemma {:induction false} StepsRank(blocks: seq<RamBlock>, p: Pos, n: nat)
    requires AllNonEmpty(blocks) && ValidPos(blocks, p) && n <= Total(blocks)
    ensures Rank(blocks, p) < Total(blocks)
    ensures var r := Rank(blocks, p) + n;
            Rank(blocks, Steps(blocks, p, n)) == if r < Total(blocks) then r else r - Total(blocks)
  {
    RankBelowTotal(blocks, p);
    if n > 0 {
      StepsRank(blocks, p, n - 1);
      RankNext(blocks, Steps(blocks, p, n - 1));
    }
  }

  /** The scan is back at its start after exactly one round over all pages, and not before. */
  lemma ScanReturns(blocks: seq<RamBlock>, p: Pos, n: nat)
    requires AllNonEmpty(blocks) && ValidPos(blocks, p) && 0 < n <= Total(blocks)
    ensures Steps(blocks, p, n) == p <==> n == Total(blocks)
  {
    StepsRank(blocks, p, n);
    if n == Total(blocks) {
      RankInjective(blocks, Steps(blocks, p, n), p);
    }
  }

  /** Within one round, no page is visited twice, from any start. */
  lemma VisitedOnce(blocks: seq<RamBlock>, p: Pos, m: nat, n: nat)
    requires AllNonEmpty(blocks) && ValidPos(blocks, p) && m < n < Total(blocks)
    ensures Steps(blocks, p, m) != Steps(blocks, p, n)
  {
    StepsRank(blocks, p, m);
    StepsRank(blocks, p, n);
  }

  /** Within one round, every page is visited, from any start. */
  lemma VisitedAll(blocks: seq<RamBlock>, p: Pos, q: Pos) returns (n: nat)
    requires AllNonEmpty(blocks) && ValidPos(blocks, p) && ValidPos(blocks, q)
    ensures n < Total(blocks) && Steps(blocks, p, n) == q
  {
    RankBelowTotal(blocks, p);
    RankBelowTotal(blocks, q);
    var d := Rank(blocks, q) - Rank(blocks, p);
    n := if d >= 0 then d else d + Total(blocks);
    StepsRank(blocks, p, n);
    RankInjective(blocks, Steps(blocks, p, n), q);
  }

  lemma {:induction false} StepsAdd(blocks: seq<RamBlock>, p: Pos, n: nat, m: nat)
    requires AllNonEmpty(blocks) && ValidPos(blocks, p)
    ensures Steps(blocks, Steps(blocks, p, n), m) == Steps(blocks, p, n + m)
  {
    if m > 0 {
      StepsAdd(blocks, p, n, m - 1);
    }
  }

  /** The number of steps of the scan from p to q. */
  function Ahead(blocks: seq<RamBlock>, p: Pos, q: Pos): nat
    requires ValidPos(blocks, p) && ValidPos(blocks, q)
  {
    var d := Rank(blocks, q) - Rank(blocks, p);
    if d >= 0 then d else (RankBelowTotal(blocks, p); d + Total(blocks))
  }

  /** It is the only number of steps within one round that leads there. */
  lemma AheadIs(blocks: seq<RamBlock>, p: Pos, q: Pos, n: nat)
    requires AllNonEmpty(blocks) && ValidPos(blocks, p) && ValidPos(blocks, q) && n < Total(blocks)
    ensures Steps(blocks, p, n) == q <==> n == Ahead(blocks, p, q)
    ensures Ahead(blocks, p, q) < Total(blocks) && (Ahead(blocks, p, q) == 0 <==> p == q)
  {
    RankBelowTotal(blocks, p);
    RankBelowTotal(blocks, q);
    StepsRank(blocks, p, n);
    if Ahead(blocks, p, q) == 0 {
      RankInjective(blocks, p, q);
    }
    if n == Ahead(blocks, p, q) {
      RankInjective(blocks, Steps(blocks, p, n), q);
    }
  }

  // ----- sort_ram_list -----

  function Insert(b: RamBlock, blocks: seq<RamBlock>): seq<RamBlock> {
    if blocks == [] || b.first <= blocks[0].first then [b] + blocks
    else [blocks[0]] + Insert(b, blocks[1..])
  }

  /** The block list in the order of the blocks' offsets. */
  function SortedBlocks(blocks: seq<RamBlock>): seq<RamBlock> {
    if blocks == [] then [] else Insert(blocks[0], SortedBlocks(blocks[1..]))
  }

  predicate InOffsetOrder(blocks: seq<RamBlock>) {
    forall i, j :: 0 <= i < j < |blocks| ==> blocks[i].first <= blocks[j].first
  }

  lemma {:induction false} InsertMultiset(b: RamBlock, blocks: seq<RamBlock>)
    ensures multiset(Insert(b, blocks)) == multiset(blocks) + multiset{b}
    ensures forall c :: c in Insert(b, blocks) <==> c == b || c in blocks
  {
    var r := Insert(b, blocks);
    if blocks == [] || b.first <= blocks[0].first {
    } else {
      InsertMultiset(b, blocks[1..]);
      assert blocks == [blocks[0]] + blocks[1..];
    }
    forall c
      ensures c in r <==> c == b || c in blocks
    {
      assert c in r <==> c in multiset(r);
    }
  }

  lemma {:induction false} InsertApart(b: RamBlock, blocks: seq<RamBlock>, frames: nat)
    requires AllApart(blocks, frames) && b.Valid() && b.first + b.pages <= frames
    requires forall c :: c in blocks ==> b.Apart(c)
    ensures AllApart(Insert(b, blocks), frames)
  {
    if blocks == [] || b.first <= blocks[0].first {
      assert ([b] + blocks)[1..] == blocks;
    } else {
      InsertApart(b, blocks[1..], frames);
      InsertMultiset(b, blocks[1..]);
      var rest := Insert(b, blocks[1..]);
      assert ([blocks[0]] + rest)[1..] == rest;
      assert blocks[0] in blocks && blocks[0].Apart(b);
    }
  }

  lemma {:induction false} InsertOrdered(b: RamBlock, blocks: seq<RamBlock>)
    requires InOffsetOrder(blocks)
    ensures InOffsetOrder(Insert(b, blocks))
  {
    if blocks == [] || b.first <= blocks[0].first {
    } else {
      var rest := Insert(b, blocks[1..]);
      InsertOrdered(b, blocks[1..]);
      InsertMultiset(b, blocks[1..]);
      forall j | 0 <= j < |rest|
        ensures blocks[0].first <= rest[j].first
      {
        assert rest[j] in rest;
      }
    }
  }

  /** Sorting the list keeps its blocks and leaves them in the order of their offsets. */
  lemma {:induction false} SortKeeps(blocks: seq<RamBlock>, frames: nat)
    requires AllApart(blocks, frames)
    ensures AllApart(SortedBlocks(blocks), frames)
    ensures multiset(SortedBlocks(blocks)) == multiset(blocks)
    ensures InOffsetOrder(SortedBlocks(blocks))
  {
    hide Insert;
    hide AllApart;
    hide InOffsetOrder;
    hide RamBlock.Apart;
    hide RamBlock.Valid;
    NoneApart(frames);
    if blocks != [] {
      FirstApart(blocks, frames);
      SortKeeps(blocks[1..], frames);
      var rest := SortedBlocks(blocks[1..]);
      SameMembers(rest, blocks[1..]);
      InsertApart(blocks[0], rest, frames);
      InsertMultiset(blocks[0], rest);
      InsertOrdered(blocks[0], rest);
      FirstCounts(blocks);
    }
  }

  lemma NoneApart(frames: nat)
    ensures AllApart([], frames) && InOffsetOrder([])
  {}

  lemma FirstApart(blocks: seq<RamBlock>, frames: nat)
    requires AllApart(blocks, frames) && blocks != []
    ensures blocks[0].Valid() && blocks[0].first + blocks[0].pages <= frames && AllApart(blocks[1..], frames)
    ensures forall b :: b in blocks[1..] ==> blocks[0].Apart(b)
  {}

  lemma SameMembers(x: seq<RamBlock>, y: seq<RamBlock>)
    requires multiset(x) == multiset(y)
    ensures forall b :: b in x <==> b in y
  {
    assert forall b :: b in x <==> b in multiset(y);
  }

  lemma FirstCounts(blocks: seq<RamBlock>)
    requires blocks != []
    ensures multiset(blocks) == multiset(blocks[1..]) + multiset{blocks[0]}
  {
    assert blocks == [blocks[0]] + blocks[1..];
  }

  lemma {:induction false} BeforeTail(blocks: seq<RamBlock>, i: nat)
    requires 0 < i <= |blocks|
    ensures Before(blocks, i) == blocks[0].pages + Before(blocks[1..], i - 1)
  {
    if i > 1 {
      BeforeTail(blocks, i - 1);
    }
  }

  lemma {:induction false} TotalInsert(b: RamBlock, blocks: seq<RamBlock>)
    ensures Total(Insert(b, blocks)) == b.pages + Total(blocks)
  {
    var r := Insert(b, blocks);
    BeforeTail(r, |r|);
    if blocks == [] || b.first <= blocks[0].first {
      assert r[1..] == blocks;
    } else {
      TotalInsert(b, blocks[1..]);
      BeforeTail(blocks, |blocks|);
      assert r[1..] == Insert(b, blocks[1..]);
    }
  }

  lemma {:induction false} TotalSorted(blocks: seq<RamBlock>)
    ensures Total(SortedBlocks(blocks)) == Total(blocks)
  {
    if blocks != [] {
      TotalSorted(blocks[1..]);
      TotalInsert(blocks[0], SortedBlocks(blocks[1..]));
      BeforeTail(blocks, |blocks|);
    }
  }
}
