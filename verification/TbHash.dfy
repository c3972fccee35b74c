/** Looking up translated blocks (cpu-exec.c, exec-all.h): hash chains with move-to-front, behind a
    direct-mapped cache. Addresses are 32 bits and pages 1024 bytes, as for the ARM target. */
module TbHash {
  import opened Links

  const PAGE: bv32 := 0x400
  const PAGE_MASK: bv32 := 0xffff_fc00
  const NO_PAGE: bv32 := 0xffff_ffff
  const HASH_SIZE: nat := 0x8000
  const CACHE_SIZE: nat := 0x1000
  const SLOTS_PER_PAGE: nat := 0x40

  function PageOf(a: bv32): bv32 { a & PAGE_MASK }

  function PriorPage(a: bv32): bv32 { PageOf(a) - PAGE }

  function PageAfter(a: bv32): bv32 { PageOf(a) + PAGE }

  // ----- Hash functions -----

  /** tb_phys_hash_func. */
  function PhysHash(pc: bv32): nat
    ensures PhysHash(pc) < HASH_SIZE
  {
    Bucket(((pc >> 2) & 0x7fff) as bv15)
  }

  function Bucket(h: bv15): nat
    ensures Bucket(h) < HASH_SIZE
  {
    h as int
  }

  /** tb_jmp_cache_hash_page: the first of the cache slots for a page. */
  function CacheHashPage(pc: bv32): bv12 {
    var tmp := pc ^ (pc >> 4);
    ((tmp >> 4) & 0xfc0) as bv12
  }

  /** tb_jmp_cache_hash_func. */
  function CacheHash(pc: bv32): bv12 {
    var tmp := pc ^ (pc >> 4);
    (((tmp >> 4) & 0xfc0) | (tmp & 0x3f)) as bv12
  }

  function Slot(h: bv12): nat
    ensures Slot(h) < CACHE_SIZE
  {
    h as int
  }

  function CacheSlot(pc: bv32): (r: nat)
    ensures r < CACHE_SIZE
  {
    Slot(CacheHash(pc))
  }

  /** All addresses of a page have their slots in one run, and the run depends on the page only. */
  lemma PageHasOneRun(pc: bv32, addr: bv32)
    requires PageOf(pc) == PageOf(addr)
    ensures Slot(CacheHashPage(addr)) <= CacheSlot(pc) < Slot(CacheHashPage(addr)) + SLOTS_PER_PAGE <= CACHE_SIZE
  {
    hide CacheHash;
    hide CacheHashPage;
    hide Slot;
    hide PageOf;
    SameRun(pc, addr);
    var k := RunOffset(pc);
    SlotOffset(CacheHashPage(pc), k, CacheHash(pc));
    RunFits(CacheHashPage(pc));
  }

  lemma SlotOffset(page: bv12, k: bv12, h: bv12)
    requires page & 0x3f == 0 && k < 0x40 && h == page + k
    ensures Slot(page) <= Slot(h) < Slot(page) + SLOTS_PER_PAGE
  {
    SumOfParts(page, k);
    PartIsSmall(k);
  }

  lemma SumOfParts(page: bv12, k: bv12)
    requires page & 0x3f == 0 && k < 0x40
    ensures (page + k) as int == page as int + k as int
  {}

  lemma PartIsSmall(k: bv12)
    requires k < 0x40
    ensures k as int < 0x40
  {}

  lemma RunFits(page: bv12)
    requires page & 0x3f == 0
    ensures Slot(page) + SLOTS_PER_PAGE <= CACHE_SIZE
  {
    SumOfParts(page, 0x3f);
    assert (page + 0x3f) as int < 0x1000;
  }

  lemma SameRun(pc: bv32, addr: bv32)
    requires PageOf(pc) == PageOf(addr)
    ensures CacheHashPage(pc) == CacheHashPage(addr)
  {
    RunOfPage(pc);
    RunOfPage(addr);
    assert pc >> 10 == addr >> 10;
  }

  lemma RunOfPage(pc: bv32)
    ensures CacheHashPage(pc) == ((((pc >> 10) ^ ((pc >> 10) >> 4)) << 6) & 0xfc0) as bv12
  {}

  lemma RunOffset(pc: bv32) returns (k: bv12)
    ensures k < 0x40 && CacheHash(pc) == CacheHashPage(pc) + k
    ensures CacheHashPage(pc) & 0x3f == 0
  {
    k := CacheHash(pc) & 0x3f;
  }

  /** The page of the last byte of a block that starts at pc, for the size less one. */
  function LastPage(pc: bv32, less: bv32): bv32 { PageOf(pc + less) }

  /** A block is no longer than a page, so it ends in its first page or in the next. */
  lemma NextPage(pc: bv32, less: bv32)
    requires less <= 0x3ff
    ensures LastPage(pc, less) == PageOf(pc) || LastPage(pc, less) == PageAfter(pc)
  {
    hide *;
    PageIs(pc);
    PageIs(pc + less);
    PageAfterIs(pc);
    LastIs(pc, less);
    OneOrNext(pc, less, PageOf(pc), LastPage(pc, less), PageAfter(pc));
  }

  lemma PageIs(a: bv32)
    ensures PageOf(a) == a & 0xffff_fc00
  {}

  lemma PageAfterIs(a: bv32)
    ensures PageAfter(a) == PageOf(a) + 0x400
  {
    hide PageOf;
  }

  lemma LastIs(pc: bv32, less: bv32)
    ensures LastPage(pc, less) == PageOf(pc + less)
  {
    hide PageOf;
  }

  lemma OneOrNext(pc: bv32, less: bv32, first: bv32, last: bv32, next: bv32)
    requires less <= 0x3ff && first == pc & 0xffff_fc00 && last == (pc + less) & 0xffff_fc00 && next == first + 0x400
    ensures last == first || last == next
  {}

  lemma SizeLess(size: bv32)
    requires 1 <= size <= PAGE
    ensures size - 1 <= 0x3ff
  {}

  // ----- Blocks and chains -----

  /** What tells translations apart: the state of the CPU that code is generated for. */
  datatype Key = Key(pc: bv32, csBase: bv32, flags: bv64)

  /** A TranslationBlock of the array tbs. Pointers to blocks are indices into it. */
  datatype Block = Block(key: Key, size: bv32, page0: bv32, page1: bv32, physHashNext: int) {
    /** The bucket that the block's physical address belongs to. */
    function Home(): nat { PhysHash(page0 | (key.pc & !PAGE_MASK)) }
  }

  /** get_phys_addr_code: the physical address of the code at a virtual one. */
  type Mmu = bv32 -> bv32

  /** The block is a translation of the code at the key's address, as it is mapped now. */
  predicate Matches(b: Block, key: Key, phys: Mmu) {
    && b.key == key && b.page0 == PageOf(phys(key.pc))
    && (b.page1 == NO_PAGE || b.page1 == phys(PageAfter(key.pc)))
  }

  /** Physical pages are mapped as a whole. */
  ghost predicate PageWise(phys: Mmu) {
    forall a :: phys(a) & !PAGE_MASK == a & !PAGE_MASK && PageOf(phys(a)) == phys(PageOf(a))
  }

  /** What a block records of the mapping under which it was translated: the page that it starts in, and
      the next one if it ends there. */
  predicate Records(b: Block, m: Mmu) {
    PagesAre(b.key.pc, b.size, b.page0, b.page1, m)
  }

  predicate PagesAre(pc: bv32, size: bv32, page0: bv32, page1: bv32, m: Mmu) {
    && 1 <= size <= PAGE && page0 == PageOf(m(pc))
    && page1 == if PageOf(pc) != LastPage(pc, Less(size)) then m(LastPage(pc, Less(size))) else NO_PAGE
  }

  function Less(size: bv32): bv32 { size - 1 }

  lemma NewRecords(b: Block, key: Key, size: bv32, m: Mmu)
    requires 1 <= size <= PAGE && b.key == key && b.size == size && b.page0 == PageOf(m(key.pc))
    requires b.page1 == if PageOf(key.pc) != LastPage(key.pc, size - 1) then m(LastPage(key.pc, size - 1)) else NO_PAGE
    ensures Records(b, m)
  {
    hide PageOf;
    hide LastPage;
  }

  /** Byte i of the block lies at the same physical address under both mappings. */
  predicate SameByte(b: Block, m: Mmu, phys: Mmu, i: bv32) {
    m(Byte(b.key.pc, i)) == phys(Byte(b.key.pc, i))
  }

  /** The address of the byte i further on, which may wrap around. */
  function Byte(pc: bv32, i: bv32): bv32 { pc + i }

  /** Every byte of the block does. */
  ghost predicate SameCode(b: Block, m: Mmu, phys: Mmu) {
    forall i: bv32 :: i < b.size ==> SameByte(b, m, phys, i)
  }

  lemma SameAddress(a: bv32, m: Mmu, phys: Mmu)
    requires PageWise(m) && PageWise(phys) && m(PageOf(a)) == phys(PageOf(a))
    ensures m(a) == phys(a)
  {
    WholePage(m, a);
    WholePage(phys, a);
    SameParts(m(a), phys(a));
  }

  /** A block of which some byte lies in the next page ends there. */
  lemma Reaches(pc: bv32, i: bv32, less: bv32)
    requires i <= less <= 0x3ff && PageOf(Byte(pc, i)) != PageOf(pc)
    ensures LastPage(pc, less) == PageOf(Byte(pc, i)) == PageAfter(pc)
  {
    hide *;
    NextPage(pc, i);
    NextPage(pc, less);
    ByteLast(pc, i);
    if LastPage(pc, less) == PageOf(pc) {
      EndsInPage(pc, i, less);
    }
  }

  lemma ByteLast(pc: bv32, i: bv32)
    ensures LastPage(pc, i) == PageOf(Byte(pc, i))
  {
    hide PageOf;
  }

  lemma EndsInPage(pc: bv32, i: bv32, less: bv32)
    requires i <= less <= 0x3ff && LastPage(pc, less) == PageOf(pc)
    ensures LastPage(pc, i) == PageOf(pc)
  {
    hide *;
    PageIs(pc);
    PageIs(pc + i);
    PageIs(pc + less);
    LastIs(pc, i);
    LastIs(pc, less);
    StaysPut(pc, i, less, PageOf(pc), LastPage(pc, i), LastPage(pc, less));
  }

  lemma StaysPut(pc: bv32, i: bv32, less: bv32, first: bv32, mid: bv32, last: bv32)
    requires i <= less <= 0x3ff && first == pc & 0xffff_fc00 && mid == (pc + i) & 0xffff_fc00
    requires last == (pc + less) & 0xffff_fc00 && last == first
    ensures mid == first
  {}

  lemma NoOffset(a: bv32)
    ensures PageOf(a) & !PAGE_MASK == 0 && NO_PAGE & !PAGE_MASK != 0
  {}

  lemma NotNoPage(m: Mmu, a: bv32)
    requires PageWise(m)
    ensures m(PageOf(a)) != NO_PAGE
  {
    WholePage(m, PageOf(a));
    NoOffset(a);
  }

  /** A block that matches is a translation of the bytes that are mapped now, all of them, if it records
      the pages that it was made of. */
  lemma MatchIsCurrent(b: Block, key: Key, m: Mmu, phys: Mmu)
    requires Matches(b, key, phys) && Records(b, m) && PageWise(m) && PageWise(phys)
    ensures SameCode(b, m, phys)
  {
    forall i: bv32 | i < b.size
      ensures SameByte(b, m, phys, i)
    {
      ByteIsCurrent(b, key, m, phys, i);
    }
  }

  lemma ByteIsCurrent(b: Block, key: Key, m: Mmu, phys: Mmu, i: bv32)
    requires Matches(b, key, phys) && Records(b, m) && PageWise(m) && PageWise(phys) && i < b.size
    ensures SameByte(b, m, phys, i)
  {
    hide *;
    var pc := key.pc;
    MatchTest(b, key, phys);
    RecordsTest(b, m);
    ByteIs(b, m, phys, i);
    LessSize(i, b.size);
    WholePage(m, pc);
    WholePage(phys, pc);
    if PageOf(Byte(pc, i)) != PageOf(pc) {
      Reaches(pc, i, Less(b.size));
      NotNoPage(m, Byte(pc, i));
    }
    SameAddress(Byte(pc, i), m, phys);
  }

  lemma ByteIs(b: Block, m: Mmu, phys: Mmu, i: bv32)
    ensures SameByte(b, m, phys, i) <==> m(Byte(b.key.pc, i)) == phys(Byte(b.key.pc, i))
  {
    hide Byte;
  }

  lemma RecordsTest(b: Block, m: Mmu)
    ensures Records(b, m) <==>
      && 1 <= b.size <= PAGE && b.page0 == PageOf(m(b.key.pc))
      && b.page1 == if PageOf(b.key.pc) != LastPage(b.key.pc, Less(b.size)) then m(LastPage(b.key.pc, Less(b.size))) else NO_PAGE
  {
    hide PageOf;
    hide LastPage;
    hide Less;
  }

  lemma WholePage(m: Mmu, a: bv32)
    requires PageWise(m)
    ensures PageOf(m(a)) == m(PageOf(a)) && m(a) & !PAGE_MASK == a & !PAGE_MASK
  {
    hide PageOf;
  }

  lemma LessSize(i: bv32, size: bv32)
    requires i < size <= PAGE
    ensures i <= Less(size) <= 0x3ff && i <= 0x3ff
  {}

  /** A block that matches belongs to the chain that the lookup searches. */
  lemma MatchIsAtHome(b: Block, key: Key, phys: Mmu)
    requires Matches(b, key, phys) && PageWise(phys)
    ensures b.Home() == PhysHash(phys(key.pc))
  {
    assert phys(key.pc) & !PAGE_MASK == key.pc & !PAGE_MASK;
    Recombine(phys(key.pc));
  }

  lemma SameParts(a: bv32, b: bv32)
    requires PageOf(a) == PageOf(b) && a & !PAGE_MASK == b & !PAGE_MASK
    ensures a == b
  {
    Recombine(a);
    Recombine(b);
  }

  lemma Recombine(a: bv32)
    ensures (a & PAGE_MASK) | (a & !PAGE_MASK) == a
  {}

  /** The position of the first block that matches, or the length of the chain. */
  function FirstMatch(tbs: seq<Block>, chain: seq<nat>, key: Key, phys: Mmu): (k: nat)
    requires ChainBelow(tbs, chain)
    ensures k <= |chain| && (forall j :: 0 <= j < k ==> !Matches(tbs[chain[j]], key, phys))
    ensures k < |chain| ==> Matches(tbs[chain[k]], key, phys)
  {
    if chain == [] then 0 else if Matches(tbs[chain[0]], key, phys) then 0
    else
      assert forall j :: 1 <= j < |chain| ==> chain[1..][j - 1] == chain[j];
      1 + FirstMatch(tbs, chain[1..], key, phys)
  }

  /** Following the links from head on visits the chain and ends. */
  predicate Linked(tbs: seq<Block>, head: int, chain: seq<nat>) {
    && head == At(chain, 0)
    && forall i :: 0 <= i < |chain| ==> chain[i] < |tbs| && tbs[chain[i]].physHashNext == At(chain, i + 1)
  }

  /** The blocks of a chain are among the first nb, and belong to bucket h. */
  predicate AtHome(tbs: seq<Block>, nb: nat, chain: seq<nat>, h: nat) {
    nb <= |tbs| && forall i :: 0 <= i < |chain| ==> chain[i] < nb && tbs[chain[i]].Home() == h
  }

  predicate BucketOk(tbs: seq<Block>, nb: nat, head: int, chain: seq<nat>, h: nat) {
    Linked(tbs, head, chain) && Distinct(chain) && AtHome(tbs, nb, chain, h)
  }

  /** Every bucket holds an acyclic chain of blocks of its own. */
  ghost predicate TablesOk(tbs: seq<Block>, nb: nat, heads: seq<int>, chains: seq<seq<nat>>) {
    && nb <= |tbs| && |heads| == |chains| == HASH_SIZE
    && forall h :: 0 <= h < HASH_SIZE ==> BucketOk(tbs, nb, heads[h], chains[h], h)
  }

  // ----- Moving to the front -----

  function MovedToFront(chain: seq<nat>, k: nat): seq<nat>
    requires k < |chain|
  {
    [chain[k]] + chain[..k] + chain[k + 1..]
  }

  lemma MovedHasTheSame(chain: seq<nat>, k: nat)
    requires k < |chain|
    ensures multiset(MovedToFront(chain, k)) == multiset(chain)
  {
    assert chain == chain[..k] + [chain[k]] + chain[k + 1..];
  }

  lemma MovedAt(chain: seq<nat>, k: nat, i: nat)
    requires k < |chain| && i < |chain|
    ensures |MovedToFront(chain, k)| == |chain|
    ensures MovedToFront(chain, k)[i] == chain[if i == 0 then k else if i <= k then i - 1 else i]
  {}

  /** *ptb1: ptb1 is the link of block prev, or the head of bucket h if there is none. */
  function Cell(tbs: seq<Block>, heads: seq<int>, h: nat, prev: int): int
    requires h < |heads| && (prev == NULL || 0 <= prev < |tbs|)
  {
    if prev == NULL then heads[h] else tbs[prev].physHashNext
  }

  /** The links after block k of a chain has been unlinked and put at the head. */
  function Relinked(tbs: seq<Block>, head: int, chain: seq<nat>, k: nat): (r: seq<Block>)
    requires k < |chain| && ChainBelow(tbs, chain)
    ensures |r| == |tbs|
  {
    if k == 0 then tbs
    else
      var tb := chain[k];
      tbs[chain[k - 1] := tbs[chain[k - 1]].(physHashNext := tbs[tb].physHashNext)][tb := tbs[tb].(physHashNext := head)]
  }

  lemma RelinkedNext(tbs: seq<Block>, head: int, chain: seq<nat>, k: nat, i: nat)
    requires Linked(tbs, head, chain) && Distinct(chain) && k < |chain| && i < |chain|
    ensures var now, moved := Relinked(tbs, head, chain, k), MovedToFront(chain, k);
            moved[i] < |now| && now[moved[i]].physHashNext == At(moved, i + 1)
  {
    MovedAt(chain, k, i);
    if i + 1 < |chain| {
      MovedAt(chain, k, i + 1);
    }
    var j := if i == 0 then k else if i <= k then i - 1 else i;
    assert chain[j] == chain[k] <==> j == k;
    assert k > 0 ==> (chain[j] == chain[k - 1] <==> j == k - 1);
    hide MovedToFront;
    assert tbs[chain[j]].physHashNext == At(chain, j + 1);
  }

  lemma MovedDistinct(chain: seq<nat>, k: nat)
    requires Distinct(chain) && k < |chain|
    ensures Distinct(MovedToFront(chain, k))
  {
    forall i, j | 0 <= i < j < |chain|
      ensures MovedToFront(chain, k)[i] != MovedToFront(chain, k)[j]
    {
      MovedAt(chain, k, i);
      MovedAt(chain, k, j);
    }
  }

  lemma SameHome(b: Block, link: int)
    ensures b.(physHashNext := link).Home() == b.Home()
  {
    hide PhysHash;
  }

  lemma RelinkedHomes(tbs: seq<Block>, head: int, chain: seq<nat>, k: nat)
    requires k < |chain| && ChainBelow(tbs, chain)
    ensures forall b :: 0 <= b < |tbs| ==> Relinked(tbs, head, chain, k)[b].Home() == tbs[b].Home()
  {
    forall b | 0 <= b < |tbs|
      ensures Relinked(tbs, head, chain, k)[b].Home() == tbs[b].Home()
    {
      SameHome(tbs[b], tbs[chain[k]].physHashNext);
      SameHome(tbs[b], head);
      hide Block.Home;
    }
  }

  lemma RelinkedAtHome(tbs: seq<Block>, nb: nat, head: int, chain: seq<nat>, h: nat, k: nat)
    requires AtHome(tbs, nb, chain, h) && k < |chain|
    ensures AtHome(Relinked(tbs, head, chain, k), nb, MovedToFront(chain, k), h)
  {
    hide Block.Home;
    RelinkedHomes(tbs, head, chain, k);
    forall i | 0 <= i < |chain|
      ensures MovedToFront(chain, k)[i] < nb
      ensures Relinked(tbs, head, chain, k)[MovedToFront(chain, k)[i]].Home() == h
    {
      MovedAt(chain, k, i);
      hide MovedToFront;
      hide Relinked;
    }
  }

  lemma RelinkedOwn(tbs: seq<Block>, nb: nat, head: int, chain: seq<nat>, h: nat, k: nat)
    requires BucketOk(tbs, nb, head, chain, h) && k < |chain|
    ensures BucketOk(Relinked(tbs, head, chain, k), nb, chain[k], MovedToFront(chain, k), h)
  {
    MovedDistinct(chain, k);
    RelinkedAtHome(tbs, nb, head, chain, h, k);
    MovedAt(chain, k, 0);
    hide Relinked;
    hide MovedToFront;
    hide Distinct;
    hide AtHome;
    forall i | 0 <= i < |chain|
      ensures MovedToFront(chain, k)[i] < |Relinked(tbs, head, chain, k)|
      ensures Relinked(tbs, head, chain, k)[MovedToFront(chain, k)[i]].physHashNext == At(MovedToFront(chain, k), i + 1)
    {
      RelinkedNext(tbs, head, chain, k, i);
    }
  }

  lemma RelinkedOther(tbs: seq<Block>, nb: nat, head: int, chain: seq<nat>, h: nat, k: nat, head2: int,
                      chain2: seq<nat>, h2: nat)
    requires BucketOk(tbs, nb, head, chain, h) && k < |chain| && BucketOk(tbs, nb, head2, chain2, h2) && h != h2
    ensures BucketOk(Relinked(tbs, head, chain, k), nb, head2, chain2, h2)
  {
    assert forall i :: 0 <= i < |chain2| ==> chain2[i] != chain[k] && (k > 0 ==> chain2[i] != chain[k - 1]);
  }

  lemma RelinkedOk(tbs: seq<Block>, nb: nat, heads: seq<int>, chains: seq<seq<nat>>, h: nat, k: nat)
    requires TablesOk(tbs, nb, heads, chains) && h < HASH_SIZE && k < |chains[h]|
    ensures ChainBelow(tbs, chains[h])
    ensures TablesOk(Relinked(tbs, heads[h], chains[h], k), nb, heads[h := chains[h][k]], chains[h := MovedToFront(chains[h], k)])
  {
    assert BucketOk(tbs, nb, heads[h], chains[h], h);
    RelinkedOwn(tbs, nb, heads[h], chains[h], h, k);
    hide Relinked;
    hide MovedToFront;
    forall i | 0 <= i < HASH_SIZE && i != h
      ensures BucketOk(Relinked(tbs, heads[h], chains[h], k), nb, heads[i], chains[i], i)
    {
      RelinkedOther(tbs, nb, heads[h], chains[h], h, k, heads[i], chains[i], i);
    }
    hide BucketOk;
  }

  // ----- Adding a block -----

  lemma LinkedHead(tbs: seq<Block>, nb: nat, b: Block, head: int, chain: seq<nat>, h: nat)
    requires BucketOk(tbs, nb, head, chain, h) && nb < |tbs| && b.Home() == h && b.physHashNext == head
    ensures BucketOk(tbs[nb := b], nb + 1, nb, [nb] + chain, h)
  {
    var now, c := tbs[nb := b], [nb] + chain;
    forall i | 0 <= i < |c|
      ensures c[i] < nb + 1 && now[c[i]].Home() == h && now[c[i]].physHashNext == At(c, i + 1)
    {
      if i > 0 {
        assert c[i] == chain[i - 1];
        assert At(c, i + 1) == At(chain, i);
      }
    }
    assert forall i, j :: 0 <= i < j < |c| ==> c[i] != c[j];
  }

  lemma LinkedOther(tbs: seq<Block>, nb: nat, b: Block, head: int, chain: seq<nat>, h: nat)
    requires BucketOk(tbs, nb, head, chain, h) && nb < |tbs|
    ensures BucketOk(tbs[nb := b], nb + 1, head, chain, h)
  {}

  function WithBlock(chains: seq<seq<nat>>, h: nat, tb: nat): (r: seq<seq<nat>>)
    requires h < |chains|
    ensures |r| == |chains|
  {
    chains[h := [tb] + chains[h]]
  }

  lemma LinkedOk(tbs: seq<Block>, nb: nat, b: Block, heads: seq<int>, chains: seq<seq<nat>>)
    requires TablesOk(tbs, nb, heads, chains) && nb < |tbs|
    requires b.physHashNext == heads[b.Home()]
    ensures TablesOk(tbs[nb := b], nb + 1, heads[b.Home() := nb], WithBlock(chains, b.Home(), nb))
  {
    var h := b.Home();
    LinkedHead(tbs, nb, b, heads[h], chains[h], h);
    forall i | 0 <= i < HASH_SIZE && i != h
      ensures BucketOk(tbs[nb := b], nb + 1, heads[i], chains[i], i)
    {
      LinkedOther(tbs, nb, b, heads[i], chains[i], i);
    }
    hide BucketOk;
  }

  function NoChains(): (r: seq<seq<nat>>)
    ensures |r| == HASH_SIZE
  {
    seq(HASH_SIZE, _ => [])
  }

  function NoOrigins(n: nat): (r: seq<Mmu>)
    ensures |r| == n
  {
    seq(n, _ => (a: bv32) => a)
  }

  function Nulls(n: nat): seq<int> { seq(n, _ => NULL) }

  lemma EmptyOk(tbs: seq<Block>)
    ensures TablesOk(tbs, 0, Nulls(HASH_SIZE), NoChains())
  {}

  class Tables {
    const tbs: array<Block>
    var nbTbs: nat
    const physHash: array<int>
    const jmpCache: array<int>
    ghost var chains: seq<seq<nat>>
    ghost var origins: seq<Mmu>

    /** The blocks in use record the mappings that they were translated under. */
    ghost predicate Genuine()
      reads this, tbs
    {
      AllGenuine(tbs[..], nbTbs, origins)
    }

    ghost predicate Valid()
      reads this, tbs, physHash, jmpCache
    {
      && tbs.Length > 0 && jmpCache.Length == CACHE_SIZE && physHash != jmpCache
      && TablesOk(tbs[..], nbTbs, physHash[..], chains)
    }

    constructor (maxBlocks: nat)
      requires maxBlocks > 0
      ensures Valid() && fresh(tbs) && fresh(physHash) && fresh(jmpCache)
      ensures tbs.Length == maxBlocks && nbTbs == 0 && chains == NoChains() && jmpCache[..] == Nulls(CACHE_SIZE)
      ensures Genuine()
    {
      tbs := new Block[maxBlocks](_ => Block(Key(0, 0, 0), 1, 0, NO_PAGE, NULL));
      nbTbs := 0;
      physHash := new int[HASH_SIZE](_ => NULL);
      jmpCache := new int[CACHE_SIZE](_ => NULL);
      chains, origins := NoChains(), NoOrigins(maxBlocks);
      new;
      assert physHash[..] == Nulls(HASH_SIZE);
      EmptyOk(tbs[..]);
    }

    /** tb_flush: all blocks are given up, and what is left in tbs is stale. */
    method Flush()
      requires Valid()
      modifies this, physHash, jmpCache
      ensures Valid() && nbTbs == 0 && chains == NoChains() && jmpCache[..] == Nulls(CACHE_SIZE)
      ensures origins == old(origins)
    {
      nbTbs := 0;
      forall s | 0 <= s < CACHE_SIZE {
        jmpCache[s] := NULL;
      }
      forall h | 0 <= h < HASH_SIZE {
        physHash[h] := NULL;
      }
      chains := NoChains();
      assert physHash[..] == Nulls(HASH_SIZE);
      EmptyOk(tbs[..]);
    }

    /** tb_link_phys, as far as the hash table is concerned. */
    method LinkPhys(tb: nat)
      requires Valid() && tb == nbTbs < tbs.Length
      modifies this`nbTbs, this`chains, tbs, physHash
      ensures Valid() && nbTbs == tb + 1 && chains == WithBlock(old(chains), old(tbs[tb].Home()), tb)
      ensures tbs[..] == old(tbs[..])[tb := old(tbs[tb]).(physHashNext := old(physHash[tbs[tb].Home()]))]
    {
      var h := tbs[tb].Home();
      ghost var was, heads := tbs[..], physHash[..];
      tbs[tb] := tbs[tb].(physHashNext := physHash[h]);
      physHash[h] := tb;
      LinkedOk(was, nbTbs, tbs[tb], heads, chains);
      nbTbs := tb + 1;
      chains := WithBlock(chains, h, tb);
      assert tbs[..] == was[tb := tbs[tb]] && physHash[..] == heads[h := tb];
    }

    /** The next spare block becomes a translation of size bytes of guest code. */
    method Translate(key: Key, phys: Mmu, size: bv32)
      requires Valid() && PageWise(phys) && 1 <= size <= PAGE && nbTbs < tbs.Length
      modifies tbs
      ensures Valid() && tbs[..] == old(tbs[..])[nbTbs := tbs[nbTbs]]
      ensures Matches(tbs[nbTbs], key, phys) && tbs[nbTbs].Home() == PhysHash(phys(key.pc))
      ensures Records(tbs[nbTbs], phys) && tbs[nbTbs].size == size
    {
      hide *;
      var physPc := phys(key.pc);
      var virtPage2 := LastPage(key.pc, size - 1);
      var physPage2 := if PageOf(key.pc) != virtPage2 then phys(virtPage2) else NO_PAGE;
      SizeLess(size);
      NextPage(key.pc, size - 1);
      var b := Block(key, size, PageOf(physPc), physPage2, tbs[nbTbs].physHashNext);
      NewMatches(b, key, phys);
      NewRecords(b, key, size, phys);
      MatchIsAtHome(b, key, phys);
      Write(b);
    }

    method Write(b: Block)
      requires Valid() && nbTbs < tbs.Length
      modifies tbs
      ensures Valid() && tbs[..] == old(tbs[..])[nbTbs := b] && tbs[nbTbs] == b
    {
      SpareOk(tbs[..], nbTbs, physHash[..], chains, nbTbs, b);
      ghost var was := tbs[..];
      tbs[nbTbs] := b;
      assert tbs[..] == was[nbTbs := b];
    }

    /** tb_gen_code: a new translation. If no block is left, or the code buffer is full, everything
        is flushed first. */
    method GenCode(key: Key, phys: Mmu, size: bv32, full: bool) returns (tb: nat)
      requires Valid() && PageWise(phys) && 1 <= size <= PAGE
      modifies this, tbs, physHash, jmpCache
      ensures Valid() && nbTbs == tb + 1
      ensures var flush := full || old(nbTbs) >= tbs.Length;
        && tb == (if flush then 0 else old(nbTbs))
        && chains == WithBlock(if flush then NoChains() else old(chains), PhysHash(phys(key.pc)), tb)
        && jmpCache[..] == if flush then Nulls(CACHE_SIZE) else old(jmpCache[..])
      ensures Matches(tbs[tb], key, phys) && tbs[..] == old(tbs[..])[tb := tbs[tb]]
      ensures tbs[tb].physHashNext == At(chains[PhysHash(phys(key.pc))], 1)
      ensures Records(tbs[tb], phys) && tbs[tb].size == size && origins == old(origins)
    {
      hide Records;
      hide TablesOk;
      hide Matches;
      hide PhysHash;
      if full || nbTbs >= tbs.Length {
        Flush();
      }
      tb := nbTbs;
      Translate(key, phys, size);
      ghost var b, mid := tbs[tb], chains;
      HeadIsFirst(tbs[..], nbTbs, physHash[..], chains, b.Home());
      TablesAre(tbs[..], nbTbs, physHash[..], chains);
      LinkPhys(tb);
      assert At([tb] + mid[b.Home()], 1) == At(mid[b.Home()], 0);
      SameMatches(b, tbs[tb], key, phys);
      SameRecords(b, tbs[tb], phys);
    }

    /** The walk along a chain: the first block that matches, and the block whose link leads to it. */
    method Search(key: Key, phys: Mmu, h: nat) returns (tb: int, prev: int)
      requires Valid() && h < HASH_SIZE
      ensures ChainBelow(tbs[..], chains[h])
      ensures var k := FirstMatch(tbs[..], chains[h], key, phys);
        tb == At(chains[h], k) && prev == if k == 0 then NULL else chains[h][k - 1]
    {
      hide FirstMatch;
      hide At;
      hide ChainBelow;
      hide TablesOk;
      hide BucketOk;
      hide Matches;
      hide PageOf;
      hide PageAfter;
      TablesAre(tbs[..], nbTbs, physHash[..], chains);
      ghost var c, all := chains[h], tbs[..];
      BucketIs(all, nbTbs, physHash[..], chains, h);
      BucketBelow(all, nbTbs, physHash[h], c, h);
      var physPage1 := PageOf(phys(key.pc));
      tb, prev := physHash[h], NULL;
      ghost var k := 0;
      while tb != NULL
        invariant k <= |c| && tb == At(c, k) && prev == if k == 0 then NULL else c[k - 1]
        invariant forall j :: 0 <= j < k ==> !Matches(all[c[j]], key, phys)
        invariant BucketOk(all, nbTbs, physHash[h], c, h)
        decreases |c| - k
      {
        BucketStep(all, nbTbs, physHash[h], c, h, tb, k);
        var b := tbs[tb];
        MatchTest(b, key, phys);
        if b.key == key && b.page0 == physPage1 {
          if b.page1 != NO_PAGE {
            var virtPage2 := PageAfter(key.pc);
            if b.page1 == phys(virtPage2) {
              break;
            }
          } else {
            break;
          }
        }
        prev, tb := tb, b.physHashNext;
        k := k + 1;
      }
      SearchEnds(c, tb, k);
      FirstMatchIs(all, c, key, phys, k);
    }

    /** Block k of a chain is unlinked through ptb1 and put at the head. */
    method Relink(tb: nat, prev: int, h: nat, ghost k: nat)
      requires Valid() && h < HASH_SIZE && k < |chains[h]| && ChainBelow(tbs[..], chains[h])
      requires tb == chains[h][k] && prev == if k == 0 then NULL else chains[h][k - 1]
      modifies this`chains, tbs, physHash
      ensures Valid() && chains == old(chains)[h := MovedToFront(old(chains[h]), k)]
      ensures tbs[..] == Relinked(old(tbs[..]), old(physHash[h]), old(chains[h]), k)
    {
      ghost var was, heads, c := tbs[..], physHash[..], chains[h];
      HeadIsFirst(was, nbTbs, heads, chains, h);
      RelinkedOk(was, nbTbs, heads, chains, h, k);
      DistinctAt(was, nbTbs, heads, chains, h, k);
      hide TablesOk;
      if prev == NULL {
        physHash[h] := tbs[tb].physHashNext;
      } else {
        tbs[prev] := tbs[prev].(physHashNext := tbs[tb].physHashNext);
      }
      tbs[tb] := tbs[tb].(physHashNext := physHash[h]);
      physHash[h] := tb;
      chains := chains[h := MovedToFront(c, k)];
      assert physHash[..] == heads[h := tb];
      assert tbs[..] == Relinked(was, heads[h], c, k);
    }

    /** The end of tb_find_slow, as far as the chains are concerned: the block is unlinked through
        ptb1 and put at the head, unless *ptb1 is null. */
    method Finish(tb: nat, prev: int, h: nat, ghost k: nat)
      requires Valid() && h < HASH_SIZE && (prev == NULL || 0 <= prev < tbs.Length)
      requires Cell(tbs[..], physHash[..], h, prev) != NULL ==>
        && k < |chains[h]| && ChainBelow(tbs[..], chains[h])
        && tb == chains[h][k] && prev == if k == 0 then NULL else chains[h][k - 1]
      modifies this`chains, tbs, physHash
      ensures Valid() && SameButLinks(old(tbs[..]), tbs[..])
      ensures chains == if old(Cell(tbs[..], physHash[..], h, prev)) == NULL then old(chains)
                        else old(chains)[h := MovedToFront(old(chains[h]), k)]
    {
      var cell := if prev == NULL then physHash[h] else tbs[prev].physHashNext;
      if cell != NULL {
        RelinkedIsSame(tbs[..], physHash[h], chains[h], k);
        Relink(tb, prev, h, k);
      }
    }

    /** memset of the cache slots of one page. */
    method ClearRun(page: bv32)
      requires jmpCache.Length == CACHE_SIZE
      modifies jmpCache
      ensures forall s :: 0 <= s < CACHE_SIZE ==> jmpCache[s] == if InRun(page, s) then NULL else old(jmpCache[s])
    {
      hide CacheHashPage;
      hide Slot;
      RunFits2(page);
      var first := Slot(CacheHashPage(page));
      forall s | first <= s < first + SLOTS_PER_PAGE {
        jmpCache[s] := NULL;
      }
    }

    /** tlb_flush_page, with tlb_flush_jmp_cache: no slot is left to the page, nor to the page before
        it, whose blocks may reach into it. */
    method FlushPage(addr: bv32)
      requires Valid()
      modifies jmpCache
      ensures Valid() && Cleared(old(jmpCache[..]), jmpCache[..], addr)
    {
      hide TablesOk;
      hide PageOf;
      hide PriorPage;
      hide InRun;
      hide Cleared;
      ghost var was := jmpCache[..];
      ClearRun(PriorPage(addr));
      ClearRun(PageOf(addr));
      RunsCleared(was, jmpCache[..], addr);
    }

    /** tb_find_slow: the chain's block that matches, or else a new translation. Either way it ends
        up at the head of its chain and in the cache. */
    method FindSlow(key: Key, phys: Mmu, size: bv32, full: bool) returns (tb: nat)
      requires Valid() && PageWise(phys) && 1 <= size <= PAGE
      modifies this, tbs, physHash, jmpCache
      ensures Valid() && tb < tbs.Length && Matches(tbs[tb], key, phys) && jmpCache[CacheSlot(key.pc)] == tb
      ensures var h := PhysHash(phys(key.pc));
        if Found(old(tbs[..]), old(chains[h]), key, phys) then
          var k := FirstMatch(old(tbs[..]), old(chains[h]), key, phys);
          && tb == old(chains[h])[k]
          && HitLeaves(old(tbs[..]), old(chains), old(jmpCache[..]), h, k, key.pc, tbs[..], chains, jmpCache[..])
        else
          var flush := full || old(nbTbs) >= tbs.Length;
          && tb == (if flush then 0 else old(nbTbs))
          && Records(tbs[tb], phys) && tbs[tb].size == size
          && MissLeaves(old(tbs[..]), old(chains), old(jmpCache[..]), flush, h, tb, key.pc, tbs[..], chains, jmpCache[..])
      ensures tb < nbTbs == (if Found(old(tbs[..]), old(chains[PhysHash(phys(key.pc))]), key, phys) then old(nbTbs) else tb + 1)
      ensures origins == old(origins)
    {
      hide Records;
      hide Relinked;
      hide MovedToFront;
      hide TablesOk;
      hide Matches;
      hide PhysHash;
      hide FirstMatch;
      hide SameButLinks;
      hide WithBlock;
      hide NoChains;
      hide CacheSlot;
      hide BucketOk;
      hide PageWise;
      hide HashIndex;
      ghost var all, heads, nb, was := tbs[..], physHash[..], nbTbs, chains;
      var h := HashIndex(phys(key.pc));
      TablesAre(all, nb, heads, chains);
      ghost var c := chains[h];
      var found, prev;
      found, prev := Search(key, phys, h);
      ghost var k := FirstMatch(all, c, key, phys);
      SearchEnds(c, found, k);
      FirstMatchBounds(all, c, key, phys);
      LinkTo(all, nb, heads, was, h, k);
      if found == NULL {
        tb := GenCode(key, phys, size, full);
        MissLink(all, nb, was, tbs[..], chains, h, tb, prev);
        TablesAre(tbs[..], nbTbs, physHash[..], chains);
        HeadIsFirst(tbs[..], nbTbs, physHash[..], chains, h);
        k := 0;
      } else {
        tb := found;
      }
      ghost var mid := tbs[..];
      Finish(tb, prev, h, k);
      SameInPlace(mid, tbs[..], tb, key, phys);
      if found == NULL {
        SameRecords(mid[tb], tbs[tb], phys);
      }
      MovedAlone(tb);
      jmpCache[CacheSlot(key.pc)] := tb;
    }

    ghost predicate CacheOk(phys: Mmu)
      reads this, tbs, jmpCache
    {
      Coherent(tbs[..], chains, jmpCache[..], phys)
    }

    /** tb_find_slow, with what it does for the cache. */
    method FindCoherent(key: Key, phys: Mmu, size: bv32, full: bool) returns (tb: nat, ghost hit: bool)
      requires Valid() && CacheOk(phys) && PageWise(phys) && 1 <= size <= PAGE
      modifies this, tbs, physHash, jmpCache
      ensures Valid() && CacheOk(phys) && tb < tbs.Length && Matches(tbs[tb], key, phys)
      ensures jmpCache[CacheSlot(key.pc)] == tb < nbTbs && origins == old(origins)
      ensures hit ==> nbTbs == old(nbTbs) && SameButLinks(old(tbs[..]), tbs[..])
      ensures !hit ==>
        && (tb == 0 || tb == old(nbTbs)) && nbTbs == tb + 1 && Records(tbs[tb], phys)
        && SameButLinks(old(tbs[..])[tb := tbs[tb]], tbs[..])
    {
      ghost var all, nb, heads, was, cache := tbs[..], nbTbs, physHash[..], chains, jmpCache[..];
      ghost var h := HashIndex(phys(key.pc));
      hide Records;
      hide SameButLinks;
      hide TablesOk;
      hide Coherent;
      hide Matches;
      hide PhysHash;
      hide PageWise;
      hide CacheSlot;
      hide HitLeaves;
      hide MissLeaves;
      hide FirstMatch;
      hide Found;
      hide NoChains;
      hide Nulls;
      tb := FindSlow(key, phys, size, full);
      hit := Found(all, was[h], key, phys);
      if hit {
        ghost var k := FirstMatch(all, was[h], key, phys);
        HitKeepsCoherence(all, was, cache, h, k, key, phys, tbs[..], chains, jmpCache[..]);
        LinksAside(all, was, cache, h, k, key.pc, tbs[..], chains, jmpCache[..]);
      } else {
        ghost var flush := full || nb >= tbs.Length;
        MissKeepsCoherence(all, nb, heads, was, cache, flush, h, tb, key, phys, tbs[..], chains, jmpCache[..]);
        NewAside(all, was, cache, flush, h, tb, key.pc, tbs[..], chains, jmpCache[..]);
      }
    }

    /** tb_find_slow, seen from what its blocks were translated from: the block returned is a translation
        of the very bytes that are mapped now. */
    method FindAndCache(key: Key, phys: Mmu, size: bv32, full: bool) returns (tb: nat)
      requires Valid() && CacheOk(phys) && PageWise(phys) && 1 <= size <= PAGE && Genuine()
      modifies this, tbs, physHash, jmpCache
      ensures Valid() && CacheOk(phys) && tb < tbs.Length && Matches(tbs[tb], key, phys)
      ensures jmpCache[CacheSlot(key.pc)] == tb
      ensures Genuine() && SameCode(tbs[tb], origins[tb], phys)
    {
      hide Records;
      hide AllGenuine;
      hide SameCode;
      hide SameButLinks;
      hide TablesOk;
      hide Coherent;
      hide Matches;
      hide PageWise;
      hide CacheSlot;
      ghost var all, nb := tbs[..], nbTbs;
      ghost var hit;
      tb, hit := FindCoherent(key, phys, size, full);
      if hit {
        HitIsGenuine(all, nb, origins, tbs[..]);
      } else {
        MissIsGenuine(all, nb, origins, tbs[..], tb, phys);
        origins := origins[tb := phys];
      }
      GenuineIsCurrent(tbs[..], nbTbs, origins, tb, key, phys);
    }

    /** tb_find_fast: a block that sits in the cache under the key is returned as it is; whatever is
        returned is a translation of the code that is mapped now, and is found again by the same key. */
    method FindFast(key: Key, phys: Mmu, size: bv32, full: bool) returns (tb: nat)
      requires Valid() && CacheOk(phys) && PageWise(phys) && 1 <= size <= PAGE && Genuine()
      modifies this, tbs, physHash, jmpCache
      ensures Valid() && CacheOk(phys) && tb < tbs.Length && Matches(tbs[tb], key, phys)
      ensures jmpCache[CacheSlot(key.pc)] == tb
      ensures Genuine() && SameCode(tbs[tb], origins[tb], phys)
      ensures var c := old(jmpCache[CacheSlot(key.pc)]);
        0 <= c < tbs.Length && old(tbs[c].key) == key ==>
          tb == c && tbs[..] == old(tbs[..]) && chains == old(chains) && jmpCache[..] == old(jmpCache[..])
    {
      hide Records;
      hide AllGenuine;
      hide SameCode;
      hide TablesOk;
      hide Coherent;
      hide Matches;
      hide PhysHash;
      hide PageWise;
      hide CacheSlot;
      var cached := jmpCache[CacheSlot(key.pc)];
      CachedIs(tbs[..], nbTbs, physHash[..], chains, jmpCache[..], CacheSlot(key.pc), phys);
      if cached == NULL || tbs[cached].key != key {
        tb := FindAndCache(key, phys, size, full);
      } else {
        tb := cached;
        GenuineIsCurrent(tbs[..], nbTbs, origins, tb, key, phys);
      }
    }

    /** A page is remapped, and tlb_flush_page called for it. */
    method Remap(addr: bv32, ghost phys: Mmu, ghost to: Mmu)
      requires Valid() && CacheOk(phys) && Genuine() && AgreeOutside(phys, to, addr)
      modifies jmpCache
      ensures Valid() && CacheOk(to) && Genuine()
    {
      hide Coherent;
      hide AllGenuine;
      hide TablesOk;
      hide Cleared;
      hide AgreeOutside;
      ghost var was := jmpCache[..];
      FlushPage(addr);
      FlushKeepsCoherence(tbs[..], chains, was, jmpCache[..], phys, to, addr);
    }

    /** Any run of lookups and of pages remapped in between: every block returned is the translation, for
        the key that was asked for, of the very bytes that were mapped when it was returned. */
    method Run(phys: Mmu, events: seq<Event>) returns (ghost answers: seq<Answer>)
      requires Valid() && CacheOk(phys) && PageWise(phys) && Genuine() && Possible(phys, events)
      modifies this, tbs, physHash, jmpCache
      ensures Valid() && CacheOk(MapAfter(phys, events)) && Genuine()
      ensures forall i :: 0 <= i < |answers| ==> answers[i].Current()
      ensures |answers| == Lookups(events)
    {
      hide Coherent;
      hide Records;
      hide TablesOk;
      hide SameCode;
      hide PageWise;
      hide AgreeOutside;
      hide Matches;
      var now := phys;
      answers := [];
      for i := 0 to |events|
        invariant Valid() && CacheOk(now) && PageWise(now) && Genuine() && now == MapAfter(phys, events[..i])
        invariant forall k :: 0 <= k < |answers| ==> answers[k].Current()
        invariant |answers| == Lookups(events[..i])
      {
        PossibleAt(phys, events, i);
        assert events[..i + 1][..i] == events[..i];
        match events[i]
        case Lookup(key, size, full) =>
          var tb := FindFast(key, now, size, full);
          MatchTest(tbs[tb], key, now);
          answers := answers + [Answer(key, tbs[tb], origins[tb], now)];
        case Remapped(addr, to) =>
          Remap(addr, now, to);
          now := to;
      }
      assert events[..|events|] == events;
    }
  }

  datatype Event = Lookup(key: Key, size: bv32, full: bool) | Remapped(addr: bv32, to: Mmu)

  /** The block that a lookup returned, the mapping it was translated under and the one at that time. */
  datatype Answer = Answer(key: Key, block: Block, origin: Mmu, now: Mmu) {
    ghost predicate Current() {
      block.key == key && SameCode(block, origin, now)
    }
  }

  function MapAfter(phys: Mmu, events: seq<Event>): Mmu {
    if events == [] then phys
    else
      var last := events[|events| - 1];
      if last.Remapped? then last.to else MapAfter(phys, events[..|events| - 1])
  }

  function Lookups(events: seq<Event>): nat {
    if events == [] then 0 else Lookups(events[..|events| - 1]) + if events[|events| - 1].Lookup? then 1 else 0
  }

  /** Each event is one that can happen: a remapping changes one page, and code is of some length. */
  ghost predicate Possible(phys: Mmu, events: seq<Event>) {
    events == [] || (
      var last := events[|events| - 1];
      && Possible(phys, events[..|events| - 1])
      && match last
         case Lookup(_, size, _) => 1 <= size <= PAGE
         case Remapped(addr, to) => AgreeOutside(MapAfter(phys, events[..|events| - 1]), to, addr) && PageWise(to))
  }

  lemma {:induction false} PossibleAt(phys: Mmu, events: seq<Event>, i: nat)
    requires Possible(phys, events) && i < |events|
    ensures Possible(phys, events[..i + 1])
    ensures match events[i]
            case Lookup(_, size, _) => 1 <= size <= PAGE
            case Remapped(addr, to) => AgreeOutside(MapAfter(phys, events[..i]), to, addr) && PageWise(to)
    decreases |events|
  {
    hide AgreeOutside;
    hide PageWise;
    var n := |events| - 1;
    if i < n {
      PossibleAt(phys, events[..n], i);
      assert events[..n][..i + 1] == events[..i + 1] && events[..n][..i] == events[..i];
    } else {
      assert events[..i + 1] == events;
    }
  }

  /** Each of the first nb blocks records the mapping under which it was translated. */
  ghost predicate AllGenuine(tbs: seq<Block>, nb: nat, origins: seq<Mmu>) {
    nb <= |tbs| == |origins| && forall i :: 0 <= i < nb ==> Records(tbs[i], origins[i]) && PageWise(origins[i])
  }

  lemma SameRecords(b: Block, c: Block, m: Mmu)
    requires b.(physHashNext := NULL) == c.(physHashNext := NULL)
    ensures Records(b, m) == Records(c, m) && b.size == c.size
  {
    hide PagesAre;
    assert b.key == b.(physHashNext := NULL).key && b.page0 == b.(physHashNext := NULL).page0;
    assert b.page1 == b.(physHashNext := NULL).page1 && b.size == b.(physHashNext := NULL).size;
  }

  lemma LinksAside(tbs: seq<Block>, chains: seq<seq<nat>>, cache: seq<int>, h: nat, k: nat, pc: bv32,
                   tbs2: seq<Block>, chains2: seq<seq<nat>>, cache2: seq<int>)
    requires HitLeaves(tbs, chains, cache, h, k, pc, tbs2, chains2, cache2)
    ensures SameButLinks(tbs, tbs2)
  {}

  lemma NewAside(tbs: seq<Block>, chains: seq<seq<nat>>, cache: seq<int>, flush: bool, h: nat, tb: nat, pc: bv32,
                 tbs2: seq<Block>, chains2: seq<seq<nat>>, cache2: seq<int>)
    requires MissLeaves(tbs, chains, cache, flush, h, tb, pc, tbs2, chains2, cache2)
    ensures |tbs| == |tbs2| && tb < |tbs| && SameButLinks(tbs[tb := tbs2[tb]], tbs2)
  {}

  lemma HitIsGenuine(tbs: seq<Block>, nb: nat, origins: seq<Mmu>, tbs2: seq<Block>)
    requires AllGenuine(tbs, nb, origins) && SameButLinks(tbs, tbs2)
    ensures AllGenuine(tbs2, nb, origins)
  {
    hide Records;
    hide PageWise;
    forall i | 0 <= i < nb
      ensures Records(tbs2[i], origins[i])
    {
      SameRecords(tbs[i], tbs2[i], origins[i]);
    }
  }

  lemma MissIsGenuine(tbs: seq<Block>, nb: nat, origins: seq<Mmu>, tbs2: seq<Block>, tb: nat, phys: Mmu)
    requires AllGenuine(tbs, nb, origins) && |tbs| == |tbs2| && tb < |tbs| && SameButLinks(tbs[tb := tbs2[tb]], tbs2)
    requires (tb == 0 || tb == nb) && Records(tbs2[tb], phys) && PageWise(phys)
    ensures tb < |origins| && AllGenuine(tbs2, tb + 1, origins[tb := phys])
  {
    hide Records;
    hide PageWise;
    forall i | 0 <= i < tb
      ensures Records(tbs2[i], origins[i])
    {
      assert tbs[tb := tbs2[tb]][i] == tbs[i];
      SameRecords(tbs[i], tbs2[i], origins[i]);
    }
  }

  lemma GenuineIsCurrent(tbs: seq<Block>, nb: nat, origins: seq<Mmu>, tb: nat, key: Key, phys: Mmu)
    requires AllGenuine(tbs, nb, origins) && tb < nb && tb < |tbs| && Matches(tbs[tb], key, phys) && PageWise(phys)
    ensures tb < |origins| && SameCode(tbs[tb], origins[tb], phys)
  {
    hide Records;
    hide PageWise;
    hide Matches;
    hide SameCode;
    MatchIsCurrent(tbs[tb], key, origins[tb], phys);
  }

  lemma CachedIs(tbs: seq<Block>, nb: nat, heads: seq<int>, chains: seq<seq<nat>>, cache: seq<int>, s: nat, phys: Mmu)
    requires TablesOk(tbs, nb, heads, chains) && Coherent(tbs, chains, cache, phys) && s < CACHE_SIZE
    ensures cache[s] != NULL ==> 0 <= cache[s] < nb <= |tbs| && Matches(tbs[cache[s]], tbs[cache[s]].key, phys)
  {
    hide Matches;
    hide TablesOk;
    hide CacheSlot;
    hide PhysHash;
    assert SlotOk(tbs, chains, s, cache[s], phys);
    if cache[s] != NULL {
      TablesAre(tbs, nb, heads, chains);
      LinkTo(tbs, nb, heads, chains, tbs[cache[s]].Home(), 0);
    }
  }

  /** The links may differ, nothing else. */
  predicate SameButLinks(a: seq<Block>, b: seq<Block>) {
    |a| == |b| && forall i :: 0 <= i < |a| ==> a[i].(physHashNext := NULL) == b[i].(physHashNext := NULL)
  }

  lemma RelinkedIsSame(tbs: seq<Block>, head: int, chain: seq<nat>, k: nat)
    requires k < |chain| && ChainBelow(tbs, chain)
    ensures SameButLinks(tbs, Relinked(tbs, head, chain, k))
  {}

  lemma SameMatches(b: Block, c: Block, key: Key, phys: Mmu)
    requires b.(physHashNext := NULL) == c.(physHashNext := NULL) && Matches(b, key, phys)
    ensures Matches(c, key, phys)
  {
    assert b.key == b.(physHashNext := NULL).key && b.page0 == b.(physHashNext := NULL).page0;
    assert b.page1 == b.(physHashNext := NULL).page1;
  }

  lemma SameInPlace(mid: seq<Block>, now: seq<Block>, tb: nat, key: Key, phys: Mmu)
    requires SameButLinks(mid, now) && tb < |mid| && Matches(mid[tb], key, phys)
    ensures |now| == |mid| && Matches(now[tb], key, phys)
    ensures forall was: seq<Block> :: |was| == |mid| && mid == was[tb := mid[tb]] ==> SameButLinks(was[tb := now[tb]], now)
  {
    SameMatches(mid[tb], now[tb], key, phys);
  }

  /** ptb1 leads to the block found, if one is found, and is null otherwise. */
  lemma LinkTo(tbs: seq<Block>, nb: nat, heads: seq<int>, chains: seq<seq<nat>>, h: nat, k: nat)
    requires TablesOk(tbs, nb, heads, chains) && h < HASH_SIZE && k <= |chains[h]|
    ensures ChainBelow(tbs, chains[h]) && forall i :: 0 <= i < |chains[h]| ==> chains[h][i] < nb
    ensures Cell(tbs, heads, h, if k == 0 then NULL else chains[h][k - 1]) == At(chains[h], k)
  {
    assert BucketOk(tbs, nb, heads[h], chains[h], h);
  }

  lemma MovedAlone(tb: nat)
    ensures MovedToFront([tb], 0) == [tb]
  {}

  function HashIndex(a: bv32): (r: nat)
    ensures r == PhysHash(a) && r < HASH_SIZE
  {
    PhysHash(a)
  }

  lemma FirstMatchBounds(tbs: seq<Block>, chain: seq<nat>, key: Key, phys: Mmu)
    requires ChainBelow(tbs, chain)
    ensures FirstMatch(tbs, chain, key, phys) <= |chain|
    ensures FirstMatch(tbs, chain, key, phys) < |chain| ==> Matches(tbs[chain[FirstMatch(tbs, chain, key, phys)]], key, phys)
  {}

  /** After a miss, *ptb1 is null unless it is the head of the bucket: it was the last link of the
      chain, and if that block has been flushed, its memory is stale or belongs to the new block. */
  lemma MissLink(was: seq<Block>, nb: nat, chainsWas: seq<seq<nat>>, tbs: seq<Block>, chains: seq<seq<nat>>,
                 h: nat, tb: nat, prev: int)
    requires h < |chainsWas| == |chains| == HASH_SIZE && |tbs| == |was| && tb < |tbs|
    requires tbs == was[tb := tbs[tb]] && tbs[tb].physHashNext == At(chains[h], 1)
    requires forall i :: 0 <= i < |chainsWas[h]| ==> chainsWas[h][i] < nb <= |was|
    requires (tb == 0 && chains == WithBlock(NoChains(), h, tb)) || (tb == nb && chains == WithBlock(chainsWas, h, tb))
    requires prev == if chainsWas[h] == [] then NULL else chainsWas[h][|chainsWas[h]| - 1]
    requires prev != NULL ==> was[prev].physHashNext == NULL
    ensures prev != NULL ==> tbs[prev].physHashNext == NULL
    ensures prev == NULL ==> chains[h] == [tb]
  {}

  /** A block that matches is found, whichever chain it is in. */
  lemma AnyMatchIsFound(tbs: seq<Block>, nb: nat, heads: seq<int>, chains: seq<seq<nat>>, x: nat, i: nat, key: Key,
                        phys: Mmu)
    requires TablesOk(tbs, nb, heads, chains) && PageWise(phys) && x < HASH_SIZE && i < |chains[x]|
    requires chains[x][i] < |tbs| && Matches(tbs[chains[x][i]], key, phys)
    ensures x == PhysHash(phys(key.pc)) && Found(tbs, chains[x], key, phys)
  {
    assert BucketOk(tbs, nb, heads[x], chains[x], x);
    MatchIsAtHome(tbs[chains[x][i]], key, phys);
    hide Matches;
    hide PhysHash;
    FirstMatchBounds(tbs, chains[x], key, phys);
    assert !(forall j :: 0 <= j < |chains[x]| ==> !Matches(tbs[chains[x][j]], key, phys));
  }

  /** The tables after a hit on block k of chain h. */
  predicate HitLeaves(tbs: seq<Block>, chains: seq<seq<nat>>, cache: seq<int>, h: nat, k: nat, pc: bv32,
                      tbs2: seq<Block>, chains2: seq<seq<nat>>, cache2: seq<int>)
  {
    && h < |chains| && k < |chains[h]| && |cache| == CACHE_SIZE
    && SameButLinks(tbs, tbs2) && chains2 == chains[h := MovedToFront(chains[h], k)]
    && cache2 == cache[CacheSlot(pc) := chains[h][k]]
  }

  /** The tables after a miss: block tb is new, and if there was a flush everything else is gone. */
  predicate MissLeaves(tbs: seq<Block>, chains: seq<seq<nat>>, cache: seq<int>, flush: bool, h: nat, tb: nat, pc: bv32,
                       tbs2: seq<Block>, chains2: seq<seq<nat>>, cache2: seq<int>)
  {
    && h < |chains| == HASH_SIZE && |tbs| == |tbs2| && tb < |tbs| && |cache| == CACHE_SIZE
    && SameButLinks(tbs[tb := tbs2[tb]], tbs2) && chains2 == WithBlock(if flush then NoChains() else chains, h, tb)
    && cache2 == (if flush then Nulls(CACHE_SIZE) else cache)[CacheSlot(pc) := tb]
  }

  /** Some block of the chain matches. */
  predicate Found(tbs: seq<Block>, chain: seq<nat>, key: Key, phys: Mmu) {
    ChainBelow(tbs, chain) && FirstMatch(tbs, chain, key, phys) < |chain|
  }


  /** All blocks of the chain are blocks of the array. */
  predicate ChainBelow(tbs: seq<Block>, chain: seq<nat>) {
    forall i :: 0 <= i < |chain| ==> chain[i] < |tbs|
  }

  lemma DistinctAt(tbs: seq<Block>, nb: nat, heads: seq<int>, chains: seq<seq<nat>>, h: nat, k: nat)
    requires TablesOk(tbs, nb, heads, chains) && h < HASH_SIZE && k < |chains[h]|
    ensures k > 0 ==> chains[h][k - 1] != chains[h][k]
    ensures chains[h][k] < |tbs| && tbs[chains[h][k]].physHashNext == At(chains[h], k + 1)
    ensures k == 0 ==> heads[h] == chains[h][k]
  {
    assert BucketOk(tbs, nb, heads[h], chains[h], h);
  }

  lemma MatchTest(b: Block, key: Key, phys: Mmu)
    ensures Matches(b, key, phys) <==>
      b.key == key && b.page0 == PageOf(phys(key.pc)) && (b.page1 == NO_PAGE || b.page1 == phys(PageAfter(key.pc)))
  {}

  lemma BucketIs(tbs: seq<Block>, nb: nat, heads: seq<int>, chains: seq<seq<nat>>, h: nat)
    requires TablesOk(tbs, nb, heads, chains) && h < HASH_SIZE
    ensures BucketOk(tbs, nb, heads[h], chains[h], h)
  {
    hide BucketOk;
  }

  lemma BucketBelow(tbs: seq<Block>, nb: nat, head: int, chain: seq<nat>, h: nat)
    requires BucketOk(tbs, nb, head, chain, h)
    ensures ChainBelow(tbs, chain) && head == At(chain, 0)
    ensures forall i :: 0 <= i < |chain| ==> chain[i] < |tbs|
  {}

  lemma BucketStep(tbs: seq<Block>, nb: nat, head: int, chain: seq<nat>, h: nat, tb: int, k: nat)
    requires BucketOk(tbs, nb, head, chain, h) && tb == At(chain, k) != NULL
    ensures k < |chain| && tb == chain[k] < |tbs| && tbs[tb].physHashNext == At(chain, k + 1)
  {}

  lemma SearchEnds(chain: seq<nat>, tb: int, k: nat)
    requires k <= |chain| && tb == At(chain, k)
    ensures tb == NULL <==> k == |chain|
  {}

  lemma FirstMatchIs(tbs: seq<Block>, chain: seq<nat>, key: Key, phys: Mmu, k: nat)
    requires ChainBelow(tbs, chain)
    requires k <= |chain| && (forall j :: 0 <= j < k ==> !Matches(tbs[chain[j]], key, phys))
    requires k < |chain| ==> Matches(tbs[chain[k]], key, phys)
    ensures FirstMatch(tbs, chain, key, phys) == k
  {}

  lemma TablesAre(tbs: seq<Block>, nb: nat, heads: seq<int>, chains: seq<seq<nat>>)
    requires TablesOk(tbs, nb, heads, chains)
    ensures |heads| == |chains| == HASH_SIZE && nb <= |tbs|
  {}

  lemma NewMatches(b: Block, key: Key, phys: Mmu)
    requires b.key == key && b.page0 == PageOf(phys(key.pc))
    requires b.page1 == NO_PAGE || b.page1 == phys(PageAfter(key.pc))
    ensures Matches(b, key, phys)
  {}

  lemma HeadIsFirst(tbs: seq<Block>, nb: nat, heads: seq<int>, chains: seq<seq<nat>>, h: nat)
    requires TablesOk(tbs, nb, heads, chains) && h < HASH_SIZE
    ensures heads[h] == At(chains[h], 0)
  {
    assert BucketOk(tbs, nb, heads[h], chains[h], h);
  }

  /** A block that is not in use yet may be written to. */
  lemma SpareOk(tbs: seq<Block>, nb: nat, heads: seq<int>, chains: seq<seq<nat>>, i: nat, b: Block)
    requires TablesOk(tbs, nb, heads, chains) && nb <= i < |tbs|
    ensures TablesOk(tbs[i := b], nb, heads, chains)
  {
    forall h | 0 <= h < HASH_SIZE
      ensures BucketOk(tbs[i := b], nb, heads[h], chains[h], h)
    {
      assert BucketOk(tbs, nb, heads[h], chains[h], h);
    }
  }

  // ----- The cache in front -----

  /** What sits in cache slot s is a block that its chain holds, and a translation of the code that
      is mapped at its address now. */
  ghost predicate SlotOk(tbs: seq<Block>, chains: seq<seq<nat>>, s: nat, tb: int, phys: Mmu) {
    tb != NULL ==>
      && 0 <= tb < |tbs| && s == CacheSlot(tbs[tb].key.pc) && tbs[tb].Home() < |chains|
      && tb in chains[tbs[tb].Home()] && Matches(tbs[tb], tbs[tb].key, phys)
  }

  ghost predicate Coherent(tbs: seq<Block>, chains: seq<seq<nat>>, cache: seq<int>, phys: Mmu) {
    |cache| == CACHE_SIZE && forall s :: 0 <= s < CACHE_SIZE ==> SlotOk(tbs, chains, s, cache[s], phys)
  }

  /** No slot is left to the page of addr or to the page before it. */
  ghost predicate Cleared(was: seq<int>, now: seq<int>, addr: bv32) {
    && |was| == |now| == CACHE_SIZE && (forall s :: 0 <= s < CACHE_SIZE ==> now[s] == NULL || now[s] == was[s])
    && forall a :: PageOf(a) == PageOf(addr) || PageOf(a) == PageOf(PriorPage(addr)) ==> now[CacheSlot(a)] == NULL
  }

  /** Clearing the runs of a page and of the one before it clears the slots of all their addresses. */
  lemma RunsCleared(was: seq<int>, now: seq<int>, addr: bv32)
    requires |was| == |now| == CACHE_SIZE
    requires forall s :: 0 <= s < CACHE_SIZE ==>
      now[s] == if InRun(PageOf(addr), s) || InRun(PriorPage(addr), s) then NULL else was[s]
    ensures Cleared(was, now, addr)
  {
    hide PageOf;
    hide CacheHashPage;
    hide Slot;
    hide CacheSlot;
    hide PriorPage;
    var page := PageOf(addr);
    PageOfPage(addr);
    forall a | PageOf(a) == PageOf(addr) || PageOf(a) == PageOf(PriorPage(addr))
      ensures now[CacheSlot(a)] == NULL
    {
      if PageOf(a) == PageOf(addr) {
        PageHasOneRun(a, page);
        assert InRun(page, CacheSlot(a));
      } else {
        PageHasOneRun(a, PriorPage(addr));
        assert InRun(PriorPage(addr), CacheSlot(a));
      }
    }
  }

  /** A slot in the run of a page. */
  predicate InRun(page: bv32, s: int) {
    Slot(CacheHashPage(page)) <= s < Slot(CacheHashPage(page)) + SLOTS_PER_PAGE
  }

  lemma PageOfPage(addr: bv32)
    ensures PageOf(PageOf(addr)) == PageOf(addr)
  {}

  lemma RunFits2(addr: bv32)
    ensures Slot(CacheHashPage(addr)) + SLOTS_PER_PAGE <= CACHE_SIZE
  {
    var k := RunOffset(addr);
    hide CacheHashPage;
    RunFits(CacheHashPage(addr));
  }

  /** The two mappings agree except on one virtual page. */
  ghost predicate AgreeOutside(phys: Mmu, phys2: Mmu, addr: bv32) {
    forall a :: PageOf(a) != PageOf(addr) ==> phys(a) == phys2(a)
  }

  /** A slot that is not cleared when a page is flushed does not depend on the page. */
  lemma SlotSurvives(tbs: seq<Block>, chains: seq<seq<nat>>, s: nat, tb: int, phys: Mmu, phys2: Mmu, addr: bv32)
    requires SlotOk(tbs, chains, s, tb, phys) && AgreeOutside(phys, phys2, addr)
    requires tb != NULL && PageOf(tbs[tb].key.pc) != PageOf(addr) && PageOf(tbs[tb].key.pc) != PageOf(PageOf(addr) - PAGE)
    ensures SlotOk(tbs, chains, s, tb, phys2)
  {
    var pc := tbs[tb].key.pc;
    PageBefore(pc, addr);
    MatchTest(tbs[tb], tbs[tb].key, phys);
    MatchTest(tbs[tb], tbs[tb].key, phys2);
    hide Matches;
    hide PageOf;
    hide PageAfter;
  }

  lemma PageBefore(pc: bv32, addr: bv32)
    requires PageOf(pc) != PageOf(PageOf(addr) - PAGE)
    ensures PageOf(PageAfter(pc)) != PageOf(addr)
  {}

  /** Remapping a page, with tlb_flush_page called for it, leaves the cache coherent with the new
      mapping. */
  lemma FlushKeepsCoherence(tbs: seq<Block>, chains: seq<seq<nat>>, was: seq<int>, now: seq<int>, phys: Mmu,
                            phys2: Mmu, addr: bv32)
    requires Coherent(tbs, chains, was, phys) && AgreeOutside(phys, phys2, addr) && Cleared(was, now, addr)
    ensures Coherent(tbs, chains, now, phys2)
  {
    forall s | 0 <= s < CACHE_SIZE
      ensures SlotOk(tbs, chains, s, now[s], phys2)
    {
      assert SlotOk(tbs, chains, s, was[s], phys);
      if now[s] != NULL {
        SlotSurvives(tbs, chains, s, was[s], phys, phys2, addr);
      }
    }
  }

  lemma SlotMoves(tbs: seq<Block>, chains: seq<seq<nat>>, s: nat, tb: int, phys: Mmu, tbs2: seq<Block>,
                  chains2: seq<seq<nat>>)
    requires SlotOk(tbs, chains, s, tb, phys) && |chains| <= |chains2| && |tbs| == |tbs2|
    requires tb != NULL ==> tbs[tb].(physHashNext := NULL) == tbs2[tb].(physHashNext := NULL)
    requires tb != NULL ==> tb in chains2[tbs[tb].Home()]
    ensures SlotOk(tbs2, chains2, s, tb, phys)
  {
    hide PhysHash;
    hide CacheHash;
    hide Matches;
    if tb != NULL {
      var b, c := tbs[tb].(physHashNext := NULL), tbs2[tb].(physHashNext := NULL);
      assert tbs[tb].key == b.key == c.key == tbs2[tb].key && tbs[tb].page0 == b.page0 == c.page0 == tbs2[tb].page0;
      SameMatches(tbs[tb], tbs2[tb], tbs[tb].key, phys);
    }
  }

  /** A lookup that hits keeps the cache coherent. */
  lemma HitKeepsCoherence(tbs: seq<Block>, chains: seq<seq<nat>>, cache: seq<int>, h: nat, k: nat, key: Key, phys: Mmu,
                          tbs2: seq<Block>, chains2: seq<seq<nat>>, cache2: seq<int>)
    requires Coherent(tbs, chains, cache, phys) && PageWise(phys)
    requires HitLeaves(tbs, chains, cache, h, k, key.pc, tbs2, chains2, cache2) && h == PhysHash(phys(key.pc))
    requires chains[h][k] < |tbs2| && Matches(tbs2[chains[h][k]], key, phys)
    ensures Coherent(tbs2, chains2, cache2, phys)
  {
    var tb := chains[h][k];
    MatchIsAtHome(tbs2[tb], key, phys);
    assert chains2[h][0] == tb;
    hide Matches;
    hide CacheSlot;
    hide PhysHash;
    hide MovedToFront;
    assert tbs2[tb].key == key by { MatchTest(tbs2[tb], key, phys); }
    forall s | 0 <= s < CACHE_SIZE
      ensures SlotOk(tbs2, chains2, s, cache2[s], phys)
    {
      if s != CacheSlot(key.pc) {
        assert SlotOk(tbs, chains, s, cache[s], phys);
        if cache[s] != NULL {
          StillThere(chains, h, k, tbs[cache[s]].Home(), cache[s]);
        }
        SlotMoves(tbs, chains, s, cache[s], phys, tbs2, chains2);
      }
    }
  }

  lemma StillThere(chains: seq<seq<nat>>, h: nat, k: nat, x: nat, tb: nat)
    requires h < |chains| && k < |chains[h]| && x < |chains| && tb in chains[x]
    ensures tb in chains[h := MovedToFront(chains[h], k)][x]
  {
    MovedHasTheSame(chains[h], k);
    assert x == h ==> tb in multiset(MovedToFront(chains[h], k));
  }

  /** So does one that misses, with or without a flush. */
  lemma MissKeepsCoherence(tbs: seq<Block>, nb: nat, heads: seq<int>, chains: seq<seq<nat>>, cache: seq<int>,
                           flush: bool,
                           h: nat, tb: nat, key: Key, phys: Mmu, tbs2: seq<Block>, chains2: seq<seq<nat>>, cache2: seq<int>)
    requires Coherent(tbs, chains, cache, phys) && PageWise(phys) && TablesOk(tbs, nb, heads, chains)
    requires MissLeaves(tbs, chains, cache, flush, h, tb, key.pc, tbs2, chains2, cache2) && h == PhysHash(phys(key.pc))
    requires Matches(tbs2[tb], key, phys) && (flush || tb == nb)
    ensures Coherent(tbs2, chains2, cache2, phys)
  {
    NewSlot(tbs2, WithBlock(if flush then NoChains() else chains, h, tb), h, tb, key, phys);
    hide Matches;
    hide CacheSlot;
    hide PhysHash;
    hide TablesOk;
    hide WithBlock;
    hide SlotOk;
    forall s | 0 <= s < CACHE_SIZE
      ensures SlotOk(tbs2, chains2, s, cache2[s], phys)
    {
      if s != CacheSlot(key.pc) {
        if flush {
          EmptySlot(tbs2, chains2, s, phys);
        } else {
          OtherSlot(tbs, nb, heads, chains, s, cache[s], phys, tbs2, h);
        }
      }
    }
  }

  lemma EmptySlot(tbs: seq<Block>, chains: seq<seq<nat>>, s: nat, phys: Mmu)
    ensures SlotOk(tbs, chains, s, NULL, phys)
  {}

  lemma NewSlot(tbs: seq<Block>, chains: seq<seq<nat>>, h: nat, tb: nat, key: Key, phys: Mmu)
    requires tb < |tbs| && Matches(tbs[tb], key, phys) && PageWise(phys)
    requires h == PhysHash(phys(key.pc)) < |chains| && |chains[h]| > 0 && chains[h][0] == tb
    ensures SlotOk(tbs, chains, CacheSlot(key.pc), tb, phys)
  {
    MatchIsAtHome(tbs[tb], key, phys);
    MatchTest(tbs[tb], key, phys);
  }

  lemma OtherSlot(tbs: seq<Block>, nb: nat, heads: seq<int>, chains: seq<seq<nat>>, s: nat, t: int, phys: Mmu,
                  tbs2: seq<Block>, h: nat)
    requires TablesOk(tbs, nb, heads, chains) && SlotOk(tbs, chains, s, t, phys)
    requires nb < |tbs| == |tbs2| && h < |chains| && SameButLinks(tbs[nb := tbs2[nb]], tbs2)
    ensures SlotOk(tbs2, WithBlock(chains, h, nb), s, t, phys)
  {
    if t != NULL {
      TablesAre(tbs, nb, heads, chains);
      LinkTo(tbs, nb, heads, chains, tbs[t].Home(), 0);
      assert tbs[nb := tbs2[nb]][t] == tbs[t];
    }
    hide Matches;
    hide TablesOk;
    SlotMoves(tbs, chains, s, t, phys, tbs2, WithBlock(chains, h, nb));
  }
}
