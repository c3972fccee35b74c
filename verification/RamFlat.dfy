/** The version 4 stream, which ram_load accepts too: its records name no blocks but address guest
    memory as a whole, through qemu_get_ram_ptr (arch_init.c, exec.c). */
module RamFlat {
  import opened Common
  import opened RamList
  import opened Wire
  import opened RamSave
  import opened RamLoad
  import opened RamOrder

  /** The receiver after a page has been stored where qemu_get_ram_ptr points to. */
  function StoredAt(d: Dest, frame: nat, content: Page): (r: Dest)
    requires d.Valid() && BlockOf(d.blocks, frame).Some?
    ensures r.Valid() && frame < |d.mem| && r.mem == d.mem[frame := content]
  {
    var i := BlockOf(d.blocks, frame).value;
    ApartAt(d.blocks, |d.mem|, i, i);
    Pointed(d, i).(mem := d.mem[frame := content])
  }

  /** A page stored at a frame of guest memory, by the first bytes of the input. */
  function LoadFlat(d: Dest, frame: nat, compressed: bool, eos: bool, input: seq<byte>): (r: Result<(Dest, bool)>)
    requires d.Valid()
    ensures r.Ok? ==> r.value.0.Valid() && |r.rest| <= |input|
  {
    var size := if compressed then 1 else PAGE_SIZE;
    if BlockOf(d.blocks, frame).None? then Err(Abort)
    else if |input| < size then Err(EIO)
    else Ok((StoredAt(d, frame, if compressed then seq(PAGE_SIZE, _ => input[0]) else input[..PAGE_SIZE]), eos), input[size..])
  }

  /** One record of ram_load on a version 4 stream. */
  function LoadRecordFlat(d: Dest, input: seq<byte>): (r: Result<(Dest, bool)>)
    requires d.Valid()
    ensures r.Ok? ==> r.value.0.Valid() && |r.rest| < |input|
  {
    if |input| < 8 then Err(EIO)
    else
      var v := Number(input[..8]);
      var flags, page, rest := v % PAGE_SIZE, v / PAGE_SIZE, input[8..];
      var eos := HasFlag(flags, EOS);
      if HasFlag(flags, MEM_SIZE) then
        if page * PAGE_SIZE != Total(d.blocks) * PAGE_SIZE then Err(EINVAL) else Ok((d, eos), rest)
      else if HasFlag(flags, COMPRESS) then LoadFlat(d, page, true, eos, rest)
      else if HasFlag(flags, PAGE) then LoadFlat(d, page, false, eos, rest)
      else Ok((d, eos), rest)
  }

  function LoadAllFlat(d: Dest, input: seq<byte>): (r: Result<Dest>)
    requires d.Valid()
    ensures r.Ok? ==> r.value.Valid()
    decreases |input|
  {
    match LoadRecordFlat(d, input)
    case Err(e) => Err(e)
    case Ok((d', eos), rest) => if eos then Ok(d', rest) else LoadAllFlat(d', rest)
  }

  lemma LoadFlatEof(d: Dest, input: seq<byte>)
    requires d.Valid()
    ensures match LoadRecordFlat(d, input)
            case Err(e) => LoadAllFlat(d, input) == Err(e)
            case Ok((d', eos), rest) =>
              d'.Valid() && |rest| < |input| && LoadAllFlat(d, input) == if eos then Ok(d', rest) else LoadAllFlat(d', rest)
  {
    hide LoadRecordFlat;
  }

  // ----- A stream of pages loads as stores to guest memory -----

  function FlatRecord(frame: nat, content: Page): seq<byte>
    requires frame * PAGE_SIZE + PAGE_SIZE <= WORD_LIMIT
  {
    Be64(frame * PAGE_SIZE + if IsDup(content) then COMPRESS else PAGE) + if IsDup(content) then [content[0]] else content
  }

  ghost predicate InWords(pages: seq<(nat, Page)>) {
    forall p :: p in pages ==> p.0 * PAGE_SIZE + PAGE_SIZE <= WORD_LIMIT
  }

  function FlatStream(pages: seq<(nat, Page)>): seq<byte>
    requires InWords(pages)
  {
    if pages == [] then Be64(EOS) else FlatRecord(pages[0].0, pages[0].1) + FlatStream(pages[1..])
  }

  ghost predicate AllHeld(blocks: seq<RamBlock>, pages: seq<(nat, Page)>) {
    forall p :: p in pages ==> exists b :: b in blocks && Holds(b, p.0)
  }

  function Stored(mem: seq<Page>, pages: seq<(nat, Page)>): seq<Page>
    decreases |pages|
  {
    if pages == [] then mem
    else Stored(if pages[0].0 < |mem| then mem[pages[0].0 := pages[0].1] else mem, pages[1..])
  }

  lemma FlatRecordLoads(d: Dest, frame: nat, content: Page, rest: seq<byte>)
    requires d.Valid() && frame * PAGE_SIZE + PAGE_SIZE <= WORD_LIMIT
    ensures LoadRecordFlat(d, FlatRecord(frame, content) + rest) == match BlockOf(d.blocks, frame)
      case None => Err(Abort)
      case Some(_) => Ok((StoredAt(d, frame, content), false), rest)
  {
    hide Number;
    hide Be64;
    hide IsDup;
    hide BlockOf;
    hide StoredAt;
    var dup := IsDup(content);
    var flags := if dup then COMPRESS else PAGE;
    var word := Be64(frame * PAGE_SIZE + flags);
    var body := if dup then [content[0]] else content;
    assert FlatRecord(frame, content) + rest == word + (body + rest);
    FlagsOfWord(frame, flags);
    Prefix(word, body + rest);
    Prefix(body, rest);
    DupPage(content);
  }

  lemma DupPage(content: Page)
    ensures IsDup(content) ==> seq(PAGE_SIZE, _ => content[0]) == content
  {}

  /** Whether a frame is in some block does not depend on the order of the list. */
  lemma HeldIffFound(blocks: seq<RamBlock>, frame: nat)
    ensures BlockOf(blocks, frame).Some? <==> exists b :: b in blocks && Holds(b, frame)
  {
    var r := BlockOf(blocks, frame);
    if r.Some? {
      assert blocks[r.value] in blocks;
    }
  }

  lemma HeldNext(d: Dest, pages: seq<(nat, Page)>)
    requires d.Valid() && pages != []
    ensures BlockOf(d.blocks, pages[0].0).None? ==> !AllHeld(d.blocks, pages)
    ensures BlockOf(d.blocks, pages[0].0).Some? ==>
      var d' := StoredAt(d, pages[0].0, pages[0].1);
      (AllHeld(d'.blocks, pages[1..]) <==> AllHeld(d.blocks, pages)) && multiset(d'.blocks) == multiset(d.blocks)
  {
    hide AllApart;
    hide BlockOf;
    hide ToFront;
    HeldIffFound(d.blocks, pages[0].0);
    assert forall p :: p in pages <==> p == pages[0] || p in pages[1..];
    if BlockOf(d.blocks, pages[0].0).Some? {
      var d' := StoredAt(d, pages[0].0, pages[0].1);
      ToFrontKeeps(d.blocks, |d.mem|, BlockOf(d.blocks, pages[0].0).value);
      hide *;
      SameHeld(d.blocks, d'.blocks, pages[1..]);
    }
  }

  lemma SameHeld(blocks: seq<RamBlock>, blocks2: seq<RamBlock>, pages: seq<(nat, Page)>)
    requires multiset(blocks) == multiset(blocks2)
    ensures AllHeld(blocks, pages) <==> AllHeld(blocks2, pages)
  {
    assert forall b :: b in blocks <==> b in multiset(blocks2);
  }

  lemma StreamStep(mem: seq<Page>, pages: seq<(nat, Page)>)
    requires InWords(pages)
    ensures pages == [] ==> FlatStream(pages) == Be64(EOS) && Stored(mem, pages) == mem
    ensures forall blocks :: AllHeld(blocks, [])
    ensures pages != [] ==>
      && InWords(pages[1..]) && pages[0].0 * PAGE_SIZE + PAGE_SIZE <= WORD_LIMIT
      && FlatStream(pages) == FlatRecord(pages[0].0, pages[0].1) + FlatStream(pages[1..])
      && (pages[0].0 < |mem| ==> Stored(mem, pages) == Stored(mem[pages[0].0 := pages[0].1], pages[1..]))
  {}

  /** A stream of pages is loaded to its last byte exactly if every page lies in some block, and then
      memory is what the stores of its pages in turn make of it, whatever way the list of blocks has
      been rearranged meanwhile. */
  lemma {:induction false} FlatStreamLoads(d: Dest, pages: seq<(nat, Page)>)
    requires d.Valid() && InWords(pages)
    ensures match LoadAllFlat(d, FlatStream(pages))
            case Ok(d', rest) =>
              AllHeld(d.blocks, pages) && rest == [] && d'.mem == Stored(d.mem, pages)
              && multiset(d'.blocks) == multiset(d.blocks)
            case Err(e) => !AllHeld(d.blocks, pages) && e == Abort
    decreases |pages|
  {
    hide *;
    LoadFlatEof(d, FlatStream(pages));
    StreamStep(d.mem, pages);
    if pages == [] {
      EndFlat(d);
    } else {
      var (frame, content) := pages[0];
      HeldNext(d, pages);
      FlatRecordLoads(d, frame, content, FlatStream(pages[1..]));
      if BlockOf(d.blocks, frame).Some? {
        var d' := StoredAt(d, frame, content);
        FlatStreamLoads(d', pages[1..]);
      }
    }
  }

  lemma EndFlat(d: Dest)
    requires d.Valid()
    ensures LoadRecordFlat(d, Be64(EOS)) == Ok((d, true), [])
  {
    hide Number;
    hide Be64;
    NumberBe64(EOS);
    assert Be64(EOS)[..8] == Be64(EOS) && Be64(EOS)[8..] == [];
  }
}
