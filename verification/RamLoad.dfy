/** The receiving side of RAM migration: host_from_stream_offset and ram_load, on the version 3
    path under which the RAM section is registered. */
module RamLoad {
  import opened Common
  import opened RamList
  import opened Wire
  import opened RamSave

  /** -EINVAL, -EIO, a store through a pointer that points into no block, or the abort of
      qemu_get_ram_ptr: the version 3 path checks neither the page offset of a record nor the block
      pointer of an uncompressed page. */
  datatype LoadError = EINVAL | EIO | WildStore | Abort

  /** The receiver's blocks and memory, and the decoder's static block pointer. */
  datatype Dest = Dest(blocks: seq<RamBlock>, mem: seq<Page>, cur: Option<nat>) {
    predicate Valid() {
      AllApart(blocks, |mem|) && (cur.Some? ==> cur.value < |blocks|)
    }

    function Stored(p: Pos, content: Page): (d: Dest)
      requires Valid() && ValidPos(blocks, p)
      ensures d.Valid() && d.blocks == blocks && d.cur == cur
    {
      FrameInjective(blocks, |mem|, p, p);
      this.(mem := mem[Frame(blocks, p) := content])
    }

    function PageAt(p: Pos): Page
      requires Valid() && ValidPos(blocks, p)
    {
      FrameInjective(blocks, |mem|, p, p);
      mem[Frame(blocks, p)]
    }
  }

  datatype Result<T> = Ok(value: T, rest: seq<byte>) | Err(error: LoadError)

  /** The bytes of a name up to its first zero, as strncmp sees it. */
  function CString(id: seq<byte>): (r: seq<byte>)
    ensures 0 !in id ==> r == id
  {
    if id == [] || id[0] == 0 then [] else [id[0]] + CString(id[1..])
  }

  /** The QLIST_FOREACH search: the first block of that name. */
  function Find(blocks: seq<RamBlock>, id: seq<byte>): (r: Option<nat>)
    ensures r.Some? ==> r.value < |blocks| && blocks[r.value].idstr == id
    ensures r.None? ==> forall i :: 0 <= i < |blocks| ==> blocks[i].idstr != id
  {
    if blocks == [] then None
    else if blocks[0].idstr == id then Some(0)
    else match Find(blocks[1..], id) case None => None case Some(i) => Some(i + 1)
  }

  /** A length byte and that many bytes of name. */
  function GetId(input: seq<byte>): Result<seq<byte>> {
    if |input| < 1 || |input| < 1 + input[0] as nat then Err(EIO)
    else Ok(CString(input[1..1 + input[0] as nat]), input[1 + input[0] as nat..])
  }

  /** host_from_stream_offset: the block the record belongs to, also remembered for the next one. */
  function Locate(d: Dest, flags: nat, input: seq<byte>): (r: Result<Dest>)
    ensures r.Ok? && d.Valid() ==> r.value.Valid() && r.value.mem == d.mem && r.value.blocks == d.blocks
    ensures r.Ok? ==> |r.rest| <= |input|
  {
    if HasFlag(flags, CONTINUE) then Ok(d, input)
    else match GetId(input)
      case Err(e) => Err(e)
      case Ok(id, rest) => Ok(d.(cur := Find(d.blocks, id)), rest)
  }

  /** The block list of the header, until its lengths have used up the announced total. */
  function LoadBlockList(blocks: seq<RamBlock>, total: nat, input: seq<byte>): (r: Result<()>)
    requires forall b :: b in blocks ==> 0 < b.pages
    ensures r.Ok? ==> |r.rest| <= |input|
    decreases |input|
  {
    if total == 0 then Ok((), input)
    else match GetId(input)
      case Err(e) => Err(e)
      case Ok(id, rest) =>
        if |rest| < 8 then Err(EIO)
        else
          var length := Number(rest[..8]);
          match Find(blocks, id)
          case None => Err(EINVAL)
          case Some(i) =>
            if blocks[i].pages * PAGE_SIZE != length then Err(EINVAL)
            else LoadBlockList(blocks, (total - length) % WORD_LIMIT, rest[8..])
  }

  /** A page of one repeated byte. */
  function LoadCompressed(d: Dest, page: nat, eos: bool, input: seq<byte>): (r: Result<(Dest, bool)>)
    requires d.Valid()
    ensures r.Ok? ==> r.value.0.Valid() && |r.rest| <= |input|
  {
    if d.cur.None? then Err(EINVAL)
    else if |input| < 1 then Err(EIO)
    else if page >= d.blocks[d.cur.value].pages then Err(WildStore)
    else Ok((d.Stored(Pos(d.cur.value, page), seq(PAGE_SIZE, _ => input[0])), eos), input[1..])
  }

  /** A page in full. */
  function LoadPlain(d: Dest, page: nat, eos: bool, input: seq<byte>): (r: Result<(Dest, bool)>)
    requires d.Valid()
    ensures r.Ok? ==> r.value.0.Valid() && |r.rest| <= |input|
  {
    if d.cur.None? then Err(WildStore)
    else if |input| < PAGE_SIZE then Err(EIO)
    else if page >= d.blocks[d.cur.value].pages then Err(WildStore)
    else Ok((d.Stored(Pos(d.cur.value, page), input[..PAGE_SIZE]), eos), input[PAGE_SIZE..])
  }

  /** One record of ram_load: the state after it and whether it ends the section. */
  function LoadRecord(d: Dest, input: seq<byte>): (r: Result<(Dest, bool)>)
    requires d.Valid()
    ensures r.Ok? ==> r.value.0.Valid() && |r.rest| < |input|
  {
    if |input| < 8 then Err(EIO)
    else
      var v := Number(input[..8]);
      var flags, page, rest := v % PAGE_SIZE, v / PAGE_SIZE, input[8..];
      var eos := HasFlag(flags, EOS);
      if HasFlag(flags, MEM_SIZE) then
        NonEmptyBlocks(d);
        match LoadBlockList(d.blocks, page * PAGE_SIZE, rest)
        case Err(e) => Err(e)
        case Ok(_, rest') => Ok((d, eos), rest')
      else if HasFlag(flags, COMPRESS) then
        match Locate(d, flags, rest)
        case Err(e) => Err(e)
        case Ok(d', rest') => LoadCompressed(d', page, eos, rest')
      else if HasFlag(flags, PAGE) then
        match Locate(d, flags, rest)
        case Err(e) => Err(e)
        case Ok(d', rest') => LoadPlain(d', page, eos, rest')
      else Ok((d, eos), rest)
  }

  lemma NonEmptyBlocks(d: Dest)
    requires d.Valid()
    ensures forall b :: b in d.blocks ==> 0 < b.pages
  {
    forall b | b in d.blocks
      ensures 0 < b.pages
    {
      var i :| 0 <= i < |d.blocks| && d.blocks[i] == b;
      ApartAt(d.blocks, |d.mem|, i, i);
    }
  }

  /** ram_load from the first record to the end-of-section one. */
  function Load(d: Dest, input: seq<byte>): (r: Result<Dest>)
    requires d.Valid()
    ensures r.Ok? ==> r.value.Valid()
    decreases |input|
  {
    match LoadRecord(d, input)
    case Err(e) => Err(e)
    case Ok((d', eos), rest) => if eos then Ok(d', rest) else Load(d', rest)
  }

  // ----- What the sender writes is what the receiver reads -----

  /** The block is known to the receiver by its name, with the same length. */
  predicate Known(b: RamBlock, theirs: seq<RamBlock>) {
    var i := Find(theirs, b.idstr);
    i.Some? && theirs[i.value].pages == b.pages
  }

  predicate Compatible(blocks: seq<RamBlock>, theirs: seq<RamBlock>) {
    forall b :: b in blocks ==> Known(b, theirs)
  }

  lemma GetIdReads(id: seq<byte>, rest: seq<byte>)
    requires |id| < 256 && 0 !in id
    ensures GetId(IdBytes(id) + rest) == Ok(id, rest)
  {
    var input := IdBytes(id) + rest;
    assert input[0] as nat == |id|;
    assert input[1..1 + |id|] == id;
    assert input[1 + |id|..] == rest;
  }

  lemma EntryLoads(b: RamBlock, theirs: seq<RamBlock>, total: nat, tail: seq<byte>)
    requires b.Valid() && b.pages * PAGE_SIZE < WORD_LIMIT && 0 < total
    requires forall c :: c in theirs ==> 0 < c.pages
    ensures LoadBlockList(theirs, total, BlockEntry(b) + tail) ==
            if Known(b, theirs) then LoadBlockList(theirs, (total - b.pages * PAGE_SIZE) % WORD_LIMIT, tail)
            else Err(EINVAL)
  {
    hide Number;
    hide Be64;
    hide GetId;
    var length := Be64(b.pages * PAGE_SIZE);
    assert BlockEntry(b) + tail == IdBytes(b.idstr) + (length + tail);
    GetIdReads(b.idstr, length + tail);
    Prefix(length, tail);
    NumberBe64(b.pages * PAGE_SIZE);
  }

  /** The header's block list is accepted, and consumed exactly, if and only if every block is
      known to the receiver with the same length. */
  lemma {:induction false} BlockListLoads(blocks: seq<RamBlock>, theirs: seq<RamBlock>, rest: seq<byte>)
    requires forall b :: b in blocks ==> b.Valid()
    requires forall b :: b in theirs ==> 0 < b.pages
    requires Total(blocks) * PAGE_SIZE < WORD_LIMIT
    ensures LoadBlockList(theirs, Total(blocks) * PAGE_SIZE, BlockList(blocks) + rest)
         == if Compatible(blocks, theirs) then Ok((), rest) else Err(EINVAL)
  {
    hide BlockEntry;
    hide Known;
    hide LoadBlockList;
    if blocks == [] {
      EmptyBlockList(theirs, rest);
      assert BlockList(blocks) + rest == rest;
    } else {
      var b := blocks[0];
      assert blocks == [b] + blocks[1..];
      BeforeTail(blocks, |blocks|);
      assert b.Valid() && Total(blocks) == b.pages + Total(blocks[1..]);
      var tail := BlockList(blocks[1..]) + rest;
      assert BlockList(blocks) + rest == BlockEntry(b) + tail;
      EntryLoads(b, theirs, Total(blocks) * PAGE_SIZE, tail);
      SmallMod(Total(blocks[1..]) * PAGE_SIZE);
      BlockListLoads(blocks[1..], theirs, rest);
      assert Compatible(blocks, theirs) <==> Known(b, theirs) && Compatible(blocks[1..], theirs);
    }
  }

  lemma EmptyBlockList(theirs: seq<RamBlock>, rest: seq<byte>)
    requires forall b :: b in theirs ==> 0 < b.pages
    ensures LoadBlockList(theirs, 0, rest) == Ok((), rest)
  {}

  lemma SmallMod(x: nat)
    requires x < WORD_LIMIT
    ensures x % WORD_LIMIT == x
  {}

  lemma FlagsOfWord(page: nat, flags: nat)
    requires flags < PAGE_SIZE && page * PAGE_SIZE + flags < WORD_LIMIT
    ensures Number(Be64(page * PAGE_SIZE + flags)) % PAGE_SIZE == flags
    ensures Number(Be64(page * PAGE_SIZE + flags)) / PAGE_SIZE == page
  {
    hide Number;
    hide Be64;
    NumberBe64(page * PAGE_SIZE + flags);
    SplitWord(page, flags);
  }

  lemma SplitWord(page: nat, flags: nat)
    requires flags < PAGE_SIZE
    ensures (page * PAGE_SIZE + flags) % PAGE_SIZE == flags && (page * PAGE_SIZE + flags) / PAGE_SIZE == page
  {}

  /** A page record lands on the page it was taken from, and the block it names or leaves out is
      the one remembered for the next record. */
  lemma RecordLoads(b: RamBlock, page: nat, content: Page, cont: bool, d: Dest, j: nat, rest: seq<byte>)
    requires b.Valid() && d.Valid() && page < b.pages && b.pages * PAGE_SIZE < WORD_LIMIT
    requires Find(d.blocks, b.idstr) == Some(j) && d.blocks[j].pages == b.pages
    requires cont ==> d.cur == Some(j)
    ensures d.(cur := Some(j)).Valid()
    ensures LoadRecord(d, Record(b, page, content, cont) + rest)
         == Ok((d.(cur := Some(j)).Stored(Pos(j, page), content), false), rest)
  {
    hide Number;
    hide Be64;
    hide GetId;
    hide IsDup;
    hide LoadCompressed;
    hide LoadPlain;
    var dup := IsDup(content);
    var flags := (if cont then CONTINUE else 0) + (if dup then COMPRESS else PAGE);
    var word := Be64(page * PAGE_SIZE + flags);
    var id := if cont then [] else IdBytes(b.idstr);
    var tail := (if dup then [content[0]] else content) + rest;
    RecordParts(b, page, content, cont, rest);
    hide Record;
    FlagsOfWord(page, flags);
    Prefix(word, id + tail);
    LocateReads(b, cont, d, j, flags, tail);
    BodyLoads(d.(cur := Some(j)), j, page, content, rest);
  }

  /** A record that names a block which the receiver does not have is refused if it is compressed, and is a
      store through a null pointer if it is not. */
  lemma UnknownBlock(b: RamBlock, page: nat, content: Page, d: Dest, rest: seq<byte>)
    requires b.Valid() && d.Valid() && page < b.pages && b.pages * PAGE_SIZE < WORD_LIMIT
    requires forall i :: 0 <= i < |d.blocks| ==> d.blocks[i].idstr != b.idstr
    ensures LoadRecord(d, Record(b, page, content, false) + rest) == Err(if IsDup(content) then EINVAL else WildStore)
  {
    hide Number;
    hide Be64;
    hide GetId;
    hide IsDup;
    hide Find;
    var dup := IsDup(content);
    var flags := if dup then COMPRESS else PAGE;
    var word := Be64(page * PAGE_SIZE + flags);
    var tail := (if dup then [content[0]] else content) + rest;
    RecordParts(b, page, content, false, rest);
    hide Record;
    FlagsOfWord(page, flags);
    Prefix(word, IdBytes(b.idstr) + tail);
    GetIdReads(b.idstr, tail);
  }

  lemma RecordParts(b: RamBlock, page: nat, content: Page, cont: bool, rest: seq<byte>)
    requires b.Valid() && page < b.pages && b.pages * PAGE_SIZE < WORD_LIMIT
    ensures Record(b, page, content, cont) + rest
         == Be64(page * PAGE_SIZE + (if cont then CONTINUE else 0) + if IsDup(content) then COMPRESS else PAGE)
            + ((if cont then [] else IdBytes(b.idstr)) + ((if IsDup(content) then [content[0]] else content) + rest))
  {
    hide Be64;
    hide IsDup;
    hide IdBytes;
  }

  lemma LocateReads(b: RamBlock, cont: bool, d: Dest, j: nat, flags: nat, tail: seq<byte>)
    requires b.Valid() && Find(d.blocks, b.idstr) == Some(j) && (cont ==> d.cur == Some(j))
    requires HasFlag(flags, CONTINUE) == cont
    ensures Locate(d, flags, (if cont then [] else IdBytes(b.idstr)) + tail) == Ok(d.(cur := Some(j)), tail)
  {
    hide GetId;
    if cont {
      assert [] + tail == tail;
    } else {
      GetIdReads(b.idstr, tail);
    }
  }

  lemma BodyLoads(d: Dest, j: nat, page: nat, content: Page, rest: seq<byte>)
    requires d.Valid() && d.cur == Some(j) && page < d.blocks[j].pages
    ensures IsDup(content) ==>
      LoadCompressed(d, page, false, [content[0]] + rest) == Ok((d.Stored(Pos(j, page), content), false), rest)
    ensures LoadPlain(d, page, false, content + rest) == Ok((d.Stored(Pos(j, page), content), false), rest)
  {
    Prefix(content, rest);
    if IsDup(content) {
      assert seq(PAGE_SIZE, _ => content[0]) == content;
      Prefix([content[0]], rest);
    }
  }

  /** A word with the end-of-section flag and none of the others ends the section. */
  lemma EndRecord(d: Dest, word: seq<byte>)
    requires d.Valid() && |word| == 8 && Number(word) % PAGE_SIZE == EOS
    ensures LoadRecord(d, word) == Ok((d, true), [])
  {
    hide Number;
    assert word[..8] == word;
    assert word[8..] == [];
  }

  lemma LastRecord(d: Dest, word: seq<byte>)
    requires d.Valid() && LoadRecord(d, word) == Ok((d, true), [])
    ensures Load(d, word) == Ok(d, [])
  {
    hide LoadRecord;
  }

  lemma EosLoads(d: Dest)
    requires d.Valid()
    ensures Load(d, Be64(EOS)) == Ok(d, [])
  {
    hide Load;
    hide LoadRecord;
    NumberBe64(EOS);
    EndRecord(d, Be64(EOS));
    LastRecord(d, Be64(EOS));
  }
}
