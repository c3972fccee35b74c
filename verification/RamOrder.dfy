/** qemu_get_ram_ptr (exec.c), which moves the block it finds to the head of the list, while the scan of
    migration and its decoder keep pointers into that list. */
module RamOrder {
  import opened Common
  import opened RamList
  import opened Wire
  import opened RamSave
  import opened RamLoad

  predicate Holds(b: RamBlock, frame: nat) { b.first <= frame < b.first + b.pages }

  /** The search of qemu_get_ram_ptr. */
  function BlockOf(blocks: seq<RamBlock>, frame: nat): (r: Option<nat>)
    ensures r.Some? ==> r.value < |blocks| && Holds(blocks[r.value], frame)
    ensures r.None? ==> forall i :: 0 <= i < |blocks| ==> !Holds(blocks[i], frame)
  {
    if blocks == [] then None
    else if Holds(blocks[0], frame) then Some(0)
    else match BlockOf(blocks[1..], frame) case None => None case Some(i) => Some(i + 1)
  }

  /** The block found moves to the head of the list. */
  function ToFront(blocks: seq<RamBlock>, i: nat): (r: seq<RamBlock>)
    requires i < |blocks|
    ensures |r| == |blocks|
  {
    [blocks[i]] + (blocks[..i] + blocks[i + 1..])
  }

  /** Where block k is after block i has moved to the head. */
  function Renumber(i: nat, k: nat): nat { if k == i then 0 else if k < i then k + 1 else k }

  lemma {:induction false} WithoutApart(blocks: seq<RamBlock>, frames: nat, i: nat)
    requires AllApart(blocks, frames) && i < |blocks|
    ensures AllApart(blocks[..i] + blocks[i + 1..], frames)
  {
    var rest := blocks[..i] + blocks[i + 1..];
    if i == 0 {
      assert rest == blocks[1..];
    } else {
      WithoutApart(blocks[1..], frames, i - 1);
      assert rest[1..] == blocks[1..][..i - 1] + blocks[1..][i..];
    }
  }

  /** The list rearranged has the same blocks, still apart. */
  lemma ToFrontKeeps(blocks: seq<RamBlock>, frames: nat, i: nat)
    requires AllApart(blocks, frames) && i < |blocks|
    ensures AllApart(ToFront(blocks, i), frames)
    ensures multiset(ToFront(blocks, i)) == multiset(blocks)
    ensures forall k :: 0 <= k < |blocks| ==> ToFront(blocks, i)[Renumber(i, k)] == blocks[k]
  {
    hide AllApart;
    hide RamBlock.Apart;
    hide RamBlock.Valid;
    hide Renumber;
    var rest := blocks[..i] + blocks[i + 1..];
    WithoutApart(blocks, frames, i);
    ApartAt(blocks, frames, i, i);
    forall j | 0 <= j < |rest|
      ensures blocks[i].Apart(rest[j])
    {
      ApartAt(blocks, frames, i, if j < i then j else j + 1);
    }
    FrontApart(blocks[i], rest, frames);
    FrontSame(blocks, i);
  }

  lemma FrontSame(blocks: seq<RamBlock>, i: nat)
    requires i < |blocks|
    ensures multiset(ToFront(blocks, i)) == multiset(blocks)
    ensures forall k :: 0 <= k < |blocks| ==> ToFront(blocks, i)[Renumber(i, k)] == blocks[k]
  {
    var x, y, z := blocks[..i], [blocks[i]], blocks[i + 1..];
    assert blocks == x + (y + z);
    SameMultiset(x, y, z);
    forall k | 0 <= k < |blocks|
      ensures ToFront(blocks, i)[Renumber(i, k)] == blocks[k]
    {
      if k > i {
        assert z[k - i - 1] == blocks[k];
      }
    }
  }

  lemma SameMultiset(x: seq<RamBlock>, y: seq<RamBlock>, z: seq<RamBlock>)
    ensures multiset(y + (x + z)) == multiset(x + (y + z))
  {
    calc {
      multiset(y + (x + z));
      multiset(y) + (multiset(x) + multiset(z));
      multiset(x) + (multiset(y) + multiset(z));
      multiset(x + (y + z));
    }
  }

  lemma FrontApart(b: RamBlock, rest: seq<RamBlock>, frames: nat)
    requires AllApart(rest, frames) && b.Valid() && b.first + b.pages <= frames
    requires forall j :: 0 <= j < |rest| ==> b.Apart(rest[j])
    ensures AllApart([b] + rest, frames)
  {
    assert ([b] + rest)[1..] == rest;
  }

  /** The receiver after qemu_get_ram_ptr has found block i: the decoder's own pointer still points
      to the block it did. */
  function Pointed(d: Dest, i: nat): (r: Dest)
    requires d.Valid() && i < |d.blocks|
    ensures r.Valid() && r.mem == d.mem
  {
    ToFrontKeeps(d.blocks, |d.mem|, i);
    Dest(ToFront(d.blocks, i), d.mem, match d.cur case None => None case Some(k) => Some(Renumber(i, k)))
  }

  /** Where the block that is now at k was before. */
  function Original(i: nat, k: nat): nat { if k == 0 then i else if k <= i then k - 1 else k }

  lemma OriginalIs(blocks: seq<RamBlock>, i: nat, k: nat)
    requires i < |blocks| && k < |blocks|
    ensures Original(i, k) < |blocks| && Renumber(i, Original(i, k)) == k
    ensures ToFront(blocks, i)[k] == blocks[Original(i, k)]
  {
    FrontSame(blocks, i);
  }

  lemma {:induction false} TotalAppend(x: seq<RamBlock>, y: seq<RamBlock>)
    ensures Total(x + y) == Total(x) + Total(y)
  {
    hide Before;
    TotalNone();
    if x == [] {
      assert x + y == y;
    } else {
      TotalAppend(x[1..], y);
      BeforeTail(x, |x|);
      BeforeTail(x + y, |x + y|);
      assert (x + y)[1..] == x[1..] + y;
    }
  }

  lemma TotalNone()
    ensures Total([]) == 0
  {}

  lemma TotalFront(blocks: seq<RamBlock>, i: nat)
    requires i < |blocks|
    ensures Total(ToFront(blocks, i)) == Total(blocks)
  {
    hide Total;
    var x, y, z := blocks[..i], [blocks[i]], blocks[i + 1..];
    assert blocks == x + (y + z);
    TotalAppend(y, x + z);
    TotalAppend(x, z);
    TotalAppend(x, y + z);
    TotalAppend(y, z);
  }

  /** The sender after qemu_get_ram_ptr has found block i: last_block still points to the block it did. */
  function Reordered(s: Source, i: nat): (r: Source)
    requires s.Valid() && i < |s.blocks|
    ensures r.Valid() && r.mem == s.mem && r.dirty == s.dirty
  {
    ToFrontKeeps(s.blocks, |s.mem|, i);
    TotalFront(s.blocks, i);
    s.(blocks := ToFront(s.blocks, i), last := match s.last case None => None case Some(k) => Some(Renumber(i, k)))
  }

  /** qemu_get_ram_ptr on the sender. An address in no block, for which the source aborts, changes
      nothing here. */
  function Looked(s: Source, frame: nat): (r: Source)
    requires s.Valid()
    ensures r.Valid() && r.mem == s.mem && r.dirty == s.dirty
  {
    match BlockOf(s.blocks, frame)
    case None => s
    case Some(i) => Reordered(s, i)
  }

  function Write(s: Source, frame: nat, content: Page, flags: bv8): Source
    requires frame < |s.mem| == |s.dirty|
  {
    s.(mem := s.mem[frame := content], dirty := s.dirty[frame := s.dirty[frame] | flags | MIGRATION_DIRTY_FLAG])
  }

  /** A guest store. One to a page that has a flag clear goes through notdirty_mem_write, and so through
      qemu_get_ram_ptr. */
  function GuestStore(s: Source, frame: nat, content: Page, flags: bv8): (r: Source)
    requires s.Valid() && frame < |s.mem|
    ensures r.Valid()
  {
    Write(if s.dirty[frame] != 0xff then Looked(s, frame) else s, frame, content, flags)
  }

  /** What a guest store does: its page has the content and all flags asked for, no other page changes, and
      its block is at the head of the list if a flag of the page was clear. */
  lemma StoreDoes(s: Source, frame: nat, content: Page, flags: bv8)
    requires s.Valid() && frame < |s.mem|
    ensures var t := GuestStore(s, frame, content, flags);
      && t.mem == s.mem[frame := content] && |t.dirty| == |s.dirty|
      && t.dirty[frame] & MIGRATION_DIRTY_FLAG != 0 && t.dirty[frame] & s.dirty[frame] == s.dirty[frame]
      && t.dirty[frame] & flags == flags
      && (forall f :: 0 <= f < |s.dirty| && f != frame ==> t.dirty[f] == s.dirty[f])
      && (s.dirty[frame] == 0xff ==> t.blocks == s.blocks && t.last == s.last)
      && (s.dirty[frame] != 0xff && (exists b :: b in s.blocks && Holds(b, frame)) ==> Holds(t.blocks[0], frame))
  {
    FlagsSet(s.dirty[frame], flags);
    hide AllApart;
    hide Total;
  }

  lemma FlagsSet(x: bv8, y: bv8)
    ensures var z := x | y | MIGRATION_DIRTY_FLAG; z & MIGRATION_DIRTY_FLAG != 0 && z & x == x && z & y == y
  {}

  /** qemu_get_ram_ptr on the receiver. */
  function LookedAt(d: Dest, frame: nat): (r: Dest)
    requires d.Valid()
    ensures r.Valid() && r.mem == d.mem
  {
    match BlockOf(d.blocks, frame)
    case None => d
    case Some(i) => Pointed(d, i)
  }

  // ----- A lookup on the receiver makes no difference to what it loads -----

  /** Since names differ, the search by name finds the same block in either order. */
  lemma FindFront(blocks: seq<RamBlock>, frames: nat, i: nat, id: seq<byte>)
    requires AllApart(blocks, frames) && i < |blocks|
    ensures Find(ToFront(blocks, i), id) ==
            match Find(blocks, id) case None => None case Some(k) => Some(Renumber(i, k))
  {
    hide Find;
    hide ToFront;
    hide AllApart;
    ToFrontKeeps(blocks, frames, i);
    var now := ToFront(blocks, i);
    match Find(blocks, id)
    case None =>
      if Find(now, id).Some? {
        OriginalIs(blocks, i, Find(now, id).value);
      }
    case Some(k) =>
      assert now[Renumber(i, k)].idstr == id;
      if Find(now, id).Some? && Find(now, id).value != Renumber(i, k) {
        ApartAt(now, frames, Find(now, id).value, Renumber(i, k));
      }
  }

  lemma {:induction false} BlockListEither(blocks: seq<RamBlock>, frames: nat, i: nat, total: nat, input: seq<byte>)
    requires AllApart(blocks, frames) && i < |blocks|
    requires (forall b :: b in blocks ==> 0 < b.pages) && forall b :: b in ToFront(blocks, i) ==> 0 < b.pages
    ensures LoadBlockList(ToFront(blocks, i), total, input) == LoadBlockList(blocks, total, input)
    decreases |input|
  {
    hide Find;
    hide ToFront;
    hide AllApart;
    hide GetId;
    hide Number;
    if total != 0 && GetId(input).Ok? && |GetId(input).rest| >= 8 {
      var id, rest := GetId(input).value, GetId(input).rest;
      GetIdShorter(input);
      FindFront(blocks, frames, i, id);
      FrontSame(blocks, i);
      BlockListEither(blocks, frames, i, (total - Number(rest[..8])) % WORD_LIMIT, rest[8..]);
    }
  }

  lemma GetIdShorter(input: seq<byte>)
    ensures GetId(input).Ok? ==> |GetId(input).rest| < |input|
  {}

  lemma LocateEither(d: Dest, i: nat, flags: nat, input: seq<byte>)
    requires d.Valid() && i < |d.blocks|
    ensures match Locate(d, flags, input)
            case Err(e) => Locate(Pointed(d, i), flags, input) == Err(e)
            case Ok(d', rest) =>
              d'.Valid() && d'.blocks == d.blocks && Locate(Pointed(d, i), flags, input) == Ok(Pointed(d', i), rest)
  {
    hide Find;
    hide ToFront;
    hide AllApart;
    hide GetId;
    if !HasFlag(flags, CONTINUE) && GetId(input).Ok? {
      FindFront(d.blocks, |d.mem|, i, GetId(input).value);
    }
  }

  /** A page is stored at the same place. */
  lemma StoredEither(d: Dest, i: nat, p: Pos, content: Page)
    requires d.Valid() && i < |d.blocks| && ValidPos(d.blocks, p)
    ensures var q := Pos(Renumber(i, p.block), p.page);
      && ValidPos(Pointed(d, i).blocks, q)
      && Pointed(d, i).Stored(q, content) == Pointed(d.Stored(p, content), i)
  {
    hide AllApart;
    hide ToFront;
    FrontSame(d.blocks, i);
  }

  lemma PageEither(d: Dest, i: nat, page: nat, eos: bool, input: seq<byte>)
    requires d.Valid() && i < |d.blocks|
    ensures match LoadCompressed(d, page, eos, input)
            case Err(e) => LoadCompressed(Pointed(d, i), page, eos, input) == Err(e)
            case Ok((d', end), rest) =>
              d'.Valid() && d'.blocks == d.blocks
              && LoadCompressed(Pointed(d, i), page, eos, input) == Ok((Pointed(d', i), end), rest)
    ensures match LoadPlain(d, page, eos, input)
            case Err(e) => LoadPlain(Pointed(d, i), page, eos, input) == Err(e)
            case Ok((d', end), rest) =>
              d'.Valid() && d'.blocks == d.blocks
              && LoadPlain(Pointed(d, i), page, eos, input) == Ok((Pointed(d', i), end), rest)
  {
    hide AllApart;
    hide ToFront;
    if d.cur.Some? {
      FrontSame(d.blocks, i);
      if page < d.blocks[d.cur.value].pages {
        var p := Pos(d.cur.value, page);
        if |input| >= 1 {
          StoredEither(d, i, p, seq(PAGE_SIZE, _ => input[0]));
        }
        if |input| >= PAGE_SIZE {
          StoredEither(d, i, p, input[..PAGE_SIZE]);
        }
      }
    }
  }

  lemma RecordEither(d: Dest, i: nat, input: seq<byte>)
    requires d.Valid() && i < |d.blocks|
    ensures match LoadRecord(d, input)
            case Err(e) => LoadRecord(Pointed(d, i), input) == Err(e)
            case Ok((d', eos), rest) =>
              d'.Valid() && d'.blocks == d.blocks && LoadRecord(Pointed(d, i), input) == Ok((Pointed(d', i), eos), rest)
  {
    hide Locate;
    hide LoadCompressed;
    hide LoadPlain;
    hide LoadBlockList;
    hide Dest.Valid;
    hide Number;
    if |input| >= 8 {
      var v := Number(input[..8]);
      var flags, page, rest := v % PAGE_SIZE, v / PAGE_SIZE, input[8..];
      if HasFlag(flags, MEM_SIZE) {
        HeaderEither(d, i, page * PAGE_SIZE, rest);
      } else {
        LocateEither(d, i, flags, rest);
        if Locate(d, flags, rest).Ok? {
          var d', rest' := Locate(d, flags, rest).value, Locate(d, flags, rest).rest;
          PageEither(d', i, page, HasFlag(flags, EOS), rest');
        }
      }
    }
  }

  lemma HeaderEither(d: Dest, i: nat, total: nat, input: seq<byte>)
    requires d.Valid() && i < |d.blocks|
    ensures (forall b :: b in d.blocks ==> 0 < b.pages) && forall b :: b in Pointed(d, i).blocks ==> 0 < b.pages
    ensures LoadBlockList(Pointed(d, i).blocks, total, input) == LoadBlockList(d.blocks, total, input)
  {
    NonEmptyBlocks(d);
    NonEmptyBlocks(Pointed(d, i));
    BlockListEither(d.blocks, |d.mem|, i, total, input);
  }

  /** A section is loaded alike in either order of the list, whether it is accepted or not. */
  lemma {:induction false} LoadEither(d: Dest, i: nat, input: seq<byte>)
    requires d.Valid() && i < |d.blocks|
    ensures match Load(d, input)
            case Err(e) => Load(Pointed(d, i), input) == Err(e)
            case Ok(d', rest) => d'.Valid() && d'.blocks == d.blocks && Load(Pointed(d, i), input) == Ok(Pointed(d', i), rest)
    decreases |input|
  {
    hide LoadRecord;
    hide Pointed;
    hide Dest.Valid;
    RecordEither(d, i, input);
    match LoadRecord(d, input)
    case Err(e) =>
    case Ok((d', eos), rest) =>
      LoadShorter(d, input);
      if !eos {
        LoadEither(d', i, rest);
      }
  }

  lemma LoadShorter(d: Dest, input: seq<byte>)
    requires d.Valid()
    ensures LoadRecord(d, input).Ok? ==> |LoadRecord(d, input).rest| < |input|
  {}
}
