/** charpipe.c: one direction of a pipe between two character devices. What the peer does not take
    at once is kept in a linked chain of ring buffers, and delivered by polling. */
module CharPipe {
  import opened Common
  import opened CBuffers
  import opened Links

  const BIP_BUFFER_SIZE: nat := 512

  // ----- Chains of buffers -----

  function Last(chain: seq<nat>): int { if chain == [] then NULL else chain[|chain| - 1] }

  /** Following the links from first on visits the chain and ends. */
  predicate Linked(next: seq<int>, first: int, chain: seq<nat>) {
    && first == At(chain, 0)
    && forall i :: 0 <= i < |chain| ==> chain[i] < |next| && next[chain[i]] == At(chain, i + 1)
  }

  predicate Disjoint(c: seq<nat>, d: seq<nat>) {
    forall i, j :: 0 <= i < |c| && 0 <= j < |d| ==> c[i] != d[j]
  }

  predicate Below(chain: seq<nat>, n: nat) {
    forall i :: 0 <= i < |chain| ==> chain[i] < n
  }

  /** The bytes that a chain of buffers holds, given what each buffer holds. */
  function Held(contents: seq<seq<byte>>, chain: seq<nat>): seq<byte>
    requires Below(chain, |contents|)
  {
    if chain == [] then [] else Held(contents, chain[..|chain| - 1]) + contents[chain[|chain| - 1]]
  }

  lemma HeldUnfold(contents: seq<seq<byte>>, chain: seq<nat>)
    requires Below(chain, |contents|)
    ensures chain == [] ==> Held(contents, chain) == []
    ensures chain != [] ==>
      Held(contents, chain) == Held(contents, chain[..|chain| - 1]) + contents[chain[|chain| - 1]]
  {}

  lemma {:induction false} HeldHead(contents: seq<seq<byte>>, chain: seq<nat>)
    requires Below(chain, |contents|) && chain != []
    ensures Held(contents, chain) == contents[chain[0]] + Held(contents, chain[1..])
  {
    hide Held;
    var n := |chain| - 1;
    var tail := chain[1..];
    HeldUnfold(contents, chain);
    HeldUnfold(contents, tail);
    if n == 0 {
      assert chain[..0] == tail;
    } else {
      HeldHead(contents, chain[..n]);
      assert chain[..n][1..] == tail[..n - 1] && tail[n - 1] == chain[n];
    }
  }

  lemma HeldSnoc(contents: seq<seq<byte>>, chain: seq<nat>, b: nat)
    requires Below(chain, |contents|) && b < |contents|
    ensures Held(contents, chain + [b]) == Held(contents, chain) + contents[b]
  {
    assert (chain + [b])[..|chain|] == chain;
  }

  /** Buffers outside a chain do not matter to it. */
  lemma {:induction false} HeldFrame(c: seq<seq<byte>>, d: seq<seq<byte>>, chain: seq<nat>)
    requires Below(chain, |c|) && |c| <= |d|
    requires forall i :: 0 <= i < |chain| ==> c[chain[i]] == d[chain[i]]
    ensures Held(c, chain) == Held(d, chain)
  {
    if chain != [] {
      HeldFrame(c, d, chain[..|chain| - 1]);
    }
  }

  // ----- What an operation leaves alone -----

  datatype Store = Store(contents: seq<seq<byte>>, next: seq<int>)

  /** Going from one store to the other, nothing has happened to the buffers that were not mine, and
      none of them has become mine. */
  ghost predicate Spares(s: Store, mine: seq<nat>, t: Store, mine2: seq<nat>) {
    && |s.contents| == |s.next| <= |t.contents| == |t.next|
    && forall i :: 0 <= i < |s.next| && i !in mine ==>
         t.contents[i] == s.contents[i] && t.next[i] == s.next[i] && i !in mine2
  }

  lemma SparesAll(s: Store, mine: seq<nat>)
    requires |s.contents| == |s.next|
    ensures Spares(s, mine, s, mine)
  {}

  lemma SparesBoth(s: Store, mine: seq<nat>, t: Store, mine2: seq<nat>, u: Store, mine3: seq<nat>)
    requires Spares(s, mine, t, mine2) && Spares(t, mine2, u, mine3)
    ensures Spares(s, mine, u, mine3)
  {}

  /** A buffer of mine may be changed. */
  lemma SparesChange(s: Store, mine: seq<nat>, t: Store, mine2: seq<nat>, b: nat, content: seq<byte>, to: int)
    requires Spares(s, mine, t, mine2) && b in mine2 && b < |t.next|
    ensures Spares(s, mine, t.(contents := t.contents[b := content]), mine2)
    ensures Spares(s, mine, t.(next := t.next[b := to]), mine2)
  {}

  /** A buffer that is off the free list, or new, may become mine. */
  lemma SparesAlloc(s: Store, chain: seq<nat>, free: seq<nat>, t: Store, free2: seq<nat>, bip: nat)
    requires |s.contents| == |s.next| && bip <= |s.next|
    requires if free == [] then bip == |s.next| && free2 == [] else bip == free[0] && free2 == free[1..]
    requires t.contents == if bip < |s.next| then s.contents[bip := []] else s.contents + [[]]
    requires t.next == if bip < |s.next| then s.next[bip := NULL] else s.next + [NULL]
    ensures Spares(s, chain + free, t, chain + [bip] + free2)
  {
    assert free != [] ==> forall i :: i in free <==> i == bip || i in free2;
  }

  /** A buffer of the chain may be freed. */
  lemma SparesFree(s: Store, chain: seq<nat>, free: seq<nat>, to: int)
    requires |s.contents| == |s.next| && chain != [] && chain[0] < |s.next|
    ensures Spares(s, chain + free, s.(next := s.next[chain[0] := to]), chain[1..] + ([chain[0]] + free))
  {
    assert chain == [chain[0]] + chain[1..];
  }

  /** Whoever has a chain of buffers that are not mine still has it, with what it holds. */
  lemma OthersKeep(s: Store, mine: seq<nat>, t: Store, mine2: seq<nat>, first: int, chain: seq<nat>)
    requires Spares(s, mine, t, mine2) && Linked(s.next, first, chain) && Below(chain, |s.contents|) && Disjoint(chain, mine)
    ensures Linked(t.next, first, chain) && Below(chain, |t.contents|) && Disjoint(chain, mine2)
    ensures Held(t.contents, chain) == Held(s.contents, chain)
  {
    assert forall i :: 0 <= i < |chain| ==> chain[i] !in mine;
    HeldFrame(s.contents, t.contents, chain);
  }

  // ----- The buffers -----

  /** The buffers that have been allocated, by the pointers to them, and the list of the free ones. */
  class Buffers {
    var cbs: seq<CBuffer>
    var next: seq<int>
    var free: int
    ghost var contents: seq<seq<byte>>
    ghost var freeChain: seq<nat>

    ghost predicate Valid()
      reads this, set i | 0 <= i < |cbs| :: cbs[i], set i | 0 <= i < |cbs| :: cbs[i].buff
    {
      && |cbs| == |next| == |contents|
      && (forall i :: 0 <= i < |cbs| ==>
            cbs[i].Valid() && cbs[i].buff.Length == BIP_BUFFER_SIZE && cbs[i].Contents() == contents[i])
      && (forall i, j :: 0 <= i < j < |cbs| ==> cbs[i] != cbs[j] && cbs[i].buff != cbs[j].buff)
      && Linked(next, free, freeChain) && Distinct(freeChain)
    }

    ghost function Now(): Store
      reads this
    {
      Store(contents, next)
    }

    constructor ()
      ensures Valid() && cbs == []
    {
      cbs, next, free := [], [], NULL;
      contents, freeChain := [], [];
    }

    /** cbuffer_write on buffer bip. */
    method CbWrite(bip: nat, data: seq<byte>) returns (n: nat)
      requires Valid() && bip < |cbs|
      modifies this`contents, cbs[bip], cbs[bip].buff
      ensures Valid() && n <= |data| && contents == old(contents)[bip := old(contents[bip]) + data[..n]]
      ensures n == |data| || |contents[bip]| == BIP_BUFFER_SIZE
    {
      hide Ring;
      hide CBuffer.Contents;
      hide CBuffer.Valid;
      hide Linked;
      hide Distinct;
      n := cbs[bip].Write(data);
      contents := contents[bip := contents[bip] + data[..n]];
    }

    /** cbuffer_read_avail on buffer bip. */
    method CbReadAvail(bip: nat) returns (n: nat)
      requires Valid() && bip < |cbs|
      ensures n == |contents[bip]| == cbs[bip].count && cbs[bip].Valid() && (n == 0 <==> cbs[bip].Part() == 0)
      ensures cbs[bip].Part() <= n
    {
      n := cbs[bip].count;
    }

    /** cbuffer_read_peek on buffer bip. */
    method CbReadPeek(bip: nat) returns (base: seq<byte>)
      requires Valid() && bip < |cbs|
      ensures base <= contents[bip] && (contents[bip] != [] ==> base != [])
      ensures cbs[bip].rpos + |base| <= BIP_BUFFER_SIZE && cbs[bip].Valid() && |base| == cbs[bip].Part()
    {
      base := cbs[bip].ReadPeek();
    }

    /** cbuffer_read_step on buffer bip, for no more than was peeked at. */
    method CbReadStep(bip: nat, len: nat)
      requires Valid() && bip < |cbs| && len <= |contents[bip]| && cbs[bip].rpos + len <= BIP_BUFFER_SIZE
      modifies this`contents, cbs[bip]
      ensures Valid() && contents == old(contents)[bip := old(contents[bip])[len..]]
    {
      hide Ring;
      hide CBuffer.Contents;
      hide CBuffer.Valid;
      hide Linked;
      hide Distinct;
      ghost var was := contents[bip];
      assert len <= |was| == cbs[bip].count;
      ghost var left := was[len..];
      cbs[bip].ReadStep(len);
      assert cbs[bip].Contents() == left;
      contents := contents[bip := left];
      forall i | 0 <= i < |cbs|
        ensures cbs[i].Valid() && cbs[i].Contents() == contents[i]
      {
        assert i != bip ==> cbs[i] != cbs[bip];
      }
    }

    method CbReset(bip: nat)
      requires Valid() && bip < |cbs|
      modifies this`contents, cbs[bip]
      ensures Valid() && contents == old(contents)[bip := []]
    {
      hide Ring;
      hide CBuffer.Contents;
      hide CBuffer.Valid;
      hide Linked;
      hide Distinct;
      cbs[bip].Reset();
      contents := contents[bip := []];
    }

    /** malloc. */
    method NewBuffer() returns (bip: nat)
      requires Valid()
      modifies this
      ensures Valid() && bip == |old(cbs)| && |cbs| == bip + 1 && fresh(cbs[bip]) && fresh(cbs[bip].buff)
      ensures cbs[..bip] == old(cbs) && contents == old(contents) + [[]] && next == old(next) + [NULL]
      ensures free == old(free) && freeChain == old(freeChain)
    {
      bip := |cbs|;
      var cb := new CBuffer(BIP_BUFFER_SIZE);
      cbs, next, contents := cbs + [cb], next + [NULL], contents + [[]];
    }

    /** bip_buffer_alloc: an empty buffer, off the free list if there is one there. */
    method Alloc() returns (bip: nat)
      requires Valid()
      modifies this, set i | 0 <= i < |cbs| :: cbs[i]
      ensures Valid() && bip < |cbs| && old(cbs) <= cbs
      ensures forall i :: |old(cbs)| <= i < |cbs| ==> fresh(cbs[i]) && fresh(cbs[i].buff)
      ensures old(freeChain) == [] ==> bip == |old(cbs)| && freeChain == []
      ensures old(freeChain) != [] ==> bip == old(freeChain[0]) && freeChain == old(freeChain)[1..]
      ensures contents == if bip < |old(cbs)| then old(contents)[bip := []] else old(contents) + [[]]
      ensures next == if bip < |old(cbs)| then old(next)[bip := NULL] else old(next) + [NULL]
    {
      if free != NULL {
        bip := free;
        UnlinkHead(next, freeChain);
        free := next[bip];
        next := next[bip := NULL];
        freeChain := freeChain[1..];
        CbReset(bip);
      } else {
        bip := NewBuffer();
      }
    }

    /** Assignment to the link of a buffer in use. */
    method SetNext(bip: nat, to: int)
      requires Valid() && bip < |cbs| && Disjoint([bip], freeChain)
      modifies this`next
      ensures Valid() && next == old(next)[bip := to]
    {
      OthersStay(next, free, freeChain, bip, to);
      next := next[bip := to];
    }

    /** bip_buffer_free. */
    method Free(bip: nat)
      requires Valid() && bip < |cbs| && Disjoint([bip], freeChain)
      modifies this`next, this`free, this`freeChain
      ensures Valid() && freeChain == [bip] + old(freeChain) && next == old(next)[bip := old(free)]
    {
      LinkHead(next, free, freeChain, bip);
      next := next[bip := free];
      free := bip;
      freeChain := [bip] + freeChain;
    }
  }

  lemma OthersStay(next: seq<int>, first: int, chain: seq<nat>, b: nat, to: int)
    requires Linked(next, first, chain) && b < |next| && Disjoint([b], chain)
    ensures Linked(next[b := to], first, chain)
  {
    assert forall i :: 0 <= i < |chain| ==> [b][0] != chain[i];
  }

  lemma UnlinkHead(next: seq<int>, chain: seq<nat>)
    requires Linked(next, At(chain, 0), chain) && Distinct(chain) && chain != []
    ensures Linked(next[chain[0] := NULL], next[chain[0]], chain[1..]) && Distinct(chain[1..])
  {}

  lemma LinkHead(next: seq<int>, first: int, chain: seq<nat>, b: nat)
    requires Linked(next, first, chain) && Distinct(chain) && b < |next| && Disjoint([b], chain)
    ensures Linked(next[b := first], b, [b] + chain) && Distinct([b] + chain)
  {
    assert forall i :: 0 <= i < |chain| ==> [b][0] != chain[i];
    var c := [b] + chain;
    forall i | 0 <= i < |c|
      ensures c[i] < |next| && next[b := first][c[i]] == At(c, i + 1)
    {
      if i > 0 {
        assert At(c, i + 1) == At(chain, i);
      }
    }
  }

  // ----- The two ends -----

  /** A half's buffers are linked from its first to its last, and none of them is free. */
  predicate HalfOk(next: seq<int>, free: seq<nat>, first: int, last: int, chain: seq<nat>) {
    && Linked(next, first, chain) && last == Last(chain) && Below(chain, |next|)
    && Distinct(chain) && Disjoint(chain, free)
  }

  /** The answers of a peer, with the one that it gives when it has no handler or nothing ready. */
  function Answers(hasCanRead: bool, caps: seq<nat>): (r: seq<nat>)
    ensures r != []
  {
    (if hasCanRead then caps else []) + [0]
  }

  /** The answers that are left after the first n. */
  function After(hasCanRead: bool, caps: seq<nat>, n: nat): seq<nat> {
    if !hasCanRead then caps else if n <= |caps| then caps[n..] else []
  }

  lemma AfterNone(hasCanRead: bool, caps: seq<nat>)
    ensures After(hasCanRead, caps, 0) == caps
  {}

  predicate AllPositive(asked: seq<nat>) {
    forall i :: 0 <= i < |asked| ==> asked[i] > 0
  }

  /** The answers asked for are the first ones that the peer gives. */
  predicate Asked(hasCanRead: bool, caps: seq<nat>, asked: seq<nat>, left: seq<nat>) {
    asked <= Answers(hasCanRead, caps) && left == After(hasCanRead, caps, |asked|)
  }

  function Sum(asked: seq<nat>): nat {
    if asked == [] then 0 else Sum(asked[..|asked| - 1]) + asked[|asked| - 1]
  }

  function Positive(asked: seq<nat>): (r: nat)
    ensures r <= |asked|
  {
    if asked == [] then 0 else Positive(asked[..|asked| - 1]) + if asked[|asked| - 1] > 0 then 1 else 0
  }

  /** For each positive answer at least one byte is delivered, and in all no more than they allow. */
  predicate Fits(asked: seq<nat>, n: int) {
    Positive(asked) <= n <= Sum(asked)
  }

  lemma NoneAsked(hasCanRead: bool, caps: seq<nat>)
    ensures Asked(hasCanRead, caps, [], caps) && AllPositive([]) && Fits([], 0)
  {}

  lemma AskedNext(hasCanRead: bool, caps: seq<nat>, asked: seq<nat>, mid: seq<nat>, answers: seq<nat>, left: seq<nat>,
                  n: int, part: nat)
    requires Asked(hasCanRead, caps, asked, mid) && AllPositive(asked)
    requires answers == [] || answers == [Answers(hasCanRead, mid)[0]]
    requires left == After(hasCanRead, mid, |answers|)
    ensures Asked(hasCanRead, caps, asked + answers, left)
    ensures answers != [0] ==> AllPositive(asked + answers)
    ensures answers == [0] ==> (asked + answers)[..|asked + answers| - 1] == asked && (asked + answers)[|asked + answers| - 1] == 0
    ensures answers == [] ==> asked + answers == asked
    ensures answers != [] && part > 0 && Fits(asked, n) ==>
      Fits(asked + answers, n + if answers[0] > part then part else answers[0])
  {
    var all := Answers(hasCanRead, caps);
    if answers == [] {
      assert asked + answers == asked;
    } else {
      assert (asked + answers)[..|asked|] == asked;
      assert all[|all| - 1] == 0 && |asked| < |all|;
      assert Answers(hasCanRead, mid)[0] == all[|asked|];
    }
  }

  /** How many of n bytes the answers take, up to the first 0. */
  function Taken(caps: seq<nat>, n: nat): (r: nat)
    ensures r <= n
  {
    if n == 0 || caps == [] || caps[0] == 0 then 0
    else if caps[0] >= n then n
    else caps[0] + Taken(caps[1..], n - caps[0])
  }

  /** The device at the receiving end. `caps` are the answers that its chr_can_read will give;
      `overrun` tells whether it was ever given more than it had last said it could take. */
  class Device {
    var hasRead: bool
    var hasCanRead: bool
    var caps: seq<nat>
    var delivered: seq<byte>
    ghost var granted: nat
    ghost var overrun: bool

    /** qemu_chr_can_read: without a handler the answer is 0. */
    method CanRead() returns (n: nat)
      modifies this`caps, this`granted
      ensures granted == n == Answers(hasCanRead, old(caps))[0]
      ensures caps == if hasCanRead && old(caps) != [] then old(caps[1..]) else old(caps)
    {
      n := 0;
      if hasCanRead && caps != [] {
        n := caps[0];
        caps := caps[1..];
      }
      granted := n;
    }

    /** qemu_chr_read. */
    method Read(data: seq<byte>)
      modifies this`delivered, this`granted, this`overrun
      ensures delivered == old(delivered) + data && overrun == (old(overrun) || |data| > old(granted))
      ensures granted == if |data| > old(granted) then 0 else old(granted) - |data|
    {
      delivered := delivered + data;
      overrun := overrun || |data| > granted;
      granted := if |data| > granted then 0 else granted - |data|;
    }
  }

  datatype Op = WriteOp(buf: seq<byte>) | PollOp | Handlers(read: bool, canRead: bool, caps: seq<nat>, own: bool)

  /** The bytes that an operation writes. */
  function BytesOf(op: Op): seq<byte> { if op.WriteOp? then op.buf else [] }

  lemma NoBytes(op: Op, sum: seq<byte>)
    ensures sum + BytesOf(op) == if op.WriteOp? then sum + op.buf else sum
  {}

  /** All bytes that the operations on one of the halves write. */
  function Written(ops: seq<(bool, Op)>, half: bool): seq<byte> {
    if ops == [] then []
    else
      var last := ops[|ops| - 1];
      Written(ops[..|ops| - 1], half) + if last.0 == half then BytesOf(last.1) else []
  }

  lemma WrittenNext(ops: seq<(bool, Op)>, i: nat, half: bool, sum: seq<byte>)
    requires i < |ops|
    ensures sum + Written(ops[..i + 1], half)
         == sum + Written(ops[..i], half) + if ops[i].0 == half then BytesOf(ops[i].1) else []
  {
    assert ops[..i + 1][..i] == ops[..i];
  }

  /** The sending half. `open` tells whether it still has a peer, `hasCanRead` whether a
      chr_can_read handler is set on this half itself. */
  class Half {
    var bipFirst: int
    var bipLast: int
    var open: bool
    var hasCanRead: bool
    ghost var chain: seq<nat>

    ghost predicate Valid(b: Buffers)
      reads this, b, set i | 0 <= i < |b.cbs| :: b.cbs[i], set i | 0 <= i < |b.cbs| :: b.cbs[i].buff
    {
      b.Valid() && HalfOk(b.next, b.freeChain, bipFirst, bipLast, chain)
    }

    /** The bytes that have been written and not yet delivered. */
    ghost function Pending(b: Buffers): seq<byte>
      reads this, b
    {
      if Below(chain, |b.contents|) then Held(b.contents, chain) else []
    }

    /** The buffers that this half may use. */
    ghost function Mine(b: Buffers): seq<nat>
      reads this, b
    {
      chain + b.freeChain
    }

    /** charpipehalf_init. */
    constructor (b: Buffers)
      requires b.Valid()
      ensures Valid(b) && open && !hasCanRead && chain == [] && Pending(b) == []
    {
      bipFirst, bipLast, chain := NULL, NULL, [];
      open, hasCanRead := true, false;
    }

    /** The first loop of charpipehalf_write: as much as the peer takes goes to it directly. */
    method WriteDirect(peer: Device, buf: seq<byte>) returns (done: nat)
      modifies peer`caps, peer`delivered, peer`granted, peer`overrun
      ensures done <= |buf| && peer.delivered == old(peer.delivered) + buf[..done]
      ensures peer.hasCanRead ==> peer.overrun == old(peer.overrun)
      ensures done == if peer.hasCanRead then Taken(old(peer.caps), |buf|) else |buf|
      ensures peer.hasCanRead && old(peer.caps) == [] && old(peer.granted) == 0 ==> done == 0 && peer.granted == 0
    {
      done := 0;
      assert old(peer.delivered) + buf[..0] == old(peer.delivered);
      while done < |buf|
        invariant done <= |buf| && peer.delivered == old(peer.delivered) + buf[..done]
        invariant peer.hasCanRead ==> peer.overrun == old(peer.overrun)
        invariant peer.hasCanRead == old(peer.hasCanRead)
        invariant done == 0 ==> peer.caps == old(peer.caps) && peer.granted == old(peer.granted)
        invariant done > 0 ==> !peer.hasCanRead || old(peer.caps) != []
        invariant peer.hasCanRead ==> done + Taken(peer.caps, |buf| - done) == Taken(old(peer.caps), |buf|)
      {
        var size := |buf| - done;
        if peer.hasCanRead {
          size := peer.CanRead();
          if size == 0 {
            break;
          }
          if size > |buf| - done {
            size := |buf| - done;
          }
        }
        peer.Read(buf[done..done + size]);
        assert old(peer.delivered) + buf[..done] + buf[done..done + size] == old(peer.delivered) + buf[..done + size];
        done := done + size;
      }
    }

    /** A buffer is allocated and becomes the last of the chain. */
    method Extend(b: Buffers)
      requires Valid(b)
      modifies this, b, set i | 0 <= i < |b.cbs| :: b.cbs[i]
      ensures Valid(b) && open == old(open) && hasCanRead == old(hasCanRead)
      ensures chain != [] && chain[..|chain| - 1] == old(chain) && Pending(b) == old(Pending(b))
      ensures Spares(old(b.Now()), old(Mine(b)), b.Now(), Mine(b))
      ensures Room(b) == BIP_BUFFER_SIZE && old(b.cbs) <= b.cbs
      ensures forall i :: |old(b.cbs)| <= i < |b.cbs| ==> fresh(b.cbs[i]) && fresh(b.cbs[i].buff)
    {
      hide HalfOk;
      hide Distinct;
      hide Disjoint;
      hide Held;
      hide Below;
      hide Buffers.Valid;
      hide Linked;
      hide At;
      hide Last;
      hide Spares;
      ghost var c, was, mine := chain, b.Now(), Mine(b);
      var bip := AllocApart(b);
      if bipLast == NULL {
        bipFirst := bip;
      } else {
        SparesChange(was, mine, b.Now(), c + [bip] + b.freeChain, bipLast, [], bip);
        b.SetNext(bipLast, bip);
      }
      bipLast := bip;
      chain := c + [bip];
      assert chain[..|chain| - 1] == c;
    }

    /** A buffer is allocated, and is ready to become the last of the chain. */
    method AllocApart(b: Buffers) returns (bip: nat)
      requires Valid(b)
      modifies b, set i | 0 <= i < |b.cbs| :: b.cbs[i]
      ensures b.Valid() && bip < |b.contents| == |b.next| == |b.cbs| && b.contents[bip] == []
      ensures Below(chain + [bip], |b.contents|) && Held(b.contents, chain + [bip]) == old(Pending(b))
      ensures bipLast == NULL ==> HalfOk(b.next, b.freeChain, bip, bip, chain + [bip])
      ensures Spares(old(b.Now()), old(Mine(b)), b.Now(), chain + [bip] + b.freeChain)
      ensures bipLast != NULL ==> 0 <= bipLast < |b.next| && Disjoint([bipLast], b.freeChain) && bipLast in chain
      ensures bipLast != NULL ==> HalfOk(b.next[bipLast := bip], b.freeChain, bipFirst, bip, chain + [bip])
      ensures old(b.cbs) <= b.cbs
      ensures forall i :: |old(b.cbs)| <= i < |b.cbs| ==> fresh(b.cbs[i]) && fresh(b.cbs[i].buff)
    {
      hide HalfOk;
      hide Distinct;
      hide Disjoint;
      hide Held;
      hide Below;
      hide Buffers.Valid;
      hide Linked;
      hide At;
      hide Last;
      hide Spares;
      ghost var was, next, contents, free := b.Now(), b.next, b.contents, b.freeChain;
      ListIsDistinct(b);
      ChainIsBelow(next, free, bipFirst, bipLast, chain);
      bip := b.Alloc();
      ListIsDistinct(b);
      SparesAlloc(was, chain, free, b.Now(), b.freeChain, bip);
      ExtendOk(next, b.next, bipFirst, bipLast, chain, free, b.freeChain, bip);
      ExtendHeld(contents, b.contents, chain, bip);
    }

    /** One cbuffer_write to the last buffer. */
    method WriteLast(b: Buffers, data: seq<byte>) returns (n: nat)
      requires Valid(b) && chain != []
      modifies b`contents, set i | 0 <= i < |b.cbs| :: b.cbs[i], set i | 0 <= i < |b.cbs| :: b.cbs[i].buff
      ensures Valid(b) && n <= |data| && Pending(b) == old(Pending(b)) + data[..n]
      ensures Spares(old(b.Now()), old(Mine(b)), b.Now(), Mine(b))
      ensures n == |data| || Room(b) == 0
      ensures n == 0 ==> Room(b) == old(Room(b))
    {
      hide Distinct;
      hide Disjoint;
      hide Held;
      hide Below;
      hide Linked;
      hide Buffers.Valid;
      ListIsDistinct(b);
      hide Spares;
      LastIs(b.next, b.freeChain, bipFirst, bipLast, chain);
      ghost var was, mine := b.Now(), Mine(b);
      SparesAll(was, mine);
      n := b.CbWrite(bipLast, data);
      SparesChange(was, mine, was, mine, bipLast, b.contents[bipLast], NULL);
      HeldLast(old(b.contents), chain, data[..n]);
      ListIsDistinct(b);
    }

    /** The room in the last buffer. */
    ghost function Room(b: Buffers): (r: nat)
      reads this, b
      ensures r <= BIP_BUFFER_SIZE
    {
      if 0 <= bipLast < |b.contents| && |b.contents[bipLast]| <= BIP_BUFFER_SIZE
      then BIP_BUFFER_SIZE - |b.contents[bipLast]| else 0
    }

    /** charpipehalf_write: every byte is accepted, and delivered or kept, in order. A peer that says
        what it can take is never given more. */
    method Write(b: Buffers, peer: Device, buf: seq<byte>) returns (ret: nat)
      requires Valid(b)
      modifies this, b, set i | 0 <= i < |b.cbs| :: b.cbs[i], set i | 0 <= i < |b.cbs| :: b.cbs[i].buff
      modifies peer`caps, peer`delivered, peer`granted, peer`overrun
      ensures Valid(b) && ret == |buf|
      ensures peer.delivered + Pending(b) == old(peer.delivered + Pending(b)) + buf
      ensures peer.hasCanRead ==> peer.overrun == old(peer.overrun)
      ensures Spares(old(b.Now()), old(Mine(b)), b.Now(), Mine(b))
      ensures open == old(open) && hasCanRead == old(hasCanRead)
      ensures !open || !peer.hasRead || old(chain) != [] ==> peer.delivered == old(peer.delivered)
      ensures open && peer.hasRead && old(chain) == [] && !peer.hasCanRead ==> Pending(b) == []
      ensures open && peer.hasRead && old(chain) == [] && peer.hasCanRead ==>
        |peer.delivered| == |old(peer.delivered)| + Taken(old(peer.caps), |buf|)
      ensures peer.hasCanRead && old(peer.caps) == [] && old(peer.granted) == 0 ==>
        peer.delivered == old(peer.delivered) && peer.granted == 0
      ensures old(b.cbs) <= b.cbs && forall i :: |old(b.cbs)| <= i < |b.cbs| ==> fresh(b.cbs[i]) && fresh(b.cbs[i].buff)
    {
      hide *;
      StoreEven(b);
      SparesAll(b.Now(), Mine(b));
      ghost var was := peer.delivered + Pending(b);
      var done := WriteFirst(b, peer, buf);
      if done == |buf| {
        assert buf[..done] == buf;
        return done;
      }
      assert was + buf[..done] + buf[done..] == was + buf;
      WriteBuffered(b, buf[done..]);
      return |buf|;
    }

    /** The start of charpipehalf_write: nothing goes to the peer directly while bytes are kept. */
    method WriteFirst(b: Buffers, peer: Device, buf: seq<byte>) returns (done: nat)
      requires Valid(b)
      modifies peer`caps, peer`delivered, peer`granted, peer`overrun
      ensures Valid(b) && done <= |buf| && Pending(b) == old(Pending(b))
      ensures peer.delivered + Pending(b) == old(peer.delivered + Pending(b)) + buf[..done]
      ensures peer.hasCanRead ==> peer.overrun == old(peer.overrun)
      ensures !open || !peer.hasRead || chain != [] ==> done == 0 && peer.delivered == old(peer.delivered)
      ensures open && peer.hasRead && chain == [] && !peer.hasCanRead ==> done == |buf| && Pending(b) == []
      ensures open && peer.hasRead && chain == [] ==> |peer.delivered| == |old(peer.delivered)| + done
      ensures open && peer.hasRead && chain == [] && peer.hasCanRead ==> done == Taken(old(peer.caps), |buf|)
      ensures peer.hasCanRead && old(peer.caps) == [] && old(peer.granted) == 0 ==>
        peer.delivered == old(peer.delivered) && peer.granted == 0
    {
      hide Buffers.Valid;
      hide HalfOk;
      hide Held;
      EmptyIff(b.next, b.freeChain, bipFirst, bipLast, chain);
      EmptyHolds(b.contents);
      done := 0;
      if bipLast == NULL && open && peer.hasRead {
        done := WriteDirect(peer, buf);
      }
    }

    /** The first buffer goes back to the free list. */
    method FreeFirst(b: Buffers)
      requires Valid(b) && chain != [] && bipFirst == chain[0]
      modifies this, b`next, b`free, b`freeChain
      ensures Valid(b) && chain == old(chain[1..]) && b.freeChain == [old(bipFirst)] + old(b.freeChain)
      ensures Spares(old(b.Now()), old(Mine(b)), b.Now(), Mine(b))
      ensures open == old(open) && hasCanRead == old(hasCanRead)
    {
      hide Buffers.Valid;
      hide HalfOk;
      hide Linked;
      hide Distinct;
      hide Disjoint;
      ListIsDistinct(b);
      FirstIs(b.next, b.freeChain, bipFirst, bipLast, chain);
      ghost var next, free, first, last := b.next, b.freeChain, bipFirst, bipLast;
      var bip := bipFirst;
      bipFirst := b.next[bip];
      if bipFirst == NULL {
        bipLast := NULL;
      }
      b.Free(bip);
      DropOk(next, free, b.free, first, last, chain, b.next);
      SparesFree(old(b.Now()), chain, free, b.next[bip]);
      hide Spares;
      chain := chain[1..];
    }

    /** The bytes that lie next to each other at the start of the first buffer. */
    ghost function PartOfFirst(b: Buffers): nat
      reads this, b, set i | 0 <= i < |b.cbs| :: b.cbs[i], set i | 0 <= i < |b.cbs| :: b.cbs[i].buff
    {
      if 0 <= bipFirst < |b.cbs| && b.cbs[bipFirst].Valid() then b.cbs[bipFirst].Part() else 0
    }

    /** A part of the first buffer is given to the peer. */
    method DeliverSome(b: Buffers, peer: Device, size: nat) returns (avail: nat)
      requires Valid(b) && chain != [] && bipFirst == chain[0] < |b.contents| && 0 < size <= |b.contents[bipFirst]|
      modifies b`contents, set i | 0 <= i < |b.cbs| :: b.cbs[i]
      modifies peer`delivered, peer`granted, peer`overrun
      ensures Valid(b) && 0 < avail <= size && peer.overrun == (old(peer.overrun) || avail > old(peer.granted))
      ensures avail == if size < old(PartOfFirst(b)) then size else old(PartOfFirst(b))
      ensures |peer.delivered| == |old(peer.delivered)| + avail
      ensures old(peer.granted) == 0 ==> peer.granted == 0
      ensures peer.delivered + Pending(b) == old(peer.delivered + Pending(b)) && |Pending(b)| == |old(Pending(b))| - avail
      ensures Spares(old(b.Now()), old(Mine(b)), b.Now(), Mine(b))
    {
      hide Buffers.Valid;
      hide HalfOk;
      hide Held;
      hide Distinct;
      ListIsDistinct(b);
      FirstIs(b.next, b.freeChain, bipFirst, bipLast, chain);
      var base := b.CbReadPeek(bipFirst);
      avail := if |base| > size then size else |base|;
      HeldTaken(b.contents, chain, avail);
      ghost var was, kept := peer.delivered, Pending(b);
      hide Spares;
      ghost var store, mine := b.Now(), Mine(b);
      SparesAll(store, mine);
      peer.Read(base[..avail]);
      b.CbReadStep(bipFirst, avail);
      SparesChange(store, mine, store, mine, bipFirst, b.contents[bipFirst], NULL);
      ListIsDistinct(b);
      assert base[..avail] == old(b.contents)[bipFirst][..avail];
      assert was + (base[..avail] + Pending(b)) == was + base[..avail] + Pending(b);
    }

    /** How many of `size` bytes may be delivered: what the peer says, if there is a handler here. */
    method Ask(peer: Device, size: nat) returns (allowed: nat, ghost asked: seq<nat>)
      modifies peer`caps, peer`granted
      ensures asked == if hasCanRead then [Answers(peer.hasCanRead, old(peer.caps))[0]] else []
      ensures peer.caps == After(peer.hasCanRead, old(peer.caps), |asked|)
      ensures allowed == if asked == [] || asked[0] > size then size else asked[0]
      ensures peer.granted == if asked == [] then old(peer.granted) else asked[0]
      ensures hasCanRead && !peer.hasCanRead ==> allowed == 0
    {
      allowed, asked := size, [];
      if hasCanRead {
        var size2 := peer.CanRead();
        asked := [size2];
        if allowed > size2 {
          allowed := size2;
        }
      }
    }

    /** One turn of the loop of charpipehalf_poll. An empty buffer is freed. Otherwise the peer is asked,
        if there is a handler here: on 0 the loop ends, and on a positive answer as many bytes as it
        allows are delivered, up to the end of the part that can be peeked at. */
    method PollTurn(b: Buffers, peer: Device) returns (stop: bool, ghost asked: seq<nat>)
      requires Valid(b) && bipFirst != NULL
      modifies this, b, set i | 0 <= i < |b.cbs| :: b.cbs[i]
      modifies peer`caps, peer`delivered, peer`granted, peer`overrun
      ensures Valid(b) && peer.delivered + Pending(b) == old(peer.delivered + Pending(b))
      ensures open == old(open) && hasCanRead == old(hasCanRead) && b.cbs == old(b.cbs)
      ensures hasCanRead ==> peer.overrun == old(peer.overrun)
      ensures hasCanRead && !peer.hasCanRead ==> peer.delivered == old(peer.delivered)
      ensures stop ==> hasCanRead
      ensures |Pending(b)| <= |old(Pending(b))|
      ensures !hasCanRead && old(peer.granted) == 0 ==> peer.granted == 0
      ensures !hasCanRead && old(peer.granted) == 0 ==>
        peer.overrun == (old(peer.overrun) || |Pending(b)| < |old(Pending(b))|) && |Pending(b)| <= |old(Pending(b))|
      ensures Spares(old(b.Now()), old(Mine(b)), b.Now(), Mine(b))
      ensures !stop ==> |Pending(b)| + |chain| < |old(Pending(b))| + |old(chain)|
      ensures asked == if hasCanRead && old(PartOfFirst(b)) > 0 then [Answers(peer.hasCanRead, old(peer.caps))[0]] else []
      ensures peer.caps == After(peer.hasCanRead, old(peer.caps), |asked|)
      ensures stop <==> asked == [0]
      ensures |old(Pending(b))| == |Pending(b)| +
        if asked == [] || asked[0] > old(PartOfFirst(b)) then old(PartOfFirst(b)) else asked[0]
      ensures stop ==> Pending(b) != []
    {
      asked := [];
      hide Buffers.Valid;
      hide HalfOk;
      hide Linked;
      hide Answers;
      hide After;
      hide CBuffer.Part;
      hide CBuffer.Contents;
      hide CBuffer.Valid;
      hide Held;
      hide Distinct;
      hide Disjoint;
      ListIsDistinct(b);
      FirstIs(b.next, b.freeChain, bipFirst, bipLast, chain);
      hide Spares;
      HeldHead(b.contents, chain);
      SparesAll(b.Now(), Mine(b));
      var size := b.CbReadAvail(bipFirst);
      AfterNone(peer.hasCanRead, peer.caps);
      if size == 0 {
        FreeFirst(b);
        return false, asked;
      }
      size, asked := Ask(peer, size);
      if size == 0 {
        return true, asked;
      }
      var avail := DeliverSome(b, peer, size);
      return false, asked;
    }

    /** The loop of charpipehalf_poll. `asked` are the answers that it gets. */
    method PollAll(b: Buffers, peer: Device) returns (ghost asked: seq<nat>)
      requires Valid(b)
      modifies this, b, set i | 0 <= i < |b.cbs| :: b.cbs[i]
      modifies peer`caps, peer`delivered, peer`granted, peer`overrun
      ensures Valid(b) && peer.delivered + Pending(b) == old(peer.delivered + Pending(b))
      ensures open == old(open) && hasCanRead == old(hasCanRead) && (hasCanRead ==> peer.overrun == old(peer.overrun))
      ensures Spares(old(b.Now()), old(Mine(b)), b.Now(), Mine(b))
      ensures b.cbs == old(b.cbs) && (!hasCanRead ==> Pending(b) == [])
      ensures !hasCanRead && old(peer.granted) == 0 ==> peer.overrun == (old(peer.overrun) || old(Pending(b)) != [])
      ensures hasCanRead && !peer.hasCanRead ==> peer.delivered == old(peer.delivered)
      ensures !hasCanRead ==> asked == []
      ensures Asked(peer.hasCanRead, old(peer.caps), asked, peer.caps) && (Pending(b) == [] ==> AllPositive(asked))
      ensures Pending(b) != [] ==> asked != [] && asked[|asked| - 1] == 0 && AllPositive(asked[..|asked| - 1])
      ensures hasCanRead ==> Fits(asked, |old(Pending(b))| - |Pending(b)|)
    {
      hide *;
      asked := [];
      NoneAsked(peer.hasCanRead, peer.caps);
      ghost var sum, store, mine := peer.delivered + Pending(b), b.Now(), Mine(b);
      StoreEven(b);
      SparesAll(store, mine);
      while bipFirst != NULL
        invariant Spares(store, mine, b.Now(), Mine(b))
        invariant Valid(b) && b.cbs == old(b.cbs) && peer.delivered + Pending(b) == sum
        invariant open == old(open) && hasCanRead == old(hasCanRead) && (hasCanRead ==> peer.overrun == old(peer.overrun))
        invariant !hasCanRead && old(peer.granted) == 0 ==>
          peer.granted == 0 && peer.overrun == (old(peer.overrun) || |Pending(b)| < |old(Pending(b))|)
        invariant |Pending(b)| <= |old(Pending(b))|
        invariant hasCanRead && !peer.hasCanRead ==> peer.delivered == old(peer.delivered)
        invariant !hasCanRead ==> asked == []
        invariant Asked(peer.hasCanRead, old(peer.caps), asked, peer.caps) && AllPositive(asked)
        invariant hasCanRead ==> Fits(asked, |old(Pending(b))| - |Pending(b)|)
        decreases |Pending(b)| + |chain|
      {
        ghost var mid, mine2 := b.Now(), Mine(b);
        ghost var caps, part, left := peer.caps, PartOfFirst(b), |old(Pending(b))| - |Pending(b)|;
        ghost var answers;
        var stop;
        stop, answers := PollTurn(b, peer);
        SparesBoth(store, mine, mid, mine2, b.Now(), Mine(b));
        AskedNext(peer.hasCanRead, old(peer.caps), asked, caps, answers, peer.caps, left, part);
        asked := asked + answers;
        if stop {
          return;
        }
      }
      NothingPending(b);
    }

    /** charpipehalf_poll: what is kept is delivered in order, as far as it goes. Whether the peer is
        asked what it can take depends on a handler of this half, not on one of the peer. */
    method Poll(b: Buffers, peer: Device) returns (ghost asked: seq<nat>)
      requires Valid(b)
      modifies this, b, set i | 0 <= i < |b.cbs| :: b.cbs[i]
      modifies peer`caps, peer`delivered, peer`granted, peer`overrun
      ensures Valid(b) && peer.delivered + Pending(b) == old(peer.delivered + Pending(b))
      ensures hasCanRead == old(hasCanRead) && (hasCanRead ==> peer.overrun == old(peer.overrun))
      ensures old(peer.granted) == 0 ==> (peer.overrun <==>
        old(peer.overrun) || (open && peer.hasRead && !hasCanRead && old(Pending(b)) != []))
      ensures Spares(old(b.Now()), old(Mine(b)), b.Now(), Mine(b))
      ensures b.cbs == old(b.cbs) && open == old(open) && (open && peer.hasRead && !hasCanRead ==> Pending(b) == [])
      ensures !open || !peer.hasRead || (hasCanRead && !peer.hasCanRead) ==> peer.delivered == old(peer.delivered)
      ensures Asked(peer.hasCanRead, old(peer.caps), asked, peer.caps)
      ensures open && peer.hasRead ==>
        && (Pending(b) == [] ==> AllPositive(asked))
        && (Pending(b) != [] ==> asked != [] && asked[|asked| - 1] == 0 && AllPositive(asked[..|asked| - 1]))
        && (hasCanRead ==> Fits(asked, |old(Pending(b))| - |Pending(b)|))
    {
      hide *;
      asked := [];
      NoneAsked(peer.hasCanRead, peer.caps);
      StoreEven(b);
      SparesAll(b.Now(), Mine(b));
      if open && peer.hasRead {
        asked := PollAll(b, peer);
      }
    }

    /** One write, poll or change of handlers. */
    method Do(b: Buffers, peer: Device, op: Op)
      requires Valid(b)
      modifies this, b, peer, set i | 0 <= i < |b.cbs| :: b.cbs[i], set i | 0 <= i < |b.cbs| :: b.cbs[i].buff
      ensures Valid(b) && peer.delivered + Pending(b) == old(peer.delivered + Pending(b)) + BytesOf(op)
      ensures Spares(old(b.Now()), old(Mine(b)), b.Now(), Mine(b))
      ensures old(b.cbs) <= b.cbs && forall i :: |old(b.cbs)| <= i < |b.cbs| ==> fresh(b.cbs[i]) && fresh(b.cbs[i].buff)
    {
      hide *;
      ghost var sum := peer.delivered + Pending(b);
      NoBytes(op, sum);
      match op {
        case WriteOp(buf) =>
          var n := Write(b, peer, buf);
        case PollOp =>
          ghost var asked := Poll(b, peer);
        case Handlers(read, canRead, caps, own) =>
          StoreEven(b);
          SparesAll(b.Now(), Mine(b));
          SetHandlers(b, peer, read, canRead, caps, own);
      }
    }

    /** The handlers of both ends may be changed at any time, and the peer may become ready. */
    method SetHandlers(b: Buffers, peer: Device, read: bool, canRead: bool, caps: seq<nat>, own: bool)
      requires Valid(b)
      modifies this`hasCanRead, peer`hasRead, peer`hasCanRead, peer`caps
      ensures Valid(b) && Pending(b) == old(Pending(b)) && Mine(b) == old(Mine(b))
    {
      peer.hasRead, peer.hasCanRead, peer.caps := read, canRead, caps;
      hasCanRead := own;
    }

    lemma StoreEven(b: Buffers)
      requires Valid(b)
      ensures |b.Now().contents| == |b.Now().next|
    {}

    lemma NothingPending(b: Buffers)
      requires Valid(b) && bipFirst == NULL
      ensures Pending(b) == [] && chain == []
    {}

    /** charpipehalf_close: what has not been delivered is given up, and the buffers are freed. */
    method Close(b: Buffers)
      requires Valid(b)
      modifies this, b`next, b`free, b`freeChain
      ensures Valid(b) && !open && chain == [] && Pending(b) == [] && |b.freeChain| == |old(b.freeChain)| + |old(chain)|
      ensures Spares(old(b.Now()), old(Mine(b)), b.Now(), Mine(b))
    {
      hide Buffers.Valid;
      hide HalfOk;
      hide Held;
      hide Pending;
      hide Spares;
      ghost var store, mine := b.Now(), Mine(b);
      StoreEven(b);
      SparesAll(store, mine);
      while bipFirst != NULL
        invariant Spares(store, mine, b.Now(), Mine(b))
        invariant Valid(b) && |b.freeChain| + |chain| == |old(b.freeChain)| + |old(chain)|
        decreases |chain|
      {
        ListIsDistinct(b);
        FirstIs(b.next, b.freeChain, bipFirst, bipLast, chain);
        ghost var mid, mine2 := b.Now(), Mine(b);
        FreeFirst(b);
        SparesBoth(store, mine, mid, mine2, b.Now(), Mine(b));
      }
      EmptyIff(b.next, b.freeChain, bipFirst, bipLast, chain);
      bipLast := NULL;
      open := false;
      NothingPending(b);
    }

    /** The rest of charpipehalf_write: what the peer does not take is added to the buffers. */
    method WriteBuffered(b: Buffers, buf: seq<byte>)
      requires Valid(b) && buf != []
      modifies this, b, set i | 0 <= i < |b.cbs| :: b.cbs[i], set i | 0 <= i < |b.cbs| :: b.cbs[i].buff
      ensures Valid(b) && chain != [] && Pending(b) == old(Pending(b)) + buf
      ensures Spares(old(b.Now()), old(Mine(b)), b.Now(), Mine(b))
      ensures open == old(open) && hasCanRead == old(hasCanRead) && old(b.cbs) <= b.cbs
      ensures forall i :: |old(b.cbs)| <= i < |b.cbs| ==> fresh(b.cbs[i]) && fresh(b.cbs[i].buff)
    {
      ghost var was := Pending(b);
      hide Buffers.Valid;
      hide HalfOk;
      hide Pending;
      hide Room;
      hide Spares;
      hide Mine;
      EmptyIff(b.next, b.freeChain, bipFirst, bipLast, chain);
      ghost var store, mine := b.Now(), Mine(b);
      StoreEven(b);
      SparesAll(store, mine);
      hide Valid;
      if bipLast == NULL {
        Extend(b);
      }
      var done := 0;
      assert was + buf[..0] == was;
      while true
        invariant Valid(b) && chain != [] && done < |buf| && Pending(b) == was + buf[..done]
        invariant Spares(store, mine, b.Now(), Mine(b))
        invariant open == old(open) && hasCanRead == old(hasCanRead) && old(b.cbs) <= b.cbs
        invariant forall i :: |old(b.cbs)| <= i < |b.cbs| ==> fresh(b.cbs[i]) && fresh(b.cbs[i].buff)
        decreases |buf| - done, BIP_BUFFER_SIZE - Room(b)
      {
        ghost var mid, mine2 := b.Now(), Mine(b);
        var n := WriteLast(b, buf[done..]);
        SparesBoth(store, mine, mid, mine2, b.Now(), Mine(b));
        assert was + buf[..done] + buf[done..][..n] == was + buf[..done + n];
        done := done + n;
        if done == |buf| {
          assert buf[..done] == buf;
          break;
        }
        mid, mine2 := b.Now(), Mine(b);
        Extend(b);
        SparesBoth(store, mine, mid, mine2, b.Now(), Mine(b));
      }
    }
  }

  /** Both directions of a pipe, over any sequence of writes, polls and changes of handlers: the bytes
      delivered to an end, followed by those that are kept for it, are all the bytes written at the
      other end, in order, although the two share the free buffers. */
  method Run(b: Buffers, x: Half, px: Device, y: Half, py: Device, ops: seq<(bool, Op)>)
    requires x != y && px != py && x.Valid(b) && y.Valid(b) && Disjoint(x.chain, y.chain)
    modifies x, y, b, px, py, set i | 0 <= i < |b.cbs| :: b.cbs[i], set i | 0 <= i < |b.cbs| :: b.cbs[i].buff
    ensures x.Valid(b) && y.Valid(b) && Disjoint(x.chain, y.chain)
    ensures px.delivered + x.Pending(b) == old(px.delivered + x.Pending(b)) + Written(ops, true)
    ensures py.delivered + y.Pending(b) == old(py.delivered + y.Pending(b)) + Written(ops, false)
  {
    hide *;
    ghost var sumX, sumY := px.delivered + x.Pending(b), py.delivered + y.Pending(b);
    NothingWritten(ops, sumX, sumY);
    for i := 0 to |ops|
      invariant x.Valid(b) && y.Valid(b) && Disjoint(x.chain, y.chain)
      invariant px.delivered + x.Pending(b) == sumX + Written(ops[..i], true)
      invariant py.delivered + y.Pending(b) == sumY + Written(ops[..i], false)
      invariant old(b.cbs) <= b.cbs
      invariant forall k :: |old(b.cbs)| <= k < |b.cbs| ==> fresh(b.cbs[k]) && fresh(b.cbs[k].buff)
    {
      WrittenNext(ops, i, true, sumX);
      WrittenNext(ops, i, false, sumY);
      if ops[i].0 {
        DoBeside(b, x, px, y, ops[i].1);
      } else {
        Swap(x.chain, y.chain);
        DoBeside(b, y, py, x, ops[i].1);
        Swap(y.chain, x.chain);
      }
    }
    assert ops[..|ops|] == ops;
  }

  lemma NothingWritten(ops: seq<(bool, Op)>, sumX: seq<byte>, sumY: seq<byte>)
    ensures sumX + Written(ops[..0], true) == sumX && sumY + Written(ops[..0], false) == sumY
  {}

  lemma Swap(c: seq<nat>, d: seq<nat>)
    requires Disjoint(c, d)
    ensures Disjoint(d, c)
  {}

  /** An operation on one half leaves the other half what it has. */
  method DoBeside(b: Buffers, x: Half, px: Device, y: Half, op: Op)
    requires x != y && x.Valid(b) && y.Valid(b) && Disjoint(x.chain, y.chain)
    modifies x, b, px, set i | 0 <= i < |b.cbs| :: b.cbs[i], set i | 0 <= i < |b.cbs| :: b.cbs[i].buff
    ensures x.Valid(b) && y.Valid(b) && Disjoint(x.chain, y.chain)
    ensures px.delivered + x.Pending(b) == old(px.delivered + x.Pending(b)) + BytesOf(op)
    ensures y.Pending(b) == old(y.Pending(b))
    ensures old(b.cbs) <= b.cbs && forall i :: |old(b.cbs)| <= i < |b.cbs| ==> fresh(b.cbs[i]) && fresh(b.cbs[i].buff)
  {
    hide Held;
    hide Spares;
    hide Linked;
    hide Distinct;
    hide Disjoint;
    hide Below;
    hide Buffers.Valid;
    ghost var store, mine := b.Now(), x.Mine(b);
    NotMine(y.chain, x.chain, b.freeChain);
    ListIsDistinct(b);
    x.Do(b, px, op);
    ListIsDistinct(b);
    OthersKeep(store, mine, b.Now(), x.Mine(b), y.bipFirst, y.chain);
    StillApart(y.chain, x.chain, b.freeChain);
  }

  lemma NotMine(other: seq<nat>, chain: seq<nat>, free: seq<nat>)
    requires Disjoint(chain, other) && Disjoint(other, free)
    ensures Disjoint(other, chain + free)
  {}

  lemma StillApart(other: seq<nat>, chain: seq<nat>, free: seq<nat>)
    requires Disjoint(other, chain + free)
    ensures Disjoint(chain, other) && Disjoint(other, free)
  {
    forall i, j | 0 <= i < |other| && 0 <= j < |free|
      ensures other[i] != free[j]
    {
      assert (chain + free)[|chain| + j] == free[j];
    }
    forall i, j | 0 <= i < |chain| && 0 <= j < |other|
      ensures chain[i] != other[j]
    {
      assert (chain + free)[i] == chain[i];
    }
  }

  /** A peer that says it can take nothing is not given a byte that is written, but it is given the
      byte by the poll, since the half that polls has no handler itself. */
  method Overrunning() returns (peer: Device)
    ensures fresh(peer) && peer.hasCanRead && peer.overrun && peer.delivered == [1]
  {
    hide *;
    peer := new Device;
    peer.hasRead, peer.hasCanRead, peer.caps, peer.delivered := true, true, [], [];
    peer.granted, peer.overrun := 0, false;
    var b := new Buffers();
    var half := new Half(b);
    var n := half.Write(b, peer, [1]);
    assert [] + half.Pending(b) == half.Pending(b) == [] + [] + [1];
    ghost var asked := half.Poll(b, peer);
    assert peer.delivered == peer.delivered + half.Pending(b);
  }

  /** What is added to the last buffer is added to what the chain holds. */
  lemma HeldLast(contents: seq<seq<byte>>, chain: seq<nat>, data: seq<byte>)
    requires Below(chain, |contents|) && Distinct(chain) && chain != []
    ensures var b := chain[|chain| - 1]; Held(contents[b := contents[b] + data], chain) == Held(contents, chain) + data
  {
    var n := |chain| - 1;
    var b := chain[n];
    var now := contents[b := contents[b] + data];
    assert forall i :: 0 <= i < n ==> chain[i] != b;
    HeldFrame(contents, now, chain[..n]);
    assert Held(contents, chain[..n]) + (contents[b] + data) == Held(contents, chain[..n]) + contents[b] + data;
  }

  lemma ListIsDistinct(b: Buffers)
    requires b.Valid()
    ensures Distinct(b.freeChain) && |b.next| == |b.contents| == |b.cbs| && b.free == At(b.freeChain, 0)
  {}

  lemma ChainIsBelow(next: seq<int>, free: seq<nat>, first: int, last: int, chain: seq<nat>)
    requires HalfOk(next, free, first, last, chain)
    ensures Below(chain, |next|) && last == Last(chain) && (last != NULL ==> last in chain)
  {}

  lemma EmptyIff(next: seq<int>, free: seq<nat>, first: int, last: int, chain: seq<nat>)
    requires HalfOk(next, free, first, last, chain)
    ensures (last == NULL <==> chain == []) && (first == NULL <==> chain == [])
  {}

  lemma EmptyHolds(contents: seq<seq<byte>>)
    ensures Held(contents, []) == []
  {}

  lemma FirstIs(next: seq<int>, free: seq<nat>, first: int, last: int, chain: seq<nat>)
    requires HalfOk(next, free, first, last, chain) && first != NULL
    ensures chain != [] && first == chain[0] < |next| && Disjoint([chain[0]], free) && Below(chain, |next|) && Distinct(chain)
  {}

  /** Freeing the first buffer leaves the rest linked. */
  lemma DropOk(next: seq<int>, free: seq<nat>, freeHead: int, first: int, last: int, chain: seq<nat>, next2: seq<int>)
    requires HalfOk(next, free, first, last, chain) && chain != [] && chain[0] < |next| && next2 == next[chain[0] := At(free, 0)]
    ensures HalfOk(next2, [chain[0]] + free, next[chain[0]], if next[chain[0]] == NULL then NULL else last, chain[1..])
  {
    assert forall i :: 0 <= i < |chain| - 1 ==> chain[1..][i] == chain[i + 1] && chain[i + 1] != chain[0];
  }

  lemma HeldTaken(contents: seq<seq<byte>>, chain: seq<nat>, k: nat)
    requires Below(chain, |contents|) && Distinct(chain) && chain != [] && k <= |contents[chain[0]]|
    ensures var now := contents[chain[0] := contents[chain[0]][k..]];
      && Held(contents, chain) == contents[chain[0]][..k] + Held(now, chain)
      && |Held(now, chain)| == |Held(contents, chain)| - k
  {
    var b := chain[0];
    var now := contents[b := contents[b][k..]];
    HeldHead(contents, chain);
    HeldHead(now, chain);
    assert forall i :: 0 <= i < |chain| - 1 ==> chain[1..][i] != b;
    HeldFrame(contents, now, chain[1..]);
    assert contents[b] == contents[b][..k] + contents[b][k..];
  }

  lemma LastIs(next: seq<int>, free: seq<nat>, first: int, last: int, chain: seq<nat>)
    requires HalfOk(next, free, first, last, chain) && chain != []
    ensures 0 <= last < |next| && last == chain[|chain| - 1] && last in chain && Distinct(chain) && Below(chain, |next|)
  {}

  /** A buffer that is new or off the free list is in no chain, and neither list gets at the other. */
  lemma ExtendApart(chain: seq<nat>, free: seq<nat>, free2: seq<nat>, bip: nat, n: nat)
    requires Distinct(chain) && Below(chain, n) && Distinct(free) && Disjoint(chain, free)
    requires if free == [] then bip == n && free2 == [] else bip == free[0] && free2 == free[1..]
    ensures Disjoint([bip], chain) && Distinct(chain + [bip]) && Disjoint(chain + [bip], free2)
    ensures chain != [] ==> Disjoint([Last(chain)], free2)
  {
    var c := chain + [bip];
    assert forall i :: 0 <= i < |chain| ==> c[i] == chain[i] && chain[i] != bip;
    forall i, j | 0 <= i < |c| && 0 <= j < |free2|
      ensures c[i] != free2[j]
    {
      assert free2[j] == free[j + 1];
    }
  }

  lemma ExtendLinks(next: seq<int>, next2: seq<int>, first: int, chain: seq<nat>, bip: nat)
    requires Linked(next, first, chain) && Distinct(chain) && Disjoint([bip], chain) && bip <= |next|
    requires next2 == if bip < |next| then next[bip := NULL] else next + [NULL]
    ensures chain == [] ==> Linked(next2, bip, [bip])
    ensures chain != [] ==> Linked(next2[Last(chain) := bip], first, chain + [bip])
  {
    var c := chain + [bip];
    assert forall i :: 0 <= i < |chain| ==> c[i] == chain[i] && chain[i] != [bip][0];
    if chain != [] {
      var now := next2[Last(chain) := bip];
      forall i | 0 <= i < |c|
        ensures c[i] < |now| && now[c[i]] == At(c, i + 1)
      {
        if i < |chain| - 1 {
          assert At(chain, i + 1) == At(c, i + 1);
        }
      }
    }
  }

  lemma ExtendOk(next: seq<int>, next2: seq<int>, first: int, last: int, chain: seq<nat>, free: seq<nat>,
                 free2: seq<nat>, bip: nat)
    requires HalfOk(next, free, first, last, chain) && Distinct(free)
    requires if free == [] then bip == |next| && free2 == [] else bip == free[0] && free2 == free[1..]
    requires next2 == if bip < |next| then next[bip := NULL] else next + [NULL]
    requires bip < |next2|
    ensures Disjoint([bip], chain) && bip <= |next|
    ensures last == NULL ==> HalfOk(next2, free2, bip, bip, chain + [bip])
    ensures last != NULL ==> 0 <= last < |next2| && Disjoint([last], free2)
    ensures last != NULL ==> HalfOk(next2[last := bip], free2, first, bip, chain + [bip])
  {
    ExtendApart(chain, free, free2, bip, |next|);
    ExtendLinks(next, next2, first, chain, bip);
    assert chain == [] ==> chain + [bip] == [bip];
    hide Linked;
    hide Distinct;
    hide Disjoint;
    BelowSnoc(chain, bip, |next2|);
  }

  lemma BelowSnoc(chain: seq<nat>, b: nat, n: nat)
    requires Below(chain, n) && b < n
    ensures Below(chain + [b], n)
  {}

  lemma ExtendHeld(contents: seq<seq<byte>>, contents2: seq<seq<byte>>, chain: seq<nat>, bip: nat)
    requires Below(chain, |contents|) && Disjoint([bip], chain)
    requires contents2 == if bip < |contents| then contents[bip := []] else contents + [[]]
    requires bip <= |contents|
    ensures Below(chain + [bip], |contents2|) && Held(contents2, chain + [bip]) == Held(contents, chain)
  {
    assert forall i :: 0 <= i < |chain| ==> [bip][0] != chain[i];
    HeldFrame(contents, contents2, chain);
    HeldSnoc(contents2, chain, bip);
  }
}
