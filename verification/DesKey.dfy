/** deskey, cookey, usekey and des: the key schedule of d3des.c against the rotating registers
    of FIPS 46-3, and the theorem that the DE1 schedule deciphers what the EN0 one enciphers. */
module DesKey {
  import opened Des

  datatype Mode = EN0 | DE1

  type KeyIndex = n: nat | n < 64
  type RegisterIndex = n: nat | n < 56
  type Rotation = n: nat | n <= 28

  const PC1: seq<KeyIndex> := [
    56, 48, 40, 32, 24, 16,  8,  0, 57, 49, 41, 33, 25, 17,
     9,  1, 58, 50, 42, 34, 26, 18, 10,  2, 59, 51, 43, 35,
    62, 54, 46, 38, 30, 22, 14,  6, 61, 53, 45, 37, 29, 21,
    13,  5, 60, 52, 44, 36, 28, 20, 12,  4, 27, 19, 11,  3]

  const TOTROT: seq<Rotation> := [1, 2, 4, 6, 8, 10, 12, 14, 15, 17, 19, 21, 23, 25, 27, 28]

  const PC2: seq<RegisterIndex> := [
    13, 16, 10, 23,  0,  4,  2, 27, 14,  5, 20,  9,
    22, 18, 11,  3, 25,  7, 15,  6, 26, 19, 12,  1,
    40, 51, 30, 36, 46, 54, 29, 39, 50, 44, 32, 47,
    43, 48, 38, 55, 33, 52, 45, 41, 49, 35, 28, 31]

  const BYTEBIT: seq<bv8> := [0x01, 0x02, 0x04, 0x08, 0x10, 0x20, 0x40, 0x80]

  const BIGBYTE: seq<bv32> := [
    0x800000, 0x400000, 0x200000, 0x100000, 0x80000, 0x40000, 0x20000, 0x10000,
    0x8000, 0x4000, 0x2000, 0x1000, 0x800, 0x400, 0x200, 0x100,
    0x80, 0x40, 0x20, 0x10, 0x8, 0x4, 0x2, 0x1]

  // ----- FIPS 46-3: permuted choice 1, sixteen cumulative left shifts, permuted choice 2 -----

  /** Key bit l, counting within each byte from the least significant bit. */
  predicate KeyBit(key: seq<bv8>, l: nat)
    requires |key| == 8 && l < 64
  {
    key[l / 8] & BYTEBIT[l % 8] != 0
  }

  function PermutedChoice1(key: seq<bv8>): (r: seq<bool>)
    requires |key| == 8
    ensures |r| == 56
  {
    seq(56, j requires 0 <= j < 56 => KeyBit(key, PC1[j]))
  }

  /** The C and D registers both rotated left by one place. */
  function ShiftOnce(cd: seq<bool>): (r: seq<bool>)
    requires |cd| == 56
    ensures |r| == 56
  {
    cd[1..28] + [cd[0]] + cd[29..56] + [cd[28]]
  }

  function Shift(cd: seq<bool>, n: nat): (r: seq<bool>)
    requires |cd| == 56
    ensures |r| == 56
  {
    if n == 0 then cd else ShiftOnce(Shift(cd, n - 1))
  }

  /** The number of left shifts before round i: one in rounds 1, 2, 9 and 16, otherwise two. */
  function LeftShifts(i: nat): nat
    requires i < 16
  {
    if i == 0 || i == 1 || i == 8 || i == 15 then 1 else 2
  }

  function Registers(key: seq<bv8>, i: nat): (r: seq<bool>)
    requires |key| == 8 && i <= 16
    ensures |r| == 56
  {
    if i == 0 then PermutedChoice1(key) else Shift(Registers(key, i - 1), LeftShifts(i - 1))
  }

  /** Shifting n places moves each half as a rotation by n. */
  function Rotated(n: nat, j: nat): (r: nat)
    requires n <= 28 && j < 56
    ensures r < 56 && (j < 28 <==> r < 28)
  {
    var l := j + n;
    if j < 28 then if l < 28 then l else l - 28
    else if l < 56 then l else l - 28
  }

  lemma {:induction false} ShiftRotates(cd: seq<bool>, n: nat, j: nat)
    requires |cd| == 56 && n <= 28 && j < 56
    ensures Shift(cd, n)[j] == cd[Rotated(n, j)]
  {
    if n > 0 {
      ShiftRotates(cd, n - 1, Rotated(1, j));
    }
  }

  lemma {:induction false} ShiftTwice(cd: seq<bool>, m: nat, n: nat)
    requires |cd| == 56
    ensures Shift(Shift(cd, m), n) == Shift(cd, m + n)
  {
    if n > 0 {
      ShiftTwice(cd, m, n - 1);
    }
  }

  /** The total rotations of the table are the running sums of the per-round shifts. */
  lemma {:induction false} TotalRotation(key: seq<bv8>, i: nat)
    requires |key| == 8 && i < 16
    ensures Registers(key, i + 1) == Shift(PermutedChoice1(key), TOTROT[i])
  {
    if i > 0 {
      TotalRotation(key, i - 1);
      assert TOTROT[i] == TOTROT[i - 1] + LeftShifts(i) by { TotrotSteps(i); }
      ShiftTwice(PermutedChoice1(key), TOTROT[i - 1], LeftShifts(i));
    }
  }

  lemma TotrotSteps(i: nat)
    requires 0 < i < 16
    ensures TOTROT[i] == TOTROT[i - 1] + LeftShifts(i)
  {
    assert i == 1 || i == 2 || i == 3 || i == 4 || i == 5 || i == 6 || i == 7 || i == 8
        || i == 9 || i == 10 || i == 11 || i == 12 || i == 13 || i == 14 || i == 15;
  }

  /** Bitwise or: a name for `|` that proofs can hide. */
  function Or(x: bv32, y: bv32): bv32 { x | y }

  /** 24 of the bits that permuted choice 2 takes from the registers, most significant first. */
  function ChosenWord(cd: seq<bool>, half: nat, j: nat): bv32
    requires |cd| == 56 && half <= 1 && j <= 24
  {
    if j == 0 then 0
    else if cd[PC2[24 * half + j - 1]] then Or(ChosenWord(cd, half, j - 1), BIGBYTE[j - 1])
    else ChosenWord(cd, half, j - 1)
  }

  lemma TableLengths()
    ensures |PC2| == 48 && |BIGBYTE| == 24
  {}

  lemma ChosenNone(cd: seq<bool>)
    requires |cd| == 56
    ensures ChosenWord(cd, 0, 0) == 0 && ChosenWord(cd, 1, 0) == 0
  {}

  lemma ChosenNext(cd: seq<bool>, half: nat, j: nat)
    requires |cd| == 56 && half <= 1 && j < 24
    ensures ChosenWord(cd, half, j + 1)
         == if cd[PC2[24 * half + j]] then Or(ChosenWord(cd, half, j), BIGBYTE[j]) else ChosenWord(cd, half, j)
  {
    hide Or;
  }

  /** The two raw 24-bit words of round key i. */
  function RawKey(key: seq<bv8>, i: nat, half: nat): bv32
    requires |key| == 8 && i < 16 && half <= 1
  {
    ChosenWord(Registers(key, i + 1), half, 24)
  }

  // The six-bit groups of a raw word pair, spread over the two words that desfunc XORs in.

  function Cook0(raw0: bv32, raw1: bv32): bv32 {
    ((raw0 & 0x00fc0000) << 6) | ((raw0 & 0x00000fc0) << 10) | ((raw1 & 0x00fc0000) >> 10) | ((raw1 & 0x00000fc0) >> 6)
  }

  function Cook1(raw0: bv32, raw1: bv32): bv32 {
    ((raw0 & 0x0003f000) << 12) | ((raw0 & 0x0000003f) << 16) | ((raw1 & 0x0003f000) >> 4) | (raw1 & 0x0000003f)
  }

  /** The slot of round key i in the schedule, and the round key of slot i. */
  function Slot(edf: Mode, i: nat): (r: nat)
    requires i < 16
    ensures r < 16
  {
    if edf == DE1 then 15 - i else i
  }

  function CookedKey(key: seq<bv8>, i: nat): Pair
    requires |key| == 8 && i < 16
  {
    Pair(Cook0(RawKey(key, i, 0), RawKey(key, i, 1)), Cook1(RawKey(key, i, 0), RawKey(key, i, 1)))
  }

  /** What deskey leaves in KnL. */
  ghost predicate IsSchedule(k: seq<bv32>, key: seq<bv8>, edf: Mode) {
    && |k| == 32 && |key| == 8
    && forall i: nat :: i < 16 ==> KeyPair(k, i) == CookedKey(key, Slot(edf, i))
  }

  lemma CookedSchedule(kn: seq<bv32>, k: seq<bv32>, key: seq<bv8>, edf: Mode)
    requires |kn| == |k| == 32 && |key| == 8
    requires forall n: nat :: n < 16 ==> KeyPair(kn, n) == Pair(RawKey(key, Slot(edf, n), 0), RawKey(key, Slot(edf, n), 1))
    requires forall i :: 0 <= i < 16 ==>
      k[2 * i] == Cook0(kn[2 * i], kn[2 * i + 1]) && k[2 * i + 1] == Cook1(kn[2 * i], kn[2 * i + 1])
    ensures IsSchedule(k, key, edf)
  {
    hide Cook0;
    hide Cook1;
    hide RawKey;
    forall n: nat | n < 16
      ensures KeyPair(k, n) == CookedKey(key, Slot(edf, n))
    {
      assert KeyPair(kn, n) == Pair(RawKey(key, Slot(edf, n), 0), RawKey(key, Slot(edf, n), 1));
    }
  }

  /** DE1 stores the round keys in the order opposite to EN0. */
  lemma SchedulesAreReversed(e: seq<bv32>, d: seq<bv32>, key: seq<bv8>)
    requires IsSchedule(e, key, EN0) && IsSchedule(d, key, DE1)
    ensures KeysReversed(d, e)
  {
    hide CookedKey;
    hide KeyPair;
    forall i: nat | i < 16
      ensures KeyPair(d, i) == KeyPair(e, 15 - i)
    {
      assert Slot(DE1, i) == 15 - i == Slot(EN0, 15 - i);
    }
  }

  // ----- Blocks of bytes -----

  function Join(a: bv8, b: bv8, c: bv8, d: bv8): bv32 {
    (a as bv32 << 24) | (b as bv32 << 16) | (c as bv32 << 8) | (d as bv32)
  }

  function Word(b: seq<bv8>, i: nat): bv32
    requires i + 4 <= |b|
  {
    Join(b[i], b[i + 1], b[i + 2], b[i + 3])
  }

  function WordBytes(w: bv32): (b: seq<bv8>)
    ensures |b| == 4
  {
    [((w >> 24) & 0xff) as bv8, ((w >> 16) & 0xff) as bv8, ((w >> 8) & 0xff) as bv8, (w & 0xff) as bv8]
  }

  function Scrunch(b: seq<bv8>): Pair
    requires |b| == 8
  {
    Pair(Word(b, 0), Word(b, 4))
  }

  function Unscrun(p: Pair): (b: seq<bv8>)
    ensures |b| == 8
  {
    WordBytes(p.l) + WordBytes(p.r)
  }

  function DesBlock(t: Tables, k: seq<bv32>, b: seq<bv8>): (r: seq<bv8>)
    requires |k| == 32 && |b| == 8
    ensures |r| == 8
  {
    Unscrun(Core(t, k, Scrunch(b)))
  }

  /** The first byte of a block is the leftmost of its word. */
  lemma FirstIsLeft(a: bv8, b: bv8, c: bv8, d: bv8)
    ensures Join(a, b, c, d) >> 24 == a as bv32 && (Join(a, b, c, d) >> 16) & 0xff == b as bv32
    ensures (Join(a, b, c, d) >> 8) & 0xff == c as bv32 && Join(a, b, c, d) & 0xff == d as bv32
  {}

  lemma ByteOfWord(a: bv8, b: bv8, c: bv8, d: bv8)
    ensures WordBytes(Join(a, b, c, d)) == [a, b, c, d]
  {}

  lemma WordOfBytes(w: bv32)
    ensures Word(WordBytes(w), 0) == w
  {}

  lemma UnscrunScrunch(b: seq<bv8>)
    requires |b| == 8
    ensures Unscrun(Scrunch(b)) == b
  {
    hide WordBytes;
    hide Join;
    ByteOfWord(b[0], b[1], b[2], b[3]);
    ByteOfWord(b[4], b[5], b[6], b[7]);
  }

  lemma ScrunchUnscrun(p: Pair)
    ensures Scrunch(Unscrun(p)) == p
  {
    hide WordBytes;
    hide Join;
    WordOfBytes(p.l);
    WordOfBytes(p.r);
    var l, r := WordBytes(p.l), WordBytes(p.r);
    assert Unscrun(p) == [l[0], l[1], l[2], l[3], r[0], r[1], r[2], r[3]];
  }

  /** Deciphering undoes enciphering, and the other way round, for every key and block. */
  lemma DecipherUndoesEncipher(t: Tables, key: seq<bv8>, e: seq<bv32>, d: seq<bv32>, b: seq<bv8>)
    requires IsSchedule(e, key, EN0) && IsSchedule(d, key, DE1) && |b| == 8
    ensures DesBlock(t, d, DesBlock(t, e, b)) == b
    ensures DesBlock(t, e, DesBlock(t, d, b)) == b
  {
    hide Core;
    hide Scrunch;
    hide Unscrun;
    SchedulesAreReversed(e, d, key);
    ReversalIsSymmetric(d, e);
    CoreUndone(t, e, d, Scrunch(b));
    CoreUndone(t, d, e, Scrunch(b));
    ScrunchUnscrun(Core(t, e, Scrunch(b)));
    ScrunchUnscrun(Core(t, d, Scrunch(b)));
    UnscrunScrunch(b);
  }

  // ----- The methods -----

  /** The internal key register of d3des.c. */
  class KeyRegister {
    const KnL: array<bv32>

    constructor ()
      ensures fresh(KnL) && KnL.Length == 32
    {
      KnL := new bv32[32](_ => 0);
    }

    /** usekey: loads the register from a cooked key. */
    method Usekey(from: array<bv32>)
      requires KnL.Length == 32 && from.Length == 32
      modifies KnL
      ensures KnL[..] == old(from[..])
    {
      for n := 0 to 32
        invariant KnL[..n] == old(from[..n]) && (from != KnL ==> from[..] == old(from[..]))
        invariant from == KnL ==> KnL[..] == old(KnL[..])
      {
        KnL[n] := from[n];
      }
    }

    /** cookey: regroups sixteen raw word pairs and loads them. */
    method Cookey(raw: array<bv32>)
      requires KnL.Length == 32 && raw.Length == 32 && raw != KnL
      modifies KnL
      ensures forall i :: 0 <= i < 16 ==>
        KnL[2 * i] == Cook0(raw[2 * i], raw[2 * i + 1]) && KnL[2 * i + 1] == Cook1(raw[2 * i], raw[2 * i + 1])
    {
      hide Cook0;
      hide Cook1;
      var dough := new bv32[32];
      for i := 0 to 16
        invariant forall m :: 0 <= m < i ==>
          dough[2 * m] == Cook0(raw[2 * m], raw[2 * m + 1]) && dough[2 * m + 1] == Cook1(raw[2 * m], raw[2 * m + 1])
      {
        dough[2 * i] := Cook0(raw[2 * i], raw[2 * i + 1]);
        dough[2 * i + 1] := Cook1(raw[2 * i], raw[2 * i + 1]);
      }
      Usekey(dough);
      assert forall m :: 0 <= m < 32 ==> KnL[m] == KnL[..][m] == dough[..][m];
    }

    /** deskey. */
    method Deskey(key: seq<bv8>, edf: Mode)
      requires KnL.Length == 32 && |key| == 8
      modifies KnL
      ensures IsSchedule(KnL[..], key, edf)
    {
      hide Cook0;
      hide Cook1;
      hide RawKey;
      hide PermutedChoice1;
      hide ChosenWord;
      hide PC2;
      hide BIGBYTE;
      hide TOTROT;
      var pc1m := PermuteKey(key);
      var kn := new bv32[32];
      for i := 0 to 16
        invariant pc1m[..] == PermutedChoice1(key)
        invariant forall n: nat :: n < 16 && Slot(edf, n) < i ==>
          KeyPair(kn[..], n) == Pair(RawKey(key, Slot(edf, n), 0), RawKey(key, Slot(edf, n), 1))
      {
        var m := 2 * Slot(edf, i);
        kn[m], kn[m + 1] := RoundKeyWords(key, pc1m, i);
      }
      Cookey(kn);
      CookedSchedule(kn[..], KnL[..], key, edf);
    }

    /** des: one block of eight bytes, in place if the two arrays are one. */
    method EncipherBlock(t: Tables, inblock: array<bv8>, outblock: array<bv8>)
      requires KnL.Length == 32 && inblock.Length == 8 && outblock.Length == 8
      modifies outblock
      ensures outblock[..] == DesBlock(t, KnL[..], old(inblock[..]))
    {
      hide Core;
      hide Join;
      hide WordBytes;
      var work := new bv32[2];
      work[0] := Word(inblock[..], 0);
      work[1] := Word(inblock[..], 4);
      Desfunc(t, work, KnL);
      var l, r := WordBytes(work[0]), WordBytes(work[1]);
      for n := 0 to 4
        invariant forall m :: 0 <= m < n ==> outblock[m] == l[m]
      {
        outblock[n] := l[n];
      }
      for n := 0 to 4
        invariant forall m :: 0 <= m < 4 ==> outblock[m] == l[m]
        invariant forall m :: 0 <= m < n ==> outblock[4 + m] == r[m]
      {
        outblock[4 + n] := r[n];
      }
      assert outblock[..] == l + r;
    }
  }

  /** What is enciphered under a key is deciphered under the same key, wherever the block lies and also
      in place. */
  method BlockRoundTrip(t: Tables, kr: KeyRegister, key: seq<bv8>, inblock: array<bv8>, mid: array<bv8>, outblock: array<bv8>)
    requires kr.KnL.Length == 32 && |key| == 8
    requires inblock.Length == 8 && mid.Length == 8 && outblock.Length == 8
    modifies kr.KnL, mid, outblock
    ensures outblock[..] == old(inblock[..])
  {
    hide IsSchedule;
    hide DesBlock;
    ghost var b := inblock[..];
    kr.Deskey(key, EN0);
    ghost var e := kr.KnL[..];
    kr.EncipherBlock(t, inblock, mid);
    kr.Deskey(key, DE1);
    kr.EncipherBlock(t, mid, outblock);
    DecipherUndoesEncipher(t, key, e, kr.KnL[..], b);
  }

  /** deskey's first loop: the 56 key bits that permuted choice 1 keeps. */
  method PermuteKey(key: seq<bv8>) returns (pc1m: array<bool>)
    requires |key| == 8
    ensures fresh(pc1m) && pc1m.Length == 56 && pc1m[..] == PermutedChoice1(key)
  {
    pc1m := new bool[56];
    for j := 0 to 56
      invariant forall m :: 0 <= m < j ==> pc1m[m] == PermutedChoice1(key)[m]
    {
      var l := PC1[j];
      pc1m[j] := key[l / 8] & BYTEBIT[l % 8] != 0;
    }
  }

  /** deskey's rotation loops, one for each register. */
  method RotateRegisters(pc1m: array<bool>, rot: Rotation) returns (pcr: array<bool>)
    requires pc1m.Length == 56
    ensures fresh(pcr) && pcr.Length == 56 && pcr[..] == Shift(pc1m[..], rot)
  {
    hide Shift;
    pcr := new bool[56];
    for j := 0 to 28
      invariant forall m :: 0 <= m < j ==> pcr[m] == Shift(pc1m[..], rot)[m]
    {
      ShiftRotates(pc1m[..], rot, j);
      var l: nat := j + rot;
      pcr[j] := if l < 28 then pc1m[l] else pc1m[l - 28];
    }
    for j := 28 to 56
      invariant forall m :: 0 <= m < j ==> pcr[m] == Shift(pc1m[..], rot)[m]
    {
      ShiftRotates(pc1m[..], rot, j);
      var l: nat := j + rot;
      pcr[j] := if l < 56 then pc1m[l] else pc1m[l - 28];
    }
  }

  /** The body of deskey's round loop: rotates the registers and picks the two raw words. */
  method RoundKeyWords(key: seq<bv8>, pc1m: array<bool>, i: nat) returns (k0: bv32, k1: bv32)
    requires |key| == 8 && i < 16 && pc1m.Length == 56 && pc1m[..] == PermutedChoice1(key)
    ensures k0 == RawKey(key, i, 0) && k1 == RawKey(key, i, 1)
  {
    hide PermutedChoice1;
    hide Shift;
    hide Registers;
    hide Or;
    hide ChosenWord;
    hide PC2;
    hide BIGBYTE;
    TableLengths();
    TotalRotation(key, i);
    ChosenNone(Registers(key, i + 1));
    var pcr := RotateRegisters(pc1m, TOTROT[i]);
    ghost var cd := pcr[..];
    k0, k1 := 0, 0;
    for j := 0 to 24
      invariant cd == pcr[..] && k0 == ChosenWord(cd, 0, j) && k1 == ChosenWord(cd, 1, j)
    {
      ChosenNext(cd, 0, j);
      ChosenNext(cd, 1, j);
      if pcr[PC2[j]] {
        k0 := Or(k0, BIGBYTE[j]);
      }
      if pcr[PC2[j + 24]] {
        k1 := Or(k1, BIGBYTE[j]);
      }
    }
  }
}
