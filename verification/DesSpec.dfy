/** DES as FIPS 46-3 describes it, by bit numbers counted from the left, and the code of d3des.c against
    it, for any S-boxes: the initial permutation, the expansion, the choice of key bits and the sixteen
    rounds. */
module DesSpec {
  import opened Des
  import opened DesKey

  // ----- Bits by number -----

  /** The word in which bit n alone is set, counting from 1 at the left. */
  function Mask(n: nat): bv32
    requires 1 <= n <= 32
  {
    if n == 1 then 0x8000_0000 else if n == 2 then 0x4000_0000 else if n == 3 then 0x2000_0000 else if n == 4 then 0x1000_0000
    else if n == 5 then 0x0800_0000 else if n == 6 then 0x0400_0000 else if n == 7 then 0x0200_0000 else if n == 8 then 0x0100_0000
    else if n == 9 then 0x0080_0000 else if n == 10 then 0x0040_0000 else if n == 11 then 0x0020_0000 else if n == 12 then 0x0010_0000
    else if n == 13 then 0x0008_0000 else if n == 14 then 0x0004_0000 else if n == 15 then 0x0002_0000 else if n == 16 then 0x0001_0000
    else if n == 17 then 0x0000_8000 else if n == 18 then 0x0000_4000 else if n == 19 then 0x0000_2000 else if n == 20 then 0x0000_1000
    else if n == 21 then 0x0000_0800 else if n == 22 then 0x0000_0400 else if n == 23 then 0x0000_0200 else if n == 24 then 0x0000_0100
    else if n == 25 then 0x0000_0080 else if n == 26 then 0x0000_0040 else if n == 27 then 0x0000_0020 else if n == 28 then 0x0000_0010
    else if n == 29 then 0x0000_0008 else if n == 30 then 0x0000_0004 else if n == 31 then 0x0000_0002 else 0x0000_0001
  }

  predicate Bit(x: bv32, n: nat)
    requires 1 <= n <= 32
  {
    x & Mask(n) != 0
  }

  // ----- The cipher function f -----

  /** Bit i of group j of the expansion E is this bit of the half block: the groups overlap by two bits and
      go round. */
  function E(j: nat, i: nat): (n: nat)
    requires 1 <= j <= 8 && i < 6
    ensures 1 <= n <= 32
  {
    var n := 4 * j - 4 + i;
    if n == 0 then 32 else if n == 33 then 1 else n
  }

  /** Group j of a round key: where it lies in the two words that desfunc works with. */
  function KeyGroup(k: Pair, j: nat): bv32
    requires 1 <= j <= 8
  {
    var w := if j % 2 == 1 then k.l else k.r;
    if j <= 2 then Six24(w) else if j <= 4 then Six16(w) else if j <= 6 then Six8(w) else Six0(w)
  }

  function Part(chosen: bool, bit: bv32): bv32 { if chosen then bit else 0 }

  function Six(a: bool, b: bool, c: bool, d: bool, e: bool, f: bool): bv32 {
    SixOf(Part(a, 0x20), Part(b, 0x10), Part(c, 0x08), Part(d, 0x04), Part(e, 0x02), Part(f, 0x01))
  }

  function SixOf(a: bv32, b: bv32, c: bv32, d: bv32, e: bv32, f: bv32): bv32 {
    Or(Or(Or(Or(Or(a, b), c), d), e), f)
  }

  /** The six bits that S-box j is given: the group of the expansion, exclusive-or that of the key. */
  function BoxInput(r: bv32, k: Pair, j: nat): bv32
    requires 1 <= j <= 8
  {
    Xor(Six(Bit(r, E(j, 0)), Bit(r, E(j, 1)), Bit(r, E(j, 2)), Bit(r, E(j, 3)), Bit(r, E(j, 4)), Bit(r, E(j, 5))),
        KeyGroup(k, j))
  }

  /** The boxes with their permutation P, as the tables hold them, on the eight groups. */
  function Boxes(t: Tables, r: bv32, k: Pair): bv32 {
    t.sp7(BoxInput(r, k, 7)) | t.sp5(BoxInput(r, k, 5)) | t.sp3(BoxInput(r, k, 3)) | t.sp1(BoxInput(r, k, 1)) |
    t.sp8(BoxInput(r, k, 8)) | t.sp6(BoxInput(r, k, 6)) | t.sp4(BoxInput(r, k, 4)) | t.sp2(BoxInput(r, k, 2))
  }

  lemma Box1(r: bv32, k: Pair)
    ensures Six24(Turned(Rotl(r), k.l)) == BoxInput(r, k, 1)
  {}

  lemma Box2(r: bv32, k: Pair)
    ensures Six24(Xor(Rotl(r), k.r)) == BoxInput(r, k, 2)
  {}

  lemma Box3(r: bv32, k: Pair)
    ensures Six16(Turned(Rotl(r), k.l)) == BoxInput(r, k, 3)
  {}

  lemma Box4(r: bv32, k: Pair)
    ensures Six16(Xor(Rotl(r), k.r)) == BoxInput(r, k, 4)
  {}

  lemma Box5(r: bv32, k: Pair)
    ensures Six8(Turned(Rotl(r), k.l)) == BoxInput(r, k, 5)
  {}

  lemma Box6(r: bv32, k: Pair)
    ensures Six8(Xor(Rotl(r), k.r)) == BoxInput(r, k, 6)
  {}

  lemma Box7(r: bv32, k: Pair)
    ensures Six0(Turned(Rotl(r), k.l)) == BoxInput(r, k, 7)
  {}

  lemma Box8(r: bv32, k: Pair)
    ensures Six0(Xor(Rotl(r), k.r)) == BoxInput(r, k, 8)
  {}

  /** The round function looks into each table at the group of E that belongs to it, with its part of the
      round key, of a half that is kept rotated by one bit. */
  lemma FIsBoxes(t: Tables, r: bv32, k: Pair)
    ensures F(t, Rotl(r), k.l, k.r) == Boxes(t, r, k)
  {
    hide Rotl;
    hide BoxInput;
    hide Turned;
    hide Xor;
    hide Six0;
    hide Six8;
    hide Six16;
    hide Six24;
    Box1(r, k);
    Box2(r, k);
    Box3(r, k);
    Box4(r, k);
    Box5(r, k);
    Box6(r, k);
    Box7(r, k);
    Box8(r, k);
  }

  // ----- The initial permutation -----

  /** Bit m of a block of 64. */
  predicate BlockBit(b: Pair, m: nat)
    requires 1 <= m <= 64
  {
    if m <= 32 then Bit(b.l, m) else Bit(b.r, m - 32)
  }

  /** The table IP: the even bits, then the odd ones, each row from its end. */
  function Ip(row: nat, col: nat): (m: nat)
    requires row < 8 && col < 8
    ensures 1 <= m <= 64
  {
    (if row < 4 then 58 + 2 * row else 57 + 2 * (row - 4)) - 8 * col
  }

  /** A row of the permuted block, as a byte. */
  function Row(b: Pair, row: nat): bv32
    requires row < 8
  {
    (if BlockBit(b, Ip(row, 0)) then 0x80 else 0) | (if BlockBit(b, Ip(row, 1)) then 0x40 else 0) |
    (if BlockBit(b, Ip(row, 2)) then 0x20 else 0) | (if BlockBit(b, Ip(row, 3)) then 0x10 else 0) |
    (if BlockBit(b, Ip(row, 4)) then 0x08 else 0) | (if BlockBit(b, Ip(row, 5)) then 0x04 else 0) |
    (if BlockBit(b, Ip(row, 6)) then 0x02 else 0) | (if BlockBit(b, Ip(row, 7)) then 0x01 else 0)
  }

  function FourBytes(a: bv32, b: bv32, c: bv32, d: bv32): bv32 { (a << 24) | (b << 16) | (c << 8) | d }

  /** IP. */
  function Permuted(b: Pair): Pair {
    Pair(FourBytes(Row(b, 0), Row(b, 1), Row(b, 2), Row(b, 3)), FourBytes(Row(b, 4), Row(b, 5), Row(b, 6), Row(b, 7)))
  }

  function RotlBoth(p: Pair): Pair { Pair(Rotl(p.l), Rotl(p.r)) }

  lemma Row0(b: Pair)
    ensures Rotr(Initial(b).l) >> 24 == Row(b, 0)
  {}

  lemma Row1(b: Pair)
    ensures (Rotr(Initial(b).l) >> 16) & 0xff == Row(b, 1)
  {}

  lemma Row2(b: Pair)
    ensures (Rotr(Initial(b).l) >> 8) & 0xff == Row(b, 2)
  {}

  lemma Row3(b: Pair)
    ensures Rotr(Initial(b).l) & 0xff == Row(b, 3)
  {}

  lemma Row4(b: Pair)
    ensures Rotr(Initial(b).r) >> 24 == Row(b, 4)
  {}

  lemma Row5(b: Pair)
    ensures (Rotr(Initial(b).r) >> 16) & 0xff == Row(b, 5)
  {}

  lemma Row6(b: Pair)
    ensures (Rotr(Initial(b).r) >> 8) & 0xff == Row(b, 6)
  {}

  lemma Row7(b: Pair)
    ensures Rotr(Initial(b).r) & 0xff == Row(b, 7)
  {}

  lemma BytesOf(x: bv32)
    ensures FourBytes(x >> 24, (x >> 16) & 0xff, (x >> 8) & 0xff, x & 0xff) == x
  {}

  /** The five swaps are IP, each half rotated by one bit. */
  lemma InitialIsIp(b: Pair)
    ensures Initial(b) == RotlBoth(Permuted(b))
  {
    hide Initial;
    hide Rotl;
    hide Rotr;
    hide Row;
    hide FourBytes;
    Row0(b);
    Row1(b);
    Row2(b);
    Row3(b);
    Row4(b);
    Row5(b);
    Row6(b);
    Row7(b);
    BytesOf(Rotr(Initial(b).l));
    BytesOf(Rotr(Initial(b).r));
    RotrRotl(Initial(b).l);
    RotrRotl(Initial(b).r);
  }

  // ----- The sixteen rounds -----

  /** The cipher function, with the tables' rotation taken back. */
  function Cipher(t: Tables, r: bv32, k: Pair): bv32 { Rotr(Boxes(t, r, k)) }

  function Round(t: Tables, k: Pair, p: Pair): Pair { Pair(p.r, Xor(p.l, Cipher(t, p.r, k))) }

  function FipsRounds(t: Tables, k: seq<bv32>, n: nat, p: Pair): Pair
    requires 2 * n <= |k|
  {
    if n == 0 then p else Round(t, KeyPair(k, n - 1), FipsRounds(t, k, n - 1, p))
  }

  lemma RotlXor(x: bv32, y: bv32)
    ensures Rotl(Xor(x, y)) == Xor(Rotl(x), Rotl(y))
  {}

  lemma FeistelIsRounds(t: Tables, first: Pair, second: Pair, p: Pair)
    ensures Feistel(t, first, second, RotlBoth(p)) == RotlBoth(Round(t, second, Round(t, first, p)))
  {
    hide F;
    hide Rotl;
    hide Rotr;
    hide Xor;
    hide Boxes;
    var l := Xor(p.l, Cipher(t, p.r, first));
    FIsBoxes(t, p.r, first);
    RotrRotl(Boxes(t, p.r, first));
    RotlXor(p.l, Cipher(t, p.r, first));
    FIsBoxes(t, l, second);
    RotrRotl(Boxes(t, l, second));
    RotlXor(p.r, Cipher(t, l, second));
  }

  lemma {:induction false} LoopIsRounds(t: Tables, k: seq<bv32>, n: nat, p: Pair)
    requires 4 * n <= |k|
    ensures Rounds(t, k, n, RotlBoth(p)) == RotlBoth(FipsRounds(t, k, 2 * n, p))
  {
    hide Feistel;
    hide Round;
    hide RotlBoth;
    if n > 0 {
      LoopIsRounds(t, k, n - 1, p);
      var q := FipsRounds(t, k, 2 * n - 2, p);
      FeistelIsRounds(t, KeyPair(k, 2 * n - 2), KeyPair(k, 2 * n - 1), q);
      assert FipsRounds(t, k, 2 * n - 1, p) == Round(t, KeyPair(k, 2 * n - 2), q);
    }
  }

  lemma RotlInjective(p: Pair, q: Pair)
    requires RotlBoth(p) == RotlBoth(q)
    ensures p == q
  {
    hide Rotl;
    hide Rotr;
    RotrRotl(p.l);
    RotrRotl(p.r);
    RotrRotl(q.l);
    RotrRotl(q.r);
  }

  /** desfunc is DES: IP of what it puts out is IP of what it is given, after the sixteen rounds and with
      the halves exchanged. */
  lemma CoreIsDes(t: Tables, k: seq<bv32>, b: Pair)
    requires |k| == 32
    ensures Permuted(Core(t, k, b)) == Flip(FipsRounds(t, k, 16, Permuted(b)))
  {
    hide Initial;
    hide Final;
    hide Rotl;
    hide Permuted;
    hide FipsRounds;
    var c := Core(t, k, b);
    InitialIsIp(b);
    InitialIsIp(c);
    LoopIsRounds(t, k, 8, Permuted(b));
    InitialUndoesFinal(Rounds(t, k, 8, Initial(b)));
    RotlInjective(Permuted(c), Flip(FipsRounds(t, k, 16, Permuted(b))));
  }

  // ----- The round keys -----

  function Cooked(raw0: bv32, raw1: bv32): Pair { Pair(Cook0(raw0, raw1), Cook1(raw0, raw1)) }

  lemma Cooked1(raw0: bv32, raw1: bv32)
    ensures KeyGroup(Cooked(raw0, raw1), 1) == RawGroup(raw0, 0)
  {}

  lemma Cooked2(raw0: bv32, raw1: bv32)
    ensures KeyGroup(Cooked(raw0, raw1), 2) == RawGroup(raw0, 1)
  {}

  lemma Cooked3(raw0: bv32, raw1: bv32)
    ensures KeyGroup(Cooked(raw0, raw1), 3) == RawGroup(raw0, 2)
  {}

  lemma Cooked4(raw0: bv32, raw1: bv32)
    ensures KeyGroup(Cooked(raw0, raw1), 4) == RawGroup(raw0, 3)
  {}

  lemma Cooked5(raw0: bv32, raw1: bv32)
    ensures KeyGroup(Cooked(raw0, raw1), 5) == RawGroup(raw1, 0)
  {}

  lemma Cooked6(raw0: bv32, raw1: bv32)
    ensures KeyGroup(Cooked(raw0, raw1), 6) == RawGroup(raw1, 1)
  {}

  lemma Cooked7(raw0: bv32, raw1: bv32)
    ensures KeyGroup(Cooked(raw0, raw1), 7) == RawGroup(raw1, 2)
  {}

  lemma Cooked8(raw0: bv32, raw1: bv32)
    ensures KeyGroup(Cooked(raw0, raw1), 8) == RawGroup(raw1, 3)
  {}

  /** Group g of a raw word of 24 bits. */
  function RawGroup(raw: bv32, g: nat): bv32
    requires g < 4
  {
    if g == 0 then (raw >> 18) & 0x3f else if g == 1 then (raw >> 12) & 0x3f else if g == 2 then (raw >> 6) & 0x3f else raw & 0x3f
  }

  /** Six of the bits that permuted choice 2 picks. */
  function Chosen(cd: seq<bool>, j: nat): bv32
    requires |cd| == 56 && 1 <= j <= 8
  {
    var n := 6 * (j - 1);
    Six(cd[PC2[n]], cd[PC2[n + 1]], cd[PC2[n + 2]], cd[PC2[n + 3]], cd[PC2[n + 4]], cd[PC2[n + 5]])
  }

  /** A group at its place in a raw word. */
  function Placed(six: bv32, g: nat): bv32
    requires g < 4
  {
    if g == 0 then Left18(six) else if g == 1 then Left12(six) else if g == 2 then Left6(six) else six
  }

  function Left18(x: bv32): bv32 { x << 18 }

  function Left12(x: bv32): bv32 { x << 12 }

  function Left6(x: bv32): bv32 { x << 6 }

  function AddBit(x: bv32, chosen: bool, bit: bv32): bv32 { if chosen then Or(x, bit) else x }

  lemma AddBitIs(x: bv32, chosen: bool, bit: bv32, g: nat)
    requires g < 4
    ensures AddBit(x, chosen, Placed(bit, g)) == Or(x, Placed(Part(chosen, bit), g))
  {}

  lemma OrAssoc(x: bv32, a: bv32, b: bv32)
    ensures Or(Or(x, a), b) == Or(x, Or(a, b))
  {}

  lemma PlacedOr(a: bv32, b: bv32, g: nat)
    requires g < 4 && a <= 0x3f && b <= 0x3f
    ensures Or(Placed(a, g), Placed(b, g)) == Placed(Or(a, b), g) && Or(a, b) <= 0x3f
  {
    hide Or;
    hide Left18;
    hide Left12;
    hide Left6;
    Shifted18(a, b);
    Shifted12(a, b);
    Shifted6(a, b);
  }

  lemma Shifted18(a: bv32, b: bv32)
    requires a <= 0x3f && b <= 0x3f
    ensures Or(Left18(a), Left18(b)) == Left18(Or(a, b))
  {}

  lemma Shifted12(a: bv32, b: bv32)
    requires a <= 0x3f && b <= 0x3f
    ensures Or(Left12(a), Left12(b)) == Left12(Or(a, b))
  {}

  lemma Shifted6(a: bv32, b: bv32)
    requires a <= 0x3f && b <= 0x3f
    ensures Or(Left6(a), Left6(b)) == Left6(Or(a, b)) && Or(a, b) <= 0x3f
  {}

  lemma AllPlaced(x: bv32, a: bv32, b: bv32, c: bv32, d: bv32, e: bv32, f: bv32, g: nat)
    requires g < 4 && a <= 0x3f && b <= 0x3f && c <= 0x3f && d <= 0x3f && e <= 0x3f && f <= 0x3f
    ensures Or(Or(Or(Or(Or(Or(x, Placed(a, g)), Placed(b, g)), Placed(c, g)), Placed(d, g)), Placed(e, g)), Placed(f, g))
         == Or(x, Placed(SixOf(a, b, c, d, e, f), g))
  {
    hide Or;
    hide Placed;
    var ab := Or(a, b);
    var abc := Or(ab, c);
    var abcd := Or(abc, d);
    var abcde := Or(abcd, e);
    OrAssoc(x, Placed(a, g), Placed(b, g));
    PlacedOr(a, b, g);
    OrAssoc(x, Placed(ab, g), Placed(c, g));
    PlacedOr(ab, c, g);
    OrAssoc(x, Placed(abc, g), Placed(d, g));
    PlacedOr(abc, d, g);
    OrAssoc(x, Placed(abcd, g), Placed(e, g));
    PlacedOr(abcd, e, g);
    OrAssoc(x, Placed(abcde, g), Placed(f, g));
    PlacedOr(abcde, f, g);
  }

  lemma PartIsSmall(chosen: bool, bit: bv32)
    requires bit <= 0x3f
    ensures Part(chosen, bit) <= 0x3f
  {}

  lemma SixMore(x: bv32, a: bool, b: bool, c: bool, d: bool, e: bool, f: bool, g: nat)
    requires g < 4
    ensures var xa := AddBit(x, a, Placed(0x20, g));
      var xb := AddBit(xa, b, Placed(0x10, g));
      var xc := AddBit(xb, c, Placed(0x08, g));
      var xd := AddBit(xc, d, Placed(0x04, g));
      var xe := AddBit(xd, e, Placed(0x02, g));
      AddBit(xe, f, Placed(0x01, g)) == Or(x, Placed(Six(a, b, c, d, e, f), g))
  {
    hide AddBit;
    hide Placed;
    hide Or;
    hide Part;
    hide SixOf;
    var xa := AddBit(x, a, Placed(0x20, g));
    var xb := AddBit(xa, b, Placed(0x10, g));
    var xc := AddBit(xb, c, Placed(0x08, g));
    var xd := AddBit(xc, d, Placed(0x04, g));
    var xe := AddBit(xd, e, Placed(0x02, g));
    AddBitIs(x, a, 0x20, g);
    AddBitIs(xa, b, 0x10, g);
    AddBitIs(xb, c, 0x08, g);
    AddBitIs(xc, d, 0x04, g);
    AddBitIs(xd, e, 0x02, g);
    AddBitIs(xe, f, 0x01, g);
    PartIsSmall(a, 0x20);
    PartIsSmall(b, 0x10);
    PartIsSmall(c, 0x08);
    PartIsSmall(d, 0x04);
    PartIsSmall(e, 0x02);
    PartIsSmall(f, 0x01);
    AllPlaced(x, Part(a, 0x20), Part(b, 0x10), Part(c, 0x08), Part(d, 0x04), Part(e, 0x02), Part(f, 0x01), g);
  }

  // The bits of a raw word, by group and place.

  lemma BigBytes0()
    ensures |BIGBYTE| == 24
    ensures BIGBYTE[0] == Placed(0x20, 0) && BIGBYTE[1] == Placed(0x10, 0) && BIGBYTE[2] == Placed(0x08, 0)
    ensures BIGBYTE[3] == Placed(0x04, 0) && BIGBYTE[4] == Placed(0x02, 0) && BIGBYTE[5] == Placed(0x01, 0)
  {}

  lemma BigBytes1()
    ensures |BIGBYTE| == 24
    ensures BIGBYTE[6] == Placed(0x20, 1) && BIGBYTE[7] == Placed(0x10, 1) && BIGBYTE[8] == Placed(0x08, 1)
    ensures BIGBYTE[9] == Placed(0x04, 1) && BIGBYTE[10] == Placed(0x02, 1) && BIGBYTE[11] == Placed(0x01, 1)
  {}

  lemma BigBytes2()
    ensures |BIGBYTE| == 24
    ensures BIGBYTE[12] == Placed(0x20, 2) && BIGBYTE[13] == Placed(0x10, 2) && BIGBYTE[14] == Placed(0x08, 2)
    ensures BIGBYTE[15] == Placed(0x04, 2) && BIGBYTE[16] == Placed(0x02, 2) && BIGBYTE[17] == Placed(0x01, 2)
  {}

  lemma BigBytes3()
    ensures |BIGBYTE| == 24
    ensures BIGBYTE[18] == Placed(0x20, 3) && BIGBYTE[19] == Placed(0x10, 3) && BIGBYTE[20] == Placed(0x08, 3)
    ensures BIGBYTE[21] == Placed(0x04, 3) && BIGBYTE[22] == Placed(0x02, 3) && BIGBYTE[23] == Placed(0x01, 3)
  {}

  lemma ChosenBit(cd: seq<bool>, half: nat, j: nat)
    requires |cd| == 56 && half <= 1 && j < 24
    ensures ChosenWord(cd, half, j + 1) == AddBit(ChosenWord(cd, half, j), cd[PC2[24 * half + j]], BIGBYTE[j])
  {
    hide Or;
    hide ChosenWord;
    ChosenNext(cd, half, j);
  }

  lemma Chosen0(cd: seq<bool>, half: nat)
    requires |cd| == 56 && half <= 1
    ensures ChosenWord(cd, half, 6) == Or(ChosenWord(cd, half, 0), Placed(Chosen(cd, 4 * half + 1), 0))
  {
    hide *;
    TableLengths();
    BigBytes0();
    var n := 24 * half + 0;
    ChosenBit(cd, half, 0);
    ChosenBit(cd, half, 1);
    ChosenBit(cd, half, 2);
    ChosenBit(cd, half, 3);
    ChosenBit(cd, half, 4);
    ChosenBit(cd, half, 5);
    ChosenIs(cd, 4 * half + 1, n);
    SixMore(ChosenWord(cd, half, 0), cd[PC2[n]], cd[PC2[n + 1]], cd[PC2[n + 2]], cd[PC2[n + 3]], cd[PC2[n + 4]], cd[PC2[n + 5]], 0);
  }

  lemma Chosen1(cd: seq<bool>, half: nat)
    requires |cd| == 56 && half <= 1
    ensures ChosenWord(cd, half, 12) == Or(ChosenWord(cd, half, 6), Placed(Chosen(cd, 4 * half + 2), 1))
  {
    hide *;
    TableLengths();
    BigBytes1();
    var n := 24 * half + 6;
    ChosenBit(cd, half, 6);
    ChosenBit(cd, half, 7);
    ChosenBit(cd, half, 8);
    ChosenBit(cd, half, 9);
    ChosenBit(cd, half, 10);
    ChosenBit(cd, half, 11);
    ChosenIs(cd, 4 * half + 2, n);
    SixMore(ChosenWord(cd, half, 6), cd[PC2[n]], cd[PC2[n + 1]], cd[PC2[n + 2]], cd[PC2[n + 3]], cd[PC2[n + 4]], cd[PC2[n + 5]], 1);
  }

  lemma Chosen2(cd: seq<bool>, half: nat)
    requires |cd| == 56 && half <= 1
    ensures ChosenWord(cd, half, 18) == Or(ChosenWord(cd, half, 12), Placed(Chosen(cd, 4 * half + 3), 2))
  {
    hide *;
    TableLengths();
    BigBytes2();
    var n := 24 * half + 12;
    ChosenBit(cd, half, 12);
    ChosenBit(cd, half, 13);
    ChosenBit(cd, half, 14);
    ChosenBit(cd, half, 15);
    ChosenBit(cd, half, 16);
    ChosenBit(cd, half, 17);
    ChosenIs(cd, 4 * half + 3, n);
    SixMore(ChosenWord(cd, half, 12), cd[PC2[n]], cd[PC2[n + 1]], cd[PC2[n + 2]], cd[PC2[n + 3]], cd[PC2[n + 4]], cd[PC2[n + 5]], 2);
  }

  lemma Chosen3(cd: seq<bool>, half: nat)
    requires |cd| == 56 && half <= 1
    ensures ChosenWord(cd, half, 24) == Or(ChosenWord(cd, half, 18), Placed(Chosen(cd, 4 * half + 4), 3))
  {
    hide *;
    TableLengths();
    BigBytes3();
    var n := 24 * half + 18;
    ChosenBit(cd, half, 18);
    ChosenBit(cd, half, 19);
    ChosenBit(cd, half, 20);
    ChosenBit(cd, half, 21);
    ChosenBit(cd, half, 22);
    ChosenBit(cd, half, 23);
    ChosenIs(cd, 4 * half + 4, n);
    SixMore(ChosenWord(cd, half, 18), cd[PC2[n]], cd[PC2[n + 1]], cd[PC2[n + 2]], cd[PC2[n + 3]], cd[PC2[n + 4]], cd[PC2[n + 5]], 3);
  }

  lemma ChosenIs(cd: seq<bool>, j: nat, n: nat)
    requires |cd| == 56 && 1 <= j <= 8 && n == 6 * (j - 1)
    ensures n + 6 <= |PC2|
    ensures Chosen(cd, j) == Six(cd[PC2[n]], cd[PC2[n + 1]], cd[PC2[n + 2]], cd[PC2[n + 3]], cd[PC2[n + 4]], cd[PC2[n + 5]])
  {
    hide Six;
    hide PC2;
    TableLengths();
  }

  lemma SixIsSmall(a: bool, b: bool, c: bool, d: bool, e: bool, f: bool)
    ensures Six(a, b, c, d, e, f) <= 0x3f
  {}

  lemma GroupsOf(a: bv32, b: bv32, c: bv32, d: bv32)
    requires a <= 0x3f && b <= 0x3f && c <= 0x3f && d <= 0x3f
    ensures var raw := Or(Or(Or(Or(0, Placed(a, 0)), Placed(b, 1)), Placed(c, 2)), Placed(d, 3));
      RawGroup(raw, 0) == a && RawGroup(raw, 1) == b && RawGroup(raw, 2) == c && RawGroup(raw, 3) == d
  {}

  lemma RawGroups(cd: seq<bool>, half: nat)
    requires |cd| == 56 && half <= 1
    ensures var raw := ChosenWord(cd, half, 24);
      && RawGroup(raw, 0) == Chosen(cd, 4 * half + 1) && RawGroup(raw, 1) == Chosen(cd, 4 * half + 2)
      && RawGroup(raw, 2) == Chosen(cd, 4 * half + 3) && RawGroup(raw, 3) == Chosen(cd, 4 * half + 4)
  {
    hide *;
    ChosenNone(cd);
    Chosen0(cd, half);
    Chosen1(cd, half);
    Chosen2(cd, half);
    Chosen3(cd, half);
    ChosenIsSmall(cd, 4 * half + 1);
    ChosenIsSmall(cd, 4 * half + 2);
    ChosenIsSmall(cd, 4 * half + 3);
    ChosenIsSmall(cd, 4 * half + 4);
    GroupsOf(Chosen(cd, 4 * half + 1), Chosen(cd, 4 * half + 2), Chosen(cd, 4 * half + 3), Chosen(cd, 4 * half + 4));
  }

  lemma ChosenIsSmall(cd: seq<bool>, j: nat)
    requires |cd| == 56 && 1 <= j <= 8
    ensures Chosen(cd, j) <= 0x3f
  {
    hide Six;
    hide PC2;
    TableLengths();
    var n := 6 * (j - 1);
    SixIsSmall(cd[PC2[n]], cd[PC2[n + 1]], cd[PC2[n + 2]], cd[PC2[n + 3]], cd[PC2[n + 4]], cd[PC2[n + 5]]);
  }

  /** Group j of a round key is the six bits that permuted choice 2 picks for it from the shifted
      registers. */
  lemma KeyGroupIs(key: seq<bv8>, i: nat, j: nat)
    requires |key| == 8 && i < 16 && 1 <= j <= 8
    ensures KeyGroup(CookedKey(key, i), j) == Chosen(Registers(key, i + 1), j)
  {
    hide Registers;
    hide ChosenWord;
    hide Cook0;
    hide Cook1;
    hide KeyGroup;
    hide RawGroup;
    hide Chosen;
    var raw0, raw1 := RawKey(key, i, 0), RawKey(key, i, 1);
    RawGroups(Registers(key, i + 1), 0);
    RawGroups(Registers(key, i + 1), 1);
    Cooked1(raw0, raw1);
    Cooked2(raw0, raw1);
    Cooked3(raw0, raw1);
    Cooked4(raw0, raw1);
    Cooked5(raw0, raw1);
    Cooked6(raw0, raw1);
    Cooked7(raw0, raw1);
    Cooked8(raw0, raw1);
    assert j == 1 || j == 2 || j == 3 || j == 4 || j == 5 || j == 6 || j == 7 || j == 8;
  }

  /** In round i, S-box j is given group j of E(R), exclusive-or the bits that permuted choice 2 picks for it
      from the registers after i + 1 shifts. */
  lemma RoundInput(key: seq<bv8>, k: seq<bv32>, i: nat, r: bv32, j: nat)
    requires IsSchedule(k, key, EN0) && i < 16 && 1 <= j <= 8
    ensures BoxInput(r, KeyPair(k, i), j)
         == Xor(Six(Bit(r, E(j, 0)), Bit(r, E(j, 1)), Bit(r, E(j, 2)), Bit(r, E(j, 3)), Bit(r, E(j, 4)), Bit(r, E(j, 5))),
                Chosen(Registers(key, i + 1), j))
  {
    hide Six;
    hide Bit;
    hide Chosen;
    hide KeyGroup;
    hide CookedKey;
    hide KeyPair;
    hide Registers;
    KeyGroupIs(key, i, j);
  }
}
