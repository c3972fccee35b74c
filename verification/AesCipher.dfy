/** The AES block cipher: FIPS 197's rounds as the reference, the table-driven double-round
    loops of AES_encrypt and AES_decrypt proved equal to them, and the theorem that
    decryption under the reversed, InvMixColumns-transformed schedule undoes encryption. */
module AesCipher {
  import opened AesField
  import opened Common

  /** The S-box and its inverse. Nothing but `Valid` is ever used of them. */
  datatype SBox = SBox(sub: bv8 -> bv8, inv: bv8 -> bv8) {
    ghost predicate Valid() {
      forall x: bv8 :: inv(sub(x)) == x
    }

    // The tables, from the formulas in the header comment of aes.c.
    function Te0(x: bv8): bv32 { var s := sub(x); Pack(Column(Mul(2, s), s, s, Mul(3, s))) }
    function Te1(x: bv8): bv32 { var s := sub(x); Pack(Column(Mul(3, s), Mul(2, s), s, s)) }
    function Te2(x: bv8): bv32 { var s := sub(x); Pack(Column(s, Mul(3, s), Mul(2, s), s)) }
    function Te3(x: bv8): bv32 { var s := sub(x); Pack(Column(s, s, Mul(3, s), Mul(2, s))) }
    function Te4(x: bv8): bv32 { var s := sub(x); Pack(Column(s, s, s, s)) }
    function Td0(x: bv8): bv32 { var s := inv(x); Pack(Column(Mul(14, s), Mul(9, s), Mul(13, s), Mul(11, s))) }
    function Td1(x: bv8): bv32 { var s := inv(x); Pack(Column(Mul(11, s), Mul(14, s), Mul(9, s), Mul(13, s))) }
    function Td2(x: bv8): bv32 { var s := inv(x); Pack(Column(Mul(13, s), Mul(11, s), Mul(14, s), Mul(9, s))) }
    function Td3(x: bv8): bv32 { var s := inv(x); Pack(Column(Mul(9, s), Mul(13, s), Mul(11, s), Mul(14, s))) }
    function Td4(x: bv8): bv32 { var s := inv(x); Pack(Column(s, s, s, s)) }
  }

  datatype State = State(c0: Column, c1: Column, c2: Column, c3: Column)

  // ----- FIPS 197, sections 5.1 and 5.3.5 -----

  function SubColumn(box: SBox, c: Column): Column {
    Column(box.sub(c.a), box.sub(c.b), box.sub(c.c), box.sub(c.d))
  }

  function InvSubColumn(box: SBox, c: Column): Column {
    Column(box.inv(c.a), box.inv(c.b), box.inv(c.c), box.inv(c.d))
  }

  function SubBytes(box: SBox, s: State): State {
    State(SubColumn(box, s.c0), SubColumn(box, s.c1), SubColumn(box, s.c2), SubColumn(box, s.c3))
  }

  function InvSubBytes(box: SBox, s: State): State {
    State(InvSubColumn(box, s.c0), InvSubColumn(box, s.c1), InvSubColumn(box, s.c2), InvSubColumn(box, s.c3))
  }

  /** Row r of the state rotates left by r columns. */
  function ShiftRows(s: State): State {
    State(Column(s.c0.a, s.c1.b, s.c2.c, s.c3.d), Column(s.c1.a, s.c2.b, s.c3.c, s.c0.d),
          Column(s.c2.a, s.c3.b, s.c0.c, s.c1.d), Column(s.c3.a, s.c0.b, s.c1.c, s.c2.d))
  }

  function InvShiftRows(s: State): State {
    State(Column(s.c0.a, s.c3.b, s.c2.c, s.c1.d), Column(s.c1.a, s.c0.b, s.c3.c, s.c2.d),
          Column(s.c2.a, s.c1.b, s.c0.c, s.c3.d), Column(s.c3.a, s.c2.b, s.c1.c, s.c0.d))
  }

  function MixColumns(s: State): State {
    State(Mix(s.c0), Mix(s.c1), Mix(s.c2), Mix(s.c3))
  }

  function InvMixColumns(s: State): State {
    State(InvMix(s.c0), InvMix(s.c1), InvMix(s.c2), InvMix(s.c3))
  }

  function AddState(s: State, k: State): State {
    State(Plus(s.c0, k.c0), Plus(s.c1, k.c1), Plus(s.c2, k.c2), Plus(s.c3, k.c3))
  }

  /** The r-th round key of a schedule of words. */
  function RoundKey(w: seq<bv32>, r: nat): State
    requires 4 * r + 4 <= |w|
  {
    State(Unpack(w[4 * r]), Unpack(w[4 * r + 1]), Unpack(w[4 * r + 2]), Unpack(w[4 * r + 3]))
  }

  /** The state after the initial key addition and r full rounds. */
  function Rounds(box: SBox, w: seq<bv32>, r: nat, s: State): State
    requires 4 * r + 4 <= |w|
  {
    if r == 0 then AddState(s, RoundKey(w, 0))
    else AddState(MixColumns(ShiftRows(SubBytes(box, Rounds(box, w, r - 1, s)))), RoundKey(w, r))
  }

  function Cipher(box: SBox, w: seq<bv32>, rounds: nat, s: State): State
    requires 0 < rounds && 4 * rounds + 4 <= |w|
  {
    AddState(ShiftRows(SubBytes(box, Rounds(box, w, rounds - 1, s))), RoundKey(w, rounds))
  }

  function InvRounds(box: SBox, w: seq<bv32>, r: nat, s: State): State
    requires 4 * r + 4 <= |w|
  {
    if r == 0 then AddState(s, RoundKey(w, 0))
    else AddState(InvMixColumns(InvShiftRows(InvSubBytes(box, InvRounds(box, w, r - 1, s)))), RoundKey(w, r))
  }

  /** The Equivalent Inverse Cipher. */
  function InvCipher(box: SBox, w: seq<bv32>, rounds: nat, s: State): State
    requires 0 < rounds && 4 * rounds + 4 <= |w|
  {
    AddState(InvShiftRows(InvSubBytes(box, InvRounds(box, w, rounds - 1, s))), RoundKey(w, rounds))
  }

  /** Both ciphers use only the first 4 * (rounds + 1) words of a schedule. */
  lemma UsesOnly(box: SBox, w: seq<bv32>, rounds: nat, s: State)
    requires 0 < rounds && 4 * rounds + 4 <= |w|
    ensures Cipher(box, w, rounds, s) == Cipher(box, w[..4 * rounds + 4], rounds, s)
    ensures InvCipher(box, w, rounds, s) == InvCipher(box, w[..4 * rounds + 4], rounds, s)
  {
    hide AddState;
    hide ShiftRows;
    hide SubBytes;
    hide InvShiftRows;
    hide InvSubBytes;
    hide Rounds;
    hide InvRounds;
    hide RoundKey;
    RoundsUseOnly(box, w, w[..4 * rounds + 4], rounds - 1, s);
    SameRoundKey(w, w[..4 * rounds + 4], rounds);
  }

  lemma SameRoundKey(w: seq<bv32>, v: seq<bv32>, r: nat)
    requires v <= w && 4 * r + 4 <= |v|
    ensures RoundKey(w, r) == RoundKey(v, r)
  {}

  lemma {:induction false} RoundsUseOnly(box: SBox, w: seq<bv32>, v: seq<bv32>, r: nat, s: State)
    requires v <= w && 4 * r + 4 <= |v|
    ensures Rounds(box, w, r, s) == Rounds(box, v, r, s) && InvRounds(box, w, r, s) == InvRounds(box, v, r, s)
  {
    hide AddState;
    hide ShiftRows;
    hide SubBytes;
    hide MixColumns;
    hide InvShiftRows;
    hide InvSubBytes;
    hide InvMixColumns;
    hide RoundKey;
    SameRoundKey(w, v, r);
    if r > 0 {
      RoundsUseOnly(box, w, v, r - 1, s);
    }
  }

  /** What AES_set_decrypt_key makes of an encryption schedule `w`: the round keys in reverse
      order, all but the outer two passed through InvMixColumns. */
  ghost predicate IsDecryptionSchedule(d: seq<bv32>, w: seq<bv32>, rounds: nat) {
    && 4 * rounds + 4 <= |w| && 4 * rounds + 4 <= |d|
    && forall r: nat :: r <= rounds ==>
      RoundKey(d, r) == if 0 < r < rounds then InvMixColumns(RoundKey(w, rounds - r)) else RoundKey(w, rounds - r)
  }

  // ----- Decryption undoes encryption -----

  lemma AddCancels(x: bv8, k: bv8)
    ensures Add(Add(x, k), k) == x
  {}

  lemma AddStateCancels(s: State, k: State)
    ensures AddState(AddState(s, k), k) == s
  {
    hide Add;
    AddCancels(s.c0.a, k.c0.a); AddCancels(s.c0.b, k.c0.b); AddCancels(s.c0.c, k.c0.c); AddCancels(s.c0.d, k.c0.d);
    AddCancels(s.c1.a, k.c1.a); AddCancels(s.c1.b, k.c1.b); AddCancels(s.c1.c, k.c1.c); AddCancels(s.c1.d, k.c1.d);
    AddCancels(s.c2.a, k.c2.a); AddCancels(s.c2.b, k.c2.b); AddCancels(s.c2.c, k.c2.c); AddCancels(s.c2.d, k.c2.d);
    AddCancels(s.c3.a, k.c3.a); AddCancels(s.c3.b, k.c3.b); AddCancels(s.c3.c, k.c3.c); AddCancels(s.c3.d, k.c3.d);
  }

  lemma InvShiftSub(box: SBox, s: State)
    requires box.Valid()
    ensures InvShiftRows(InvSubBytes(box, ShiftRows(SubBytes(box, s)))) == s
  {
    assert forall x: bv8 :: box.inv(box.sub(x)) == x;
  }

  lemma InvMixAdd(x: Column, k: Column)
    ensures Plus(InvMix(Plus(Mix(x), k)), InvMix(k)) == x
  {
    hide Mix;
    hide InvMix;
    hide Add;
    InvMixLinear(Mix(x), k);
    InvMixMix(x);
    var ik := InvMix(k);
    AddCancels(x.a, ik.a); AddCancels(x.b, ik.b); AddCancels(x.c, ik.c); AddCancels(x.d, ik.d);
  }

  lemma InvMixColumnsOfRound(s: State, k: State)
    ensures AddState(InvMixColumns(AddState(MixColumns(s), k)), InvMixColumns(k)) == s
  {
    hide Plus;
    hide Mix;
    hide InvMix;
    InvMixAdd(s.c0, k.c0);
    InvMixAdd(s.c1, k.c1);
    InvMixAdd(s.c2, k.c2);
    InvMixAdd(s.c3, k.c3);
  }

  /** Undoing the rounds one at a time, last first: after r inverse rounds, the state is what
      encryption had just before its round `rounds - r`, with SubBytes and ShiftRows still on. */
  lemma {:induction false} InvRoundsUndo(box: SBox, w: seq<bv32>, d: seq<bv32>, rounds: nat, r: nat, s: State)
    requires box.Valid() && r < rounds && IsDecryptionSchedule(d, w, rounds)
    ensures InvRounds(box, d, r, Cipher(box, w, rounds, s))
         == ShiftRows(SubBytes(box, Rounds(box, w, rounds - 1 - r, s)))
  {
    hide AddState;
    hide ShiftRows;
    hide SubBytes;
    hide InvShiftRows;
    hide InvSubBytes;
    hide MixColumns;
    hide InvMixColumns;
    hide RoundKey;
    if r == 0 {
      assert RoundKey(d, 0) == RoundKey(w, rounds);
      AddStateCancels(ShiftRows(SubBytes(box, Rounds(box, w, rounds - 1, s))), RoundKey(w, rounds));
    } else {
      InvRoundsUndo(box, w, d, rounds, r - 1, s);
      var before := Rounds(box, w, rounds - r, s);
      InvShiftSub(box, before);
      assert RoundKey(d, r) == InvMixColumns(RoundKey(w, rounds - r));
      InvMixColumnsOfRound(ShiftRows(SubBytes(box, Rounds(box, w, rounds - 1 - r, s))), RoundKey(w, rounds - r));
    }
  }

  /** Decryption undoes encryption, for every key schedule, every number of rounds, every block
      and every S-box that has an inverse. */
  lemma DecryptUndoesEncrypt(box: SBox, w: seq<bv32>, d: seq<bv32>, rounds: nat, s: State)
    requires box.Valid() && 0 < rounds && IsDecryptionSchedule(d, w, rounds)
    ensures InvCipher(box, d, rounds, Cipher(box, w, rounds, s)) == s
  {
    hide AddState;
    hide ShiftRows;
    hide SubBytes;
    hide InvShiftRows;
    hide InvSubBytes;
    hide RoundKey;
    InvRoundsUndo(box, w, d, rounds, rounds - 1, s);
    InvShiftSub(box, Rounds(box, w, 0, s));
    assert RoundKey(d, rounds) == RoundKey(w, 0);
    AddStateCancels(s, RoundKey(w, 0));
  }

  // ----- The table-driven code -----

  // One word of a round, from the words that ShiftRows brings together and a key word.

  function TeWord(box: SBox, p: bv32, q: bv32, r: bv32, s: bv32, k: bv32): bv32 {
    Xor(Xor(Xor(Xor(box.Te0(Unpack(p).a), box.Te1(Unpack(q).b)), box.Te2(Unpack(r).c)), box.Te3(Unpack(s).d)), k)
  }

  function TdWord(box: SBox, p: bv32, q: bv32, r: bv32, s: bv32, k: bv32): bv32 {
    Xor(Xor(Xor(Xor(box.Td0(Unpack(p).a), box.Td1(Unpack(q).b)), box.Td2(Unpack(r).c)), box.Td3(Unpack(s).d)), k)
  }

  function Te4Word(box: SBox, p: bv32, q: bv32, r: bv32, s: bv32, k: bv32): bv32 {
    Xor(Xor(Xor(Xor(box.Te4(Unpack(p).a) & 0xff000000, box.Te4(Unpack(q).b) & 0x00ff0000),
                box.Te4(Unpack(r).c) & 0x0000ff00), box.Te4(Unpack(s).d) & 0x000000ff), k)
  }

  function Td4Word(box: SBox, p: bv32, q: bv32, r: bv32, s: bv32, k: bv32): bv32 {
    Xor(Xor(Xor(Xor(box.Td4(Unpack(p).a) & 0xff000000, box.Td4(Unpack(q).b) & 0x00ff0000),
                box.Td4(Unpack(r).c) & 0x0000ff00), box.Td4(Unpack(s).d) & 0x000000ff), k)
  }

  lemma XorColumns(u: Column, v: Column, x: Column, y: Column, k: bv32)
    ensures Unpack(Xor(Xor(Xor(Xor(Pack(u), Pack(v)), Pack(x)), Pack(y)), k))
         == Plus(Plus(Plus(u, v), Plus(x, y)), Unpack(k))
  {
    hide Plus;
    hide Xor;
    hide Pack;
    hide Unpack;
    PackPlus(u, v);
    PackPlus(x, y);
    PackPlus(Plus(u, v), Plus(x, y));
    PackUnpack(k);
    PackPlus(Plus(Plus(u, v), Plus(x, y)), Unpack(k));
    XorAssoc(Pack(Plus(u, v)), Pack(x), Pack(y));
    UnpackPack(Plus(Plus(Plus(u, v), Plus(x, y)), Unpack(k)));
  }

  lemma MulOne(x: bv8)
    ensures Mul(1, x) == x
  {}

  lemma TeWordIsRound(box: SBox, p: bv32, q: bv32, r: bv32, s: bv32, k: bv32)
    ensures Unpack(TeWord(box, p, q, r, s, k))
         == Plus(Mix(SubColumn(box, Column(Unpack(p).a, Unpack(q).b, Unpack(r).c, Unpack(s).d))), Unpack(k))
  {
    hide Add;
    hide Mul;
    hide Xor;
    hide Pack;
    hide Unpack;
    var c := SubColumn(box, Column(Unpack(p).a, Unpack(q).b, Unpack(r).c, Unpack(s).d));
    MulOne(c.a);
    MulOne(c.b);
    MulOne(c.c);
    MulOne(c.d);
    XorColumns(Column(Mul(2, c.a), c.a, c.a, Mul(3, c.a)), Column(Mul(3, c.b), Mul(2, c.b), c.b, c.b),
               Column(c.c, Mul(3, c.c), Mul(2, c.c), c.c), Column(c.d, c.d, Mul(3, c.d), Mul(2, c.d)), k);
  }

  lemma TdWordIsRound(box: SBox, p: bv32, q: bv32, r: bv32, s: bv32, k: bv32)
    ensures Unpack(TdWord(box, p, q, r, s, k))
         == Plus(InvMix(InvSubColumn(box, Column(Unpack(p).a, Unpack(q).b, Unpack(r).c, Unpack(s).d))), Unpack(k))
  {
    hide Add;
    hide Mul;
    hide Xor;
    hide Pack;
    hide Unpack;
    var c := InvSubColumn(box, Column(Unpack(p).a, Unpack(q).b, Unpack(r).c, Unpack(s).d));
    XorColumns(Column(Mul(14, c.a), Mul(9, c.a), Mul(13, c.a), Mul(11, c.a)),
               Column(Mul(11, c.b), Mul(14, c.b), Mul(9, c.b), Mul(13, c.b)),
               Column(Mul(13, c.c), Mul(11, c.c), Mul(14, c.c), Mul(9, c.c)),
               Column(Mul(9, c.d), Mul(13, c.d), Mul(11, c.d), Mul(14, c.d)), k);
  }

  lemma MaskedByte(x: bv8)
    ensures Pack(Column(x, x, x, x)) & 0xff000000 == Pack(Column(x, 0, 0, 0))
    ensures Pack(Column(x, x, x, x)) & 0x00ff0000 == Pack(Column(0, x, 0, 0))
    ensures Pack(Column(x, x, x, x)) & 0x0000ff00 == Pack(Column(0, 0, x, 0))
    ensures Pack(Column(x, x, x, x)) & 0x000000ff == Pack(Column(0, 0, 0, x))
  {}

  lemma Te4WordIsLastRound(box: SBox, p: bv32, q: bv32, r: bv32, s: bv32, k: bv32)
    ensures Unpack(Te4Word(box, p, q, r, s, k))
         == Plus(SubColumn(box, Column(Unpack(p).a, Unpack(q).b, Unpack(r).c, Unpack(s).d)), Unpack(k))
  {
    hide Plus;
    hide Xor;
    hide Pack;
    hide Unpack;
    var c := SubColumn(box, Column(Unpack(p).a, Unpack(q).b, Unpack(r).c, Unpack(s).d));
    MaskedByte(c.a);
    MaskedByte(c.b);
    MaskedByte(c.c);
    MaskedByte(c.d);
    XorColumns(Column(c.a, 0, 0, 0), Column(0, c.b, 0, 0), Column(0, 0, c.c, 0), Column(0, 0, 0, c.d), k);
    SplitColumn(c);
  }

  lemma Td4WordIsLastRound(box: SBox, p: bv32, q: bv32, r: bv32, s: bv32, k: bv32)
    ensures Unpack(Td4Word(box, p, q, r, s, k))
         == Plus(InvSubColumn(box, Column(Unpack(p).a, Unpack(q).b, Unpack(r).c, Unpack(s).d)), Unpack(k))
  {
    hide Plus;
    hide Xor;
    hide Pack;
    hide Unpack;
    var c := InvSubColumn(box, Column(Unpack(p).a, Unpack(q).b, Unpack(r).c, Unpack(s).d));
    MaskedByte(c.a);
    MaskedByte(c.b);
    MaskedByte(c.c);
    MaskedByte(c.d);
    XorColumns(Column(c.a, 0, 0, 0), Column(0, c.b, 0, 0), Column(0, 0, c.c, 0), Column(0, 0, 0, c.d), k);
    SplitColumn(c);
  }

  function StateOf(w0: bv32, w1: bv32, w2: bv32, w3: bv32): State {
    State(Unpack(w0), Unpack(w1), Unpack(w2), Unpack(w3))
  }

  /** The state held by the 16 bytes of `b` at position i, column by column. */
  function StateAt(b: seq<bv8>, i: nat): State
    requires i + BLOCK_SIZE <= |b|
  {
    State(Column(b[i], b[i + 1], b[i + 2], b[i + 3]), Column(b[i + 4], b[i + 5], b[i + 6], b[i + 7]),
          Column(b[i + 8], b[i + 9], b[i + 10], b[i + 11]), Column(b[i + 12], b[i + 13], b[i + 14], b[i + 15]))
  }

  function ColumnBytes(c: Column): (b: seq<bv8>)
    ensures |b| == 4
  {
    [c.a, c.b, c.c, c.d]
  }

  function StateBytes(s: State): (b: seq<bv8>)
    ensures |b| == BLOCK_SIZE
    ensures StateAt(b, 0) == s
  {
    ColumnBytes(s.c0) + ColumnBytes(s.c1) + ColumnBytes(s.c2) + ColumnBytes(s.c3)
  }

  /** The 16 bytes of `b` at position i are those of its state. */
  lemma BytesOfStateAt(b: seq<bv8>, i: nat)
    requires i + BLOCK_SIZE <= |b|
    ensures StateBytes(StateAt(b, i)) == b[i..i + BLOCK_SIZE]
  {}

  lemma TeWordsAreRound(box: SBox, w: seq<bv32>, r: nat, s: State, s0: bv32, s1: bv32, s2: bv32, s3: bv32)
    requires 4 * r + 8 <= |w| && StateOf(s0, s1, s2, s3) == Rounds(box, w, r, s)
    ensures StateOf(TeWord(box, s0, s1, s2, s3, w[4 * r + 4]), TeWord(box, s1, s2, s3, s0, w[4 * r + 5]),
                    TeWord(box, s2, s3, s0, s1, w[4 * r + 6]), TeWord(box, s3, s0, s1, s2, w[4 * r + 7]))
         == Rounds(box, w, r + 1, s)
  {
    hide TeWord;
    hide Unpack;
    hide Mix;
    hide Plus;
    TeWordIsRound(box, s0, s1, s2, s3, w[4 * r + 4]);
    TeWordIsRound(box, s1, s2, s3, s0, w[4 * r + 5]);
    TeWordIsRound(box, s2, s3, s0, s1, w[4 * r + 6]);
    TeWordIsRound(box, s3, s0, s1, s2, w[4 * r + 7]);
  }

  lemma Te4WordsAreCipher(box: SBox, w: seq<bv32>, rounds: nat, s: State, t0: bv32, t1: bv32, t2: bv32, t3: bv32)
    requires 0 < rounds && 4 * rounds + 4 <= |w| && StateOf(t0, t1, t2, t3) == Rounds(box, w, rounds - 1, s)
    ensures StateOf(Te4Word(box, t0, t1, t2, t3, w[4 * rounds]), Te4Word(box, t1, t2, t3, t0, w[4 * rounds + 1]),
                    Te4Word(box, t2, t3, t0, t1, w[4 * rounds + 2]), Te4Word(box, t3, t0, t1, t2, w[4 * rounds + 3]))
         == Cipher(box, w, rounds, s)
  {
    hide Te4Word;
    hide Unpack;
    hide Plus;
    Te4WordIsLastRound(box, t0, t1, t2, t3, w[4 * rounds]);
    Te4WordIsLastRound(box, t1, t2, t3, t0, w[4 * rounds + 1]);
    Te4WordIsLastRound(box, t2, t3, t0, t1, w[4 * rounds + 2]);
    Te4WordIsLastRound(box, t3, t0, t1, t2, w[4 * rounds + 3]);
  }

  lemma TdWordsAreRound(box: SBox, w: seq<bv32>, r: nat, s: State, s0: bv32, s1: bv32, s2: bv32, s3: bv32)
    requires 4 * r + 8 <= |w| && StateOf(s0, s1, s2, s3) == InvRounds(box, w, r, s)
    ensures StateOf(TdWord(box, s0, s3, s2, s1, w[4 * r + 4]), TdWord(box, s1, s0, s3, s2, w[4 * r + 5]),
                    TdWord(box, s2, s1, s0, s3, w[4 * r + 6]), TdWord(box, s3, s2, s1, s0, w[4 * r + 7]))
         == InvRounds(box, w, r + 1, s)
  {
    hide TdWord;
    hide Unpack;
    hide InvMix;
    hide Plus;
    TdWordIsRound(box, s0, s3, s2, s1, w[4 * r + 4]);
    TdWordIsRound(box, s1, s0, s3, s2, w[4 * r + 5]);
    TdWordIsRound(box, s2, s1, s0, s3, w[4 * r + 6]);
    TdWordIsRound(box, s3, s2, s1, s0, w[4 * r + 7]);
  }

  lemma Td4WordsAreInvCipher(box: SBox, w: seq<bv32>, rounds: nat, s: State, t0: bv32, t1: bv32, t2: bv32, t3: bv32)
    requires 0 < rounds && 4 * rounds + 4 <= |w| && StateOf(t0, t1, t2, t3) == InvRounds(box, w, rounds - 1, s)
    ensures StateOf(Td4Word(box, t0, t3, t2, t1, w[4 * rounds]), Td4Word(box, t1, t0, t3, t2, w[4 * rounds + 1]),
                    Td4Word(box, t2, t1, t0, t3, w[4 * rounds + 2]), Td4Word(box, t3, t2, t1, t0, w[4 * rounds + 3]))
         == InvCipher(box, w, rounds, s)
  {
    hide Td4Word;
    hide Unpack;
    hide Plus;
    Td4WordIsLastRound(box, t0, t3, t2, t1, w[4 * rounds]);
    Td4WordIsLastRound(box, t1, t0, t3, t2, w[4 * rounds + 1]);
    Td4WordIsLastRound(box, t2, t1, t0, t3, w[4 * rounds + 2]);
    Td4WordIsLastRound(box, t3, t2, t1, t0, w[4 * rounds + 3]);
  }

  /** GETU32. */
  method GetU32(b: array<bv8>, i: nat) returns (w: bv32)
    requires i + 4 <= b.Length
    ensures Unpack(w) == Column(b[i], b[i + 1], b[i + 2], b[i + 3])
  {
    w := (b[i] as bv32 << 24) ^ (b[i + 1] as bv32 << 16) ^ (b[i + 2] as bv32 << 8) ^ (b[i + 3] as bv32);
    UnpackPack(Column(b[i], b[i + 1], b[i + 2], b[i + 3]));
  }

  lemma SpliceTwice(b: seq<bv8>, i: nat, x: seq<bv8>, y: seq<bv8>)
    requires i + |x| + |y| <= |b|
    ensures Splice(Splice(b, i, x), i + |x|, y) == Splice(b, i, x + y)
  {}

  /** PUTU32. */
  method PutU32(b: array<bv8>, i: nat, w: bv32)
    requires i + 4 <= b.Length
    modifies b
    ensures b[..] == Splice(old(b[..]), i, ColumnBytes(Unpack(w)))
  {
    hide Unpack;
    var c := Unpack(w);
    b[i] := c.a;
    b[i + 1] := c.b;
    b[i + 2] := c.c;
    b[i + 3] := c.d;
  }

  /** struct aes_key_st. */
  class AesKey {
    var rd_key: array<bv32>
    var rounds: nat

    constructor ()
      ensures fresh(rd_key) && rd_key.Length == 4 * (14 + 1) && rounds == 0
    {
      rd_key := new bv32[60](_ => 0);
      rounds := 0;
    }

    /** The rounds come in pairs, and the schedule holds a key for each and one more. */
    ghost predicate Usable()
      reads this, rd_key
    {
      2 <= rounds && rounds % 2 == 0 && 4 * rounds + 4 <= rd_key.Length
    }

    ghost function Schedule(): seq<bv32>
      reads this, rd_key
    {
      rd_key[..]
    }
  }

  lemma NoRounds(box: SBox, w: seq<bv32>, s: State)
    requires 4 <= |w|
    ensures Rounds(box, w, 0, s) == AddState(s, RoundKey(w, 0))
    ensures InvRounds(box, w, 0, s) == AddState(s, RoundKey(w, 0))
  {}

  lemma UnpackXor(x: bv32, k: bv32)
    ensures Unpack(Xor(x, k)) == Plus(Unpack(x), Unpack(k))
  {}

  /** Maps a block to the cipher state and adds the first round key. */
  method LoadState(inp: array<bv8>, i: nat, rk: array<bv32>, ghost st: State)
    returns (s0: bv32, s1: bv32, s2: bv32, s3: bv32)
    requires i + BLOCK_SIZE <= inp.Length && 4 <= rk.Length && st == StateAt(inp[..], i)
    ensures StateOf(s0, s1, s2, s3) == AddState(st, RoundKey(rk[..], 0))
  {
    hide Unpack;
    hide Xor;
    hide Plus;
    s0 := GetU32(inp, i);
    s1 := GetU32(inp, i + 4);
    s2 := GetU32(inp, i + 8);
    s3 := GetU32(inp, i + 12);
    UnpackXor(s0, rk[0]);
    UnpackXor(s1, rk[1]);
    UnpackXor(s2, rk[2]);
    UnpackXor(s3, rk[3]);
    s0 := Xor(s0, rk[0]);
    s1 := Xor(s1, rk[1]);
    s2 := Xor(s2, rk[2]);
    s3 := Xor(s3, rk[3]);
  }

  /** Maps the cipher state to the bytes of a block. */
  method StoreState(out: array<bv8>, o: nat, s0: bv32, s1: bv32, s2: bv32, s3: bv32)
    requires o + BLOCK_SIZE <= out.Length
    modifies out
    ensures out[..] == Splice(old(out[..]), o, StateBytes(StateOf(s0, s1, s2, s3)))
  {
    hide Unpack;
    hide ColumnBytes;
    hide Splice;
    ghost var b := out[..];
    ghost var x0, x1 := ColumnBytes(Unpack(s0)), ColumnBytes(Unpack(s1));
    ghost var x2, x3 := ColumnBytes(Unpack(s2)), ColumnBytes(Unpack(s3));
    PutU32(out, o, s0);
    PutU32(out, o + 4, s1);
    SpliceTwice(b, o, x0, x1);
    PutU32(out, o + 8, s2);
    SpliceTwice(b, o, x0 + x1, x2);
    PutU32(out, o + 12, s3);
    SpliceTwice(b, o, x0 + x1 + x2, x3);
  }

  /** The double-round loop of AES_encrypt and the last round. */
  method EncryptWords(box: SBox, rk: array<bv32>, rounds: nat, p0: bv32, p1: bv32, p2: bv32, p3: bv32, ghost st: State)
    returns (s0: bv32, s1: bv32, s2: bv32, s3: bv32)
    requires 2 <= rounds && rounds % 2 == 0 && 4 * rounds + 4 <= rk.Length
    requires StateOf(p0, p1, p2, p3) == Rounds(box, rk[..], 0, st)
    ensures StateOf(s0, s1, s2, s3) == Cipher(box, rk[..], rounds, st)
  {
    hide StateOf;
    hide Cipher;
    hide Rounds;
    hide TeWord;
    hide Te4Word;
    var base := 0;
    var t0, t1, t2, t3: bv32;
    var r := rounds / 2;
    s0, s1, s2, s3 := p0, p1, p2, p3;
    while true
      invariant 0 < r <= rounds / 2 && base == 8 * (rounds / 2 - r)
      invariant StateOf(s0, s1, s2, s3) == Rounds(box, rk[..], base / 4, st)
      decreases r
    {
      TeWordsAreRound(box, rk[..], base / 4, st, s0, s1, s2, s3);
      t0 := TeWord(box, s0, s1, s2, s3, rk[base + 4]);
      t1 := TeWord(box, s1, s2, s3, s0, rk[base + 5]);
      t2 := TeWord(box, s2, s3, s0, s1, rk[base + 6]);
      t3 := TeWord(box, s3, s0, s1, s2, rk[base + 7]);
      base := base + 8;
      r := r - 1;
      if r == 0 {
        break;
      }
      TeWordsAreRound(box, rk[..], base / 4 - 1, st, t0, t1, t2, t3);
      s0 := TeWord(box, t0, t1, t2, t3, rk[base]);
      s1 := TeWord(box, t1, t2, t3, t0, rk[base + 1]);
      s2 := TeWord(box, t2, t3, t0, t1, rk[base + 2]);
      s3 := TeWord(box, t3, t0, t1, t2, rk[base + 3]);
    }
    Te4WordsAreCipher(box, rk[..], rounds, st, t0, t1, t2, t3);
    s0 := Te4Word(box, t0, t1, t2, t3, rk[4 * rounds]);
    s1 := Te4Word(box, t1, t2, t3, t0, rk[4 * rounds + 1]);
    s2 := Te4Word(box, t2, t3, t0, t1, rk[4 * rounds + 2]);
    s3 := Te4Word(box, t3, t0, t1, t2, rk[4 * rounds + 3]);
  }

  /** AES_encrypt. The two buffers may be one. */
  method Encrypt(box: SBox, inp: array<bv8>, i: nat, out: array<bv8>, o: nat, key: AesKey)
    requires key.Usable() && i + BLOCK_SIZE <= inp.Length && o + BLOCK_SIZE <= out.Length
    modifies out
    ensures out[..] == Splice(old(out[..]), o,
                              StateBytes(Cipher(box, key.Schedule(), key.rounds, StateAt(old(inp[..]), i))))
  {
    hide StateOf;
    hide Cipher;
    hide Rounds;
    hide RoundKey;
    hide Splice;
    hide StateAt;
    hide StateBytes;
    ghost var st := StateAt(inp[..], i);
    var s0, s1, s2, s3 := LoadState(inp, i, key.rd_key, st);
    NoRounds(box, key.rd_key[..], st);
    s0, s1, s2, s3 := EncryptWords(box, key.rd_key, key.rounds, s0, s1, s2, s3, st);
    StoreState(out, o, s0, s1, s2, s3);
  }

  /** The double-round loop of AES_decrypt and the last round. */
  method DecryptWords(box: SBox, rk: array<bv32>, rounds: nat, p0: bv32, p1: bv32, p2: bv32, p3: bv32, ghost st: State)
    returns (s0: bv32, s1: bv32, s2: bv32, s3: bv32)
    requires 2 <= rounds && rounds % 2 == 0 && 4 * rounds + 4 <= rk.Length
    requires StateOf(p0, p1, p2, p3) == InvRounds(box, rk[..], 0, st)
    ensures StateOf(s0, s1, s2, s3) == InvCipher(box, rk[..], rounds, st)
  {
    hide StateOf;
    hide InvCipher;
    hide InvRounds;
    hide TdWord;
    hide Td4Word;
    var base := 0;
    var t0, t1, t2, t3: bv32;
    var r := rounds / 2;
    s0, s1, s2, s3 := p0, p1, p2, p3;
    while true
      invariant 0 < r <= rounds / 2 && base == 8 * (rounds / 2 - r)
      invariant StateOf(s0, s1, s2, s3) == InvRounds(box, rk[..], base / 4, st)
      decreases r
    {
      TdWordsAreRound(box, rk[..], base / 4, st, s0, s1, s2, s3);
      t0 := TdWord(box, s0, s3, s2, s1, rk[base + 4]);
      t1 := TdWord(box, s1, s0, s3, s2, rk[base + 5]);
      t2 := TdWord(box, s2, s1, s0, s3, rk[base + 6]);
      t3 := TdWord(box, s3, s2, s1, s0, rk[base + 7]);
      base := base + 8;
      r := r - 1;
      if r == 0 {
        break;
      }
      TdWordsAreRound(box, rk[..], base / 4 - 1, st, t0, t1, t2, t3);
      s0 := TdWord(box, t0, t3, t2, t1, rk[base]);
      s1 := TdWord(box, t1, t0, t3, t2, rk[base + 1]);
      s2 := TdWord(box, t2, t1, t0, t3, rk[base + 2]);
      s3 := TdWord(box, t3, t2, t1, t0, rk[base + 3]);
    }
    Td4WordsAreInvCipher(box, rk[..], rounds, st, t0, t1, t2, t3);
    s0 := Td4Word(box, t0, t3, t2, t1, rk[4 * rounds]);
    s1 := Td4Word(box, t1, t0, t3, t2, rk[4 * rounds + 1]);
    s2 := Td4Word(box, t2, t1, t0, t3, rk[4 * rounds + 2]);
    s3 := Td4Word(box, t3, t2, t1, t0, rk[4 * rounds + 3]);
  }

  /** AES_decrypt. The two buffers may be one. */
  method Decrypt(box: SBox, inp: array<bv8>, i: nat, out: array<bv8>, o: nat, key: AesKey)
    requires key.Usable() && i + BLOCK_SIZE <= inp.Length && o + BLOCK_SIZE <= out.Length
    modifies out
    ensures out[..] == Splice(old(out[..]), o,
                              StateBytes(InvCipher(box, key.Schedule(), key.rounds, StateAt(old(inp[..]), i))))
  {
    hide StateOf;
    hide InvCipher;
    hide InvRounds;
    hide RoundKey;
    hide Splice;
    hide StateAt;
    hide StateBytes;
    ghost var st := StateAt(inp[..], i);
    var s0, s1, s2, s3 := LoadState(inp, i, key.rd_key, st);
    NoRounds(box, key.rd_key[..], st);
    s0, s1, s2, s3 := DecryptWords(box, key.rd_key, key.rounds, s0, s1, s2, s3, st);
    StoreState(out, o, s0, s1, s2, s3);
  }
}
