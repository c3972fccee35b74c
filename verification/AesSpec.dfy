/** The transformations of AES by rows, columns and words, as FIPS 197 writes them. */
module AesSpec {
  import opened AesField
  import opened AesCipher
  import opened AesKeySchedule

  function Entry(c: Column, r: nat): bv8
    requires r < 4
  {
    if r == 0 then c.a else if r == 1 then c.b else if r == 2 then c.c else c.d
  }

  function ColumnOf(s: State, c: nat): Column
    requires c < 4
  {
    if c == 0 then s.c0 else if c == 1 then s.c1 else if c == 2 then s.c2 else s.c3
  }

  /** The byte in row r and column c. */
  function At(s: State, r: nat, c: nat): bv8
    requires r < 4 && c < 4
  {
    Entry(ColumnOf(s, c), r)
  }

  /** A block fills the state column by column (section 3.4). */
  lemma StateByColumns(b: seq<bv8>, r: nat, c: nat)
    requires |b| == BLOCK_SIZE && r < 4 && c < 4
    ensures At(StateAt(b, 0), r, c) == b[r + 4 * c]
  {
    ColumnsOf(b, c);
    hide StateAt;
    hide ColumnOf;
  }

  lemma ColumnsOf(b: seq<bv8>, c: nat)
    requires |b| == BLOCK_SIZE && c < 4
    ensures ColumnOf(StateAt(b, 0), c) == Column(b[4 * c], b[4 * c + 1], b[4 * c + 2], b[4 * c + 3])
  {}

  /** ShiftRows moves row r by r columns to the left (section 5.1.2), and its inverse back. */
  lemma RowsShift(s: State, r: nat, c: nat)
    requires r < 4 && c < 4
    ensures At(ShiftRows(s), r, c) == At(s, r, (c + r) % 4)
    ensures At(InvShiftRows(s), r, (c + r) % 4) == At(s, r, c)
  {
    RowsShiftBack(s, r, c);
    hide InvShiftRows;
  }

  lemma RowsShiftBack(s: State, r: nat, c: nat)
    requires r < 4 && c < 4
    ensures At(InvShiftRows(s), r, (c + r) % 4) == At(s, r, c)
  {}

  /** The coefficient of x to the n in the polynomial that columns are multiplied by. */
  function Factor(inverse: bool, n: nat): bv4
    requires n < 4
  {
    if !inverse then if n == 0 then 2 else if n == 3 then 3 else 1
    else if n == 0 then 14 else if n == 1 then 9 else if n == 2 then 13 else 11
  }

  /** Coefficient r of the product of a column with that polynomial modulo x^4 + 1. */
  function Product(inverse: bool, w: Column, r: nat): bv8
    requires r < 4
  {
    Add(Add(Mul(Factor(inverse, r), w.a), Mul(Factor(inverse, (r + 3) % 4), w.b)),
        Add(Mul(Factor(inverse, (r + 2) % 4), w.c), Mul(Factor(inverse, (r + 1) % 4), w.d)))
  }

  /** MixColumns and its inverse are these multiplications (sections 5.1.3 and 5.3.3). */
  lemma MixIsProduct(w: Column, r: nat)
    requires r < 4
    ensures Entry(Mix(w), r) == Product(false, w, r) && Entry(InvMix(w), r) == Product(true, w, r)
  {
    hide Mul;
    hide Add;
  }

  // A product by {03} is the double and the byte itself; {09}, {0b}, {0d} and {0e} likewise.

  lemma Product3(b: bv8)
    ensures Mul(1, b) == b && Mul(2, b) == Xtime(b) && Mul(3, b) == Xtime(b) ^ b
  {
    hide Xtime;
  }

  lemma Product9(b: bv8)
    ensures Mul(9, b) == Xtime(Xtime(Xtime(b))) ^ b && Mul(11, b) == Xtime(Xtime(Xtime(b))) ^ Xtime(b) ^ b
  {
    hide Xtime;
  }

  lemma Product13(b: bv8)
    ensures Mul(13, b) == Xtime(Xtime(Xtime(b))) ^ Xtime(Xtime(b)) ^ b
    ensures Mul(14, b) == Xtime(Xtime(Xtime(b))) ^ Xtime(Xtime(b)) ^ Xtime(b)
  {
    hide Xtime;
  }

  /** Round key r adds word 4 * r + c to column c (section 5.1.4), the first byte of the word in row 0. */
  lemma KeyByColumns(w: seq<bv32>, n: nat, s: State, c: nat)
    requires 4 * n + 4 <= |w| && c < 4
    ensures ColumnOf(AddState(s, RoundKey(w, n)), c) == Plus(ColumnOf(s, c), Unpack(w[4 * n + c]))
  {
    hide Unpack;
  }

  lemma WordBytes(w: bv32)
    ensures w >> 24 == Unpack(w).a as bv32 && w & 0xff == Unpack(w).d as bv32
    ensures (w >> 16) & 0xff == Unpack(w).b as bv32 && (w >> 8) & 0xff == Unpack(w).c as bv32
  {}

  /** RotWord moves each byte of a word one place up, the first to the end, and SubWord substitutes each. */
  lemma WordSteps(box: SBox, w: bv32, r: nat)
    requires r < 4
    ensures Entry(Unpack(RotWord(w)), r) == Entry(Unpack(w), (r + 1) % 4)
    ensures Entry(Unpack(SubWord(box, w)), r) == box.sub(Entry(Unpack(w), r))
  {
    hide Unpack;
    hide Pack;
    var c := Unpack(w);
    UnpackPack(Column(c.b, c.c, c.d, c.a));
    UnpackPack(SubColumn(box, c));
  }

  /** KeyExpansion (section 5.2) gives 44, 52 or 60 words, of which the first are the key. */
  lemma KeyFirst(box: SBox, k: seq<bv32>)
    requires KeyLength(|k|)
    ensures Expansion(box, k)[..|k|] == k
    ensures |Expansion(box, k)| == if |k| == 4 then 44 else if |k| == 6 then 52 else 60
  {
    hide SubWord;
    hide RotWord;
    hide Xor;
  }

  /** Each further word is the one a key length back, added to the one before it, which is rotated, substituted
      and given the round constant at the start of each key length, and with eight words is substituted half way. */
  lemma WordIs(box: SBox, k: seq<bv32>, i: nat)
    requires KeyLength(|k|) && |k| <= i < 4 * RoundsOf(|k|) + 4
    ensures i % |k| == 0 ==>
      W(box, k, i) == Xor(W(box, k, i - |k|), Xor(SubWord(box, RotWord(W(box, k, i - 1))), RCON[i / |k| - 1]))
    ensures |k| == 8 && i % 8 == 4 ==> W(box, k, i) == Xor(W(box, k, i - 8), SubWord(box, W(box, k, i - 1)))
    ensures i % |k| != 0 && !(|k| == 8 && i % 8 == 4) ==> W(box, k, i) == Xor(W(box, k, i - |k|), W(box, k, i - 1))
  {
    hide SubWord;
    hide RotWord;
    hide Xor;
  }
}
