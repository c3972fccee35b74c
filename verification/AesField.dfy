/** Byte and column arithmetic behind the AES tables: GF(2^8) as in sections 4.1 to 4.3 of
    FIPS 197, and the fact that InvMixColumns undoes MixColumns.

    The proofs hide the definitions they do not need: bit-level facts are stated once, on
    single bytes, and everything above them is plain algebra over Add and Mul. */
module AesField {

  /** AES_BLOCK_SIZE. */
  const BLOCK_SIZE: nat := 16

  /** Addition in GF(2^8). */
  function Add(a: bv8, b: bv8): bv8 { a ^ b }

  /** Multiplication by x, with the reduction polynomial {1b} spread out as shifts of the top bit. */
  function Xtime(b: bv8): bv8 {
    var h := b >> 7;
    (b << 1) ^ h ^ (h << 1) ^ (h << 3) ^ (h << 4)
  }

  /** Multiplication by the small constants that the AES matrices use. */
  function Mul(k: bv4, b: bv8): bv8 {
    var b2 := Xtime(b);
    var b4 := Xtime(b2);
    var b8 := Xtime(b4);
    Add(Add(if k & 1 != 0 then b else 0, if k & 2 != 0 then b2 else 0),
        Add(if k & 4 != 0 then b4 else 0, if k & 8 != 0 then b8 else 0))
  }

  /** One column of the state, row 0 first. A 32-bit word holds row 0 in its top byte. */
  datatype Column = Column(a: bv8, b: bv8, c: bv8, d: bv8)

  datatype Coeffs = Coeffs(a: bv4, b: bv4, c: bv4, d: bv4)

  function Plus(x: Column, y: Column): Column {
    Column(Add(x.a, y.a), Add(x.b, y.b), Add(x.c, y.c), Add(x.d, y.d))
  }

  function Dot(k: Coeffs, w: Column): bv8 {
    Add(Add(Mul(k.a, w.a), Mul(k.b, w.b)), Add(Mul(k.c, w.c), Mul(k.d, w.d)))
  }

  /** MixColumns on one column (section 5.1.3). */
  function Mix(w: Column): Column {
    Column(Dot(Coeffs(2, 3, 1, 1), w), Dot(Coeffs(1, 2, 3, 1), w),
           Dot(Coeffs(1, 1, 2, 3), w), Dot(Coeffs(3, 1, 1, 2), w))
  }

  /** InvMixColumns on one column (section 5.3.3). */
  function InvMix(w: Column): Column {
    Column(Dot(Coeffs(14, 11, 13, 9), w), Dot(Coeffs(9, 14, 11, 13), w),
           Dot(Coeffs(13, 9, 14, 11), w), Dot(Coeffs(11, 13, 9, 14), w))
  }

  /** The 32-bit word of a column, as GETU32 assembles it. */
  function Pack(w: Column): bv32 {
    (w.a as bv32 << 24) ^ (w.b as bv32 << 16) ^ (w.c as bv32 << 8) ^ (w.d as bv32)
  }

  function Unpack(w: bv32): Column {
    Column((w >> 24) as bv8, ((w >> 16) & 0xff) as bv8, ((w >> 8) & 0xff) as bv8, (w & 0xff) as bv8)
  }

  /** Exclusive or of words: a name for `^` that proofs can hide. */
  function Xor(x: bv32, y: bv32): bv32 { x ^ y }

  lemma XtimeReduces(b: bv8)
    ensures Xtime(b) == if b & 0x80 != 0 then (b << 1) ^ 0x1b else b << 1
  {}

  lemma UnpackPack(w: Column)
    ensures Unpack(Pack(w)) == w
  {}

  lemma PackUnpack(w: bv32)
    ensures Pack(Unpack(w)) == w
  {}

  lemma PackPlus(x: Column, y: Column)
    ensures Xor(Pack(x), Pack(y)) == Pack(Plus(x, y))
  {}

  lemma XorAssoc(a: bv32, b: bv32, c: bv32)
    ensures Xor(Xor(a, b), c) == Xor(a, Xor(b, c))
  {}

  lemma AddZero()
    ensures Add(0, 0) == 0
  {}

  lemma AddComm(a: bv8, b: bv8)
    ensures Add(a, b) == Add(b, a)
  {}

  lemma AddAssoc(a: bv8, b: bv8, c: bv8)
    ensures Add(Add(a, b), c) == Add(a, Add(b, c))
  {}

  lemma AddSwap(a: bv8, b: bv8, c: bv8, d: bv8)
    ensures Add(Add(a, b), Add(c, d)) == Add(Add(a, c), Add(b, d))
  {
    hide Add;
    AddAssoc(a, b, Add(c, d));
    AddAssoc(b, c, d);
    AddComm(b, c);
    AddAssoc(c, b, d);
    AddAssoc(a, c, Add(b, d));
  }

  lemma XtimeLinear(x: bv8, y: bv8)
    ensures Xtime(Add(x, y)) == Add(Xtime(x), Xtime(y))
  {}

  lemma MulLinear(k: bv4, x: bv8, y: bv8)
    ensures Mul(k, Add(x, y)) == Add(Mul(k, x), Mul(k, y))
  {
    hide Xtime;
    hide Add;
    var x2, y2 := Xtime(x), Xtime(y);
    var x4, y4 := Xtime(x2), Xtime(y2);
    XtimeLinear(x, y);
    XtimeLinear(x2, y2);
    XtimeLinear(x4, y4);
    AddZero();
    var p0, p1 := if k & 1 != 0 then x else 0, if k & 2 != 0 then x2 else 0;
    var p2, p3 := if k & 4 != 0 then x4 else 0, if k & 8 != 0 then Xtime(x4) else 0;
    var q0, q1 := if k & 1 != 0 then y else 0, if k & 2 != 0 then y2 else 0;
    var q2, q3 := if k & 4 != 0 then y4 else 0, if k & 8 != 0 then Xtime(y4) else 0;
    AddSwap(Add(p0, p1), Add(p2, p3), Add(q0, q1), Add(q2, q3));
    AddSwap(p0, p1, q0, q1);
    AddSwap(p2, p3, q2, q3);
  }

  lemma DotLinear(k: Coeffs, x: Column, y: Column)
    ensures Dot(k, Plus(x, y)) == Add(Dot(k, x), Dot(k, y))
  {
    hide Mul;
    hide Add;
    MulLinear(k.a, x.a, y.a);
    MulLinear(k.b, x.b, y.b);
    MulLinear(k.c, x.c, y.c);
    MulLinear(k.d, x.d, y.d);
    var p0, p1, p2, p3 := Mul(k.a, x.a), Mul(k.b, x.b), Mul(k.c, x.c), Mul(k.d, x.d);
    var q0, q1, q2, q3 := Mul(k.a, y.a), Mul(k.b, y.b), Mul(k.c, y.c), Mul(k.d, y.d);
    AddSwap(Add(p0, p1), Add(p2, p3), Add(q0, q1), Add(q2, q3));
    AddSwap(p0, p1, q0, q1);
    AddSwap(p2, p3, q2, q3);
  }

  lemma MixLinear(x: Column, y: Column)
    ensures Mix(Plus(x, y)) == Plus(Mix(x), Mix(y))
  {
    hide Dot;
    hide Add;
    DotLinear(Coeffs(2, 3, 1, 1), x, y);
    DotLinear(Coeffs(1, 2, 3, 1), x, y);
    DotLinear(Coeffs(1, 1, 2, 3), x, y);
    DotLinear(Coeffs(3, 1, 1, 2), x, y);
  }

  /** InvMixColumns distributes over the round-key addition: the step on which the
      Equivalent Inverse Cipher (section 5.3.5) rests. */
  lemma InvMixLinear(x: Column, y: Column)
    ensures InvMix(Plus(x, y)) == Plus(InvMix(x), InvMix(y))
  {
    hide Dot;
    hide Add;
    DotLinear(Coeffs(14, 11, 13, 9), x, y);
    DotLinear(Coeffs(9, 14, 11, 13), x, y);
    DotLinear(Coeffs(13, 9, 14, 11), x, y);
    DotLinear(Coeffs(11, 13, 9, 14), x, y);
  }

  lemma InvMixMixRow0(v: bv8)
    ensures InvMix(Mix(Column(v, 0, 0, 0))) == Column(v, 0, 0, 0)
  {}

  lemma InvMixMixRow1(v: bv8)
    ensures InvMix(Mix(Column(0, v, 0, 0))) == Column(0, v, 0, 0)
  {}

  lemma InvMixMixRow2(v: bv8)
    ensures InvMix(Mix(Column(0, 0, v, 0))) == Column(0, 0, v, 0)
  {}

  lemma InvMixMixRow3(v: bv8)
    ensures InvMix(Mix(Column(0, 0, 0, v))) == Column(0, 0, 0, v)
  {}

  lemma SplitColumn(w: Column)
    ensures w == Plus(Plus(Column(w.a, 0, 0, 0), Column(0, w.b, 0, 0)),
                      Plus(Column(0, 0, w.c, 0), Column(0, 0, 0, w.d)))
  {}

  /** InvMixColumns undoes MixColumns: by linearity, it is enough to look at one row at a time. */
  lemma InvMixMix(w: Column)
    ensures InvMix(Mix(w)) == w
  {
    hide Mix;
    hide InvMix;
    hide Plus;
    var a, b := Column(w.a, 0, 0, 0), Column(0, w.b, 0, 0);
    var c, d := Column(0, 0, w.c, 0), Column(0, 0, 0, w.d);
    InvMixMixRow0(w.a);
    InvMixMixRow1(w.b);
    InvMixMixRow2(w.c);
    InvMixMixRow3(w.d);
    MixLinear(a, b);
    MixLinear(c, d);
    MixLinear(Plus(a, b), Plus(c, d));
    InvMixLinear(Mix(a), Mix(b));
    InvMixLinear(Mix(c), Mix(d));
    InvMixLinear(Mix(Plus(a, b)), Mix(Plus(c, d)));
    SplitColumn(w);
  }
}
