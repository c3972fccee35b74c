/** The DES core of d3des.c: the delta-swap permutations, the eight unrolled double rounds and
    the theorem that running the key pairs backwards undoes them, whatever the SP tables hold. */
module Des {

  datatype Pair = Pair(l: bv32, r: bv32)

  function Flip(p: Pair): Pair { Pair(p.r, p.l) }

  /** The combined S-box and P tables, indexed by six bits. Their contents never matter. */
  datatype Tables = Tables(sp1: bv32 -> bv32, sp2: bv32 -> bv32, sp3: bv32 -> bv32, sp4: bv32 -> bv32,
                           sp5: bv32 -> bv32, sp6: bv32 -> bv32, sp7: bv32 -> bv32, sp8: bv32 -> bv32)

  // ----- The permutations, as delta swaps between two words -----

  function Delta4(p: Pair): Pair {
    var w := ((p.l >> 4) ^ p.r) & 0x0f0f0f0f;
    Pair(p.l ^ (w << 4), p.r ^ w)
  }

  function Delta16(p: Pair): Pair {
    var w := ((p.l >> 16) ^ p.r) & 0x0000ffff;
    Pair(p.l ^ (w << 16), p.r ^ w)
  }

  function Delta2(p: Pair): Pair {
    var w := ((p.l >> 2) ^ p.r) & 0x33333333;
    Pair(p.l ^ (w << 2), p.r ^ w)
  }

  function Delta8(p: Pair): Pair {
    var w := ((p.l >> 8) ^ p.r) & 0x00ff00ff;
    Pair(p.l ^ (w << 8), p.r ^ w)
  }

  function Delta0(p: Pair): Pair {
    var w := (p.l ^ p.r) & 0xaaaaaaaa;
    Pair(p.l ^ w, p.r ^ w)
  }

  function Rotl(x: bv32): bv32 { ((x << 1) | ((x >> 31) & 1)) & 0xffffffff }

  function Rotr(x: bv32): bv32 { (x << 31) | (x >> 1) }

  function RotlLeft(p: Pair): Pair { Pair(Rotl(p.l), p.r) }

  function RotrLeft(p: Pair): Pair { Pair(Rotr(p.l), p.r) }

  /** The statements before the round loop: the initial permutation, each half left rotated by
      one bit. */
  function Initial(b: Pair): Pair {
    RotlLeft(Flip(Delta0(RotlLeft(Delta8(Delta2(Flip(Delta16(Delta4(b)))))))))
  }

  /** The statements after the round loop: the final permutation, with the halves swapped on output. */
  function Final(b: Pair): Pair {
    Delta4(Delta16(Flip(Delta2(Delta8(RotrLeft(Delta0(Flip(RotrLeft(Flip(b))))))))))
  }

  lemma Delta4Twice(p: Pair)
    ensures Delta4(Delta4(p)) == p
  {}

  lemma Delta16Twice(p: Pair)
    ensures Delta16(Delta16(p)) == p
  {}

  lemma Delta2Twice(p: Pair)
    ensures Delta2(Delta2(p)) == p
  {}

  lemma Delta8Twice(p: Pair)
    ensures Delta8(Delta8(p)) == p
  {}

  lemma Delta0Twice(p: Pair)
    ensures Delta0(Delta0(p)) == p
  {}

  lemma RotrRotl(x: bv32)
    ensures Rotr(Rotl(x)) == x && Rotl(Rotr(x)) == x
  {}

  /** The two permutations are inverse to each other, up to the swap of halves in between. */
  lemma FinalUndoesInitial(b: Pair)
    ensures Final(Flip(Initial(b))) == b
  {
    hide Delta0;
    hide Delta2;
    hide Delta4;
    hide Delta8;
    hide Delta16;
    hide Rotl;
    hide Rotr;
    var p2 := Delta16(Delta4(b));
    var p4 := Delta8(Delta2(Flip(p2)));
    var p5 := RotlLeft(p4);
    var p6 := Flip(Delta0(p5));
    RotrRotl(p6.l);
    Delta0Twice(p5);
    RotrRotl(p4.l);
    Delta8Twice(Delta2(Flip(p2)));
    Delta2Twice(Flip(p2));
    Delta16Twice(Delta4(b));
    Delta4Twice(b);
  }

  lemma InitialUndoesFinal(b: Pair)
    ensures Initial(Final(b)) == Flip(b)
  {
    hide Delta0;
    hide Delta2;
    hide Delta4;
    hide Delta8;
    hide Delta16;
    hide Rotl;
    hide Rotr;
    var q1 := RotrLeft(Flip(b));
    var q2 := Delta0(Flip(q1));
    var q3 := RotrLeft(q2);
    var q5 := Delta2(Delta8(q3));
    Delta4Twice(Delta16(Flip(q5)));
    Delta16Twice(Flip(q5));
    Delta2Twice(Delta8(q3));
    Delta8Twice(q3);
    RotrRotl(q2.l);
    Delta0Twice(Flip(q1));
    RotrRotl(b.r);
  }

  // ----- The rounds -----

  /** The round function on one half, under the two words of a round key. */
  function F(t: Tables, half: bv32, k0: bv32, k1: bv32): bv32 {
    var w, v := Turned(half, k0), Xor(half, k1);
    t.sp7(Six0(w)) | t.sp5(Six8(w)) | t.sp3(Six16(w)) | t.sp1(Six24(w)) |
    t.sp8(Six0(v)) | t.sp6(Six8(v)) | t.sp4(Six16(v)) | t.sp2(Six24(v))
  }

  function Turned(half: bv32, k0: bv32): bv32 { ((half << 28) | (half >> 4)) ^ k0 }

  // The six bits of a word that index a table.

  function Six0(w: bv32): bv32 { w & 0x3f }

  function Six8(w: bv32): bv32 { (w >> 8) & 0x3f }

  function Six16(w: bv32): bv32 { (w >> 16) & 0x3f }

  function Six24(w: bv32): bv32 { (w >> 24) & 0x3f }

  /** Exclusive or: a name for `^` that proofs can hide. */
  function Xor(x: bv32, y: bv32): bv32 { x ^ y }

  /** Two Feistel rounds, without a swap, under two round keys. */
  function Feistel(t: Tables, first: Pair, second: Pair, p: Pair): Pair {
    var l := Xor(p.l, F(t, p.r, first.l, first.r));
    var r := Xor(p.r, F(t, l, second.l, second.r));
    Pair(l, r)
  }

  /** One pass of the round loop. */
  function DoubleRound(t: Tables, k: seq<bv32>, n: nat, p: Pair): Pair
    requires 4 * n + 4 <= |k|
  {
    Feistel(t, KeyPair(k, 2 * n), KeyPair(k, 2 * n + 1), p)
  }

  function Rounds(t: Tables, k: seq<bv32>, n: nat, p: Pair): Pair
    requires 4 * n <= |k|
  {
    if n == 0 then p else DoubleRound(t, k, n - 1, Rounds(t, k, n - 1, p))
  }

  /** The block cipher on a pair of words, under 32 key words. */
  function Core(t: Tables, k: seq<bv32>, b: Pair): Pair
    requires |k| == 32
  {
    Final(Rounds(t, k, 8, Initial(b)))
  }

  /** The two words of round key i. */
  function KeyPair(k: seq<bv32>, i: nat): Pair
    requires 2 * i + 2 <= |k|
  {
    Pair(k[2 * i], k[2 * i + 1])
  }

  /** d holds the sixteen round keys of k in reverse order. */
  ghost predicate KeysReversed(d: seq<bv32>, k: seq<bv32>) {
    && |d| == |k| == 32
    && forall i: nat :: i < 16 ==> KeyPair(d, i) == KeyPair(k, 15 - i)
  }

  lemma XorCancels(x: bv32, y: bv32)
    ensures Xor(Xor(x, y), y) == x
  {}

  /** With its round keys exchanged, a double round on the swapped halves takes itself back. */
  lemma FeistelUndone(t: Tables, first: Pair, second: Pair, p: Pair)
    ensures Feistel(t, second, first, Flip(Feistel(t, first, second, p))) == Flip(p)
  {
    hide F;
    hide Xor;
    var q := Feistel(t, first, second, p);
    XorCancels(p.r, F(t, q.l, second.l, second.r));
    XorCancels(p.l, F(t, p.r, first.l, first.r));
  }

  lemma DoubleRoundUndone(t: Tables, k: seq<bv32>, d: seq<bv32>, n: nat, p: Pair)
    requires KeysReversed(d, k) && n < 8
    ensures DoubleRound(t, d, n, Flip(DoubleRound(t, k, 7 - n, p))) == Flip(p)
  {
    hide Feistel;
    hide KeyPair;
    assert KeyPair(d, 2 * n) == KeyPair(k, 15 - 2 * n) == KeyPair(k, 2 * (7 - n) + 1);
    assert KeyPair(d, 2 * n + 1) == KeyPair(k, 14 - 2 * n) == KeyPair(k, 2 * (7 - n));
    FeistelUndone(t, KeyPair(k, 2 * (7 - n)), KeyPair(k, 2 * (7 - n) + 1), p);
  }

  lemma {:induction false} RoundsUndone(t: Tables, k: seq<bv32>, d: seq<bv32>, n: nat, p: Pair)
    requires KeysReversed(d, k) && n <= 8
    ensures Rounds(t, d, n, Flip(Rounds(t, k, 8, p))) == Flip(Rounds(t, k, 8 - n, p))
  {
    hide DoubleRound;
    if n > 0 {
      RoundsUndone(t, k, d, n - 1, p);
      DoubleRoundUndone(t, k, d, n - 1, Rounds(t, k, 8 - n, p));
    }
  }

  /** A schedule and its reverse decipher each other. */
  lemma CoreUndone(t: Tables, k: seq<bv32>, d: seq<bv32>, b: Pair)
    requires KeysReversed(d, k)
    ensures Core(t, d, Core(t, k, b)) == b
  {
    hide Initial;
    hide Final;
    InitialUndoesFinal(Rounds(t, k, 8, Initial(b)));
    RoundsUndone(t, k, d, 8, Initial(b));
    FinalUndoesInitial(b);
  }

  lemma ReversalIsSymmetric(d: seq<bv32>, k: seq<bv32>)
    requires KeysReversed(d, k)
    ensures KeysReversed(k, d)
  {
    forall i: nat | i < 16
      ensures KeyPair(k, i) == KeyPair(d, 15 - i)
    {
      assert KeyPair(d, 15 - i) == KeyPair(k, 15 - (15 - i));
    }
  }

  /** The round loop of desfunc. */
  method RoundLoop(t: Tables, p: Pair, keys: array<bv32>) returns (q: Pair)
    requires keys.Length == 32
    ensures q == Rounds(t, keys[..], 8, p)
  {
    hide F;
    hide Xor;
    var leftt, right, i := p.l, p.r, 0;
    for round := 0 to 8
      invariant i == 4 * round && Pair(leftt, right) == Rounds(t, keys[..], round, p)
    {
      leftt := Xor(leftt, F(t, right, keys[i], keys[i + 1]));
      right := Xor(right, F(t, leftt, keys[i + 2], keys[i + 3]));
      i := i + 4;
    }
    q := Pair(leftt, right);
  }

  /** desfunc, on its two-word block in place. */
  method Desfunc(t: Tables, block: array<bv32>, keys: array<bv32>)
    requires block.Length == 2 && keys.Length == 32 && block != keys
    modifies block
    ensures Pair(block[0], block[1]) == Core(t, keys[..], Pair(old(block[0]), old(block[1])))
  {
    hide Initial;
    hide Final;
    hide Rounds;
    var p := RoundLoop(t, Initial(Pair(block[0], block[1])), keys);
    var q := Final(p);
    block[0], block[1] := q.l, q.r;
  }
}
