/** AES_set_encrypt_key and AES_set_decrypt_key, proved to fill the schedule with the words of
    FIPS 197's KeyExpansion, and to turn it into a decryption schedule in place. */
module AesKeySchedule {
  import opened AesField
  import opened AesCipher

  const RCON: seq<bv32> := [
    0x01000000, 0x02000000, 0x04000000, 0x08000000, 0x10000000,
    0x20000000, 0x40000000, 0x80000000, 0x1B000000, 0x36000000]

  function SubWord(box: SBox, w: bv32): bv32 {
    Pack(SubColumn(box, Unpack(w)))
  }

  function RotWord(w: bv32): bv32 {
    var c := Unpack(w);
    Pack(Column(c.b, c.c, c.d, c.a))
  }

  predicate KeyLength(nk: int) { nk == 4 || nk == 6 || nk == 8 }

  function RoundsOf(nk: nat): nat { nk + 6 }

  /** The i-th word of KeyExpansion (section 5.2) for a key of nk words. */
  function W(box: SBox, k: seq<bv32>, i: nat): bv32
    requires KeyLength(|k|) && i < 4 * RoundsOf(|k|) + 4
  {
    if i < |k| then k[i]
    else
      var before := W(box, k, i - 1);
      var temp :=
        if i % |k| == 0 then Xor(SubWord(box, RotWord(before)), RCON[i / |k| - 1])
        else if |k| > 6 && i % |k| == 4 then SubWord(box, before)
        else before;
      Xor(W(box, k, i - |k|), temp)
  }

  function Expansion(box: SBox, k: seq<bv32>): (w: seq<bv32>)
    requires KeyLength(|k|)
    ensures |w| == 4 * RoundsOf(|k|) + 4
  {
    seq(4 * RoundsOf(|k|) + 4, i requires 0 <= i < 4 * RoundsOf(|k|) + 4 => W(box, k, i))
  }

  /** Each round constant is the previous one times x. */
  lemma RconDoubles(i: nat)
    requires 0 < i < |RCON|
    ensures Unpack(RCON[0]) == Column(1, 0, 0, 0)
    ensures Unpack(RCON[i]) == Column(Xtime(Unpack(RCON[i - 1]).a), 0, 0, 0)
  {
    assert i == 1 || i == 2 || i == 3 || i == 4 || i == 5 || i == 6 || i == 7 || i == 8 || i == 9;
  }

  /** x, XORed with the S-box images of four bytes, each masked out of its Te4 entry. */
  function XorMasked(box: SBox, x: bv32, u: Column): bv32 {
    Xor(Xor(Xor(Xor(x, box.Te4(u.a) & 0xff000000), box.Te4(u.b) & 0x00ff0000),
            box.Te4(u.c) & 0x0000ff00), box.Te4(u.d) & 0x000000ff)
  }

  lemma XorFive(x: bv32, a: bv32, b: bv32, c: bv32, d: bv32)
    ensures Xor(Xor(Xor(Xor(x, a), b), c), d) == Xor(x, Xor(Xor(a, b), Xor(c, d)))
  {
    hide Xor;
    XorAssoc(x, a, b);
    XorAssoc(Xor(x, Xor(a, b)), c, d);
    XorAssoc(x, Xor(a, b), Xor(c, d));
  }

  lemma XorMaskedIs(box: SBox, x: bv32, u: Column)
    ensures XorMasked(box, x, u) == Xor(x, Pack(SubColumn(box, u)))
  {
    hide Xor;
    hide Pack;
    hide Plus;
    var s := SubColumn(box, u);
    MaskedByte(s.a);
    MaskedByte(s.b);
    MaskedByte(s.c);
    MaskedByte(s.d);
    PackPlus(Column(s.a, 0, 0, 0), Column(0, s.b, 0, 0));
    PackPlus(Column(0, 0, s.c, 0), Column(0, 0, 0, s.d));
    PackPlus(Plus(Column(s.a, 0, 0, 0), Column(0, s.b, 0, 0)), Plus(Column(0, 0, s.c, 0), Column(0, 0, 0, s.d)));
    SplitColumn(s);
    XorFive(x, Pack(Column(s.a, 0, 0, 0)), Pack(Column(0, s.b, 0, 0)), Pack(Column(0, 0, s.c, 0)), Pack(Column(0, 0, 0, s.d)));
  }

  /** The word that starts a key-length group: rotated, substituted, XORed with a constant. */
  function RotSubStep(box: SBox, x: bv32, temp: bv32, k: bv32): bv32 {
    var u := Unpack(temp);
    Xor(XorMasked(box, x, Column(u.b, u.c, u.d, u.a)), k)
  }

  lemma RotSubStepIs(box: SBox, x: bv32, temp: bv32, k: bv32)
    ensures RotSubStep(box, x, temp, k) == Xor(x, Xor(SubWord(box, RotWord(temp)), k))
  {
    hide Xor;
    hide XorMasked;
    hide Unpack;
    hide Pack;
    hide SubColumn;
    var u := Unpack(temp);
    var rot := Column(u.b, u.c, u.d, u.a);
    UnpackPack(rot);
    XorMaskedIs(box, x, rot);
    XorAssoc(x, Pack(SubColumn(box, rot)), k);
  }

  /** The first n words of the schedule are in place, and the others are what they were. */
  ghost predicate Filled(rk: seq<bv32>, was: seq<bv32>, box: SBox, k: seq<bv32>, n: nat) {
    && KeyLength(|k|) && n <= |rk| == |was| && n <= 4 * RoundsOf(|k|) + 4
    && (forall j :: 0 <= j < n ==> rk[j] == W(box, k, j))
    && forall j :: n <= j < |rk| ==> rk[j] == was[j]
  }

  /** One plain word of the schedule: XOR of its neighbour and the word one key length back. */
  method PutPlain(box: SBox, rk: array<bv32>, ghost was: seq<bv32>, ghost k: seq<bv32>, nk: nat, i: nat)
    requires KeyLength(|k|) && nk == |k| <= i < rk.Length && i < 4 * RoundsOf(nk) + 4
    requires Filled(rk[..], was, box, k, i)
    requires i % nk != 0 && !(nk == 8 && i % nk == 4)
    modifies rk
    ensures Filled(rk[..], was, box, k, i + 1)
  {
    hide SubWord;
    rk[i] := Xor(rk[i - nk], rk[i - 1]);
  }

  method PutRotated(box: SBox, rk: array<bv32>, ghost was: seq<bv32>, ghost k: seq<bv32>, nk: nat, i: nat, n: nat)
    requires KeyLength(|k|) && nk == |k| <= i < rk.Length && i < 4 * RoundsOf(nk) + 4
    requires Filled(rk[..], was, box, k, i)
    requires n < |RCON| && i == nk * (n + 1)
    modifies rk
    ensures Filled(rk[..], was, box, k, i + 1)
  {
    hide SubWord;
    hide RotWord;
    hide Xor;
    hide RotSubStep;
    RotSubStepIs(box, rk[i - nk], rk[i - 1], RCON[n]);
    assert i % nk == 0 && i / nk == n + 1 by { GroupStart(nk, n); }
    rk[i] := RotSubStep(box, rk[i - nk], rk[i - 1], RCON[n]);
  }

  lemma GroupStart(nk: nat, n: nat)
    requires KeyLength(nk)
    ensures nk * (n + 1) % nk == 0 && nk * (n + 1) / nk == n + 1
  {}

  /** The middle word of an eight-word group: substituted, not rotated. */
  method PutSubstituted(box: SBox, rk: array<bv32>, ghost was: seq<bv32>, ghost k: seq<bv32>, i: nat)
    requires |k| == 8 <= i < rk.Length && i < 4 * RoundsOf(8) + 4 && i % 8 == 4
    requires Filled(rk[..], was, box, k, i)
    modifies rk
    ensures Filled(rk[..], was, box, k, i + 1)
  {
    hide Xor;
    hide XorMasked;
    hide Unpack;
    hide Pack;
    hide SubColumn;
    XorMaskedIs(box, rk[i - 8], Unpack(rk[i - 1]));
    rk[i] := XorMasked(box, rk[i - 8], Unpack(rk[i - 1]));
  }

  method Expand128(box: SBox, rk: array<bv32>, ghost was: seq<bv32>, ghost k: seq<bv32>)
    requires |k| == 4 && 44 <= rk.Length && Filled(rk[..], was, box, k, 4)
    modifies rk
    ensures Filled(rk[..], was, box, k, 44)
  {
    hide Filled;
    hide W;
    var i, p := 0, 0;
    while true
      invariant 0 <= i < 10 && p == 4 * i && Filled(rk[..], was, box, k, p + 4)
      decreases 10 - i
    {
      PutRotated(box, rk, was, k, 4, p + 4, i);
      PutPlain(box, rk, was, k, 4, p + 5);
      PutPlain(box, rk, was, k, 4, p + 6);
      PutPlain(box, rk, was, k, 4, p + 7);
      i := i + 1;
      if i == 10 {
        return;
      }
      p := p + 4;
    }
  }

  method Expand192(box: SBox, rk: array<bv32>, ghost was: seq<bv32>, ghost k: seq<bv32>)
    requires |k| == 6 && 52 <= rk.Length && Filled(rk[..], was, box, k, 6)
    modifies rk
    ensures Filled(rk[..], was, box, k, 52)
  {
    hide Filled;
    hide W;
    var i, p := 0, 0;
    while true
      invariant 0 <= i < 8 && p == 6 * i && Filled(rk[..], was, box, k, p + 6)
      decreases 8 - i
    {
      PutRotated(box, rk, was, k, 6, p + 6, i);
      PutPlain(box, rk, was, k, 6, p + 7);
      PutPlain(box, rk, was, k, 6, p + 8);
      PutPlain(box, rk, was, k, 6, p + 9);
      i := i + 1;
      if i == 8 {
        return;
      }
      PutPlain(box, rk, was, k, 6, p + 10);
      PutPlain(box, rk, was, k, 6, p + 11);
      p := p + 6;
    }
  }

  method Expand256(box: SBox, rk: array<bv32>, ghost was: seq<bv32>, ghost k: seq<bv32>)
    requires |k| == 8 && 60 <= rk.Length && Filled(rk[..], was, box, k, 8)
    modifies rk
    ensures Filled(rk[..], was, box, k, 60)
  {
    hide Filled;
    hide W;
    var i, p := 0, 0;
    while true
      invariant 0 <= i < 7 && p == 8 * i && Filled(rk[..], was, box, k, p + 8)
      decreases 7 - i
    {
      PutRotated(box, rk, was, k, 8, p + 8, i);
      PutPlain(box, rk, was, k, 8, p + 9);
      PutPlain(box, rk, was, k, 8, p + 10);
      PutPlain(box, rk, was, k, 8, p + 11);
      i := i + 1;
      if i == 7 {
        return;
      }
      PutSubstituted(box, rk, was, k, p + 12);
      PutPlain(box, rk, was, k, 8, p + 13);
      PutPlain(box, rk, was, k, 8, p + 14);
      PutPlain(box, rk, was, k, 8, p + 15);
      p := p + 8;
    }
  }

  /** The key words of the first `bits` bits of a byte key. */
  function KeyWords(b: seq<bv8>, nk: nat): (k: seq<bv32>)
    requires 4 * nk <= |b|
    ensures |k| == nk
  {
    seq(nk, i requires 0 <= i < nk => Pack(Column(b[4 * i], b[4 * i + 1], b[4 * i + 2], b[4 * i + 3])))
  }

  /** AES_set_encrypt_key. A key of the wrong size or none at all is refused with nothing
      changed; otherwise exactly the first 4 * (rounds + 1) words are the key's expansion. */
  method SetEncryptKey(box: SBox, userKey: array?<bv8>, bits: int, key: AesKey) returns (ret: int)
    requires key.rd_key.Length == 60
    requires userKey != null && KeyLength(bits / 32) && bits % 32 == 0 ==> bits <= 8 * userKey.Length
    modifies key`rounds, key.rd_key
    ensures ret == if userKey == null then -1 else if bits != 128 && bits != 192 && bits != 256 then -2 else 0
    ensures ret != 0 ==> key.rounds == old(key.rounds) && key.rd_key[..] == old(key.rd_key[..])
    ensures ret == 0 ==>
      && key.rounds == RoundsOf(bits / 32) && key.Usable()
      && key.rd_key[..4 * key.rounds + 4] == Expansion(box, KeyWords(userKey[..], bits / 32))
      && key.rd_key[4 * key.rounds + 4..] == old(key.rd_key[..])[4 * key.rounds + 4..]
  {
    if userKey == null {
      return -1;
    }
    if bits != 128 && bits != 192 && bits != 256 {
      return -2;
    }
    var rk := key.rd_key;
    key.rounds := if bits == 128 then 10 else if bits == 192 then 12 else 14;
    var nk := bits / 32;
    ghost var k, was := KeyWords(userKey[..], nk), rk[..];
    LoadKey(box, rk, userKey, nk);
    if bits == 128 {
      Expand128(box, rk, was, k);
    } else if bits == 192 {
      Expand192(box, rk, was, k);
    } else {
      Expand256(box, rk, was, k);
    }
    ret := 0;
  }

  method LoadKey(box: SBox, rk: array<bv32>, userKey: array<bv8>, nk: nat)
    requires KeyLength(nk) && nk <= rk.Length && 4 * nk <= userKey.Length
    modifies rk
    ensures Filled(rk[..], old(rk[..]), box, KeyWords(userKey[..], nk), nk)
  {
    hide Pack;
    hide Unpack;
    for i := 0 to nk
      invariant forall j :: 0 <= j < i ==> rk[j] == KeyWords(userKey[..], nk)[j]
      invariant forall j :: i <= j < rk.Length ==> rk[j] == old(rk[j])
    {
      rk[i] := GetU32(userKey, 4 * i);
      PackUnpack(rk[i]);
    }
  }

  // ----- The decryption schedule -----

  /** Word c of round key r. */
  function KeyWord(w: seq<bv32>, r: nat, c: nat): bv32
    requires c < 4 && 4 * r + 4 <= |w|
  {
    w[4 * r + c]
  }

  /** One word of a reversal that is done for n round keys at both ends, and for c words of the next. */
  predicate WordReversing(rk: seq<bv32>, was: seq<bv32>, rounds: nat, n: nat, c: nat, r: nat, k: nat)
    requires r <= rounds && k < 4 && 4 * rounds + 4 <= |rk| && 4 * rounds + 4 <= |was|
  {
    var moved := r < n || rounds - n < r || ((r == n || r == rounds - n) && k < c);
    KeyWord(rk, r, k) == KeyWord(was, if moved then rounds - r else r, k)
  }

  ghost predicate Reversing(rk: seq<bv32>, was: seq<bv32>, rounds: nat, n: nat, c: nat) {
    && 4 * rounds + 4 <= |rk| == |was| && rk[4 * rounds + 4..] == was[4 * rounds + 4..]
    && forall r: nat, k: nat :: r <= rounds && k < 4 ==> WordReversing(rk, was, rounds, n, c, r, k)
  }

  lemma SwapStep(rk: seq<bv32>, was: seq<bv32>, rounds: nat, n: nat, m: nat, c: nat, next: seq<bv32>)
    requires Reversing(rk, was, rounds, n, c) && c < 4 && n < m == rounds - n
    requires next == rk[4 * n + c := KeyWord(rk, m, c)][4 * m + c := KeyWord(rk, n, c)]
    ensures Reversing(next, was, rounds, n, c + 1)
  {
    var done := c + 1;
    assert next[4 * rounds + 4..] == rk[4 * rounds + 4..];
    forall r: nat, k: nat | r <= rounds && k < 4
      ensures WordReversing(next, was, rounds, n, done, r, k)
    {
      assert WordReversing(rk, was, rounds, n, c, r, k);
      assert WordReversing(rk, was, rounds, n, c, n, c) && WordReversing(rk, was, rounds, n, c, m, c);
    }
  }

  /** The round keys in reverse order: a four-word swap at a time, from both ends. */
  method ReverseRoundKeys(rk: array<bv32>, rounds: nat)
    requires 4 * rounds + 4 <= rk.Length
    modifies rk
    ensures forall r: nat, c: nat :: r <= rounds && c < 4 ==>
      KeyWord(rk[..], r, c) == KeyWord(old(rk[..]), rounds - r, c)
    ensures rk[4 * rounds + 4..] == old(rk[..])[4 * rounds + 4..]
  {
    ghost var was := rk[..];
    ghost var n: nat := 0;
    var i, j := 0, 4 * rounds;
    while i < j
      invariant i == 4 * n && i + j == 4 * rounds && 2 * n <= rounds + 1
      invariant Reversing(rk[..], was, rounds, n, 0)
    {
      for c := 0 to 4
        invariant Reversing(rk[..], was, rounds, n, c)
      {
        ghost var before := rk[..];
        var temp := rk[i + c];
        rk[i + c] := rk[j + c];
        rk[j + c] := temp;
        SwapStep(before, was, rounds, n, rounds - n, c, rk[..]);
      }
      ReversingNext(rk[..], was, rounds, n);
      i := i + 4;
      j := j - 4;
      n := n + 1;
    }
    forall r: nat, c: nat | r <= rounds && c < 4
      ensures KeyWord(rk[..], r, c) == KeyWord(was, rounds - r, c)
    {
      assert WordReversing(rk[..], was, rounds, n, 0, r, c);
    }
  }

  lemma ReversingNext(rk: seq<bv32>, was: seq<bv32>, rounds: nat, n: nat)
    requires Reversing(rk, was, rounds, n, 4) && n < rounds - n
    ensures Reversing(rk, was, rounds, n + 1, 0)
  {
    var done := n + 1;
    forall r: nat, k: nat | r <= rounds && k < 4
      ensures WordReversing(rk, was, rounds, done, 0, r, k)
    {
      assert WordReversing(rk, was, rounds, n, 4, r, k);
    }
  }

  /** InvMixColumns on one key word, through the decryption tables. */
  function InvMixWord(box: SBox, w: bv32): bv32 {
    var u := Unpack(w);
    Xor(Xor(Xor(box.Td0(Unpack(box.Te4(u.a)).d), box.Td1(Unpack(box.Te4(u.b)).d)),
            box.Td2(Unpack(box.Te4(u.c)).d)), box.Td3(Unpack(box.Te4(u.d)).d))
  }

  lemma InvMixWordIs(box: SBox, w: bv32)
    requires box.Valid()
    ensures InvMixWord(box, w) == Pack(InvMix(Unpack(w)))
  {
    hide Xor;
    hide Unpack;
    hide Pack;
    hide Mul;
    hide Add;
    var u := Unpack(w);
    forall x: bv8
      ensures box.inv(Unpack(box.Te4(x)).d) == x
    {
      var s := box.sub(x);
      UnpackPack(Column(s, s, s, s));
      assert box.inv(box.sub(x)) == x;
    }
    var a, b, c, d := u.a, u.b, u.c, u.d;
    var p, q := Column(Mul(14, a), Mul(9, a), Mul(13, a), Mul(11, a)), Column(Mul(11, b), Mul(14, b), Mul(9, b), Mul(13, b));
    var r, s := Column(Mul(13, c), Mul(11, c), Mul(14, c), Mul(9, c)), Column(Mul(9, d), Mul(13, d), Mul(11, d), Mul(14, d));
    XorAssoc(Xor(Pack(p), Pack(q)), Pack(r), Pack(s));
    PackPlus(p, q);
    PackPlus(r, s);
    PackPlus(Plus(p, q), Plus(r, s));
  }

  /** InvMixColumns on every round key but the first and the last. */
  method InvMixRoundKeys(box: SBox, rk: array<bv32>, rounds: nat)
    requires box.Valid() && 0 < rounds && 4 * rounds + 4 <= rk.Length
    modifies rk
    ensures forall m :: 0 <= m < rk.Length ==>
      rk[m] == if 4 <= m < 4 * rounds then Pack(InvMix(Unpack(old(rk[m])))) else old(rk[m])
  {
    hide InvMixWord;
    hide Pack;
    hide Unpack;
    hide InvMix;
    var p := 0;
    for i := 1 to rounds
      invariant p == 4 * (i - 1)
      invariant forall m :: 0 <= m < rk.Length ==>
        rk[m] == if 4 <= m < 4 * i then Pack(InvMix(Unpack(old(rk[m])))) else old(rk[m])
    {
      p := p + 4;
      for c := 0 to 4
        invariant forall m :: 0 <= m < rk.Length ==>
          rk[m] == if 4 <= m < p + c then Pack(InvMix(Unpack(old(rk[m])))) else old(rk[m])
      {
        InvMixWordIs(box, rk[p + c]);
        rk[p + c] := InvMixWord(box, rk[p + c]);
      }
    }
  }

  /** AES_set_decrypt_key: the same refusals, and otherwise the decryption schedule that
      belongs to the encryption schedule of the same key. */
  method SetDecryptKey(box: SBox, userKey: array?<bv8>, bits: int, key: AesKey) returns (ret: int)
    requires box.Valid() && key.rd_key.Length == 60
    requires userKey != null && KeyLength(bits / 32) && bits % 32 == 0 ==> bits <= 8 * userKey.Length
    modifies key`rounds, key.rd_key
    ensures ret == if userKey == null then -1 else if bits != 128 && bits != 192 && bits != 256 then -2 else 0
    ensures ret != 0 ==> key.rounds == old(key.rounds) && key.rd_key[..] == old(key.rd_key[..])
    ensures ret == 0 ==>
      && key.rounds == RoundsOf(bits / 32) && key.Usable()
      && IsDecryptionSchedule(key.Schedule(), Expansion(box, KeyWords(userKey[..], bits / 32)), key.rounds)
      && key.rd_key[4 * key.rounds + 4..] == old(key.rd_key[..])[4 * key.rounds + 4..]
  {
    hide Expansion;
    hide KeyWords;
    hide Pack;
    hide Unpack;
    hide InvMix;
    hide IsDecryptionSchedule;
    ret := SetEncryptKey(box, userKey, bits, key);
    if ret < 0 {
      return;
    }
    ghost var w := key.rd_key[..4 * key.rounds + 4];
    ReverseRoundKeys(key.rd_key, key.rounds);
    ghost var v := key.rd_key[..];
    InvMixRoundKeys(box, key.rd_key, key.rounds);
    ReversedAndMixed(key.rd_key[..], v, w, key.rounds);
    assert key.rd_key[4 * key.rounds + 4..] == v[4 * key.rounds + 4..];
  }

  lemma ReversedAndMixed(d: seq<bv32>, v: seq<bv32>, w: seq<bv32>, rounds: nat)
    requires 0 < rounds && |w| == 4 * rounds + 4 <= |d| == |v|
    requires forall r: nat, c: nat :: r <= rounds && c < 4 ==> KeyWord(v, r, c) == KeyWord(w, rounds - r, c)
    requires forall m :: 0 <= m < |d| ==> d[m] == if 4 <= m < 4 * rounds then Pack(InvMix(Unpack(v[m]))) else v[m]
    ensures IsDecryptionSchedule(d, w, rounds)
  {
    hide Pack;
    hide Unpack;
    hide InvMix;
    forall r: nat | r <= rounds
      ensures RoundKey(d, r) == if 0 < r < rounds then InvMixColumns(RoundKey(w, rounds - r)) else RoundKey(w, rounds - r)
    {
      var o := 4 * (rounds - r);
      assert KeyWord(v, r, 0) == w[o] && KeyWord(v, r, 1) == w[o + 1];
      assert KeyWord(v, r, 2) == w[o + 2] && KeyWord(v, r, 3) == w[o + 3];
      UnpackPack(InvMix(Unpack(w[o])));
      UnpackPack(InvMix(Unpack(w[o + 1])));
      UnpackPack(InvMix(Unpack(w[o + 2])));
      UnpackPack(InvMix(Unpack(w[o + 3])));
    }
  }
}
