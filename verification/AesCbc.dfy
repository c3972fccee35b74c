/** AES_cbc_encrypt on byte buffers, in place or not, against cipher block chaining. */
module AesCbc {
  import Cbc
  import opened AesField
  import opened AesCipher
  import opened Common

  /** The block cipher of a schedule, as functions from blocks to blocks. */
  function Enciphering(box: SBox, w: seq<bv32>, rounds: nat): Cbc.Block -> Cbc.Block
    requires 0 < rounds && 4 * rounds + 4 <= |w|
  {
    (b: Cbc.Block) => StateBytes(Cipher(box, w, rounds, StateAt(b, 0)))
  }

  function Deciphering(box: SBox, w: seq<bv32>, rounds: nat): Cbc.Block -> Cbc.Block
    requires 0 < rounds && 4 * rounds + 4 <= |w|
  {
    (b: Cbc.Block) => StateBytes(InvCipher(box, w, rounds, StateAt(b, 0)))
  }

  /** Deciphering under the decryption schedule inverts Enciphering on every block, which is
      what Cbc.RoundTrip asks of a block cipher. */
  lemma DecipheringInverts(box: SBox, w: seq<bv32>, d: seq<bv32>, rounds: nat)
    requires box.Valid() && 0 < rounds && IsDecryptionSchedule(d, w, rounds)
    ensures forall b: Cbc.Block :: Deciphering(box, d, rounds)(Enciphering(box, w, rounds)(b)) == b
  {
    hide Cipher;
    hide InvCipher;
    hide StateAt;
    hide StateBytes;
    forall b: Cbc.Block
      ensures Deciphering(box, d, rounds)(Enciphering(box, w, rounds)(b)) == b
    {
      DecryptUndoesEncrypt(box, w, d, rounds, StateAt(b, 0));
      BytesOfStateAt(b, 0);
      assert b[0..BLOCK_SIZE] == b;
    }
  }

  /** The round trip of whole messages through AES in CBC mode. The two chaining values agree
      exactly if the length is in whole blocks or the last input block is not changed. */
  lemma AesCbcRoundTrip(box: SBox, w: seq<bv32>, d: seq<bv32>, rounds: nat, data: seq<bv8>, iv: Cbc.Block)
    requires box.Valid() && 0 < rounds && IsDecryptionSchedule(d, w, rounds)
    ensures var e := Enciphering(box, w, rounds);
            && Cbc.Decrypt(Deciphering(box, d, rounds), Cbc.Encrypt(e, data, iv), |data|, iv) == data
            && (Cbc.ChainsMatch(e, Deciphering(box, d, rounds), data, iv) <==>
                  |data| % BLOCK_SIZE == 0 || e(Cbc.LastInput(e, data, iv)) == Cbc.LastInput(e, data, iv))
  {
    hide Enciphering;
    hide Deciphering;
    DecipheringInverts(box, w, d, rounds);
    Cbc.RoundTrip(Enciphering(box, w, rounds), Deciphering(box, d, rounds), data, iv);
    Cbc.ChainsAgree(Enciphering(box, w, rounds), Deciphering(box, d, rounds), data, iv);
  }

  /** For AES the chaining values agree on all data of a length exactly if the length is in whole
      blocks or the schedule enciphers every block to itself. */
  lemma AesChainsAgreeByLength(box: SBox, w: seq<bv32>, d: seq<bv32>, rounds: nat, n: nat)
    requires box.Valid() && 0 < rounds && IsDecryptionSchedule(d, w, rounds)
    ensures (forall data: seq<bv8>, iv: Cbc.Block :: |data| == n ==>
               Cbc.ChainsMatch(Enciphering(box, w, rounds), Deciphering(box, d, rounds), data, iv))
       <==> n % BLOCK_SIZE == 0 || forall b: Cbc.Block :: Enciphering(box, w, rounds)(b) == b
  {
    hide Enciphering;
    hide Deciphering;
    DecipheringInverts(box, w, d, rounds);
    Cbc.ChainsAgreeByLength(Enciphering(box, w, rounds), Deciphering(box, d, rounds), n);
  }

  /** tmp becomes the next chunk, padded, XORed with the chaining value. */
  method XorChunk(tmp: array<bv8>, inp: array<bv8>, i: nat, len: nat, ivec: array<bv8>)
    requires tmp.Length == ivec.Length == BLOCK_SIZE && len <= BLOCK_SIZE && i + len <= inp.Length
    requires tmp != inp && tmp != ivec
    modifies tmp
    ensures tmp[..] == Cbc.XorBytes(Cbc.Pad(inp[i..i + len]), ivec[..])
  {
    for n := 0 to len
      invariant forall m :: 0 <= m < n ==> tmp[m] == inp[i + m] ^ ivec[m]
    {
      tmp[n] := inp[i + n] ^ ivec[n];
    }
    for n := len to BLOCK_SIZE
      invariant forall m :: 0 <= m < len ==> tmp[m] == inp[i + m] ^ ivec[m]
      invariant forall m :: len <= m < n ==> tmp[m] == 0 ^ ivec[m]
    {
      tmp[n] := ivec[n];
    }
  }

  /** memcpy of one block. */
  method CopyBlock(dst: array<bv8>, o: nat, src: array<bv8>, i: nat)
    requires dst != src && o + BLOCK_SIZE <= dst.Length && i + BLOCK_SIZE <= src.Length
    modifies dst
    ensures dst[..] == Splice(old(dst[..]), o, src[i..i + BLOCK_SIZE])
  {
    for n := 0 to BLOCK_SIZE
      invariant dst[..] == Splice(old(dst[..]), o, src[i..i + n])
    {
      dst[o + n] := src[i + n];
    }
  }

  /** One whole block of the enc branch. */
  method EncryptChunk(box: SBox, inp: array<bv8>, out: array<bv8>, i: nat, key: AesKey, ivec: array<bv8>,
                      tmp: array<bv8>)
    requires key.Usable() && i + BLOCK_SIZE <= inp.Length && i + BLOCK_SIZE <= out.Length
    requires ivec.Length == tmp.Length == BLOCK_SIZE && ivec != out && tmp != inp && tmp != out && tmp != ivec
    modifies out, ivec, tmp
    ensures ivec[..] == Enciphering(box, key.Schedule(), key.rounds)(Cbc.XorBytes(old(inp[i..i + BLOCK_SIZE]), old(ivec[..])))
    ensures out[..] == Splice(old(out[..]), i, ivec[..])
  {
    hide Cipher;
    hide StateAt;
    hide Splice;
    hide Cbc.XorBytes;
    assert Cbc.Pad(inp[i..i + BLOCK_SIZE]) == inp[i..i + BLOCK_SIZE];
    XorChunk(tmp, inp, i, BLOCK_SIZE, ivec);
    Encrypt(box, tmp, 0, out, i, key);
    SpliceAt(old(out[..]), i, StateBytes(Cipher(box, key.Schedule(), key.rounds, StateAt(tmp[..], 0))));
    CopyBlock(ivec, 0, out, i);
    SpliceWhole(old(ivec[..]), out[i..i + BLOCK_SIZE]);
  }

  lemma SpliceAt(b: seq<bv8>, i: nat, x: seq<bv8>)
    requires i + |x| <= |b|
    ensures Splice(b, i, x)[i..i + |x|] == x
  {}

  lemma SpliceWhole(b: seq<bv8>, x: seq<bv8>)
    requires |x| == |b|
    ensures Splice(b, 0, x) == x
  {}

  /** The final, partial block of the enc branch, by way of the temporary. */
  method EncryptTail(box: SBox, inp: array<bv8>, out: array<bv8>, i: nat, len: nat, key: AesKey, ivec: array<bv8>,
                     tmp: array<bv8>)
    requires key.Usable() && 0 < len < BLOCK_SIZE && i + len <= inp.Length && i + BLOCK_SIZE <= out.Length
    requires ivec.Length == tmp.Length == BLOCK_SIZE && ivec != out && tmp != inp && tmp != out && tmp != ivec
    modifies out, ivec, tmp
    ensures ivec[..] == Enciphering(box, key.Schedule(), key.rounds)(Cbc.XorBytes(Cbc.Pad(old(inp[i..i + len])), old(ivec[..])))
    ensures out[..] == Splice(old(out[..]), i, ivec[..])
  {
    hide Cipher;
    hide StateAt;
    hide Splice;
    hide Cbc.XorBytes;
    hide Cbc.Pad;
    XorChunk(tmp, inp, i, len, ivec);
    ghost var x := tmp[..];
    Encrypt(box, tmp, 0, tmp, 0, key);
    SpliceWhole(x, StateBytes(Cipher(box, key.Schedule(), key.rounds, StateAt(x, 0))));
    CopyBlock(out, i, tmp, 0);
    CopyBlock(ivec, 0, tmp, 0);
    assert tmp[0..BLOCK_SIZE] == tmp[..];
    SpliceWhole(old(ivec[..]), tmp[..]);
  }

  /** Encryption in progress: the first pos bytes are written, the rest is still to be read. */
  ghost predicate Encrypting(e: Cbc.Block -> Cbc.Block, data: seq<bv8>, iv: Cbc.Block, was: seq<bv8>,
                             out: seq<bv8>, rest: seq<bv8>, chain: seq<bv8>, pos: nat) {
    var all := Cbc.Encrypt(e, data, iv);
    && |chain| == BLOCK_SIZE && pos <= |data| && |all| <= |was| && rest == data[pos..]
    && out == Splice(was, 0, all[..pos])
    && all[pos..] == Cbc.Encrypt(e, rest, chain)
    && Cbc.EncryptChain(e, data, iv) == Cbc.EncryptChain(e, rest, chain)
  }

  lemma EncryptAdvances(e: Cbc.Block -> Cbc.Block, data: seq<bv8>, iv: Cbc.Block, was: seq<bv8>,
                        out: seq<bv8>, rest: seq<bv8>, chain: seq<bv8>, pos: nat)
    requires Encrypting(e, data, iv, was, out, rest, chain, pos) && |rest| >= BLOCK_SIZE
    ensures var c := e(Cbc.XorBytes(rest[..BLOCK_SIZE], chain));
            Encrypting(e, data, iv, was, Splice(out, pos, c), rest[BLOCK_SIZE..], c, pos + BLOCK_SIZE)
  {
    hide Cbc.XorBytes;
    hide Cbc.Pad;
    hide Splice;
    var all := Cbc.Encrypt(e, data, iv);
    var c: Cbc.Block := e(Cbc.XorBytes(rest[..BLOCK_SIZE], chain));
    var tail: seq<bv8> := Cbc.Encrypt(e, rest[BLOCK_SIZE..], c);
    assert all[pos..] == c + tail;
    assert all == all[..pos] + (c + tail);
    assert all[..pos + BLOCK_SIZE] == all[..pos] + c;
    assert all[pos + BLOCK_SIZE..] == tail;
    SpliceTwice(was, 0, all[..pos], c);
  }

  lemma EncryptEnds(e: Cbc.Block -> Cbc.Block, data: seq<bv8>, iv: Cbc.Block, was: seq<bv8>,
                    out: seq<bv8>, rest: seq<bv8>, chain: seq<bv8>, pos: nat)
    requires Encrypting(e, data, iv, was, out, rest, chain, pos) && |rest| < BLOCK_SIZE
    ensures rest == [] ==> out == Splice(was, 0, Cbc.Encrypt(e, data, iv)) && chain == Cbc.EncryptChain(e, data, iv)
    ensures rest != [] ==>
      var c := e(Cbc.XorBytes(Cbc.Pad(rest), chain));
      && pos + BLOCK_SIZE <= |was|
      && Splice(out, pos, c) == Splice(was, 0, Cbc.Encrypt(e, data, iv)) && c == Cbc.EncryptChain(e, data, iv)
  {
    hide Cbc.XorBytes;
    hide Cbc.Pad;
    hide Splice;
    var all := Cbc.Encrypt(e, data, iv);
    var tail: seq<bv8> := Cbc.Encrypt(e, rest, chain);
    assert all == all[..pos] + tail;
    assert tail == [] ==> all == all[..pos];
    SpliceTwice(was, 0, all[..pos], tail);
  }

  /** The enc branch. */
  method EncryptBuffer(box: SBox, inp: array<bv8>, out: array<bv8>, length: nat, key: AesKey, ivec: array<bv8>)
    requires key.Usable() && length <= inp.Length && Cbc.PaddedLength(length) <= out.Length
    requires ivec.Length == BLOCK_SIZE && ivec != inp && ivec != out
    modifies out, ivec
    ensures var e := Enciphering(box, key.Schedule(), key.rounds);
            && out[..] == Splice(old(out[..]), 0, Cbc.Encrypt(e, old(inp[..length]), old(ivec[..])))
            && ivec[..] == Cbc.EncryptChain(e, old(inp[..length]), old(ivec[..]))
  {
    hide Cbc.XorBytes;
    hide Cbc.Pad;
    hide Cbc.Encrypt;
    hide Cbc.EncryptChain;
    hide Enciphering;
    hide Splice;
    ghost var e := Enciphering(box, key.Schedule(), key.rounds);
    ghost var data, iv, was := inp[..length], ivec[..], out[..];
    var tmp := new bv8[BLOCK_SIZE];
    var pos, len := 0, length;
    SpliceNone(was);
    assert data[0..] == data && Cbc.Encrypt(e, data, iv)[..0] == [];
    while len >= BLOCK_SIZE
      invariant 0 <= pos && 0 <= len && pos + len == length
      invariant Encrypting(e, data, iv, was, out[..], inp[pos..length], ivec[..], pos)
    {
      ghost var before, rest, chain := out[..], inp[pos..length], ivec[..];
      assert inp[pos..pos + BLOCK_SIZE] == rest[..BLOCK_SIZE];
      EncryptAdvances(e, data, iv, was, before, rest, chain, pos);
      EncryptChunk(box, inp, out, pos, key, ivec, tmp);
      SpliceBeyond(before, pos, ivec[..], length);
      RestTo(before, pos, length);
      assert rest == if inp == out then before[pos..length] else inp[..][pos..length];
      assert inp[pos + BLOCK_SIZE..length] == rest[BLOCK_SIZE..] by {
        if inp == out {
          assert inp[..] == out[..];
        } else {
          RestTo(inp[..], pos, length);
        }
      }
      len := len - BLOCK_SIZE;
      pos := pos + BLOCK_SIZE;
    }
    EncryptEnds(e, data, iv, was, out[..], inp[pos..length], ivec[..], pos);
    if len != 0 {
      EncryptTail(box, inp, out, pos, len, key, ivec, tmp);
    }
  }

  lemma RestTo(b: seq<bv8>, pos: nat, n: nat)
    requires pos + BLOCK_SIZE <= n <= |b|
    ensures b[pos + BLOCK_SIZE..n] == b[pos..n][BLOCK_SIZE..]
  {}

  lemma RestOf(b: seq<bv8>, pos: nat)
    requires pos + BLOCK_SIZE <= |b|
    ensures b[pos + BLOCK_SIZE..] == b[pos..][BLOCK_SIZE..] == b[pos + BLOCK_SIZE..|b|]
  {}

  lemma SpliceBeyond(b: seq<bv8>, i: nat, x: seq<bv8>, n: nat)
    requires i + |x| <= n <= |b|
    ensures Splice(b, i, x)[i + |x|..n] == b[i + |x|..n]
  {}

  lemma SpliceNone(b: seq<bv8>)
    ensures Splice(b, 0, []) == b
  {}

  /** XORs the chaining value into a block of the output. */
  method XorBlock(out: array<bv8>, o: nat, ivec: array<bv8>)
    requires ivec.Length == BLOCK_SIZE && ivec != out && o + BLOCK_SIZE <= out.Length
    modifies out
    ensures out[..] == Splice(old(out[..]), o, Cbc.XorBytes(old(out[o..o + BLOCK_SIZE]), ivec[..]))
  {
    for n := 0 to BLOCK_SIZE
      invariant forall m :: 0 <= m < out.Length && !(o <= m < o + n) ==> out[m] == old(out[m])
      invariant forall m :: o <= m < o + n ==> out[m] == old(out[m]) ^ ivec[m - o]
    {
      out[o + n] := out[o + n] ^ ivec[n];
    }
  }

  /** Writes len bytes of a block, XORed with the chaining value. */
  method XorTail(out: array<bv8>, o: nat, src: array<bv8>, len: nat, ivec: array<bv8>)
    requires ivec.Length == src.Length == BLOCK_SIZE && ivec != out && src != out
    requires len <= BLOCK_SIZE && o + len <= out.Length
    modifies out
    ensures out[..] == Splice(old(out[..]), o, Cbc.XorBytes(src[..], ivec[..])[..len])
  {
    for n := 0 to len
      invariant forall m :: 0 <= m < out.Length && !(o <= m < o + n) ==> out[m] == old(out[m])
      invariant forall m :: o <= m < o + n ==> out[m] == src[m - o] ^ ivec[m - o]
    {
      out[o + n] := src[n] ^ ivec[n];
    }
  }

  /** One whole block of the dec branch. */
  method DecryptChunk(box: SBox, inp: array<bv8>, out: array<bv8>, i: nat, key: AesKey, ivec: array<bv8>,
                      tmp: array<bv8>)
    requires key.Usable() && i + BLOCK_SIZE <= inp.Length && i + BLOCK_SIZE <= out.Length
    requires ivec.Length == tmp.Length == BLOCK_SIZE && ivec != inp && ivec != out && tmp != inp && tmp != out && tmp != ivec
    modifies out, ivec, tmp
    ensures out[..] == Splice(old(out[..]), i,
      Cbc.XorBytes(Deciphering(box, key.Schedule(), key.rounds)(old(inp[i..i + BLOCK_SIZE])), old(ivec[..])))
    ensures ivec[..] == old(inp[i..i + BLOCK_SIZE])
  {
    hide InvCipher;
    hide StateAt;
    hide StateBytes;
    hide Splice;
    hide Cbc.XorBytes;
    ghost var was, c := out[..], inp[i..i + BLOCK_SIZE];
    CopyBlock(tmp, 0, inp, i);
    SpliceWhole(old(tmp[..]), c);
    StateAtSlice(inp[..], i);
    Decrypt(box, inp, i, out, i, key);
    ghost var p := StateBytes(InvCipher(box, key.Schedule(), key.rounds, StateAt(c, 0)));
    SpliceAt(was, i, p);
    XorBlock(out, i, ivec);
    SpliceOver(was, i, p, Cbc.XorBytes(p, ivec[..]));
    CopyBlock(ivec, 0, tmp, 0);
    SpliceWhole(old(ivec[..]), tmp[0..BLOCK_SIZE]);
  }

  lemma StateAtSlice(b: seq<bv8>, i: nat)
    requires i + BLOCK_SIZE <= |b|
    ensures StateAt(b, i) == StateAt(b[i..i + BLOCK_SIZE], 0)
  {}

  lemma SpliceOver(b: seq<bv8>, i: nat, x: seq<bv8>, y: seq<bv8>)
    requires |x| == |y| && i + |x| <= |b|
    ensures Splice(Splice(b, i, x), i, y) == Splice(b, i, y)
  {}

  /** The final, partial block of the dec branch, by way of the temporary, which is what the
      chaining value is then taken from. */
  method DecryptTail(box: SBox, inp: array<bv8>, out: array<bv8>, i: nat, len: nat, key: AesKey, ivec: array<bv8>,
                     tmp: array<bv8>)
    requires key.Usable() && 0 < len < BLOCK_SIZE && i + BLOCK_SIZE <= inp.Length && i + len <= out.Length
    requires ivec.Length == tmp.Length == BLOCK_SIZE && ivec != inp && ivec != out && tmp != inp && tmp != out && tmp != ivec
    modifies out, ivec, tmp
    ensures ivec[..] == Deciphering(box, key.Schedule(), key.rounds)(old(inp[i..i + BLOCK_SIZE]))
    ensures out[..] == Splice(old(out[..]), i, Cbc.XorBytes(ivec[..], old(ivec[..]))[..len])
  {
    hide InvCipher;
    hide StateAt;
    hide StateBytes;
    hide Splice;
    hide Cbc.XorBytes;
    ghost var c := inp[i..i + BLOCK_SIZE];
    CopyBlock(tmp, 0, inp, i);
    SpliceWhole(old(tmp[..]), c);
    Decrypt(box, tmp, 0, tmp, 0, key);
    SpliceWhole(c, StateBytes(InvCipher(box, key.Schedule(), key.rounds, StateAt(c, 0))));
    assert tmp[0..BLOCK_SIZE] == tmp[..];
    XorTail(out, i, tmp, len, ivec);
    CopyBlock(ivec, 0, tmp, 0);
    SpliceWhole(old(ivec[..]), tmp[0..BLOCK_SIZE]);
  }

  /** Decryption in progress: the first pos bytes are written, n more are to come from rest. */
  ghost predicate Decrypting(d: Cbc.Block -> Cbc.Block, data: seq<bv8>, length: nat, iv: Cbc.Block, was: seq<bv8>,
                             out: seq<bv8>, rest: seq<bv8>, chain: seq<bv8>, pos: nat) {
    && |chain| == BLOCK_SIZE && pos <= length <= |was| && pos <= |data| && rest == data[pos..]
    && Cbc.PaddedLength(length) <= |data| && Cbc.PaddedLength(length - pos) <= |rest|
    && var all := Cbc.Decrypt(d, data, length, iv);
    && out == Splice(was, 0, all[..pos])
    && all[pos..] == Cbc.Decrypt(d, rest, length - pos, chain)
    && Cbc.DecryptChain(d, data, length, iv) == Cbc.DecryptChain(d, rest, length - pos, chain)
  }

  lemma DecryptAdvances(d: Cbc.Block -> Cbc.Block, data: seq<bv8>, length: nat, iv: Cbc.Block, was: seq<bv8>,
                        out: seq<bv8>, rest: seq<bv8>, chain: seq<bv8>, pos: nat)
    requires Decrypting(d, data, length, iv, was, out, rest, chain, pos) && length - pos >= BLOCK_SIZE
    ensures var p := Cbc.XorBytes(d(rest[..BLOCK_SIZE]), chain);
            Decrypting(d, data, length, iv, was, Splice(out, pos, p), rest[BLOCK_SIZE..], rest[..BLOCK_SIZE], pos + BLOCK_SIZE)
  {
    hide Cbc.XorBytes;
    hide Splice;
    var all := Cbc.Decrypt(d, data, length, iv);
    var p := Cbc.XorBytes(d(rest[..BLOCK_SIZE]), chain);
    var tail: seq<bv8> := Cbc.Decrypt(d, rest[BLOCK_SIZE..], length - pos - BLOCK_SIZE, rest[..BLOCK_SIZE]);
    assert all[pos..] == p + tail;
    assert all == all[..pos] + (p + tail);
    assert all[..pos + BLOCK_SIZE] == all[..pos] + p;
    assert all[pos + BLOCK_SIZE..] == tail;
    SpliceTwice(was, 0, all[..pos], p);
  }

  lemma DecryptEnds(d: Cbc.Block -> Cbc.Block, data: seq<bv8>, length: nat, iv: Cbc.Block, was: seq<bv8>,
                    out: seq<bv8>, rest: seq<bv8>, chain: seq<bv8>, pos: nat)
    requires Decrypting(d, data, length, iv, was, out, rest, chain, pos) && length - pos < BLOCK_SIZE
    ensures pos == length ==>
      out == Splice(was, 0, Cbc.Decrypt(d, data, length, iv)) && chain == Cbc.DecryptChain(d, data, length, iv)
    ensures pos < length ==>
      var p := d(rest[..BLOCK_SIZE]);
      && Splice(out, pos, Cbc.XorBytes(p, chain)[..length - pos]) == Splice(was, 0, Cbc.Decrypt(d, data, length, iv))
      && p == Cbc.DecryptChain(d, data, length, iv)
  {
    hide Cbc.XorBytes;
    hide Splice;
    var all := Cbc.Decrypt(d, data, length, iv);
    var tail: seq<bv8> := Cbc.Decrypt(d, rest, length - pos, chain);
    assert all == all[..pos] + tail;
    assert tail == [] ==> all == all[..pos];
    SpliceTwice(was, 0, all[..pos], tail);
  }

  /** The dec branch. */
  method DecryptBuffer(box: SBox, inp: array<bv8>, out: array<bv8>, length: nat, key: AesKey, ivec: array<bv8>)
    requires key.Usable() && Cbc.PaddedLength(length) <= inp.Length && length <= out.Length
    requires ivec.Length == BLOCK_SIZE && ivec != inp && ivec != out
    modifies out, ivec
    ensures var d := Deciphering(box, key.Schedule(), key.rounds);
            && out[..] == Splice(old(out[..]), 0, Cbc.Decrypt(d, old(inp[..]), length, old(ivec[..])))
            && ivec[..] == Cbc.DecryptChain(d, old(inp[..]), length, old(ivec[..]))
  {
    hide Cbc.XorBytes;
    hide Cbc.Decrypt;
    hide Cbc.DecryptChain;
    hide Cbc.PaddedLength;
    hide Deciphering;
    hide Splice;
    ghost var d := Deciphering(box, key.Schedule(), key.rounds);
    ghost var data, iv, was := inp[..], ivec[..], out[..];
    var tmp := new bv8[BLOCK_SIZE];
    var pos, len := 0, length;
    SpliceNone(was);
    assert data[0..] == data && Cbc.Decrypt(d, data, length, iv)[..0] == [];
    assert Cbc.Decrypt(d, data, length, iv)[0..] == Cbc.Decrypt(d, data, length, iv);
    while len >= BLOCK_SIZE
      invariant 0 <= pos && 0 <= len && pos + len == length
      invariant pos <= inp.Length && Decrypting(d, data, length, iv, was, out[..], inp[pos..], ivec[..], pos)
    {
      ghost var before, rest, chain := out[..], inp[pos..], ivec[..];
      assert inp[pos..pos + BLOCK_SIZE] == rest[..BLOCK_SIZE];
      DecryptAdvances(d, data, length, iv, was, before, rest, chain, pos);
      DecryptChunk(box, inp, out, pos, key, ivec, tmp);
      SpliceBeyond(before, pos, Cbc.XorBytes(d(rest[..BLOCK_SIZE]), chain), |before|);
      RestOf(before, pos);
      RestOf(out[..], pos);
      RestOf(inp[..], pos);
      assert inp[pos + BLOCK_SIZE..] == rest[BLOCK_SIZE..];
      len := len - BLOCK_SIZE;
      pos := pos + BLOCK_SIZE;
    }
    DecryptEnds(d, data, length, iv, was, out[..], inp[pos..], ivec[..], pos);
    if len != 0 {
      assert inp[pos..pos + BLOCK_SIZE] == inp[pos..][..BLOCK_SIZE];
      DecryptTail(box, inp, out, pos, len, key, ivec, tmp);
    }
  }

  /** AES_cbc_encrypt. */
  method CbcEncrypt(box: SBox, inp: array<bv8>, out: array<bv8>, length: nat, key: AesKey, ivec: array<bv8>, enc: bool)
    requires key.Usable() && ivec.Length == BLOCK_SIZE && ivec != inp && ivec != out
    requires enc ==> length <= inp.Length && Cbc.PaddedLength(length) <= out.Length
    requires !enc ==> Cbc.PaddedLength(length) <= inp.Length && length <= out.Length
    modifies out, ivec
    ensures enc ==>
      var e := Enciphering(box, key.Schedule(), key.rounds);
      && out[..] == Splice(old(out[..]), 0, Cbc.Encrypt(e, old(inp[..length]), old(ivec[..])))
      && ivec[..] == Cbc.EncryptChain(e, old(inp[..length]), old(ivec[..]))
    ensures !enc ==>
      var d := Deciphering(box, key.Schedule(), key.rounds);
      && out[..] == Splice(old(out[..]), 0, Cbc.Decrypt(d, old(inp[..]), length, old(ivec[..])))
      && ivec[..] == Cbc.DecryptChain(d, old(inp[..]), length, old(ivec[..]))
  {
    hide Enciphering;
    hide Deciphering;
    hide Splice;
    if enc {
      EncryptBuffer(box, inp, out, length, key, ivec);
    } else {
      DecryptBuffer(box, inp, out, length, key, ivec);
    }
  }
}
