/** AES from key to key: what is encrypted under AES_set_encrypt_key is decrypted under
    AES_set_decrypt_key with the same key, one block at a time or chained. */
module AesRoundTrip {
  import Cbc
  import opened AesField
  import opened AesCipher
  import opened AesKeySchedule
  import opened AesCbc
  import opened Common

  /** A decryption schedule looks only at the words that the rounds use. */
  lemma ScheduleOfPrefix(d: seq<bv32>, w: seq<bv32>, rounds: nat)
    requires 4 * rounds + 4 <= |w| && IsDecryptionSchedule(d, w[..4 * rounds + 4], rounds)
    ensures IsDecryptionSchedule(d, w, rounds)
  {
    forall r: nat | r <= rounds
      ensures RoundKey(w, r) == RoundKey(w[..4 * rounds + 4], r)
    {}
  }

  /** Both schedules of one key belong to each other. */
  method SetKeys(box: SBox, userKey: array?<bv8>, bits: int, ek: AesKey, dk: AesKey) returns (ok: bool)
    requires box.Valid() && ek != dk && ek.rd_key != dk.rd_key && ek.rd_key.Length == dk.rd_key.Length == 60
    requires userKey != null && KeyLength(bits / 32) && bits % 32 == 0 ==> bits <= 8 * userKey.Length
    modifies ek`rounds, ek.rd_key, dk`rounds, dk.rd_key
    ensures ok <==> userKey != null && (bits == 128 || bits == 192 || bits == 256)
    ensures ok ==>
      && ek.Usable() && dk.Usable() && ek.rounds == dk.rounds
      && IsDecryptionSchedule(dk.Schedule(), ek.Schedule(), ek.rounds)
  {
    hide Expansion;
    hide KeyWords;
    hide IsDecryptionSchedule;
    var ret := SetEncryptKey(box, userKey, bits, ek);
    var ret2 := SetDecryptKey(box, userKey, bits, dk);
    ok := ret == 0 && ret2 == 0;
    if ok {
      ScheduleOfPrefix(dk.Schedule(), ek.Schedule(), ek.rounds);
    }
  }

  /** AES_decrypt under AES_set_decrypt_key undoes AES_encrypt under AES_set_encrypt_key, for every
      key of a supported length and every block, wherever the blocks lie and also in place. */
  method BlockRoundTrip(box: SBox, userKey: array?<bv8>, bits: int, ek: AesKey, dk: AesKey,
                        inp: array<bv8>, i: nat, mid: array<bv8>, m: nat, out: array<bv8>, o: nat) returns (ok: bool)
    requires box.Valid() && ek != dk && ek.rd_key != dk.rd_key && ek.rd_key.Length == dk.rd_key.Length == 60
    requires userKey != null && KeyLength(bits / 32) && bits % 32 == 0 ==> bits <= 8 * userKey.Length
    requires i + BLOCK_SIZE <= inp.Length && m + BLOCK_SIZE <= mid.Length && o + BLOCK_SIZE <= out.Length
    modifies ek`rounds, ek.rd_key, dk`rounds, dk.rd_key, mid, out
    ensures ok <==> userKey != null && (bits == 128 || bits == 192 || bits == 256)
    ensures ok ==> out[o..o + BLOCK_SIZE] == old(inp[i..i + BLOCK_SIZE])
    ensures ok && inp == mid == out && i == m == o ==> out[..] == old(out[..])
  {
    hide *;
    ok := SetKeys(box, userKey, bits, ek, dk);
    if !ok {
      return;
    }
    UseBlock(box, ek, dk, inp, i, mid, m, out, o);
  }

  method UseBlock(box: SBox, ek: AesKey, dk: AesKey,
                  inp: array<bv8>, i: nat, mid: array<bv8>, m: nat, out: array<bv8>, o: nat)
    requires box.Valid() && ek.Usable() && dk.Usable() && ek.rounds == dk.rounds
    requires IsDecryptionSchedule(dk.Schedule(), ek.Schedule(), ek.rounds)
    requires i + BLOCK_SIZE <= inp.Length && m + BLOCK_SIZE <= mid.Length && o + BLOCK_SIZE <= out.Length
    modifies mid, out
    ensures out[o..o + BLOCK_SIZE] == old(inp[i..i + BLOCK_SIZE])
    ensures inp == mid == out && i == m == o ==> out[..] == old(out[..])
  {
    hide Cipher;
    hide InvCipher;
    hide StateAt;
    hide StateBytes;
    hide Splice;
    hide IsDecryptionSchedule;
    ghost var was, s := mid[..], StateAt(inp[..], i);
    BytesOfStateAt(inp[..], i);
    ghost var c := StateBytes(Cipher(box, ek.Schedule(), ek.rounds, s));
    Encrypt(box, inp, i, mid, m, ek);
    SpliceAt(was, m, c);
    StateAtSlice(mid[..], m);
    StateOfBytes(Cipher(box, ek.Schedule(), ek.rounds, s));
    DecryptUndoesEncrypt(box, ek.Schedule(), dk.Schedule(), ek.rounds, s);
    ghost var before := out[..];
    Decrypt(box, mid, m, out, o, dk);
    SpliceAt(before, o, StateBytes(s));
    if inp == mid == out && i == m == o {
      SpliceOver(was, m, c, StateBytes(s));
      SpliceSame(was, m);
    }
  }

  lemma StateOfBytes(s: State)
    ensures StateAt(StateBytes(s), 0) == s
  {}

  lemma SpliceSame(b: seq<bv8>, i: nat)
    requires i + BLOCK_SIZE <= |b|
    ensures Splice(b, i, b[i..i + BLOCK_SIZE]) == b
  {}

  predicate StaysPut(e: Cbc.Block -> Cbc.Block, b: Cbc.Block) { e(b) == b }

  /** AES_cbc_encrypt undoes itself from key to key, for every key of a supported length, message and
      chaining value, also in place; both runs leave the same chaining value exactly if the
      length is in whole blocks or the cipher does not change the last block it is given. */
  method CbcRoundTrip(box: SBox, userKey: array?<bv8>, bits: int, ek: AesKey, dk: AesKey, inp: array<bv8>,
                      mid: array<bv8>, out: array<bv8>, length: nat, ivec: array<bv8>, ivec2: array<bv8>) returns (ok: bool)
    requires box.Valid() && ek != dk && ek.rd_key != dk.rd_key && ek.rd_key.Length == dk.rd_key.Length == 60
    requires userKey != null && KeyLength(bits / 32) && bits % 32 == 0 ==> bits <= 8 * userKey.Length
    requires length <= inp.Length && Cbc.PaddedLength(length) <= mid.Length && length <= out.Length
    requires ivec.Length == ivec2.Length == BLOCK_SIZE && ivec[..] == ivec2[..] && ivec != ivec2
    requires ivec != inp && ivec != mid && ivec != out && ivec2 != inp && ivec2 != mid && ivec2 != out
    modifies ek`rounds, ek.rd_key, dk`rounds, dk.rd_key, mid, out, ivec, ivec2
    ensures ok <==> userKey != null && (bits == 128 || bits == 192 || bits == 256)
    ensures ok ==> out[..length] == old(inp[..length])
    ensures ok ==>
      ek.Usable() && var e := Enciphering(box, ek.Schedule(), ek.rounds);
      ivec[..] == ivec2[..] <==>
        length % BLOCK_SIZE == 0 || StaysPut(e, Cbc.LastInput(e, old(inp[..length]), old(ivec[..])))
  {
    hide *;
    ok := SetKeys(box, userKey, bits, ek, dk);
    if !ok {
      return;
    }
    UseCbc(box, ek, dk, inp, mid, out, length, ivec, ivec2);
  }

  method UseCbc(box: SBox, ek: AesKey, dk: AesKey, inp: array<bv8>, mid: array<bv8>, out: array<bv8>, length: nat,
                ivec: array<bv8>, ivec2: array<bv8>)
    requires box.Valid() && ek.Usable() && dk.Usable() && ek.rounds == dk.rounds
    requires IsDecryptionSchedule(dk.Schedule(), ek.Schedule(), ek.rounds)
    requires length <= inp.Length && Cbc.PaddedLength(length) <= mid.Length && length <= out.Length
    requires ivec.Length == ivec2.Length == BLOCK_SIZE && ivec[..] == ivec2[..] && ivec != ivec2
    requires ivec != inp && ivec != mid && ivec != out && ivec2 != inp && ivec2 != mid && ivec2 != out
    modifies mid, out, ivec, ivec2
    ensures out[..length] == old(inp[..length])
    ensures var e := Enciphering(box, ek.Schedule(), ek.rounds);
      ivec[..] == ivec2[..] <==>
        length % BLOCK_SIZE == 0 || StaysPut(e, Cbc.LastInput(e, old(inp[..length]), old(ivec[..])))
  {
    hide Cbc.XorBytes;
    hide Cbc.Encrypt;
    hide Cbc.EncryptChain;
    hide Cbc.Decrypt;
    hide Cbc.DecryptChain;
    hide Cbc.LastInput;
    hide Cbc.PaddedLength;
    hide Enciphering;
    hide Deciphering;
    hide Splice;
    hide IsDecryptionSchedule;
    ghost var data, iv, was := inp[..length], ivec[..], mid[..];
    ghost var e, d := Enciphering(box, ek.Schedule(), ek.rounds), Deciphering(box, dk.Schedule(), dk.rounds);
    ghost var c := Cbc.Encrypt(e, data, iv);
    AesCbcRoundTrip(box, ek.Schedule(), dk.Schedule(), ek.rounds, data, iv);
    CbcEncrypt(box, inp, mid, length, ek, ivec, true);
    SpliceAt(was, 0, c);
    assert mid[0..|c|] == mid[..|c|];
    Cbc.DecryptPrefix(d, mid[..], length, iv);
    ghost var before := out[..];
    CbcEncrypt(box, mid, out, length, dk, ivec2, false);
    SpliceAt(before, 0, data);
    assert out[0..length] == out[..length];
  }
}
