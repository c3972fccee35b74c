/** Cipher block chaining as AES_cbc_encrypt chains, over any block cipher: the final
    partial block is padded by zeros before encryption and read whole before decryption. */
module Cbc {
  import opened AesField

  type Block = b: seq<bv8> | |b| == BLOCK_SIZE witness seq(BLOCK_SIZE, _ => 0)

  function XorBytes(x: Block, y: Block): Block {
    seq(BLOCK_SIZE, i requires 0 <= i < BLOCK_SIZE => x[i] ^ y[i])
  }

  function Pad(x: seq<bv8>): Block
    requires |x| <= BLOCK_SIZE
  {
    x + seq(BLOCK_SIZE - |x|, _ => 0)
  }

  /** n rounded up to whole blocks. */
  function PaddedLength(n: nat): (r: nat)
    ensures r % BLOCK_SIZE == 0 && n <= r < n + BLOCK_SIZE
  {
    if n == 0 then 0
    else if n < BLOCK_SIZE then BLOCK_SIZE
    else BLOCK_SIZE + PaddedLength(n - BLOCK_SIZE)
  }

  /** The whole blocks that encryption writes. */
  function Encrypt(e: Block -> Block, data: seq<bv8>, iv: Block): (r: seq<bv8>)
    ensures |r| == PaddedLength(|data|)
  {
    if |data| == 0 then []
    else if |data| < BLOCK_SIZE then e(XorBytes(Pad(data), iv))
    else
      var c: Block := e(XorBytes(data[..BLOCK_SIZE], iv));
      c + Encrypt(e, data[BLOCK_SIZE..], c)
  }

  /** The chaining value that encryption leaves. */
  function EncryptChain(e: Block -> Block, data: seq<bv8>, iv: Block): Block {
    if |data| == 0 then iv
    else if |data| < BLOCK_SIZE then e(XorBytes(Pad(data), iv))
    else EncryptChain(e, data[BLOCK_SIZE..], e(XorBytes(data[..BLOCK_SIZE], iv)))
  }

  /** The n bytes that decryption writes. */
  function Decrypt(d: Block -> Block, data: seq<bv8>, n: nat, iv: Block): (r: seq<bv8>)
    requires PaddedLength(n) <= |data|
    ensures |r| == n
    decreases n
  {
    if n == 0 then []
    else
      var p := XorBytes(d(data[..BLOCK_SIZE]), iv);
      if n < BLOCK_SIZE then p[..n]
      else p + Decrypt(d, data[BLOCK_SIZE..], n - BLOCK_SIZE, data[..BLOCK_SIZE])
  }

  /** The chaining value that decryption leaves: the last ciphertext block when the length is
      in whole blocks, but the deciphered block after a partial one. */
  function DecryptChain(d: Block -> Block, data: seq<bv8>, n: nat, iv: Block): Block
    requires PaddedLength(n) <= |data|
    decreases n
  {
    if n == 0 then iv
    else if n < BLOCK_SIZE then d(data[..BLOCK_SIZE])
    else DecryptChain(d, data[BLOCK_SIZE..], n - BLOCK_SIZE, data[..BLOCK_SIZE])
  }

  /** The block that the last call of the block cipher enciphers. */
  function LastInput(e: Block -> Block, data: seq<bv8>, iv: Block): Block
    requires data != []
  {
    if |data| <= BLOCK_SIZE then XorBytes(Pad(data), iv)
    else LastInput(e, data[BLOCK_SIZE..], e(XorBytes(data[..BLOCK_SIZE], iv)))
  }

  /** Block i of the data, the last one padded. */
  function BlockAt(data: seq<bv8>, i: nat): Block
    requires BLOCK_SIZE * i < |data|
  {
    var o := BLOCK_SIZE * i;
    if o + BLOCK_SIZE <= |data| then data[o..o + BLOCK_SIZE] else Pad(data[o..])
  }

  /** The block before block i of the ciphertext, or the initial value. */
  function Before(c: seq<bv8>, iv: Block, i: nat): Block
    requires BLOCK_SIZE * i <= |c|
  {
    if i == 0 then iv else c[BLOCK_SIZE * (i - 1)..BLOCK_SIZE * i]
  }

  lemma BlockLater(data: seq<bv8>, i: nat)
    requires 0 < i && BLOCK_SIZE * i < |data|
    ensures |data| >= BLOCK_SIZE && BLOCK_SIZE * (i - 1) < |data[BLOCK_SIZE..]|
    ensures BlockAt(data, i) == BlockAt(data[BLOCK_SIZE..], i - 1)
  {
    var o := BLOCK_SIZE * i;
    assert data[BLOCK_SIZE..][o - BLOCK_SIZE..] == data[o..];
    if o + BLOCK_SIZE <= |data| {
      assert data[BLOCK_SIZE..][o - BLOCK_SIZE..o] == data[o..o + BLOCK_SIZE];
    }
  }

  lemma BeforeLater(x: Block, c: seq<bv8>, iv: Block, i: nat)
    requires 0 < i && BLOCK_SIZE * (i - 1) <= |c|
    ensures Before(x + c, iv, i) == Before(c, x, i - 1)
  {
    if i > 1 {
      assert (x + c)[BLOCK_SIZE * (i - 1)..BLOCK_SIZE * i] == c[BLOCK_SIZE * (i - 2)..BLOCK_SIZE * (i - 1)];
    }
  }

  /** Each block of ciphertext is the cipher of the block of data, exclusive-or the block of ciphertext
      before it, and the last one is the chaining value. */
  lemma {:induction false} EncryptByBlocks(e: Block -> Block, data: seq<bv8>, iv: Block, i: nat)
    requires BLOCK_SIZE * i < |data|
    ensures BLOCK_SIZE * (i + 1) <= PaddedLength(|data|)
    ensures Before(Encrypt(e, data, iv), iv, i + 1) == e(XorBytes(BlockAt(data, i), Before(Encrypt(e, data, iv), iv, i)))
    ensures BLOCK_SIZE * (i + 1) >= |data| ==> EncryptChain(e, data, iv) == Before(Encrypt(e, data, iv), iv, i + 1)
    decreases |data|
  {
    hide XorBytes;
    hide Pad;
    var c := Encrypt(e, data, iv);
    if |data| < BLOCK_SIZE {
      assert c[0..BLOCK_SIZE] == c && data[0..] == data;
    } else {
      var first: Block := e(XorBytes(data[..BLOCK_SIZE], iv));
      FirstBlock(e, data, iv, first);
      var rest: seq<bv8> := Encrypt(e, data[BLOCK_SIZE..], first);
      assert c == first + rest;
      if i == 0 {
        assert c[0..BLOCK_SIZE] == first && data[0..BLOCK_SIZE] == data[..BLOCK_SIZE];
      } else {
        BlockLater(data, i);
        EncryptByBlocks(e, data[BLOCK_SIZE..], first, i - 1);
        BeforeLater(first, rest, iv, i);
        BeforeLater(first, rest, iv, i + 1);
      }
    }
  }

  lemma XorCancels(x: Block, y: Block)
    ensures XorBytes(XorBytes(x, y), y) == x
  {
    forall i | 0 <= i < BLOCK_SIZE
      ensures (x[i] ^ y[i]) ^ y[i] == x[i]
    {}
  }

  /** The first step of a round trip over at least a block of data. */
  lemma FirstBlock(e: Block -> Block, data: seq<bv8>, iv: Block, c: Block)
    requires |data| >= BLOCK_SIZE && c == e(XorBytes(data[..BLOCK_SIZE], iv))
    ensures Encrypt(e, data, iv)[..BLOCK_SIZE] == c
    ensures Encrypt(e, data, iv)[BLOCK_SIZE..] == Encrypt(e, data[BLOCK_SIZE..], c)
  {}

  lemma PartialRoundTrip(e: Block -> Block, d: Block -> Block, data: seq<bv8>, iv: Block)
    requires |data| < BLOCK_SIZE && forall b: Block :: d(e(b)) == b
    ensures Decrypt(d, Encrypt(e, data, iv), |data|, iv) == data
  {
    hide XorBytes;
    if data != [] {
      XorCancels(Pad(data), iv);
      assert Pad(data)[..|data|] == data;
      var c := Encrypt(e, data, iv);
      assert c[..BLOCK_SIZE] == c;
    }
  }

  /** Decrypting what was encrypted gives back the data, of any length and with any chaining value. */
  lemma {:induction false} RoundTrip(e: Block -> Block, d: Block -> Block, data: seq<bv8>, iv: Block)
    requires forall b: Block :: d(e(b)) == b
    ensures Decrypt(d, Encrypt(e, data, iv), |data|, iv) == data
  {
    hide XorBytes;
    if |data| < BLOCK_SIZE {
      PartialRoundTrip(e, d, data, iv);
    } else {
      var x: Block := data[..BLOCK_SIZE];
      XorCancels(x, iv);
      var c: Block := e(XorBytes(x, iv));
      FirstBlock(e, data, iv, c);
      RoundTrip(e, d, data[BLOCK_SIZE..], c);
      assert x + data[BLOCK_SIZE..] == data;
    }
  }

  /** Encryption of the data and decryption of the result leave the same chaining value. */
  ghost predicate ChainsMatch(e: Block -> Block, d: Block -> Block, data: seq<bv8>, iv: Block) {
    DecryptChain(d, Encrypt(e, data, iv), |data|, iv) == EncryptChain(e, data, iv)
  }

  lemma PartialChains(e: Block -> Block, d: Block -> Block, data: seq<bv8>, iv: Block)
    requires |data| < BLOCK_SIZE && forall b: Block :: d(e(b)) == b
    ensures ChainsMatch(e, d, data, iv) <==> data == [] || e(LastInput(e, data, iv)) == LastInput(e, data, iv)
  {
    hide XorBytes;
    if data != [] {
      var c := Encrypt(e, data, iv);
      assert c[..BLOCK_SIZE] == c;
    }
  }

  lemma ChainsGoOn(e: Block -> Block, d: Block -> Block, data: seq<bv8>, iv: Block, c: Block)
    requires |data| >= BLOCK_SIZE && c == e(XorBytes(data[..BLOCK_SIZE], iv))
    ensures ChainsMatch(e, d, data, iv) <==> ChainsMatch(e, d, data[BLOCK_SIZE..], c)
    ensures |data| > BLOCK_SIZE ==> LastInput(e, data, iv) == LastInput(e, data[BLOCK_SIZE..], c)
  {
    hide XorBytes;
    FirstBlock(e, data, iv, c);
    hide Encrypt;
  }

  /** Both directions leave the same chaining value exactly when the length is in whole blocks,
      or when the cipher happens to map the last padded block to itself. */
  lemma {:induction false} ChainsAgree(e: Block -> Block, d: Block -> Block, data: seq<bv8>, iv: Block)
    requires forall b: Block :: d(e(b)) == b
    ensures ChainsMatch(e, d, data, iv)
       <==> |data| % BLOCK_SIZE == 0 || e(LastInput(e, data, iv)) == LastInput(e, data, iv)
  {
    hide XorBytes;
    if |data| < BLOCK_SIZE {
      PartialChains(e, d, data, iv);
    } else {
      var c: Block := e(XorBytes(data[..BLOCK_SIZE], iv));
      ChainsGoOn(e, d, data, iv, c);
      hide *;
      ChainsAgree(e, d, data[BLOCK_SIZE..], c);
      assert |data| % BLOCK_SIZE == |data[BLOCK_SIZE..]| % BLOCK_SIZE;
    }
  }

  /** Data of n bytes that makes block b the input of every call of the cipher but the last: the
      partial block at the end is all zeros. */
  function Probe(e: Block -> Block, n: nat, iv: Block, b: Block): (data: seq<bv8>)
    ensures |data| == n
  {
    if n < BLOCK_SIZE then seq(n, _ => 0) else XorBytes(b, iv) + Probe(e, n - BLOCK_SIZE, e(b), b)
  }

  lemma {:induction false} ProbeMoves(e: Block -> Block, d: Block -> Block, n: nat, iv: Block, b: Block)
    requires forall x: Block :: d(e(x)) == x
    requires e(b) != b && e(iv) != iv && n % BLOCK_SIZE != 0
    ensures var x := LastInput(e, Probe(e, n, iv, b), iv); e(x) != x
  {
    var data := Probe(e, n, iv, b);
    if n < BLOCK_SIZE {
      XorZeros(Pad(data), iv);
    } else {
      XorCancels(b, iv);
      hide XorBytes;
      assert data[..BLOCK_SIZE] == XorBytes(b, iv);
      assert data[BLOCK_SIZE..] == Probe(e, n - BLOCK_SIZE, e(b), b);
      assert d(e(e(b))) == e(b) && d(e(b)) == b;
      ProbeMoves(e, d, n - BLOCK_SIZE, e(b), b);
    }
  }

  lemma XorZeros(x: Block, y: Block)
    requires forall i :: 0 <= i < BLOCK_SIZE ==> x[i] == 0
    ensures XorBytes(x, y) == y
  {}

  /** For a given length the chaining values always agree if it is in whole blocks, and otherwise
      only under a cipher that does nothing. */
  lemma ChainsAgreeByLength(e: Block -> Block, d: Block -> Block, n: nat)
    requires forall b: Block :: d(e(b)) == b
    ensures (forall data: seq<bv8>, iv: Block :: |data| == n ==> ChainsMatch(e, d, data, iv))
       <==> n % BLOCK_SIZE == 0 || forall b: Block :: e(b) == b
  {
    forall data: seq<bv8>, iv: Block | |data| == n && (n % BLOCK_SIZE == 0 || forall b: Block :: e(b) == b)
      ensures ChainsMatch(e, d, data, iv)
    {
      ChainsAgree(e, d, data, iv);
    }
    if n % BLOCK_SIZE != 0 && exists b: Block :: e(b) != b {
      var b: Block :| e(b) != b;
      ProbeMoves(e, d, n, b, b);
      ChainsAgree(e, d, Probe(e, n, b, b), b);
    }
  }

  /** Decryption does not look beyond the whole blocks that the length takes. */
  lemma {:induction false} DecryptPrefix(d: Block -> Block, data: seq<bv8>, n: nat, iv: Block)
    requires PaddedLength(n) <= |data|
    ensures Decrypt(d, data, n, iv) == Decrypt(d, data[..PaddedLength(n)], n, iv)
    ensures DecryptChain(d, data, n, iv) == DecryptChain(d, data[..PaddedLength(n)], n, iv)
    decreases n
  {
    hide XorBytes;
    var part := data[..PaddedLength(n)];
    if n > 0 {
      assert part[..BLOCK_SIZE] == data[..BLOCK_SIZE];
      if n >= BLOCK_SIZE {
        assert part[BLOCK_SIZE..] == data[BLOCK_SIZE..][..PaddedLength(n - BLOCK_SIZE)];
        DecryptPrefix(d, data[BLOCK_SIZE..], n - BLOCK_SIZE, data[..BLOCK_SIZE]);
      }
    }
  }
}
