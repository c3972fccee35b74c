/** The record format of the RAM section: big-endian words, flags in the low bits of an address. */
module Wire {
  import opened Common
  import opened RamList

  const COMPRESS: nat := 0x02
  const MEM_SIZE: nat := 0x04
  const PAGE: nat := 0x08
  const EOS: nat := 0x10
  const CONTINUE: nat := 0x20

  const WORD_LIMIT: nat := 0x1_0000_0000_0000_0000

  /** The low n bytes of v, most significant first. */
  function BigEndian(v: nat, n: nat): (r: seq<byte>)
    ensures |r| == n
    decreases n
  {
    if n == 0 then [] else BigEndian(v / 256, n - 1) + [(v % 256) as byte]
  }

  function Number(b: seq<byte>): nat {
    if b == [] then 0 else Number(b[..|b| - 1]) * 256 + b[|b| - 1] as nat
  }

  function Power256(n: nat): nat {
    if n == 0 then 1 else 256 * Power256(n - 1)
  }

  lemma {:induction false} NumberBigEndian(v: nat, n: nat)
    requires v < Power256(n)
    ensures Number(BigEndian(v, n)) == v
  {
    if n > 0 {
      NumberBigEndian(v / 256, n - 1);
      var b := BigEndian(v / 256, n - 1);
      assert (b + [(v % 256) as byte])[..n - 1] == b;
    }
  }

  /** qemu_put_be64. */
  function Be64(v: nat): (r: seq<byte>)
    ensures |r| == 8
  {
    BigEndian(v, 8)
  }

  lemma NumberBe64(v: nat)
    requires v < WORD_LIMIT
    ensures Number(Be64(v)) == v
  {
    assert Power256(8) == WORD_LIMIT by {
      assert Power256(2) == 0x1_0000;
      assert Power256(4) == 0x1_0000_0000;
      assert Power256(6) == 0x1_0000_0000_0000;
    }
    NumberBigEndian(v, 8);
  }

  predicate HasFlag(flags: nat, f: nat)
    requires 0 < f
  {
    flags / f % 2 == 1
  }

  /** A block's name as the stream carries it. */
  function IdBytes(id: seq<byte>): seq<byte>
    requires |id| < 256
  {
    [|id| as byte] + id
  }

  /** Reading back what stands in front of a stream. */
  lemma Prefix(a: seq<byte>, rest: seq<byte>)
    ensures (a + rest)[..|a|] == a && (a + rest)[|a|..] == rest
  {}
}
