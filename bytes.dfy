/** Fixed-width byte-level primitives shared by every codec: bytes, u32 values,
    32-byte public keys, and the little-endian encoding of a u32. */
module Bytes {

  /** One octet (`u8`). */
  type Byte = x: int | 0 <= x < 256

  /** A `u32` value; the model never lets it wrap. */
  type U32 = x: int | 0 <= x < 0x1_0000_0000

  const PUBKEY_LEN: nat := 32

  /** A public key is exactly its 32 raw bytes. */
  type Pubkey = s: seq<Byte> | |s| == PUBKEY_LEN witness seq(32, _ => 0)

  /** `u32::to_le_bytes`. */
  function LeBytes(x: U32): (r: seq<Byte>)
    ensures |r| == 4
    ensures FromLe(r) == x
  {
    DivisionChain(x);
    [x % 256, (x / 256) % 256, (x / 0x1_0000) % 256, x / 0x100_0000]
  }

  /** The three quotients behind `LeBytes`, each taken from the previous one. */
  lemma DivisionChain(x: U32)
    ensures x == x % 256 + 256 * (x / 256)
    ensures x / 256 == (x / 256) % 256 + 256 * (x / 0x1_0000)
    ensures x / 0x1_0000 == (x / 0x1_0000) % 256 + 256 * (x / 0x100_0000)
    ensures x / 0x100_0000 < 256
  {
    var q1 := x / 256;
    var q2 := q1 / 256;
    assert q2 == x / 0x1_0000;
    assert q2 / 256 == x / 0x100_0000;
  }

  /** `u32::from_le_bytes` on a 4-byte array: the first byte is the least
      significant and the last the most significant. */
  function FromLe(b: seq<Byte>): (x: U32)
    requires |b| == 4
    ensures x % 256 == b[0] && x / 0x100_0000 == b[3]
  {
    var b0: int, b1: int, b2: int, b3: int := b[0], b[1], b[2], b[3];
    b0 + 256 * b1 + 0x1_0000 * b2 + 0x100_0000 * b3
  }

  /** Decoding then re-encoding four bytes gives them back, so the encoding
      of a u32 is a bijection between `U32` and 4-byte sequences. */
  lemma LeBytesFromLe(b: seq<Byte>)
    requires |b| == 4
    ensures LeBytes(FromLe(b)) == b
  {
    var x := FromLe(b);
    var b0: int, b1: int, b2: int, b3: int := b[0], b[1], b[2], b[3];
    assert x == b0 + 256 * (b1 + 256 * (b2 + 256 * b3));
    assert x % 256 == b0 && x / 256 == b1 + 256 * (b2 + 256 * b3);
    assert x / 0x1_0000 == (x / 256) / 256 == b2 + 256 * b3;
    assert x / 0x100_0000 == (x / 0x1_0000) / 256 == b3;
  }
}
