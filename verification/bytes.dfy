/** Bytes, unsigned 32-bit integers and their big-endian byte form. */
module Bytes {

  /** Rust `u8`. */
  type Byte = x: int | 0 <= x < 0x100

  const U32Limit: int := 0x1_0000_0000

  /** Rust `u32`. */
  type U32 = x: int | 0 <= x < 0x1_0000_0000

  /** Rust `[u8; 4]`. */
  type Bytes4 = s: seq<Byte> | |s| == 4 witness [0, 0, 0, 0]

  /** `u32::to_be_bytes`: the base-256 digits of `x`, most significant first. */
  function ToBeBytes(x: U32): (r: Bytes4)
    ensures ((r[0] as int * 0x100 + r[1]) * 0x100 + r[2]) * 0x100 + r[3] == x
  {
    var y := x / 0x100;
    var z := y / 0x100;
    [z / 0x100, z % 0x100, y % 0x100, x % 0x100]
  }

  /**
   * `u32::from_be_bytes`: the first byte is the most significant. Every
   * 4-byte array is the big-endian form of the value it is read as.
   */
  function FromBeBytes(b: Bytes4): (x: U32)
    ensures ToBeBytes(x) == b
  {
    var z := b[0] as int * 0x100 + b[1];
    var y := z * 0x100 + b[2];
    Digit(y, b[3]);
    Digit(z, b[2]);
    Digit(b[0], b[1]);
    y * 0x100 + b[3]
  }

  /** Splitting off the last base-256 digit. */
  lemma Digit(hi: nat, lo: int)
    requires 0 <= lo < 0x100
    ensures (hi * 0x100 + lo) / 0x100 == hi
    ensures (hi * 0x100 + lo) % 0x100 == lo
  {
  }

  /** Decoding undoes encoding. */
  lemma FromToBeBytes(x: U32)
    ensures FromBeBytes(ToBeBytes(x)) == x
  {
  }

  /** Distinct integers have distinct encodings (a stand-alone property of the encoding). */
  lemma ToBeBytesInjective(x: U32, y: U32)
    ensures ToBeBytes(x) == ToBeBytes(y) <==> x == y
  {
    FromToBeBytes(x);
    FromToBeBytes(y);
  }
}
