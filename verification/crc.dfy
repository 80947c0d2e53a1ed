/**
 * CRC-32/ISO-HDLC, the checksum PNG puts at the end of every chunk
 * (section 5.5 of the PNG specification, W3C Second Edition): reflected
 * polynomial 0xEDB88320, initial register 0xFFFFFFFF, final complement.
 * The checksum is defined bit by bit as a left fold over the input; the
 * table-driven `crc` crate computes the same function.
 */
module Crc {
  import opened Bytes

  const Polynomial: bv32 := 0xEDB8_8320
  const AllOnes: bv32 := 0xFFFF_FFFF

  /** One step of polynomial division of the reflected register. */
  function Shift(c: bv32): bv32 {
    if c & 1 == 1 then (c >> 1) ^ Polynomial else c >> 1
  }

  /** `n` shifts in a row; eight of them divide out one byte. */
  function Shifts(x: bv32, n: nat): bv32
    decreases n
  {
    if n == 0 then x else Shifts(Shift(x), n - 1)
  }

  /** Feed one byte (least significant bit first) into the register. */
  function Feed(c: bv32, b: bv8): bv32 {
    Shifts(c ^ (b as bv32), 8)
  }

  /** The register after feeding all of `data`, in order, starting from `c`. */
  function Update(c: bv32, data: seq<Byte>): bv32
    decreases |data|
  {
    if |data| == 0 then c else Update(Feed(c, Octet(data[0])), data[1..])
  }

  /**
   * The 8-bit word of a hexadecimal digit `n`, chosen by binary search so
   * that the word of a known digit is computed by case analysis alone.
   */
  function Nibble(n: int): bv8
    requires 0 <= n < 0x10
  {
    if n < 8 then
      if n < 4 then
        (if n < 2 then (if n < 1 then 0x0 else 0x1) else (if n < 3 then 0x2 else 0x3))
      else
        (if n < 6 then (if n < 5 then 0x4 else 0x5) else (if n < 7 then 0x6 else 0x7))
    else
      if n < 12 then
        (if n < 10 then (if n < 9 then 0x8 else 0x9) else (if n < 11 then 0xA else 0xB))
      else
        (if n < 14 then (if n < 13 then 0xC else 0xD) else (if n < 15 then 0xE else 0xF))
  }

  /**
   * A byte as an 8-bit word, assembled from its two hexadecimal digits. This
   * is `b as bv8`, written so that the solver evaluates it on literal bytes
   * by case analysis: the direct integer-to-bit-vector conversion proved
   * slow and unstable in the proofs about concrete checksums.
   */
  function Octet(b: Byte): bv8 {
    (Nibble(b / 0x10) << 4) | Nibble(b % 0x10)
  }

  /** The word of a digit holds the digit. */
  lemma NibbleValue(n: int)
    requires 0 <= n < 0x10
    ensures Nibble(n) as int == n
  {
  }

  /** Joining two digit words gives the word of the two-digit number. */
  lemma JoinValue(hi: bv8, lo: bv8)
    requires hi as int < 0x10 && lo as int < 0x10
    ensures ((hi << 4) | lo) as int == 0x10 * (hi as int) + lo as int
  {
  }

  /** The word holds the byte's value, so different bytes give different words. */
  lemma OctetValue(b: Byte)
    ensures Octet(b) as int == b
  {
    NibbleValue(b / 0x10);
    NibbleValue(b % 0x10);
    JoinValue(Nibble(b / 0x10), Nibble(b % 0x10));
  }

  /** The final complement of the register, read as a u32. */
  function Finish(register: bv32): U32 {
    (register ^ AllOnes) as int
  }

  /** The CRC-32/ISO-HDLC checksum of `data`, as a u32. */
  function Crc32(data: seq<Byte>): (r: U32)
    ensures data == [] ==> r == 0
  {
    Finish(Update(AllOnes, data))
  }

  /** Feeding a concatenation is feeding its parts one after the other. */
  lemma {:induction false} UpdateAppend(c: bv32, a: seq<Byte>, b: seq<Byte>)
    ensures Update(c, a + b) == Update(Update(c, a), b)
    decreases |a|
  {
    if |a| == 0 {
      assert a + b == b;
    } else {
      assert (a + b)[1..] == a[1..] + b;
      UpdateAppend(Feed(c, Octet(a[0])), a[1..], b);
    }
  }

  /** The shift is injective: distinct registers stay distinct. */
  lemma ShiftInjective(x: bv32, y: bv32)
    ensures Shift(x) == Shift(y) <==> x == y
  {
  }

  /** Any number of shifts is injective too. */
  lemma {:induction false} ShiftsInjective(x: bv32, y: bv32, n: nat)
    requires x != y
    ensures Shifts(x, n) != Shifts(y, n)
    decreases n
  {
    if n > 0 {
      ShiftInjective(x, y);
      ShiftsInjective(Shift(x), Shift(y), n - 1);
    }
  }

  /** Feeding the same byte into two different registers keeps them different. */
  lemma FeedInjectiveInRegister(c: bv32, d: bv32, b: bv8)
    requires c != d
    ensures Feed(c, b) != Feed(d, b)
  {
    ShiftsInjective(c ^ (b as bv32), d ^ (b as bv32), 8);
  }

  /** Feeding two different bytes into the same register gives different registers. */
  lemma FeedInjectiveInByte(c: bv32, a: bv8, b: bv8)
    requires a != b
    ensures Feed(c, a) != Feed(c, b)
  {
    ShiftsInjective(c ^ (a as bv32), c ^ (b as bv32), 8);
  }

  /** Two different registers stay different whatever common suffix is fed. */
  lemma {:induction false} UpdateInjective(c: bv32, d: bv32, data: seq<Byte>)
    requires c != d
    ensures Update(c, data) != Update(d, data)
    decreases |data|
  {
    if |data| > 0 {
      var o := Octet(data[0]);
      FeedInjectiveInRegister(c, d, o);
      UpdateInjective(Feed(c, o), Feed(d, o), data[1..]);
    }
  }

  /** Changing one byte of the input changes the register. */
  lemma {:induction false} UpdateDiffers(c: bv32, data: seq<Byte>, k: int, b: Byte)
    requires 0 <= k < |data| && b != data[k]
    ensures Update(c, data[k := b]) != Update(c, data)
    decreases k
  {
    var changed := data[k := b];
    if k == 0 {
      OctetValue(b);
      OctetValue(data[0]);
      FeedInjectiveInByte(c, Octet(b), Octet(data[0]));
      assert changed[1..] == data[1..];
      UpdateInjective(Feed(c, Octet(b)), Feed(c, Octet(data[0])), data[1..]);
    } else {
      assert changed[1..] == data[1..][k - 1 := b];
      UpdateDiffers(Feed(c, Octet(data[0])), data[1..], k - 1, b);
    }
  }

  /** The final complement, read as an unsigned integer, keeps registers apart. */
  lemma FinishInjective(x: bv32, y: bv32)
    requires x != y
    ensures Finish(x) != Finish(y)
  {
    var u, v := x ^ AllOnes, y ^ AllOnes;
    assert u != v;
    assert (u as int) as bv32 == u && (v as int) as bv32 == v;
  }

  /**
   * CRC-32 detects every single-byte error: changing the byte at any one
   * position changes the checksum.
   */
  lemma SingleByteErrorDetected(data: seq<Byte>, k: int, b: Byte)
    requires 0 <= k < |data| && b != data[k]
    ensures Crc32(data[k := b]) != Crc32(data)
  {
    UpdateDiffers(AllOnes, data, k, b);
    FinishInjective(Update(AllOnes, data[k := b]), Update(AllOnes, data));
  }

  /**
   * The checksum as a loop over the bytes, proved equal to `Crc32`. It stands
   * alone: the chunk functions use `Crc32` directly, and the loop feeds one
   * byte at a time rather than through a lookup table.
   */
  method Checksum(data: seq<Byte>) returns (crc: U32)
    ensures crc == Crc32(data)
  {
    var register := Register(data);
    crc := Finish(register);
  }

  /** The register after the loop over all of `data`. */
  method Register(data: seq<Byte>) returns (register: bv32)
    ensures register == Update(AllOnes, data)
  {
    register := AllOnes;
    var i := 0;
    while i < |data|
      invariant 0 <= i <= |data|
      invariant Update(register, data[i..]) == Update(AllOnes, data)
    {
      assert data[i..][1..] == data[i + 1..];
      register := Feed(register, Octet(data[i]));
      i := i + 1;
    }
    assert data[i..] == [];
  }
}
