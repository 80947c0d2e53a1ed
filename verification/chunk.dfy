/**
 * A PNG chunk (section 5.3 of the PNG specification): a 4-byte big-endian
 * data length, the 4-byte type, the data, and a 4-byte big-endian CRC-32
 * computed over the type and the data but not the length.
 */
module Chunks {
  import opened Bytes
  import opened Results
  import opened ChunkTypes
  import Crc
  import Utf8

  datatype Chunk = Chunk(length: U32, chunkType: ChunkType, data: seq<Byte>, crc: U32)

  /** The chunk invariant: the length counts the data and the CRC covers type ++ data. */
  ghost predicate WellFormed(c: Chunk) {
    c.length == |c.data| && c.crc == Crc.Crc32(c.chunkType.bytes + c.data)
  }

  /**
   * `Chunk::new`: the length is `data.len() as u32`, which keeps only the low
   * 32 bits, and the CRC is computed eagerly over type ++ data.
   */
  function New(chunkType: ChunkType, data: seq<Byte>): (c: Chunk)
    ensures c.chunkType == chunkType && c.data == data
    ensures c.crc == Crc.Crc32(chunkType.bytes + data)
    ensures |data| < U32Limit ==> c.length == |data| && WellFormed(c)
    ensures |data| >= U32Limit ==> c.length == |data| - U32Limit * (|data| / U32Limit) && !WellFormed(c)
  {
    Chunk(|data| % U32Limit, chunkType, data, Crc.Crc32(chunkType.bytes + data))
  }

  /** `Chunk::as_bytes`: the on-wire layout. */
  function AsBytes(c: Chunk): (r: seq<Byte>)
    ensures |r| == 12 + |c.data|
    ensures r[..4] == ToBeBytes(c.length)
    ensures r[4..8] == c.chunkType.bytes
    ensures r[8..8 + |c.data|] == c.data
    ensures r[8 + |c.data|..] == ToBeBytes(c.crc)
  {
    ToBeBytes(c.length) + c.chunkType.bytes + c.data + ToBeBytes(c.crc)
  }

  /** Input long enough to hold the length field. */
  predicate HasLength(bytes: seq<Byte>) {
    |bytes| >= 4
  }

  /** The data length a byte sequence announces in its first four bytes. */
  function DeclaredLength(bytes: seq<Byte>): U32
    requires HasLength(bytes)
  {
    FromBeBytes(bytes[..4])
  }

  /** Input long enough for every field the length field announces. */
  predicate IsComplete(bytes: seq<Byte>) {
    HasLength(bytes) && |bytes| >= 12 + DeclaredLength(bytes)
  }

  /** For complete input: the CRC stored after the data. */
  function StoredCrc(bytes: seq<Byte>): U32
    requires IsComplete(bytes)
  {
    var n: int := DeclaredLength(bytes);
    FromBeBytes(bytes[8 + n..12 + n])
  }

  /** Adjacent slices join into one. */
  lemma SliceSplit(s: seq<Byte>, i: int, j: int, k: int)
    requires 0 <= i <= j <= k <= |s|
    ensures s[i..j] + s[j..k] == s[i..k]
  {
  }

  /**
   * `Chunk::try_from(&[u8])`: read the length, the type, the data and the
   * CRC in that order, each read failing on short input; then recompute the
   * CRC over type ++ data and reject a mismatch.
   */
  function TryFrom(bytes: seq<Byte>): (r: Result<Chunk>)
    ensures r == Err(UnexpectedEof) <==> !IsComplete(bytes)
    ensures r == Err(IncorrectCrc) <==>
              IsComplete(bytes) && StoredCrc(bytes) != Crc.Crc32(bytes[4..8 + DeclaredLength(bytes)])
    ensures r.Ok? <==>
              IsComplete(bytes) && StoredCrc(bytes) == Crc.Crc32(bytes[4..8 + DeclaredLength(bytes)])
    ensures r.Ok? ==>
              && r.value.length == DeclaredLength(bytes) == |r.value.data|
              && r.value.chunkType == ChunkType(bytes[4..8])
              && r.value.data == bytes[8..8 + r.value.length]
              && r.value.crc == StoredCrc(bytes)
              && WellFormed(r.value)
  {
    if |bytes| < 4 then Err(UnexpectedEof)
    else
      var length := FromBeBytes(bytes[..4]);
      if |bytes| < 8 then Err(UnexpectedEof)
      else
        var chunkType := ChunkType(bytes[4..8]);
        if |bytes| < 8 + length then Err(UnexpectedEof)
        else
          var data := bytes[8..8 + length];
          if |bytes| < 12 + length then Err(UnexpectedEof)
          else
            var crc := FromBeBytes(bytes[8 + length..12 + length]);
            SliceSplit(bytes, 4, 8, 8 + length);
            if crc != Crc.Crc32(chunkType.bytes + data) then Err(IncorrectCrc)
            else Ok(Chunk(length, chunkType, data, crc))
  }

  /** `Chunk::data_as_string`: the data as text, failing on invalid UTF-8. */
  ghost function DataAsString(c: Chunk): (r: Result<string>)
    ensures r.Ok? ==> Utf8.Encode(r.value) == c.data
    ensures r.Err? ==> r.error == InvalidUtf8 && !Utf8.IsValid(c.data)
  {
    match Utf8.Decode(c.data)
    case Some(s) => Ok(s)
    case None => Err(InvalidUtf8)
  }

  /** Inputs that agree on the first 12 + length bytes decode alike. */
  lemma SamePrefixSameResult(a: seq<Byte>, b: seq<Byte>)
    requires IsComplete(a) && |b| >= 12 + DeclaredLength(a)
    requires forall i :: 0 <= i < 12 + DeclaredLength(a) ==> a[i] == b[i]
    ensures TryFrom(a) == TryFrom(b)
  {
    var n: int := DeclaredLength(a);
    assert a[..4] == b[..4];
    assert DeclaredLength(b) == n && IsComplete(b);
    assert a[8 + n..12 + n] == b[8 + n..12 + n];
    assert StoredCrc(a) == StoredCrc(b);
    assert a[4..8 + n] == b[4..8 + n];
    assert a[4..8] == b[4..8];
    assert a[8..8 + n] == b[8..8 + n];
  }

  /** Decoding reads only the first 12 + length bytes; whatever follows is ignored. */
  lemma TryFromIgnoresTrailing(bytes: seq<Byte>, rest: seq<Byte>)
    requires IsComplete(bytes)
    ensures TryFrom(bytes + rest) == TryFrom(bytes)
    ensures TryFrom(bytes) == TryFrom(bytes[..12 + DeclaredLength(bytes)])
  {
    var n: int := DeclaredLength(bytes);
    SamePrefixSameResult(bytes, bytes + rest);
    SamePrefixSameResult(bytes, bytes[..12 + n]);
  }

  /** The bytes the CRC covers, 4 up to 8 + length, are the type followed by the data. */
  lemma CrcWindow(c: Chunk)
    ensures AsBytes(c)[4..8 + |c.data|] == c.chunkType.bytes + c.data
  {
    var r, n := AsBytes(c), |c.data|;
    forall i | 0 <= i < 4 + n
      ensures r[4..8 + n][i] == (c.chunkType.bytes + c.data)[i]
    {
      if i < 4 {
        assert r[4..8 + n][i] == r[4..8][i];
      } else {
        assert r[4..8 + n][i] == r[8..8 + n][i - 4];
      }
    }
  }

  /**
   * The chunk layout with an arbitrary stored CRC decodes to the chunk
   * `new` builds when the CRC matches the type and data, and is rejected
   * with `IncorrectCrc` otherwise.
   */
  lemma DecodeLayout(chunkType: ChunkType, data: seq<Byte>, crc: U32)
    requires |data| < U32Limit
    ensures TryFrom(ToBeBytes(|data|) + chunkType.bytes + data + ToBeBytes(crc))
         == if crc == Crc.Crc32(chunkType.bytes + data) then Ok(New(chunkType, data)) else Err(IncorrectCrc)
  {
    var c := Chunk(|data|, chunkType, data, crc);
    var bytes := AsBytes(c);
    FromToBeBytes(|data|);
    FromToBeBytes(crc);
    assert DeclaredLength(bytes) == |data|;
    CrcWindow(c);
  }

  /** Encoding then decoding a constructed chunk gives it back unchanged. */
  lemma RoundTrip(chunkType: ChunkType, data: seq<Byte>)
    requires |data| < U32Limit
    ensures TryFrom(AsBytes(New(chunkType, data))) == Ok(New(chunkType, data))
  {
    DecodeLayout(chunkType, data, New(chunkType, data).crc);
  }

  /**
   * Changing any single byte of the type or the data of an encoded chunk
   * makes decoding fail with `IncorrectCrc`.
   */
  lemma CorruptionDetected(chunkType: ChunkType, data: seq<Byte>, k: int, b: Byte)
    requires |data| < U32Limit
    requires 0 <= k < 4 + |data| && b != (chunkType.bytes + data)[k]
    ensures TryFrom(AsBytes(New(chunkType, data))[4 + k := b]) == Err(IncorrectCrc)
  {
    var c := New(chunkType, data);
    var bytes := AsBytes(c);
    var corrupt := bytes[4 + k := b];
    var n := |data|;
    FromToBeBytes(n);
    assert corrupt[..4] == bytes[..4];
    assert DeclaredLength(corrupt) == n;
    assert corrupt[8 + n..12 + n] == bytes[8 + n..12 + n];
    FromToBeBytes(c.crc);
    assert StoredCrc(corrupt) == c.crc;
    CrcWindow(c);
    var window, expected := corrupt[4..8 + n], (chunkType.bytes + data)[k := b];
    forall i | 0 <= i < 4 + n
      ensures window[i] == expected[i]
    {
      assert bytes[4..8 + n][i] == (chunkType.bytes + data)[i];
    }
    assert window == expected;
    Crc.SingleByteErrorDetected(chunkType.bytes + data, k, b);
  }

  /**
   * Changing any single byte of the stored CRC of an encoded chunk makes
   * decoding fail with `IncorrectCrc`.
   */
  lemma StoredCrcCorruptionDetected(chunkType: ChunkType, data: seq<Byte>, k: int, b: Byte)
    requires |data| < U32Limit
    requires 0 <= k < 4 && b != ToBeBytes(New(chunkType, data).crc)[k]
    ensures TryFrom(AsBytes(New(chunkType, data))[8 + |data| + k := b]) == Err(IncorrectCrc)
  {
    var c := New(chunkType, data);
    var bytes := AsBytes(c);
    var n := |data|;
    var corrupt := bytes[8 + n + k := b];
    FromToBeBytes(n);
    assert corrupt[..4] == bytes[..4];
    assert DeclaredLength(corrupt) == n;
    assert corrupt[4..8 + n] == bytes[4..8 + n];
    CrcWindow(c);
    assert bytes[8 + n..12 + n] == ToBeBytes(c.crc);
    assert corrupt[8 + n..12 + n] == ToBeBytes(c.crc)[k := b];
    assert StoredCrc(corrupt) != c.crc;
  }

  /** The round trip survives whatever bytes follow the chunk. */
  lemma RoundTripWithTrailing(chunkType: ChunkType, data: seq<Byte>, rest: seq<Byte>)
    requires |data| < U32Limit
    ensures TryFrom(AsBytes(New(chunkType, data)) + rest) == Ok(New(chunkType, data))
  {
    var bytes := AsBytes(New(chunkType, data));
    RoundTrip(chunkType, data);
    FromToBeBytes(|data|);
    assert IsComplete(bytes);
    TryFromIgnoresTrailing(bytes, rest);
  }

  /**
   * A decoded chunk is the chunk `new` builds from its type and data, and
   * encoding it reproduces exactly the bytes that were consumed.
   */
  lemma DecodeThenEncode(bytes: seq<Byte>)
    requires TryFrom(bytes).Ok?
    ensures TryFrom(bytes).value == New(TryFrom(bytes).value.chunkType, TryFrom(bytes).value.data)
    ensures AsBytes(TryFrom(bytes).value) == bytes[..12 + DeclaredLength(bytes)]
  {
    var c := TryFrom(bytes).value;
    var n: int := DeclaredLength(bytes);
    var r := AsBytes(c);
    forall i | 0 <= i < 12 + n
      ensures r[i] == bytes[i]
    {
      if i < 4 {
        assert r[i] == r[..4][i] && bytes[i] == bytes[..4][i];
      } else if i < 8 {
        assert r[i] == r[4..8][i - 4];
      } else if i < 8 + n {
        assert r[i] == r[8..8 + n][i - 8];
      } else {
        assert r[i] == r[8 + n..][i - 8 - n] && bytes[i] == bytes[8 + n..12 + n][i - 8 - n];
      }
    }
    assert r == bytes[..12 + n];
  }

  /** With a payload of 2^32 bytes the `as u32` cast wraps the length to 0 and the round trip fails. */
  lemma RoundTripNeedsU32Length(chunkType: ChunkType, data: seq<Byte>)
    requires |data| == U32Limit
    ensures New(chunkType, data).length == 0
    ensures TryFrom(AsBytes(New(chunkType, data))) != Ok(New(chunkType, data))
  {
  }
}
