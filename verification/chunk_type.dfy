/**
 * The 4-byte chunk type tag and its naming conventions (section 5.4 of the
 * PNG specification): the case of each of the four letters carries one
 * property bit, bit 5 of the byte (0x20), set for lowercase.
 */
module ChunkTypes {
  import opened Bytes
  import opened Results
  import Utf8

  /** A chunk type is any four bytes; equality is equality of the bytes. */
  datatype ChunkType = ChunkType(bytes: Bytes4)

  /** An ASCII letter: 65..91 or 97..123, upper bounds excluded. */
  predicate IsLetter(b: Byte) {
    (65 <= b < 91) || (97 <= b < 123)
  }

  /** `u8::is_ascii_uppercase`: 'A'..='Z'. */
  predicate IsAsciiUppercase(b: Byte) {
    'A' as Byte <= b <= 'Z' as Byte
  }

  /** `u8::is_ascii_lowercase`: 'a'..='z'. */
  predicate IsAsciiLowercase(b: Byte) {
    'a' as Byte <= b <= 'z' as Byte
  }

  /** The property bit of a byte: bit 5, the ASCII case bit. */
  predicate PropertyBit(b: Byte) {
    b / 0x20 % 2 == 1
  }

  /** `is_only_possible_bytes`: every byte is an uppercase or a lowercase ASCII letter. */
  predicate IsOnlyPossibleBytes(t: ChunkType): (r: bool)
    ensures r <==> forall i :: 0 <= i < 4 ==> IsAsciiUppercase(t.bytes[i]) || IsAsciiLowercase(t.bytes[i])
  {
    forall i :: 0 <= i < 4 ==> IsLetter(t.bytes[i])
  }

  /** `is_critical`: the first letter is uppercase, i.e. a letter with bit 5 clear. */
  predicate IsCritical(t: ChunkType): (r: bool)
    ensures r <==> IsLetter(t.bytes[0]) && !PropertyBit(t.bytes[0])
  {
    IsAsciiUppercase(t.bytes[0])
  }

  /** `is_public`: the second letter is uppercase, i.e. a letter with bit 5 clear. */
  predicate IsPublic(t: ChunkType): (r: bool)
    ensures r <==> IsLetter(t.bytes[1]) && !PropertyBit(t.bytes[1])
  {
    IsAsciiUppercase(t.bytes[1])
  }

  /** `is_reserved_bit_valid`: the third letter is uppercase, i.e. a letter with bit 5 clear. */
  predicate IsReservedBitValid(t: ChunkType): (r: bool)
    ensures r <==> IsLetter(t.bytes[2]) && !PropertyBit(t.bytes[2])
  {
    IsAsciiUppercase(t.bytes[2])
  }

  /** `is_safe_to_copy`: the fourth letter is lowercase, i.e. a letter with bit 5 set. */
  predicate IsSafeToCopy(t: ChunkType): (r: bool)
    ensures r <==> IsLetter(t.bytes[3]) && PropertyBit(t.bytes[3])
  {
    IsAsciiLowercase(t.bytes[3])
  }

  /** `is_valid`: four letters, the third with its reserved bit clear. */
  predicate IsValid(t: ChunkType): (r: bool)
    ensures r <==> IsOnlyPossibleBytes(t) && !PropertyBit(t.bytes[2])
  {
    IsReservedBitValid(t) && IsOnlyPossibleBytes(t)
  }

  /** `ChunkType::try_from([u8; 4])`: never fails and checks nothing. */
  function TryFromBytes(bytes: Bytes4): (r: Result<ChunkType>)
    ensures r.Ok? && r.value.bytes == bytes
  {
    Ok(ChunkType(bytes))
  }

  /**
   * `ChunkType::from_str`: the string's UTF-8 bytes must be exactly four
   * (otherwise the slice-to-array conversion fails) and all ASCII letters.
   */
  function FromStr(s: string): (r: Result<ChunkType>)
    ensures r == Err(SliceLength) <==> |Utf8.Encode(s)| != 4
    ensures r == Err(InvalidChunkType) <==> |Utf8.Encode(s)| == 4 && !IsOnlyPossibleBytes(ChunkType(Utf8.Encode(s)))
    ensures r.Ok? <==> |Utf8.Encode(s)| == 4 && IsOnlyPossibleBytes(ChunkType(Utf8.Encode(s)))
    ensures r.Ok? ==> r.value.bytes == Utf8.Encode(s)
  {
    var bytes := Utf8.Encode(s);
    if |bytes| != 4 then Err(SliceLength)
    else if !IsOnlyPossibleBytes(ChunkType(bytes)) then Err(InvalidChunkType)
    else Ok(ChunkType(bytes))
  }

  /** A character that is an ASCII letter. */
  predicate IsLetterChar(c: char) {
    ('A' <= c <= 'Z') || ('a' <= c <= 'z')
  }

  /**
   * `from_str` accepts a string exactly when it is four ASCII letters, and
   * then stores their codes, one byte per character.
   */
  lemma FromStrAccepts(s: string)
    ensures FromStr(s).Ok? <==> |s| == 4 && forall i :: 0 <= i < 4 ==> IsLetterChar(s[i])
    ensures FromStr(s).Ok? ==> forall i :: 0 <= i < 4 ==> FromStr(s).value.bytes[i] as int == s[i] as int
  {
    var bytes := Utf8.Encode(s);
    Utf8.EncodeAscii(s);
    if FromStr(s).Ok? {
      assert forall i :: 0 <= i < |bytes| ==> Utf8.IsAsciiByte(bytes[i]) by {
        forall i | 0 <= i < |bytes|
          ensures Utf8.IsAsciiByte(bytes[i])
        {
          assert IsLetter(ChunkType(bytes).bytes[i]);
        }
      }
      forall i | 0 <= i < 4
        ensures IsLetterChar(s[i])
      {
        assert IsLetter(ChunkType(bytes).bytes[i]);
      }
    }
    if |s| == 4 && forall i :: 0 <= i < 4 ==> IsLetterChar(s[i]) {
      forall i | 0 <= i < 4
        ensures IsLetter(bytes[i])
      {
      }
    }
  }

  /** `Display`: the tag as text, or None where `from_utf8(..).unwrap()` panics. */
  ghost function Render(t: ChunkType): (r: Option<string>)
    ensures r.Some? <==> Utf8.IsValid(t.bytes)
    ensures r.Some? ==> Utf8.Encode(r.value) == t.bytes
  {
    Utf8.Decode(t.bytes)
  }

  /** Rendering a tag parsed from a string gives that string back. */
  lemma RenderFromStr(s: string)
    requires FromStr(s).Ok?
    ensures Render(FromStr(s).value) == Some(s)
  {
    var t := FromStr(s).value;
    FromStrAccepts(s);
    Utf8.AsciiRoundTrip(s, t.bytes);
  }
}
