/**
 * The repository's unit tests, and the catalogue check value of its CRC,
 * stated as lemmas about the model.
 */
module SourceTests {
  import opened Bytes
  import opened Results
  import opened ChunkTypes
  import opened Chunks
  import Crc
  import Utf8

  const RuSt: Bytes4 := [82, 117, 83, 116]

  /**
   * The test message, written four characters at a time: `MessageFrom3`,
   * say, is the text from the third piece on (counting from 0), and
   * `BytesFrom3` its bytes.
   */
  const MessageFrom10: string := "e!"
  const MessageFrom9: string := "ll b" + MessageFrom10
  const MessageFrom8: string := "e wi" + MessageFrom9
  const MessageFrom7: string := "ssag" + MessageFrom8
  const MessageFrom6: string := "t me" + MessageFrom7
  const MessageFrom5: string := "ecre" + MessageFrom6
  const MessageFrom4: string := "ur s" + MessageFrom5
  const MessageFrom3: string := "e yo" + MessageFrom4
  const MessageFrom2: string := "wher" + MessageFrom3
  const MessageFrom1: string := " is " + MessageFrom2
  const Message: string := "This" + MessageFrom1

  /** The message's bytes, written four at a time. */
  const BytesFrom10: seq<Byte> := [101, 33]
  const BytesFrom9: seq<Byte> := [108, 108, 32, 98] + BytesFrom10
  const BytesFrom8: seq<Byte> := [101, 32, 119, 105] + BytesFrom9
  const BytesFrom7: seq<Byte> := [115, 115, 97, 103] + BytesFrom8
  const BytesFrom6: seq<Byte> := [116, 32, 109, 101] + BytesFrom7
  const BytesFrom5: seq<Byte> := [101, 99, 114, 101] + BytesFrom6
  const BytesFrom4: seq<Byte> := [117, 114, 32, 115] + BytesFrom5
  const BytesFrom3: seq<Byte> := [101, 32, 121, 111] + BytesFrom4
  const BytesFrom2: seq<Byte> := [119, 104, 101, 114] + BytesFrom3
  const BytesFrom1: seq<Byte> := [32, 105, 115, 32] + BytesFrom2
  const MessageBytes: seq<Byte> := [84, 104, 105, 115] + BytesFrom1

  /** The test message is 42 ASCII characters spelled by `MessageBytes`. */
  lemma MessageSpelling()
    ensures |Message| == 42
    ensures Utf8.SpellsAscii(Message, MessageBytes)
  {
    Utf8.SpellsAsciiAppend("ll b", [108, 108, 32, 98], MessageFrom10, BytesFrom10);
    Utf8.SpellsAsciiAppend("e wi", [101, 32, 119, 105], MessageFrom9, BytesFrom9);
    Utf8.SpellsAsciiAppend("ssag", [115, 115, 97, 103], MessageFrom8, BytesFrom8);
    Utf8.SpellsAsciiAppend("t me", [116, 32, 109, 101], MessageFrom7, BytesFrom7);
    Utf8.SpellsAsciiAppend("ecre", [101, 99, 114, 101], MessageFrom6, BytesFrom6);
    Utf8.SpellsAsciiAppend("ur s", [117, 114, 32, 115], MessageFrom5, BytesFrom5);
    Utf8.SpellsAsciiAppend("e yo", [101, 32, 121, 111], MessageFrom4, BytesFrom4);
    Utf8.SpellsAsciiAppend("wher", [119, 104, 101, 114], MessageFrom3, BytesFrom3);
    Utf8.SpellsAsciiAppend(" is ", [32, 105, 115, 32], MessageFrom2, BytesFrom2);
    Utf8.SpellsAsciiAppend("This", [84, 104, 105, 115], MessageFrom1, BytesFrom1);
  }

  /** The message's UTF-8 bytes are `MessageBytes`, and they decode back to it. */
  lemma MessageEncoding()
    ensures Utf8.Encode(Message) == MessageBytes
    ensures Utf8.Decode(MessageBytes) == Some(Message)
  {
    MessageSpelling();
    Utf8.AsciiRoundTrip(Message, MessageBytes);
  }

  /** The tag of a four-letter ASCII string, with its encoding established. */
  lemma Tag(s: string, bytes: Bytes4)
    requires Utf8.SpellsAscii(s, bytes)
    ensures Utf8.Encode(s) == bytes
    ensures FromStr(s) ==
              if IsOnlyPossibleBytes(ChunkType(bytes)) then Ok(ChunkType(bytes)) else Err(InvalidChunkType)
  {
    Utf8.AsciiRoundTrip(s, bytes);
  }

  /** `test_chunk_type_from_bytes` and `test_chunk_type_from_str`. */
  lemma ChunkTypeFromBytesAndStr()
    ensures TryFromBytes(RuSt).value.bytes == RuSt
    ensures FromStr("RuSt") == TryFromBytes(RuSt)
  {
    Tag("RuSt", RuSt);
  }

  /** `test_chunk_type_is_critical` and `test_chunk_type_is_not_critical`. */
  lemma ChunkTypeCritical()
    ensures FromStr("RuSt").Ok? && IsCritical(FromStr("RuSt").value)
    ensures FromStr("ruSt").Ok? && !IsCritical(FromStr("ruSt").value)
  {
    Tag("RuSt", RuSt);
    Tag("ruSt", [114, 117, 83, 116]);
  }

  /** `test_chunk_type_is_public` and `test_chunk_type_is_not_public`. */
  lemma ChunkTypePublic()
    ensures FromStr("RUSt").Ok? && IsPublic(FromStr("RUSt").value)
    ensures FromStr("RuSt").Ok? && !IsPublic(FromStr("RuSt").value)
  {
    Tag("RUSt", [82, 85, 83, 116]);
    Tag("RuSt", RuSt);
  }

  /** `test_chunk_type_is_reserved_bit_valid` and `test_chunk_type_is_reserved_bit_invalid`. */
  lemma ChunkTypeReservedBit()
    ensures FromStr("RuSt").Ok? && IsReservedBitValid(FromStr("RuSt").value)
    ensures FromStr("Rust").Ok? && !IsReservedBitValid(FromStr("Rust").value)
  {
    Tag("RuSt", RuSt);
    Tag("Rust", [82, 117, 115, 116]);
  }

  /** `test_chunk_type_is_safe_to_copy` and `test_chunk_type_is_unsafe_to_copy`. */
  lemma ChunkTypeSafeToCopy()
    ensures FromStr("RuSt").Ok? && IsSafeToCopy(FromStr("RuSt").value)
    ensures FromStr("RuST").Ok? && !IsSafeToCopy(FromStr("RuST").value)
  {
    Tag("RuSt", RuSt);
    Tag("RuST", [82, 117, 83, 84]);
  }

  /** `test_valid_chunk_is_valid`: a public, critical tag with the reserved bit clear is valid. */
  lemma ChunkTypeValid()
    ensures FromStr("RuSt").Ok? && IsValid(FromStr("RuSt").value)
  {
    Tag("RuSt", RuSt);
  }

  /**
   * `test_invalid_chunk_is_valid`: "Rust" parses but is not valid (its
   * reserved bit is set), and "Ru1t" does not parse at all.
   */
  lemma ChunkTypeInvalid()
    ensures FromStr("Rust").Ok? && !IsValid(FromStr("Rust").value)
    ensures FromStr("Ru1t") == Err(InvalidChunkType)
  {
    Tag("Rust", [82, 117, 115, 116]);
    Tag("Ru1t", [82, 117, 49, 116]);
  }

  /** `test_chunk_type_string`: rendering gives the original text back. */
  lemma ChunkTypeString()
    ensures FromStr("RuSt").Ok? && Render(FromStr("RuSt").value) == Some("RuSt")
  {
    Tag("RuSt", RuSt);
    RenderFromStr("RuSt");
  }

  /**
   * The check value of CRC-32/ISO-HDLC in the catalogue of parametrised CRC
   * algorithms: the checksum of the ASCII text "123456789" is 0xCBF43926.
   */
  lemma CrcCheckValue()
    ensures Crc.Crc32([49, 50, 51, 52, 53, 54, 55, 56, 57]) == 0xCBF4_3926
  {
    Piece(Crc.AllOnes, 49, 50, 51, 52, 0x7C23_1048, 0xB0AC_BB32, 0x77B7_9C2D, 0x641C_1F5C);
    Piece(0x641C_1F5C, 53, 54, 55, 56, 0x340A_C5E3, 0xF68D_2C9E, 0xAFFC_9660, 0x651F_2550);
    Piece1(0x651F_2550, 57, 0x340B_C6D9);
    assert [49, 50, 51, 52, 53, 54, 55, 56, 57] == [49, 50, 51, 52] + ([53, 54, 55, 56] + [57]);
    Crc.UpdateAppend(0x641C_1F5C, [53, 54, 55, 56], [57]);
    Crc.UpdateAppend(Crc.AllOnes, [49, 50, 51, 52], [53, 54, 55, 56] + [57]);
  }

  /** The checksum `Chunk::new` computes for the test tag and message. */
  lemma TestCrc()
    ensures Crc.Crc32(RuSt + MessageBytes) == 2882656334
  {
    Piece(Crc.AllOnes, 82, 117, 83, 116, 0xA898_20AA, 0x16C4_5765, 0xCFAC_51CE, 0x2B7B_F6C3);
    Crc.UpdateAppend(Crc.AllOnes, RuSt, MessageBytes);
    MessageRegister();
  }

  /** The register after the test message, fed four bytes at a time. */
  lemma MessageRegister()
    ensures Crc.Update(0x2B7B_F6C3, MessageBytes) == 0x542E_27B1
  {
    MessageRegisters1();
    MessageRegisters2();
    MessageRegisters3();
    MessageRegisters4();
    Crc.UpdateAppend(0x32B9_2B1E, [108, 108, 32, 98], BytesFrom10);
    Crc.UpdateAppend(0xB3EB_484F, [101, 32, 119, 105], BytesFrom9);
    Crc.UpdateAppend(0xEDEA_CE9A, [115, 115, 97, 103], BytesFrom8);
    Crc.UpdateAppend(0xD945_629F, [116, 32, 109, 101], BytesFrom7);
    Crc.UpdateAppend(0x9295_3043, [101, 99, 114, 101], BytesFrom6);
    Crc.UpdateAppend(0x0A65_C7D4, [117, 114, 32, 115], BytesFrom5);
    Crc.UpdateAppend(0xC475_B53E, [101, 32, 121, 111], BytesFrom4);
    Crc.UpdateAppend(0x0487_C27F, [119, 104, 101, 114], BytesFrom3);
    Crc.UpdateAppend(0xCA5E_E5F2, [32, 105, 115, 32], BytesFrom2);
    Crc.UpdateAppend(0x2B7B_F6C3, [84, 104, 105, 115], BytesFrom1);
  }

  /** The registers after the first three pieces of the message. */
  lemma MessageRegisters1()
    ensures Crc.Update(0x2B7B_F6C3, [84, 104, 105, 115]) == 0xCA5E_E5F2
    ensures Crc.Update(0xCA5E_E5F2, [32, 105, 115, 32]) == 0x0487_C27F
    ensures Crc.Update(0x0487_C27F, [119, 104, 101, 114]) == 0xC475_B53E
  {
    Piece(0x2B7B_F6C3, 84, 104, 105, 115, 0x6E40_7D11, 0x29B7_89E5, 0xE427_7882, 0xCA5E_E5F2);
    Piece(0xCA5E_E5F2, 32, 105, 115, 32, 0x6817_ED1D, 0x5700_A2C8, 0x5CE4_6AA6, 0x0487_C27F);
    Piece(0x0487_C27F, 119, 104, 101, 114, 0x0EDF_0FF0, 0xFEDA_C479, 0x14FF_868B, 0xC475_B53E);
  }

  /** The registers after the fourth to sixth pieces of the message. */
  lemma MessageRegisters2()
    ensures Crc.Update(0xC475_B53E, [101, 32, 121, 111]) == 0x0A65_C7D4
    ensures Crc.Update(0x0A65_C7D4, [117, 114, 32, 115]) == 0x9295_3043
    ensures Crc.Update(0x9295_3043, [101, 99, 114, 101]) == 0xD945_629F
  {
    Piece(0xC475_B53E, 101, 32, 121, 111, 0xFC7D_FDC9, 0xD92A_2721, 0x6569_F3E1, 0x0A65_C7D4);
    Piece(0x0A65_C7D4, 117, 114, 32, 115, 0xA1DB_F6B9, 0x0C17_C0CE, 0x47BE_D8BF, 0x9295_3043);
    Piece(0x9295_3043, 101, 99, 114, 101, 0xD29F_10CD, 0x31BC_11FF, 0x9338_438C, 0xD945_629F);
  }

  /** The registers after the seventh to ninth pieces of the message. */
  lemma MessageRegisters3()
    ensures Crc.Update(0xD945_629F, [116, 32, 109, 101]) == 0xEDEA_CE9A
    ensures Crc.Update(0xEDEA_CE9A, [115, 115, 97, 103]) == 0xB3EB_484F
    ensures Crc.Update(0xB3EB_484F, [101, 32, 119, 105]) == 0x32B9_2B1E
  {
    Piece(0xD945_629F, 116, 32, 109, 101, 0x3701_7E92, 0x2558_D3DE, 0x524D_BAE5, 0xEDEA_CE9A);
    Piece(0xEDEA_CE9A, 115, 115, 97, 103, 0xD93B_B012, 0x3A6C_6A7E, 0x8D32_619F, 0xB3EB_484F);
    Piece(0xB3EB_484F, 101, 32, 119, 105, 0xDB08_229E, 0x2C02_96A9, 0x6147_FD45, 0x32B9_2B1E);
  }

  /** The registers after the last two pieces of the message. */
  lemma MessageRegisters4()
    ensures Crc.Update(0x32B9_2B1E, [108, 108, 32, 98]) == 0x7F0B_93F5
    ensures Crc.Update(0x7F0B_93F5, [101, 33]) == 0x542E_27B1
  {
    Piece(0x32B9_2B1E, 108, 108, 32, 98, 0xBE39_A93B, 0xF5B1_FDFE, 0x619E_4E2E, 0x7F0B_93F5);
    Piece2(0x7F0B_93F5, 101, 33, 0xF070_98D7, 0x542E_27B1);
  }

  /** Feeding four bytes, given the register after each. */
  lemma Piece(c: bv32, a: Byte, b: Byte, d: Byte, e: Byte, c1: bv32, c2: bv32, c3: bv32, c4: bv32)
    requires Crc.Feed(c, Crc.Octet(a)) == c1 && Crc.Feed(c1, Crc.Octet(b)) == c2
    requires Crc.Feed(c2, Crc.Octet(d)) == c3 && Crc.Feed(c3, Crc.Octet(e)) == c4
    ensures Crc.Update(c, [a, b, d, e]) == c4
  {
    assert [a, b, d, e][1..] == [b, d, e];
    assert [b, d, e][1..] == [d, e];
    assert [d, e][1..] == [e];
    assert [e][1..] == [];
    assert Crc.Update(c3, [e]) == Crc.Update(c4, []);
    assert Crc.Update(c2, [d, e]) == Crc.Update(c3, [e]);
    assert Crc.Update(c1, [b, d, e]) == Crc.Update(c2, [d, e]);
  }

  /** Feeding two bytes, given the register after each. */
  lemma Piece2(c: bv32, a: Byte, b: Byte, c1: bv32, c2: bv32)
    requires Crc.Feed(c, Crc.Octet(a)) == c1 && Crc.Feed(c1, Crc.Octet(b)) == c2
    ensures Crc.Update(c, [a, b]) == c2
  {
    assert [a, b][1..] == [b];
    assert [b][1..] == [];
    assert Crc.Update(c1, [b]) == Crc.Update(c2, []);
  }

  /** Feeding one byte. */
  lemma Piece1(c: bv32, a: Byte, c1: bv32)
    requires Crc.Feed(c, Crc.Octet(a)) == c1
    ensures Crc.Update(c, [a]) == c1
  {
    assert [a][1..] == [];
  }

  /** `test_new_chunk`: the length and CRC `new` computes. */
  lemma NewChunk()
    ensures New(ChunkType(RuSt), MessageBytes).length == 42
    ensures New(ChunkType(RuSt), MessageBytes).crc == 2882656334
  {
    TestCrc();
  }

  /** The tag of the chunk `new` builds renders as "RuSt", and its data reads as the message. */
  lemma ChunkTypeAndString()
    ensures Render(New(ChunkType(RuSt), MessageBytes).chunkType) == Some("RuSt")
    ensures DataAsString(New(ChunkType(RuSt), MessageBytes)) == Ok(Message)
  {
    ChunkTypeString();
    Tag("RuSt", RuSt);
    MessageEncoding();
  }

  /** The bytes the decoding tests feed to `Chunk::try_from`, with a chosen stored CRC. */
  function TestInput(crc: U32): seq<Byte> {
    ToBeBytes(42) + RuSt + MessageBytes + ToBeBytes(crc)
  }

  /**
   * `testing_chunk` with `test_chunk_length`, `test_chunk_type`,
   * `test_chunk_string` and `test_chunk_crc`, and
   * `test_valid_chunk_from_bytes`: the test input decodes to the test chunk,
   * whose fields are the expected ones.
   */
  lemma ValidChunkFromBytes()
    ensures TryFrom(TestInput(2882656334)) == Ok(New(ChunkType(RuSt), MessageBytes))
    ensures TryFrom(TestInput(2882656334)).value.length == 42
    ensures Render(TryFrom(TestInput(2882656334)).value.chunkType) == Some("RuSt")
    ensures DataAsString(TryFrom(TestInput(2882656334)).value) == Ok(Message)
    ensures TryFrom(TestInput(2882656334)).value.crc == 2882656334
  {
    TestCrc();
    DecodeLayout(ChunkType(RuSt), MessageBytes, 2882656334);
    NewChunk();
    ChunkTypeAndString();
  }

  /** `test_invalid_chunk_from_bytes`: a stored CRC off by one is rejected. */
  lemma InvalidChunkFromBytes()
    ensures TryFrom(TestInput(2882656333)) == Err(IncorrectCrc)
  {
    TestCrc();
    DecodeLayout(ChunkType(RuSt), MessageBytes, 2882656333);
  }
}
