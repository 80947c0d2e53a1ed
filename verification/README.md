# spell: the PNG chunk layer in Dafny

`spell` hides text messages in PNG files by adding, finding and removing
chunks. This project models the chunk layer it is built on, in two parts.

- **Chunk types** (`ChunkType`) are 4-byte tags.
  - They can be built from any four bytes, or parsed from a string of four ASCII letters.
  - Four predicates read the case bit of one byte each. These are the naming conventions in section 5.4 of the PNG specification.
- **Chunks** (`Chunk`) follow the layout in section 5.3 of the PNG specification:
  - a big-endian u32 data length;
  - the 4-byte type;
  - the data;
  - a big-endian u32 CRC-32 over the type and data, excluding the length.

  A chunk can be built from a type and data (`new`), serialised (`as_bytes`) and parsed from a byte slice (`try_from`).
  Parsing fails on truncated input or on a CRC mismatch.

The modules are:

| module | file | contents |
|---|---|---|
| `Results` | `results.dfy` | the error kinds, `Result` and `Option` |
| `Bytes` | `bytes.dfy` | `u8`, `u32`, `[u8; 4]` and the big-endian conversions |
| `Crc` | `crc.dfy` | CRC-32/ISO-HDLC (section 5.5 of the PNG specification), defined bit by bit, with a looping checksum proved equal to it |
| `Utf8` | `utf8.dfy` | `str::as_bytes` as a UTF-8 encoder; `str::from_utf8` as its inverse |
| `ChunkTypes` | `chunk_type.dfy` | `ChunkType` and its operations |
| `Chunks` | `chunk.dfy` | `Chunk`, `new`, `as_bytes`, `try_from`, `data_as_string`, and the round-trip lemmas |
| `SourceTests` | `source_tests.dfy` | the repository's unit tests and the catalogue check value of the CRC, stated as lemmas about the model |

Design choices:

- Rust errors become values of a `Result` datatype.
  - `anyhow` errors map to one `Error` constructor per failure kind: slice length, invalid chunk type, unexpected end of input, incorrect CRC, invalid UTF-8.
  - Error messages are not modelled.
- Panics become `None`. The only one is the `unwrap` in `ChunkType`'s `Display`.
- `data.len() as u32` in `Chunk::new` keeps only the low 32 bits. The model writes that wrap-around out explicitly.
- The CRC is the concrete CRC-32/ISO-HDLC algorithm, not an opaque function:
  - reflected polynomial 0xEDB88320;
  - initial register and final XOR both 0xFFFFFFFF.

  This lets the model check the literal test value 2882656334 and the catalogue check value 0xCBF43926. It also lets it prove that a single corrupted byte in the type, data or CRC is always detected.
- The test message is 42 bytes: the tests build it with length 42 (`src/chunk.rs:119`) and assert that length (`src/chunk.rs:143`).
- Section 5.3 of the PNG specification limits the length to 2^31 - 1. The code accepts any u32, and so does the model.

## Model

| member | source | states |
|---|---|---|
| `Bytes.ToBeBytes` | src/chunk.rs:37-38 | the four bytes are the base-256 digits of the u32, most significant first |
| `Bytes.FromToBeBytes` | src/chunk.rs:69-70 | reading back big-endian bytes gives the original u32 |
| `Bytes.FromBeBytes` | src/chunk.rs:81-82 | every 4-byte array is the big-endian form of the u32 it is read as |
| `Bytes.ToBeBytesInjective` | src/chunk.rs:37-42 | distinct lengths or CRCs serialise to distinct bytes, and equal ones to equal bytes (stand-alone) |
| `Crc.Crc32` | src/chunk.rs:20-27 | the CRC-32/ISO-HDLC checksum: the reflected 0xEDB88320 bitwise fold, starting from and finally XORed with 0xFFFFFFFF; the empty input has CRC 0; the definition is pinned by `SourceTests.CrcCheckValue` and `Crc.SingleByteErrorDetected` |
| `Crc.Checksum` | src/chunk.rs:20-27 | a byte-at-a-time checksum loop computes CRC-32/ISO-HDLC of its input (stand-alone: the chunk functions use `Crc32` directly) |
| `Crc.UpdateAppend` | src/chunk.rs:84-91 | the CRC register over type ++ data is the register over the type, then fed the data |
| `Crc.SingleByteErrorDetected` | src/chunk.rs:84-95 | changing any one byte of the checksummed input changes the CRC |
| `Utf8.EncodeChar` | src/chunk_type.rs:60 | each scalar value takes 1 to 4 bytes, a number the first byte determines; ASCII is its own code; non-ASCII bytes are all >= 0x80 |
| `Utf8.Encode` | src/chunk_type.rs:60 | `str::as_bytes`: each character's UTF-8 bytes in order, at least one byte per character; its meaning is given by `Utf8.EncodeChar`, `Utf8.EncodeAscii` and `Utf8.EncodeInjective` |
| `Utf8.EncodeCharValue` | src/chunk_type.rs:60 | the UTF-8 bytes of a character carry its scalar value, so each character is recovered from its bytes |
| `Utf8.EncodeInjective` | src/chunk.rs:49 | different strings have different UTF-8 bytes, so decoding has at most one answer |
| `Utf8.DecodeEncode` | src/chunk.rs:49 | decoding the UTF-8 bytes of any string gives that string back |
| `Utf8.EncodeAscii` | src/chunk_type.rs:60 | a string's bytes are all ASCII iff its characters are, and then each byte is the character's code |
| `Utf8.Decode` | src/chunk.rs:49 | decoding succeeds exactly on valid UTF-8, and a decoded string encodes back to the bytes |
| `Utf8.AsciiRoundTrip` | src/chunk_type.rs:73 | ASCII text encodes to its codes, and those bytes decode back to the same text |
| `ChunkTypes.IsOnlyPossibleBytes` | src/chunk_type.rs:20-24 | holds iff every byte is an uppercase or a lowercase ASCII letter |
| `ChunkTypes.IsCritical` | src/chunk_type.rs:30-32 | holds iff byte 0 is a letter with bit 5 clear, i.e. in 'A'..='Z' |
| `ChunkTypes.IsPublic` | src/chunk_type.rs:34-36 | holds iff byte 1 is a letter with bit 5 clear, i.e. in 'A'..='Z' |
| `ChunkTypes.IsReservedBitValid` | src/chunk_type.rs:38-40 | holds iff byte 2 is a letter with bit 5 clear, i.e. in 'A'..='Z' |
| `ChunkTypes.IsSafeToCopy` | src/chunk_type.rs:42-44 | holds iff byte 3 is a letter with bit 5 set, i.e. in 'a'..='z' |
| `ChunkTypes.IsValid` | src/chunk_type.rs:26-28 | valid iff all four bytes are letters and the reserved bit of byte 2 is clear |
| `ChunkTypes.TryFromBytes` | src/chunk_type.rs:47-53 | `try_from([u8; 4])` never fails, and `bytes()` returns the input unchanged |
| `ChunkTypes.FromStr` | src/chunk_type.rs:55-69 | fails with a slice-length error iff the UTF-8 form is not 4 bytes; fails as invalid iff it is 4 bytes but not all letters; succeeds iff it is 4 letter bytes, and then stores exactly those bytes |
| `ChunkTypes.FromStrAccepts` | src/chunk_type.rs:20-24 | `from_str` accepts iff the string is four ASCII letters, and then byte i is the code of character i |
| `ChunkTypes.Render` | src/chunk_type.rs:71-75 | rendering succeeds iff the tag's bytes are valid UTF-8 (it panics otherwise), and then gives the text whose UTF-8 bytes are the tag's bytes |
| `ChunkTypes.RenderFromStr` | src/chunk_type.rs:58-75 | rendering a tag parsed from a string gives back that string |
| `Chunks.New` | src/chunk.rs:19-35 | keeps type and data; the CRC covers type ++ data; the length equals the data length below 2^32 and wraps modulo 2^32 above it; the result is well formed iff the data length fits |
| `Chunks.AsBytes` | src/chunk.rs:36-44 | output is 12 + data length bytes: big-endian length, type, the data verbatim, big-endian CRC |
| `Chunks.TryFrom` | src/chunk.rs:62-104 | unexpected end of input iff the slice is shorter than 12 + L (L is the big-endian u32 in bytes 0..4); incorrect CRC iff complete and the stored CRC differs from CRC-32 of bytes 4..8+L; success iff complete and the CRCs agree; on success the fields are exactly the slices of the input and the chunk is well formed |
| `Chunks.DataAsString` | src/chunk.rs:48-51 | success returns the text whose UTF-8 bytes are the data; failure happens only on invalid UTF-8 |
| `Chunks.SamePrefixSameResult` | src/chunk.rs:65-82 | two inputs that agree on their first 12 + L bytes, both long enough, decode to the same result |
| `Chunks.TryFromIgnoresTrailing` | src/chunk.rs:65-82 | only the first 12 + L bytes are read: appending bytes or cutting the input to 12 + L gives the same result |
| `Chunks.DecodeLayout` | src/chunk.rs:64-103 | a length/type/data/CRC layout decodes to the chunk `new` builds when the stored CRC is the right one, and is an incorrect-CRC error otherwise |
| `Chunks.RoundTrip` | src/chunk.rs:19-44 | parsing the bytes of a new chunk gives that chunk back, for data under 2^32 bytes |
| `Chunks.RoundTripWithTrailing` | src/chunk.rs:62-104 | the round trip also holds with any bytes appended |
| `Chunks.DecodeThenEncode` | src/chunk.rs:36-44 | a parsed chunk equals `new` of its type and data, and serialising it reproduces exactly the consumed 12 + L bytes |
| `Chunks.CorruptionDetected` | src/chunk.rs:93-95 | changing any single type or data byte of a serialised chunk makes parsing fail with an incorrect-CRC error |
| `Chunks.StoredCrcCorruptionDetected` | src/chunk.rs:81-95 | changing any single byte of the stored CRC of a serialised chunk makes parsing fail with an incorrect-CRC error |
| `Chunks.RoundTripNeedsU32Length` | src/chunk.rs:30 | with 2^32 data bytes the length wraps to 0 and the round trip fails |
| `SourceTests.ChunkTypeFromBytesAndStr` | src/chunk_type.rs:84-96 | `try_from([82, 117, 83, 116])` keeps its bytes and equals `from_str("RuSt")` |
| `SourceTests.ChunkTypeCritical` | src/chunk_type.rs:99-108 | "RuSt" is critical and "ruSt" is not |
| `SourceTests.ChunkTypePublic` | src/chunk_type.rs:111-120 | "RUSt" is public and "RuSt" is not |
| `SourceTests.ChunkTypeReservedBit` | src/chunk_type.rs:123-132 | "RuSt" has a valid reserved bit and "Rust" does not |
| `SourceTests.ChunkTypeSafeToCopy` | src/chunk_type.rs:135-144 | "RuSt" is safe to copy and "RuST" is not |
| `SourceTests.ChunkTypeValid` | src/chunk_type.rs:147-150 | "RuSt" is valid |
| `SourceTests.ChunkTypeInvalid` | src/chunk_type.rs:153-159 | "Rust" parses but is not valid, and "Ru1t" is rejected as an invalid chunk type |
| `SourceTests.ChunkTypeString` | src/chunk_type.rs:162-165 | "RuSt" renders as "RuSt" |
| `SourceTests.CrcCheckValue` | src/chunk.rs:20 | CRC-32/ISO-HDLC of the ASCII text "123456789" is 0xCBF43926 |
| `SourceTests.TestCrc` | src/chunk.rs:119-122 | CRC-32 of "RuSt" ++ the 42-byte test message is 2882656334 |
| `SourceTests.NewChunk` | src/chunk.rs:137-145 | `new` of "RuSt" and the message has length 42 and CRC 2882656334 |
| `SourceTests.ValidChunkFromBytes` | src/chunk.rs:118-198 | the test bytes with CRC 2882656334 parse to the chunk `new` builds, with length 42, type rendering as "RuSt", data reading as the message, and CRC 2882656334 |
| `SourceTests.InvalidChunkFromBytes` | src/chunk.rs:201-219 | the same bytes with CRC 2882656333 are rejected with an incorrect-CRC error |

## Left out

- `src/png.rs` (the `Png` container, its signature check, and chunk append, find and remove) is not part of this model. `src/main.rs` and `src/args.rs` are command-line parsing, file I/O and terminal output, and are not modelled either.
- `Display` for `Chunk` is the derived `Debug` format. It prints Rust's own structure syntax and states nothing about the chunk layer.
- `BufReader::read_exact` is modelled as slicing the input. Each read either takes the next bytes or fails with an unexpected-end error.
- `vec![0; length as usize]` in `try_from` can fail to allocate for very large `length`, which aborts the process. The model has no allocation, so it only reports unexpected end of input.
- The `crc` crate computes CRC-32/ISO-HDLC with a lookup table. The model uses the bitwise definition that table encodes, so the table itself is not modelled.
- `str::from_utf8` is modelled as the inverse of the UTF-8 encoder, not as a byte-level validator. It accepts exactly the byte sequences that some string encodes to, and the answer is unique because the encoder is injective.
- `ChunkType::new`, `bytes`, `Chunk::chunk_type`, `length` and `crc` are the constructor and fields of the datatypes. They add no separate operations.
- `ChunkTypes.Render`: the `unwrap` panic on a non-UTF-8 tag is modelled as `None` rather than as an abort.
- `Chunks.CorruptionDetected`: covers changes to type and data bytes; `Chunks.StoredCrcCorruptionDetected` covers the CRC bytes. Changes to the length bytes are not covered: a changed length moves the CRC window, so a corrupted length is not always detected.
