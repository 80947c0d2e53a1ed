/**
 * UTF-8, the byte form of a Rust `str`. A Dafny `string` is a sequence of
 * Unicode scalar values; `Encode` is `str::as_bytes`, and decoding
 * (`str::from_utf8`) succeeds exactly on the bytes `Encode` can produce.
 */
module Utf8 {
  import opened Bytes
  import opened Results

  predicate IsAsciiByte(b: Byte) {
    b < 0x80
  }

  predicate IsAsciiChar(c: char) {
    c as int < 0x80
  }

  /** The one to four bytes of a single scalar value. */
  function EncodeChar(c: char): (r: seq<Byte>)
    ensures 1 <= |r| <= 4
    ensures IsAsciiChar(c) ==> r == [c as int as Byte]
    ensures !IsAsciiChar(c) ==> forall i :: 0 <= i < |r| ==> !IsAsciiByte(r[i])
    ensures |r| == SequenceLength(r[0])
  {
    var n := c as int;
    if n < 0x80 then
      [n as Byte]
    else if n < 0x800 then
      [(0xC0 + n / 0x40) as Byte, (0x80 + n % 0x40) as Byte]
    else if n < 0x1_0000 then
      [(0xE0 + n / 0x1000) as Byte, (0x80 + n / 0x40 % 0x40) as Byte, (0x80 + n % 0x40) as Byte]
    else
      [(0xF0 + n / 0x4_0000) as Byte, (0x80 + n / 0x1000 % 0x40) as Byte,
       (0x80 + n / 0x40 % 0x40) as Byte, (0x80 + n % 0x40) as Byte]
  }

  /** The number of bytes of an encoded scalar value, read off its first byte. */
  function SequenceLength(lead: Byte): nat {
    if lead < 0x80 then 1 else if lead < 0xE0 then 2 else if lead < 0xF0 then 3 else 4
  }

  /** The scalar value the one to four bytes of an encoded character carry. */
  function CharValue(r: seq<Byte>): int
    requires 1 <= |r| <= 4
  {
    var lead := r[0] as int;
    if |r| == 1 then lead
    else if |r| == 2 then (lead - 0xC0) * 0x40 + (r[1] as int - 0x80)
    else if |r| == 3 then ((lead - 0xE0) * 0x40 + (r[1] as int - 0x80)) * 0x40 + (r[2] as int - 0x80)
    else (((lead - 0xF0) * 0x40 + (r[1] as int - 0x80)) * 0x40 + (r[2] as int - 0x80)) * 0x40 + (r[3] as int - 0x80)
  }

  /** Dividing by 64 twice is dividing by 4096. */
  lemma DivDiv(n: nat)
    ensures n / 0x40 / 0x40 == n / 0x1000
  {
  }

  /** The 6-bit groups of a value below 2^21, most significant first, recombine to it. */
  lemma Groups(n: nat)
    ensures n / 0x40 * 0x40 + n % 0x40 == n
    ensures (n / 0x1000 * 0x40 + n / 0x40 % 0x40) * 0x40 + n % 0x40 == n
    ensures ((n / 0x4_0000 * 0x40 + n / 0x1000 % 0x40) * 0x40 + n / 0x40 % 0x40) * 0x40 + n % 0x40 == n
  {
    DivDiv(n);
    DivDiv(n / 0x40);
    assert n / 0x40 / 0x1000 == n / 0x4_0000;
  }

  /** The bytes of a character carry its scalar value. */
  lemma EncodeCharValue(c: char)
    ensures CharValue(EncodeChar(c)) == c as int
  {
    Groups(c as int);
  }

  /** Different strings have different UTF-8 forms, so `from_utf8` has one answer. */
  lemma {:induction false} EncodeInjective(s: string, t: string)
    requires Encode(s) == Encode(t)
    ensures s == t
  {
    if |s| == 0 || |t| == 0 {
      assert |Encode(s)| == 0 || |Encode(t)| == 0;
    } else {
      var e, f := EncodeChar(s[0]), EncodeChar(t[0]);
      assert Encode(s) == e + Encode(s[1..]) && Encode(t) == f + Encode(t[1..]);
      assert e[0] == Encode(s)[0] == f[0];
      assert e == Encode(s)[..|e|] == f;
      EncodeCharValue(s[0]);
      EncodeCharValue(t[0]);
      assert Encode(s[1..]) == Encode(s)[|e|..] == Encode(t[1..]);
      EncodeInjective(s[1..], t[1..]);
      assert s == [s[0]] + s[1..] && t == [t[0]] + t[1..];
    }
  }

  /** `str::as_bytes`. */
  function Encode(s: string): (r: seq<Byte>)
    ensures |r| >= |s|
  {
    if |s| == 0 then [] else EncodeChar(s[0]) + Encode(s[1..])
  }

  /**
   * A string's bytes are all ASCII exactly when its characters are; then
   * there is one byte per character, holding the character's code.
   */
  lemma {:induction false} EncodeAscii(s: string)
    ensures (forall i :: 0 <= i < |Encode(s)| ==> IsAsciiByte(Encode(s)[i]))
        <==> (forall i :: 0 <= i < |s| ==> IsAsciiChar(s[i]))
    ensures (forall i :: 0 <= i < |s| ==> IsAsciiChar(s[i])) ==>
              |Encode(s)| == |s| && forall i :: 0 <= i < |s| ==> Encode(s)[i] as int == s[i] as int
  {
    if |s| > 0 {
      EncodeAscii(s[1..]);
      var head, tail := EncodeChar(s[0]), Encode(s[1..]);
      assert Encode(s) == head + tail;
      if forall i :: 0 <= i < |Encode(s)| ==> IsAsciiByte(Encode(s)[i]) {
        assert IsAsciiByte(Encode(s)[0]);
        forall i | 0 <= i < |tail|
          ensures IsAsciiByte(tail[i])
        {
          assert tail[i] == Encode(s)[|head| + i];
        }
        forall i | 0 <= i < |s|
          ensures IsAsciiChar(s[i])
        {
          if i > 0 {
            assert s[i] == s[1..][i - 1];
          }
        }
      }
      if forall i :: 0 <= i < |s| ==> IsAsciiChar(s[i]) {
        assert forall i :: 0 <= i < |s| - 1 ==> IsAsciiChar(s[1..][i]);
        forall i | 0 <= i < |s|
          ensures Encode(s)[i] as int == s[i] as int
        {
          if i > 0 {
            assert Encode(s)[i] == tail[i - 1];
            assert s[i] == s[1..][i - 1];
          }
        }
      }
    }
  }

  /** Whether `str::from_utf8` accepts `bytes`. */
  ghost predicate IsValid(bytes: seq<Byte>) {
    exists s :: Encode(s) == bytes
  }

  /**
   * `str::from_utf8`: the string whose bytes are `bytes`, if any. There is at
   * most one, by `EncodeInjective`.
   */
  ghost function Decode(bytes: seq<Byte>): (r: Option<string>)
    ensures r.Some? <==> IsValid(bytes)
    ensures r.Some? ==> Encode(r.value) == bytes
  {
    if IsValid(bytes) then Some(var s :| Encode(s) == bytes; s) else None
  }

  /** Decoding the bytes of any string gives that string back. */
  lemma DecodeEncode(s: string)
    ensures Decode(Encode(s)) == Some(s)
  {
    assert IsValid(Encode(s));
    EncodeInjective(Decode(Encode(s)).value, s);
  }

  /** `s` is ASCII text whose character codes are exactly `bytes`. */
  predicate SpellsAscii(s: string, bytes: seq<Byte>) {
    |s| == |bytes| && forall i :: 0 <= i < |s| ==> IsAsciiChar(s[i]) && s[i] as int == bytes[i]
  }

  /** Spellings concatenate. */
  lemma SpellsAsciiAppend(s: string, bytes: seq<Byte>, t: string, more: seq<Byte>)
    requires SpellsAscii(s, bytes) && SpellsAscii(t, more)
    ensures SpellsAscii(s + t, bytes + more)
  {
    forall i | 0 <= i < |s + t|
      ensures IsAsciiChar((s + t)[i]) && (s + t)[i] as int == (bytes + more)[i]
    {
      if i >= |s| {
        assert (s + t)[i] == t[i - |s|] && (bytes + more)[i] == more[i - |s|];
      }
    }
  }

  /** ASCII text encodes to its codes, and those bytes decode back to it. */
  lemma AsciiRoundTrip(s: string, bytes: seq<Byte>)
    requires SpellsAscii(s, bytes)
    ensures Encode(s) == bytes
    ensures Decode(bytes) == Some(s)
  {
    EncodeAscii(s);
    assert Encode(s) == bytes;
    DecodeEncode(s);
  }
}
