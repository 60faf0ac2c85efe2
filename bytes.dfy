/** Byte-level vocabulary shared by the client helpers and the registry model. */
module Bytes {

  /** An unsigned 8-bit value (a `Uint8Array` element, a Rust `u8`). */
  type Byte = b: int | 0 <= b < 256

  /** A Solana public key: exactly 32 bytes (`PublicKey.toBuffer()`). */
  type Pubkey = k: seq<Byte> | |k| == 32 witness seq(32, _ => 0)

  /** A 32-byte content digest (`[u8; 32]` in the account layouts). */
  type Hash32 = h: seq<Byte> | |h| == 32 witness seq(32, _ => 0)

  /** Rust's fixed-width integers. */
  type U32 = x: int | 0 <= x <= 0xffff_ffff
  type U64 = x: int | 0 <= x <= 0xffff_ffff_ffff_ffff
  type I64 = x: int | -0x8000_0000_0000_0000 <= x <= 0x7fff_ffff_ffff_ffff

  const MaxU32: U32 := 0xffff_ffff
  const MaxU64: U64 := 0xffff_ffff_ffff_ffff

  /** True when every character is 7-bit ASCII. */
  predicate IsAscii(s: string) {
    forall i :: 0 <= i < |s| ==> s[i] as int < 128
  }

  /** `Buffer.from(s)` for an ASCII string: one byte per character, same code. */
  function AsciiBytes(s: string): (r: seq<Byte>)
    requires IsAscii(s)
    ensures |r| == |s|
    ensures forall i :: 0 <= i < |s| ==> r[i] as int == s[i] as int
  {
    seq(|s|, i requires 0 <= i < |s| => s[i] as int)
  }

  // ---------------------------------------------------------------- little-endian integers

  /** 256^n. */
  function Pow256(n: nat): (p: nat)
    ensures p >= 1
  {
    if n == 0 then 1 else 256 * Pow256(n - 1)
  }

  /** The low `width` bytes of v, least significant first (Node's `writeUInt32LE`, Borsh integers). */
  function LittleEndian(v: nat, width: nat): (r: seq<Byte>)
    ensures |r| == width
  {
    if width == 0 then [] else [v % 256] + LittleEndian(v / 256, width - 1)
  }

  /** The unsigned integer whose little-endian bytes are s. */
  function FromLittleEndian(s: seq<Byte>): (v: nat)
    ensures v < Pow256(|s|)
  {
    if s == [] then 0 else s[0] + 256 * FromLittleEndian(s[1..])
  }

  /** Encoding then decoding gives back every value that fits in the width. */
  lemma {:induction false} LittleEndianRoundTrip(v: nat, width: nat)
    requires v < Pow256(width)
    ensures FromLittleEndian(LittleEndian(v, width)) == v
  {
    if width > 0 {
      var r := LittleEndian(v, width);
      assert r[1..] == LittleEndian(v / 256, width - 1);
      LittleEndianRoundTrip(v / 256, width - 1);
    }
  }

  /** Decoding then re-encoding at the same width gives back the bytes. */
  lemma {:induction false} LittleEndianBytesRoundTrip(s: seq<Byte>)
    ensures LittleEndian(FromLittleEndian(s), |s|) == s
  {
    if s != [] {
      var v := FromLittleEndian(s);
      assert v % 256 == s[0] && v / 256 == FromLittleEndian(s[1..]);
      LittleEndianBytesRoundTrip(s[1..]);
    }
  }

  /** Two values below 256^width with the same encoding are equal. */
  lemma LittleEndianInjective(v: nat, u: nat, width: nat)
    requires v < Pow256(width) && u < Pow256(width)
    requires LittleEndian(v, width) == LittleEndian(u, width)
    ensures v == u
  {
    LittleEndianRoundTrip(v, width);
    LittleEndianRoundTrip(u, width);
  }

  // ---------------------------------------------------------------- UTF-8

  /** The UTF-8 bytes of one Unicode scalar value (RFC 3629, section 3). */
  function Utf8Char(c: char): (r: seq<Byte>)
    ensures 1 <= |r| <= 4
    ensures |r| == 1 <==> c as int < 0x80
    ensures |r| == 1 ==> r[0] == c as int
  {
    var cp := c as int;
    if cp < 0x80 then [cp]
    else if cp < 0x800 then [0xC0 + cp / 0x40, 0x80 + cp % 0x40]
    else if cp < 0x1_0000 then [0xE0 + cp / 0x1000, 0x80 + (cp / 0x40) % 0x40, 0x80 + cp % 0x40]
    else [0xF0 + cp / 0x4_0000, 0x80 + (cp / 0x1000) % 0x40, 0x80 + (cp / 0x40) % 0x40, 0x80 + cp % 0x40]
  }

  /** `new TextEncoder().encode(s)`, and the byte string a Rust `String` holds. */
  function Utf8Encode(s: string): seq<Byte> {
    if s == [] then [] else Utf8Char(s[0]) + Utf8Encode(s[1..])
  }

  /** Every character takes one to four bytes. */
  lemma {:induction false} Utf8EncodeLength(s: string)
    ensures |s| <= |Utf8Encode(s)| <= 4 * |s|
  {
    if s != [] {
      Utf8EncodeLength(s[1..]);
    }
  }

  /** On ASCII text UTF-8 is one byte per character: the encoding is `AsciiBytes`. */
  lemma {:induction false} Utf8EncodeAscii(s: string)
    requires IsAscii(s)
    ensures Utf8Encode(s) == AsciiBytes(s)
  {
    if s != [] {
      assert IsAscii(s[1..]) by {
        forall i | 0 <= i < |s[1..]| ensures s[1..][i] as int < 128 {
          assert s[1..][i] == s[i + 1];
        }
      }
      Utf8EncodeAscii(s[1..]);
      assert AsciiBytes(s) == [s[0] as int] + AsciiBytes(s[1..]);
    }
  }

  /** Only the empty string encodes to no bytes. */
  lemma Utf8EncodeEmpty(s: string)
    ensures Utf8Encode(s) == [] <==> s == []
  {
    if s != [] {
      assert |Utf8Char(s[0])| >= 1;
    }
  }
}
