/**
 * Lower-case hexadecimal rendering of byte arrays, as `hashToHex` in
 * app/src/lib/program.ts does it: every byte goes through
 * `b.toString(16).padStart(2, "0")` and the pieces are joined.
 */
module Hex {
  import opened Wrappers
  import opened Bytes

  /** The characters `toString(16)` produces: 0-9 and lower-case a-f. */
  predicate IsHexDigit(c: char) {
    '0' <= c <= '9' || 'a' <= c <= 'f'
  }

  /** The lower-case hexadecimal digit of a value below 16. */
  function HexDigit(d: nat): (c: char)
    requires d < 16
    ensures IsHexDigit(c)
  {
    if d < 10 then (d + '0' as int) as char else (d - 10 + 'a' as int) as char
  }

  /** The value of a lower-case hexadecimal digit, or None for any other character. */
  function HexValue(c: char): (r: Option<nat>)
    ensures r.Some? <==> IsHexDigit(c)
    ensures r.Some? ==> r.value < 16 && HexDigit(r.value) == c
  {
    if '0' <= c <= '9' then Some(c as int - '0' as int)
    else if 'a' <= c <= 'f' then Some(c as int - 'a' as int + 10)
    else None
  }

  /** `n.toString(16)`: base-16 digits of `n`, most significant first, no leading zeros. */
  function ToStringRadix16(n: nat): (s: string)
    decreases n
  {
    if n < 16 then [HexDigit(n)] else ToStringRadix16(n / 16) + [HexDigit(n % 16)]
  }

  /** `s.padStart(width, fill)`: left-pad with `fill` up to `width` characters. */
  function PadStart(s: string, width: nat, fill: char): (r: string)
  {
    if |s| >= width then s else seq(width - |s|, _ => fill) + s
  }

  /** One byte as `b.toString(16).padStart(2, "0")`. */
  function ByteToHex(b: Byte): string {
    PadStart(ToStringRadix16(b as int), 2, '0')
  }

  /** Each byte renders as exactly its high digit followed by its low digit. */
  lemma ByteToHexDigits(b: Byte)
    ensures ByteToHex(b) == [HexDigit(b as int / 16), HexDigit(b as int % 16)]
  {
    var n := b as int;
    if n >= 16 {
      assert ToStringRadix16(n / 16) == [HexDigit(n / 16)];
    }
  }

  /** `hashToHex`: the concatenation of every byte's two-digit rendering. */
  function HashToHex(bs: seq<Byte>): string
  {
    if |bs| == 0 then "" else ByteToHex(bs[0]) + HashToHex(bs[1..])
  }

  /** The inverse of `HashToHex`: None on odd length or any non-hex character. */
  function HexToBytes(s: string): (r: Option<seq<Byte>>)
    decreases |s|
  {
    if |s| == 0 then Some([])
    else if |s| == 1 then None
    else
      match (HexValue(s[0]), HexValue(s[1]), HexToBytes(s[2..]))
      case (Some(hi), Some(lo), Some(rest)) => Some([(hi * 16 + lo) as Byte] + rest)
      case _ => None
  }

  /** n bytes give exactly 2n characters. */
  lemma {:induction false} HashToHexLength(bs: seq<Byte>)
    ensures |HashToHex(bs)| == 2 * |bs|
  {
    if |bs| > 0 {
      ByteToHexDigits(bs[0]);
      HashToHexLength(bs[1..]);
    }
  }

  /** Byte i is rendered at positions 2i and 2i+1, high digit first. */
  lemma {:induction false} HashToHexAt(bs: seq<Byte>, i: nat)
    requires i < |bs|
    ensures |HashToHex(bs)| == 2 * |bs|
    ensures HashToHex(bs)[2 * i] == HexDigit(bs[i] as int / 16)
    ensures HashToHex(bs)[2 * i + 1] == HexDigit(bs[i] as int % 16)
  {
    HashToHexLength(bs);
    ByteToHexDigits(bs[0]);
    if i > 0 {
      HashToHexAt(bs[1..], i - 1);
      assert bs[1..][i - 1] == bs[i];
    }
  }

  /** Every character of the rendering is a lower-case hex digit. */
  lemma HashToHexDigitsOnly(bs: seq<Byte>)
    ensures forall k :: 0 <= k < |HashToHex(bs)| ==> IsHexDigit(HashToHex(bs)[k])
  {
    HashToHexLength(bs);
    forall k | 0 <= k < |HashToHex(bs)| ensures IsHexDigit(HashToHex(bs)[k]) {
      HashToHexAt(bs, k / 2);
    }
  }

  /** The two characters of one byte decode back to that byte. */
  lemma ByteDigitsDecode(b: Byte)
    ensures HexValue(HexDigit(b as int / 16)) == Some(b as int / 16)
    ensures HexValue(HexDigit(b as int % 16)) == Some(b as int % 16)
    ensures ((b as int / 16) * 16 + b as int % 16) as Byte == b
  {
  }

  /** Decoding the rendering gives back the bytes: `hashToHex` loses no information. */
  lemma {:induction false} HexRoundTrip(bs: seq<Byte>)
    ensures HexToBytes(HashToHex(bs)) == Some(bs)
  {
    if |bs| > 0 {
      var b := bs[0];
      ByteToHexDigits(b);
      ByteDigitsDecode(b);
      HexRoundTrip(bs[1..]);
      var s := HashToHex(bs);
      assert s == ByteToHex(b) + HashToHex(bs[1..]);
      assert s[2..] == HashToHex(bs[1..]);
      assert [b] + bs[1..] == bs;
    }
  }

  /** Two byte strings with the same rendering are equal. */
  lemma HashToHexInjective(xs: seq<Byte>, ys: seq<Byte>)
    requires HashToHex(xs) == HashToHex(ys)
    ensures xs == ys
  {
    HexRoundTrip(xs);
    HexRoundTrip(ys);
  }
}
