/**
 * The two value formatters of the task page (app/src/pages/TaskDetail.tsx):
 * `formatDescription`, which renders the fixed 64-byte on-chain description,
 * and the zero case of `formatTimestamp`.
 */
module TaskDetail {
  import opened Wrappers
  import opened Bytes
  import opened Hex

  /** The description with every zero byte removed, other bytes in order. */
  function NonZero(desc: seq<Byte>): (r: seq<Byte>)
    ensures |r| <= |desc|
    ensures forall b :: b in r <==> b in desc && b != 0
  {
    if desc == [] then []
    else (if desc[0] == 0 then [] else [desc[0]]) + NonZero(desc[1..])
  }

  /** Filtering distributes over concatenation. */
  lemma {:induction false} NonZeroAppend(a: seq<Byte>, b: seq<Byte>)
    ensures NonZero(a + b) == NonZero(a) + NonZero(b)
  {
    if a == [] {
      assert a + b == b;
    } else {
      assert (a + b)[1..] == a[1..] + b;
      NonZeroAppend(a[1..], b);
    }
  }

  /** A bare zero byte filters to nothing. */
  lemma ZeroFiltersToNothing()
    ensures NonZero([0]) == []
  {
    assert [0 as Byte][1..] == [];
  }

  /** Characters the pattern `/^[\x20-\x7E]+$/` accepts. */
  predicate Printable(b: Byte) {
    0x20 <= b <= 0x7E
  }

  /** The UTF-8 byte order mark, which `TextDecoder` drops from the front of its input. */
  const ByteOrderMark: seq<Byte> := [0xEF, 0xBB, 0xBF]

  function StripByteOrderMark(bs: seq<Byte>): (r: seq<Byte>)
    ensures |r| <= |bs|
  {
    if |bs| >= 3 && bs[..3] == ByteOrderMark then bs[3..] else bs
  }

  /**
   * Whether the decoded text passes the printable-ASCII pattern. A byte
   * below 0x80 decodes to the character with its code; a byte at or above
   * 0x80 is part of a multi-byte character or an invalid sequence and
   * contributes a character beyond 0x7E either way. So the pattern accepts
   * exactly when what is left after the byte order mark is non-empty and
   * every byte of it is printable.
   */
  predicate ShownAsText(nonZero: seq<Byte>) {
    var body := StripByteOrderMark(nonZero);
    |body| > 0 && forall i :: 0 <= i < |body| ==> Printable(body[i])
  }

  /** The characters an all-ASCII byte string decodes to. */
  function AsText(body: seq<Byte>): (s: string)
    ensures |s| == |body|
  {
    seq(|body|, i requires 0 <= i < |body| => body[i] as char)
  }

  function Min(a: nat, b: nat): nat {
    if a < b then a else b
  }

  /**
   * `formatDescription`: 'No description' when nothing but zero bytes is
   * stored, the decoded text when it is printable ASCII, and otherwise the
   * hex of the first sixteen non-zero bytes followed by '...'.
   */
  function FormatDescription(desc: seq<Byte>): (r: string)
    ensures NonZero(desc) == [] ==> r == "No description"
    ensures ShownAsText(NonZero(desc)) ==>
      var body := StripByteOrderMark(NonZero(desc));
      && |r| == |body|
      && forall i :: 0 <= i < |r| ==> r[i] as int == body[i] && 0x20 <= r[i] as int <= 0x7E
    ensures NonZero(desc) != [] && !ShownAsText(NonZero(desc)) ==>
      var shown := NonZero(desc)[..Min(16, |NonZero(desc)|)];
      && 5 <= |r| <= 35
      && r[|r| - 3..] == "..."
      && HexToBytes(r[..|r| - 3]) == Some(shown)
  {
    var nonZero := NonZero(desc);
    if |nonZero| == 0 then "No description"
    else if ShownAsText(nonZero) then AsText(StripByteOrderMark(nonZero))
    else
      var shown := nonZero[..Min(16, |nonZero|)];
      HashToHexLength(shown);
      HexRoundTrip(shown);
      var hex := HashToHex(shown);
      assert (hex + "...")[..|hex|] == hex;
      hex + "..."
  }

  /** Zero bytes anywhere in the description never change what is shown. */
  lemma ZeroBytesIgnored(a: seq<Byte>, b: seq<Byte>)
    ensures FormatDescription(a + [0] + b) == FormatDescription(a + b)
  {
    NonZeroAppend(a + [0], b);
    NonZeroAppend(a, [0]);
    NonZeroAppend(a, b);
    ZeroFiltersToNothing();
    assert NonZero(a + [0]) == NonZero(a);
  }

  /** An empty or all-zero description shows 'No description'. */
  lemma AllZeroShowsNoDescription(desc: seq<Byte>)
    requires forall i :: 0 <= i < |desc| ==> desc[i] == 0
    ensures FormatDescription(desc) == "No description"
  {
    ZerosFilterToNothing(desc);
  }

  lemma {:induction false} ZerosFilterToNothing(desc: seq<Byte>)
    requires forall i :: 0 <= i < |desc| ==> desc[i] == 0
    ensures NonZero(desc) == []
  {
    if desc != [] {
      ZerosFilterToNothing(desc[1..]);
    }
  }

  /** Filtering twice is filtering once. */
  lemma {:induction false} NonZeroIdempotent(desc: seq<Byte>)
    ensures NonZero(NonZero(desc)) == NonZero(desc)
  {
    if desc != [] {
      var head := if desc[0] == 0 then [] else [desc[0]];
      NonZeroIdempotent(desc[1..]);
      NonZeroAppend(head, NonZero(desc[1..]));
      if desc[0] != 0 {
        assert NonZero(head) == head by {
          assert head[1..] == [];
        }
      }
    }
  }

  /** The description shows the same as its zero-free bytes. */
  lemma FormatOnlySeesNonZero(desc: seq<Byte>)
    ensures FormatDescription(NonZero(desc)) == FormatDescription(desc)
  {
    NonZeroIdempotent(desc);
  }

  /**
   * `formatTimestamp`: a zero timestamp is shown as 'None'; any other is
   * handed to the locale-dependent date rendering, which this model takes
   * as a parameter.
   */
  function FormatTimestamp(timestamp: int, localeString: int -> string): (r: string)
    ensures timestamp == 0 ==> r == "None"
    ensures timestamp != 0 ==> r == localeString(timestamp)
  {
    if timestamp == 0 then "None" else localeString(timestamp)
  }
}
