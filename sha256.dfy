/**
 * The hand-written SHA-256 of app/src/lib/program.ts (`sha256Simple`, `ror`),
 * used by the client to hash model names into address seeds.
 *
 * A JavaScript number that the source keeps as a 32-bit quantity is modelled
 * by its unsigned value, a `Word`. Every `| 0`, `>>> 0` and `Uint32Array`
 * store in the source keeps the low 32 bits of a sum that stays far below
 * 2^53, so each of them is `Wrap`, reduction modulo 2^32; the signed and the
 * unsigned reading of a 32-bit pattern agree modulo 2^32, so the model keeps
 * only the unsigned one. The bitwise operators act on those 32 bits.
 */
module Sha256 {
  import opened Bytes

  /** The unsigned value of a 32-bit pattern. */
  type Word = x: int | 0 <= x < 0x1_0000_0000
  /** The eight working variables a..h, also used for the hash value h0..h7. */
  datatype Vars = Vars(a: Word, b: Word, c: Word, d: Word, e: Word, f: Word, g: Word, h: Word)

  /** Round constants K0..K63 (section 4.2.2 of FIPS 180-4). */
  const K: seq<Word> := [
    0x428a2f98, 0x71374491, 0xb5c0fbcf, 0xe9b5dba5, 0x3956c25b, 0x59f111f1,
    0x923f82a4, 0xab1c5ed5, 0xd807aa98, 0x12835b01, 0x243185be, 0x550c7dc3,
    0x72be5d74, 0x80deb1fe, 0x9bdc06a7, 0xc19bf174, 0xe49b69c1, 0xefbe4786,
    0x0fc19dc6, 0x240ca1cc, 0x2de92c6f, 0x4a7484aa, 0x5cb0a9dc, 0x76f988da,
    0x983e5152, 0xa831c66d, 0xb00327c8, 0xbf597fc7, 0xc6e00bf3, 0xd5a79147,
    0x06ca6351, 0x14292967, 0x27b70a85, 0x2e1b2138, 0x4d2c6dfc, 0x53380d13,
    0x650a7354, 0x766a0abb, 0x81c2c92e, 0x92722c85, 0xa2bfe8a1, 0xa81a664b,
    0xc24b8b70, 0xc76c51a3, 0xd192e819, 0xd6990624, 0xf40e3585, 0x106aa070,
    0x19a4c116, 0x1e376c08, 0x2748774c, 0x34b0bcb5, 0x391c0cb3, 0x4ed8aa4a,
    0x5b9cca4f, 0x682e6ff3, 0x748f82ee, 0x78a5636f, 0x84c87814, 0x8cc70208,
    0x90befffa, 0xa4506ceb, 0xbef9a3f7, 0xc67178f2
  ]

  /** Initial hash value H(0) (section 5.3.3 of FIPS 180-4). */
  const InitialHash: Vars :=
    Vars(0x6a09e667, 0xbb67ae85, 0x3c6ef372, 0xa54ff53a, 0x510e527f, 0x9b05688c, 0x1f83d9ab, 0x5be0cd19)

  // ---------------------------------------------------------------- words and bytes

  /** `x | 0` (or a `Uint32Array` store) read as unsigned: the low 32 bits of x. */
  function Wrap(x: int): Word {
    x % 0x1_0000_0000
  }

  function Pow2(n: nat): (p: nat)
    ensures p >= 1
  {
    if n == 0 then 1 else 2 * Pow2(n - 1)
  }

  lemma Pow2At32()
    ensures Pow2(32) == 0x1_0000_0000
  {
    assert Pow2(8) == 0x100;
    assert Pow2(16) == 0x1_0000;
    assert Pow2(24) == 0x100_0000;
  }

  /**
   * The low n bits of `x ^ y`, least significant first. The lowest bit and the others are
   * two functions, so a proof unfolds the definition one bit at a time and only
   * where it asks for it. */
  function XorBits(x: nat, y: nat, n: nat): nat
    decreases n, x, y, 1
  {
    if n == 0 then 0 else XorFrom(x, y, n)
  }

  function XorFrom(x: nat, y: nat, n: nat): nat
    requires n > 0
    decreases n, x, y, 0
  {
    (if x % 2 != y % 2 then 1 else 0) + 2 * XorBits(x / 2, y / 2, n - 1)
  }

  lemma {:induction false} XorBitsBound(x: nat, y: nat, n: nat)
    ensures XorBits(x, y, n) < Pow2(n)
    decreases n
  {
    if n > 0 {
      assert XorBits(x, y, n) == XorFrom(x, y, n);
      XorBitsBound(x / 2, y / 2, n - 1);
    }
  }

  /** The low n bits of `x & y`. */
  function AndBits(x: nat, y: nat, n: nat): nat
    decreases n, x, y, 1
  {
    if n == 0 then 0 else AndFrom(x, y, n)
  }

  function AndFrom(x: nat, y: nat, n: nat): nat
    requires n > 0
    decreases n, x, y, 0
  {
    (if x % 2 == 1 && y % 2 == 1 then 1 else 0) + 2 * AndBits(x / 2, y / 2, n - 1)
  }

  lemma {:induction false} AndBitsBound(x: nat, y: nat, n: nat)
    ensures AndBits(x, y, n) < Pow2(n)
    decreases n
  {
    if n > 0 {
      assert AndBits(x, y, n) == AndFrom(x, y, n);
      AndBitsBound(x / 2, y / 2, n - 1);
    }
  }

  /** The low n bits of `x | y`. */
  function OrBits(x: nat, y: nat, n: nat): nat
    decreases n, x, y, 1
  {
    if n == 0 then 0 else OrFrom(x, y, n)
  }

  function OrFrom(x: nat, y: nat, n: nat): nat
    requires n > 0
    decreases n, x, y, 0
  {
    (if x % 2 == 1 || y % 2 == 1 then 1 else 0) + 2 * OrBits(x / 2, y / 2, n - 1)
  }

  lemma {:induction false} OrBitsBound(x: nat, y: nat, n: nat)
    ensures OrBits(x, y, n) < Pow2(n)
    decreases n
  {
    if n > 0 {
      assert OrBits(x, y, n) == OrFrom(x, y, n);
      OrBitsBound(x / 2, y / 2, n - 1);
    }
  }

  /** `x ^ y` on 32-bit operands. */
  function Xor(x: Word, y: Word): Word {
    XorBitsBound(x, y, 32);
    Pow2At32();
    XorBits(x, y, 32)
  }

  /** `x & y` on 32-bit operands. */
  function And(x: Word, y: Word): Word {
    AndBitsBound(x, y, 32);
    Pow2At32();
    AndBits(x, y, 32)
  }

  /** `x | y` on 32-bit operands. */
  function Or(x: Word, y: Word): Word {
    OrBitsBound(x, y, 32);
    Pow2At32();
    OrBits(x, y, 32)
  }

  /** `~x`: every one of the 32 bits flipped. */
  function Not(x: Word): Word {
    0xffff_ffff - x
  }

  /** `x >>> n`: shift right, filling with zeros. */
  function Shr(x: Word, n: nat): Word
    decreases n, x, 1
  {
    if n == 0 then x else ShrFrom(x, n)
  }

  function ShrFrom(x: Word, n: nat): Word
    requires n > 0
    decreases n, x, 0
  {
    Shr(x / 2, n - 1)
  }

  /** `x << n`: shift left, dropping the bits that pass bit 31. */
  function Shl(x: Word, n: nat): Word
    decreases n, x, 1
  {
    if n == 0 then x else ShlFrom(x, n)
  }

  function ShlFrom(x: Word, n: nat): Word
    requires n > 0
    decreases n, x, 0
  {
    Shl((2 * x) % 0x1_0000_0000, n - 1)
  }

  /** `ror(x, n)`: `(x >>> n) | (x << (32 - n))`. */
  function Ror(x: Word, n: nat): Word
    requires 0 < n < 32
  {
    Or(Shr(x, n), Shl(x, 32 - n))
  }

  lemma {:induction false} Pow2Add(a: nat, b: nat)
    ensures Pow2(a + b) == Pow2(a) * Pow2(b)
  {
    if a > 0 {
      Pow2Add(a - 1, b);
      assert Pow2(a + b) == 2 * Pow2(a - 1 + b);
    }
  }

  lemma MulAtLeast(m: int, d: int)
    requires m > 0 && d >= 1
    ensures m * d >= m
  {
    assert m * d == m * (d - 1) + m;
  }

  /** Quotient and remainder are the only ones: x = m*q + r with 0 <= r < m fixes both. */
  lemma DivUnique(x: int, m: int, q: int, r: int)
    requires m > 0 && 0 <= r < m && x == m * q + r
    ensures x / m == q && x % m == r
  {
    var q', r' := x / m, x % m;
    assert m * q + r == m * q' + r';
    if q > q' {
      MulAtLeast(m, q - q');
    } else if q < q' {
      MulAtLeast(m, q' - q);
    }
  }

  /** Dividing twice is dividing by the product. */
  lemma DivDiv(x: nat, a: nat, b: nat)
    requires a > 0 && b > 0
    ensures x / a / b == x / (a * b)
  {
    var q, r := x / a, x % a;
    var q2, r2 := q / b, q % b;
    assert a * q == (a * b) * q2 + a * r2 by {
      assert q == b * q2 + r2;
    }
    assert a * r2 + r < a * b by {
      assert a * r2 <= a * (b - 1) by {
        assert a * (b - 1) - a * r2 == a * (b - 1 - r2);
        if b - 1 - r2 >= 1 {
          MulAtLeast(a, b - 1 - r2);
        }
      }
      assert a * (b - 1) == a * b - a;
    }
    DivUnique(x, a * b, q2, a * r2 + r);
  }

  /** A multiple of the modulus does not change the remainder. */
  lemma ModMultiple(k: nat, m: nat, y: nat)
    requires m > 0
    ensures (k * m + y) % m == y % m
  {
    var q, r := y / m, y % m;
    assert k * m + y == m * (k + q) + r;
    DivUnique(k * m + y, m, k + q, r);
  }

  /** `x >>> n` is division by 2^n. */
  lemma {:induction false} ShrIsDiv(x: Word, n: nat)
    ensures Shr(x, n) == x / Pow2(n)
    decreases n
  {
    if n > 0 {
      assert Shr(x, n) == Shr(x / 2, n - 1);
      ShrIsDiv(x / 2, n - 1);
      DivDiv(x, 2, Pow2(n - 1));
    }
  }

  /** `x << n` is multiplication by 2^n, reduced to 32 bits. */
  lemma {:induction false} ShlIsMulMod(x: Word, n: nat)
    ensures Shl(x, n) == (x * Pow2(n)) % 0x1_0000_0000
    decreases n
  {
    if n > 0 {
      var y := (2 * x) % 0x1_0000_0000;
      assert Shl(x, n) == Shl(y, n - 1);
      ShlIsMulMod(y, n - 1);
      DoubleThenScale(x, Pow2(n - 1), 0x1_0000_0000);
    }
  }

  /** Reducing `2x` before scaling by p gives the same residue as scaling x by `2p`. */
  lemma DoubleThenScale(x: nat, p: nat, m: nat)
    requires m > 0
    ensures ((2 * x) % m * p) % m == (x * (2 * p)) % m
  {
    var y, k := (2 * x) % m, (2 * x) / m;
    assert 2 * x == k * m + y;
    calc {
      x * (2 * p);
      (2 * x) * p;
      (k * m + y) * p;
      (k * p) * m + y * p;
    }
    ModMultiple(k * p, m, y * p);
  }

  /** OR with zero keeps the low n bits. */
  lemma {:induction false} OrBitsZero(y: nat, n: nat)
    requires y < Pow2(n)
    ensures OrBits(0, y, n) == y
    decreases n
  {
    if n > 0 {
      assert OrBits(0, y, n) == OrFrom(0, y, n);
      OrBitsZero(y / 2, n - 1);
    }
  }

  /** When the bits of `a` lie below bit k and those of `b * 2^k` from bit k on, OR is addition. */
  lemma {:induction false} OrBitsDisjoint(a: nat, b: nat, k: nat, n: nat)
    requires k <= n && a < Pow2(k) && b * Pow2(k) < Pow2(n)
    ensures OrBits(a, b * Pow2(k), n) == a + b * Pow2(k)
    decreases k
  {
    if k == 0 {
      OrBitsZero(b, n);
    } else {
      var y := b * Pow2(k);
      assert y == 2 * (b * Pow2(k - 1));
      assert OrBits(a, y, n) == OrFrom(a, y, n);
      OrBitsDisjoint(a / 2, b, k - 1, n - 1);
    }
  }

  /** `ror(x, n)` rotates right: the low n bits of x become its high n bits and the rest move down by n. */
  lemma RorRotates(x: Word, n: nat)
    requires 0 < n < 32
    ensures Ror(x, n) == x / Pow2(n) + (x % Pow2(n)) * Pow2(32 - n)
  {
    var k := 32 - n;
    Pow2At32();
    Pow2Add(n, k);
    ShrIsDiv(x, n);
    ShlIsMulMod(x, k);
    SplitScale(x, Pow2(n), Pow2(k), 0x1_0000_0000);
    OrBitsDisjoint(x / Pow2(n), x % Pow2(n), k, 32);
  }

  /**
   * Splitting `x < p * q` at p: the quotient is below q, and scaling x by q
   * modulo `p * q` keeps only the remainder, moved up.
   */
  lemma SplitScale(x: nat, p: nat, q: nat, m: nat)
    requires p > 0 && q > 0 && m == p * q && x < m
    ensures x / p < q
    ensures (x * q) % m == (x % p) * q < m
  {
    var hi, lo := x / p, x % p;
    QuotientBelow(x, p, q);
    RemainderScaledBelow(lo, p, q);
    ScaleSplit(x, p, q);
    ModMultiple(hi, m, lo * q);
    DivUnique(lo * q, m, 0, lo * q);
  }

  lemma QuotientBelow(x: nat, p: nat, q: nat)
    requires p > 0 && x < p * q
    ensures x / p < q
  {
    var hi := x / p;
    assert x == p * hi + x % p;
    if hi >= q {
      MulAtLeast(p, hi - q + 1);
    }
  }

  lemma RemainderScaledBelow(lo: nat, p: nat, q: nat)
    requires lo < p && q > 0
    ensures lo * q < p * q
  {
    assert lo * q <= (p - 1) * q == p * q - q;
  }

  lemma ScaleSplit(x: nat, p: nat, q: nat)
    requires p > 0
    ensures x * q == (x / p) * (p * q) + (x % p) * q
  {
    var hi, lo := x / p, x % p;
    assert x == p * hi + lo;
    calc {
      x * q;
      (p * hi + lo) * q;
      hi * (p * q) + lo * q;
    }
  }

  /** The four bytes `DataView.setUint32(_, v, false)` writes: most significant first. */
  function BigEndianBytes(v: Word): (r: seq<Byte>)
    ensures |r| == 4
  {
    [v / 0x100_0000, (v / 0x1_0000) % 0x100, (v / 0x100) % 0x100, v % 0x100]
  }

  /** `DataView.getUint32(off, false)`: the big-endian word at `s[off..off + 4]`. */
  function BigEndianWord(s: seq<Byte>, off: nat): Word
    requires off + 4 <= |s|
  {
    s[off] as int * 0x100_0000 + s[off + 1] as int * 0x1_0000 + s[off + 2] as int * 0x100 + s[off + 3]
  }

  /** Reading back a written word gives the word. */
  lemma BigEndianRoundTrip(v: Word)
    ensures BigEndianWord(BigEndianBytes(v), 0) == v
  {
    var b := BigEndianBytes(v);
    assert v == (v / 0x100) * 0x100 + b[3];
    assert v / 0x100 == (v / 0x1_0000) * 0x100 + b[2];
    assert v / 0x1_0000 == (v / 0x100_0000) * 0x100 + b[1];
  }

  /** Writing back a read word gives the four bytes. */
  lemma BigEndianBytesRoundTrip(s: seq<Byte>)
    requires |s| == 4
    ensures BigEndianBytes(BigEndianWord(s, 0)) == s
  {
    var v := BigEndianWord(s, 0);
    assert v / 0x100 == s[0] as int * 0x1_0000 + s[1] as int * 0x100 + s[2];
    assert v / 0x1_0000 == s[0] as int * 0x100 + s[1];
    assert v / 0x100_0000 == s[0];
  }

  // ---------------------------------------------------------------- padding

  /** `padLen = ((len + 8) >> 6) + 1`: the number of 64-byte blocks. */
  function PadBlocks(len: nat): nat {
    (len + 8) / 64 + 1
  }

  /** The buffer holds the message, the 0x80 byte, the fewest zeros FIPS 180-4 allows, and 8 length bytes. */
  lemma PadBlocksBounds(len: nat)
    ensures PadBlocks(len) * 64 == len + 9 + (55 - len) % 64
    ensures len + 9 <= PadBlocks(len) * 64 <= len + 72
  {
    var q, r := (len + 8) / 64, (len + 8) % 64;
    assert len + 8 == 64 * q + r;
    var k := 63 - r;
    assert 55 - len == k - 64 * q;
    assert (55 - len) % 64 == k;
  }

  /** `setUint32(_, bitLen, false)` with `bitLen = len * 8`: the bit length reduced to 32 bits, big-endian. */
  function LengthField(len: nat): (r: seq<Byte>)
    ensures |r| == 4
  {
    BigEndianBytes(Wrap(len * 8))
  }

  /** The 64-bit big-endian bit length that ends a FIPS 180-4 padded message: high word, then low word. */
  function FipsLengthField(len: nat): (r: seq<Byte>)
    ensures |r| == 8
  {
    var bitLen := (len * 8) % 0x1_0000_0000_0000_0000;
    BigEndianBytes((bitLen / 0x1_0000_0000) as Word) + BigEndianBytes((bitLen % 0x1_0000_0000) as Word)
  }

  /**
   * The padded message as the source builds it: a zeroed `padLen * 64`-byte
   * buffer, the message copied to the front, 0x80 at index `len`, and the bit
   * length, reduced to 32 bits, written big-endian into the LAST FOUR bytes.
   */
  function Padded(msg: seq<Byte>): (p: seq<Byte>)
    ensures |p| == PadBlocks(|msg|) * 64
  {
    PadBlocksBounds(|msg|);
    var n := PadBlocks(|msg|) * 64;
    var lenBytes := LengthField(|msg|);
    seq(n, i requires 0 <= i < n =>
      if i < |msg| then msg[i]
      else if i == |msg| then 0x80
      else if i >= n - 4 then lenBytes[i - (n - 4)]
      else 0)
  }

  /**
   * Padding as section 5.1.1 of FIPS 180-4 defines it: the message, a 0x80
   * byte, the least number k of zero bytes with len + 1 + k = 56 (mod 64),
   * and the bit length as a 64-bit big-endian integer.
   */
  function FipsPadded(msg: seq<Byte>): seq<Byte> {
    var k := (55 - |msg|) % 64;
    msg + [0x80] + seq(k, _ => 0) + FipsLengthField(|msg|)
  }

  /** The padded buffer has the shape of section 5.1.1: whole blocks, message first, then 0x80, zeros and the length. */
  lemma PaddedShape(msg: seq<Byte>)
    ensures |Padded(msg)| % 64 == 0
    ensures |msg| + 9 <= |Padded(msg)| <= |msg| + 72
    ensures Padded(msg)[..|msg|] == msg
    ensures Padded(msg)[|msg|] == 0x80
    ensures forall i :: |msg| < i < |Padded(msg)| - 4 ==> Padded(msg)[i] == 0
    ensures Padded(msg)[|Padded(msg)| - 4..] == LengthField(|msg|)
  {
    var p := Padded(msg);
    var b := PadBlocks(|msg|);
    PadBlocksBounds(|msg|);
    assert |p| == b * 64;
    assert |p| % 64 == 0;
    assert p[..|msg|] == msg by {
      forall i | 0 <= i < |msg| ensures p[i] == msg[i] { }
    }
    var lenBytes := LengthField(|msg|);
    assert p[|p| - 4..] == lenBytes by {
      forall i | 0 <= i < 4 ensures p[|p| - 4 + i] == lenBytes[i] { }
    }
  }

  lemma SmallModulus(v: nat, m: nat)
    requires v < m
    ensures v % m == v
  {
  }

  /** A bit length below 2^32 has a zero high word: the FIPS 180-4 field is four zero bytes and then the source's field. */
  lemma LengthFieldsAgree(len: nat)
    requires len < 0x2000_0000
    ensures FipsLengthField(len) == [0, 0, 0, 0] + LengthField(len)
  {
    var bitLen := len * 8;
    SmallModulus(bitLen, 0x1_0000_0000_0000_0000);
    assert bitLen / 0x1_0000_0000 == 0;
    assert BigEndianBytes(0) == [0, 0, 0, 0];
  }

  /** Below 2^29 bytes the bit length fits in 32 bits and the source pads exactly as FIPS 180-4 does. */
  lemma PaddedIsFips(msg: seq<Byte>)
    requires |msg| < 0x2000_0000
    ensures Padded(msg) == FipsPadded(msg)
  {
    var p, q := Padded(msg), FipsPadded(msg);
    var len := |msg|;
    var n := |p|;
    var k := (55 - len) % 64;
    PadBlocksBounds(len);
    assert n == len + 1 + k + 8;
    LengthFieldsAgree(len);
    var tail := FipsLengthField(len);
    var lenBytes := LengthField(len);
    assert q == msg + [0x80] + seq(k, _ => 0) + tail;
    forall i | 0 <= i < n ensures p[i] == q[i] {
      if i < len {
      } else if i == len {
      } else if i < n - 8 {
      } else if i < n - 4 {
        assert q[i] == tail[i - (n - 8)];
      } else {
        assert q[i] == tail[i - (n - 8)];
        assert p[i] == lenBytes[i - (n - 4)];
      }
    }
  }

  /** At 2^29 bytes the bit length is 2^32: the source writes zero where FIPS 180-4 writes a 1 bit. */
  lemma PaddedDiffersFromFipsAt2To29(msg: seq<Byte>)
    requires |msg| == 0x2000_0000
    ensures Padded(msg) != FipsPadded(msg)
  {
    var p, q := Padded(msg), FipsPadded(msg);
    var n := |p|;
    PadBlocksBounds(|msg|);
    assert n == 0x2000_0000 + 64;
    assert (55 - |msg|) % 64 == 55;
    var bitLen := |msg| * 8;
    assert bitLen == 0x1_0000_0000;
    SmallModulus(bitLen, 0x1_0000_0000_0000_0000);
    var tail := FipsLengthField(|msg|);
    assert bitLen / 0x1_0000_0000 == 1 && bitLen % 0x1_0000_0000 == 0;
    assert tail == BigEndianBytes(1) + BigEndianBytes(0);
    assert tail[3] == 1;
    assert q == msg + [0x80] + seq(55, _ => 0) + tail;
    assert q[n - 5] == 1;
    assert p[n - 5] == 0;
  }

  // ---------------------------------------------------------------- message schedule and compression

  function SmallSigma0(x: Word): Word { Xor(Xor(Ror(x, 7), Ror(x, 18)), Shr(x, 3)) }
  function SmallSigma1(x: Word): Word { Xor(Xor(Ror(x, 17), Ror(x, 19)), Shr(x, 10)) }
  function BigSigma0(x: Word): Word { Xor(Xor(Ror(x, 2), Ror(x, 13)), Ror(x, 22)) }
  function BigSigma1(x: Word): Word { Xor(Xor(Ror(x, 6), Ror(x, 11)), Ror(x, 25)) }
  function Ch(x: Word, y: Word, z: Word): Word { Xor(And(x, y), And(Not(x), z)) }
  function Maj(x: Word, y: Word, z: Word): Word { Xor(Xor(And(x, y), And(x, z)), And(y, z)) }

  /** Word j of block i of a padded message. */
  function BlockWord(p: seq<Byte>, i: nat, j: nat): Word
    requires i * 64 + 64 <= |p| && j < 16
  {
    BigEndianWord(p, i * 64 + j * 4)
  }

  /** The first n words W0..W(n-1) of the message schedule of block i (section 6.2.2, step 1). */
  function ScheduleUpTo(p: seq<Byte>, i: nat, n: nat): (w: seq<Word>)
    requires i * 64 + 64 <= |p| && n <= 64
    ensures |w| == n
    decreases n, p
  {
    if n == 0 then []
    else
      var w := ScheduleUpTo(p, i, n - 1);
      var j := n - 1;
      w + [if j < 16 then BlockWord(p, i, j)
           else Wrap(w[j - 16] as int + SmallSigma0(w[j - 15]) + w[j - 7] + SmallSigma1(w[j - 2]))]
  }

  /** One round of section 6.2.2, step 3, on the working variables a..h with round constant k and schedule word w. */
  function Step(v: Vars, k: Word, w: Word): Vars {
    var t1 := Wrap(v.h as int + BigSigma1(v.e) + Ch(v.e, v.f, v.g) + k + w);
    var t2 := Wrap(BigSigma0(v.a) as int + Maj(v.a, v.b, v.c));
    Vars(Wrap(t1 as int + t2), v.a, v.b, v.c, Wrap(v.d as int + t1), v.e, v.f, v.g)
  }

  /** The working variables after the first j rounds with constants ks over schedule w. */
  function Rounds(v: Vars, ks: seq<Word>, w: seq<Word>, j: nat): Vars
    requires |ks| == 64 && |w| == 64 && j <= 64
    decreases j, w
  {
    if j == 0 then v else Step(Rounds(v, ks, w, j - 1), ks[j - 1], w[j - 1])
  }

  /** Section 6.2.2, step 4: each word of the hash value plus the matching working variable, mod 2^32. */
  function AddVars(x: Vars, y: Vars): Vars {
    Vars(Wrap(x.a as int + y.a), Wrap(x.b as int + y.b), Wrap(x.c as int + y.c), Wrap(x.d as int + y.d),
         Wrap(x.e as int + y.e), Wrap(x.f as int + y.f), Wrap(x.g as int + y.g), Wrap(x.h as int + y.h))
  }

  /** One block's compression: 64 rounds, then the additions into the hash value. */
  function Compress(hv: Vars, ks: seq<Word>, w: seq<Word>): Vars
    requires |ks| == 64 && |w| == 64
  {
    AddVars(hv, Rounds(hv, ks, w, 64))
  }

  /** The hash value after the first n blocks of p. */
  function HashBlocks(p: seq<Byte>, n: nat): Vars
    requires n * 64 <= |p|
  {
    if n == 0 then InitialHash else Compress(HashBlocks(p, n - 1), K, ScheduleUpTo(p, n - 1, 64))
  }

  /** h0..h7 in order. */
  function Words(hv: Vars): (ws: seq<Word>)
    ensures |ws| == 8
  {
    [hv.a, hv.b, hv.c, hv.d, hv.e, hv.f, hv.g, hv.h]
  }

  /** The 32-byte output: h0..h7 in order, each written big-endian. */
  function Output(hv: Vars): (r: seq<Byte>)
    ensures |r| == 32
  {
    BigEndianBytes(hv.a) + BigEndianBytes(hv.b) + BigEndianBytes(hv.c) + BigEndianBytes(hv.d) +
    BigEndianBytes(hv.e) + BigEndianBytes(hv.f) + BigEndianBytes(hv.g) + BigEndianBytes(hv.h)
  }

  /** The digest `sha256Simple` computes. */
  function Hash(msg: seq<Byte>): (r: seq<Byte>)
    ensures |r| == 32
  {
    Output(HashBlocks(Padded(msg), PadBlocks(|msg|)))
  }

  /** SHA-256 as FIPS 180-4 defines it: the same compression over the section 5.1.1 padding. */
  function FipsHash(msg: seq<Byte>): (r: seq<Byte>)
    ensures |r| == 32
  {
    var p := FipsPadded(msg);
    FipsPaddedLength(msg);
    Output(HashBlocks(p, |p| / 64))
  }

  /** The FIPS 180-4 padding fills whole blocks: it is as long as the source's buffer. */
  lemma FipsPaddedLength(msg: seq<Byte>)
    ensures |FipsPadded(msg)| == PadBlocks(|msg|) * 64
  {
    PadBlocksBounds(|msg|);
  }

  /** Below 2^29 bytes `sha256Simple` computes SHA-256. */
  lemma HashIsFips(msg: seq<Byte>)
    requires |msg| < 0x2000_0000
    ensures Hash(msg) == FipsHash(msg)
  {
    PaddedIsFips(msg);
    FipsPaddedLength(msg);
    assert |FipsPadded(msg)| / 64 == PadBlocks(|msg|);
  }

  /** Bytes 4k..4k+3 of the output are h_k written big-endian, for the first four words. */
  lemma OutputSliceLow(hv: Vars, k: nat)
    requires k < 4
    ensures Output(hv)[4 * k..4 * k + 4] == BigEndianBytes(Words(hv)[k])
  {
    var o := Output(hv);
    var a, b, c, d := BigEndianBytes(hv.a), BigEndianBytes(hv.b), BigEndianBytes(hv.c), BigEndianBytes(hv.d);
    assert o[..16] == a + b + c + d;
    if k == 0 { assert o[..16] == a + (b + c + d); }
    else if k == 1 { assert o[..16] == a + b + (c + d); }
    else if k == 2 { assert o[..16] == (a + b) + c + d; }
    else { assert o[..16] == (a + b + c) + d; }
    assert o[4 * k..4 * k + 4] == o[..16][4 * k..4 * k + 4];
  }

  /** Bytes 4k..4k+3 of the output are h_k written big-endian, for the last four words. */
  lemma OutputSliceHigh(hv: Vars, k: nat)
    requires 4 <= k < 8
    ensures Output(hv)[4 * k..4 * k + 4] == BigEndianBytes(Words(hv)[k])
  {
    var o := Output(hv);
    var front := BigEndianBytes(hv.a) + BigEndianBytes(hv.b) + BigEndianBytes(hv.c) + BigEndianBytes(hv.d);
    var e, f, g, h := BigEndianBytes(hv.e), BigEndianBytes(hv.f), BigEndianBytes(hv.g), BigEndianBytes(hv.h);
    assert o == front + e + f + g + h;
    if k == 4 { assert o == front + e + (f + g + h); }
    else if k == 5 { assert o == (front + e) + f + (g + h); }
    else if k == 6 { assert o == (front + e + f) + g + h; }
    else { assert o == (front + e + f + g) + h; }
  }

  /** The digest is 32 bytes and reading word k back from offset 4k gives h_k. */
  lemma OutputDecodes(hv: Vars, k: nat)
    requires k < 8
    ensures |Output(hv)| == 32
    ensures BigEndianWord(Output(hv), 4 * k) == Words(hv)[k]
  {
    var o := Output(hv);
    var v := Words(hv)[k];
    BigEndianRoundTrip(v);
    if k < 4 { OutputSliceLow(hv, k); } else { OutputSliceHigh(hv, k); }
    assert o[4 * k..4 * k + 4] == BigEndianBytes(v);
    assert BigEndianWord(o, 4 * k) == BigEndianWord(BigEndianBytes(v), 0);
  }

  // ---------------------------------------------------------------- the imperative implementation

  /** `dv.setUint32(off, v, false)`. */
  method SetUint32(buf: array<Byte>, off: nat, v: Word)
    requires off + 4 <= buf.Length
    modifies buf
    ensures buf[..] == old(buf[..off]) + BigEndianBytes(v) + old(buf[off + 4..])
  {
    buf[off] := v / 0x100_0000;
    buf[off + 1] := (v / 0x1_0000) % 0x100;
    buf[off + 2] := (v / 0x100) % 0x100;
    buf[off + 3] := v % 0x100;
    assert buf[..] == old(buf[..off]) + BigEndianBytes(v) + old(buf[off + 4..]);
  }

  /** The padding half of `sha256Simple`: a zeroed buffer of `padLen * 64` bytes, the message, 0x80, the bit length. */
  method PadInto(data: seq<Byte>) returns (blocks: array<Byte>)
    ensures fresh(blocks)
    ensures blocks[..] == Padded(data)
  {
    var len := |data|;
    var bitLen := len * 8;
    var padLen := (len + 8) / 64 + 1;
    PadBlocksBounds(len);
    blocks := new Byte[padLen * 64](_ => 0);
    forall k | 0 <= k < len {
      blocks[k] := data[k];
    }
    blocks[len] := 0x80;
    SetUint32(blocks, padLen * 64 - 4, Wrap(bitLen));
    assert blocks[..] == Padded(data);
  }

  /** The two schedule loops of `sha256Simple` for block i. */
  method FillSchedule(blocks: array<Byte>, i: nat, w: array<Word>)
    requires i * 64 + 64 <= blocks.Length && w.Length == 64
    modifies w
    ensures w[..] == ScheduleUpTo(blocks[..], i, 64)
  {
    ghost var p := blocks[..];
    for j := 0 to 16
      invariant w[..j] == ScheduleUpTo(p, i, j)
    {
      w[j] := BigEndianWord(blocks[..], i * 64 + j * 4);
    }
    for j := 16 to 64
      invariant w[..j] == ScheduleUpTo(p, i, j)
    {
      w[j] := Wrap(w[j - 16] as int + SmallSigma0(w[j - 15]) + w[j - 7] + SmallSigma1(w[j - 2]));
    }
    assert w[..] == w[..64];
  }

  /** The 64-round loop of `sha256Simple` over a..h and the additions into h0..h7 that follow it. */
  method CompressBlock(hv: Vars, ks: seq<Word>, w: array<Word>) returns (r: Vars)
    requires |ks| == 64 && w.Length == 64
    ensures r == Compress(hv, ks, w[..])
  {
    var a, b, c, d, e, f, g, h := hv.a, hv.b, hv.c, hv.d, hv.e, hv.f, hv.g, hv.h;
    ghost var ws := w[..];
    for j := 0 to 64
      invariant Vars(a, b, c, d, e, f, g, h) == Rounds(hv, ks, ws, j)
    {
      var next := Step(Vars(a, b, c, d, e, f, g, h), ks[j], w[j]);
      a, b, c, d, e, f, g, h := next.a, next.b, next.c, next.d, next.e, next.f, next.g, next.h;
    }
    r := AddVars(hv, Vars(a, b, c, d, e, f, g, h));
  }

  /** The eight `setUint32` calls that write h0..h7 into the 32-byte output. */
  method WriteDigest(hv: Vars) returns (out: array<Byte>)
    ensures fresh(out)
    ensures out[..] == Output(hv)
  {
    out := new Byte[32](_ => 0);
    ghost var a, b, c, d := BigEndianBytes(hv.a), BigEndianBytes(hv.b), BigEndianBytes(hv.c), BigEndianBytes(hv.d);
    ghost var e, f, g, h := BigEndianBytes(hv.e), BigEndianBytes(hv.f), BigEndianBytes(hv.g), BigEndianBytes(hv.h);
    SetUint32(out, 0, hv.a);
    assert out[..4] == a;
    SetUint32(out, 4, hv.b);
    assert out[..8] == a + b;
    SetUint32(out, 8, hv.c);
    assert out[..12] == a + b + c;
    SetUint32(out, 12, hv.d);
    assert out[..16] == a + b + c + d;
    SetUint32(out, 16, hv.e);
    assert out[..20] == a + b + c + d + e;
    SetUint32(out, 20, hv.f);
    assert out[..24] == a + b + c + d + e + f;
    SetUint32(out, 24, hv.g);
    assert out[..28] == a + b + c + d + e + f + g;
    SetUint32(out, 28, hv.h);
    assert out[..] == a + b + c + d + e + f + g + h;
  }

  /** The block loop of `sha256Simple`: schedule and compress each of the padLen blocks in turn, starting from H(0). */
  method HashPadded(blocks: array<Byte>, padLen: nat) returns (hv: Vars)
    requires blocks.Length == padLen * 64
    ensures hv == HashBlocks(blocks[..], padLen)
  {
    var w := new Word[64](_ => 0);
    hv := InitialHash;
    for i := 0 to padLen
      invariant hv == HashBlocks(blocks[..], i)
    {
      FillSchedule(blocks, i, w);
      hv := CompressBlock(hv, K, w);
    }
  }

  /** `sha256Simple(data)`: pad into a block buffer, hash the blocks, write out h0..h7. */
  method Sha256Simple(data: seq<Byte>) returns (digest: seq<Byte>)
    ensures digest == Hash(data)
  {
    var padLen := (|data| + 8) / 64 + 1;
    var blocks := PadInto(data);
    var hv := HashPadded(blocks, padLen);
    var out := WriteDigest(hv);
    digest := out[..];
  }
}
