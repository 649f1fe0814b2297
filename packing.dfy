// Byte alignment of the encoded bitstream in the top-level script of
// Huffman_RSA_Fernet.py: the padding count str_pad (line 161), the packing
// int(compressed, 2).to_bytes((len(compressed) + 7) // 8, 'big') (lines 166
// and 172), the bit string of the received bytes (line 247) and the removal
// of the padding bits[str_pad:] (line 255).

module Packing {

  type Byte = x: int | 0 <= x < 256

  function Pow2(n: nat): (r: nat)
    ensures r >= 1
  {
    if n == 0 then 1 else 2 * Pow2(n - 1)
  }

  function BitValue(b: bool): nat {
    if b then 1 else 0
  }

  /** int(bits, 2): the bits read as a big-endian binary numeral. */
  function ToNat(bits: seq<bool>): nat {
    if bits == [] then 0 else 2 * ToNat(bits[..|bits| - 1]) + BitValue(bits[|bits| - 1])
  }

  /** The low `width` bits of n, most significant first. */
  function FixedBits(n: nat, width: nat): seq<bool> {
    if width == 0 then [] else FixedBits(n / 2, width - 1) + [n % 2 == 1]
  }

  /** n.to_bytes(k, 'big'): n as k bytes, most significant first. Python
      raises OverflowError when n does not fit; the script never asks for
      that (PackFits), so it is a precondition here. */
  function ToBytes(n: nat, k: nat): (r: seq<Byte>)
    requires n < Pow2(8 * k)
    ensures |r| == k
  {
    if k == 0 then []
    else
      Pow2Byte(k - 1);
      ToBytes(n / 256, k - 1) + [n % 256]
  }

  /** BitArray(bytes = bs).bin: eight bits per byte, most significant first. */
  function BytesToBits(bs: seq<Byte>): seq<bool> {
    if bs == [] then [] else BytesToBits(bs[..|bs| - 1]) + FixedBits(bs[|bs| - 1], 8)
  }

  function Zeros(n: nat): (r: seq<bool>)
    ensures |r| == n && forall i | 0 <= i < n :: !r[i]
  {
    seq(n, _ => false)
  }

  /** The number of bytes the script packs the stream into. */
  function ByteCount(len: nat): nat {
    (len + 7) / 8
  }

  /** Lines 166 and 172: the stream packed into bytes. int("", 2) raises
      ValueError, so the stream must not be empty. */
  function Pack(bits: seq<bool>): seq<Byte>
    requires |bits| > 0
  {
    PackFits(bits);
    ToBytes(ToNat(bits), ByteCount(|bits|))
  }

  /** Line 161, as written: str_pad = 8 - (len(compressed) % 8). */
  function StrPad(len: nat): nat {
    8 - len % 8
  }

  /** The padding count the script evidently means: the number of zero bits
      that packing puts in front of the stream. */
  function PadLength(len: nat): nat {
    (8 - len % 8) % 8
  }

  /** bits[pad:], with Python's clamping of a start beyond the end. */
  function DropPrefix(bits: seq<bool>, pad: nat): seq<bool> {
    if pad >= |bits| then [] else bits[pad..]
  }

  lemma {:induction false} Pow2Add(a: nat, b: nat)
    ensures Pow2(a + b) == Pow2(a) * Pow2(b)
    decreases b
  {
    if b > 0 {
      Pow2Add(a, b - 1);
      assert Pow2(a + b) == 2 * Pow2(a + b - 1);
    }
  }

  lemma Pow2Byte(k: nat)
    ensures Pow2(8 * k + 8) == 256 * Pow2(8 * k)
  {
    Pow2Add(8 * k, 8);
    assert Pow2(8) == 256;
  }

  lemma Pow2Monotone(a: nat, b: nat)
    requires a <= b
    ensures Pow2(a) <= Pow2(b)
  {
    Pow2Add(a, b - a);
  }

  /** A numeral of L bits is below 2^L. */
  lemma {:induction false} ToNatBound(bits: seq<bool>)
    ensures ToNat(bits) < Pow2(|bits|)
    decreases |bits|
  {
    if bits != [] {
      ToNatBound(bits[..|bits| - 1]);
    }
  }

  /** The packed value fits in the bytes the script packs it into. */
  lemma PackFits(bits: seq<bool>)
    ensures ToNat(bits) < Pow2(8 * ByteCount(|bits|))
  {
    ToNatBound(bits);
    Pow2Monotone(|bits|, 8 * ByteCount(|bits|));
  }

  /** Reading a concatenation: the front is shifted left by the back's length. */
  lemma Shift(x: nat, p: nat, y: nat, bit: nat)
    ensures 2 * (x * p + y) + bit == x * (2 * p) + (2 * y + bit)
  {
  }

  lemma {:induction false} ToNatConcat(a: seq<bool>, b: seq<bool>)
    ensures ToNat(a + b) == ToNat(a) * Pow2(|b|) + ToNat(b)
    decreases |b|
  {
    if b == [] {
      assert a + b == a;
    } else {
      var b' := b[..|b| - 1];
      assert (a + b)[..|a + b| - 1] == a + b';
      assert (a + b)[|a + b| - 1] == b[|b| - 1];
      ToNatConcat(a, b');
      Shift(ToNat(a), Pow2(|b'|), ToNat(b'), BitValue(b[|b| - 1]));
    }
  }

  lemma {:induction false} ToNatZeros(n: nat)
    ensures ToNat(Zeros(n)) == 0
    decreases n
  {
    if n > 0 {
      assert Zeros(n)[..n - 1] == Zeros(n - 1);
      ToNatZeros(n - 1);
    }
  }

  /** Leading zero bits do not change the value of a numeral. */
  lemma LeadingZeros(n: nat, bits: seq<bool>)
    ensures ToNat(Zeros(n) + bits) == ToNat(bits)
  {
    ToNatConcat(Zeros(n), bits);
    ToNatZeros(n);
  }

  /** Two numerals of the same length and value are the same bits. */
  lemma {:induction false} ToNatInjective(s: seq<bool>, t: seq<bool>)
    requires |s| == |t| && ToNat(s) == ToNat(t)
    ensures s == t
    decreases |s|
  {
    if s != [] {
      var n := |s| - 1;
      assert BitValue(s[n]) == BitValue(t[n]);
      ToNatInjective(s[..n], t[..n]);
      assert s == s[..n] + [s[n]] && t == t[..n] + [t[n]];
    }
  }

  lemma {:induction false} FixedBitsValue(n: nat, width: nat)
    requires n < Pow2(width)
    ensures |FixedBits(n, width)| == width && ToNat(FixedBits(n, width)) == n
    decreases width
  {
    if width > 0 {
      FixedBitsValue(n / 2, width - 1);
      var bits := FixedBits(n, width);
      assert bits[..|bits| - 1] == FixedBits(n / 2, width - 1);
    }
  }

  /** Dropping the last byte of a number that fits in k+1 bytes leaves one
      that fits in k bytes. */
  lemma DropLastByte(n: nat, k: nat)
    requires n < Pow2(8 * k + 8)
    ensures n / 256 < Pow2(8 * k)
    ensures n == 256 * (n / 256) + n % 256
  {
    Pow2Byte(k);
  }

  /** to_bytes followed by reading the bytes' bits: k*8 bits whose value is n. */
  lemma {:induction false} BytesValue(n: nat, k: nat)
    requires n < Pow2(8 * k)
    ensures |BytesToBits(ToBytes(n, k))| == 8 * k
    ensures ToNat(BytesToBits(ToBytes(n, k))) == n
    decreases k
  {
    if k > 0 {
      DropLastByte(n, k - 1);
      var bs := ToBytes(n, k);
      var front := ToBytes(n / 256, k - 1);
      var last := FixedBits(n % 256, 8);
      assert bs == front + [n % 256];
      assert bs[..|bs| - 1] == front;
      assert BytesToBits(bs) == BytesToBits(front) + last;
      BytesValue(n / 256, k - 1);
      assert Pow2(8) == 256;
      FixedBitsValue(n % 256, 8);
      ToNatConcat(BytesToBits(front), last);
      assert ToNat(BytesToBits(bs)) == (n / 256) * 256 + n % 256;
    }
  }

  /** Packing puts 8*ceil(L/8) - L zero bits in front of the L-bit stream:
      the padding is leading, not trailing. */
  lemma PackedBits(bits: seq<bool>)
    requires |bits| > 0
    ensures 8 * ByteCount(|bits|) >= |bits|
    ensures BytesToBits(Pack(bits)) == Zeros(8 * ByteCount(|bits|) - |bits|) + bits
  {
    var k := ByteCount(|bits|);
    var n := ToNat(bits);
    PadLengthIsLeadingZeros(|bits|);
    var z := PadLength(|bits|);
    assert 8 * k == z + |bits|;
    PackFits(bits);
    assert Pack(bits) == ToBytes(n, k);
    BytesValue(n, k);
    LeadingZeros(z, bits);
    ToNatInjective(BytesToBits(Pack(bits)), Zeros(z) + bits);
  }

  /** The corrected count is the number of leading zero bits, from 0 to 7,
      and brings the length to a multiple of 8. */
  lemma PadLengthIsLeadingZeros(len: nat)
    ensures 0 <= PadLength(len) <= 7
    ensures (len + PadLength(len)) % 8 == 0
    ensures PadLength(len) == 8 * ByteCount(len) - len
  {
  }

  /** With the corrected count, stripping restores the stream exactly. */
  lemma UnpackRoundTrip(bits: seq<bool>)
    requires |bits| > 0
    ensures DropPrefix(BytesToBits(Pack(bits)), PadLength(|bits|)) == bits
  {
    PackedBits(bits);
    PadLengthIsLeadingZeros(|bits|);
    var z := PadLength(|bits|);
    assert (Zeros(z) + bits)[z..] == bits;
  }

  /** As written, when the length is not a multiple of 8, str_pad equals the
      number of leading zero bits and stripping restores the stream. */
  lemma StrPadUnaligned(bits: seq<bool>)
    requires |bits| % 8 != 0
    ensures StrPad(|bits|) == PadLength(|bits|)
    ensures DropPrefix(BytesToBits(Pack(bits)), StrPad(|bits|)) == bits
  {
    UnpackRoundTrip(bits);
  }

  /** As written, when the length is a multiple of 8 there are no padding
      bits, yet str_pad is 8: stripping removes the first 8 bits of the
      stream itself. */
  lemma StrPadAligned(bits: seq<bool>)
    requires |bits| > 0 && |bits| % 8 == 0
    ensures StrPad(|bits|) == 8
    ensures DropPrefix(BytesToBits(Pack(bits)), StrPad(|bits|)) == bits[8..]
  {
    PackedBits(bits);
    AlignedLength(|bits|);
    assert Zeros(0) + bits == bits;
  }

  lemma AlignedLength(len: nat)
    requires len % 8 == 0
    ensures StrPad(len) == 8 && 8 * ByteCount(len) == len
  {
  }

  /** What stripping str_pad bits gives back, in both cases. */
  lemma StrPadStrips(bits: seq<bool>)
    requires |bits| > 0
    ensures DropPrefix(BytesToBits(Pack(bits)), StrPad(|bits|)) == if |bits| % 8 == 0 then bits[8..] else bits
  {
    if |bits| % 8 == 0 {
      StrPadAligned(bits);
    } else {
      StrPadUnaligned(bits);
    }
  }

  /** A stream of one byte's length, eight "1" bits, comes back empty. */
  lemma StrPadLosesAByte()
    ensures var bits := seq(8, _ => true);
      DropPrefix(BytesToBits(Pack(bits)), StrPad(|bits|)) == [] != bits
  {
    var bits := seq(8, _ => true);
    StrPadAligned(bits);
  }
}
