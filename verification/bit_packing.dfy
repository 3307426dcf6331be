/** Packing a bit text into bytes, most significant bit first, and expanding
    bytes back into bits the way the decoder reads a file. */
module BitPacking {
  import opened Entries

  type byte = b: int | 0 <= b < 256

  function Zeros(n: nat): (r: Code)
    ensures |r| == n && forall i :: 0 <= i < n ==> !r[i]
  {
    if n == 0 then [] else Zeros(n - 1) + [false]
  }

  function Pow2(n: nat): (r: nat)
    ensures r >= 1
  {
    if n == 0 then 1 else 2 * Pow2(n - 1)
  }

  /** `int(bits, 2)`: the number whose binary numeral, most significant bit
      first, is `bits`. */
  function Value(bits: Code): (r: nat)
    ensures r < Pow2(|bits|)
  {
    if bits == [] then 0
    else 2 * Value(bits[..|bits| - 1]) + (if bits[|bits| - 1] then 1 else 0)
  }

  /** `bin(v)[2:]`: the binary numeral of `v` without leading zeros; zero is
      written as a single 0. */
  function Numeral(v: nat): (r: Code)
    ensures |r| >= 1
  {
    if v < 2 then [v == 1] else Numeral(v / 2) + [v % 2 == 1]
  }

  /** The numeral of `v` reads back as `v`, and it has no leading zero
      unless `v` is zero. */
  lemma {:induction false} NumeralValue(v: nat)
    ensures Value(Numeral(v)) == v
    ensures v >= 1 ==> Numeral(v)[0]
  {
    if v >= 2 {
      NumeralValue(v / 2);
      ValueSnoc(Numeral(v / 2), v % 2 == 1);
    }
  }

  /** Appending a bit doubles the value and adds the bit. */
  lemma ValueSnoc(init: Code, b: bool)
    ensures Value(init + [b]) == 2 * Value(init) + (if b then 1 else 0)
  {
    assert (init + [b])[..|init|] == init;
  }

  /** Leading zeros do not change the value. */
  lemma {:induction false} ValueOfLeadingZeros(k: nat, bits: Code)
    ensures Value(Zeros(k) + bits) == Value(bits)
    decreases |bits|
  {
    if bits == [] {
      assert Zeros(k) + bits == Zeros(k);
      ZerosValue(k);
    } else {
      var init, last := bits[..|bits| - 1], bits[|bits| - 1];
      assert bits == init + [last];
      assert Zeros(k) + bits == (Zeros(k) + init) + [last];
      ValueOfLeadingZeros(k, init);
      ValueSnoc(init, last);
      ValueSnoc(Zeros(k) + init, last);
    }
  }

  /** The eight bits of a byte: its numeral left-padded with zeros. */
  function ByteBits(b: byte): (r: Code)
    ensures |r| == 8
    ensures Value(r) == b
  {
    NumeralFits(b, 8);
    NumeralValue(b);
    ValueOfLeadingZeros(8 - |Numeral(b)|, Numeral(b));
    Zeros(8 - |Numeral(b)|) + Numeral(b)
  }

  /** The lowest `n` bits of `v`, most significant first. */
  function LowBits(v: nat, n: nat): (r: Code)
    ensures |r| == n
  {
    if n == 0 then [] else LowBits(v / 2, n - 1) + [v % 2 == 1]
  }

  lemma {:induction false} NumeralFits(v: nat, n: nat)
    requires 1 <= n && v < Pow2(n)
    ensures |Numeral(v)| <= n
    ensures Zeros(n - |Numeral(v)|) + Numeral(v) == LowBits(v, n)
  {
    if v < 2 {
      LowBitsOfZero(n - 1);
      assert v / 2 == 0;
    } else {
      NumeralFits(v / 2, n - 1);
      var z := Zeros(n - 1 - |Numeral(v / 2)|);
      assert Zeros(n - |Numeral(v)|) == z;
      assert z + Numeral(v) == (z + Numeral(v / 2)) + [v % 2 == 1];
    }
  }

  lemma {:induction false} LowBitsOfZero(n: nat)
    ensures LowBits(0, n) == Zeros(n)
  {
    if n > 0 {
      LowBitsOfZero(n - 1);
    }
  }

  /** Reading bits as a number and writing the number back with as many
      bits gives the bits again. */
  lemma {:induction false} LowBitsOfValue(bits: Code)
    ensures LowBits(Value(bits), |bits|) == bits
  {
    if bits != [] {
      var init := bits[..|bits| - 1];
      var v := Value(bits);
      LowBitsOfValue(init);
      assert v / 2 == Value(init);
      assert bits == init + [bits[|bits| - 1]];
    }
  }

  /** Expanding the byte that eight bits pack into returns the eight bits. */
  lemma ByteBitsOfValue(octet: Code)
    requires |octet| == 8
    ensures Value(octet) < 256
    ensures ByteBits(Value(octet)) == octet
  {
    assert Pow2(8) == 256;
    NumeralFits(Value(octet), 8);
    LowBitsOfValue(octet);
  }

  /** `int(octet, 2)` written as one byte. */
  function Octet(octet: Code): (b: byte)
    requires |octet| == 8
    ensures ByteBits(b) == octet
  {
    ByteBitsOfValue(octet);
    Value(octet)
  }

  /** The packing loop of `encode_file_bin`: while at least nine bits
      remain, the next eight become a byte; the last one to eight bits are
      padded with zeros on the right into a final byte. */
  function Pack(bits: Code): (r: seq<byte>)
    ensures |r| == if |bits| == 0 then 1 else (|bits| + 7) / 8
    ensures Unpack(r) == bits + Zeros(8 * |r| - |bits|)
    ensures |bits| >= 1 ==> 8 * |r| - |bits| == (8 - |bits| % 8) % 8
    decreases |bits|
  {
    if |bits| >= 9 then
      var rest := Pack(bits[8..]);
      PackStep(bits, rest);
      [Octet(bits[..8])] + rest
    else
      var last := Octet(bits + Zeros(8 - |bits|));
      UnpackOne(bits, last);
      if |bits| >= 1 then LastArithmetic(|bits|); [last] else [last]
  }

  lemma UnpackOne(bits: Code, last: byte)
    requires |bits| <= 8 && ByteBits(last) == bits + Zeros(8 - |bits|)
    ensures Unpack([last]) == bits + Zeros(8 - |bits|)
  {
    UnpackCons(last, []);
    assert [last] + [] == [last];
    assert ByteBits(last) + [] == ByteBits(last);
  }

  lemma PackStep(bits: Code, rest: seq<byte>)
    requires |bits| >= 9
    requires |rest| == (|bits| - 1) / 8
    requires Unpack(rest) == bits[8..] + Zeros(8 * |rest| - (|bits| - 8))
    ensures |[Octet(bits[..8])] + rest| == (|bits| + 7) / 8
    ensures Unpack([Octet(bits[..8])] + rest) == bits + Zeros(8 * (|rest| + 1) - |bits|)
    ensures 8 * (|rest| + 1) - |bits| == (8 - |bits| % 8) % 8
  {
    StepArithmetic(|bits|, |rest|);
    var pad := 8 * (|rest| + 1) - |bits|;
    assert Unpack(rest) == bits[8..] + Zeros(pad);
    StepBits(bits, rest, pad);
  }

  lemma StepBits(bits: Code, rest: seq<byte>, pad: nat)
    requires |bits| >= 9
    requires Unpack(rest) == bits[8..] + Zeros(pad)
    ensures Unpack([Octet(bits[..8])] + rest) == bits + Zeros(pad)
  {
  }

  lemma LastArithmetic(len: nat)
    requires 1 <= len <= 8
    ensures (len + 7) / 8 == 1
    ensures 8 - len == (8 - len % 8) % 8
  {
  }

  lemma StepArithmetic(len: nat, k: nat)
    requires len >= 9 && k == (len - 1) / 8
    ensures k + 1 == (len + 7) / 8
    ensures 8 * k - (len - 8) == 8 * (k + 1) - len == (8 - len % 8) % 8
  {
  }

  lemma UnpackCons(b: byte, rest: seq<byte>)
    ensures Unpack([b] + rest) == ByteBits(b) + Unpack(rest)
  {
  }

  /** The decoder's expansion of a file: every byte becomes its eight bits,
      in file order. */
  function Unpack(bytes: seq<byte>): (r: Code)
    ensures |r| == 8 * |bytes|
  {
    if bytes == [] then [] else ByteBits(bytes[0]) + Unpack(bytes[1..])
  }

  /** Byte `i` of a file becomes bits `8 * i` to `8 * i + 7` of its
      expansion. */
  lemma {:induction false} UnpackReadsBytes(bytes: seq<byte>)
    ensures forall i :: 0 <= i < |bytes| ==> Unpack(bytes)[8 * i..8 * i + 8] == ByteBits(bytes[i])
  {
    if bytes != [] {
      UnpackReadsBytes(bytes[1..]);
      UnpackSlices(bytes, ByteBits(bytes[0]), Unpack(bytes[1..]));
    }
  }

  lemma UnpackSlices(bytes: seq<byte>, head: Code, rest: Code)
    requires bytes != [] && head == ByteBits(bytes[0]) && |rest| == 8 * (|bytes| - 1)
    requires forall i :: 0 <= i < |bytes| - 1 ==> rest[8 * i..8 * i + 8] == ByteBits(bytes[1..][i])
    ensures forall i :: 0 <= i < |bytes| ==> (head + rest)[8 * i..8 * i + 8] == ByteBits(bytes[i])
  {
    forall i | 0 <= i < |bytes| ensures (head + rest)[8 * i..8 * i + 8] == ByteBits(bytes[i]) {
      SliceShift(head, rest, i);
      if i > 0 {
        assert bytes[1..][i - 1] == bytes[i];
      }
    }
  }

  /** Octet `i` of `head + rest`, for an eight-bit `head`: `head` itself
      when `i` is 0, and octet `i - 1` of `rest` otherwise. */
  lemma SliceShift(head: Code, rest: Code, i: nat)
    requires |head| == 8 && 8 * i + 8 <= 8 + |rest|
    ensures i == 0 ==> (head + rest)[..8] == head
    ensures i > 0 ==> (head + rest)[8 * i..8 * i + 8] == rest[8 * (i - 1)..8 * (i - 1) + 8]
  {
    if i == 0 {
      assert (head + rest)[..8] == head;
    } else {
      assert (head + rest)[8 * i..8 * i + 8] == rest[8 * (i - 1)..8 * (i - 1) + 8];
    }
  }

  /** After a bit text of length `L >= 1` the last byte holds
      `(8 - L % 8) % 8` bits of padding. */
  lemma PaddingArithmetic(len: nat, n: nat)
    requires len >= 1 && n == (len + 7) / 8
    ensures 8 * n - len == (8 - len % 8) % 8
  {
  }

  /** An empty bit text still produces one zero byte. */
  lemma EmptyPacksToZeroByte()
    ensures Pack([]) == [0]
  {
    assert [] + Zeros(8) == Zeros(8);
    ZerosValue(8);
  }

  lemma {:induction false} ZerosValue(n: nat)
    ensures Value(Zeros(n)) == 0
  {
    if n > 0 {
      ZerosValue(n - 1);
      assert Zeros(n)[..n - 1] == Zeros(n - 1);
    }
  }
}
