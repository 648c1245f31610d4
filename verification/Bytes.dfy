/** Bytes, the eight digits of a byte, and the packing of a bit string into bytes. */
module Bytes {
  import opened Trees

  type Byte = i: int | 0 <= i < 256

  /** The bits as the characters '0' and '1'. */
  function Str(bits: Bits): (s: string)
    ensures |s| == |bits|
  {
    seq(|bits|, i requires 0 <= i < |bits| => if bits[i] then '1' else '0')
  }

  /** The bits that `str_to_byte` sees: every character other than '1' is a zero. */
  function Ones(s: string): (bits: Bits)
    ensures |bits| == |s|
  {
    seq(|s|, i requires 0 <= i < |s| => s[i] == '1')
  }

  lemma StrOnes(bits: Bits)
    ensures Ones(Str(bits)) == bits
  {
  }

  lemma StrConcat(a: Bits, b: Bits)
    ensures Str(a + b) == Str(a) + Str(b)
  {
  }

  /** A printed code starts a printed string exactly when the bits do. */
  lemma StrPrefix(a: Bits, b: Bits)
    ensures Str(a) <= Str(b) <==> a <= b
  {
    if Str(a) <= Str(b) {
      forall i | 0 <= i < |a| ensures a[i] == b[i] {
        assert Str(a)[i] == Str(b)[i];
      }
    }
  }

  function Zeros(n: nat): (z: Bits)
    ensures |z| == n
  {
    seq(n, _ => false)
  }

  function Pow2(n: nat): (p: nat)
    ensures p > 0
  {
    if n == 0 then 1 else 2 * Pow2(n - 1)
  }

  /** Most significant bit first. */
  function Value(bits: Bits): nat {
    if bits == [] then 0
    else 2 * Value(bits[..|bits| - 1]) + if bits[|bits| - 1] then 1 else 0
  }

  lemma {:induction false} ValueBound(bits: Bits)
    ensures Value(bits) < Pow2(|bits|)
  {
    if bits != [] { ValueBound(bits[..|bits| - 1]); }
  }

  /** The weight of a binary digit. */
  function Digit(one: bool): (d: nat) {
    if one then 1 else 0
  }

  /** Eight binary digits, written out. */
  lemma ValueOfEight(bits: Bits)
    requires |bits| == 8
    ensures Value(bits) == 128 * Digit(bits[0]) + 64 * Digit(bits[1]) + 32 * Digit(bits[2]) + 16 * Digit(bits[3])
                         + 8 * Digit(bits[4]) + 4 * Digit(bits[5]) + 2 * Digit(bits[6]) + Digit(bits[7])
  {
    assert bits[..8] == bits;
    ValueOfPrefix(bits, 8);
    ValueOfPrefix(bits, 7);
    ValueOfPrefix(bits, 6);
    ValueOfPrefix(bits, 5);
    ValueOfFour(bits);
  }

  lemma ValueOfFour(bits: Bits)
    requires |bits| >= 4
    ensures Value(bits[..4]) == 8 * Digit(bits[0]) + 4 * Digit(bits[1]) + 2 * Digit(bits[2]) + Digit(bits[3])
  {
    ValueOfPrefix(bits, 4);
    ValueOfPrefix(bits, 3);
    ValueOfPrefix(bits, 2);
    ValueOfPrefix(bits, 1);
  }

  lemma ValueOfPrefix(bits: Bits, k: nat)
    requires 0 < k <= |bits|
    ensures Value(bits[..k]) == (if k == 1 then 0 else 2 * Value(bits[..k - 1])) + Digit(bits[k - 1])
  {
    assert bits[..k][..k - 1] == bits[..k - 1];
  }

  function ByteOf(bits: Bits): Byte
    requires |bits| == 8
  {
    ValueBound(bits);
    assert Pow2(8) == 2 * Pow2(7) == 4 * Pow2(6) == 8 * Pow2(5) == 16 * Pow2(4);
    Value(bits)
  }

  /** Bit `i` of `b`, counted from the least significant: `b & (1 << i)` is not zero. */
  predicate TestBit(b: nat, i: nat) {
    if i == 0 then b % 2 == 1 else TestBit(b / 2, i - 1)
  }

  /** The `n` low digits of `b`, most significant first. */
  function DigitsOf(b: nat, n: nat): (bits: Bits)
    ensures |bits| == n
  {
    seq(n, k requires 0 <= k < n => TestBit(b, n - 1 - k))
  }

  function BitsOf(b: Byte): (bits: Bits)
    ensures |bits| == 8
  {
    DigitsOf(b, 8)
  }

  lemma {:induction false} DigitsOfValue(bits: Bits)
    ensures DigitsOf(Value(bits), |bits|) == bits
  {
    var n := |bits|;
    if n > 0 {
      var front := bits[..n - 1];
      DigitsOfValue(front);
      assert Value(bits) / 2 == Value(front);
      forall k | 0 <= k < n ensures DigitsOf(Value(bits), n)[k] == bits[k] {
        if k < n - 1 {
          assert TestBit(Value(bits), n - 1 - k) == TestBit(Value(front), n - 2 - k);
          assert DigitsOf(Value(front), n - 1)[k] == front[k] == bits[k];
        } else {
          assert Value(bits) % 2 == if bits[n - 1] then 1 else 0;
          assert DigitsOf(Value(bits), n)[k] == TestBit(Value(bits), 0);
        }
      }
    }
  }

  /** Writing a byte out as eight digits gives back the digits it was made from. */
  lemma BitsOfByte(bits: Bits)
    requires |bits| == 8
    ensures BitsOf(ByteOf(bits)) == bits
  {
    DigitsOfValue(bits);
  }

  /** `str_to_byte`. */
  method StrToByte(str: string) returns (res: Byte)
    requires |str| >= 8
    ensures res == ByteOf(Ones(str[..8]))
    ensures res == 128 * Digit(str[0] == '1') + 64 * Digit(str[1] == '1') + 32 * Digit(str[2] == '1')
                 + 16 * Digit(str[3] == '1') + 8 * Digit(str[4] == '1') + 4 * Digit(str[5] == '1')
                 + 2 * Digit(str[6] == '1') + Digit(str[7] == '1')
  {
    var r: int := 0;
    ghost var bits := Ones(str[..8]);
    for i := 0 to 8
      invariant r == Value(bits[..i]) && 0 <= r < Pow2(i) <= 256
    {
      assert bits[..i + 1][..i] == bits[..i];
      ValueBound(bits[..i + 1]);
      Pow2Small(i + 1);
      r := r * 2 % 256;
      if str[i] == '1' {
        r := r + 1;
      }
    }
    assert bits[..8] == bits;
    ValueOfEight(bits);
    res := r;
  }

  lemma Pow2Small(n: nat)
    requires n <= 8
    ensures Pow2(n) <= 256 && (n > 0 ==> Pow2(n) == 2 * Pow2(n - 1))
  {
    assert Pow2(8) == 2 * Pow2(7) == 4 * Pow2(6) == 8 * Pow2(5) == 16 * Pow2(4);
    assert Pow2(4) == 2 * Pow2(3) == 4 * Pow2(2) == 16;
  }

  /** `byte_to_str`. */
  method ByteToStr(b: Byte) returns (res: string)
    ensures res == Str(BitsOf(b))
    ensures |res| == 8 && forall k :: 0 <= k < 8 ==> res[k] == '0' || res[k] == '1'
    ensures (res[0] == '1' <==> b / 128 % 2 == 1) && (res[1] == '1' <==> b / 64 % 2 == 1)
    ensures (res[2] == '1' <==> b / 32 % 2 == 1) && (res[3] == '1' <==> b / 16 % 2 == 1)
    ensures (res[4] == '1' <==> b / 8 % 2 == 1) && (res[5] == '1' <==> b / 4 % 2 == 1)
    ensures (res[6] == '1' <==> b / 2 % 2 == 1) && (res[7] == '1' <==> b % 2 == 1)
  {
    var digits := seq(8, _ => '\0');
    for i := 0 to 8
      invariant |digits| == 8
      invariant forall k :: 8 - i <= k < 8 ==> digits[k] == Str(BitsOf(b))[k]
    {
      if TestBit(b, i) {
        digits := digits[7 - i := '1'];
      } else {
        digits := digits[7 - i := '0'];
      }
    }
    res := digits;
    DigitsOfByte(b);
  }

  /** The digits of a byte, written out. */
  lemma DigitsOfByte(b: Byte)
    ensures var d := BitsOf(b);
            && (d[0] <==> b / 128 % 2 == 1) && (d[1] <==> b / 64 % 2 == 1)
            && (d[2] <==> b / 32 % 2 == 1) && (d[3] <==> b / 16 % 2 == 1)
            && (d[4] <==> b / 8 % 2 == 1) && (d[5] <==> b / 4 % 2 == 1)
            && (d[6] <==> b / 2 % 2 == 1) && (d[7] <==> b % 2 == 1)
  {
    LowDigits(b);
    LowDigits(b / 16);
    Sixteenth(b, 4);
    Sixteenth(b, 5);
    Sixteenth(b, 6);
    Sixteenth(b, 7);
    assert b / 16 / 2 == b / 32 && b / 16 / 4 == b / 64 && b / 16 / 8 == b / 128;
  }

  lemma LowDigits(b: nat)
    ensures TestBit(b, 0) <==> b % 2 == 1
    ensures TestBit(b, 1) <==> b / 2 % 2 == 1
    ensures TestBit(b, 2) <==> b / 4 % 2 == 1
    ensures TestBit(b, 3) <==> b / 8 % 2 == 1
  {
    var b1 := b / 2;
    var b2 := b1 / 2;
    var b3 := b2 / 2;
    assert b2 == b / 4 && b3 == b / 8;
    assert TestBit(b, 3) == TestBit(b1, 2) == TestBit(b2, 1) == TestBit(b3, 0);
    assert TestBit(b, 2) == TestBit(b1, 1) == TestBit(b2, 0);
    assert TestBit(b, 1) == TestBit(b1, 0);
  }

  lemma Sixteenth(b: nat, i: nat)
    requires i >= 4
    ensures TestBit(b, i) == TestBit(b / 16, i - 4)
  {
    var b1 := b / 2;
    var b2 := b1 / 2;
    var b3 := b2 / 2;
    assert b3 / 2 == b / 16;
    assert TestBit(b, i) == TestBit(b1, i - 1) == TestBit(b2, i - 2) == TestBit(b3, i - 3) == TestBit(b3 / 2, i - 4);
  }

  /** The bytes of all complete groups of eight bits. */
  function FullBytes(bits: Bits): (bytes: seq<Byte>)
    ensures |bytes| == |bits| / 8
  {
    if |bits| < 8 then [] else [ByteOf(bits[..8])] + FullBytes(bits[8..])
  }

  /** The bits after the last complete group. */
  function Rest(bits: Bits): (r: Bits)
    ensures |r| < 8
  {
    if |bits| < 8 then bits else Rest(bits[8..])
  }

  /** How many zeros complete the last byte. */
  function PadLength(bits: Bits): (n: nat)
    ensures n < 8 && (|bits| + n) % 8 == 0
  {
    (8 - |bits| % 8) % 8
  }

  /** The payload of a file: the complete bytes, then the remaining bits followed by zeros. */
  function Pack(bits: Bits): seq<Byte> {
    FullBytes(bits) +
    if Rest(bits) == [] then [] else [ByteOf(Rest(bits) + Zeros(8 - |Rest(bits)|))]
  }

  function Unpack(bytes: seq<Byte>): Bits {
    if bytes == [] then [] else BitsOf(bytes[0]) + Unpack(bytes[1..])
  }

  lemma {:induction false} UnpackConcat(a: seq<Byte>, b: seq<Byte>)
    ensures Unpack(a + b) == Unpack(a) + Unpack(b)
  {
    if a == [] {
      assert a + b == b;
    } else {
      assert (a + b)[1..] == a[1..] + b;
      UnpackConcat(a[1..], b);
    }
  }

  lemma {:induction false} RestLength(bits: Bits)
    ensures |Rest(bits)| == |bits| % 8 && |FullBytes(bits)| == |bits| / 8
    ensures Rest(bits) == bits[8 * (|bits| / 8)..]
  {
    if |bits| >= 8 {
      RestLength(bits[8..]);
      var q := (|bits| - 8) / 8;
      assert |bits| / 8 == q + 1;
      assert bits[8..][8 * q..] == bits[8 * q + 8..];
    }
  }

  /** Each complete byte, by position. */
  lemma {:induction false} FullByteAt(bits: Bits, k: nat)
    requires 8 * k + 8 <= |bits|
    ensures k < |FullBytes(bits)| && FullBytes(bits)[k] == ByteOf(bits[8 * k..8 * k + 8])
  {
    RestLength(bits);
    if k > 0 {
      FullByteAt(bits[8..], k - 1);
      assert bits[8..][8 * (k - 1)..8 * (k - 1) + 8] == bits[8 * k..8 * k + 8];
    }
  }

  /** Appending to a stream only concerns the bits not yet written. */
  lemma {:induction false} StreamAppend(a: Bits, b: Bits)
    ensures FullBytes(a + b) == FullBytes(a) + FullBytes(Rest(a) + b)
    ensures Rest(a + b) == Rest(Rest(a) + b)
  {
    if |a| >= 8 {
      assert (a + b)[..8] == a[..8] && (a + b)[8..] == a[8..] + b;
      StreamAppend(a[8..], b);
    }
  }

  lemma {:induction false} UnpackFullBytes(bits: Bits)
    ensures Unpack(FullBytes(bits)) + Rest(bits) == bits
  {
    if |bits| >= 8 {
      BitsOfByte(bits[..8]);
      UnpackFullBytes(bits[8..]);
      assert bits == bits[..8] + bits[8..];
    }
  }

  /** Unpacking gives back the bits and the padding, which is zeros. */
  lemma UnpackPack(bits: Bits)
    ensures Unpack(Pack(bits)) == bits + Zeros(PadLength(bits))
    ensures |Pack(bits)| == (|bits| + 7) / 8
  {
    RestLength(bits);
    UnpackFullBytes(bits);
    var r, whole := Rest(bits), Unpack(FullBytes(bits));
    if r == [] {
      assert Pack(bits) == FullBytes(bits);
      assert whole + [] == whole;
      assert bits + Zeros(0) == bits;
    } else {
      var last := r + Zeros(8 - |r|);
      UnpackLast(FullBytes(bits), last);
      assert whole + (r + Zeros(8 - |r|)) == (whole + r) + Zeros(8 - |r|);
    }
  }

  lemma UnpackLast(bytes: seq<Byte>, last: Bits)
    requires |last| == 8
    ensures Unpack(bytes + [ByteOf(last)]) == Unpack(bytes) + last
  {
    BitsOfByte(last);
    UnpackConcat(bytes, [ByteOf(last)]);
    assert [ByteOf(last)][1..] == [];
    assert Unpack([ByteOf(last)]) == last + [];
  }

  /** Packing is padding to whole bytes, then cutting into groups of eight. */
  lemma PackIsChunkedPadding(bits: Bits)
    ensures Pack(bits) == FullBytes(bits + Zeros(PadLength(bits)))
    ensures Rest(bits + Zeros(PadLength(bits))) == []
  {
    RestLength(bits);
    var z := Zeros(PadLength(bits));
    StreamAppend(bits, z);
    var r := Rest(bits);
    if r != [] {
      assert (r + z)[..8] == r + z && (r + z)[8..] == [];
      assert FullBytes([]) == [];
    }
  }

  /** The bit at a position, zeros behind the end. */
  predicate BitAt(bits: Bits, k: nat) {
    k < |bits| && bits[k]
  }

  /** Every byte of a payload in terms of the bits: eight of them, the first one most significant. */
  lemma PackedByte(bits: Bits, i: nat)
    requires i < |Pack(bits)|
    ensures Pack(bits)[i] == 128 * Digit(BitAt(bits, 8 * i)) + 64 * Digit(BitAt(bits, 8 * i + 1))
                           + 32 * Digit(BitAt(bits, 8 * i + 2)) + 16 * Digit(BitAt(bits, 8 * i + 3))
                           + 8 * Digit(BitAt(bits, 8 * i + 4)) + 4 * Digit(BitAt(bits, 8 * i + 5))
                           + 2 * Digit(BitAt(bits, 8 * i + 6)) + Digit(BitAt(bits, 8 * i + 7))
  {
    PackIsChunkedPadding(bits);
    PaddedByte(bits, Zeros(PadLength(bits)), i);
  }

  lemma PaddedByte(bits: Bits, z: Bits, i: nat)
    requires z == Zeros(|z|) && i < |FullBytes(bits + z)|
    ensures FullBytes(bits + z)[i] == 128 * Digit(BitAt(bits, 8 * i)) + 64 * Digit(BitAt(bits, 8 * i + 1))
                                    + 32 * Digit(BitAt(bits, 8 * i + 2)) + 16 * Digit(BitAt(bits, 8 * i + 3))
                                    + 8 * Digit(BitAt(bits, 8 * i + 4)) + 4 * Digit(BitAt(bits, 8 * i + 5))
                                    + 2 * Digit(BitAt(bits, 8 * i + 6)) + Digit(BitAt(bits, 8 * i + 7))
  {
    FullByteAt(bits + z, i);
    var eight := (bits + z)[8 * i..8 * i + 8];
    assert forall j :: 0 <= j < 8 ==> eight[j] == BitAt(bits, 8 * i + j);
    ValueOfEight(eight);
  }
}
