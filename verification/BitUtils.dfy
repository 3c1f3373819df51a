/** The byte, bit and integer codecs. Bits are least significant first inside each byte;
    integers are big-endian byte strings. */
module BitUtils {
  import opened Modular
  import opened Wrappers

  type byte = x: int | 0 <= x < 256

  // ---------- bits of a number ----------

  /** Bit i of x, as the mask x & (1 << i) selects it. */
  function Bit(x: nat, i: nat): bool {
    PowPositive(2, i);
    x / Pow(2, i) % 2 == 1
  }

  function NatToBits(x: nat, k: nat): (b: seq<bool>)
    ensures |b| == k
  {
    if k == 0 then [] else [x % 2 == 1] + NatToBits(x / 2, k - 1)
  }

  function BitsToNat(b: seq<bool>): nat {
    if b == [] then 0 else (if b[0] then 1 else 0) + 2 * BitsToNat(b[1..])
  }

  lemma DivDiv(x: nat, a: pos, b: pos)
    ensures a * b > 0 && x / a / b == x / (a * b)
  {
    MulPos(a, b);
    var q, r := x / a, x % a;
    var q', r' := q / b, q % b;
    MulMono(r', b - 1, a);
    MulMono(0, r', a);
    assert a * (b - 1) == a * b - a;
    assert x == (a * b) * q' + (a * r' + r) by {
      assert a * (b * q' + r') == a * b * q' + a * r';
    }
    ModUnique(x, a * b, q', a * r' + r);
  }

  lemma {:induction false} NatToBitsAt(x: nat, k: nat, i: nat)
    requires i < k
    ensures NatToBits(x, k)[i] == Bit(x, i)
  {
    if i > 0 {
      NatToBitsAt(x / 2, k - 1, i - 1);
      PowPositive(2, i - 1);
      DivDiv(x, 2, Pow(2, i - 1));
    } else {
      assert x / 1 == x;
    }
  }

  lemma {:induction false} BitsOfNat(x: nat, k: nat)
    requires x < Pow(2, k)
    ensures BitsToNat(NatToBits(x, k)) == x
  {
    if k > 0 {
      BitsOfNat(x / 2, k - 1);
    }
  }

  lemma {:induction false} NatOfBits(b: seq<bool>)
    ensures BitsToNat(b) < Pow(2, |b|)
    ensures NatToBits(BitsToNat(b), |b|) == b
  {
    if b != [] {
      NatOfBits(b[1..]);
    }
  }

  lemma {:induction false} BitsToNatAppend(b: seq<bool>, c: bool)
    ensures BitsToNat(b + [c]) == BitsToNat(b) + (if c then Pow(2, |b|) else 0)
  {
    if b == [] {
      assert [c][1..] == [] && b + [c] == [c];
    } else {
      BitsToNatAppend(b[1..], c);
      assert (b + [c])[1..] == b[1..] + [c];
    }
  }

  lemma Pow2Of8()
    ensures Pow(2, 8) == 256
  {
    assert Pow(2, 4) == 16;
    PowAdd(2, 4, 4);
  }

  // ---------- byte strings and bit strings ----------

  function ByteBits(x: byte): (b: seq<bool>)
    ensures |b| == 8
  {
    NatToBits(x, 8)
  }

  lemma ByteFromBits(x: byte)
    ensures BitsToNat(ByteBits(x)) == x
  {
    Pow2Of8();
    BitsOfNat(x, 8);
  }

  lemma BitsFromByte(b: seq<bool>)
    requires |b| == 8
    ensures BitsToNat(b) < 256 && ByteBits(BitsToNat(b)) == b
  {
    NatOfBits(b);
    Pow2Of8();
  }

  function BytesToBits(s: seq<byte>): (b: seq<bool>)
    ensures |b| == 8 * |s|
  {
    if s == [] then [] else BytesToBits(s[..|s| - 1]) + ByteBits(s[|s| - 1])
  }

  lemma BytesToBitsAppend(s: seq<byte>, x: byte)
    ensures BytesToBits(s + [x]) == BytesToBits(s) + ByteBits(x)
  {
    var t := s + [x];
    assert t[..|t| - 1] == s;
  }

  /** Bit i of byte j ends at position 8 j + i. */
  lemma {:induction false} BytesToBitsAt(s: seq<byte>, j: nat, i: nat)
    requires j < |s| && i < 8
    ensures 8 * j + i < 8 * |s| && BytesToBits(s)[8 * j + i] == Bit(s[j], i)
  {
    if j < |s| - 1 {
      BytesToBitsAt(s[..|s| - 1], j, i);
    } else {
      NatToBitsAt(s[j], 8, i);
    }
  }

  /** The two nested loops of to_bits. */
  method ToBits(cont: seq<byte>) returns (res: seq<bool>)
    ensures res == BytesToBits(cont)
    ensures forall j, i :: 0 <= j < |cont| && 0 <= i < 8 ==>
      Pow(2, i) > 0 && res[8 * j + i] == (cont[j] / Pow(2, i) % 2 == 1)
  {
    res := [];
    for k := 0 to |cont|
      invariant res == BytesToBits(cont[..k])
    {
      var e, before := cont[k], res;
      for i := 0 to 8
        invariant res == before + ByteBits(e)[..i]
      {
        NatToBitsAt(e, 8, i);
        res := res + [Bit(e, i)];
      }
      assert ByteBits(e)[..8] == ByteBits(e);
      BytesToBitsAppend(cont[..k], e);
      assert cont[..k + 1] == cont[..k] + [e];
    }
    assert cont[..|cont|] == cont;
    forall j, i | 0 <= j < |cont| && 0 <= i < 8
      ensures Pow(2, i) > 0 && res[8 * j + i] == (cont[j] / Pow(2, i) % 2 == 1)
    {
      PowPositive(2, i);
      BytesToBitsAt(cont, j, i);
    }
  }

  function BitsToBytes(b: seq<bool>): (s: seq<byte>)
    requires |b| % 8 == 0
    ensures 8 * |s| == |b|
  {
    if b == [] then []
    else
      var last := b[|b| - 8..];
      BitsFromByte(last);
      BitsToBytes(b[..|b| - 8]) + [BitsToNat(last)]
  }

  /** Eight more bits are one more byte. */
  lemma BitsToBytesAppend(front: seq<bool>, last: seq<bool>)
    requires |front| % 8 == 0 && |last| == 8
    ensures BitsToNat(last) < 256 && |front + last| % 8 == 0
    ensures BitsToBytes(front + last) == BitsToBytes(front) + [BitsToNat(last)]
  {
    var b := front + last;
    BitsFromByte(last);
    assert b[..|b| - 8] == front && b[|b| - 8..] == last;
  }

  lemma SliceAppend(s: seq<bool>, i: nat, j: nat)
    requires i <= j < |s|
    ensures s[i..j + 1] == s[i..j] + [s[j]]
  {
  }

  /** from_bits: throws unless the bits fill whole bytes. */
  method FromBits(bits: seq<bool>) returns (r: Result<seq<byte>>)
    ensures r == if |bits| % 8 == 0 then Ok(BitsToBytes(bits)) else Err(BitCountNotMultipleOf8)
  {
    var l := |bits|;
    if l % 8 != 0 {
      return Err(BitCountNotMultipleOf8);
    }
    var res: seq<byte> := [];
    var i := 0;
    while i < l
      invariant 0 <= i <= l && i % 8 == 0
      invariant res == BitsToBytes(bits[..i])
    {
      var x := 0;
      for bit := 0 to 8
        invariant i + bit <= l && x == BitsToNat(bits[i..i + bit])
      {
        BitsToNatAppend(bits[i..i + bit], bits[i + bit]);
        SliceAppend(bits, i, i + bit);
        if bits[i + bit] {
          x := x + Pow(2, bit);
        }
      }
      BitsToBytesAppend(bits[..i], bits[i..i + 8]);
      assert bits[..i + 8] == bits[..i] + bits[i..i + 8];
      res := res + [x];
      i := i + 8;
    }
    assert bits[..l] == bits;
    return Ok(res);
  }

  lemma OneByteBack(b: seq<bool>, x: byte)
    requires |b| % 8 == 0
    ensures |b + ByteBits(x)| % 8 == 0 && BitsToBytes(b + ByteBits(x)) == BitsToBytes(b) + [x]
  {
    BitsToBytesAppend(b, ByteBits(x));
    ByteFromBits(x);
  }

  lemma BytesRoundTripStep(front: seq<byte>, x: byte)
    requires BitsToBytes(BytesToBits(front)) == front
    ensures BitsToBytes(BytesToBits(front + [x])) == front + [x]
  {
    var b := BytesToBits(front);
    OneByteBack(b, x);
    BytesToBitsAppend(front, x);
  }

  /** Reading back the bits of a byte string gives the byte string. */
  lemma {:induction false} BytesRoundTrip(s: seq<byte>)
    ensures BitsToBytes(BytesToBits(s)) == s
  {
    if s != [] {
      BytesRoundTrip(s[..|s| - 1]);
      BytesRoundTripStep(s[..|s| - 1], s[|s| - 1]);
      assert s == s[..|s| - 1] + [s[|s| - 1]];
    }
  }

  lemma BitsRoundTripStep(front: seq<bool>, last: seq<bool>)
    requires |front| % 8 == 0 && |last| == 8 && BytesToBits(BitsToBytes(front)) == front
    ensures |front + last| % 8 == 0 && BytesToBits(BitsToBytes(front + last)) == front + last
  {
    BitsToBytesAppend(front, last);
    BitsFromByte(last);
    BytesToBitsAppend(BitsToBytes(front), BitsToNat(last));
  }

  /** Writing out the bytes of a bit string, when they are whole, gives back the bits. */
  lemma {:induction false} BitsRoundTrip(b: seq<bool>)
    requires |b| % 8 == 0
    ensures BytesToBits(BitsToBytes(b)) == b
  {
    if b != [] {
      BitsRoundTrip(b[..|b| - 8]);
      BitsRoundTripStep(b[..|b| - 8], b[|b| - 8..]);
      assert b == b[..|b| - 8] + b[|b| - 8..];
    }
  }

  // ---------- integers as byte strings ----------

  /** The big-endian encoding of i in len bytes; higher bytes are cut off. */
  function Encode(i: nat, len: nat): (s: seq<byte>)
    ensures |s| == len
  {
    if len == 0 then [] else Encode(i / 256, len - 1) + [i % 256]
  }

  /** The integer a big-endian byte string stands for. */
  function Decode(s: seq<byte>): nat {
    if s == [] then 0 else 256 * Decode(s[..|s| - 1]) + s[|s| - 1]
  }

  function MinEncodedSize(i: nat): (len: nat)
    ensures len >= 1
  {
    if i < 256 then 1 else 1 + MinEncodedSize(i / 256)
  }

  /** 32 bytes hold n. */
  predicate FitsIn32(n: nat) {
    MinEncodedSize(n) <= 32
  }

  lemma FitsIn32Exact(n: nat)
    ensures FitsIn32(n) <==> n < Pow(256, 32)
  {
    MinEncodedSizeFits(n, 32);
  }

  lemma {:induction false} SmallerFits(i: nat, n: nat)
    requires i <= n
    ensures MinEncodedSize(i) <= MinEncodedSize(n)
  {
    if i >= 256 { SmallerFits(i / 256, n / 256); }
  }

  function ToBytes(i: nat): seq<byte> {
    Encode(i, MinEncodedSize(i))
  }

  lemma {:induction false} DecodeEncode(i: nat, len: nat)
    requires i < Pow(256, len)
    ensures Decode(Encode(i, len)) == i
  {
    if len > 0 {
      DecodeEncode(i / 256, len - 1);
      var s := Encode(i, len);
      assert s[..|s| - 1] == Encode(i / 256, len - 1);
    }
  }

  lemma DivSmall(x: nat, r: nat)
    requires r < 256
    ensures (256 * x + r) / 256 == x && (256 * x + r) % 256 == r
  {
  }

  /** Strings of one length are told apart by their integers. */
  lemma {:induction false} EncodeDecode(s: seq<byte>)
    ensures Encode(Decode(s), |s|) == s
  {
    if s != [] {
      var front, last := s[..|s| - 1], s[|s| - 1];
      EncodeDecode(front);
      DivSmall(Decode(front), last);
    }
  }

  /** The most significant byte comes first: dropping the last k bytes divides by 256^k. */
  lemma {:induction false} DecodePrefix(s: seq<byte>, b: nat)
    requires b <= |s|
    ensures Pow(256, |s| - b) > 0 && Decode(s[..b]) == Decode(s) / Pow(256, |s| - b)
  {
    if b == |s| {
      assert s[..b] == s && Decode(s) / 1 == Decode(s);
    } else {
      var front, last := s[..|s| - 1], s[|s| - 1];
      DecodePrefix(front, b);
      assert front[..b] == s[..b];
      DivSmall(Decode(front), last);
      DivDiv(Decode(s), 256, Pow(256, |front| - b));
    }
  }

  lemma {:induction false} MinEncodedSizeFits(i: nat, len: nat)
    requires len > 0
    ensures MinEncodedSize(i) <= len <==> i < Pow(256, len)
  {
    if len == 1 {
      assert Pow(256, 1) == 256;
    } else if i < 256 {
      PowMono(256, 1, len);
      assert Pow(256, 1) == 256;
    } else {
      MinEncodedSizeFits(i / 256, len - 1);
    }
  }

  lemma DecodeToBytes(i: nat)
    ensures Decode(ToBytes(i)) == i
  {
    MinEncodedSizeFits(i, MinEncodedSize(i));
    DecodeEncode(i, MinEncodedSize(i));
  }

  // ---------- integers as bit strings ----------

  function IntegerBits(i: nat): seq<bool> {
    BytesToBits(ToBytes(i))
  }

  method IntegerToBits(i: int) returns (r: Result<seq<bool>>)
    ensures r == if i < 0 then Err(NegativeInteger) else Ok(IntegerBits(i))
  {
    if i < 0 {
      return Err(NegativeInteger);
    }
    var bytes := Encode(i, MinEncodedSize(i));
    var bits := ToBits(bytes);
    return Ok(bits);
  }

  method BitsToInteger(bits: seq<bool>) returns (r: Result<nat>)
    ensures |bits| % 8 != 0 ==> r == Err(BitCountNotMultipleOf8)
    ensures |bits| % 8 == 0 ==> r == Ok(Decode(BitsToBytes(bits)))
  {
    var bytes :- FromBits(bits);
    return Ok(Decode(bytes));
  }

  /** bits_to_integer inverts integer_to_bits. */
  lemma IntegerRoundTrip(i: nat)
    ensures |IntegerBits(i)| % 8 == 0
    ensures Decode(BitsToBytes(IntegerBits(i))) == i
  {
    ReadBack(ToBytes(i));
    DecodeToBytes(i);
  }

  lemma ReadBack(s: seq<byte>)
    ensures |BytesToBits(s)| % 8 == 0 && Decode(BitsToBytes(BytesToBits(s))) == Decode(s)
  {
    BytesRoundTrip(s);
  }

  /** 256 bits suffice exactly for the integers that 32 bytes hold. */
  lemma IntegerBitsFit(i: nat)
    ensures |IntegerBits(i)| <= 256 <==> i < Pow(256, 32)
  {
    FitsIn32Exact(i);
  }
}
