/** INTEGER contents: the signed and unsigned codecs of trishul_snmp/wire/asn1.py. */
module Integers {
  import opened Wrappers
  import opened Octets

  /** A leading octet that two's complement can spare (section 8.3.2 of X.690). */
  predicate Redundant(s: Bytes) {
    |s| > 1 && ((s[0] == 0x00 && s[1] < 0x80) || (s[0] == 0xFF && s[1] >= 0x80))
  }

  function Trim(s: Bytes): Bytes {
    if Redundant(s) then Trim(s[1..]) else s
  }

  function Abs(v: int): nat {
    if v < 0 then -v else v
  }

  /** The working width of the encoder, `max(1, (v.bit_length() + 8) // 8)`. */
  function Width(v: int): (k: nat)
    ensures k >= 1
  {
    (BitLength(Abs(v)) + 8) / 8
  }

  /** The integers that `k` octets hold in two's complement. */
  predicate InRange(v: int, k: nat)
    requires k >= 1
  {
    -128 * Pow256(k - 1) <= v < 128 * Pow256(k - 1)
  }

  /** `v.to_bytes(k, "big", signed=True)`; Python raises OverflowError unless `InRange(v, k)`. */
  function SignedBytes(v: int, k: nat): (s: Bytes)
    ensures |s| == k
  {
    ToBytes(if v < 0 then Abs(v + Pow256(k)) else v, k)
  }

  lemma WidthSuffices(v: int)
    ensures InRange(v, Width(v))
    ensures Width(v) > 1 && !(v < 0 && BitLength(Abs(v)) % 8 == 0) ==> !InRange(v, Width(v) - 1)
    ensures Width(v) > 2 ==> !InRange(v, Width(v) - 2)
    ensures Width(v) > 1 && InRange(v, Width(v) - 1) ==> v == -128 * Pow256(Width(v) - 2)
  {
    if v != 0 {
      var n := Abs(v);
      ByteCountBounds(n);
      var c := ByteCount(n);
      if BitLength(n) % 8 == 0 {
        assert Width(v) == c + 1;
        if c >= 2 {
          Pow256Monotone(c - 2, c - 1);
          assert Pow256(c - 1) == 256 * Pow256(c - 2);
        }
      } else {
        assert Width(v) == c;
        if c >= 2 {
          assert Pow256(c - 1) == 256 * Pow256(c - 2);
        }
        if c >= 3 {
          assert Pow256(c - 2) == 256 * Pow256(c - 3);
        }
      }
    }
  }

  function EncodeSigned(v: int): Bytes {
    if v == 0 then [0] else Trim(SignedBytes(v, Width(v)))
  }

  /** `int.from_bytes(s, "big", signed=True)`. */
  function SignedValue(s: Bytes): int
    requires s != []
  {
    if s[0] >= 0x80 then FromBytes(s) - Pow256(|s|) else FromBytes(s)
  }

  function DecodeSigned(content: Bytes): (r: Outcome<int>)
    ensures r.Failure? ==> r.error == ProtocolError
  {
    if content == [] then Failure(ProtocolError) else Success(SignedValue(content))
  }

  function EncodeUnsigned(v: int): Outcome<Bytes> {
    if v < 0 then Failure(ProtocolError)
    else if v == 0 then Success([0])
    else
      var octets := ToBytes(v, ByteCount(v));
      Success(if octets != [] && octets[0] >= 0x80 then [0] + octets else octets)
  }

  function DecodeUnsigned(content: Bytes): Outcome<int> {
    if content == [] then Failure(ProtocolError) else Success(FromBytes(content))
  }

  /** The encoder as the program runs it: a full-width rendering whose redundant octets are then cut off. */
  method EncodeSignedInteger(value: int) returns (encoded: Bytes, cuts: nat)
    ensures encoded == EncodeSigned(value)
    ensures cuts <= 1
    ensures cuts == 1 <==> Width(value) >= 2 && value == -128 * Pow256(Width(value) - 2)
  {
    cuts := 0;
    if value == 0 {
      return [0], 0;
    }
    WidthSuffices(value);
    encoded := SignedBytes(value, Width(value));
    SignedBytesValue(value, Width(value));
    while Redundant(encoded)
      invariant encoded != []
      invariant Trim(encoded) == EncodeSigned(value)
      invariant SignedValue(encoded) == value
      invariant |encoded| + cuts == Width(value)
      invariant cuts <= 1
      invariant InRange(value, |encoded|)
      decreases |encoded|
    {
      DropRedundant(encoded);
      SignedValueRange(encoded[1..]);
      encoded := encoded[1..];
      cuts := cuts + 1;
    }
    if |encoded| > 1 {
      NeedsWidth(encoded);
    }
  }

  lemma SignedBytesValue(v: int, k: nat)
    requires k >= 1 && InRange(v, k)
    ensures SignedValue(SignedBytes(v, k)) == v
  {
    var s := SignedBytes(v, k);
    assert Pow256(k) == 256 * Pow256(k - 1);
    ToBytesInverse(if v < 0 then v + Pow256(k) else v, k);
    LeadingBit(s);
  }

  lemma Scale(a: int, b: int, p: nat)
    requires a <= b
    ensures a * p <= b * p
  {
  }

  lemma Distribute(a: int, p: int)
    ensures (a + 1) * p == a * p + p
  {
  }

  /** The leading octet locates the value between two multiples of a power of 256. */
  lemma HeadBounds(s: Bytes)
    requires s != []
    ensures s[0] * Pow256(|s| - 1) <= FromBytes(s) < (s[0] + 1) * Pow256(|s| - 1)
    ensures FromBytes(s) == s[0] * Pow256(|s| - 1) + FromBytes(s[1..])
  {
    hide FromBytes, Pow256;
    FromBytesHead(s);
    FromBytesInverse(s[1..]);
    Distribute(s[0], Pow256(|s| - 1));
  }

  /** The leading bit splits the unsigned values in two halves. */
  lemma LeadingBit(s: Bytes)
    requires s != []
    ensures FromBytes(s) < Pow256(|s|) == 256 * Pow256(|s| - 1)
    ensures s[0] >= 0x80 <==> FromBytes(s) >= 128 * Pow256(|s| - 1)
  {
    FromBytesInverse(s);
    HeadBounds(s);
    var p := Pow256(|s| - 1);
    if s[0] >= 0x80 {
      Scale(0x80, s[0], p);
    } else {
      Scale(s[0] + 1, 0x80, p);
    }
  }

  lemma SignedValueRange(s: Bytes)
    requires s != []
    ensures InRange(SignedValue(s), |s|)
  {
    LeadingBit(s);
  }

  lemma DropRedundant(s: Bytes)
    requires Redundant(s)
    ensures SignedValue(s[1..]) == SignedValue(s)
  {
    FromBytesHead(s);
    assert Pow256(|s|) == 256 * Pow256(|s| - 1);
    assert 255 * Pow256(|s| - 1) == Pow256(|s|) - Pow256(|s| - 1);
  }

  /** Without a redundant octet the value needs the full width. */
  lemma NeedsWidth(s: Bytes)
    requires |s| > 1 && !Redundant(s)
    ensures !InRange(SignedValue(s), |s| - 1)
  {
    HeadBounds(s);
    LeadingBit(s);
    LeadingBit(s[1..]);
    var p := Pow256(|s| - 1);
    if 0 < s[0] < 0x80 {
      Scale(1, s[0], p);
    } else if 0x80 <= s[0] < 0xFF {
      Scale(s[0] + 1, 0xFF, p);
    }
  }

  lemma {:induction false} TrimKeeps(s: Bytes)
    requires s != []
    ensures Trim(s) != [] && SignedValue(Trim(s)) == SignedValue(s) && !Redundant(Trim(s))
    decreases |s|
  {
    if Redundant(s) {
      DropRedundant(s);
      TrimKeeps(s[1..]);
    }
  }

  lemma SignedRoundTrip(v: int)
    ensures DecodeSigned(EncodeSigned(v)) == Success(v)
    ensures !Redundant(EncodeSigned(v))
  {
    if v == 0 {
      assert FromBytes([0]) == 256 * FromBytes([]) + 0;
    } else {
      WidthSuffices(v);
      SignedBytesValue(v, Width(v));
      TrimKeeps(SignedBytes(v, Width(v)));
    }
  }

  /** The encoder's output is the one content without a redundant octet, and every other content
      of the same value is longer. */
  lemma SignedShortest(s: Bytes)
    requires s != []
    ensures var shortest := EncodeSigned(SignedValue(s));
            && |shortest| <= |s|
            && (|shortest| == |s| ==> s == shortest)
            && (!Redundant(s) <==> s == shortest)
  {
    var v := SignedValue(s);
    var shortest := EncodeSigned(v);
    SignedRoundTrip(v);
    SignedValueRange(s);
    SignedValueRange(shortest);
    if |shortest| > |s| {
      NeedsWidth(shortest);
      RangeGrows(v, |s|, |shortest| - 1);
    }
    if !Redundant(s) && |s| > |shortest| {
      NeedsWidth(s);
      RangeGrows(v, |shortest|, |s| - 1);
    }
    if |s| == |shortest| {
      LeadingBit(s);
      LeadingBit(shortest);
      FromBytesInverse(s);
      FromBytesInverse(shortest);
    }
  }

  lemma RangeGrows(v: int, j: nat, k: nat)
    requires 1 <= j <= k && InRange(v, j)
    ensures InRange(v, k)
  {
    Pow256Monotone(j - 1, k - 1);
  }

  lemma ZeroPrefix(octets: Bytes)
    ensures FromBytes([0] + octets) == FromBytes(octets)
  {
    FromBytesHead([0] + octets);
    assert ([0] + octets)[1..] == octets;
  }

  /** The unsigned encoder's output reads back, and a signed reader sees the same number. */
  lemma UnsignedRoundTrip(v: int)
    ensures EncodeUnsigned(v).Success? <==> v >= 0
    ensures v >= 0 ==> DecodeUnsigned(EncodeUnsigned(v).value) == Success(v)
    ensures v >= 0 ==> DecodeSigned(EncodeUnsigned(v).value) == Success(v)
  {
    if v == 0 {
      assert FromBytes([0]) == 256 * FromBytes([]) + 0;
    } else if v > 0 {
      hide FromBytes, ToBytes, Pow256, ByteCount;
      ByteCountBounds(v);
      ToBytesInverse(v, ByteCount(v));
      ZeroPrefix(ToBytes(v, ByteCount(v)));
    }
  }

  /** The unsigned decoder accepts contents the encoder never writes: a set top bit is not a sign. */
  lemma UnsignedNotShorter()
    ensures DecodeUnsigned([0xFF]) == Success(255)
    ensures EncodeUnsigned(255) == Success([0x00, 0xFF])
  {
    assert FromBytes([0xFF]) == 256 * FromBytes([]) + 255;
    FromBytesInverse([0xFF]);
    BitLengthSmall(255);
    assert ByteCount(255) == 1;
    assert ToBytes(255, 1) == ToBytes(0, 0) + [255] == [0xFF];
    assert [0x00] + [0xFF] == [0x00, 0xFF];
  }

  lemma UnsignedHead(v: nat)
    requires v > 0
    ensures var octets := ToBytes(v, ByteCount(v));
            octets != [] && octets[0] > 0 && FromBytes(octets) == v
  {
    hide ToBytes, ByteCount, BitLength;
    ByteCountBounds(v);
    var octets := ToBytes(v, ByteCount(v));
    ToBytesInverse(v, ByteCount(v));
    FromBytesHead(octets);
    FromBytesInverse(octets[1..]);
  }

  /** On naturals the two encoders agree: both write the shortest two's-complement content. */
  lemma UnsignedIsSigned(v: nat)
    ensures EncodeUnsigned(v) == Success(EncodeSigned(v))
  {
    if v > 0 {
      hide ToBytes, FromBytes, ByteCount, EncodeSigned, Trim;
      UnsignedHead(v);
      UnsignedRoundTrip(v);
      SignedShortest(EncodeUnsigned(v).value);
    }
  }

  /** Re-encoding an accepted unsigned content lengthens it exactly when its top bit is set, by one
      zero octet; it leaves exactly the contents alone that have a clear top bit and no redundant zero. */
  lemma UnsignedRewrittenExactly(content: Bytes)
    requires content != []
    ensures DecodeUnsigned(content).Success?
    ensures var again := EncodeUnsigned(DecodeUnsigned(content).value);
            && again.Success?
            && (|again.value| > |content| <==> content[0] >= 0x80)
            && (content[0] >= 0x80 ==> again.value == [0x00] + content)
            && (again.value == content
                <==> content[0] < 0x80 && !(|content| > 1 && content[0] == 0 && content[1] < 0x80))
  {
    hide FromBytes, EncodeUnsigned, EncodeSigned;
    UnsignedIsSigned(FromBytes(content));
    if content[0] >= 0x80 {
      ZeroPrefix(content);
      SignedShortest([0x00] + content);
    } else {
      SignedShortest(content);
    }
  }

  /** Every content but the empty one is read, as the one number in its range that its octets stand for modulo
      256^k, for signed numbers; and as the number its octets stand for, for unsigned ones. */
  lemma ContentsAreRead(content: Bytes)
    ensures content == [] <==> DecodeSigned(content) == Failure(ProtocolError)
    ensures content == [] <==> DecodeUnsigned(content) == Failure(ProtocolError)
    ensures content != [] ==>
              && DecodeSigned(content).Success?
              && var n := DecodeSigned(content).value;
              && InRange(n, |content|)
              && n == FromBytes(content) - (if content[0] >= 0x80 then Pow256(|content|) else 0)
    ensures content != [] ==>
              && DecodeUnsigned(content).Success?
              && 0 <= DecodeUnsigned(content).value < Pow256(|content|)
              && ToBytes(DecodeUnsigned(content).value, |content|) == content
  {
    if content != [] {
      SignedValueRange(content);
      FromBytesInverse(content);
    }
  }
}
