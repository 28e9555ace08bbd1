/** Definite-length BER: trishul_snmp/wire/ber.py. */
module Ber {
  import opened Wrappers
  import opened Octets

  /** A decoded element: its tag, its content, and the offset just behind it. */
  datatype Tlv = Tlv(tag: Octet, content: Bytes, end: nat)

  /** The length octets of a content of `n` octets. From 256^255 on, which `len` cannot return,
      the program raises ValueError and this function returns a leading 0xFF. */
  function LengthOctets(n: nat): Bytes {
    if n < 0x80 then [n]
    else
      var count := ByteCount(n);
      [if count < 0x80 then 0x80 + count else if count < 256 then count else 0xFF] + ToBytes(n, count)
  }

  function DecodeLength(data: Bytes, offset: nat): (r: Outcome<(nat, nat)>)
    ensures r.Success? ==> offset < r.value.1 <= |data|
  {
    if offset >= |data| then Failure(ProtocolError)
    else
      var first := data[offset];
      if first < 0x80 then Success((first, offset + 1))
      else
        var count := first - 0x80;
        if count == 0 then Failure(ProtocolError)
        else
          var end := offset + 1 + count;
          if end > |data| then Failure(ProtocolError)
          else Success((FromBytes(data[offset + 1..end]), end))
  }

  function EncodeTlv(tag: Octet, content: Bytes): (r: Bytes)
    ensures |r| >= 2 + |content|
  {
    [tag] + LengthOctets(|content|) + content
  }

  /** Every successful read consumes at least two octets, stays in bounds, and returns a slice of the data. */
  function DecodeTlv(data: Bytes, offset: nat): (r: Outcome<Tlv>)
    ensures r.Success? ==>
              var t := r.value;
              && offset + 2 <= t.end - |t.content|
              && t.end <= |data|
              && t.content == data[t.end - |t.content|..t.end]
              && t.tag == data[offset]
    ensures r.Failure? ==> r.error == ProtocolError
  {
    if offset >= |data| then Failure(ProtocolError)
    else
      var (length, contentOffset) :- DecodeLength(data, offset + 1);
      var end := contentOffset + length;
      if end > |data| then Failure(ProtocolError)
      else Success(Tlv(data[offset], data[contentOffset..end], end))
  }

  /** A content length that the long form can express: at most 127 length octets. */
  predicate Fits(n: nat) {
    ByteCount(n) < 0x80
  }

  lemma FitsMonotone(a: nat, b: nat)
    requires a <= b && Fits(b)
    ensures Fits(a)
  {
    ByteCountMonotone(a, b);
  }

  /** Every UDP datagram is short enough. */
  lemma SmallFits(n: nat)
    requires n <= 65535
    ensures Fits(n)
  {
    assert Pow256(2) == 256 * Pow256(1) == 256 * (256 * Pow256(0));
    ByteCountWithin(n, 2);
  }

  /** Decoding depends only on the octets of the length field. */
  lemma LengthAt(data: Bytes, offset: nat, n: nat)
    requires Fits(n)
    requires At(data, offset, LengthOctets(n))
    ensures DecodeLength(data, offset) == Success((n, offset + |LengthOctets(n)|))
  {
    var octets := LengthOctets(n);
    assert data[offset] == data[offset..offset + |octets|][0] == octets[0];
    if n >= 0x80 {
      var count := ByteCount(n);
      ByteCountBounds(n);
      ToBytesInverse(n, count);
      assert data[offset + 1..offset + 1 + count] == data[offset..offset + |octets|][1..] == ToBytes(n, count);
    }
  }

  /** The length field round-trips exactly for the lengths that fit 127 octets. */
  lemma LengthRoundTripExactly(n: nat)
    requires ByteCount(n) < 256
    ensures DecodeLength(LengthOctets(n), 0) == Success((n, |LengthOctets(n)|)) <==> Fits(n)
  {
    var octets := LengthOctets(n);
    assert octets[0..|octets|] == octets;
    if n < 0x80 {
      SmallFits(n);
    }
    if Fits(n) {
      LengthAt(octets, 0, n);
    } else {
      var count := ByteCount(n);
      assert octets[0] == count && |octets| == 1 + count;
    }
  }

  lemma TlvLength(tag: Octet, content: Bytes, otherTag: Octet, other: Bytes)
    requires |content| == |other|
    ensures |EncodeTlv(tag, content)| == |EncodeTlv(otherTag, other)|
  {
  }

  lemma TlvAt(data: Bytes, offset: nat, tag: Octet, content: Bytes)
    requires Fits(|content|)
    requires At(data, offset, EncodeTlv(tag, content))
    ensures DecodeTlv(data, offset) == Success(Tlv(tag, content, offset + |EncodeTlv(tag, content)|))
  {
    hide LengthOctets, DecodeLength, Fits;
    var header := [tag] + LengthOctets(|content|);
    assert EncodeTlv(tag, content) == header + content;
    AtSplit(data, offset, header, content);
    AtSplit(data, offset, [tag], LengthOctets(|content|));
    assert data[offset] == data[offset..offset + 1][0];
    LengthAt(data, offset + 1, |content|);
  }

  lemma WholeTlv(tag: Octet, content: Bytes)
    requires Fits(|content|)
    ensures DecodeTlv(EncodeTlv(tag, content), 0) == Success(Tlv(tag, content, |EncodeTlv(tag, content)|))
  {
    var data := EncodeTlv(tag, content);
    assert data[0..|data|] == data;
    TlvAt(data, 0, tag, content);
  }

  /** Whatever was read can be written again with a length that fits. */
  lemma ReadContentFits(data: Bytes, offset: nat)
    requires DecodeTlv(data, offset).Success?
    ensures Fits(|DecodeTlv(data, offset).value.content|)
  {
    var n := |DecodeTlv(data, offset).value.content|;
    var first := data[offset + 1];
    if first >= 0x80 {
      var field := data[offset + 2..offset + 2 + (first - 0x80)];
      FromBytesInverse(field);
      ByteCountWithin(n, first - 0x80);
    } else {
      assert Pow256(1) == 256 * Pow256(0);
      ByteCountWithin(n, 1);
    }
  }

  /** Re-encoding the length of a read element, as the nested decoders do, changes nothing. */
  lemma RewrittenTlv(data: Bytes, offset: nat)
    requires DecodeTlv(data, offset).Success?
    ensures var t := DecodeTlv(data, offset).value;
            var again := EncodeTlv(t.tag, t.content);
            DecodeTlv(again, 0) == Success(Tlv(t.tag, t.content, |again|))
  {
    ReadContentFits(data, offset);
    var t := DecodeTlv(data, offset).value;
    WholeTlv(t.tag, t.content);
  }

  /** Overwriting octets inside an element's content shows in that content only. */
  lemma OverwriteInside(data: Bytes, offset: nat, p: nat, x: Bytes)
    requires DecodeTlv(data, offset).Success?
    requires var t := DecodeTlv(data, offset).value;
             t.end - |t.content| <= p && p + |x| <= t.end
    ensures var t := DecodeTlv(data, offset).value;
            DecodeTlv(Splice(data, p, x), offset)
            == Success(Tlv(t.tag, Splice(t.content, p - (t.end - |t.content|), x), t.end))
  {
    var t := DecodeTlv(data, offset).value;
    var start := t.end - |t.content|;
    var changed := Splice(data, p, x);
    SameHeader(data, changed, offset);
    assert changed[start..t.end] == Splice(t.content, p - start, x);
  }

  /** Overwriting octets outside an element leaves it as it was. */
  lemma OverwriteOutside(data: Bytes, offset: nat, p: nat, x: Bytes)
    requires DecodeTlv(data, offset).Success?
    requires p + |x| <= |data|
    requires p + |x| <= offset || DecodeTlv(data, offset).value.end <= p
    ensures DecodeTlv(Splice(data, p, x), offset) == DecodeTlv(data, offset)
  {
    var t := DecodeTlv(data, offset).value;
    var changed := Splice(data, p, x);
    SameHeader(data, changed, offset);
    assert changed[t.end - |t.content|..t.end] == t.content;
  }

  lemma SameHeader(data: Bytes, changed: Bytes, offset: nat)
    requires DecodeTlv(data, offset).Success?
    requires |changed| == |data|
    requires var t := DecodeTlv(data, offset).value;
             forall i :: offset <= i < t.end - |t.content| ==> changed[i] == data[i]
    ensures DecodeLength(changed, offset + 1) == DecodeLength(data, offset + 1)
    ensures changed[offset] == data[offset]
  {
    var contentOffset := DecodeLength(data, offset + 1).value.1;
    assert changed[offset + 1] == data[offset + 1];
    assert contentOffset == DecodeTlv(data, offset).value.end - |DecodeTlv(data, offset).value.content|;
    if data[offset + 1] >= 0x80 {
      assert changed[offset + 2..contentOffset] == data[offset + 2..contentOffset];
    }
  }
}
