/** OBJECT IDENTIFIER contents: the OID and base-128 codecs of trishul_snmp/wire/asn1.py. */
module Oids {
  import opened Wrappers
  import opened Octets

  type Oid = seq<int>

  /** Leading sub-identifier octets, each with the continuation bit; none for zero. */
  function High(v: nat): Bytes {
    if v == 0 then [] else High(v / 128) + [0x80 + v % 128]
  }

  function Base128(v: nat): (s: Bytes)
    ensures s != []
  {
    High(v / 128) + [v % 128]
  }

  function EncodeArcs(arcs: seq<int>): Outcome<Bytes> {
    if arcs == [] then Success([])
    else if arcs[0] < 0 then Failure(ProtocolError)
    else
      var rest :- EncodeArcs(arcs[1..]);
      Success(Base128(arcs[0]) + rest)
  }

  function EncodeOid(oid: Oid): Outcome<Bytes> {
    if |oid| < 2 then Failure(ProtocolError)
    else if oid[0] > 2 then Failure(ProtocolError)
    else if oid[0] < 2 && oid[1] >= 40 then Failure(ProtocolError)
    else
      var head := oid[0] * 40 + oid[1];
      if head < 0 || head > 255 then Failure(ValueError)
      else
        var rest :- EncodeArcs(oid[2..]);
        Success([head] + rest)
  }

  /** Reads one sub-identifier from `offset` on, `value` being what its earlier octets amount to. */
  function DecodeBase128(content: Bytes, offset: nat, value: nat): (r: Outcome<(nat, nat)>)
    ensures r.Success? ==> offset < r.value.1 <= |content|
    ensures r.Failure? ==> r.error == ProtocolError
    decreases |content| - offset
  {
    if offset >= |content| then Failure(ProtocolError)
    else
      var byte := content[offset];
      var next := 128 * value + byte % 128;
      if byte < 0x80 then Success((next, offset + 1)) else DecodeBase128(content, offset + 1, next)
  }

  function DecodeArcs(content: Bytes, offset: nat): (r: Outcome<seq<int>>)
    ensures r.Failure? ==> r.error == ProtocolError
    decreases |content| - offset
  {
    if offset >= |content| then Success([])
    else
      var (arc, next) :- DecodeBase128(content, offset, 0);
      var rest :- DecodeArcs(content, next);
      Success([arc] + rest)
  }

  function SplitHead(first: Octet): (int, int) {
    if first < 40 then (0, first) else if first < 80 then (1, first - 40) else (2, first - 80)
  }

  function DecodeOid(content: Bytes): (r: Outcome<Oid>)
    ensures r.Failure? ==> r.error == ProtocolError
  {
    if content == [] then Failure(ProtocolError)
    else
      var (a, b) := SplitHead(content[0]);
      var rest :- DecodeArcs(content, 1);
      Success([a, b] + rest)
  }

  /** The identifiers with an unambiguous encoding: the first two arcs share one octet. */
  predicate InDomain(oid: Oid) {
    && |oid| >= 2
    && 0 <= oid[0] <= 2
    && 0 <= oid[1]
    && (oid[0] < 2 ==> oid[1] < 40)
    && 40 * oid[0] + oid[1] <= 255
    && forall i :: 2 <= i < |oid| ==> oid[i] >= 0
  }

  /** No sub-identifier after the first starts with the padding octet 0x80 (section 8.19.2 of X.690). */
  predicate Unpadded(content: Bytes) {
    forall i :: 1 <= i < |content| && StartsArc(content, i) ==> content[i] != 0x80
  }

  /** A sub-identifier after the first starts where no continuation bit precedes. */
  predicate StartsArc(content: Bytes, i: nat)
    requires 1 <= i < |content|
  {
    i == 1 || content[i - 1] < 0x80
  }

  // The program's loops

  function Digits(v: nat): (d: seq<nat>)
    ensures forall i :: 0 <= i < |d| ==> d[i] < 128
  {
    if v == 0 then [] else [v % 128] + Digits(v / 128)
  }

  lemma {:induction false} DigitsOfHigh(v: nat)
    ensures |High(v)| == |Digits(v)|
    ensures forall i :: 0 <= i < |High(v)| ==> High(v)[i] == 0x80 + Digits(v)[|Digits(v)| - 1 - i]
  {
    if v > 0 {
      DigitsOfHigh(v / 128);
      assert High(v) == High(v / 128) + [0x80 + v % 128];
      assert Digits(v) == [v % 128] + Digits(v / 128);
    }
  }

  lemma Marked(s: Bytes, high: Bytes, rest: seq<nat>, low: nat)
    requires |high| == |rest| && |s| == |rest| + 1 && low < 128
    requires forall i :: 0 <= i < |high| ==> high[i] == 0x80 + rest[|rest| - 1 - i]
    requires forall i :: 0 <= i < |s| ==> s[i] == ([low] + rest)[|s| - 1 - i] + if i < |s| - 1 then 0x80 else 0
    ensures s == high + [low]
  {
  }

  /** Base 128 read off the little-endian digits: the last octet alone has no continuation bit. */
  lemma Base128OfDigits(v: nat, s: Bytes)
    requires v > 0 && |s| == |Digits(v)|
    requires forall i :: 0 <= i < |s| ==> s[i] == Digits(v)[|s| - 1 - i] + if i < |s| - 1 then 0x80 else 0
    ensures s == Base128(v)
  {
    hide High;
    DigitsOfHigh(v / 128);
    Marked(s, High(v / 128), Digits(v / 128), v % 128);
  }

  method SevenBitChunks(value: nat) returns (chunks: seq<nat>)
    ensures chunks == Digits(value)
  {
    chunks := [];
    var rest := value;
    while rest != 0
      invariant chunks + Digits(rest) == Digits(value)
      decreases rest
    {
      assert chunks + ([rest % 128] + Digits(rest / 128)) == chunks + [rest % 128] + Digits(rest / 128);
      chunks := chunks + [rest % 128];
      rest := rest / 128;
    }
    assert chunks + [] == chunks;
  }

  method EncodeBase128(value: nat) returns (encoded: Bytes)
    ensures encoded == Base128(value)
  {
    if value == 0 {
      return [0];
    }
    var chunks := SevenBitChunks(value);
    encoded := [];
    for index := 0 to |chunks|
      invariant |encoded| == index
      invariant forall i :: 0 <= i < index ==>
        encoded[i] == chunks[|chunks| - 1 - i] + if i < |chunks| - 1 then 0x80 else 0
    {
      var chunk := chunks[|chunks| - 1 - index];
      encoded := encoded + [if index < |chunks| - 1 then 0x80 + chunk else chunk];
    }
    Base128OfDigits(value, encoded);
  }

  method EncodeObjectIdentifier(oid: Oid) returns (r: Outcome<Bytes>)
    ensures r == EncodeOid(oid)
  {
    if |oid| < 2 || oid[0] > 2 || (oid[0] < 2 && oid[1] >= 40) {
      return Failure(ProtocolError);
    }
    var head := oid[0] * 40 + oid[1];
    if head < 0 || head > 255 {
      return Failure(ValueError);
    }
    var content: Bytes := [head];
    for i := 2 to |oid|
      invariant EncodeArcs(oid[i..]).Failure? ==> EncodeOid(oid) == EncodeArcs(oid[i..])
      invariant EncodeArcs(oid[i..]).Success? ==> EncodeOid(oid) == Success(content + EncodeArcs(oid[i..]).value)
    {
      assert oid[i..][1..] == oid[i + 1..];
      if oid[i] < 0 {
        return Failure(ProtocolError);
      }
      var chunk := EncodeBase128(oid[i]);
      ghost var rest := EncodeArcs(oid[i + 1..]);
      assert rest.Success? ==> content + (chunk + rest.value) == content + chunk + rest.value;
      content := content + chunk;
    }
    assert EncodeArcs(oid[|oid|..]) == Success([]) && content + [] == content;
    return Success(content);
  }

  method DecodeSubIdentifier(content: Bytes, start: nat) returns (r: Outcome<(nat, nat)>)
    ensures r == DecodeBase128(content, start, 0)
  {
    var value: nat, offset: nat := 0, start;
    while true
      invariant DecodeBase128(content, start, 0) == DecodeBase128(content, offset, value)
      decreases |content| - offset
    {
      if offset >= |content| {
        return Failure(ProtocolError);
      }
      var byte := content[offset];
      offset := offset + 1;
      value := 128 * value + byte % 128;
      if byte < 0x80 {
        return Success((value, offset));
      }
    }
  }

  method DecodeObjectIdentifier(content: Bytes) returns (r: Outcome<Oid>)
    ensures r == DecodeOid(content)
  {
    if content == [] {
      return Failure(ProtocolError);
    }
    var (a, b) := SplitHead(content[0]);
    var arcs, offset := [a, b], 1;
    while offset < |content|
      invariant 1 <= offset <= |content|
      invariant DecodeArcs(content, offset).Failure? ==> DecodeOid(content) == DecodeArcs(content, offset)
      invariant DecodeArcs(content, offset).Success? ==>
                  DecodeOid(content) == Success(arcs + DecodeArcs(content, offset).value)
      decreases |content| - offset
    {
      var sub := DecodeSubIdentifier(content, offset);
      if sub.Failure? {
        return Failure(sub.error);
      }
      ghost var rest := DecodeArcs(content, sub.value.1);
      assert rest.Success? ==> arcs + ([sub.value.0] + rest.value) == arcs + [sub.value.0] + rest.value;
      arcs := arcs + [sub.value.0];
      offset := sub.value.1;
    }
    assert arcs + [] == arcs;
    return Success(arcs);
  }

  // Round trips

  lemma {:induction false} HighAt(content: Bytes, offset: nat, v: nat)
    requires At(content, offset, High(v))
    ensures DecodeBase128(content, offset, 0) == DecodeBase128(content, offset + |High(v)|, v)
  {
    if v > 0 {
      var last := [0x80 + v % 128];
      AtSplit(content, offset, High(v / 128), last);
      HighAt(content, offset, v / 128);
      var p := offset + |High(v / 128)|;
      assert content[p] == content[p..p + 1][0] == last[0];
      assert High(v) == High(v / 128) + last;
      assert DecodeBase128(content, p, v / 128) == DecodeBase128(content, p + 1, v);
    }
  }

  lemma Base128At(content: Bytes, offset: nat, v: nat)
    requires At(content, offset, Base128(v))
    ensures DecodeBase128(content, offset, 0) == Success((v, offset + |Base128(v)|))
  {
    AtSplit(content, offset, High(v / 128), [v % 128]);
    HighAt(content, offset, v / 128);
    var p := offset + |High(v / 128)|;
    assert content[p] == content[p..p + 1][0] == v % 128;
  }

  lemma {:induction false} ArcsAt(content: Bytes, offset: nat, arcs: seq<int>)
    requires EncodeArcs(arcs).Success?
    requires At(content, offset, EncodeArcs(arcs).value)
    requires offset + |EncodeArcs(arcs).value| == |content|
    ensures DecodeArcs(content, offset) == Success(arcs)
    decreases |arcs|
  {
    hide At, Base128, DecodeBase128;
    if arcs != [] {
      var rest := EncodeArcs(arcs[1..]).value;
      AtSplit(content, offset, Base128(arcs[0]), rest);
      Base128At(content, offset, arcs[0]);
      ArcsAt(content, offset + |Base128(arcs[0])|, arcs[1..]);
      assert arcs == [arcs[0]] + arcs[1..];
    }
  }

  lemma {:induction false} ArcsEncodable(arcs: seq<int>)
    ensures EncodeArcs(arcs).Success? <==> forall i :: 0 <= i < |arcs| ==> arcs[i] >= 0
    ensures EncodeArcs(arcs).Failure? ==> EncodeArcs(arcs).error == ProtocolError
  {
    if arcs != [] {
      ArcsEncodable(arcs[1..]);
      assert forall i :: 0 < i < |arcs| ==> arcs[i] == arcs[1..][i - 1];
    }
  }

  lemma {:induction false} ArcsNonNegative(content: Bytes, offset: nat)
    requires DecodeArcs(content, offset).Success?
    ensures forall i :: 0 <= i < |DecodeArcs(content, offset).value| ==> DecodeArcs(content, offset).value[i] >= 0
    decreases |content| - offset
  {
    if offset < |content| {
      ArcsNonNegative(content, DecodeBase128(content, offset, 0).value.1);
    }
  }

  lemma DecodedInDomain(content: Bytes)
    requires DecodeOid(content).Success?
    ensures InDomain(DecodeOid(content).value)
  {
    ArcsNonNegative(content, 1);
  }

  lemma DomainEncodes(oid: Oid)
    requires InDomain(oid)
    ensures EncodeOid(oid).Success?
    ensures DecodeOid(EncodeOid(oid).value) == Success(oid)
  {
    ArcsEncodable(oid[2..]);
    var content := EncodeOid(oid).value;
    var rest := EncodeArcs(oid[2..]).value;
    assert content[1..1 + |rest|] == rest;
    ArcsAt(content, 1, oid[2..]);
    assert oid == [oid[0], oid[1]] + oid[2..];
  }

  /** Encoding then decoding is the identity on the domain and nowhere else: outside it the encoder
      refuses, or, for a negative second arc such as 1.-5, writes another identifier. */
  lemma OidRoundTripExactly(oid: Oid)
    ensures EncodeOid(oid).Success? && DecodeOid(EncodeOid(oid).value) == Success(oid) <==> InDomain(oid)
  {
    if InDomain(oid) {
      DomainEncodes(oid);
    } else if EncodeOid(oid).Success? && DecodeOid(EncodeOid(oid).value).Success? {
      DecodedInDomain(EncodeOid(oid).value);
    }
  }

  lemma NegativeArcEscapes()
    ensures EncodeOid([1, -5]).Success? && DecodeOid(EncodeOid([1, -5]).value) == Success([0, 35])
  {
    var oid: Oid := [1, -5];
    assert oid[2..] == [];
    var content: Bytes := [35];
    assert content + [] == content;
    assert EncodeOid(oid) == Success(content);
    assert DecodeArcs([35], 1) == Success([]);
    assert [0, 35] + [] == [0, 35];
  }

  // Minimal sub-identifiers

  lemma {:induction false} HighBits(v: nat)
    ensures forall i :: 0 <= i < |High(v)| ==> High(v)[i] >= 0x80
    ensures v > 0 ==> High(v) != [] && High(v)[0] > 0x80
  {
    if v > 0 {
      HighBits(v / 128);
    }
  }

  lemma {:induction false} ArcsUnpadded(arcs: seq<int>, first: Octet)
    requires EncodeArcs(arcs).Success?
    ensures Unpadded([first] + EncodeArcs(arcs).value)
    ensures EncodeArcs(arcs).value != [] ==> EncodeArcs(arcs).value[0] != 0x80
  {
    if arcs != [] {
      var head := Base128(arcs[0]);
      var rest := EncodeArcs(arcs[1..]).value;
      HighBits(arcs[0] / 128);
      ArcsUnpadded(arcs[1..], arcs[0] % 128);
      var content := [first] + (head + rest);
      forall i | 1 <= i < |content| && StartsArc(content, i)
        ensures content[i] != 0x80
      {
        if i <= |head| {
          assert content[i] == head[i - 1];
        } else {
          var tail: Bytes := [arcs[0] % 128] + rest;
          assert content[i] == tail[i - |head|];
          assert i - |head| > 1 ==> content[i - 1] == tail[i - |head| - 1];
          assert StartsArc(tail, i - |head|);
        }
      }
    }
  }

  /** An accepted sub-identifier that is not padded is exactly what the encoder writes. */
  lemma {:induction false} UnpaddedBase128(content: Bytes, start: nat, offset: nat, value: nat)
    requires start <= offset <= |content|
    requires content[start..offset] == High(value)
    requires value == 0 ==> offset < |content| && content[offset] != 0x80
    requires DecodeBase128(content, offset, value).Success?
    ensures var (v, end) := DecodeBase128(content, offset, value).value;
            content[start..end] == Base128(v) && content[end - 1] < 0x80
    decreases |content| - offset
  {
    var byte := content[offset];
    var next := 128 * value + byte % 128;
    assert content[start..offset + 1] == content[start..offset] + [byte];
    assert next / 128 == value && next % 128 == byte % 128;
    if byte >= 0x80 {
      assert High(next) == High(value) + [byte];
      UnpaddedBase128(content, start, offset + 1, next);
    }
  }

  lemma {:induction false} UnpaddedArcs(content: Bytes, offset: nat)
    requires 1 <= offset <= |content|
    requires Unpadded(content)
    requires offset == 1 || content[offset - 1] < 0x80
    requires DecodeArcs(content, offset).Success?
    ensures EncodeArcs(DecodeArcs(content, offset).value) == Success(content[offset..])
    decreases |content| - offset
  {
    hide Base128, DecodeBase128;
    if offset < |content| {
      var (arc, next) := DecodeBase128(content, offset, 0).value;
      assert StartsArc(content, offset);
      UnpaddedBase128(content, offset, offset, 0);
      UnpaddedArcs(content, next);
      var arcs := DecodeArcs(content, offset).value;
      var rest := DecodeArcs(content, next).value;
      assert arcs == [arc] + rest && arcs[1..] == rest;
      assert content[offset..] == content[offset..next] + content[next..];
    } else {
      assert content[offset..] == [];
    }
  }

  /** Among the contents the decoder accepts, the encoder's own outputs are exactly the unpadded ones. */
  lemma CanonicalOidExactly(content: Bytes)
    requires DecodeOid(content).Success?
    ensures EncodeOid(DecodeOid(content).value) == Success(content) <==> Unpadded(content)
  {
    var oid := DecodeOid(content).value;
    DecodedInDomain(content);
    DomainEncodes(oid);
    var arcs := DecodeArcs(content, 1).value;
    assert oid[2..] == arcs;
    ArcsUnpadded(arcs, content[0]);
    if Unpadded(content) {
      UnpaddedArcs(content, 1);
      assert content == [content[0]] + content[1..];
    }
  }

  lemma PaddedIsAccepted()
    ensures DecodeOid([0x2B, 0x80, 0x01]) == Success([1, 3, 1])
    ensures !Unpadded([0x2B, 0x80, 0x01])
  {
    var content: Bytes := [0x2B, 0x80, 0x01];
    assert DecodeBase128(content, 2, 0) == Success((1, 3));
    assert DecodeBase128(content, 1, 0) == Success((1, 3));
    assert DecodeArcs(content, 3) == Success([]);
    assert [1, 3] + ([1] + []) == [1, 3, 1];
    assert StartsArc(content, 1) && content[1] == 0x80;
  }

  // What the wire makes of an identifier

  /** The identifiers the encoder accepts, some of which it changes. */
  predicate EncodableOid(oid: Oid) {
    && |oid| >= 2
    && oid[0] <= 2
    && (oid[0] < 2 ==> oid[1] < 40)
    && 0 <= 40 * oid[0] + oid[1] <= 255
    && forall i :: 2 <= i < |oid| ==> oid[i] >= 0
  }

  /** The identifier that is read when `oid` was written: its head octet split anew. */
  function NormalOid(oid: Oid): Oid {
    if EncodableOid(oid) then
      var (a, b) := SplitHead(40 * oid[0] + oid[1]);
      [a, b] + oid[2..]
    else oid
  }

  /** The encoder accepts exactly the encodable identifiers. It writes an identifier and its normal
      form alike, the normal form survives, and only identifiers in the domain are their own. */
  lemma NormalOidExactly(oid: Oid)
    ensures EncodeOid(oid).Success? <==> EncodableOid(oid)
    ensures EncodeOid(oid).Failure? ==>
              EncodeOid(oid).error
              == if |oid| >= 2 && oid[0] <= 2 && (oid[0] < 2 ==> oid[1] < 40) && !(0 <= 40 * oid[0] + oid[1] <= 255)
                 then ValueError else ProtocolError
    ensures EncodeOid(NormalOid(oid)) == EncodeOid(oid)
    ensures EncodableOid(oid) ==> InDomain(NormalOid(oid))
    ensures EncodableOid(oid) ==> DecodeOid(EncodeOid(oid).value) == Success(NormalOid(oid))
    ensures EncodableOid(oid) ==> (NormalOid(oid) == oid <==> InDomain(oid))
  {
    hide EncodeArcs, DecodeOid;
    if |oid| >= 2 {
      ArcsEncodable(oid[2..]);
      assert forall i :: 2 <= i < |oid| ==> oid[i] == oid[2..][i - 2];
    }
    if EncodableOid(oid) {
      var normal := NormalOid(oid);
      assert normal[2..] == oid[2..];
      DomainEncodes(normal);
    }
  }

  /** Without negative arcs, being encodable and surviving are the same. */
  lemma NaturalOidSurvives(oid: Oid)
    requires forall i :: 0 <= i < |oid| ==> oid[i] >= 0
    ensures EncodableOid(oid) <==> InDomain(oid)
    ensures NormalOid(oid) == oid
  {
    NormalOidExactly(oid);
  }

  // What a sub-identifier stands for

  /** The number of the octets' lower seven bits, most significant first. */
  function Value128(s: Bytes): nat {
    if s == [] then 0 else 128 * Value128(s[..|s| - 1]) + s[|s| - 1] % 128
  }

  /** A sub-identifier is read up to the first octet without continuation bit, padded or not, and stands for the
      number of its lower bits; without such an octet it is refused. */
  lemma {:induction false} SubIdentifierExactly(content: Bytes, start: nat, offset: nat, value: nat)
    requires start <= offset <= |content|
    requires value == Value128(content[start..offset])
    ensures var r := DecodeBase128(content, offset, value);
            && (r.Failure? <==> forall i :: offset <= i < |content| ==> content[i] >= 0x80)
            && (r.Success? ==>
                  && offset < r.value.1 <= |content|
                  && content[r.value.1 - 1] < 0x80
                  && (forall i :: offset <= i < r.value.1 - 1 ==> content[i] >= 0x80)
                  && r.value.0 == Value128(content[start..r.value.1]))
    decreases |content| - offset
  {
    hide Value128;
    if offset < |content| {
      var byte := content[offset];
      NextOctet(content, start, offset);
      if byte >= 0x80 {
        SubIdentifierExactly(content, start, offset + 1, 128 * value + byte % 128);
      }
    }
  }

  lemma NextOctet(content: Bytes, start: nat, offset: nat)
    requires start <= offset < |content|
    ensures Value128(content[start..offset + 1]) == 128 * Value128(content[start..offset]) + content[offset] % 128
  {
    var longer := content[start..offset + 1];
    assert longer[..|longer| - 1] == content[start..offset];
  }

  /** The head octet stands for the first two arcs, as 40 times the first plus the second. */
  lemma HeadExactly(content: Bytes)
    requires DecodeOid(content).Success?
    ensures var oid := DecodeOid(content).value;
            && content != [] && |oid| >= 2
            && 0 <= oid[0] <= 2 && 0 <= oid[1] && (oid[0] < 2 ==> oid[1] < 40)
            && content[0] == 40 * oid[0] + oid[1]
  {
    hide DecodeArcs;
  }
}
