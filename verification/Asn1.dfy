/** SNMP values and their codec: trishul_snmp/wire/asn1.py. */
module Asn1 {
  import opened Wrappers
  import opened Octets
  import opened Ber
  import opened Integers
  import opened Oids
  import Text

  datatype Value =
    | IntegerValue(number: int)
    | OctetStringValue(octets: Bytes)
    | NullValue
    | ObjectIdentifierValue(oid: Oid)
    | IpAddressValue(text: string)
    | Counter32Value(count: int)
    | Gauge32Value(gauge: int)
    | TimeTicksValue(ticks: int)
    | OpaqueValue(opaqueOctets: Bytes)
    | Counter64Value(wide: int)
    | NoSuchObjectValue
    | NoSuchInstanceValue
    | EndOfMibViewValue

  const INTEGER: Octet := 0x02
  const OCTET_STRING: Octet := 0x04
  const NULL: Octet := 0x05
  const OBJECT_IDENTIFIER: Octet := 0x06
  const SEQUENCE: Octet := 0x30
  const IP_ADDRESS: Octet := 0x40
  const COUNTER32: Octet := 0x41
  const GAUGE32: Octet := 0x42
  const TIMETICKS: Octet := 0x43
  const OPAQUE: Octet := 0x44
  const COUNTER64: Octet := 0x46
  const NO_SUCH_OBJECT: Octet := 0x80
  const NO_SUCH_INSTANCE: Octet := 0x81
  const END_OF_MIB_VIEW: Octet := 0x82

  // IpAddress text

  function EncodeIpAddress(text: string): Outcome<Bytes> {
    var parts := Text.Split(text, '.');
    if |parts| != 4 then Failure(ProtocolError)
    else if !Text.AllNumerals(parts) then Failure(ProtocolError)
    else
      var octets := Text.IntAll(parts);
      if octets[0] > 255 || octets[1] > 255 || octets[2] > 255 || octets[3] > 255 then Failure(ProtocolError)
      else Success([octets[0], octets[1], octets[2], octets[3]])
  }

  function DecodeIpAddress(content: Bytes): Outcome<string> {
    if |content| != 4 then Failure(ProtocolError)
    else Success(Text.Join(Text.StrAll([content[0], content[1], content[2], content[3]]), '.'))
  }

  /** Dotted decimal with four octets and no superfluous zeros. */
  predicate CanonicalIp(text: string) {
    var parts := Text.Split(text, '.');
    |parts| == 4 && forall i :: 0 <= i < 4 ==> Text.Canonical(parts[i]) && Text.Int(parts[i]) <= 255
  }

  lemma DecodedIpIsCanonical(content: Bytes)
    requires |content| == 4
    ensures CanonicalIp(DecodeIpAddress(content).value)
    ensures EncodeIpAddress(DecodeIpAddress(content).value) == Success(content)
  {
    var ns: seq<nat> := [content[0], content[1], content[2], content[3]];
    Text.IntAllOfStrAll(ns);
    Text.SplitOfJoin(Text.StrAll(ns), '.');
    assert Text.IntAll(Text.StrAll(ns)) == ns;
    assert content == [content[0], content[1], content[2], content[3]];
    forall i | 0 <= i < 4
      ensures Text.Canonical(Text.StrAll(ns)[i])
    {
      Text.IntOfStr(ns[i]);
      Text.StrOfInt(Text.Str(ns[i]));
    }
  }

  lemma CanonicalIpEncodes(text: string)
    requires CanonicalIp(text)
    ensures EncodeIpAddress(text).Success?
    ensures DecodeIpAddress(EncodeIpAddress(text).value) == Success(text)
  {
    var parts := Text.Split(text, '.');
    var octets := EncodeIpAddress(text).value;
    var again := Text.StrAll([octets[0], octets[1], octets[2], octets[3]]);
    forall i | 0 <= i < 4
      ensures again[i] == parts[i]
    {
      Text.StrOfInt(parts[i]);
    }
    assert again == parts;
    Text.JoinOfSplit(text, '.');
  }

  /** Address text survives the wire exactly when it is canonical. */
  lemma IpRoundTripExactly(text: string)
    ensures EncodeIpAddress(text).Success? && DecodeIpAddress(EncodeIpAddress(text).value) == Success(text)
       <==> CanonicalIp(text)
  {
    if CanonicalIp(text) {
      CanonicalIpEncodes(text);
    } else if EncodeIpAddress(text).Success? {
      DecodedIpIsCanonical(EncodeIpAddress(text).value);
    }
  }

  // Values

  function Tag(v: Value): Octet {
    match v
    case IntegerValue(_) => INTEGER
    case OctetStringValue(_) => OCTET_STRING
    case NullValue => NULL
    case ObjectIdentifierValue(_) => OBJECT_IDENTIFIER
    case IpAddressValue(_) => IP_ADDRESS
    case Counter32Value(_) => COUNTER32
    case Gauge32Value(_) => GAUGE32
    case TimeTicksValue(_) => TIMETICKS
    case OpaqueValue(_) => OPAQUE
    case Counter64Value(_) => COUNTER64
    case NoSuchObjectValue => NO_SUCH_OBJECT
    case NoSuchInstanceValue => NO_SUCH_INSTANCE
    case EndOfMibViewValue => END_OF_MIB_VIEW
  }

  function EncodeContent(v: Value): Outcome<Bytes> {
    match v
    case IntegerValue(n) => Success(EncodeSigned(n))
    case OctetStringValue(octets) => Success(octets)
    case ObjectIdentifierValue(oid) => EncodeOid(oid)
    case IpAddressValue(text) => EncodeIpAddress(text)
    case Counter32Value(n) => EncodeUnsigned(n)
    case Gauge32Value(n) => EncodeUnsigned(n)
    case TimeTicksValue(n) => EncodeUnsigned(n)
    case OpaqueValue(octets) => Success(octets)
    case Counter64Value(n) => EncodeUnsigned(n)
    case NullValue => Success([])
    case NoSuchObjectValue => Success([])
    case NoSuchInstanceValue => Success([])
    case EndOfMibViewValue => Success([])
  }

  function EncodeValue(v: Value): Outcome<Bytes> {
    var content :- EncodeContent(v);
    Success(EncodeTlv(Tag(v), content))
  }

  function EncodeInteger(n: int): Bytes {
    EncodeTlv(INTEGER, EncodeSigned(n))
  }

  function Empty(content: Bytes, v: Value): Outcome<Value> {
    if content != [] then Failure(ProtocolError) else Success(v)
  }

  /** Interprets a tag and its content, after the element around them has been read. */
  function DecodeContent(tag: Octet, content: Bytes): (r: Outcome<Value>)
    ensures r.Failure? ==> r.error == ProtocolError
  {
    if tag == INTEGER then var n :- DecodeSigned(content); Success(IntegerValue(n))
    else if tag == OCTET_STRING then Success(OctetStringValue(content))
    else if tag == NULL then Empty(content, NullValue)
    else if tag == OBJECT_IDENTIFIER then var oid :- DecodeOid(content); Success(ObjectIdentifierValue(oid))
    else if tag == IP_ADDRESS then var text :- DecodeIpAddress(content); Success(IpAddressValue(text))
    else if tag == COUNTER32 then var n :- DecodeUnsigned(content); Success(Counter32Value(n))
    else if tag == GAUGE32 then var n :- DecodeUnsigned(content); Success(Gauge32Value(n))
    else if tag == TIMETICKS then var n :- DecodeUnsigned(content); Success(TimeTicksValue(n))
    else if tag == OPAQUE then Success(OpaqueValue(content))
    else if tag == COUNTER64 then var n :- DecodeUnsigned(content); Success(Counter64Value(n))
    else if tag == NO_SUCH_OBJECT then Empty(content, NoSuchObjectValue)
    else if tag == NO_SUCH_INSTANCE then Empty(content, NoSuchInstanceValue)
    else if tag == END_OF_MIB_VIEW then Empty(content, EndOfMibViewValue)
    else Failure(ProtocolError)
  }

  function DecodeValue(data: Bytes): (r: Outcome<Value>)
    ensures r.Failure? ==> r.error == ProtocolError
  {
    var t :- DecodeTlv(data, 0);
    if t.end != |data| then Failure(ProtocolError) else DecodeContent(t.tag, t.content)
  }

  /** The values the wire can carry without loss. */
  predicate Representable(v: Value) {
    match v
    case ObjectIdentifierValue(oid) => InDomain(oid)
    case IpAddressValue(text) => CanonicalIp(text)
    case Counter32Value(n) => n >= 0
    case Gauge32Value(n) => n >= 0
    case TimeTicksValue(n) => n >= 0
    case Counter64Value(n) => n >= 0
    case _ => true
  }

  /** A content survives encoding and decoding exactly when its value is representable. */
  lemma ContentRoundTripExactly(v: Value)
    ensures EncodeContent(v).Success? && DecodeContent(Tag(v), EncodeContent(v).value) == Success(v)
       <==> Representable(v)
  {
    match v
    case IntegerValue(n) => SignedRoundTrip(n);
    case ObjectIdentifierValue(oid) => OidRoundTripExactly(oid);
    case IpAddressValue(text) => IpRoundTripExactly(text);
    case Counter32Value(n) => UnsignedRoundTrip(n);
    case Gauge32Value(n) => UnsignedRoundTrip(n);
    case TimeTicksValue(n) => UnsignedRoundTrip(n);
    case Counter64Value(n) => UnsignedRoundTrip(n);
    case _ =>
  }

  lemma DecodedIsRepresentable(tag: Octet, content: Bytes)
    requires DecodeContent(tag, content).Success?
    ensures Representable(DecodeContent(tag, content).value)
    ensures Tag(DecodeContent(tag, content).value) == tag
  {
    if tag == OBJECT_IDENTIFIER {
      DecodedInDomain(content);
    } else if tag == IP_ADDRESS {
      DecodedIpIsCanonical(content);
    }
  }

  lemma ValueRoundTripExactly(v: Value)
    requires EncodeValue(v).Success? ==> Fits(|EncodeValue(v).value|)
    ensures EncodeValue(v).Success? && DecodeValue(EncodeValue(v).value) == Success(v) <==> Representable(v)
  {
    ContentRoundTripExactly(v);
    if EncodeValue(v).Success? {
      var content := EncodeContent(v).value;
      FitsMonotone(|content|, |EncodeValue(v).value|);
      WholeTlv(Tag(v), content);
    }
  }

  /** A value read inside a list is decoded from a rewritten element; the rewriting is invisible. */
  lemma DecodeValueRewritten(data: Bytes, offset: nat)
    requires DecodeTlv(data, offset).Success?
    ensures var t := DecodeTlv(data, offset).value;
            DecodeValue(EncodeTlv(t.tag, t.content)) == DecodeContent(t.tag, t.content)
  {
    RewrittenTlv(data, offset);
  }

  // What the wire makes of a value

  /** The address text that is read when `text` was written. */
  function NormalIp(text: string): string {
    var parts := Text.Split(text, '.');
    if Text.AllNumerals(parts) then Text.Join(Text.StrAll(Text.IntAll(parts)), '.') else text
  }

  /** The value that is read when `v` was written. */
  function NormalValue(v: Value): (n: Value)
    ensures Tag(n) == Tag(v)
  {
    match v
    case ObjectIdentifierValue(oid) => ObjectIdentifierValue(NormalOid(oid))
    case IpAddressValue(text) => IpAddressValue(NormalIp(text))
    case _ => v
  }

  /** Four numerals of at most 255, in any spelling. */
  predicate EncodableIp(text: string) {
    var parts := Text.Split(text, '.');
    |parts| == 4 && Text.AllNumerals(parts) && forall i :: 0 <= i < 4 ==> Text.Int(parts[i]) <= 255
  }

  predicate EncodableValue(v: Value) {
    match v
    case ObjectIdentifierValue(oid) => EncodableOid(oid)
    case IpAddressValue(text) => EncodableIp(text)
    case Counter32Value(n) => n >= 0
    case Gauge32Value(n) => n >= 0
    case TimeTicksValue(n) => n >= 0
    case Counter64Value(n) => n >= 0
    case _ => true
  }

  lemma NormalIpExactly(text: string)
    ensures EncodeIpAddress(text).Success? <==> EncodableIp(text)
    ensures EncodableIp(text) ==> DecodeIpAddress(EncodeIpAddress(text).value) == Success(NormalIp(text))
    ensures EncodableIp(text) ==> EncodeIpAddress(text).value == Text.IntAll(Text.Split(text, '.'))
    ensures EncodableIp(text) ==> CanonicalIp(NormalIp(text))
    ensures EncodableIp(text) ==> EncodeIpAddress(NormalIp(text)) == EncodeIpAddress(text)
    ensures EncodableIp(text) ==> (NormalIp(text) == text <==> CanonicalIp(text))
  {
    if EncodableIp(text) {
      var octets := Text.IntAll(Text.Split(text, '.'));
      assert octets == [octets[0], octets[1], octets[2], octets[3]];
      DecodedIpIsCanonical(EncodeIpAddress(text).value);
      IpRoundTripExactly(text);
    }
  }

  /** The encoder accepts exactly the encodable values. It writes a value and its normal form alike, the
      normal form is what is read, and only representable values are their own. */
  lemma NormalValueExactly(v: Value)
    ensures EncodeContent(v).Success? <==> EncodableValue(v)
    ensures EncodableValue(v) ==> EncodeContent(NormalValue(v)) == EncodeContent(v)
    ensures EncodableValue(v) ==> DecodeContent(Tag(v), EncodeContent(v).value) == Success(NormalValue(v))
    ensures EncodableValue(v) ==> Representable(NormalValue(v))
    ensures EncodableValue(v) ==> (NormalValue(v) == v <==> Representable(v))
  {
    hide EncodeOid, DecodeOid, NormalOid, EncodableOid, EncodeIpAddress, DecodeIpAddress, NormalIp, EncodableIp,
      CanonicalIp, InDomain, DecodeContent;
    if v.ObjectIdentifierValue? {
      NormalOidExactly(v.oid);
    } else if v.IpAddressValue? {
      NormalIpExactly(v.text);
    }
    if EncodableValue(v) {
      ContentRoundTripExactly(NormalValue(v));
    }
  }

  lemma DottedQuad(a: string, b: string, c: string, d: string)
    ensures Text.Join([a, b, c, d], '.') == a + (['.'] + (b + (['.'] + (c + (['.'] + d)))))
  {
    assert [a, b, c, d][1..] == [b, c, d] && [b, c, d][1..] == [c, d] && [c, d][1..] == [d];
    assert Text.Join([d], '.') == d;
    assert Text.Join([c, d], '.') == c + ['.'] + d;
    assert Text.Join([b, c, d], '.') == b + ['.'] + Text.Join([c, d], '.');
  }

  lemma LeadingZero()
    ensures Text.IsNumeral("010") && Text.Int("010") == 10 && Text.Int("0") == 0 && Text.Int("1") == 1
    ensures Text.Str(10) == "10" && Text.Str(0) == "0" && Text.Str(1) == "1"
  {
    assert "010"[..2] == "01" && "01"[..1] == "0";
    assert Text.Int("01") == 10 * Text.Int("0") + 1;
    assert Text.Str(10) == Text.Str(1) + Text.Str(0);
  }

  /** Address text that the encoder accepts, and that comes back spelled otherwise. */
  lemma ZerosAreDropped()
    ensures EncodeIpAddress("010.0.0.1") == Success([10, 0, 0, 1])
    ensures NormalIp("010.0.0.1") == "10.0.0.1"
  {
    hide Text.Join, Text.Split, Text.Int, Text.Str, Text.IntAll, Text.StrAll;
    LeadingZero();
    var parts, again := ["010", "0", "0", "1"], ["10", "0", "0", "1"];
    DottedQuad("010", "0", "0", "1");
    DottedQuad("10", "0", "0", "1");
    assert Text.Join(parts, '.') == "010.0.0.1" && Text.Join(again, '.') == "10.0.0.1";
    Text.SplitOfJoin(parts, '.');
    assert Text.AllNumerals(parts);
    assert Text.IntAll(parts) == [10, 0, 0, 1];
    assert Text.StrAll(Text.IntAll(parts)) == again;
  }

  /** As a value: it is encodable, but not representable. */
  lemma ZerosAreLost()
    ensures EncodableValue(IpAddressValue("010.0.0.1")) && !Representable(IpAddressValue("010.0.0.1"))
    ensures NormalValue(IpAddressValue("010.0.0.1")) == IpAddressValue("10.0.0.1")
  {
    hide NormalIp, EncodableIp, CanonicalIp, EncodeIpAddress, Text.Split, Text.IntAll;
    ZerosAreDropped();
    NormalIpExactly("010.0.0.1");
    assert "010.0.0.1"[1] != "10.0.0.1"[1];
  }

  /** An identifier that is encodable, but not representable. */
  lemma ArcIsLost()
    ensures EncodableValue(ObjectIdentifierValue([1, -5])) && !Representable(ObjectIdentifierValue([1, -5]))
    ensures NormalValue(ObjectIdentifierValue([1, -5])) == ObjectIdentifierValue([0, 35])
  {
    var oid: Oid := [1, -5];
    assert oid[2..] == [];
    assert [0, 35] + [] == [0, 35];
  }

  // What stands on the wire

  /** The identifier octets of the SNMP value kinds: X.690 and section 8 of RFC 3416. */
  predicate Identifies(tag: Octet, v: Value) {
    match v
    case IntegerValue(_) => tag == 0x02
    case OctetStringValue(_) => tag == 0x04
    case NullValue => tag == 0x05
    case ObjectIdentifierValue(_) => tag == 0x06
    case IpAddressValue(_) => tag == 0x40
    case Counter32Value(_) => tag == 0x41
    case Gauge32Value(_) => tag == 0x42
    case TimeTicksValue(_) => tag == 0x43
    case OpaqueValue(_) => tag == 0x44
    case Counter64Value(_) => tag == 0x46
    case NoSuchObjectValue => tag == 0x80
    case NoSuchInstanceValue => tag == 0x81
    case EndOfMibViewValue => tag == 0x82
  }

  /** What the content of each kind stands for. */
  predicate Denotes(content: Bytes, v: Value) {
    match v
    case IntegerValue(n) => content != [] && SignedValue(content) == n
    case OctetStringValue(octets) => octets == content
    case ObjectIdentifierValue(oid) => DecodeOid(content) == Success(oid)
    case IpAddressValue(text) =>
      |content| == 4 && text == Text.Join(Text.StrAll([content[0], content[1], content[2], content[3]]), '.')
    case Counter32Value(n) => content != [] && FromBytes(content) == n
    case Gauge32Value(n) => content != [] && FromBytes(content) == n
    case TimeTicksValue(n) => content != [] && FromBytes(content) == n
    case OpaqueValue(octets) => octets == content
    case Counter64Value(n) => content != [] && FromBytes(content) == n
    case NullValue => content == []
    case NoSuchObjectValue => content == []
    case NoSuchInstanceValue => content == []
    case EndOfMibViewValue => content == []
  }

  /** A tag and content are read as a value exactly if the tag identifies its kind and the content denotes it. */
  lemma ContentExactly(tag: Octet, content: Bytes, v: Value)
    ensures DecodeContent(tag, content) == Success(v) <==> Identifies(tag, v) && Denotes(content, v)
  {
    hide DecodeOid, SignedValue, FromBytes, Text.Join, Text.StrAll;
  }

  /** What is written starts with the octet of the kind, and its content denotes the value, a number in the
      shortest way. */
  lemma WrittenExactly(v: Value)
    requires EncodeValue(v).Success?
    ensures Identifies(EncodeValue(v).value[0], v)
    ensures EncodeValue(v).value == EncodeTlv(EncodeValue(v).value[0], EncodeContent(v).value)
    ensures Denotes(EncodeContent(v).value, NormalValue(v))
    ensures v.IntegerValue? || v.Counter32Value? || v.Gauge32Value? || v.TimeTicksValue? || v.Counter64Value? ==>
              !Redundant(EncodeContent(v).value)
  {
    hide EncodeOid, EncodeIpAddress, EncodeUnsigned, EncodeSigned, Redundant, LengthOctets, DecodeContent, Denotes,
      EncodableValue, NormalValue;
    NormalValueExactly(v);
    ContentExactly(Tag(v), EncodeContent(v).value, NormalValue(v));
    match v
    case IntegerValue(n) => SignedOnTheWire(n);
    case Counter32Value(n) => UnsignedOnTheWire(n);
    case Gauge32Value(n) => UnsignedOnTheWire(n);
    case TimeTicksValue(n) => UnsignedOnTheWire(n);
    case Counter64Value(n) => UnsignedOnTheWire(n);
    case _ =>
  }

  lemma UnsignedOnTheWire(n: int)
    ensures EncodeUnsigned(n).Success? ==> !Redundant(EncodeUnsigned(n).value)
  {
    hide EncodeSigned, SignedValue;
    UnsignedRoundTrip(n);
    if n >= 0 {
      UnsignedIsSigned(n);
      SignedOnTheWire(n);
    }
  }

  lemma SignedOnTheWire(n: int)
    ensures EncodeSigned(n) != [] && SignedValue(EncodeSigned(n)) == n && !Redundant(EncodeSigned(n))
  {
    hide EncodeSigned, SignedValue;
    SignedRoundTrip(n);
  }
}
