/** Varbinds and PDUs: trishul_snmp/wire/pdu.py. */
module Pdus {
  import opened Wrappers
  import opened Octets
  import opened Ber
  import opened Integers
  import opened Oids
  import opened Asn1

  datatype PduType = GetRequest | GetNextRequest | Response | SetRequest | GetBulkRequest | InformRequest | SnmpV2Trap

  datatype RawVarBind = RawVarBind(oid: Oid, value: Value)

  /** What every PDU body carries, REPORT included. */
  datatype Body = Body(requestId: int, errorStatus: int, errorIndex: int, varbinds: seq<RawVarBind>)

  datatype Pdu = Pdu(pduType: PduType, body: Body)

  function TypeTag(t: PduType): Octet {
    match t
    case GetRequest => 0xA0
    case GetNextRequest => 0xA1
    case Response => 0xA2
    case SetRequest => 0xA3
    case GetBulkRequest => 0xA5
    case InformRequest => 0xA6
    case SnmpV2Trap => 0xA7
  }

  function TypeOfTag(tag: Octet): (t: Option<PduType>)
    ensures t.Some? ==> TypeTag(t.value) == tag
    ensures t.None? ==> forall p: PduType :: TypeTag(p) != tag
  {
    if tag == 0xA0 then Some(GetRequest)
    else if tag == 0xA1 then Some(GetNextRequest)
    else if tag == 0xA2 then Some(Response)
    else if tag == 0xA3 then Some(SetRequest)
    else if tag == 0xA5 then Some(GetBulkRequest)
    else if tag == 0xA6 then Some(InformRequest)
    else if tag == 0xA7 then Some(SnmpV2Trap)
    else None
  }

  // Encoding

  function VarbindContent(vb: RawVarBind): Outcome<Bytes> {
    var oid :- EncodeValue(ObjectIdentifierValue(vb.oid));
    var value :- EncodeValue(vb.value);
    Success(oid + value)
  }

  function EncodeVarbinds(vbs: seq<RawVarBind>): Outcome<Bytes> {
    if vbs == [] then Success([])
    else
      var head :- VarbindContent(vbs[0]);
      var rest :- EncodeVarbinds(vbs[1..]);
      Success(EncodeTlv(SEQUENCE, head) + rest)
  }

  function EncodeBody(b: Body): Outcome<Bytes> {
    var list :- EncodeVarbinds(b.varbinds);
    Success(EncodeInteger(b.requestId) + (EncodeInteger(b.errorStatus) + (EncodeInteger(b.errorIndex)
            + EncodeTlv(SEQUENCE, list))))
  }

  function EncodePdu(p: Pdu): Outcome<Bytes> {
    var content :- EncodeBody(p.body);
    Success(EncodeTlv(TypeTag(p.pduType), content))
  }

  // Decoding

  function DecodeIntegerFrom(data: Bytes, offset: nat): (r: Outcome<(int, nat)>)
    ensures r.Failure? ==> r.error == ProtocolError
    ensures r.Success? ==> offset + 2 <= r.value.1 <= |data|
  {
    var t :- DecodeTlv(data, offset);
    if t.tag != INTEGER then Failure(ProtocolError)
    else
      var n :- DecodeSigned(t.content);
      Success((n, t.end))
  }

  function DecodeVarbindContent(content: Bytes): (r: Outcome<RawVarBind>)
    ensures r.Failure? ==> r.error == ProtocolError
  {
    var o :- DecodeTlv(content, 0);
    if o.tag != OBJECT_IDENTIFIER then Failure(ProtocolError)
    else
      var oid :- DecodeOid(o.content);
      var v :- DecodeTlv(content, o.end);
      var value :- DecodeValue(EncodeTlv(v.tag, v.content));
      if v.end != |content| then Failure(ProtocolError) else Success(RawVarBind(oid, value))
  }

  function DecodeVarbind(data: Bytes, offset: nat): (r: Outcome<(RawVarBind, nat)>)
    ensures r.Failure? ==> r.error == ProtocolError
    ensures r.Success? ==> offset + 2 <= r.value.1 <= |data|
  {
    var t :- DecodeTlv(data, offset);
    if t.tag != SEQUENCE then Failure(ProtocolError)
    else
      var vb :- DecodeVarbindContent(t.content);
      Success((vb, t.end))
  }

  function DecodeVarbinds(content: Bytes, offset: nat): (r: Outcome<seq<RawVarBind>>)
    requires offset <= |content|
    ensures r.Failure? ==> r.error == ProtocolError
    decreases |content| - offset
  {
    if offset == |content| then Success([])
    else
      var (vb, next) :- DecodeVarbind(content, offset);
      var rest :- DecodeVarbinds(content, next);
      Success([vb] + rest)
  }

  function DecodeVarbindList(data: Bytes, offset: nat): (r: Outcome<(seq<RawVarBind>, nat)>)
    ensures r.Failure? ==> r.error == ProtocolError
    ensures r.Success? ==> offset + 2 <= r.value.1 <= |data|
  {
    var t :- DecodeTlv(data, offset);
    if t.tag != SEQUENCE then Failure(ProtocolError)
    else
      var vbs :- DecodeVarbinds(t.content, 0);
      Success((vbs, t.end))
  }

  function DecodeBody(content: Bytes): (r: Outcome<Body>)
    ensures r.Failure? ==> r.error == ProtocolError
  {
    var (requestId, o1) :- DecodeIntegerFrom(content, 0);
    var (errorStatus, o2) :- DecodeIntegerFrom(content, o1);
    var (errorIndex, o3) :- DecodeIntegerFrom(content, o2);
    var (varbinds, o4) :- DecodeVarbindList(content, o3);
    if o4 != |content| then Failure(ProtocolError)
    else Success(Body(requestId, errorStatus, errorIndex, varbinds))
  }

  function DecodePduContent(tag: Octet, content: Bytes): (r: Outcome<Pdu>)
    ensures r.Failure? ==> r.error == ProtocolError
  {
    var t := TypeOfTag(tag);
    if t.None? then Failure(ProtocolError)
    else
      var body :- DecodeBody(content);
      Success(Pdu(t.value, body))
  }

  function DecodePdu(data: Bytes): (r: Outcome<Pdu>)
    ensures r.Failure? ==> r.error == ProtocolError
  {
    var t :- DecodeTlv(data, 0);
    if t.end != |data| then Failure(ProtocolError) else DecodePduContent(t.tag, t.content)
  }

  /** The varbind loop of the program. It ends exactly at the end of the list, because every
      varbind read advances the offset and stays in bounds. */
  method ReadVarbindList(data: Bytes, offset: nat) returns (r: Outcome<(seq<RawVarBind>, nat)>)
    ensures r == DecodeVarbindList(data, offset)
  {
    hide DecodeTlv, DecodeVarbind;
    var element := DecodeTlv(data, offset);
    if element.Failure? || element.value.tag != SEQUENCE {
      return Failure(ProtocolError);
    }
    var content, innerOffset := element.value.content, 0;
    var varbinds: seq<RawVarBind> := [];
    ghost var all := DecodeVarbinds(content, 0);
    assert all.Success? ==> varbinds + all.value == all.value;
    while innerOffset < |content|
      invariant innerOffset <= |content|
      invariant var rest := DecodeVarbinds(content, innerOffset);
                all == if rest.Failure? then rest else Success(varbinds + rest.value)
      decreases |content| - innerOffset
    {
      var next := DecodeVarbind(content, innerOffset);
      if next.Failure? {
        return Failure(next.error);
      }
      ghost var rest := DecodeVarbinds(content, next.value.1);
      assert rest.Success? ==>
          varbinds + ([next.value.0] + rest.value) == varbinds + [next.value.0] + rest.value;
      varbinds, innerOffset := varbinds + [next.value.0], next.value.1;
    }
    assert varbinds + [] == varbinds;
    return Success((varbinds, element.value.end));
  }

  // Round trips

  predicate RepresentableVarbind(vb: RawVarBind) {
    InDomain(vb.oid) && Representable(vb.value)
  }

  predicate RepresentableBody(b: Body) {
    forall i :: 0 <= i < |b.varbinds| ==> RepresentableVarbind(b.varbinds[i])
  }

  lemma IntegerAt(data: Bytes, offset: nat, n: int)
    requires At(data, offset, EncodeInteger(n))
    requires Fits(|EncodeInteger(n)|)
    ensures DecodeIntegerFrom(data, offset) == Success((n, offset + |EncodeInteger(n)|))
  {
    hide EncodeSigned, DecodeSigned, LengthOctets;
    FitsMonotone(|EncodeSigned(n)|, |EncodeInteger(n)|);
    TlvAt(data, offset, INTEGER, EncodeSigned(n));
    SignedRoundTrip(n);
  }

  lemma OidValueDomain(oid: Oid)
    ensures Representable(ObjectIdentifierValue(oid)) <==> InDomain(oid)
  {
  }

  lemma OidValueContent(content: Bytes)
    ensures DecodeContent(OBJECT_IDENTIFIER, content)
            == (var o := DecodeOid(content);
                if o.Failure? then Failure(o.error) else Success(ObjectIdentifierValue(o.value)))
  {
    hide DecodeOid;
  }

  lemma VarbindRoundTripExactly(vb: RawVarBind)
    requires VarbindContent(vb).Success? ==> Fits(|VarbindContent(vb).value|)
    ensures VarbindContent(vb).Success? && DecodeVarbindContent(VarbindContent(vb).value) == Success(vb)
       <==> RepresentableVarbind(vb)
  {
    hide EncodeTlv, DecodeTlv, At, Fits, EncodeContent, DecodeContent, DecodeOid, InDomain;
    var oidValue := ObjectIdentifierValue(vb.oid);
    ContentRoundTripExactly(oidValue);
    OidValueDomain(vb.oid);
    ContentRoundTripExactly(vb.value);
    if VarbindContent(vb).Success? {
      var content := VarbindContent(vb).value;
      var oid, value := EncodeContent(oidValue).value, EncodeContent(vb.value).value;
      var first, second := EncodeTlv(OBJECT_IDENTIFIER, oid), EncodeTlv(Tag(vb.value), value);
      FitsMonotone(|oid|, |content|);
      FitsMonotone(|value|, |content|);
      AtStart(content);
      AtSplit(content, 0, first, second);
      TlvAt(content, 0, OBJECT_IDENTIFIER, oid);
      TlvAt(content, |first|, Tag(vb.value), value);
      DecodeValueRewritten(content, |first|);
      OidValueContent(oid);
    }
  }

  lemma {:induction false} VarbindsAt(content: Bytes, offset: nat, vbs: seq<RawVarBind>)
    requires EncodeVarbinds(vbs).Success?
    requires At(content, offset, EncodeVarbinds(vbs).value)
    requires offset + |EncodeVarbinds(vbs).value| == |content|
    requires Fits(|content|)
    requires forall i :: 0 <= i < |vbs| ==> RepresentableVarbind(vbs[i])
    ensures DecodeVarbinds(content, offset) == Success(vbs)
    decreases |vbs|
  {
    hide EncodeTlv, DecodeTlv, VarbindContent, DecodeVarbindContent, RepresentableVarbind, Fits, At;
    if vbs != [] {
      var head, rest := VarbindContent(vbs[0]).value, EncodeVarbinds(vbs[1..]).value;
      AtSplit(content, offset, EncodeTlv(SEQUENCE, head), rest);
      FitsMonotone(|head|, |content|);
      TlvAt(content, offset, SEQUENCE, head);
      VarbindRoundTripExactly(vbs[0]);
      VarbindsAt(content, offset + |EncodeTlv(SEQUENCE, head)|, vbs[1..]);
      assert vbs == [vbs[0]] + vbs[1..];
    }
  }

  lemma {:induction false} RepresentableEncodes(vbs: seq<RawVarBind>)
    requires forall i :: 0 <= i < |vbs| ==> RepresentableVarbind(vbs[i])
    ensures EncodeVarbinds(vbs).Success?
  {
    if vbs != [] {
      ContentRoundTripExactly(ObjectIdentifierValue(vbs[0].oid));
      ContentRoundTripExactly(vbs[0].value);
      RepresentableEncodes(vbs[1..]);
    }
  }

  lemma {:induction false} DecodedVarbindsRepresentable(content: Bytes, offset: nat)
    requires offset <= |content|
    requires DecodeVarbinds(content, offset).Success?
    ensures forall i :: 0 <= i < |DecodeVarbinds(content, offset).value| ==>
              RepresentableVarbind(DecodeVarbinds(content, offset).value[i])
    decreases |content| - offset
  {
    if offset < |content| {
      var t := DecodeTlv(content, offset).value;
      DecodedVarbindRepresentable(t.content);
      DecodedVarbindsRepresentable(content, t.end);
    }
  }

  lemma DecodedVarbindRepresentable(content: Bytes)
    requires DecodeVarbindContent(content).Success?
    ensures RepresentableVarbind(DecodeVarbindContent(content).value)
  {
    var o := DecodeTlv(content, 0).value;
    var v := DecodeTlv(content, o.end).value;
    DecodedInDomain(o.content);
    DecodeValueRewritten(content, o.end);
    DecodedIsRepresentable(v.tag, v.content);
  }

  lemma DecodedBodyRepresentable(content: Bytes)
    requires DecodeBody(content).Success?
    ensures RepresentableBody(DecodeBody(content).value)
  {
    var o1 := DecodeIntegerFrom(content, 0).value.1;
    var o2 := DecodeIntegerFrom(content, o1).value.1;
    var o3 := DecodeIntegerFrom(content, o2).value.1;
    var list := DecodeTlv(content, o3).value.content;
    DecodedVarbindsRepresentable(list, 0);
  }

  /** Where the four parts of an encoded body lie, and that each is short enough to be read back. */
  lemma BodyLayout(b: Body)
    requires EncodeBody(b).Success? && Fits(|EncodeBody(b).value|)
    ensures var content := EncodeBody(b).value;
            var i1, i2, i3 := EncodeInteger(b.requestId), EncodeInteger(b.errorStatus), EncodeInteger(b.errorIndex);
            var list := EncodeVarbinds(b.varbinds).value;
            var last := EncodeTlv(SEQUENCE, list);
            && At(content, 0, i1) && Fits(|i1|)
            && At(content, |i1|, i2) && Fits(|i2|)
            && At(content, |i1| + |i2|, i3) && Fits(|i3|)
            && At(content, |i1| + |i2| + |i3|, last) && Fits(|list|)
            && |content| == |i1| + |i2| + |i3| + |last|
  {
    hide EncodeTlv, EncodeInteger, EncodeVarbinds, Fits, At;
    var content := EncodeBody(b).value;
    var list := EncodeVarbinds(b.varbinds).value;
    var i1, i2, i3 := EncodeInteger(b.requestId), EncodeInteger(b.errorStatus), EncodeInteger(b.errorIndex);
    var last := EncodeTlv(SEQUENCE, list);
    AtStart(content);
    AtSplit(content, 0, i1, i2 + (i3 + last));
    AtSplit(content, |i1|, i2, i3 + last);
    AtSplit(content, |i1| + |i2|, i3, last);
    FitsMonotone(|i1|, |content|);
    FitsMonotone(|i2|, |content|);
    FitsMonotone(|i3|, |content|);
    FitsMonotone(|list|, |content|);
  }

  lemma BodyRoundTrip(b: Body)
    requires RepresentableBody(b)
    ensures EncodeBody(b).Success?
    ensures Fits(|EncodeBody(b).value|) ==> DecodeBody(EncodeBody(b).value) == Success(b)
  {
    hide EncodeTlv, DecodeTlv, EncodeInteger, EncodeVarbinds, DecodeVarbinds, DecodeIntegerFrom, RepresentableVarbind,
      Fits, At;
    RepresentableEncodes(b.varbinds);
    var content := EncodeBody(b).value;
    if Fits(|content|) {
      BodyLayout(b);
      var list := EncodeVarbinds(b.varbinds).value;
      var n1 := |EncodeInteger(b.requestId)|;
      var n2 := n1 + |EncodeInteger(b.errorStatus)|;
      IntegerAt(content, 0, b.requestId);
      IntegerAt(content, n1, b.errorStatus);
      IntegerAt(content, n2, b.errorIndex);
      TlvAt(content, n2 + |EncodeInteger(b.errorIndex)|, SEQUENCE, list);
      AtStart(list);
      VarbindsAt(list, 0, b.varbinds);
    }
  }

  /** A body survives encoding and decoding exactly when every varbind is representable. */
  lemma BodyRoundTripExactly(b: Body)
    requires EncodeBody(b).Success? ==> Fits(|EncodeBody(b).value|)
    ensures EncodeBody(b).Success? && DecodeBody(EncodeBody(b).value) == Success(b) <==> RepresentableBody(b)
  {
    if RepresentableBody(b) {
      BodyRoundTrip(b);
    } else if EncodeBody(b).Success? && DecodeBody(EncodeBody(b).value).Success? {
      DecodedBodyRepresentable(EncodeBody(b).value);
    }
  }

  /** A PDU nested in a message is decoded from a rewritten element; the rewriting is invisible. */
  lemma DecodePduRewritten(data: Bytes, offset: nat)
    requires DecodeTlv(data, offset).Success?
    ensures var t := DecodeTlv(data, offset).value;
            DecodePdu(EncodeTlv(t.tag, t.content)) == DecodePduContent(t.tag, t.content)
  {
    RewrittenTlv(data, offset);
  }

  lemma PduEncodes(p: Pdu)
    requires RepresentableBody(p.body)
    ensures EncodePdu(p).Success?
  {
    BodyRoundTrip(p.body);
  }

  /** A PDU written into `data` is read back by the nested decoders. */
  lemma PduAt(data: Bytes, offset: nat, p: Pdu)
    requires RepresentableBody(p.body)
    requires EncodePdu(p).Success? && At(data, offset, EncodePdu(p).value) && Fits(|EncodePdu(p).value|)
    ensures var content := EncodeBody(p.body).value;
            && DecodeTlv(data, offset)
               == Success(Tlv(TypeTag(p.pduType), content, offset + |EncodePdu(p).value|))
            && DecodePdu(EncodeTlv(TypeTag(p.pduType), content)) == Success(p)
  {
    hide EncodeTlv, DecodeTlv, EncodeBody, DecodeBody, Fits, RepresentableBody;
    var content := EncodeBody(p.body).value;
    FitsMonotone(|content|, |EncodePdu(p).value|);
    TlvAt(data, offset, TypeTag(p.pduType), content);
    DecodePduRewritten(data, offset);
    BodyRoundTrip(p.body);
  }

  // What the wire makes of a PDU

  function NormalVarbind(vb: RawVarBind): RawVarBind {
    RawVarBind(NormalOid(vb.oid), NormalValue(vb.value))
  }

  function NormalVarbinds(vbs: seq<RawVarBind>): (r: seq<RawVarBind>)
    ensures |r| == |vbs|
    ensures forall i :: 0 <= i < |vbs| ==> r[i] == NormalVarbind(vbs[i])
  {
    seq(|vbs|, i requires 0 <= i < |vbs| => NormalVarbind(vbs[i]))
  }

  /** The body that is read when `b` was written: the same numbers, every varbind in its normal form. */
  function NormalBody(b: Body): Body {
    b.(varbinds := NormalVarbinds(b.varbinds))
  }

  function NormalPdu(p: Pdu): Pdu {
    p.(body := NormalBody(p.body))
  }

  predicate EncodableVarbind(vb: RawVarBind) {
    EncodableOid(vb.oid) && EncodableValue(vb.value)
  }

  predicate EncodableBody(b: Body) {
    forall i :: 0 <= i < |b.varbinds| ==> EncodableVarbind(b.varbinds[i])
  }

  lemma NormalVarbindExactly(vb: RawVarBind)
    ensures VarbindContent(vb).Success? <==> EncodableVarbind(vb)
    ensures EncodableVarbind(vb) ==> VarbindContent(NormalVarbind(vb)) == VarbindContent(vb)
    ensures EncodableVarbind(vb) ==> RepresentableVarbind(NormalVarbind(vb))
    ensures EncodableVarbind(vb) ==> (NormalVarbind(vb) == vb <==> RepresentableVarbind(vb))
  {
    hide EncodeOid, NormalOid, EncodableOid, InDomain, EncodeTlv, NormalValue, EncodableValue, Representable;
    NormalOidExactly(vb.oid);
    NormalValueExactly(vb.value);
    OidValueContent([]);
  }

  lemma {:induction false} NormalVarbindsEncode(vbs: seq<RawVarBind>)
    ensures EncodeVarbinds(vbs).Success? <==> forall i :: 0 <= i < |vbs| ==> EncodableVarbind(vbs[i])
    ensures EncodeVarbinds(vbs).Success? ==> EncodeVarbinds(NormalVarbinds(vbs)) == EncodeVarbinds(vbs)
  {
    hide VarbindContent, EncodableVarbind, EncodeTlv, NormalVarbind;
    if vbs != [] {
      NormalVarbindExactly(vbs[0]);
      NormalVarbindsEncode(vbs[1..]);
      assert forall i :: 0 < i < |vbs| ==> vbs[i] == vbs[1..][i - 1];
      assert NormalVarbinds(vbs)[1..] == NormalVarbinds(vbs[1..]);
    }
  }

  /** The encoder accepts exactly the bodies whose varbinds are encodable. It writes a body and its normal
      form alike, the normal form is what is read, and it is the body itself exactly when every varbind
      is representable. */
  lemma NormalBodyExactly(b: Body)
    ensures EncodeBody(b).Success? <==> EncodableBody(b)
    ensures EncodableBody(b) ==> EncodeBody(NormalBody(b)) == EncodeBody(b)
    ensures EncodableBody(b) ==> RepresentableBody(NormalBody(b))
    ensures EncodableBody(b) && Fits(|EncodeBody(b).value|) ==>
              DecodeBody(EncodeBody(b).value) == Success(NormalBody(b))
    ensures EncodableBody(b) ==> (NormalBody(b) == b <==> RepresentableBody(b))
  {
    hide EncodeVarbinds, EncodableVarbind, RepresentableVarbind, EncodeInteger, EncodeTlv, NormalVarbind, DecodeBody,
      Fits;
    NormalVarbindsEncode(b.varbinds);
    if EncodableBody(b) {
      forall i | 0 <= i < |b.varbinds|
        ensures RepresentableVarbind(NormalVarbind(b.varbinds[i]))
        ensures NormalVarbind(b.varbinds[i]) == b.varbinds[i] <==> RepresentableVarbind(b.varbinds[i])
      {
        NormalVarbindExactly(b.varbinds[i]);
      }
      BodyRoundTrip(NormalBody(b));
      if RepresentableBody(b) {
        assert NormalVarbinds(b.varbinds) == b.varbinds;
      }
    }
  }

  lemma NormalPduEncodes(p: Pdu)
    ensures EncodePdu(p).Success? <==> EncodableBody(p.body)
    ensures EncodePdu(p).Success? ==> EncodePdu(NormalPdu(p)) == EncodePdu(p)
    ensures EncodePdu(p).Success? ==> RepresentableBody(NormalPdu(p).body)
    ensures EncodePdu(p).Success? ==> (NormalPdu(p) == p <==> RepresentableBody(p.body))
    ensures RepresentableBody(p.body) ==> EncodePdu(p).Success?
  {
    hide EncodeBody, EncodableBody, RepresentableBody, NormalBody, EncodeTlv;
    NormalBodyExactly(p.body);
    if RepresentableBody(p.body) {
      BodyRoundTrip(p.body);
    }
  }

  // What stands on the wire

  /** The identifier octets of the PDUs: section 3 of RFC 3416. */
  predicate IdentifiesPdu(tag: Octet, t: PduType) {
    match t
    case GetRequest => tag == 0xA0
    case GetNextRequest => tag == 0xA1
    case Response => tag == 0xA2
    case SetRequest => tag == 0xA3
    case GetBulkRequest => tag == 0xA5
    case InformRequest => tag == 0xA6
    case SnmpV2Trap => tag == 0xA7
  }

  /** Each kind of PDU is written under its own identifier octet, and read under no other. */
  lemma PdusOnTheWire(p: Pdu, data: Bytes)
    ensures EncodePdu(p).Success? ==> IdentifiesPdu(EncodePdu(p).value[0], p.pduType)
    ensures DecodePdu(data).Success? ==> IdentifiesPdu(data[0], DecodePdu(data).value.pduType)
  {
    hide EncodeBody, DecodeBody, LengthOctets, DecodeLength;
  }
}
