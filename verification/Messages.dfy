/** SNMPv2c messages: trishul_snmp/wire/message.py and trishul_snmp/security/community.py. */
module Messages {
  import opened Wrappers
  import opened Octets
  import opened Ber
  import opened Asn1
  import opened Pdus
  import Text

  /** A community that is text. */
  type Community = c: Bytes | Text.IsUtf8(c) witness []

  /** The community is held as its UTF-8 octets. */
  datatype Message = Message(version: int, community: Bytes, pdu: Pdu)

  const V2C_VERSION := 1

  function EncodeMessage(m: Message): Outcome<Bytes> {
    var pdu :- EncodePdu(m.pdu);
    Success(EncodeTlv(SEQUENCE, EncodeInteger(m.version) + (EncodeTlv(OCTET_STRING, m.community) + pdu)))
  }

  function DecodeText(data: Bytes, offset: nat): (r: Outcome<(Bytes, nat)>)
    ensures r.Failure? ==> r.error == ProtocolError
    ensures r.Success? ==> offset + 2 <= r.value.1 <= |data|
  {
    var t :- DecodeTlv(data, offset);
    if t.tag != OCTET_STRING || !Text.IsUtf8(t.content) then Failure(ProtocolError)
    else Success((t.content, t.end))
  }

  /** Malformed octets are refused with ProtocolError and nothing else. */
  function DecodeMessage(data: Bytes): (r: Outcome<Message>)
    ensures r.Failure? ==> r.error == ProtocolError
  {
    var t :- DecodeTlv(data, 0);
    if t.tag != SEQUENCE || t.end != |data| then Failure(ProtocolError)
    else
      var content := t.content;
      var (version, o1) :- DecodeIntegerFrom(content, 0);
      var (community, o2) :- DecodeText(content, o1);
      var p :- DecodeTlv(content, o2);
      var pdu :- DecodePdu(EncodeTlv(p.tag, p.content));
      if p.end != |content| then Failure(ProtocolError)
      else if version != V2C_VERSION then Failure(ProtocolError)
      else Success(Message(version, community, pdu))
  }

  predicate RepresentableMessage(m: Message) {
    m.version == V2C_VERSION && Text.IsUtf8(m.community) && RepresentableBody(m.pdu.body)
  }

  lemma RepresentableMessageEncodes(m: Message)
    requires RepresentableMessage(m)
    ensures EncodeMessage(m).Success?
    ensures Fits(|EncodeMessage(m).value|) ==> DecodeMessage(EncodeMessage(m).value) == Success(m)
  {
    hide EncodeTlv, DecodeTlv, EncodeInteger, EncodePdu, DecodePdu, RepresentableBody, Fits, Text.IsUtf8, At;
    PduEncodes(m.pdu);
    var data := EncodeMessage(m).value;
    if Fits(|data|) {
      var version, community, pdu :=
        EncodeInteger(m.version), EncodeTlv(OCTET_STRING, m.community), EncodePdu(m.pdu).value;
      var content := version + (community + pdu);
      FitsMonotone(|content|, |data|);
      WholeTlv(SEQUENCE, content);
      FitsMonotone(|version|, |content|);
      FitsMonotone(|m.community|, |content|);
      FitsMonotone(|pdu|, |content|);
      AtThree(version, community, pdu);
      IntegerAt(content, 0, m.version);
      TlvAt(content, |version|, OCTET_STRING, m.community);
      PduAt(content, |version| + |community|, m.pdu);
    }
  }

  lemma DecodedMessageRepresentable(data: Bytes)
    requires DecodeMessage(data).Success?
    ensures RepresentableMessage(DecodeMessage(data).value)
  {
    var content := DecodeTlv(data, 0).value.content;
    var o1 := DecodeIntegerFrom(content, 0).value.1;
    var o2 := DecodeText(content, o1).value.1;
    DecodePduRewritten(content, o2);
    DecodedBodyRepresentable(DecodeTlv(content, o2).value.content);
  }

  /** Encoding then decoding is the identity exactly on version 1 messages with representable contents. */
  lemma MessageRoundTripExactly(m: Message)
    requires EncodeMessage(m).Success? ==> Fits(|EncodeMessage(m).value|)
    ensures EncodeMessage(m).Success? && DecodeMessage(EncodeMessage(m).value) == Success(m)
       <==> RepresentableMessage(m)
  {
    if RepresentableMessage(m) {
      RepresentableMessageEncodes(m);
    } else if EncodeMessage(m).Success? && DecodeMessage(EncodeMessage(m).value).Success? {
      DecodedMessageRepresentable(EncodeMessage(m).value);
    }
  }

  /** Whatever octets are accepted, the message read can be encoded, and its encoding reads as the same message. */
  lemma AcceptedMessagesNormalise(data: Bytes)
    requires DecodeMessage(data).Success?
    ensures var m := DecodeMessage(data).value;
            && EncodeMessage(m).Success?
            && (Fits(|EncodeMessage(m).value|) ==> DecodeMessage(EncodeMessage(m).value) == Success(m))
  {
    DecodedMessageRepresentable(data);
    RepresentableMessageEncodes(DecodeMessage(data).value);
  }

  // What the wire makes of a message

  function NormalMessage(m: Message): Message {
    m.(pdu := NormalPdu(m.pdu))
  }

  /** Exactly the messages with encodable varbinds are written, and those of version 1 with a UTF-8
      community are read as their normal form, which is the message itself exactly when every varbind
      is representable. */
  lemma NormalMessageIsRead(m: Message)
    ensures EncodeMessage(m).Success? <==> EncodableBody(m.pdu.body)
    ensures EncodeMessage(m).Success? ==> EncodeMessage(NormalMessage(m)) == EncodeMessage(m)
    ensures m.version == V2C_VERSION && Text.IsUtf8(m.community) && EncodeMessage(m).Success? ==>
              (Fits(|EncodeMessage(m).value|) ==> DecodeMessage(EncodeMessage(m).value) == Success(NormalMessage(m)))
    ensures EncodeMessage(m).Success? ==> (NormalMessage(m) == m <==> RepresentableBody(m.pdu.body))
  {
    hide EncodePdu, EncodableBody, RepresentableBody, NormalPdu, EncodeTlv, EncodeInteger, DecodeMessage, Fits,
      Text.IsUtf8;
    NormalPduEncodes(m.pdu);
    if m.version == V2C_VERSION && Text.IsUtf8(m.community) && EncodeMessage(m).Success? {
      RepresentableMessageEncodes(NormalMessage(m));
    }
  }

  // The community security model

  function WrapCommunity(community: Bytes, pdu: Pdu): Outcome<Bytes> {
    EncodeMessage(Message(V2C_VERSION, community, pdu))
  }

  function UnwrapCommunity(community: Bytes, data: Bytes): Outcome<Option<Pdu>> {
    var m :- DecodeMessage(data);
    Success(if m.community != community then None else Some(m.pdu))
  }

  /** What one community model wraps another unwraps if and only if the communities agree; messages of
      other communities are passed over, not refused. */
  lemma UnwrapUndoesWrap(mine: Bytes, theirs: Bytes, pdu: Pdu)
    requires Text.IsUtf8(theirs)
    ensures WrapCommunity(theirs, pdu).Success? <==> EncodableBody(pdu.body)
    ensures WrapCommunity(theirs, pdu).Success? && Fits(|WrapCommunity(theirs, pdu).value|) ==>
              UnwrapCommunity(mine, WrapCommunity(theirs, pdu).value)
              == Success(if mine == theirs then Some(NormalPdu(pdu)) else None)
  {
    hide EncodeMessage, DecodeMessage, EncodableBody, Text.IsUtf8, Fits, NormalPdu;
    NormalMessageIsRead(Message(V2C_VERSION, theirs, pdu));
  }
}
