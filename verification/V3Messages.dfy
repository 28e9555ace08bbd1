/** SNMPv3 messages, USM security parameters and ScopedPDUs: trishul_snmp/wire/v3message.py. */
module V3Messages {
  import opened Wrappers
  import opened Octets
  import opened Ber
  import opened Integers
  import opened Asn1
  import opened Pdus
  import Messages

  datatype UsmParams = UsmParams(engineId: Bytes, engineBoots: int, engineTime: int,
                                 username: Bytes, authParams: Bytes, privParams: Bytes)

  /** `authOffset` is where the content of the authentication parameters starts in the whole message. */
  datatype View = View(msgId: int, msgMaxSize: int, flags: Octet, usm: UsmParams, msgData: Bytes, authOffset: nat)

  datatype Header = Header(msgId: int, msgMaxSize: int, flags: Octet, securityModel: int, end: nat)

  const V3_VERSION := 3
  const USM_MODEL := 3

  // msgFlags, bit by bit

  predicate AuthFlag(flags: Octet) { flags % 2 == 1 }

  predicate PrivFlag(flags: Octet) { flags / 2 % 2 == 1 }

  predicate ReportableFlag(flags: Octet) { flags / 4 % 2 == 1 }

  // Encoding

  function HeaderContent(msgId: int, msgMaxSize: int, flags: Octet, model: int): Bytes {
    EncodeInteger(msgId) + (EncodeInteger(msgMaxSize) + (EncodeTlv(OCTET_STRING, [flags]) + EncodeInteger(model)))
  }

  function UsmContent(p: UsmParams): Bytes {
    EncodeTlv(OCTET_STRING, p.engineId) + (EncodeInteger(p.engineBoots) + (EncodeInteger(p.engineTime)
    + (EncodeTlv(OCTET_STRING, p.username) + (EncodeTlv(OCTET_STRING, p.authParams)
    + EncodeTlv(OCTET_STRING, p.privParams)))))
  }

  function EncodeUsm(p: UsmParams): Bytes {
    EncodeTlv(SEQUENCE, UsmContent(p))
  }

  /** A message with any version, security model and data; the program writes version 3 and model 3. */
  datatype Frame = Frame(version: int, msgId: int, msgMaxSize: int, flags: Octet, model: int, usm: UsmParams,
                         msgData: Bytes)

  function FrameContent(f: Frame): Bytes {
    EncodeInteger(f.version) + (EncodeTlv(SEQUENCE, HeaderContent(f.msgId, f.msgMaxSize, f.flags, f.model))
    + (EncodeTlv(OCTET_STRING, EncodeUsm(f.usm)) + f.msgData))
  }

  function EncodeFrame(f: Frame): Bytes {
    EncodeTlv(SEQUENCE, FrameContent(f))
  }

  function EncodeV3(msgId: int, msgMaxSize: int, flags: Octet, usm: UsmParams, msgData: Bytes): Bytes {
    EncodeFrame(Frame(V3_VERSION, msgId, msgMaxSize, flags, USM_MODEL, usm, msgData))
  }

  // Decoding

  function DecodeOctets(data: Bytes, offset: nat): (r: Outcome<(Bytes, nat)>)
    ensures r.Success? ==> offset + 2 + |r.value.0| <= r.value.1 <= |data|
    ensures r.Success? ==> At(data, r.value.1 - |r.value.0|, r.value.0)
    ensures r.Failure? ==> r.error == ProtocolError
  {
    var t :- DecodeTlv(data, offset);
    if t.tag != OCTET_STRING then Failure(ProtocolError) else Success((t.content, t.end))
  }

  function DecodeHeaderContent(content: Bytes, end: nat): (r: Outcome<Header>)
    ensures r.Success? ==> r.value.end == end
    ensures r.Failure? ==> r.error == ProtocolError
  {
    var (msgId, o1) :- DecodeIntegerFrom(content, 0);
    var (msgMaxSize, o2) :- DecodeIntegerFrom(content, o1);
    var (flags, o3) :- DecodeOctets(content, o2);
    if |flags| != 1 then Failure(ProtocolError)
    else
      var (model, o4) :- DecodeIntegerFrom(content, o3);
      if o4 != |content| then Failure(ProtocolError) else Success(Header(msgId, msgMaxSize, flags[0], model, end))
  }

  function DecodeHeader(data: Bytes, offset: nat): (r: Outcome<Header>)
    ensures r.Success? ==> offset + 2 <= r.value.end <= |data|
    ensures r.Failure? ==> r.error == ProtocolError
  {
    var t :- DecodeTlv(data, offset);
    if t.tag != SEQUENCE then Failure(ProtocolError) else DecodeHeaderContent(t.content, t.end)
  }

  /** The six fields, and the offset of the authentication parameters inside `content`. */
  function DecodeUsmContent(content: Bytes): (r: Outcome<(UsmParams, nat)>)
    ensures r.Success? ==> r.value.1 + |r.value.0.authParams| <= |content|
    ensures r.Failure? ==> r.error == ProtocolError
  {
    var (engineId, o1) :- DecodeOctets(content, 0);
    var (engineBoots, o2) :- DecodeIntegerFrom(content, o1);
    var (engineTime, o3) :- DecodeIntegerFrom(content, o2);
    var (username, o4) :- DecodeOctets(content, o3);
    var (authParams, o5) :- DecodeOctets(content, o4);
    var (privParams, o6) :- DecodeOctets(content, o5);
    if o6 != |content| then Failure(ProtocolError)
    else Success((UsmParams(engineId, engineBoots, engineTime, username, authParams, privParams), o5 - |authParams|))
  }

  function DecodeUsm(data: Bytes): (r: Outcome<(UsmParams, nat)>)
    ensures r.Success? ==> r.value.1 + |r.value.0.authParams| <= |data|
    ensures r.Failure? ==> r.error == ProtocolError
  {
    var t :- DecodeTlv(data, 0);
    if t.tag != SEQUENCE || t.end != |data| then Failure(ProtocolError)
    else
      var (usm, offset) :- DecodeUsmContent(t.content);
      Success((usm, |data| - |t.content| + offset))
  }

  function DataTag(flags: Octet): Octet {
    if PrivFlag(flags) then OCTET_STRING else SEQUENCE
  }

  /** Reads the content of the outer SEQUENCE, which starts at `start` in the whole message. */
  function DecodeV3Content(content: Bytes, start: nat): (r: Outcome<View>)
    ensures r.Failure? ==> r.error == ProtocolError
  {
    var (version, o1) :- DecodeIntegerFrom(content, 0);
    if version != V3_VERSION then Failure(ProtocolError)
    else
      var header :- DecodeHeader(content, o1);
      if header.securityModel != USM_MODEL then Failure(ProtocolError)
      else
        var (security, o3) :- DecodeOctets(content, header.end);
        var (usm, offset) :- DecodeUsm(security);
        var d :- DecodeTlv(content, o3);
        if d.tag != DataTag(header.flags) || d.end != |content| then Failure(ProtocolError)
        else Success(View(header.msgId, header.msgMaxSize, header.flags, usm, content[o3..d.end],
                          start + o3 - |security| + offset))
  }

  function DecodeV3(data: Bytes): (r: Outcome<View>)
    ensures r.Failure? ==> r.error == ProtocolError
  {
    var t :- DecodeTlv(data, 0);
    if t.tag != SEQUENCE || t.end != |data| then Failure(ProtocolError)
    else DecodeV3Content(t.content, |data| - |t.content|)
  }

  // The reported offset

  lemma ContentAt(data: Bytes, offset: nat)
    requires DecodeTlv(data, offset).Success?
    ensures var t := DecodeTlv(data, offset).value;
            At(data, t.end - |t.content|, t.content)
  {
  }

  lemma UsmContentOffset(content: Bytes)
    requires DecodeUsmContent(content).Success?
    ensures At(content, DecodeUsmContent(content).value.1, DecodeUsmContent(content).value.0.authParams)
  {
    hide At, DecodeOctets, DecodeIntegerFrom;
  }

  lemma UsmOffset(data: Bytes)
    requires DecodeUsm(data).Success?
    ensures At(data, DecodeUsm(data).value.1, DecodeUsm(data).value.0.authParams)
  {
    hide DecodeUsmContent, DecodeTlv, At;
    var t := DecodeTlv(data, 0).value;
    ContentAt(data, 0);
    UsmContentOffset(t.content);
    var (usm, offset) := DecodeUsmContent(t.content).value;
    AtInside(data, |data| - |t.content|, t.content, offset, usm.authParams);
  }

  /** In every accepted message, whatever its length forms, the reported offset points at the
      authentication parameters: the slice found there is the decoded field, and it is in bounds. */
  lemma OffsetPointsAtAuthParams(data: Bytes)
    requires DecodeV3(data).Success?
    ensures At(data, DecodeV3(data).value.authOffset, DecodeV3(data).value.usm.authParams)
  {
    hide DecodeIntegerFrom, DecodeUsm, DecodeHeader, DecodeOctets, DecodeTlv, At;
    var t := DecodeTlv(data, 0).value;
    var content := t.content;
    ContentAt(data, 0);
    var start := |data| - |content|;
    var header := DecodeHeader(content, DecodeIntegerFrom(content, 0).value.1).value;
    var (security, o3) := DecodeOctets(content, header.end).value;
    var (usm, offset) := DecodeUsm(security).value;
    UsmOffset(security);
    AtInside(content, o3 - |security|, security, offset, usm.authParams);
    AtInside(data, start, content, o3 - |security| + offset, usm.authParams);
  }

  // What is accepted

  /** No octets are both a v2c and a v3 message. */
  lemma VersionsApart(data: Bytes)
    ensures !(Messages.DecodeMessage(data).Success? && DecodeV3(data).Success?)
  {
    hide DecodeTlv, DecodeIntegerFrom, DecodeHeader, DecodeOctets, DecodeUsm, Messages.DecodeText, DecodePdu;
  }

  lemma SliceTlv(data: Bytes, offset: nat)
    requires DecodeTlv(data, offset).Success?
    ensures var t := DecodeTlv(data, offset).value;
            DecodeTlv(data[offset..t.end], 0) == Success(Tlv(t.tag, t.content, t.end - offset))
  {
    var t := DecodeTlv(data, offset).value;
    var part := data[offset..t.end];
    var (length, start) := DecodeLength(data, offset + 1).value;
    assert part[1] == data[offset + 1];
    if data[offset + 1] >= 0x80 {
      assert part[2..start - offset] == data[offset + 2..start];
    }
    assert part[start - offset..|part|] == t.content;
  }

  /** In every accepted message the data is exactly one element, an OCTET STRING if the privacy flag is
      set and a SEQUENCE if not. */
  lemma DataIsOneElement(data: Bytes)
    requires DecodeV3(data).Success?
    ensures var v := DecodeV3(data).value;
            var t := DecodeTlv(v.msgData, 0);
            && t.Success? && t.value.end == |v.msgData|
            && t.value.tag == (if PrivFlag(v.flags) then OCTET_STRING else SEQUENCE)
  {
    hide DecodeIntegerFrom, DecodeUsm, DecodeHeader, DecodeOctets, DecodeTlv, PrivFlag;
    var content := DecodeTlv(data, 0).value.content;
    var header := DecodeHeader(content, DecodeIntegerFrom(content, 0).value.1).value;
    var o3 := DecodeOctets(content, header.end).value.1;
    SliceTlv(content, o3);
  }

  // Overwriting the authentication parameters in place

  lemma IntegerOutside(data: Bytes, offset: nat, p: nat, x: Bytes)
    requires DecodeIntegerFrom(data, offset).Success?
    requires DecodeIntegerFrom(data, offset).value.1 <= p && p + |x| <= |data|
    ensures DecodeIntegerFrom(Splice(data, p, x), offset) == DecodeIntegerFrom(data, offset)
  {
    OverwriteOutside(data, offset, p, x);
  }

  lemma OctetsOutside(data: Bytes, offset: nat, p: nat, x: Bytes)
    requires DecodeOctets(data, offset).Success?
    requires p + |x| <= |data|
    requires p + |x| <= offset || DecodeOctets(data, offset).value.1 <= p
    ensures DecodeOctets(Splice(data, p, x), offset) == DecodeOctets(data, offset)
  {
    OverwriteOutside(data, offset, p, x);
  }

  lemma OctetsInside(data: Bytes, offset: nat, p: nat, x: Bytes)
    requires DecodeOctets(data, offset).Success?
    requires var (octets, end) := DecodeOctets(data, offset).value;
             |octets| <= end && end - |octets| <= p && p + |x| <= end
    ensures var (octets, end) := DecodeOctets(data, offset).value;
            DecodeOctets(Splice(data, p, x), offset) == Success((Splice(octets, p - (end - |octets|), x), end))
  {
    OverwriteInside(data, offset, p, x);
  }

  lemma UsmContentOverwrite(content: Bytes, k: nat, x: Bytes)
    requires DecodeUsmContent(content).Success?
    requires k + |x| <= |DecodeUsmContent(content).value.0.authParams|
    ensures var (usm, offset) := DecodeUsmContent(content).value;
            DecodeUsmContent(Splice(content, offset + k, x))
            == Success((usm.(authParams := Splice(usm.authParams, k, x)), offset))
  {
    hide DecodeIntegerFrom, DecodeOctets, Splice, At;
    var (usm, offset) := DecodeUsmContent(content).value;
    var p := offset + k;
    var o1 := DecodeOctets(content, 0).value.1;
    var o2 := DecodeIntegerFrom(content, o1).value.1;
    var o3 := DecodeIntegerFrom(content, o2).value.1;
    var o4 := DecodeOctets(content, o3).value.1;
    var o5 := DecodeOctets(content, o4).value.1;
    OctetsOutside(content, 0, p, x);
    IntegerOutside(content, o1, p, x);
    IntegerOutside(content, o2, p, x);
    OctetsOutside(content, o3, p, x);
    OctetsInside(content, o4, p, x);
    OctetsOutside(content, o5, p, x);
  }

  lemma UsmOverwrite(data: Bytes, k: nat, x: Bytes)
    requires DecodeUsm(data).Success?
    requires k + |x| <= |DecodeUsm(data).value.0.authParams|
    ensures var (usm, offset) := DecodeUsm(data).value;
            DecodeUsm(Splice(data, offset + k, x))
            == Success((usm.(authParams := Splice(usm.authParams, k, x)), offset))
  {
    hide DecodeUsmContent, DecodeTlv, Splice;
    var t := DecodeTlv(data, 0).value;
    var (usm, offset) := DecodeUsmContent(t.content).value;
    OverwriteInside(data, 0, |data| - |t.content| + offset + k, x);
    UsmContentOverwrite(t.content, k, x);
  }

  lemma HeaderOutside(data: Bytes, offset: nat, p: nat, x: Bytes)
    requires DecodeHeader(data, offset).Success?
    requires DecodeHeader(data, offset).value.end <= p && p + |x| <= |data|
    ensures DecodeHeader(Splice(data, p, x), offset) == DecodeHeader(data, offset)
  {
    hide DecodeHeaderContent;
    OverwriteOutside(data, offset, p, x);
  }

  lemma V3ContentOverwrite(content: Bytes, start: nat, k: nat, x: Bytes)
    requires DecodeV3Content(content, start).Success?
    requires k + |x| <= |DecodeV3Content(content, start).value.usm.authParams|
    ensures var v := DecodeV3Content(content, start).value;
            && start <= v.authOffset && v.authOffset - start + k + |x| <= |content|
            && DecodeV3Content(Splice(content, v.authOffset - start + k, x), start)
               == Success(v.(usm := v.usm.(authParams := Splice(v.usm.authParams, k, x))))
  {
    hide DecodeIntegerFrom, DecodeUsm, DecodeHeader, DecodeOctets, DecodeTlv, At, Splice;
    var v := DecodeV3Content(content, start).value;
    var o1 := DecodeIntegerFrom(content, 0).value.1;
    var o2 := DecodeHeader(content, o1).value.end;
    var (security, o3) := DecodeOctets(content, o2).value;
    var (usm, offset) := DecodeUsm(security).value;
    UsmOverwrite(security, k, x);
    var p := o3 - |security| + offset + k;
    IntegerOutside(content, 0, p, x);
    HeaderOutside(content, o1, p, x);
    OctetsInside(content, o2, p, x);
    OverwriteOutside(content, o3, p, x);
    assert Splice(content, p, x)[o3..|content|] == content[o3..|content|];
  }

  /** Parse stability: overwriting any part of the authentication parameters of an accepted message
      at the reported offset yields an accepted message with the same view in every other field. */
  lemma ParseStability(data: Bytes, k: nat, x: Bytes)
    requires DecodeV3(data).Success?
    requires k + |x| <= |DecodeV3(data).value.usm.authParams|
    ensures var v := DecodeV3(data).value;
            && v.authOffset + k + |x| <= |data|
            && DecodeV3(Splice(data, v.authOffset + k, x))
               == Success(v.(usm := v.usm.(authParams := Splice(v.usm.authParams, k, x))))
  {
    hide DecodeV3Content, DecodeTlv, Splice;
    var t := DecodeTlv(data, 0).value;
    var start := |data| - |t.content|;
    V3ContentOverwrite(t.content, start, k, x);
    var v := DecodeV3Content(t.content, start).value;
    OverwriteInside(data, 0, v.authOffset + k, x);
  }

  // Round trip

  lemma OctetsAt(data: Bytes, offset: nat, octets: Bytes)
    requires At(data, offset, EncodeTlv(OCTET_STRING, octets))
    requires Fits(|octets|)
    ensures DecodeOctets(data, offset) == Success((octets, offset + |EncodeTlv(OCTET_STRING, octets)|))
  {
    TlvAt(data, offset, OCTET_STRING, octets);
  }

  lemma HeaderRoundTrip(msgId: int, msgMaxSize: int, flags: Octet, model: int, end: nat)
    requires Fits(|HeaderContent(msgId, msgMaxSize, flags, model)|)
    ensures DecodeHeaderContent(HeaderContent(msgId, msgMaxSize, flags, model), end)
            == Success(Header(msgId, msgMaxSize, flags, model, end))
  {
    hide EncodeTlv, DecodeTlv, EncodeInteger, DecodeIntegerFrom, DecodeOctets, At, Fits;
    var content := HeaderContent(msgId, msgMaxSize, flags, model);
    var a, b, c, d := EncodeInteger(msgId), EncodeInteger(msgMaxSize), EncodeTlv(OCTET_STRING, [flags]),
      EncodeInteger(model);
    AtStart(content);
    AtSplit(content, 0, a, b + (c + d));
    AtSplit(content, |a|, b, c + d);
    AtSplit(content, |a| + |b|, c, d);
    FitsMonotone(|a|, |content|);
    FitsMonotone(|b|, |content|);
    FitsMonotone(|d|, |content|);
    SmallFits(1);
    IntegerAt(content, 0, msgId);
    IntegerAt(content, |a|, msgMaxSize);
    OctetsAt(content, |a| + |b|, [flags]);
    IntegerAt(content, |a| + |b| + |c|, model);
  }

  lemma HeaderAt(data: Bytes, offset: nat, msgId: int, msgMaxSize: int, flags: Octet, model: int)
    requires At(data, offset, EncodeTlv(SEQUENCE, HeaderContent(msgId, msgMaxSize, flags, model)))
    requires Fits(|HeaderContent(msgId, msgMaxSize, flags, model)|)
    ensures var end := offset + |EncodeTlv(SEQUENCE, HeaderContent(msgId, msgMaxSize, flags, model))|;
            DecodeHeader(data, offset) == Success(Header(msgId, msgMaxSize, flags, model, end))
  {
    hide EncodeTlv, DecodeTlv, HeaderContent, DecodeHeaderContent, At, Fits;
    var header := HeaderContent(msgId, msgMaxSize, flags, model);
    TlvAt(data, offset, SEQUENCE, header);
    HeaderRoundTrip(msgId, msgMaxSize, flags, model, offset + |EncodeTlv(SEQUENCE, header)|);
  }

  lemma UsmLayout(p: UsmParams)
    requires Fits(|UsmContent(p)|)
    ensures var content := UsmContent(p);
            var a, b := EncodeTlv(OCTET_STRING, p.engineId), EncodeInteger(p.engineBoots);
            var c := EncodeInteger(p.engineTime);
            var d, e, f := EncodeTlv(OCTET_STRING, p.username), EncodeTlv(OCTET_STRING, p.authParams),
                           EncodeTlv(OCTET_STRING, p.privParams);
            && At(content, 0, a) && Fits(|p.engineId|)
            && At(content, |a|, b) && Fits(|b|)
            && At(content, |a| + |b|, c) && Fits(|c|)
            && At(content, |a| + |b| + |c|, d) && Fits(|p.username|)
            && At(content, |a| + |b| + |c| + |d|, e) && Fits(|p.authParams|)
            && At(content, |a| + |b| + |c| + |d| + |e|, f) && Fits(|p.privParams|)
            && |content| == |a| + |b| + |c| + |d| + |e| + |f|
  {
    hide EncodeTlv, EncodeInteger, Fits, At;
    var content := UsmContent(p);
    var a, b, c := EncodeTlv(OCTET_STRING, p.engineId), EncodeInteger(p.engineBoots), EncodeInteger(p.engineTime);
    var d, e, f := EncodeTlv(OCTET_STRING, p.username), EncodeTlv(OCTET_STRING, p.authParams),
      EncodeTlv(OCTET_STRING, p.privParams);
    AtStart(content);
    AtSplit(content, 0, a, b + (c + (d + (e + f))));
    AtSplit(content, |a|, b, c + (d + (e + f)));
    AtSplit(content, |a| + |b|, c, d + (e + f));
    AtSplit(content, |a| + |b| + |c|, d, e + f);
    AtSplit(content, |a| + |b| + |c| + |d|, e, f);
    FitsMonotone(|p.engineId|, |content|);
    FitsMonotone(|b|, |content|);
    FitsMonotone(|c|, |content|);
    FitsMonotone(|p.username|, |content|);
    FitsMonotone(|p.authParams|, |content|);
    FitsMonotone(|p.privParams|, |content|);
  }

  lemma UsmRoundTrip(p: UsmParams)
    requires Fits(|EncodeUsm(p)|)
    ensures DecodeUsm(EncodeUsm(p)).Success?
    ensures DecodeUsm(EncodeUsm(p)).value.0 == p
  {
    hide EncodeTlv, DecodeTlv, EncodeInteger, DecodeIntegerFrom, DecodeOctets, At, Fits, UsmContent;
    var content := UsmContent(p);
    FitsMonotone(|content|, |EncodeUsm(p)|);
    WholeTlv(SEQUENCE, content);
    UsmLayout(p);
    var n1 := |EncodeTlv(OCTET_STRING, p.engineId)|;
    var n2 := n1 + |EncodeInteger(p.engineBoots)|;
    var n3 := n2 + |EncodeInteger(p.engineTime)|;
    var n4 := n3 + |EncodeTlv(OCTET_STRING, p.username)|;
    var n5 := n4 + |EncodeTlv(OCTET_STRING, p.authParams)|;
    OctetsAt(content, 0, p.engineId);
    IntegerAt(content, n1, p.engineBoots);
    IntegerAt(content, n2, p.engineTime);
    OctetsAt(content, n3, p.username);
    OctetsAt(content, n4, p.authParams);
    OctetsAt(content, n5, p.privParams);
  }

  lemma FrameLayout(f: Frame)
    requires Fits(|FrameContent(f)|)
    ensures var content := FrameContent(f);
            var header := HeaderContent(f.msgId, f.msgMaxSize, f.flags, f.model);
            var a, b := EncodeInteger(f.version), EncodeTlv(SEQUENCE, header);
            var c := EncodeTlv(OCTET_STRING, EncodeUsm(f.usm));
            && At(content, 0, a) && Fits(|a|)
            && At(content, |a|, b) && Fits(|header|)
            && At(content, |a| + |b|, c) && Fits(|EncodeUsm(f.usm)|)
            && At(content, |a| + |b| + |c|, f.msgData) && Fits(|f.msgData|)
            && |content| == |a| + |b| + |c| + |f.msgData|
  {
    hide EncodeTlv, EncodeInteger, EncodeUsm, At, Fits, HeaderContent;
    var content := FrameContent(f);
    var header := HeaderContent(f.msgId, f.msgMaxSize, f.flags, f.model);
    var a, b := EncodeInteger(f.version), EncodeTlv(SEQUENCE, header);
    var c := EncodeTlv(OCTET_STRING, EncodeUsm(f.usm));
    AtStart(content);
    AtSplit(content, 0, a, b + (c + f.msgData));
    AtSplit(content, |a|, b, c + f.msgData);
    AtSplit(content, |a| + |b|, c, f.msgData);
    FitsMonotone(|a|, |content|);
    FitsMonotone(|header|, |content|);
    FitsMonotone(|EncodeUsm(f.usm)|, |content|);
    FitsMonotone(|f.msgData|, |content|);
  }

  lemma FrameContentExactly(f: Frame, tag: Octet, data: Bytes, start: nat)
    requires f.msgData == EncodeTlv(tag, data) && Fits(|FrameContent(f)|)
    ensures var r := DecodeV3Content(FrameContent(f), start);
            && (r.Success? <==> f.version == V3_VERSION && f.model == USM_MODEL && tag == DataTag(f.flags))
            && (r.Success? ==>
                  r.value == View(f.msgId, f.msgMaxSize, f.flags, f.usm, f.msgData, r.value.authOffset))
  {
    hide EncodeTlv, DecodeTlv, EncodeInteger, DecodeIntegerFrom, DecodeUsm, EncodeUsm, At, Fits, HeaderContent,
      DecodeHeader, DecodeOctets, DataTag, FrameContent;
    var content := FrameContent(f);
    FrameLayout(f);
    var n1 := |EncodeInteger(f.version)|;
    var n2 := n1 + |EncodeTlv(SEQUENCE, HeaderContent(f.msgId, f.msgMaxSize, f.flags, f.model))|;
    var n3 := n2 + |EncodeTlv(OCTET_STRING, EncodeUsm(f.usm))|;
    FitsMonotone(|data|, |f.msgData|);
    IntegerAt(content, 0, f.version);
    HeaderAt(content, n1, f.msgId, f.msgMaxSize, f.flags, f.model);
    OctetsAt(content, n2, EncodeUsm(f.usm));
    UsmRoundTrip(f.usm);
    TlvAt(content, n3, tag, data);
    LastPiece(content, n3, f.msgData);
  }

  lemma LastPiece(data: Bytes, offset: nat, piece: Bytes)
    requires At(data, offset, piece) && offset + |piece| == |data|
    ensures data[offset..|data|] == piece
  {
  }

  /** A message is accepted exactly when it is version 3 under the user-based security model and its data is
      of the kind its privacy flag announces; then every field is read back. */
  lemma FrameExactly(f: Frame, tag: Octet, data: Bytes)
    requires f.msgData == EncodeTlv(tag, data) && Fits(|EncodeFrame(f)|)
    ensures var r := DecodeV3(EncodeFrame(f));
            && (r.Success? <==>
                  f.version == 3 && f.model == 3 && tag == (if PrivFlag(f.flags) then OCTET_STRING else SEQUENCE))
            && (r.Success? ==>
                  r.value == View(f.msgId, f.msgMaxSize, f.flags, f.usm, f.msgData, r.value.authOffset))
  {
    hide EncodeTlv, DecodeTlv, FrameContent, DecodeV3Content, Fits, PrivFlag;
    var content := FrameContent(f);
    FitsMonotone(|content|, |EncodeTlv(SEQUENCE, content)|);
    WholeTlv(SEQUENCE, content);
    FrameContentExactly(f, tag, data, |EncodeTlv(SEQUENCE, content)| - |content|);
  }

  /** Every field of an encoded message is read back. */
  lemma V3RoundTrip(msgId: int, msgMaxSize: int, flags: Octet, usm: UsmParams, data: Bytes)
    requires Fits(|EncodeV3(msgId, msgMaxSize, flags, usm, EncodeTlv(DataTag(flags), data))|)
    ensures var msgData := EncodeTlv(DataTag(flags), data);
            var r := DecodeV3(EncodeV3(msgId, msgMaxSize, flags, usm, msgData));
            r.Success? && r.value == View(msgId, msgMaxSize, flags, usm, msgData, r.value.authOffset)
  {
    hide EncodeTlv, EncodeFrame, DecodeV3, Fits, PrivFlag;
    var msgData := EncodeTlv(DataTag(flags), data);
    FrameExactly(Frame(V3_VERSION, msgId, msgMaxSize, flags, USM_MODEL, usm, msgData), DataTag(flags), data);
  }

  /** The length of a message depends on the lengths of its variable parts only. */
  lemma V3Length(msgId: int, msgMaxSize: int, f: Octet, g: Octet, p: UsmParams, q: UsmParams, x: Bytes, y: Bytes)
    requires q == p.(authParams := q.authParams, privParams := q.privParams)
    requires |p.authParams| == |q.authParams| && |p.privParams| == |q.privParams| && |x| == |y|
    ensures |EncodeV3(msgId, msgMaxSize, f, p, x)| == |EncodeV3(msgId, msgMaxSize, g, q, y)|
  {
    hide EncodeTlv, EncodeInteger;
    TlvLength(OCTET_STRING, [f], OCTET_STRING, [g]);
    var a, b := HeaderContent(msgId, msgMaxSize, f, USM_MODEL), HeaderContent(msgId, msgMaxSize, g, USM_MODEL);
    TlvLength(SEQUENCE, a, SEQUENCE, b);
    TlvLength(OCTET_STRING, p.authParams, OCTET_STRING, q.authParams);
    TlvLength(OCTET_STRING, p.privParams, OCTET_STRING, q.privParams);
    TlvLength(SEQUENCE, UsmContent(p), SEQUENCE, UsmContent(q));
    TlvLength(OCTET_STRING, EncodeUsm(p), OCTET_STRING, EncodeUsm(q));
    var c := FrameContent(Frame(V3_VERSION, msgId, msgMaxSize, f, USM_MODEL, p, x));
    var d := FrameContent(Frame(V3_VERSION, msgId, msgMaxSize, g, USM_MODEL, q, y));
    TlvLength(SEQUENCE, c, SEQUENCE, d);
  }

  lemma V3Size(msgId: int, msgMaxSize: int, flags: Octet, usm: UsmParams, msgData: Bytes)
    ensures |EncodeV3(msgId, msgMaxSize, flags, usm, msgData)| >= |msgData|
  {
  }

  // ScopedPDUs

  datatype Scoped = Scoped(engineId: Bytes, contextName: Bytes, tag: Octet, content: Bytes)

  function EncodeScoped(engineId: Bytes, contextName: Bytes, pdu: Bytes): Bytes {
    EncodeTlv(SEQUENCE, ScopedContent(engineId, contextName, pdu))
  }

  function ScopedContent(engineId: Bytes, contextName: Bytes, pdu: Bytes): Bytes {
    EncodeTlv(OCTET_STRING, engineId) + (EncodeTlv(OCTET_STRING, contextName) + pdu)
  }

  function EncodeScopedPdu(engineId: Bytes, contextName: Bytes, pdu: Pdu): Outcome<Bytes> {
    var octets :- EncodePdu(pdu);
    Success(EncodeScoped(engineId, contextName, octets))
  }

  /** The fields of a ScopedPDU, its PDU not yet interpreted. */
  function DecodeScopedFields(data: Bytes): (r: Outcome<Scoped>)
    ensures r.Failure? ==> r.error == ProtocolError
  {
    var t :- DecodeTlv(data, 0);
    if t.tag != SEQUENCE || t.end != |data| then Failure(ProtocolError)
    else DecodeScopedContent(t.content)
  }

  function DecodeScopedContent(content: Bytes): (r: Outcome<Scoped>)
    ensures r.Failure? ==> r.error == ProtocolError
  {
    var (engineId, o1) :- DecodeOctets(content, 0);
    var (contextName, o2) :- DecodeOctets(content, o1);
    var p :- DecodeTlv(content, o2);
    if p.end != |content| then Failure(ProtocolError)
    else Success(Scoped(engineId, contextName, p.tag, p.content))
  }

  function DecodeScopedPdu(data: Bytes): (r: Outcome<(Bytes, Bytes, Pdu)>)
    ensures r.Failure? ==> r.error == ProtocolError
  {
    var s :- DecodeScopedFields(data);
    var pdu :- DecodePdu(EncodeTlv(s.tag, s.content));
    Success((s.engineId, s.contextName, pdu))
  }

  lemma ScopedContentRoundTrip(engineId: Bytes, contextName: Bytes, tag: Octet, body: Bytes)
    requires Fits(|ScopedContent(engineId, contextName, EncodeTlv(tag, body))|)
    ensures DecodeScopedContent(ScopedContent(engineId, contextName, EncodeTlv(tag, body)))
            == Success(Scoped(engineId, contextName, tag, body))
    ensures Fits(|body|)
  {
    hide EncodeTlv, DecodeTlv, At, Fits, DecodeOctets;
    var a, b, c := EncodeTlv(OCTET_STRING, engineId), EncodeTlv(OCTET_STRING, contextName), EncodeTlv(tag, body);
    var content := a + (b + c);
    AtThree(a, b, c);
    FitsMonotone(|engineId|, |content|);
    FitsMonotone(|contextName|, |content|);
    FitsMonotone(|body|, |content|);
    OctetsAt(content, 0, engineId);
    OctetsAt(content, |a|, contextName);
    TlvAt(content, |a| + |b|, tag, body);
  }

  lemma ScopedRoundTrip(engineId: Bytes, contextName: Bytes, tag: Octet, body: Bytes)
    requires Fits(|EncodeScoped(engineId, contextName, EncodeTlv(tag, body))|)
    ensures DecodeScopedFields(EncodeScoped(engineId, contextName, EncodeTlv(tag, body)))
            == Success(Scoped(engineId, contextName, tag, body))
    ensures Fits(|body|)
  {
    hide EncodeTlv, DecodeTlv, Fits, DecodeScopedContent;
    var content := ScopedContent(engineId, contextName, EncodeTlv(tag, body));
    FitsMonotone(|content|, |EncodeTlv(SEQUENCE, content)|);
    WholeTlv(SEQUENCE, content);
    ScopedContentRoundTrip(engineId, contextName, tag, body);
  }

  lemma PduRewritten(tag: Octet, content: Bytes)
    requires Fits(|content|)
    ensures DecodePdu(EncodeTlv(tag, content)) == DecodePduContent(tag, content)
  {
    WholeTlv(tag, content);
  }

  /** Exactly the PDUs with encodable varbinds are written, and they are read in their normal form. */
  lemma ScopedPduRoundTrip(engineId: Bytes, contextName: Bytes, pdu: Pdu)
    ensures EncodeScopedPdu(engineId, contextName, pdu).Success? <==> EncodableBody(pdu.body)
    ensures EncodableBody(pdu.body) && Fits(|EncodeScopedPdu(engineId, contextName, pdu).value|) ==>
              DecodeScopedPdu(EncodeScopedPdu(engineId, contextName, pdu).value)
              == Success((engineId, contextName, NormalPdu(pdu)))
    ensures EncodableBody(pdu.body) ==> (NormalPdu(pdu) == pdu <==> RepresentableBody(pdu.body))
  {
    hide EncodeTlv, DecodeTlv, Fits, EncodeScoped, DecodeScopedFields, EncodeBody, DecodeBody, RepresentableBody,
      EncodableBody, NormalBody, DecodePdu;
    NormalBodyExactly(pdu.body);
    if EncodableBody(pdu.body) && Fits(|EncodeScopedPdu(engineId, contextName, pdu).value|) {
      var body := EncodeBody(pdu.body).value;
      ScopedRoundTrip(engineId, contextName, TypeTag(pdu.pduType), body);
      PduRewritten(TypeTag(pdu.pduType), body);
    }
  }
}
