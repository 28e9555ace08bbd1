/** Listener-side SNMPv3 helpers: trishul_snmp/notify/v3.py. */
module NotifyV3 {
  import opened Wrappers
  import opened Octets
  import opened Ber
  import Oids
  import opened Asn1
  import opened Pdus
  import opened V3Messages
  import opened Usm

  datatype SecurityLevel = NoAuthNoPriv | AuthNoPriv | AuthPriv

  datatype Envelope = Envelope(view: View, pdu: Pdu, contextEngineId: Bytes, contextName: Bytes, level: SecurityLevel)

  function LevelOfFlags(flags: Octet): SecurityLevel {
    if PrivFlag(flags) then AuthPriv else if AuthFlag(flags) then AuthNoPriv else NoAuthNoPriv
  }

  function LevelOf(user: User): SecurityLevel {
    if PrivEnabled(user) then AuthPriv else if AuthEnabled(user) then AuthNoPriv else NoAuthNoPriv
  }

  function ValidateLevel(flags: Octet, user: User): Outcome<Unit> {
    if PrivFlag(flags) && !AuthFlag(flags) then Failure(ProtocolError)
    else if !LevelMatches(flags, user) then Failure(ProtocolError)
    else Success(Unit)
  }

  predicate IsNotification(t: PduType) { t == InformRequest || t == SnmpV2Trap }

  /** Traps clear the reportable flag, informs set it. */
  predicate ReportableAgrees(flags: Octet, t: PduType) {
    (t == SnmpV2Trap ==> !ReportableFlag(flags)) && (t == InformRequest ==> ReportableFlag(flags))
  }

  /** `None` for messages of another user and for ScopedPDUs that are no notification. */
  function DecodeNotification(c: Crypto, user: User, data: Bytes): Outcome<Option<Envelope>> {
    var view :- DecodeV3(data);
    if view.usm.username != user.username then Success(None)
    else
      var _ :- ValidateLevel(view.flags, user);
      var _ :- if !AuthFlag(view.flags) then Success(Unit)
               else if |view.usm.authParams| != AUTH_TAG_LEN then Failure(ProtocolError)
               else VerifyTag(c, user, data, view.authOffset, view.usm.authParams, view.usm.engineId);
      var msgData :- if PrivFlag(view.flags) then DecryptScoped(c, user, view.msgData, view.usm)
                     else Success(view.msgData);
      var scoped :- DecodeScopedFields(msgData);
      if scoped.tag != TypeTag(InformRequest) && scoped.tag != TypeTag(SnmpV2Trap) then Success(None)
      else
        var pdu :- DecodePdu(EncodeTlv(scoped.tag, scoped.content));
        if !ReportableAgrees(view.flags, pdu.pduType) then Failure(ProtocolError)
        else Success(Some(Envelope(view, pdu, scoped.engineId, scoped.contextName, LevelOfFlags(view.flags))))
  }

  /** The PDU of the empty-engineID discovery probe, if the message is one. */
  function ReadProbe(data: Bytes): Option<(View, Pdu)> {
    var view := DecodeV3(data);
    if view.Failure? || view.value.flags != 4 then None
    else
      var usm := view.value.usm;
      if usm.engineId != [] || usm.engineBoots != 0 || usm.engineTime != 0 || usm.username != []
         || usm.authParams != [] || usm.privParams != [] then None
      else
        var scoped := DecodeScopedFields(view.value.msgData);
        if scoped.Failure? || scoped.value.engineId != [] || scoped.value.contextName != []
           || scoped.value.tag != TypeTag(GetRequest) then None
        else
          var pdu := DecodePdu(EncodeTlv(scoped.value.tag, scoped.value.content));
          if pdu.Failure? || |pdu.value.body.varbinds| != 1 then None
          else if pdu.value.body.varbinds[0] != RawVarBind(DISCOVERY_OID, NullValue) then None
          else Some((view.value, pdu.value))
  }

  predicate IsDiscoveryProbe(data: Bytes) {
    ReadProbe(data).Some?
  }

  function ReportBody(requestId: int): Body {
    Body(requestId, 0, 0, [RawVarBind(DISCOVERY_OID, Counter32Value(1))])
  }

  function Report(msgId: int, requestId: int, engine: Engine): Outcome<Bytes> {
    var body :- EncodeBody(ReportBody(requestId));
    Success(EncodeV3(msgId, MAX_MSG_SIZE, 0, UsmParams(engine.engineId, engine.boots, engine.time, [], [], []),
                     EncodeScoped([], [], EncodeTlv(REPORT, body))))
  }

  function EncodeDiscoveryReport(data: Bytes, engine: Engine): Outcome<Bytes> {
    var probe := ReadProbe(data);
    if probe.None? then Failure(ProtocolError)
    else Report(probe.value.0.msgId, probe.value.1.body.requestId, engine)
  }

  /** The acknowledgement of an inform: same request id and varbinds, no error. */
  function AckPdu(inform: Pdu): Pdu {
    Pdu(Response, Body(inform.body.requestId, 0, 0, inform.body.varbinds))
  }

  /** The level bits of the inform's flags, its reportable bit cleared. */
  function AckFlags(flags: Octet): Octet {
    flags % 4
  }

  function EncodeInformResponse(c: Crypto, envelope: Envelope, user: User, engine: Engine, salt: Salt): Outcome<Bytes> {
    if envelope.pdu.pduType != InformRequest then Failure(ProtocolError)
    else
      var flags := envelope.view.flags;
      var _ :- ValidateLevel(flags, user);
      var scoped :- EncodeScopedPdu(envelope.contextEngineId, envelope.contextName, AckPdu(envelope.pdu));
      SealScoped(c, user, engine, AckFlags(flags), envelope.view.msgId, scoped, salt)
  }

  // Discovery

  lemma DiscoveryOidInDomain()
    ensures Oids.InDomain(DISCOVERY_OID)
  {
  }

  /** The notifier's probe is recognised, and read with its own message and request id. */
  lemma ProbeIsRecognised(id: int)
    ensures Probe(id).Success?
    ensures Fits(|Probe(id).value|) ==>
              && IsDiscoveryProbe(Probe(id).value)
              && ReadProbe(Probe(id).value).value.0.msgId == id
              && ReadProbe(Probe(id).value).value.0.msgMaxSize == 65507
              && ReadProbe(Probe(id).value).value.1
                 == Pdu(GetRequest, Body(id, 0, 0, [RawVarBind(DISCOVERY_OID, NullValue)]))
  {
    hide DecodeV3, EncodeV3, EncodeTlv, DecodeTlv, EncodePdu, DecodePdu, EncodeScoped, DecodeScopedFields, Fits,
      EncodeBody;
    DiscoveryOidInDomain();
    PduEncodes(ProbePdu(id));
    PduEncoding(ProbePdu(id));
    var body := EncodeBody(ProbePdu(id).body).value;
    var scoped := EncodeScoped([], [], EncodeTlv(TypeTag(GetRequest), body));
    ScopedSize([], [], EncodeTlv(TypeTag(GetRequest), body));
    if Fits(|Probe(id).value|) {
      var data := ScopedElement([], [], EncodeTlv(TypeTag(GetRequest), body));
      V3Size(id, MAX_MSG_SIZE, 4, NO_PARAMS, scoped);
      FitsMonotone(|scoped|, |Probe(id).value|);
      V3RoundTrip(id, MAX_MSG_SIZE, 4, NO_PARAMS, data);
      ScopedRoundTrip([], [], TypeTag(GetRequest), body);
      BodyRoundTrip(ProbePdu(id).body);
      PduRewritten(TypeTag(GetRequest), body);
    }
  }

  lemma PduEncoding(p: Pdu)
    requires EncodePdu(p).Success?
    ensures EncodeBody(p.body).Success? && EncodePdu(p).value == EncodeTlv(TypeTag(p.pduType), EncodeBody(p.body).value)
  {
  }

  lemma ScopedElement(engineId: Bytes, contextName: Bytes, pdu: Bytes) returns (data: Bytes)
    ensures EncodeScoped(engineId, contextName, pdu) == EncodeTlv(SEQUENCE, data)
    ensures |data| >= |pdu|
  {
    data := EncodeTlv(OCTET_STRING, engineId) + (EncodeTlv(OCTET_STRING, contextName) + pdu);
  }

  lemma ScopedSize(engineId: Bytes, contextName: Bytes, pdu: Bytes)
    ensures |EncodeScoped(engineId, contextName, pdu)| >= |pdu|
  {
  }

  /** A recognised probe is always answered, under its own message and request ids, and the notifier takes
      from the answer exactly the listener's engine; it refuses the answer exactly when that engine has an
      empty id. */
  lemma ReportIsAccepted(data: Bytes, engine: Engine)
    requires IsDiscoveryProbe(data)
    ensures EncodeDiscoveryReport(data, engine).Success?
    ensures Fits(|EncodeDiscoveryReport(data, engine).value|) ==>
              ParseDiscovery(EncodeDiscoveryReport(data, engine).value)
              == if engine.engineId == [] then Failure(ProtocolError) else Success(engine)
    ensures Fits(|EncodeDiscoveryReport(data, engine).value|) ==>
              && DecodeV3(data).Success? && DecodeScopedPdu(DecodeV3(data).value.msgData).Success?
              && DecodeV3(EncodeDiscoveryReport(data, engine).value).Success?
              && var probe, report := DecodeV3(data).value, DecodeV3(EncodeDiscoveryReport(data, engine).value).value;
              && report.msgId == probe.msgId
              && DecodeScopedFields(report.msgData).Success?
              && var fields := DecodeScopedFields(report.msgData).value;
              && fields.engineId == [] && fields.contextName == [] && fields.tag == 0xA8
              && DecodeBody(fields.content)
                 == Success(Body(DecodeScopedPdu(probe.msgData).value.2.body.requestId, 0, 0,
                                 [RawVarBind(DISCOVERY_OID, Counter32Value(1))]))
  {
    hide DecodeV3, DecodeScopedFields, DecodePdu, DecodeBody, EncodeTlv, Report;
    var (view, pdu) := ReadProbe(data).value;
    ReportIsParsed(view.msgId, pdu.body.requestId, engine);
  }

  /** A REPORT is read with the probe's ids, the engine, and the counter that section 4 of RFC 3414 asks for. */
  lemma ReportIsParsed(msgId: int, requestId: int, engine: Engine)
    ensures Report(msgId, requestId, engine).Success?
    ensures Fits(|Report(msgId, requestId, engine).value|) ==>
              && DecodeV3(Report(msgId, requestId, engine).value).Success?
              && var view := DecodeV3(Report(msgId, requestId, engine).value).value;
              && view.msgId == msgId && view.msgMaxSize == 65507 && view.flags == 0
              && view.usm == UsmParams(engine.engineId, engine.boots, engine.time, [], [], [])
              && DecodeScopedFields(view.msgData).Success?
              && DecodeScopedFields(view.msgData).value.tag == REPORT
              && DecodeScopedFields(view.msgData).value.engineId == []
              && DecodeScopedFields(view.msgData).value.contextName == []
              && Fits(|DecodeScopedFields(view.msgData).value.content|)
              && DecodeBody(DecodeScopedFields(view.msgData).value.content)
                 == Success(Body(requestId, 0, 0, [RawVarBind(DISCOVERY_OID, Counter32Value(1))]))
              && ParseDiscovery(Report(msgId, requestId, engine).value)
                 == if engine.engineId == [] then Failure(ProtocolError) else Success(engine)
  {
    hide DecodeV3, EncodeV3, EncodeTlv, DecodeTlv, EncodeScoped, DecodeScopedFields, Fits, EncodeBody, DecodeBody;
    DiscoveryOidInDomain();
    BodyRoundTrip(ReportBody(requestId));
    var body := EncodeBody(ReportBody(requestId)).value;
    var usm := UsmParams(engine.engineId, engine.boots, engine.time, [], [], []);
    var scoped := EncodeScoped([], [], EncodeTlv(REPORT, body));
    var report := Report(msgId, requestId, engine).value;
    if Fits(|report|) {
      var data := ScopedElement([], [], EncodeTlv(REPORT, body));
      V3Size(msgId, MAX_MSG_SIZE, 0, usm, scoped);
      FitsMonotone(|scoped|, |report|);
      V3RoundTrip(msgId, MAX_MSG_SIZE, 0, usm, data);
      ScopedRoundTrip([], [], REPORT, body);
    }
  }

  /** A REPORT is never mistaken for the answer to a request: opening one yields no PDU. */
  lemma ReportIsNoResponse(c: Crypto, user: User, peerEngineId: Bytes, msgId: int, requestId: int, engine: Engine)
    requires Report(msgId, requestId, engine).Success? && Fits(|Report(msgId, requestId, engine).value|)
    requires user.username != []
    ensures Open(c, user, peerEngineId, Report(msgId, requestId, engine).value) == Success(None)
  {
    hide DecodeV3, Report, DecodeScopedFields;
    ReportIsParsed(msgId, requestId, engine);
  }

  // Informs

  lemma SealIsScoped(c: Crypto, user: User, engine: Engine, contextName: Bytes, msgId: int, pdu: Pdu, salt: Salt)
    returns (data: Bytes)
    requires Seal(c, user, engine, contextName, msgId, pdu, salt).Success?
    ensures EncodeBody(pdu.body).Success?
    ensures EncodeScoped(engine.engineId, contextName, EncodeTlv(TypeTag(pdu.pduType), EncodeBody(pdu.body).value))
            == EncodeTlv(SEQUENCE, data)
    ensures Seal(c, user, engine, contextName, msgId, pdu, salt)
            == SealScoped(c, user, engine, MsgFlags(user, pdu.pduType), msgId, EncodeTlv(SEQUENCE, data), salt)
  {
    hide SealScoped, EncodeTlv, EncodeBody, MsgFlags, EncodeScoped;
    PduEncoding(pdu);
    data := ScopedElement(engine.engineId, contextName, EncodeTlv(TypeTag(pdu.pduType), EncodeBody(pdu.body).value));
  }

  /** Whatever is sealed is authentic if the user has authentication, and protects exactly the ScopedPDU of the
      engine, context and PDU. */
  lemma SealIsAuthentic(c: Crypto, user: User, engine: Engine, contextName: Bytes, msgId: int, pdu: Pdu, salt: Salt)
    requires Sound(c)
    requires Seal(c, user, engine, contextName, msgId, pdu, salt).Success?
    requires Fits(|Seal(c, user, engine, contextName, msgId, pdu, salt).value|)
    ensures var sealed := Seal(c, user, engine, contextName, msgId, pdu, salt).value;
            && DecodeV3(sealed).Success?
            && var v := DecodeV3(sealed).value;
            && |v.usm.authParams| == (if AuthEnabled(user) then 12 else 0)
            && (AuthEnabled(user) ==> Authentic(c, user, sealed, v.authOffset, engine.engineId))
            && EncodeScopedPdu(engine.engineId, contextName, pdu).Success?
            && Protects(c, user, v, EncodeScopedPdu(engine.engineId, contextName, pdu).value)
  {
    hide SealScoped, DecodeV3, Authentic, Protects, EncodeTlv, VerifyTag, DecryptScoped, MsgFlags, LevelMatches, Sound,
      EncodePdu, Fits;
    FlagsMatch(user, pdu.pduType);
    var body := ScopedElement(engine.engineId, contextName, EncodePdu(pdu).value);
    ScopedIsAuthentic(c, user, engine, MsgFlags(user, pdu.pduType), msgId, body, salt);
  }

  lemma ScopedIsAuthentic(c: Crypto, user: User, engine: Engine, flags: Octet, msgId: int, body: Bytes, salt: Salt)
    requires Sound(c) && LevelMatches(flags, user)
    requires SealScoped(c, user, engine, flags, msgId, EncodeTlv(SEQUENCE, body), salt).Success?
    requires Fits(|SealScoped(c, user, engine, flags, msgId, EncodeTlv(SEQUENCE, body), salt).value|)
    ensures var sealed := SealScoped(c, user, engine, flags, msgId, EncodeTlv(SEQUENCE, body), salt).value;
            && DecodeV3(sealed).Success?
            && var v := DecodeV3(sealed).value;
            && |v.usm.authParams| == (if AuthEnabled(user) then 12 else 0)
            && (AuthEnabled(user) ==> Authentic(c, user, sealed, v.authOffset, engine.engineId))
            && Protects(c, user, v, EncodeTlv(SEQUENCE, body))
  {
    hide SealScoped, DecodeV3, Authentic, Protects, EncodeTlv, VerifyTag, DecryptScoped, LevelMatches, Sound, Fits;
    SealedIsRead(c, user, engine, flags, msgId, body, salt);
    var v := DecodeV3(SealScoped(c, user, engine, flags, msgId, EncodeTlv(SEQUENCE, body), salt).value).value;
    DecryptsExactly(c, user, v, EncodeTlv(SEQUENCE, body));
    if AuthEnabled(user) {
      SealedIsAuthentic(c, user, engine, flags, msgId, body, salt);
    }
  }

  /** A sealed notification is delivered with the PDU in its normal form, and with the context, the engine
      state and the level it was sealed with, and is never taken for a probe. */
  lemma NotificationIsDelivered(c: Crypto, user: User, engine: Engine, contextName: Bytes, msgId: int, pdu: Pdu,
                                salt: Salt)
    requires Sound(c) && IsNotification(pdu.pduType)
    requires Seal(c, user, engine, contextName, msgId, pdu, salt).Success?
    requires Fits(|Seal(c, user, engine, contextName, msgId, pdu, salt).value|)
    ensures var sealed := Seal(c, user, engine, contextName, msgId, pdu, salt).value;
            var r := DecodeNotification(c, user, sealed);
            && r.Success? && r.value.Some?
            && var e := r.value.value;
            && e.pdu == NormalPdu(pdu) && RepresentableBody(e.pdu.body)
            && (e.pdu == pdu <==> RepresentableBody(pdu.body))
            && e.contextEngineId == engine.engineId && e.contextName == contextName
            && e.view.msgId == msgId && e.view.flags == MsgFlags(user, pdu.pduType)
            && e.view.usm.engineId == engine.engineId && e.view.usm.engineBoots == engine.boots
            && e.view.usm.engineTime == engine.time && e.view.usm.username == user.username
            && e.level == LevelOf(user)
            && !IsDiscoveryProbe(sealed)
  {
    hide DecodeV3, EncodeTlv, SealScoped, Seal, VerifyTag, DecryptScoped, DecodeScopedFields, Fits, RepresentableBody,
      EncodableBody, NormalBody, EncodeBody, DecodeBody, EncodeScoped, DecodePdu, AuthFlag, PrivFlag, ReportableFlag,
      MsgFlags, ReadProbe;
    var flags := MsgFlags(user, pdu.pduType);
    FlagsMatch(user, pdu.pduType);
    var data := SealIsScoped(c, user, engine, contextName, msgId, pdu, salt);
    var scoped := EncodeTlv(SEQUENCE, data);
    var sealed := Seal(c, user, engine, contextName, msgId, pdu, salt).value;
    SealedIsRead(c, user, engine, flags, msgId, data, salt);
    SealedSize(c, user, engine, flags, msgId, scoped, salt);
    FitsMonotone(|scoped|, |sealed|);
    var body := EncodeBody(pdu.body).value;
    ScopedRoundTrip(engine.engineId, contextName, TypeTag(pdu.pduType), body);
    PduRewritten(TypeTag(pdu.pduType), body);
    NormalBodyExactly(pdu.body);
    PrivNeedsAuth(c, user, engine, flags, msgId, scoped, salt);
    if flags == 4 {
      PlainFlags(flags);
    }
    NotAProbe(sealed, Scoped(engine.engineId, contextName, TypeTag(pdu.pduType), body));
  }

  lemma NotAProbe(data: Bytes, fields: Scoped)
    requires DecodeV3(data).Success? && fields.tag != TypeTag(GetRequest)
    requires DecodeV3(data).value.flags == 4 ==> DecodeScopedFields(DecodeV3(data).value.msgData) == Success(fields)
    ensures !IsDiscoveryProbe(data)
  {
    hide DecodeV3, DecodeScopedFields, DecodePdu;
  }

  lemma PlainFlags(flags: Octet)
    requires flags == 4
    ensures !PrivFlag(flags)
  {
  }

  /** Nothing is sealed with privacy but without authentication. */
  lemma PrivNeedsAuth(c: Crypto, user: User, engine: Engine, flags: Octet, msgId: int, scoped: Bytes, salt: Salt)
    requires LevelMatches(flags, user)
    requires SealScoped(c, user, engine, flags, msgId, scoped, salt).Success?
    ensures PrivFlag(flags) ==> AuthFlag(flags)
  {
  }

  /** Whatever is delivered is a trap or an inform in the user's name, at exactly the user's level, with
      the reportable flag its kind asks for, and with an authentic 12-octet tag if the user has
      authentication. */
  lemma DeliveredIsAuthentic(c: Crypto, user: User, data: Bytes)
    requires Sound(c)
    requires DecodeNotification(c, user, data).Success? && DecodeNotification(c, user, data).value.Some?
    ensures DecodeV3(data).Success?
    ensures var e := DecodeNotification(c, user, data).value.value;
            && e.view == DecodeV3(data).value
            && e.view.usm.username == user.username
            && LevelMatches(e.view.flags, user) && (PrivEnabled(user) ==> AuthEnabled(user))
            && IsNotification(e.pdu.pduType) && RepresentableBody(e.pdu.body)
            && (ReportableFlag(e.view.flags) <==> e.pdu.pduType == InformRequest)
            && (AuthEnabled(user) ==>
                  && |e.view.usm.authParams| == AUTH_TAG_LEN
                  && Stamp(c, user, ReplaceTag(data, e.view.authOffset, ZERO_TAG), e.view.usm.engineId)
                     == Success(data))
  {
    hide DecodeV3, VerifyTag, Stamp, DecryptScoped, DecodeScopedFields, DecodePdu, AuthFlag, PrivFlag, ReportableFlag,
      ReplaceTag, EncodeTlv, RepresentableBody;
    if AuthEnabled(user) {
      AuthenticExactly(c, user, data);
    }
    DeliveredPdu(c, user, data);
  }

  lemma DeliveredPdu(c: Crypto, user: User, data: Bytes)
    requires DecodeNotification(c, user, data).Success? && DecodeNotification(c, user, data).value.Some?
    ensures var e := DecodeNotification(c, user, data).value.value;
            && IsNotification(e.pdu.pduType) && RepresentableBody(e.pdu.body)
            && (ReportableFlag(e.view.flags) <==> e.pdu.pduType == InformRequest)
  {
    hide DecodeV3, VerifyTag, Stamp, DecryptScoped, DecodeScopedFields, DecodePdu, AuthFlag, PrivFlag, ReportableFlag,
      EncodeTlv, RepresentableBody;
    var view := DecodeV3(data).value;
    var msgData := if PrivFlag(view.flags) then DecryptScoped(c, user, view.msgData, view.usm).value else view.msgData;
    var fields := DecodeScopedFields(msgData).value;
    TagOfDecoded(fields.tag, fields.content);
  }

  /** The message is in the user's name, states exactly the user's level, and is authentic, with a field of
      exactly 12 octets, if the user has authentication. */
  predicate Trusted(c: Crypto, user: User, data: Bytes) {
    && DecodeV3(data).Success?
    && var v := DecodeV3(data).value;
    && v.usm.username == user.username
    && (AuthFlag(v.flags) <==> user.authProtocol != NoAuth) && (PrivFlag(v.flags) <==> user.privProtocol != NoPriv)
    && (PrivFlag(v.flags) ==> AuthFlag(v.flags))
    && (user.authProtocol != NoAuth ==>
          |v.usm.authParams| == 12 && Authentic(c, user, data, v.authOffset, v.usm.engineId))
  }

  /** An envelope is delivered exactly if the message is trusted and protects a ScopedPDU with a trap that is
      not reportable or an inform that is; the envelope holds just what the message holds. */
  ghost predicate Conveys(c: Crypto, user: User, data: Bytes, e: Envelope) {
    && Trusted(c, user, data) && e.view == DecodeV3(data).value
    && (exists text :: Protects(c, user, e.view, text)
                       && DecodeScopedPdu(text) == Success((e.contextEngineId, e.contextName, e.pdu)))
    && (if ReportableFlag(e.view.flags) then e.pdu.pduType == InformRequest else e.pdu.pduType == SnmpV2Trap)
    && e.level == (if user.privProtocol != NoPriv then AuthPriv
                   else if user.authProtocol != NoAuth then AuthNoPriv else NoAuthNoPriv)
  }

  lemma NotificationExactly(c: Crypto, user: User, data: Bytes, e: Envelope)
    requires Sound(c)
    ensures DecodeNotification(c, user, data) == Success(Some(e)) <==> Conveys(c, user, data, e)
    ensures DecodeNotification(c, user, data) == Success(None)
       <==> && DecodeV3(data).Success?
            && (|| DecodeV3(data).value.usm.username != user.username
                || (&& Trusted(c, user, data)
                    && exists text :: Protects(c, user, DecodeV3(data).value, text)
                                      && DecodeScopedFields(text).Success?
                                      && DecodeScopedFields(text).value.tag !in {0xA6, 0xA7}))
  {
    hide DecodeV3, VerifyTag, DecryptScoped, DecodeScopedFields, DecodePdu, Authentic, Protects, Sound, AuthFlag,
      PrivFlag, ReportableFlag, EncodeTlv;
    if DecodeV3(data).Success? {
      var v := DecodeV3(data).value;
      if AuthEnabled(user) {
        CheckIsMac(c, user, data);
      }
      forall text
        ensures Protects(c, user, v, text)
           <==> (if PrivEnabled(user) then DecryptScoped(c, user, v.msgData, v.usm) else Success(v.msgData))
                == Success(text)
      {
        DecryptsExactly(c, user, v, text);
      }
      forall tag: Octet, content: Bytes | DecodePdu(EncodeTlv(tag, content)).Success?
        ensures TypeTag(DecodePdu(EncodeTlv(tag, content)).value.pduType) == tag
      {
        TagOfDecoded(tag, content);
      }
    }
  }

  /** A probe is exactly a reportable, unprotected message without any security parameters around an
      empty context and a GET of usmStatsUnknownEngineIDs.0. */
  lemma ProbeExactly(data: Bytes)
    ensures IsDiscoveryProbe(data) <==>
            && DecodeV3(data).Success?
            && DecodeV3(data).value.flags == 4
            && DecodeV3(data).value.usm == NO_PARAMS
            && var scoped := DecodeScopedPdu(DecodeV3(data).value.msgData);
            && scoped.Success?
            && scoped.value.0 == [] && scoped.value.1 == []
            && scoped.value.2.pduType == GetRequest
            && scoped.value.2.body.varbinds == [RawVarBind(DISCOVERY_OID, NullValue)]
  {
    hide DecodeV3, DecodeScopedFields, DecodeTlv, EncodeTlv, DecodeBody;
    if DecodeV3(data).Success? {
      var fields := DecodeScopedFields(DecodeV3(data).value.msgData);
      if fields.Success? && DecodePdu(EncodeTlv(fields.value.tag, fields.value.content)).Success? {
        TagOfDecoded(fields.value.tag, fields.value.content);
        var vbs := DecodePdu(EncodeTlv(fields.value.tag, fields.value.content)).value.body.varbinds;
        assert |vbs| == 1 ==> vbs == [vbs[0]];
      }
    }
  }

  lemma TagOfDecoded(tag: Octet, content: Bytes)
    requires DecodePdu(EncodeTlv(tag, content)).Success?
    ensures TypeTag(DecodePdu(EncodeTlv(tag, content)).value.pduType) == tag
    ensures RepresentableBody(DecodePdu(EncodeTlv(tag, content)).value.body)
  {
    hide DecodeBody, RepresentableBody, DecodeTlv;
    DecodedBodyRepresentable(DecodeTlv(EncodeTlv(tag, content), 0).value.content);
  }

  // Acknowledgements

  lemma AckFlagsMatch(flags: Octet, user: User)
    requires LevelMatches(flags, user)
    ensures LevelMatches(AckFlags(flags), user)
    ensures !ReportableFlag(AckFlags(flags))
  {
  }

  /** The acknowledgement answers under the inform's message id, at the user's level, authentic from the
      listener's engine, asks for no report, and protects, in the inform's context, the RESPONSE with the
      inform's request id and varbinds and no error. */
  lemma AckIsRead(c: Crypto, user: User, envelope: Envelope, engine: Engine, salt: Salt)
    requires Sound(c)
    requires EncodeInformResponse(c, envelope, user, engine, salt).Success?
    requires Fits(|EncodeInformResponse(c, envelope, user, engine, salt).value|)
    ensures var ack := DecodeV3(EncodeInformResponse(c, envelope, user, engine, salt).value);
            && ack.Success?
            && ack.value.msgId == envelope.view.msgId
            && LevelMatches(ack.value.flags, user) && !ReportableFlag(ack.value.flags)
            && ack.value.usm.engineId == engine.engineId
            && ack.value.usm.engineBoots == engine.boots && ack.value.usm.engineTime == engine.time
            && ack.value.usm.username == user.username
            && |ack.value.usm.authParams| == (if AuthEnabled(user) then 12 else 0)
            && (AuthEnabled(user) ==>
                  Authentic(c, user, EncodeInformResponse(c, envelope, user, engine, salt).value, ack.value.authOffset,
                            engine.engineId))
            && var body := Body(envelope.pdu.body.requestId, 0, 0, envelope.pdu.body.varbinds);
            var scoped := EncodeScopedPdu(envelope.contextEngineId, envelope.contextName, Pdu(Response, body));
            scoped.Success? && Protects(c, user, ack.value, scoped.value)
  {
    hide SealScoped, EncodeTlv, DecodeV3, LevelMatches, AckFlags, Fits, VerifyTag, DecryptScoped, EncodePdu,
      ReportableFlag, Authentic, Protects, Sound;
    AckFlagsMatch(envelope.view.flags, user);
    var octets := EncodePdu(AckPdu(envelope.pdu)).value;
    var body := ScopedElement(envelope.contextEngineId, envelope.contextName, octets);
    SealedIsRead(c, user, engine, AckFlags(envelope.view.flags), envelope.view.msgId, body, salt);
    ScopedIsAuthentic(c, user, engine, AckFlags(envelope.view.flags), envelope.view.msgId, body, salt);
  }

  /** The acknowledgement of a delivered inform opens, at a notifier bound to the listener's engine or
      to none yet, as the RESPONSE with the inform's request id and varbinds in their normal form. What was
      delivered is in its normal form already. */
  lemma AckIsAccepted(c: Crypto, user: User, envelope: Envelope, engine: Engine, salt: Salt, peerEngineId: Bytes)
    requires Sound(c)
    requires EncodeInformResponse(c, envelope, user, engine, salt).Success?
    requires Fits(|EncodeInformResponse(c, envelope, user, engine, salt).value|)
    requires peerEngineId == [] || peerEngineId == engine.engineId
    ensures Open(c, user, peerEngineId, EncodeInformResponse(c, envelope, user, engine, salt).value)
            == Success(Some(NormalPdu(AckPdu(envelope.pdu))))
    ensures NormalPdu(AckPdu(envelope.pdu)) == AckPdu(NormalPdu(envelope.pdu))
    ensures NormalPdu(envelope.pdu) == envelope.pdu <==> RepresentableBody(envelope.pdu.body)
  {
    hide Open, SealScoped, EncodeScopedPdu, RepresentableBody, EncodableBody, LevelMatches, AckFlags, Fits;
    var flags := envelope.view.flags;
    AckFlagsMatch(flags, user);
    AckEncodes(envelope.pdu);
    ScopedPduRoundTrip(envelope.contextEngineId, envelope.contextName, AckPdu(envelope.pdu));
    NormalBodyExactly(envelope.pdu.body);
    OpenUndoesSealScoped(c, user, engine, AckFlags(flags), envelope.contextEngineId, envelope.contextName,
                         envelope.view.msgId, AckPdu(envelope.pdu), salt, peerEngineId);
  }

  /** An inform is acknowledged exactly when its varbinds are encodable, as those of a delivered one are, and
      the listener can protect messages at the user's level. */
  lemma AckSucceedsExactly(c: Crypto, user: User, envelope: Envelope, engine: Engine, salt: Salt)
    requires Sound(c)
    requires envelope.pdu.pduType == InformRequest
    requires ValidateLevel(envelope.view.flags, user).Success?
    ensures var scoped := EncodeScopedPdu(envelope.contextEngineId, envelope.contextName, AckPdu(envelope.pdu));
            var flags, msgId := AckFlags(envelope.view.flags), envelope.view.msgId;
            && (scoped.Success? <==> EncodableBody(envelope.pdu.body))
            && (scoped.Failure? ==> EncodeInformResponse(c, envelope, user, engine, salt).Failure?)
            && (scoped.Success? ==>
                  (FrameFits(c, user, engine, flags, msgId, scoped.value, salt) ==>
                     (EncodeInformResponse(c, envelope, user, engine, salt).Success? <==> CanProtect(user, engine))))
  {
    hide SealScoped, EncodeScopedPdu, EncodableBody, LevelMatches, AckFlags, CanProtect, FrameFits;
    AckFlagsMatch(envelope.view.flags, user);
    AckEncodes(envelope.pdu);
    SealSucceedsExactly(c, user, engine, AckFlags(envelope.view.flags), envelope.contextEngineId,
                        envelope.contextName, envelope.view.msgId, AckPdu(envelope.pdu), salt);
  }

  lemma AckEncodes(inform: Pdu)
    ensures EncodableBody(AckPdu(inform).body) <==> EncodableBody(inform.body)
  {
  }

  // The whole exchange

  /** The frame of the sealed PDU is short enough to be read back. */
  predicate SealFits(c: Crypto, user: User, engine: Engine, contextName: Bytes, msgId: int, pdu: Pdu, salt: Salt) {
    var scoped := EncodeScopedPdu(engine.engineId, contextName, pdu);
    scoped.Success? ==> FrameFits(c, user, engine, MsgFlags(user, pdu.pduType), msgId, scoped.value, salt)
  }

  /** What sealing a notification puts on the wire, before it is stamped. */
  function SealFrame(c: Crypto, user: User, engine: Engine, contextName: Bytes, msgId: int, pdu: Pdu, salt: Salt): Bytes
  {
    var scoped := EncodeScopedPdu(engine.engineId, contextName, pdu);
    var p := if scoped.Success? then Protected(c, user, engine, MsgFlags(user, pdu.pduType), scoped.value, salt)
             else Failure(scoped.error);
    if p.Success? then Framed(user, engine, MsgFlags(user, pdu.pduType), msgId, p.value) else []
  }

  lemma AckFrameLength(c: Crypto, user: User, engine: Engine, contextName: Bytes, msgId: int, pdu: Pdu, salt: Salt,
                       drawn: Salt)
    requires Sound(c) && pdu.body.errorStatus == 0 && pdu.body.errorIndex == 0
    requires EncodableBody(pdu.body)
    requires EncodeScopedPdu(engine.engineId, contextName, pdu).Success?
    requires Protected(c, user, engine, MsgFlags(user, pdu.pduType),
                       EncodeScopedPdu(engine.engineId, contextName, pdu).value, salt).Success?
    ensures var flags := MsgFlags(user, pdu.pduType);
            var scoped := EncodeScopedPdu(engine.engineId, contextName, AckPdu(NormalPdu(pdu)));
            && scoped.Success?
            && var p := Protected(c, user, engine, AckFlags(flags), scoped.value, drawn);
            && p.Success?
            && |Framed(user, engine, AckFlags(flags), msgId, p.value)|
               == |SealFrame(c, user, engine, contextName, msgId, pdu, salt)|
  {
    hide EncodeTlv, Protected, Framed, AuthFlag, PrivFlag, EncodeBody, NormalVarbinds, EncodableBody, Sound, MsgFlags;
    var flags := MsgFlags(user, pdu.pduType);
    FlagsMatch(user, pdu.pduType);
    AckFlagsMatch(flags, user);
    NormalBodyExactly(pdu.body);
    var ack := AckPdu(NormalPdu(pdu));
    assert ack.body == NormalBody(pdu.body);
    var x, y := EncodePdu(pdu).value, EncodePdu(ack).value;
    TlvLength(TypeTag(pdu.pduType), EncodeBody(pdu.body).value, TypeTag(Response), EncodeBody(ack.body).value);
    TlvLength(SEQUENCE, ScopedContent(engine.engineId, contextName, x), SEQUENCE,
              ScopedContent(engine.engineId, contextName, y));
    var s, t := EncodeScoped(engine.engineId, contextName, x), EncodeScoped(engine.engineId, contextName, y);
    ProtectedLength(c, user, engine, flags, AckFlags(flags), s, t, salt, drawn);
    FramedLength(user, engine, flags, AckFlags(flags), msgId, Protected(c, user, engine, flags, s, salt).value,
                 Protected(c, user, engine, AckFlags(flags), t, drawn).value);
  }

  /** Where both sides can protect messages, an inform with encodable varbinds is sealed, delivered and
      acknowledged, and inform and acknowledgement are equally long. */
  lemma InformIsAcknowledged(c: Crypto, user: User, engine: Engine, contextName: Bytes, msgId: int, pdu: Pdu,
                             salt: Salt, drawn: Salt)
    requires Sound(c) && CanProtect(user, engine)
    requires pdu.pduType == InformRequest && pdu.body.errorStatus == 0 && pdu.body.errorIndex == 0
    requires EncodableBody(pdu.body)
    requires SealFits(c, user, engine, contextName, msgId, pdu, salt)
    ensures var sealed := Seal(c, user, engine, contextName, msgId, pdu, salt);
            && sealed.Success?
            && |sealed.value| == |SealFrame(c, user, engine, contextName, msgId, pdu, salt)|
            && var read := DecodeNotification(c, user, sealed.value);
            && read.Success? && read.value.Some?
            && var ack := EncodeInformResponse(c, read.value.value, user, engine, drawn);
            && ack.Success? && |ack.value| == |sealed.value|
  {
    hide EncodeTlv, SealScoped, DecodeNotification, Protected, Framed, LevelMatches, EncodableBody, Sound, MsgFlags,
      CanProtect, Fits, IsDiscoveryProbe, AckFlags, EncodeScopedPdu, NormalBody;
    var flags := MsgFlags(user, pdu.pduType);
    FlagsMatch(user, pdu.pduType);
    SealSucceedsExactly(c, user, engine, flags, engine.engineId, contextName, msgId, pdu, salt);
    NotificationIsDelivered(c, user, engine, contextName, msgId, pdu, salt);
    var sealed := Seal(c, user, engine, contextName, msgId, pdu, salt).value;
    var e := DecodeNotification(c, user, sealed).value.value;
    AckFrameLength(c, user, engine, contextName, msgId, pdu, salt, drawn);
    AckFlagsMatch(flags, user);
    LevelIsValid(user, engine, flags);
    AckSucceedsExactly(c, user, e, engine, drawn);
    SealSucceedsExactly(c, user, engine, AckFlags(flags), engine.engineId, contextName, msgId, AckPdu(e.pdu), drawn);
  }

  lemma LevelIsValid(user: User, engine: Engine, flags: Octet)
    requires LevelMatches(flags, user) && CanProtect(user, engine)
    ensures ValidateLevel(flags, user).Success?
  {
  }

  // Fields longer than a tag

  /** A message at the authNoPriv level whose field has room for a tag and for `tail` behind it. */
  function LongFieldMessage(user: User, engine: Engine, msgId: int, t: PduType, scoped: Bytes, tail: Bytes): Bytes {
    EncodeV3(msgId, MAX_MSG_SIZE, MsgFlags(user, t),
             UsmParams(engine.engineId, engine.boots, engine.time, user.username, ZERO_TAG + tail, []), scoped)
  }

  /** Stamped over its first 12 octets, a longer field passes as authentic where replies are opened, while
      the listener, like section 6.3.2 of RFC 3414, refuses it. */
  lemma LongFieldIsOpened(c: Crypto, user: User, engine: Engine, contextName: Bytes, msgId: int, pdu: Pdu, tail: Bytes)
    requires Sound(c) && AuthEnabled(user) && !PrivEnabled(user) && tail != []
    requires EncodeScopedPdu(engine.engineId, contextName, pdu).Success?
    requires var scoped := EncodeScopedPdu(engine.engineId, contextName, pdu).value;
             Fits(|LongFieldMessage(user, engine, msgId, pdu.pduType, scoped, tail)|)
    ensures var scoped := EncodeScopedPdu(engine.engineId, contextName, pdu).value;
            var raw := LongFieldMessage(user, engine, msgId, pdu.pduType, scoped, tail);
            var stamped := Stamp(c, user, raw, engine.engineId);
            && stamped.Success?
            && DecodeV3(stamped.value).Success?
            && |DecodeV3(stamped.value).value.usm.authParams| == AUTH_TAG_LEN + |tail|
            && Open(c, user, engine.engineId, stamped.value) == Success(Some(NormalPdu(pdu)))
            && DecodeNotification(c, user, stamped.value) == Failure(ProtocolError)
  {
    hide DecodeV3, EncodeV3, EncodeTlv, EncodePdu, DecodeScopedPdu, ComputeTag, VerifyTag, Fits, AuthFlag, PrivFlag,
      MsgFlags, EncodableBody, NormalPdu, ReplaceTag;
    var scoped := EncodeScopedPdu(engine.engineId, contextName, pdu).value;
    var content := ScopedElement(engine.engineId, contextName, EncodePdu(pdu).value);
    var flags := MsgFlags(user, pdu.pduType);
    var usm := UsmParams(engine.engineId, engine.boots, engine.time, user.username, ZERO_TAG + tail, []);
    var raw := LongFieldMessage(user, engine, msgId, pdu.pduType, scoped, tail);
    FlagsMatch(user, pdu.pduType);
    V3RoundTrip(msgId, MAX_MSG_SIZE, flags, usm, content);
    StampVerifies(c, user, raw, engine.engineId);
    V3Size(msgId, MAX_MSG_SIZE, flags, usm, scoped);
    FitsMonotone(|scoped|, |raw|);
    ScopedPduRoundTrip(engine.engineId, contextName, pdu);
  }
}
