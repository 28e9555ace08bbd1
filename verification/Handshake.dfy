/** Discovery, informs and traps between one notifier and one listener, over a network that loses, delays,
    duplicates and reorders datagrams but forges none: trishul_snmp/notify/client.py,
    trishul_snmp/security/usm.py and trishul_snmp/notify/listener.py together. */
module Handshake {
  import opened Wrappers
  import opened Octets
  import opened Ber
  import Oids
  import opened Asn1
  import opened Pdus
  import opened V3Messages
  import opened Usm
  import opened NotifyV3
  import opened Listener

  const MAX_DATAGRAM := 65535

  /** `engine` is the listener's; `own` is the notifier's, in whose name traps are sent. */
  datatype Config = Config(crypto: Crypto, user: User, engine: Engine, own: Engine, contextName: Bytes)

  /** Where a datagram came from. Only invariants look at it; the parties see the octets. */
  datatype Origin =
    | ProbeSent(id: int)
    | NotificationSent(pdu: Pdu, msgId: int, salt: Salt)
    | ReportSent(msgId: int, requestId: int)
    | AckSent(envelope: Envelope, salt: Salt)

  datatype Datagram = Datagram(data: Bytes, origin: Origin)

  /** `peer`, `msgIds`, `requestIds` and `pending` are the notifier's; the two sets are the datagrams in
      flight, each of which may arrive any number of times; the last three fields are history. */
  datatype State = State(peer: Engine, msgIds: nat, requestIds: nat, pending: Option<Pdu>,
                         toListener: set<Datagram>, toNotifier: set<Datagram>,
                         issued: seq<Pdu>, delivered: seq<Envelope>, accepted: seq<(Pdu, Pdu)>)

  datatype Step =
    | SendProbe
    | SendInform(varbinds: seq<RawVarBind>, salt: Salt)
    | SendTrap(varbinds: seq<RawVarBind>, salt: Salt)
    | ListenerReceives(d: Datagram, source: Address, salt: Salt)
    | DiscoveryReceives(d: Datagram)
    | NotifierReceives(d: Datagram)
    | Timeout
    | Lose(d: Datagram)

  const INIT := State(Engine([], 0, 0), 0, 1, None, {}, {}, [], [], [])

  function InformPdu(requestId: int, varbinds: seq<RawVarBind>): Pdu {
    Pdu(InformRequest, Body(requestId, 0, 0, varbinds))
  }

  function TrapPdu(requestId: int, varbinds: seq<RawVarBind>): Pdu {
    Pdu(SnmpV2Trap, Body(requestId, 0, 0, varbinds))
  }

  /** The engine in whose name a notification is sent. */
  function EngineOf(cfg: Config, t: PduType): Engine {
    if t == SnmpV2Trap then cfg.own else cfg.engine
  }

  function Put(net: set<Datagram>, d: Datagram): set<Datagram> {
    if |d.data| <= MAX_DATAGRAM then net + {d} else net
  }

  /** One step; a step that is not enabled changes nothing. */
  function Next(cfg: Config, s: State, step: Step): State {
    match step
    case SendProbe =>
      var id := s.msgIds + 1;
      var probe := Probe(id);
      if s.peer.engineId != [] || s.pending.Some? || probe.Failure? then s
      else s.(msgIds := id, toListener := Put(s.toListener, Datagram(probe.value, ProbeSent(id))))
    case SendInform(varbinds, salt) =>
      var pdu := InformPdu(s.requestIds, varbinds);
      var id := s.msgIds + 1;
      var sealed := Seal(cfg.crypto, cfg.user, s.peer, cfg.contextName, id, pdu, salt);
      if s.peer.engineId == [] || s.pending.Some? then s
      else if sealed.Failure? then s.(msgIds := id, requestIds := s.requestIds + 1)
      else s.(msgIds := id, requestIds := s.requestIds + 1, pending := Some(pdu), issued := s.issued + [pdu],
              toListener := Put(s.toListener, Datagram(sealed.value, NotificationSent(pdu, id, salt))))
    case SendTrap(varbinds, salt) =>
      var pdu := TrapPdu(s.requestIds, varbinds);
      var id := s.msgIds + 1;
      var sealed := Seal(cfg.crypto, cfg.user, cfg.own, cfg.contextName, id, pdu, salt);
      if s.pending.Some? then s
      else if sealed.Failure? then s.(msgIds := id, requestIds := s.requestIds + 1)
      else s.(msgIds := id, requestIds := s.requestIds + 1, issued := s.issued + [pdu],
              toListener := Put(s.toListener, Datagram(sealed.value, NotificationSent(pdu, id, salt))))
    case ListenerReceives(d, source, salt) =>
      if d !in s.toListener then s
      else ListenerStep(cfg, s, d, React(cfg.crypto, cfg.user, cfg.engine, Arrival(d.data, source, salt)), salt)
    case DiscoveryReceives(d) =>
      if d !in s.toNotifier || s.peer.engineId != [] then s
      else
        var parsed := ParseDiscovery(d.data);
        if parsed.Failure? then s else s.(peer := parsed.value)
    case NotifierReceives(d) =>
      if d !in s.toNotifier || s.pending.None? then s
      else
        var read := Open(cfg.crypto, cfg.user, s.peer.engineId, d.data);
        if read.Failure? then s.(pending := None)
        else if read.value.None? then s
        else
          var pdu := read.value.value;
          if pdu.pduType != Response then s.(pending := None)
          else if pdu.body.requestId != s.pending.value.body.requestId then s
          else s.(pending := None, accepted := s.accepted + [(s.pending.value, pdu)])
    case Timeout => s.(pending := None)
    case Lose(d) => s.(toListener := s.toListener - {d}, toNotifier := s.toNotifier - {d})
  }

  function ListenerStep(cfg: Config, s: State, d: Datagram, r: Reaction, salt: Salt): State {
    match r
    case Answer(report) =>
      var probe := ReadProbe(d.data);
      if probe.None? then s
      else
        var origin := ReportSent(probe.value.0.msgId, probe.value.1.body.requestId);
        s.(toNotifier := Put(s.toNotifier, Datagram(report, origin)))
    case Deliver(envelope, Some(ack)) =>
      s.(delivered := s.delivered + [envelope],
         toNotifier := Put(s.toNotifier, Datagram(ack, AckSent(envelope, salt))))
    case Deliver(envelope, None) => s.(delivered := s.delivered + [envelope])
    case _ => s
  }

  function Run(cfg: Config, steps: seq<Step>): State {
    if steps == [] then INIT
    else Next(cfg, Run(cfg, steps[..|steps| - 1]), steps[|steps| - 1])
  }

  // Invariants

  /** What is delivered is the normal form of an issued notification, which is the notification itself exactly
      when the wire can carry it, with the notifier's context, the sending engine and the user's level. */
  ghost predicate FaithfulDelivery(cfg: Config, issued: seq<Pdu>, e: Envelope) {
    && (exists p :: p in issued && Delivers(e, p))
    && e.contextName == cfg.contextName && e.contextEngineId == EngineOf(cfg, e.pdu.pduType).engineId
    && e.level == LevelOf(cfg.user)
  }

  predicate Delivers(e: Envelope, sent: Pdu) {
    && e.pdu == NormalPdu(sent) && RepresentableBody(e.pdu.body)
    && (e.pdu == sent <==> RepresentableBody(sent.body))
  }

  predicate Genuine(cfg: Config, issued: seq<Pdu>, delivered: seq<Envelope>, d: Datagram) {
    && |d.data| <= MAX_DATAGRAM
    && match d.origin
       case ProbeSent(id) => Probe(id) == Success(d.data)
       case NotificationSent(pdu, msgId, salt) =>
         && pdu in issued
         && Seal(cfg.crypto, cfg.user, EngineOf(cfg, pdu.pduType), cfg.contextName, msgId, pdu, salt) == Success(d.data)
       case ReportSent(msgId, requestId) => Report(msgId, requestId, cfg.engine) == Success(d.data)
       case AckSent(e, salt) =>
         e in delivered && EncodeInformResponse(cfg.crypto, e, cfg.user, cfg.engine, salt) == Success(d.data)
  }

  /** What is issued is informs and traps, with increasing request ids. */
  predicate WellIssued(issued: seq<Pdu>, nextId: nat) {
    && (forall i :: 0 <= i < |issued| ==>
          IsNotification(issued[i].pduType) && issued[i].body.requestId < nextId)
    && forall i, j :: 0 <= i < j < |issued| ==> issued[i].body.requestId < issued[j].body.requestId
  }

  ghost predicate Inv(cfg: Config, s: State) {
    && (s.peer.engineId == [] || s.peer == cfg.engine)
    && WellIssued(s.issued, s.requestIds)
    && (s.pending.Some? ==> s.pending.value in s.issued && s.pending.value.pduType == InformRequest)
    && (forall d <- s.toListener :: (d.origin.ProbeSent? || d.origin.NotificationSent?)
                                && Genuine(cfg, s.issued, s.delivered, d))
    && (forall d <- s.toNotifier :: (d.origin.ReportSent? || d.origin.AckSent?)
                                && Genuine(cfg, s.issued, s.delivered, d))
    && (forall e <- s.delivered :: FaithfulDelivery(cfg, s.issued, e))
    && (forall a <- s.accepted :: Acknowledged(s, a.0, a.1))
  }

  /** The response accepted for an inform is that very inform's acknowledgement, as the wire carries the
      inform, and the listener has delivered it so. */
  ghost predicate Acknowledged(s: State, inform: Pdu, response: Pdu) {
    && inform in s.issued && inform.pduType == InformRequest
    && response == AckPdu(NormalPdu(inform))
    && (response == AckPdu(inform) <==> RepresentableBody(inform.body))
    && exists e :: e in s.delivered && Delivers(e, inform)
  }

  lemma GenuineFits(cfg: Config, issued: seq<Pdu>, delivered: seq<Envelope>, d: Datagram)
    requires Genuine(cfg, issued, delivered, d)
    ensures Fits(|d.data|)
  {
    SmallFits(|d.data|);
  }

  /** The listener answers a genuine probe with a genuine REPORT. */
  lemma ProbeReaction(cfg: Config, id: int, data: Bytes, source: Address, salt: Salt)
    requires Probe(id) == Success(data) && Fits(|data|)
    ensures ReadProbe(data).Some?
    ensures var r := React(cfg.crypto, cfg.user, cfg.engine, Arrival(data, source, salt));
            var probe := ReadProbe(data).value;
            r.Answer? && Report(probe.0.msgId, probe.1.body.requestId, cfg.engine) == Success(r.report)
  {
    hide Probe, ReadProbe, Report;
    ProbeIsRecognised(id);
    ReportIsAccepted(data, cfg.engine);
  }

  /** The listener delivers a genuine notification faithfully, an inform with its acknowledgement, unless it
      raises because it cannot protect the acknowledgement. */
  lemma NotificationReaction(cfg: Config, pdu: Pdu, msgId: int, data: Bytes, source: Address, salt: Salt, drawn: Salt)
    requires Sound(cfg.crypto) && IsNotification(pdu.pduType)
    requires Seal(cfg.crypto, cfg.user, EngineOf(cfg, pdu.pduType), cfg.contextName, msgId, pdu, salt) == Success(data)
    requires Fits(|data|)
    ensures var r := React(cfg.crypto, cfg.user, cfg.engine, Arrival(data, source, drawn));
            || (pdu.pduType == InformRequest && r.Raise?)
            || (&& r.Deliver? && Delivers(r.envelope, pdu) && FaithfulDelivery(cfg, [pdu], r.envelope)
                && (r.ack.Some? <==> pdu.pduType == InformRequest)
                && (r.ack.Some? ==>
                      EncodeInformResponse(cfg.crypto, r.envelope, cfg.user, cfg.engine, drawn)
                      == Success(r.ack.value)))
  {
    hide Seal, DecodeNotification, IsDiscoveryProbe, EncodeInformResponse, RepresentableBody, Fits, MsgFlags,
      NormalBody;
    NotificationIsDelivered(cfg.crypto, cfg.user, EngineOf(cfg, pdu.pduType), cfg.contextName, msgId, pdu, salt);
    assert pdu in [pdu];
  }

  lemma GenuineGrows(cfg: Config, issued: seq<Pdu>, delivered: seq<Envelope>, issued': seq<Pdu>,
                     delivered': seq<Envelope>, d: Datagram)
    requires Genuine(cfg, issued, delivered, d)
    requires forall p <- issued :: p in issued'
    requires forall e <- delivered :: e in delivered'
    ensures Genuine(cfg, issued', delivered', d)
  {
    hide Probe, Seal, Report, EncodeInformResponse;
  }

  /** What was genuine, faithful or acknowledged stays so when more is issued and delivered. */
  lemma HistoryGrows(cfg: Config, s: State, s': State)
    requires Inv(cfg, s)
    requires (forall p <- s.issued :: p in s'.issued) && (forall e <- s.delivered :: e in s'.delivered)
    ensures forall d :: d in s.toListener || d in s.toNotifier ==> Genuine(cfg, s'.issued, s'.delivered, d)
    ensures forall e <- s.delivered :: FaithfulDelivery(cfg, s'.issued, e)
    ensures forall a <- s.accepted :: Acknowledged(s', a.0, a.1)
  {
    hide Genuine, Delivers, RepresentableBody, NormalPdu;
    forall d | d in s.toListener || d in s.toNotifier
      ensures Genuine(cfg, s'.issued, s'.delivered, d)
    {
      GenuineGrows(cfg, s.issued, s.delivered, s'.issued, s'.delivered, d);
    }
    forall e <- s.delivered
      ensures FaithfulDelivery(cfg, s'.issued, e)
    {
      var p :| p in s.issued && Delivers(e, p);
      assert p in s'.issued;
    }
    forall a <- s.accepted
      ensures Acknowledged(s', a.0, a.1)
    {
      assert Acknowledged(s, a.0, a.1);
      var e :| e in s.delivered && Delivers(e, a.0);
      assert e in s'.delivered;
    }
  }

  lemma ListenerStepKeeps(cfg: Config, s: State, d: Datagram, source: Address, salt: Salt)
    requires Sound(cfg.crypto) && Inv(cfg, s) && d in s.toListener
    ensures Inv(cfg, Next(cfg, s, ListenerReceives(d, source, salt)))
  {
    hide React, Probe, Seal, Report, EncodeInformResponse, ReadProbe, RepresentableBody, FaithfulDelivery, Acknowledged,
      Delivers;
    GenuineFits(cfg, s.issued, s.delivered, d);
    var r := React(cfg.crypto, cfg.user, cfg.engine, Arrival(d.data, source, salt));
    var s' := Next(cfg, s, ListenerReceives(d, source, salt));
    if d.origin.ProbeSent? {
      ProbeReaction(cfg, d.origin.id, d.data, source, salt);
    } else {
      var pdu := d.origin.pdu;
      NotificationReaction(cfg, pdu, d.origin.msgId, d.data, source, d.origin.salt, salt);
      if r.Deliver? {
        DeliveredLater(cfg, pdu, s.issued, r.envelope);
      }
    }
    HistoryGrows(cfg, s, s');
  }

  lemma DeliveredLater(cfg: Config, pdu: Pdu, issued: seq<Pdu>, e: Envelope)
    requires FaithfulDelivery(cfg, [pdu], e) && pdu in issued
    ensures FaithfulDelivery(cfg, issued, e)
  {
  }

  lemma SendStepKeeps(cfg: Config, s: State, step: Step)
    requires Inv(cfg, s) && (step.SendInform? || step.SendTrap?)
    ensures Inv(cfg, Next(cfg, s, step))
  {
    hide Probe, Seal, Report, EncodeInformResponse, FaithfulDelivery, Acknowledged;
    HistoryGrows(cfg, s, Next(cfg, s, step));
  }

  /** A genuine REPORT gives the notifier the listener's engine, if anything. */
  lemma DiscoveryStepKeeps(cfg: Config, s: State, d: Datagram)
    requires Sound(cfg.crypto) && Inv(cfg, s) && d in s.toNotifier
    ensures Inv(cfg, Next(cfg, s, DiscoveryReceives(d)))
  {
    hide Probe, Seal, Report, EncodeInformResponse, RepresentableBody, ParseDiscovery, Genuine;
    if s.peer.engineId == [] && ParseDiscovery(d.data).Success? {
      ParsedIsGenuine(cfg, s.issued, s.delivered, d);
    }
    var s' := Next(cfg, s, DiscoveryReceives(d));
    forall a <- s'.accepted
      ensures Acknowledged(s', a.0, a.1)
    {
      assert Acknowledged(s, a.0, a.1);
    }
  }

  lemma ParsedIsGenuine(cfg: Config, issued: seq<Pdu>, delivered: seq<Envelope>, d: Datagram)
    requires Sound(cfg.crypto)
    requires Genuine(cfg, issued, delivered, d) && (d.origin.ReportSent? || d.origin.AckSent?)
    requires ParseDiscovery(d.data).Success?
    ensures ParseDiscovery(d.data).value == cfg.engine
  {
    hide Probe, Seal, Report, EncodeInformResponse, RepresentableBody, ParseDiscovery;
    GenuineFits(cfg, issued, delivered, d);
    if d.origin.ReportSent? {
      ReportIsParsed(d.origin.msgId, d.origin.requestId, cfg.engine);
    } else {
      AckHasEngine(cfg, d.origin.envelope, d.origin.salt, d.data);
    }
  }

  /** Whatever a notifier reads off an acknowledgement as an engine is the listener's engine. */
  lemma AckHasEngine(cfg: Config, e: Envelope, salt: Salt, data: Bytes)
    requires Sound(cfg.crypto)
    requires EncodeInformResponse(cfg.crypto, e, cfg.user, cfg.engine, salt) == Success(data) && Fits(|data|)
    requires ParseDiscovery(data).Success?
    ensures ParseDiscovery(data).value == cfg.engine
  {
    hide EncodeInformResponse, DecodeV3, DecodeScopedFields, DecodeBody, LevelMatches, Fits;
    AckIsRead(cfg.crypto, cfg.user, e, cfg.engine, salt);
  }

  /** Only the acknowledgement of the pending inform is accepted for it, however late or often others arrive. */
  lemma NotifierStepKeeps(cfg: Config, s: State, d: Datagram)
    requires Sound(cfg.crypto) && Inv(cfg, s) && d in s.toNotifier
    ensures Inv(cfg, Next(cfg, s, NotifierReceives(d)))
  {
    hide Probe, Seal, Report, EncodeInformResponse, RepresentableBody, Open, FaithfulDelivery, Genuine;
    var s' := Next(cfg, s, NotifierReceives(d));
    if |s'.accepted| > |s.accepted| {
      var pdu := Open(cfg.crypto, cfg.user, s.peer.engineId, d.data).value.value;
      OpenedIsGenuine(cfg, s, d, pdu);
    }
    forall a <- s'.accepted
      ensures Acknowledged(s', a.0, a.1)
    {
      assert a in s.accepted ==> Acknowledged(s, a.0, a.1);
    }
  }

  lemma OpenedIsGenuine(cfg: Config, s: State, d: Datagram, pdu: Pdu)
    requires Sound(cfg.crypto) && Inv(cfg, s) && d in s.toNotifier && s.pending.Some?
    requires Open(cfg.crypto, cfg.user, s.peer.engineId, d.data) == Success(Some(pdu))
    requires pdu.body.requestId == s.pending.value.body.requestId
    ensures Acknowledged(s, s.pending.value, pdu)
  {
    hide Probe, Seal, Report, EncodeInformResponse, RepresentableBody, Open;
    GenuineFits(cfg, s.issued, s.delivered, d);
    if d.origin.ReportSent? {
      ReportYieldsNothing(cfg, s.peer.engineId, d.origin.msgId, d.origin.requestId, d.data);
    } else {
      var e := d.origin.envelope;
      assert FaithfulDelivery(cfg, s.issued, e);
      AckIsAccepted(cfg.crypto, cfg.user, e, cfg.engine, d.origin.salt, s.peer.engineId);
      var inform :| inform in s.issued && Delivers(e, inform);
      SameRequestSameInform(s.issued, s.requestIds, inform, s.pending.value);
      assert e in s.delivered && Delivers(e, s.pending.value);
      SameAck(inform, e.pdu);
    }
  }

  lemma SameAck(inform: Pdu, delivered: Pdu)
    requires inform.pduType == delivered.pduType && inform.body.requestId == delivered.body.requestId
    requires delivered == NormalPdu(inform)
    ensures AckPdu(delivered) == AckPdu(inform) <==> delivered == inform
  {
  }

  lemma ReportYieldsNothing(cfg: Config, peerEngineId: Bytes, msgId: int, requestId: int, data: Bytes)
    requires Sound(cfg.crypto)
    requires Report(msgId, requestId, cfg.engine) == Success(data) && Fits(|data|)
    ensures !(Open(cfg.crypto, cfg.user, peerEngineId, data).Success?
              && Open(cfg.crypto, cfg.user, peerEngineId, data).value.Some?)
  {
    hide Report, DecodeV3, DecodeScopedFields, DecodeTlv, HmacKey, ReplaceTag;
    ReportIsParsed(msgId, requestId, cfg.engine);
    NoPduTag(REPORT);
  }

  lemma NoPduTag(tag: Octet)
    requires tag == REPORT
    ensures TypeOfTag(tag).None?
  {
  }

  lemma SameRequestSameInform(issued: seq<Pdu>, nextId: nat, p: Pdu, q: Pdu)
    requires WellIssued(issued, nextId) && p in issued && q in issued && p.body.requestId == q.body.requestId
    ensures p == q
  {
  }

  lemma StepKeeps(cfg: Config, s: State, step: Step)
    requires Sound(cfg.crypto) && Inv(cfg, s)
    ensures Inv(cfg, Next(cfg, s, step))
  {
    hide Probe, Seal, Report, EncodeInformResponse, RepresentableBody, Open, FaithfulDelivery, React, ParseDiscovery;
    var s' := Next(cfg, s, step);
    match step
    case SendInform(_, _) => SendStepKeeps(cfg, s, step);
    case SendTrap(_, _) => SendStepKeeps(cfg, s, step);
    case ListenerReceives(d, source, salt) => if d in s.toListener { ListenerStepKeeps(cfg, s, d, source, salt); }
    case DiscoveryReceives(d) => if d in s.toNotifier { DiscoveryStepKeeps(cfg, s, d); }
    case NotifierReceives(d) => if d in s.toNotifier { NotifierStepKeeps(cfg, s, d); }
    case _ =>
      forall a <- s'.accepted
        ensures Acknowledged(s', a.0, a.1)
      {
        assert Acknowledged(s, a.0, a.1);
      }
  }

  /** In every reachable state: the notifier knows no engine or exactly the listener's, every delivered
      notification is an issued inform in its own context and level, and every accepted response is
      the acknowledgement of the very inform it was accepted for, which the listener has delivered. */
  lemma {:induction false} HandshakeIsSafe(cfg: Config, steps: seq<Step>)
    requires Sound(cfg.crypto)
    ensures var s := Run(cfg, steps);
            && Inv(cfg, s)
            && (s.peer.engineId == [] || s.peer == cfg.engine)
            && (forall e <- s.delivered :: FaithfulDelivery(cfg, s.issued, e))
            && (forall a <- s.accepted :: Acknowledged(s, a.0, a.1))
  {
    hide Next;
    if steps != [] {
      HandshakeIsSafe(cfg, steps[..|steps| - 1]);
      StepKeeps(cfg, Run(cfg, steps[..|steps| - 1]), steps[|steps| - 1]);
    }
  }

  // The handshake completes when nothing is lost

  lemma ProbeSentOut(cfg: Config, s: State)
    requires s.peer.engineId == [] && s.pending.None?
    requires Probe(s.msgIds + 1).Success? ==> |Probe(s.msgIds + 1).value| <= MAX_DATAGRAM
    ensures var id := s.msgIds + 1;
            && Probe(id).Success?
            && Next(cfg, s, SendProbe)
               == s.(msgIds := id, toListener := s.toListener + {Datagram(Probe(id).value, ProbeSent(id))})
  {
    hide Probe, Seal, React, ParseDiscovery, Open, ListenerStep;
    ProbeIsRecognised(s.msgIds + 1);
  }

  lemma ProbeAnswered(cfg: Config, s: State, id: int, data: Bytes, source: Address, salt: Salt)
    requires Datagram(data, ProbeSent(id)) in s.toListener
    requires Probe(id) == Success(data) && |data| <= MAX_DATAGRAM
    requires Report(id, id, cfg.engine).Success? ==> |Report(id, id, cfg.engine).value| <= MAX_DATAGRAM
    ensures Report(id, id, cfg.engine).Success?
    ensures var report := Datagram(Report(id, id, cfg.engine).value, ReportSent(id, id));
            Next(cfg, s, ListenerReceives(Datagram(data, ProbeSent(id)), source, salt))
            == s.(toNotifier := s.toNotifier + {report})
  {
    hide Probe, Report, React, ReadProbe;
    SmallFits(|data|);
    ProbeIsRecognised(id);
    ProbeReaction(cfg, id, data, source, salt);
    assert ProbePdu(id).body.requestId == id;
  }

  lemma ReportTaken(cfg: Config, s: State, id: int)
    requires Report(id, id, cfg.engine).Success? && |Report(id, id, cfg.engine).value| <= MAX_DATAGRAM
    requires Datagram(Report(id, id, cfg.engine).value, ReportSent(id, id)) in s.toNotifier
    requires s.peer.engineId == [] && cfg.engine.engineId != []
    ensures Next(cfg, s, DiscoveryReceives(Datagram(Report(id, id, cfg.engine).value, ReportSent(id, id))))
            == s.(peer := cfg.engine)
  {
    hide Report, ParseDiscovery, DecodeV3, DecodeScopedFields;
    SmallFits(|Report(id, id, cfg.engine).value|);
    ReportIsParsed(id, id, cfg.engine);
  }

  /** From an undiscovered notifier: probe, REPORT, and the listener's engine is known. */
  lemma DiscoveryCompletes(cfg: Config, s: State, source: Address, salt: Salt)
    requires s.peer.engineId == [] && s.pending.None? && cfg.engine.engineId != []
    requires Probe(s.msgIds + 1).Success? ==> |Probe(s.msgIds + 1).value| <= MAX_DATAGRAM
    requires var id := s.msgIds + 1;
             Report(id, id, cfg.engine).Success? ==> |Report(id, id, cfg.engine).value| <= MAX_DATAGRAM
    ensures var id := s.msgIds + 1;
            && Probe(id).Success? && Report(id, id, cfg.engine).Success?
            && var s1 := Next(cfg, s, SendProbe);
            var s2 := Next(cfg, s1, ListenerReceives(Datagram(Probe(id).value, ProbeSent(id)), source, salt));
            var s3 := Next(cfg, s2, DiscoveryReceives(Datagram(Report(id, id, cfg.engine).value, ReportSent(id, id))));
            s3.peer == cfg.engine && s3.issued == s.issued && s3.pending.None?
  {
    hide *;
    var id := s.msgIds + 1;
    ProbeSentOut(cfg, s);
    var probe := Datagram(Probe(id).value, ProbeSent(id));
    var s1 := Next(cfg, s, SendProbe);
    ProbeAnswered(cfg, s1, id, probe.data, source, salt);
    var s2 := Next(cfg, s1, ListenerReceives(probe, source, salt));
    ReportTaken(cfg, s2, id);
  }

  /** A trap whose varbinds are encodable and whose frame fits a datagram is delivered, provided the notifier can
      protect messages in its own engine's name; nothing is sent back. */
  lemma TrapCompletes(cfg: Config, s: State, varbinds: seq<RawVarBind>, salt: Salt, source: Address, drawn: Salt)
    requires Sound(cfg.crypto) && CanProtect(cfg.user, cfg.own) && s.pending.None?
    requires var pdu := TrapPdu(s.requestIds, varbinds);
             && EncodableBody(pdu.body)
             && |SealFrame(cfg.crypto, cfg.user, cfg.own, cfg.contextName, s.msgIds + 1, pdu, salt)| <= MAX_DATAGRAM
    ensures var pdu := TrapPdu(s.requestIds, varbinds);
            var id := s.msgIds + 1;
            var sealed := Seal(cfg.crypto, cfg.user, cfg.own, cfg.contextName, id, pdu, salt);
            && sealed.Success?
            && var s1 := Next(cfg, s, SendTrap(varbinds, salt));
            var arriving := Datagram(sealed.value, NotificationSent(pdu, id, salt));
            var s2 := Next(cfg, s1, ListenerReceives(arriving, source, drawn));
            && |s2.delivered| == |s.delivered| + 1
            && s2.delivered[|s.delivered|].pdu == NormalPdu(pdu)
            && s2.toNotifier == s.toNotifier && s2.pending.None?
  {
    hide Seal, React, RepresentableBody, EncodableBody, NormalBody, FaithfulDelivery, SealFrame, CanProtect, Delivers;
    var pdu := TrapPdu(s.requestIds, varbinds);
    var id := s.msgIds + 1;
    SealIsShort(cfg, pdu, id, salt);
    var data := Seal(cfg.crypto, cfg.user, cfg.own, cfg.contextName, id, pdu, salt).value;
    SmallFits(|data|);
    var e := TrapReaction(cfg.crypto, cfg.user, cfg.engine, cfg.own, cfg.contextName, id, pdu, salt,
                          Arrival(data, source, drawn));
  }

  lemma SealIsShort(cfg: Config, pdu: Pdu, msgId: int, salt: Salt)
    requires Sound(cfg.crypto) && CanProtect(cfg.user, cfg.own) && EncodableBody(pdu.body)
    requires |SealFrame(cfg.crypto, cfg.user, cfg.own, cfg.contextName, msgId, pdu, salt)| <= MAX_DATAGRAM
    ensures var sealed := Seal(cfg.crypto, cfg.user, cfg.own, cfg.contextName, msgId, pdu, salt);
            sealed.Success? && |sealed.value| <= MAX_DATAGRAM
  {
    hide SealScoped, Protected, Framed, LevelMatches, EncodableBody, Sound, MsgFlags, CanProtect, Fits, EncodeScopedPdu;
    SmallFits(|SealFrame(cfg.crypto, cfg.user, cfg.own, cfg.contextName, msgId, pdu, salt)|);
    FlagsMatch(cfg.user, pdu.pduType);
    SealSucceedsExactly(cfg.crypto, cfg.user, cfg.own, MsgFlags(cfg.user, pdu.pduType), cfg.own.engineId,
                        cfg.contextName, msgId, pdu, salt);
  }

  lemma InformReactionSucceeds(cfg: Config, pdu: Pdu, msgId: int, source: Address, salt: Salt, drawn: Salt)
    requires Sound(cfg.crypto) && CanProtect(cfg.user, cfg.engine)
    requires pdu.pduType == InformRequest && pdu.body.errorStatus == 0 && pdu.body.errorIndex == 0
    requires EncodableBody(pdu.body)
    requires |SealFrame(cfg.crypto, cfg.user, cfg.engine, cfg.contextName, msgId, pdu, salt)| <= MAX_DATAGRAM
    ensures var sealed := Seal(cfg.crypto, cfg.user, cfg.engine, cfg.contextName, msgId, pdu, salt);
            && sealed.Success? && |sealed.value| <= MAX_DATAGRAM
            && var r := React(cfg.crypto, cfg.user, cfg.engine, Arrival(sealed.value, source, drawn));
            && r.Deliver? && r.ack.Some? && |r.ack.value| <= MAX_DATAGRAM
            && Delivers(r.envelope, pdu)
            && EncodeInformResponse(cfg.crypto, r.envelope, cfg.user, cfg.engine, drawn) == Success(r.ack.value)
  {
    hide Seal, DecodeNotification, IsDiscoveryProbe, EncodeInformResponse, EncodableBody, RepresentableBody, Fits,
      MsgFlags, NormalBody, CanProtect, Sound, EncodeScopedPdu, Protected, Framed;
    SmallFits(|SealFrame(cfg.crypto, cfg.user, cfg.engine, cfg.contextName, msgId, pdu, salt)|);
    InformIsAcknowledged(cfg.crypto, cfg.user, cfg.engine, cfg.contextName, msgId, pdu, salt, drawn);
    var data := Seal(cfg.crypto, cfg.user, cfg.engine, cfg.contextName, msgId, pdu, salt).value;
    SmallFits(|data|);
    NotificationIsDelivered(cfg.crypto, cfg.user, cfg.engine, cfg.contextName, msgId, pdu, salt);
  }

  lemma AckTaken(cfg: Config, s: State, d: Datagram, inform: Pdu, e: Envelope, drawn: Salt)
    requires Sound(cfg.crypto) && s.peer == cfg.engine && s.pending == Some(inform) && d in s.toNotifier
    requires EncodeInformResponse(cfg.crypto, e, cfg.user, cfg.engine, drawn) == Success(d.data)
    requires |d.data| <= MAX_DATAGRAM && Delivers(e, inform)
    ensures Next(cfg, s, NotifierReceives(d))
            == s.(pending := None, accepted := s.accepted + [(inform, AckPdu(NormalPdu(inform)))])
  {
    hide Open, EncodeInformResponse, RepresentableBody, NormalVarbinds;
    SmallFits(|d.data|);
    AckIsAccepted(cfg.crypto, cfg.user, e, cfg.engine, drawn, cfg.engine.engineId);
  }

  /** From a notifier that knows the listener's engine: an inform whose varbinds are encodable and whose
      frame fits a datagram is delivered and its acknowledgement accepted, provided both sides can protect
      messages. The PDU is delivered as the wire carries it. */
  lemma InformCompletes(cfg: Config, s: State, varbinds: seq<RawVarBind>, salt: Salt, source: Address, drawn: Salt)
    requires Sound(cfg.crypto) && CanProtect(cfg.user, cfg.engine)
    requires s.peer == cfg.engine && cfg.engine.engineId != [] && s.pending.None?
    requires var pdu := InformPdu(s.requestIds, varbinds);
             && EncodableBody(pdu.body)
             && |SealFrame(cfg.crypto, cfg.user, cfg.engine, cfg.contextName, s.msgIds + 1, pdu, salt)| <= MAX_DATAGRAM
    ensures var pdu := InformPdu(s.requestIds, varbinds);
            var id := s.msgIds + 1;
            var sealed := Seal(cfg.crypto, cfg.user, cfg.engine, cfg.contextName, id, pdu, salt);
            && sealed.Success?
            && var r := React(cfg.crypto, cfg.user, cfg.engine, Arrival(sealed.value, source, drawn));
            && r.Deliver? && r.ack.Some? && r.envelope.pdu == NormalPdu(pdu)
            && var s1 := Next(cfg, s, SendInform(varbinds, salt));
            var arriving := Datagram(sealed.value, NotificationSent(pdu, id, salt));
            var s2 := Next(cfg, s1, ListenerReceives(arriving, source, drawn));
            var s3 := Next(cfg, s2, NotifierReceives(Datagram(r.ack.value, AckSent(r.envelope, drawn))));
            && s3.delivered == s.delivered + [r.envelope]
            && s3.accepted == s.accepted + [(pdu, AckPdu(NormalPdu(pdu)))]
  {
    hide Seal, React, Open, EncodeInformResponse, RepresentableBody, EncodableBody, NormalBody, FaithfulDelivery,
      SealFrame, CanProtect;
    var pdu := InformPdu(s.requestIds, varbinds);
    var id := s.msgIds + 1;
    InformReactionSucceeds(cfg, pdu, id, source, salt, drawn);
    var data := Seal(cfg.crypto, cfg.user, cfg.engine, cfg.contextName, id, pdu, salt).value;
    var r := React(cfg.crypto, cfg.user, cfg.engine, Arrival(data, source, drawn));
    var s1 := Next(cfg, s, SendInform(varbinds, salt));
    var s2 := Next(cfg, s1, ListenerReceives(Datagram(data, NotificationSent(pdu, id, salt)), source, drawn));
    assert s2.peer == s.peer && s2.pending == Some(pdu);
    AckTaken(cfg, s2, Datagram(r.ack.value, AckSent(r.envelope, drawn)), pdu, r.envelope, drawn);
  }

  /** An inform that is delivered and acknowledged, though not as it was issued: its address text is encoded,
      and comes back without the leading zero. */
  lemma AlteredInform(requestId: int, oid: Oids.Oid)
    requires Oids.InDomain(oid)
    ensures var inform := InformPdu(requestId, [RawVarBind(oid, IpAddressValue("010.0.0.1"))]);
            && EncodableBody(inform.body) && !RepresentableBody(inform.body)
            && NormalPdu(inform) == InformPdu(requestId, [RawVarBind(oid, IpAddressValue("10.0.0.1"))])
  {
    hide NormalValue, EncodableValue, Representable;
    ZerosAreLost();
    Oids.NormalOidExactly(oid);
    var vb := RawVarBind(oid, IpAddressValue("010.0.0.1"));
    assert NormalVarbinds([vb]) == [RawVarBind(oid, IpAddressValue("10.0.0.1"))];
    assert !RepresentableVarbind([vb][0]);
  }
}
