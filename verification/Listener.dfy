/** The SNMPv3 notification listener: trishul_snmp/notify/listener.py. */
module Listener {
  import opened Wrappers
  import opened Octets
  import opened Ber
  import opened Asn1
  import opened Pdus
  import opened Usm
  import opened NotifyV3

  type Address = string

  /** A received datagram, with the random octets drawn if handling it encrypts an answer. */
  datatype Arrival = Arrival(data: Bytes, source: Address, salt: Salt)

  datatype Sent = Sent(data: Bytes, to: Address)

  /** What one datagram makes the listener do. */
  datatype Reaction =
    | Ignore
    | Answer(report: Bytes)
    | Deliver(envelope: Envelope, ack: Option<Bytes>)
    | Raise(error: Error)

  function React(c: Crypto, user: User, engine: Engine, arrival: Arrival): Reaction {
    if IsDiscoveryProbe(arrival.data) then
      var report := EncodeDiscoveryReport(arrival.data, engine);
      if report.Success? then Answer(report.value)
      else if report.error.IsProtocol() then Ignore else Raise(report.error)
    else
      var decoded := DecodeNotification(c, user, arrival.data);
      if decoded.Failure? then (if decoded.error.IsProtocol() then Ignore else Raise(decoded.error))
      else if decoded.value.None? then Ignore
      else
        var envelope := decoded.value.value;
        if envelope.pdu.pduType != InformRequest then Deliver(envelope, None)
        else
          var ack := EncodeInformResponse(c, envelope, user, engine, arrival.salt);
          if ack.Failure? then Raise(ack.error) else Deliver(envelope, Some(ack.value))
  }

  /** The datagrams a reaction puts on the wire: a REPORT, an acknowledgement, or none. */
  function Output(r: Reaction, to: Address): seq<Sent> {
    match r
    case Answer(report) => [Sent(report, to)]
    case Deliver(_, Some(ack)) => [Sent(ack, to)]
    case _ => []
  }

  function Outputs(c: Crypto, user: User, engine: Engine, arrivals: seq<Arrival>): seq<Sent> {
    if arrivals == [] then []
    else
      var last := arrivals[|arrivals| - 1];
      Outputs(c, user, engine, arrivals[..|arrivals| - 1]) + Output(React(c, user, engine, last), last.source)
  }

  predicate Quiet(c: Crypto, user: User, engine: Engine, arrival: Arrival) {
    var r := React(c, user, engine, arrival);
    r.Ignore? || r.Answer?
  }

  /** The datagram is no probe, and decodes to this notification. */
  predicate Brings(c: Crypto, user: User, arrival: Arrival, e: Envelope) {
    !IsDiscoveryProbe(arrival.data) && DecodeNotification(c, user, arrival.data) == Success(Some(e))
  }

  ghost predicate BringsNothing(c: Crypto, user: User, arrival: Arrival) {
    forall e :: !Brings(c, user, arrival, e)
  }

  /** Handling the datagram raises: its privacy fields are out of range, or the acknowledgement of its inform
      cannot be made. */
  predicate Fails(c: Crypto, user: User, engine: Engine, arrival: Arrival, error: Error) {
    && !IsDiscoveryProbe(arrival.data)
    && match DecodeNotification(c, user, arrival.data)
       case Failure(e) => e == error && error != ProtocolError && error != AuthenticationError
       case Success(None) => false
       case Success(Some(e)) =>
         e.pdu.pduType == InformRequest && EncodeInformResponse(c, e, user, engine, arrival.salt) == Failure(error)
  }

  /** Each of the reactions, in terms of what the datagram is: a probe is answered, a trap or an inform is
      delivered, the inform with its acknowledgement, and the rest is ignored or raises. */
  lemma ReactionExactly(c: Crypto, user: User, engine: Engine, arrival: Arrival)
    ensures var r := React(c, user, engine, arrival);
            && (forall report :: r == Answer(report) <==>
                  IsDiscoveryProbe(arrival.data) && EncodeDiscoveryReport(arrival.data, engine) == Success(report))
            && (r.Answer? <==> IsDiscoveryProbe(arrival.data))
            && (forall e :: r == Deliver(e, None) <==> Brings(c, user, arrival, e) && e.pdu.pduType == SnmpV2Trap)
            && (forall e, ack :: r == Deliver(e, Some(ack)) <==>
                  && Brings(c, user, arrival, e) && e.pdu.pduType == InformRequest
                  && EncodeInformResponse(c, e, user, engine, arrival.salt) == Success(ack))
            && (forall error :: r == Raise(error) <==> Fails(c, user, engine, arrival, error))
            && (r.Ignore? <==>
                  && !IsDiscoveryProbe(arrival.data)
                  && DecodeNotification(c, user, arrival.data)
                     in {Success(None), Failure(ProtocolError), Failure(AuthenticationError)})
  {
    hide ReadProbe, Report, DecodeNotification, EncodeInformResponse;
    if IsDiscoveryProbe(arrival.data) {
      ReportIsAccepted(arrival.data, engine);
    }
    var decoded := DecodeNotification(c, user, arrival.data);
    if decoded.Success? && decoded.value.Some? {
      DeliveredPdu(c, user, arrival.data);
    }
  }

  /** What comes of a sequence of datagrams, and how many of them it takes: the first that is delivered or
      raises ends the wait. */
  function Received(c: Crypto, user: User, engine: Engine, arrivals: seq<Arrival>): (Outcome<Envelope>, nat)
    decreases |arrivals|
  {
    if arrivals == [] then (Failure(TransportError), 0)
    else
      match React(c, user, engine, arrivals[0])
      case Raise(error) => (Failure(error), 1)
      case Deliver(envelope, _) => (Success(envelope), 1)
      case _ =>
        var (r, n) := Received(c, user, engine, arrivals[1..]);
        (r, n + 1)
  }

  /** Quiet datagrams are passed over. */
  lemma {:induction false} QuietIsPassedOver(c: Crypto, user: User, engine: Engine, quiet: seq<Arrival>,
                                             rest: seq<Arrival>)
    requires forall i :: 0 <= i < |quiet| ==> Quiet(c, user, engine, quiet[i])
    ensures var (r, n) := Received(c, user, engine, rest);
            Received(c, user, engine, quiet + rest) == (r, |quiet| + n)
    decreases |quiet|
  {
    hide React;
    if quiet != [] {
      QuietIsPassedOver(c, user, engine, quiet[1..], rest);
      assert (quiet + rest)[1..] == quiet[1..] + rest;
    } else {
      assert quiet + rest == rest;
    }
  }

  class V3NotificationListener {
    const crypto: Crypto
    const user: User
    const localEngine: Engine
    var closed: bool
    var inbox: seq<Arrival>
    var sent: seq<Sent>

    constructor (crypto: Crypto, user: User, localEngine: Engine)
      ensures this.crypto == crypto && this.user == user && this.localEngine == localEngine
      ensures !closed && inbox == [] && sent == []
    {
      this.crypto, this.user, this.localEngine := crypto, user, localEngine;
      closed, inbox, sent := false, [], [];
    }

    /** Consumes datagrams up to the first that brings a notification or raises, and returns just that
        notification. Every datagram consumed is answered as its reaction says, and nothing else is
        sent. Running out of datagrams stands for the closed socket. */
    method Receive() returns (r: Outcome<Envelope>, ghost taken: nat)
      modifies this`inbox, this`sent
      ensures (r, taken) == Received(crypto, user, localEngine, old(inbox))
      ensures taken <= |old(inbox)| && inbox == old(inbox)[taken..]
      ensures sent == old(sent) + Outputs(crypto, user, localEngine, old(inbox)[..taken])
      ensures forall i :: 0 <= i < taken - 1 ==> BringsNothing(crypto, user, old(inbox)[i])
      ensures r.Success? ==> taken > 0 && Brings(crypto, user, old(inbox)[taken - 1], r.value)
      ensures r.Failure? ==>
                || (taken > 0 && Fails(crypto, user, localEngine, old(inbox)[taken - 1], r.error))
                || (inbox == [] && r.error == TransportError
                    && (taken > 0 ==> BringsNothing(crypto, user, old(inbox)[taken - 1])))
    {
      hide React, Output, Brings, BringsNothing, Fails;
      ghost var all := inbox;
      taken := 0;
      assert all[..0] == [] && all[0..] == all && sent + [] == sent;
      while true
        invariant taken <= |all| && inbox == all[taken..]
        invariant sent == old(sent) + Outputs(crypto, user, localEngine, all[..taken])
        invariant forall i :: 0 <= i < taken ==> BringsNothing(crypto, user, all[i])
        invariant var (result, n) := Received(crypto, user, localEngine, inbox);
                  Received(crypto, user, localEngine, all) == (result, taken + n)
        decreases |inbox|
      {
        if inbox == [] {
          return Failure(TransportError), taken;
        }
        var arrival := inbox[0];
        var reaction := React(crypto, user, localEngine, arrival);
        ReactionMeans(crypto, user, localEngine, arrival);
        assert all[..taken + 1][..taken] == all[..taken];
        sent := sent + Output(reaction, arrival.source);
        inbox := inbox[1..];
        taken := taken + 1;
        match reaction {
          case Ignore =>
          case Answer(_) =>
          case Raise(error) => return Failure(error), taken;
          case Deliver(envelope, _) => return Success(envelope), taken;
        }
      }
    }
  }

  lemma ReactionMeans(c: Crypto, user: User, engine: Engine, arrival: Arrival)
    ensures match React(c, user, engine, arrival)
            case Raise(error) => Fails(c, user, engine, arrival, error)
            case Deliver(e, _) => Brings(c, user, arrival, e)
            case _ => BringsNothing(c, user, arrival)
  {
    hide IsDiscoveryProbe, EncodeDiscoveryReport, DecodeNotification, EncodeInformResponse;
    ReactionExactly(c, user, engine, arrival);
  }

  function Probes(arrivals: seq<Arrival>): nat {
    if arrivals == [] then 0
    else Probes(arrivals[..|arrivals| - 1]) + if IsDiscoveryProbe(arrivals[|arrivals| - 1].data) then 1 else 0
  }

  function DeliveredInforms(c: Crypto, user: User, engine: Engine, arrivals: seq<Arrival>): nat {
    if arrivals == [] then 0
    else
      var r := React(c, user, engine, arrivals[|arrivals| - 1]);
      DeliveredInforms(c, user, engine, arrivals[..|arrivals| - 1])
      + if r.Deliver? && r.envelope.pdu.pduType == InformRequest then 1 else 0
  }

  /** Over any sequence of datagrams: one REPORT per probe, one acknowledgement per delivered inform, nothing else. */
  lemma {:induction false} OneAnswerEach(c: Crypto, user: User, engine: Engine, arrivals: seq<Arrival>)
    ensures |Outputs(c, user, engine, arrivals)| == Probes(arrivals) + DeliveredInforms(c, user, engine, arrivals)
  {
    hide React, IsDiscoveryProbe;
    if arrivals != [] {
      OneAnswerEach(c, user, engine, arrivals[..|arrivals| - 1]);
      OneOutput(c, user, engine, arrivals[|arrivals| - 1]);
    }
  }

  /** A REPORT to whoever probed, an acknowledgement to whoever sent an inform that is delivered, and else
      nothing. */
  lemma OneOutput(c: Crypto, user: User, engine: Engine, arrival: Arrival)
    ensures var output := Output(React(c, user, engine, arrival), arrival.source);
            && (IsDiscoveryProbe(arrival.data) ==>
                  && EncodeDiscoveryReport(arrival.data, engine).Success?
                  && output == [Sent(EncodeDiscoveryReport(arrival.data, engine).value, arrival.source)])
            && (forall e :: Brings(c, user, arrival, e) ==>
                  if e.pdu.pduType == InformRequest && EncodeInformResponse(c, e, user, engine, arrival.salt).Success?
                  then output == [Sent(EncodeInformResponse(c, e, user, engine, arrival.salt).value, arrival.source)]
                  else output == [])
            && (!IsDiscoveryProbe(arrival.data) && BringsNothing(c, user, arrival) ==> output == [])
    ensures var r := React(c, user, engine, arrival);
            |Output(r, arrival.source)| == (if IsDiscoveryProbe(arrival.data) then 1 else 0)
                                         + (if r.Deliver? && r.envelope.pdu.pduType == InformRequest then 1 else 0)
  {
    hide IsDiscoveryProbe, EncodeDiscoveryReport, DecodeNotification, EncodeInformResponse;
    ReactionExactly(c, user, engine, arrival);
  }

  lemma TrapReaction(c: Crypto, user: User, engine: Engine, local: Engine, contextName: Bytes, msgId: int, pdu: Pdu,
                     salt: Salt, trap: Arrival) returns (e: Envelope)
    requires Sound(c) && pdu.pduType == SnmpV2Trap
    requires Seal(c, user, local, contextName, msgId, pdu, salt) == Success(trap.data) && Fits(|trap.data|)
    ensures React(c, user, engine, trap) == Deliver(e, None)
    ensures e.pdu == NormalPdu(pdu) && RepresentableBody(e.pdu.body)
    ensures e.pdu == pdu <==> RepresentableBody(pdu.body)
    ensures e.contextEngineId == local.engineId && e.contextName == contextName && e.level == LevelOf(user)
  {
    hide Seal, DecodeNotification, IsDiscoveryProbe, NormalBody, RepresentableBody, MsgFlags, Fits;
    NotificationIsDelivered(c, user, local, contextName, msgId, pdu, salt);
    e := DecodeNotification(c, user, trap.data).value.value;
  }

  /** A sealed trap that arrives, whatever quiet datagrams come before it, is what the listener returns: with
      its PDU in normal form, in its own context and at the user's level, and nothing is sent for it. */
  lemma TrapIsReceived(c: Crypto, user: User, engine: Engine, local: Engine, contextName: Bytes, msgId: int, pdu: Pdu,
                       salt: Salt, quiet: seq<Arrival>, trap: Arrival, rest: seq<Arrival>)
    requires Sound(c) && pdu.pduType == SnmpV2Trap
    requires Seal(c, user, local, contextName, msgId, pdu, salt) == Success(trap.data) && Fits(|trap.data|)
    requires forall i :: 0 <= i < |quiet| ==> Quiet(c, user, engine, quiet[i])
    ensures var (r, n) := Received(c, user, engine, quiet + ([trap] + rest));
            && n == |quiet| + 1 && r.Success?
            && r.value.pdu == NormalPdu(pdu) && (r.value.pdu == pdu <==> RepresentableBody(pdu.body))
            && r.value.contextEngineId == local.engineId && r.value.contextName == contextName
            && r.value.level == LevelOf(user)
    ensures Output(React(c, user, engine, trap), trap.source) == []
  {
    hide Seal, React, NormalPdu, RepresentableBody, Fits;
    var e := TrapReaction(c, user, engine, local, contextName, msgId, pdu, salt, trap);
    QuietIsPassedOver(c, user, engine, quiet, [trap] + rest);
    assert ([trap] + rest)[0] == trap;
  }
}
