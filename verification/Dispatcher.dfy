/** The request dispatcher: trishul_snmp/transport/dispatcher.py over a community security model. */
module Dispatcher {
  import opened Wrappers
  import opened Octets
  import opened Pdus
  import opened Messages
  import Text

  /** What waiting for a datagram ends with. */
  datatype Event = Received(data: Bytes) | Expired

  datatype PreparedRequest = PreparedRequest(requestId: nat, encoded: Bytes)

  /** The connected socket: the events still to come, after which nothing arrives, and what was sent. */
  class UdpClient {
    var inbox: seq<Event>
    var sent: seq<Bytes>

    constructor (inbox: seq<Event>)
      ensures this.inbox == inbox && sent == []
    {
      this.inbox, sent := inbox, [];
    }

    method Send(data: Bytes)
      modifies this`sent
      ensures sent == old(sent) + [data]
    {
      sent := sent + [data];
    }

    method Receive() returns (r: Outcome<Bytes>)
      modifies this`inbox
      ensures old(inbox) == [] ==> inbox == [] && r == Failure(TimeoutError)
      ensures old(inbox) != [] ==>
                && inbox == old(inbox)[1..]
                && r == match old(inbox)[0] case Received(data) => Success(data) case Expired => Failure(TimeoutError)
    {
      if inbox == [] {
        return Failure(TimeoutError);
      }
      var event := inbox[0];
      inbox := inbox[1..];
      match event {
        case Received(data) => return Success(data);
        case Expired => return Failure(TimeoutError);
      }
    }
  }

  /** What a datagram means to a client waiting for the answer to `requestId`. */
  datatype Verdict = Skip | Accept(pdu: Pdu) | Reject(error: Error)

  function Judge(community: Bytes, requestId: int, data: Bytes): Verdict {
    var unwrapped := UnwrapCommunity(community, data);
    if unwrapped.Failure? then Reject(unwrapped.error)
    else if unwrapped.value.None? then Skip
    else
      var pdu := unwrapped.value.value;
      if pdu.pduType != Response then Reject(ProtocolError)
      else if pdu.body.requestId != requestId then Skip
      else Accept(pdu)
  }

  /** A datagram is the answer exactly if it is a version 1 message of the client's community with a RESPONSE of
      the request's id; it ends the wait with ProtocolError exactly if it is no message at all, or one of the
      community with another kind of PDU; and it is passed over in all other cases. */
  lemma JudgeExactly(community: Bytes, requestId: int, data: Bytes, pdu: Pdu)
    ensures Judge(community, requestId, data) == Accept(pdu)
       <==> && DecodeMessage(data) == Success(Message(1, community, pdu))
            && pdu.pduType == Response && pdu.body.requestId == requestId
    ensures Judge(community, requestId, data) == Reject(ProtocolError)
       <==> || DecodeMessage(data) == Failure(ProtocolError)
            || (DecodeMessage(data).Success? && DecodeMessage(data).value.community == community
                && DecodeMessage(data).value.pdu.pduType != Response)
    ensures Judge(community, requestId, data) == Skip
       <==> && DecodeMessage(data).Success?
            && var m := DecodeMessage(data).value;
            (m.community != community || (m.pdu.pduType == Response && m.pdu.body.requestId != requestId))
  {
    hide DecodeMessage, RepresentableBody, Text.IsUtf8;
    if DecodeMessage(data).Success? {
      DecodedMessageRepresentable(data);
    }
  }

  /** Where a request stands after one event: still waiting, after so many copies sent, or done. */
  datatype Progress = Waiting(sends: nat) | Done(result: Outcome<Pdu>, sends: nat)

  /** One event: a datagram is judged, an expired wait costs one more copy or, after the last, ends in a timeout. */
  function Advance(community: Bytes, retries: nat, requestId: int, sends: nat, event: Event): Progress {
    match event
    case Expired => if sends <= retries then Waiting(sends + 1) else Done(Failure(TimeoutError), sends)
    case Received(data) =>
      match Judge(community, requestId, data)
      case Skip => Waiting(sends)
      case Reject(error) => Done(Failure(error), sends)
      case Accept(pdu) => Done(Success(pdu), sends)
  }

  /** The result of a request and the number of copies sent, nothing arriving after the events of `inbox`. */
  function Await(community: Bytes, retries: nat, requestId: int, sends: nat, inbox: seq<Event>): (Outcome<Pdu>, nat)
    decreases |inbox|
  {
    if inbox == [] then (Failure(TimeoutError), retries + 1)
    else
      match Advance(community, retries, requestId, sends, inbox[0])
      case Waiting(n) => Await(community, retries, requestId, n, inbox[1..])
      case Done(result, n) => (result, n)
  }

  /** Datagrams that have nothing to do with the request change nothing. */
  lemma {:induction false} SkippedChangeNothing(community: Bytes, retries: nat, requestId: int, sends: nat,
                                                inbox: seq<Event>, k: nat)
    requires k <= |inbox|
    requires forall i :: 0 <= i < k ==> Skipped(community, requestId, inbox[i])
    ensures Await(community, retries, requestId, sends, inbox)
            == Await(community, retries, requestId, sends, inbox[k..])
    decreases k
  {
    hide Judge;
    if k > 0 {
      SkippedChangeNothing(community, retries, requestId, sends, inbox[1..], k - 1);
      assert inbox[1..][k - 1..] == inbox[k..];
    } else {
      assert inbox[0..] == inbox;
    }
  }

  predicate Skipped(community: Bytes, requestId: int, event: Event) {
    event.Received? && Judge(community, requestId, event.data).Skip?
  }

  lemma RejectsWithProtocolError(community: Bytes, requestId: int, data: Bytes)
    ensures Judge(community, requestId, data).Reject? ==> Judge(community, requestId, data).error == ProtocolError
  {
  }

  function Copies(data: Bytes, n: nat): (s: seq<Bytes>)
    ensures |s| == n && forall i :: 0 <= i < n ==> s[i] == data
  {
    if n == 0 then [] else Copies(data, n - 1) + [data]
  }

  lemma AcceptedIsUnwrapped(community: Bytes, requestId: int, data: Bytes)
    requires Judge(community, requestId, data).Accept?
    ensures var pdu := Judge(community, requestId, data).pdu;
            && pdu.pduType == Response && pdu.body.requestId == requestId
            && UnwrapCommunity(community, data) == Success(Some(pdu))
  {
  }

  /** What one wait, as `ReceiveMatchingResponse` describes it, does to the request. */
  lemma AwaitAfterWait(community: Bytes, retries: nat, requestId: int, sends: nat, inbox: seq<Event>,
                       r: Outcome<Pdu>, taken: nat)
    requires taken <= |inbox| && 1 <= sends <= retries + 1
    requires forall i :: 0 <= i < taken - 1 ==> Skipped(community, requestId, inbox[i])
    requires r.Success? ==> taken > 0 && inbox[taken - 1].Received?
                            && Judge(community, requestId, inbox[taken - 1].data) == Verdict.Accept(r.value)
    requires r.Failure? && r.error != TimeoutError ==>
               taken > 0 && inbox[taken - 1].Received?
               && Judge(community, requestId, inbox[taken - 1].data) == Reject(r.error)
    requires r == Failure(TimeoutError) ==>
               || (taken > 0 && inbox[taken - 1] == Expired)
               || (taken == |inbox| && (taken > 0 ==> Skipped(community, requestId, inbox[taken - 1])))
    ensures var awaited := Await(community, retries, requestId, sends, inbox);
            if r != Failure(TimeoutError) then awaited == (r, sends)
            else awaited == if sends <= retries then Await(community, retries, requestId, sends + 1, inbox[taken..])
                            else (Failure(TimeoutError), retries + 1)
  {
    hide Judge;
    if taken > 0 && !(r == Failure(TimeoutError) && Skipped(community, requestId, inbox[taken - 1])) {
      SkippedChangeNothing(community, retries, requestId, sends, inbox, taken - 1);
      var rest := inbox[taken - 1..];
      assert rest[0] == inbox[taken - 1] && rest[1..] == inbox[taken..];
    } else {
      SkippedChangeNothing(community, retries, requestId, sends, inbox, taken);
      assert inbox[taken..] == [];
    }
  }

  class RequestDispatcher {
    const client: UdpClient
    const community: Bytes
    const retries: nat
    var requestIds: nat

    constructor (client: UdpClient, community: Bytes, retries: nat)
      ensures this.client == client && this.community == community && this.retries == retries && requestIds == 1
    {
      this.client, this.community, this.retries, requestIds := client, community, retries, 1;
    }

    /** Every prepared request takes a fresh request id, even one that cannot be encoded. */
    method PrepareRequest(pduType: PduType, varbinds: seq<RawVarBind>, errorStatus: int, errorIndex: int)
      returns (r: Outcome<PreparedRequest>)
      modifies this
      ensures requestIds == old(requestIds) + 1
      ensures var pdu := Pdu(pduType, Body(old(requestIds), errorStatus, errorIndex, varbinds));
              var encoded := WrapCommunity(community, pdu);
              r == if encoded.Failure? then Failure(encoded.error)
                   else Success(PreparedRequest(old(requestIds), encoded.value))
    {
      var requestId := requestIds;
      requestIds := requestIds + 1;
      var encoded := WrapCommunity(community, Pdu(pduType, Body(requestId, errorStatus, errorIndex, varbinds)));
      if encoded.Failure? {
        return Failure(encoded.error);
      }
      return Success(PreparedRequest(requestId, encoded.value));
    }

    /** Waits for a matching response. `taken` events are used up; all but the last were datagrams that
        had nothing to do with the request. */
    method ReceiveMatchingResponse(requestId: int) returns (r: Outcome<Pdu>, ghost taken: nat)
      modifies client`inbox
      ensures taken <= |old(client.inbox)| && client.inbox == old(client.inbox)[taken..]
      ensures forall i :: 0 <= i < taken - 1 ==> Skipped(community, requestId, old(client.inbox)[i])
      ensures r.Success? ==>
                taken > 0 && old(client.inbox)[taken - 1].Received?
                && Judge(community, requestId, old(client.inbox)[taken - 1].data) == Verdict.Accept(r.value)
      ensures r.Failure? && r.error != TimeoutError ==>
                taken > 0 && old(client.inbox)[taken - 1].Received?
                && Judge(community, requestId, old(client.inbox)[taken - 1].data) == Reject(r.error)
      ensures r == Failure(TimeoutError) ==>
                || (taken > 0 && old(client.inbox)[taken - 1] == Expired)
                || (taken == |old(client.inbox)|
                    && (taken > 0 ==> Skipped(community, requestId, old(client.inbox)[taken - 1])))
    {
      hide Judge;
      ghost var all := client.inbox;
      taken := 0;
      while true
        invariant taken <= |all| && client.inbox == all[taken..]
        invariant forall i :: 0 <= i < taken ==> Skipped(community, requestId, all[i])
        decreases |client.inbox|
      {
        if client.inbox == [] {
          return Failure(TimeoutError), taken;
        }
        var data := client.Receive();
        taken := taken + 1;
        if data.Failure? {
          return Failure(TimeoutError), taken;
        }
        RejectsWithProtocolError(community, requestId, data.value);
        match Judge(community, requestId, data.value) {
          case Skip =>
          case Reject(error) => return Failure(error), taken;
          case Accept(pdu) => return Success(pdu), taken;
        }
      }
    }

    /** Sends identical copies, at most `retries + 1` of them, one more after every timeout; a timeout
        is reported only after exactly that many, and a response only if a datagram that arrived
        carries it. */
    method SendPreparedRequest(request: PreparedRequest) returns (r: Outcome<Pdu>, ghost sends: nat)
      modifies client
      ensures 1 <= sends <= retries + 1
      ensures client.sent == old(client.sent) + Copies(request.encoded, sends)
      ensures (r, sends) == Await(community, retries, request.requestId, 1, old(client.inbox))
      ensures r == Failure(TimeoutError) ==> sends == retries + 1
      ensures |client.inbox| <= |old(client.inbox)|
      ensures r.Success? ==>
                && r.value.pduType == Response && r.value.body.requestId == request.requestId
                && exists e :: e in old(client.inbox) && e.Received?
                               && UnwrapCommunity(community, e.data) == Success(Some(r.value))
    {
      hide Judge, Await, Skipped, UnwrapCommunity;
      ghost var all := client.inbox;
      ghost var id := request.requestId;
      sends := 0;
      assert client.sent + [] == client.sent;
      for attempt := 0 to retries + 1
        invariant sends == attempt
        invariant client.sent == old(client.sent) + Copies(request.encoded, sends)
        invariant |client.inbox| <= |all| && client.inbox == all[|all| - |client.inbox|..]
        invariant Await(community, retries, id, 1, all)
                  == if attempt <= retries then Await(community, retries, id, attempt + 1, client.inbox)
                     else (Failure(TimeoutError), retries + 1)
      {
        ghost var before := client.inbox;
        client.Send(request.encoded);
        sends := sends + 1;
        ghost var taken;
        r, taken := ReceiveMatchingResponse(request.requestId);
        AwaitAfterWait(community, retries, id, sends, before, r, taken);
        if r.Success? {
          assert before[taken - 1] in all;
          AcceptedIsUnwrapped(community, id, before[taken - 1].data);
          return;
        }
        if r.error != TimeoutError {
          return;
        }
      }
      r := Failure(TimeoutError);
    }
  }
}
