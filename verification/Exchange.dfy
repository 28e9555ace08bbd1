/** One dispatcher and one honest responder over a network that drops, delays, duplicates and reorders
    datagrams, the store changing at will. */
module Exchange {
  import opened Wrappers
  import opened Octets
  import opened Ber
  import opened Pdus
  import opened Messages
  import opened Lex
  import opened Sources
  import opened Responder
  import D = Dispatcher

  const MAX_DATAGRAM := 65535

  datatype Config = Config(community: Community, communities: Option<set<Bytes>>, retries: nat)

  /** A request, and how many stores the responder had held when it was issued. */
  datatype Issue = Issue(request: Pdu, at: nat)

  /** Where a datagram came from; only history and invariants look at it. */
  datatype Origin = RequestSent(issue: Issue) | ResponseSent(answer: Answered)

  /** An answer, the request it is for, and which of the stores held it was computed from. */
  datatype Answered = Answered(issue: Issue, when: nat, readings: Readings, response: Pdu)

  datatype Datagram = Datagram(data: Bytes, origin: Origin)

  /** The request the client waits for, its octets, and how many copies were sent. */
  datatype Active = Active(issue: Issue, data: Bytes, sends: nat)

  /** `held` and `sent` are history: every store the responder had before the present one, and every
      datagram the client handed to the network. */
  datatype State = State(requestIds: nat, active: Option<Active>, store: Snapshot, held: seq<Snapshot>,
                         toServer: seq<Datagram>, toClient: seq<Datagram>, sent: seq<Datagram>,
                         issued: seq<Issue>, returned: seq<(Issue, Pdu)>, timedOut: seq<Issue>)

  datatype Event =
    | Begin(pduType: PduType, errorStatus: int, errorIndex: int, varbinds: seq<RawVarBind>)
    | StoreChanges(command: Command)
    | ServerReceives(k: nat, readings: Readings)
    | ClientReceives(j: nat)
    | Times
    | Lose(net: bool, i: nat)

  const INIT := State(1, None, Snapshot([], map[]), [], [], [], [], [], [], [])

  function Put(net: seq<Datagram>, d: Datagram): seq<Datagram> {
    if |d.data| <= MAX_DATAGRAM then net + [d] else net
  }

  function Send(s: State, d: Datagram): State {
    s.(sent := s.sent + [d], toServer := Put(s.toServer, d))
  }

  /** One step; a step that is not enabled changes nothing. A datagram stays in flight when it is
      received, so it may arrive again, at any later time and in any order. */
  function Next(cfg: Config, s: State, e: Event): State
    requires Consistent(s.store)
  {
    match e
    case Begin(pduType, errorStatus, errorIndex, varbinds) =>
      var pdu := Pdu(pduType, Body(s.requestIds, errorStatus, errorIndex, varbinds));
      var encoded := WrapCommunity(cfg.community, pdu);
      if s.active.Some? then s
      else if encoded.Failure? then s.(requestIds := s.requestIds + 1)
      else
        var issue := Issue(pdu, |s.held|);
        Send(s.(requestIds := s.requestIds + 1, issued := s.issued + [issue],
                active := Some(Active(issue, encoded.value, 1))),
             Datagram(encoded.value, RequestSent(issue)))
    case StoreChanges(command) => s.(store := Apply(s.store, command), held := s.held + [s.store])
    case ServerReceives(k, readings) => if k >= |s.toServer| then s else ServerStep(cfg, s, s.toServer[k], readings)
    case ClientReceives(j) => if j >= |s.toClient| then s else ClientStep(cfg, s, D.Received(s.toClient[j].data))
    case Times => ClientStep(cfg, s, D.Expired)
    case Lose(net, i) =>
      if net then (if i < |s.toServer| then s.(toServer := s.toServer[..i] + s.toServer[i + 1..]) else s)
      else if i < |s.toClient| then s.(toClient := s.toClient[..i] + s.toClient[i + 1..]) else s
  }

  /** The client does what the dispatcher does on that event. */
  function ClientStep(cfg: Config, s: State, e: D.Event): State {
    if s.active.None? then s
    else
      var a := s.active.value;
      match D.Advance(cfg.community, cfg.retries, a.issue.request.body.requestId, a.sends, e)
      case Waiting(n) =>
        if n == a.sends then s else Send(s.(active := Some(a.(sends := n))), Datagram(a.data, RequestSent(a.issue)))
      case Done(Success(pdu), _) => s.(active := None, returned := s.returned + [(a.issue, pdu)])
      case Done(Failure(error), _) =>
        s.(active := None, timedOut := if error == TimeoutError then s.timedOut + [a.issue] else s.timedOut)
  }

  /** The responder sends what handling the datagram yields, if it does not raise. */
  function ServerStep(cfg: Config, s: State, d: Datagram, readings: Readings): State
    requires Consistent(s.store)
  {
    var handled := HandleDatagram(cfg.communities, s.store, d.data, readings);
    if handled.Failure? || handled.value.None? || d.origin.ResponseSent? then s
    else
      AnswersAreAddressed(cfg.communities, s.store, d.data, readings);
      var response := BuildResponse(s.store, DecodeMessage(d.data).value.pdu, readings).value;
      var answer := Answered(d.origin.issue, |s.held|, readings, response);
      s.(toClient := Put(s.toClient, Datagram(handled.value.value, ResponseSent(answer))))
  }

  function Run(cfg: Config, events: seq<Event>): (s: State)
    ensures Consistent(s.store)
  {
    if events == [] then INIT
    else
      var before := Run(cfg, events[..|events| - 1]);
      var e := events[|events| - 1];
      StoreStaysConsistent(cfg, before, e);
      Next(cfg, before, e)
  }

  lemma StoreStaysConsistent(cfg: Config, s: State, e: Event)
    requires Consistent(s.store)
    ensures Consistent(Next(cfg, s, e).store)
  {
    hide Consistent, D.Advance, WrapCommunity, HandleDatagram, BuildResponse, Apply;
    if e.StoreChanges? {
      ApplyKeeps(s.store, e.command);
    }
  }

  // Invariants

  /** The stores the responder has had, the present one last. */
  function Stores(s: State): seq<Snapshot> {
    s.held + [s.store]
  }

  /** An answer computed by the responder, from a store it had since the request was issued, for the
      request as the wire carries it. */
  ghost predicate Honest(stores: seq<Snapshot>, a: Answered) {
    && a.issue.at <= a.when < |stores|
    && Consistent(stores[a.when])
    && BuildResponse(stores[a.when], NormalPdu(a.issue.request), a.readings) == Some(a.response)
  }

  ghost predicate GenuineRequest(cfg: Config, issued: seq<Issue>, stores: seq<Snapshot>, d: Datagram) {
    && d.origin.RequestSent? && d.origin.issue in issued && d.origin.issue.at < |stores|
    && WrapCommunity(cfg.community, d.origin.issue.request) == Success(d.data)
  }

  ghost predicate GenuineResponse(cfg: Config, issued: seq<Issue>, stores: seq<Snapshot>, d: Datagram) {
    && d.origin.ResponseSent? && d.origin.answer.issue in issued && Honest(stores, d.origin.answer)
    && |d.data| <= MAX_DATAGRAM
    && EncodeMessage(Message(V2C_VERSION, cfg.community, d.origin.answer.response)) == Success(d.data)
  }

  /** The issued requests carry increasing ids. */
  predicate WellIssued(issued: seq<Issue>, nextId: nat) {
    && (forall i :: 0 <= i < |issued| ==> issued[i].request.body.requestId < nextId)
    && forall i, j :: 0 <= i < j < |issued| ==> issued[i].request.body.requestId < issued[j].request.body.requestId
  }

  /** The response returned for a request is the normal form of the responder's answer to the normal form of
      that very request. Each is its own normal form exactly when the wire can carry it. */
  ghost predicate Answers(issued: seq<Issue>, stores: seq<Snapshot>, issue: Issue, response: Pdu) {
    && issue in issued
    && (NormalPdu(issue.request) == issue.request <==> RepresentableBody(issue.request.body))
    && exists a: Answered :: IsAnswer(stores, issue, response, a)
  }

  ghost predicate IsAnswer(stores: seq<Snapshot>, issue: Issue, response: Pdu, a: Answered) {
    && Honest(stores, a) && a.issue == issue && response == NormalPdu(a.response)
    && (response == a.response <==> RepresentableBody(a.response.body))
  }

  /** How many copies of a request were handed to the network. */
  function Copies(sent: seq<Datagram>, issue: Issue): nat {
    if sent == [] then 0
    else Copies(sent[..|sent| - 1], issue) + if sent[|sent| - 1].origin == RequestSent(issue) then 1 else 0
  }

  ghost predicate Inv(cfg: Config, s: State) {
    && Consistent(s.store)
    && WellIssued(s.issued, s.requestIds)
    && (s.active.Some? ==>
          && s.active.value.issue in s.issued && s.active.value.issue !in s.timedOut
          && GenuineRequest(cfg, s.issued, Stores(s), Datagram(s.active.value.data, RequestSent(s.active.value.issue)))
          && s.active.value.sends == Copies(s.sent, s.active.value.issue))
    && (forall issue <- s.issued :: 1 <= Copies(s.sent, issue) <= cfg.retries + 1)
    && (forall issue <- s.timedOut :: issue in s.issued && Copies(s.sent, issue) == cfg.retries + 1)
    && (forall d <- s.sent :: GenuineRequest(cfg, s.issued, Stores(s), d))
    && (forall d <- s.toServer :: d in s.sent && |d.data| <= MAX_DATAGRAM)
    && (forall d <- s.toClient :: GenuineResponse(cfg, s.issued, Stores(s), d))
    && (forall r <- s.returned :: Answers(s.issued, Stores(s), r.0, r.1))
  }

  lemma SameIdSameRequest(issued: seq<Issue>, nextId: nat, p: Issue, q: Issue)
    requires WellIssued(issued, nextId) && p in issued && q in issued
    requires p.request.body.requestId == q.request.body.requestId
    ensures p == q
  {
  }

  /** A genuine response is judged by its request id alone, and read as the normal form of what was built. */
  lemma ResponseIsRead(cfg: Config, issued: seq<Issue>, stores: seq<Snapshot>, d: Datagram, requestId: int)
    requires GenuineResponse(cfg, issued, stores, d)
    ensures var a := d.origin.answer;
            && a.response.body.requestId == a.issue.request.body.requestId
            && D.Judge(cfg.community, requestId, d.data)
               == (if a.issue.request.body.requestId == requestId then D.Accept(NormalPdu(a.response)) else D.Skip)
            && (NormalPdu(a.response) == a.response <==> RepresentableBody(a.response.body))
  {
    hide EncodeMessage, DecodeMessage, Bulk, NextVarbinds, ExactVarbinds, RepresentableBody, EncodableBody,
      NormalVarbinds, Consistent, Fits;
    var a := d.origin.answer;
    SmallFits(|d.data|);
    NormalMessageIsRead(Message(V2C_VERSION, cfg.community, a.response));
  }

  lemma RequestIsRead(cfg: Config, issued: seq<Issue>, stores: seq<Snapshot>, d: Datagram)
    requires GenuineRequest(cfg, issued, stores, d) && |d.data| <= MAX_DATAGRAM
    ensures DecodeMessage(d.data) == Success(Message(V2C_VERSION, cfg.community, NormalPdu(d.origin.issue.request)))
    ensures NormalPdu(d.origin.issue.request) == d.origin.issue.request
       <==> RepresentableBody(d.origin.issue.request.body)
  {
    hide EncodeMessage, DecodeMessage, RepresentableBody, EncodableBody, NormalBody, Consistent, Fits;
    SmallFits(|d.data|);
    NormalMessageIsRead(Message(V2C_VERSION, cfg.community, d.origin.issue.request));
  }

  // Growth

  /** What was genuine stays genuine when requests are issued and the store moves on. */
  lemma HistoryGrows(cfg: Config, s: State, s': State)
    requires Inv(cfg, s)
    requires (forall i <- s.issued :: i in s'.issued) && Stores(s) <= Stores(s')
    ensures forall d <- s.sent :: GenuineRequest(cfg, s'.issued, Stores(s'), d)
    ensures forall d <- s.toClient :: GenuineResponse(cfg, s'.issued, Stores(s'), d)
    ensures forall r <- s.returned :: Answers(s'.issued, Stores(s'), r.0, r.1)
  {
    hide WrapCommunity, EncodeMessage, Consistent, RepresentableBody, BuildResponse, WellIssued, NormalPdu, Copies;
    forall r <- s.returned
      ensures Answers(s'.issued, Stores(s'), r.0, r.1)
    {
      var a: Answered :| IsAnswer(Stores(s), r.0, r.1, a);
      assert IsAnswer(Stores(s'), r.0, r.1, a);
    }
  }

  lemma CopiesOfNext(sent: seq<Datagram>, d: Datagram, issue: Issue)
    ensures Copies(sent + [d], issue) == Copies(sent, issue) + if d.origin == RequestSent(issue) then 1 else 0
  {
    assert (sent + [d])[..|sent|] == sent;
  }

  /** Nothing was sent for a request that was not issued. */
  lemma {:induction false} NoCopies(sent: seq<Datagram>, issued: seq<Issue>, issue: Issue)
    requires issue !in issued
    requires forall d <- sent :: d.origin.RequestSent? && d.origin.issue in issued
    ensures Copies(sent, issue) == 0
  {
    if sent != [] {
      NoCopies(sent[..|sent| - 1], issued, issue);
    }
  }

  // Steps

  lemma BeginKeeps(cfg: Config, s: State, e: Event)
    requires Inv(cfg, s) && e.Begin?
    ensures Inv(cfg, Next(cfg, s, e))
  {
    hide WrapCommunity, Consistent, Honest, GenuineResponse, Answers, Copies;
    var s' := Next(cfg, s, e);
    HistoryGrows(cfg, s, s');
    if |s'.issued| > |s.issued| {
      var issue := s'.active.value.issue;
      NoCopies(s.sent, s.issued, issue);
      forall i: Issue
        ensures Copies(s'.sent, i) == Copies(s.sent, i) + if i == issue then 1 else 0
      {
        CopiesOfNext(s.sent, s'.sent[|s.sent|], i);
      }
    }
  }

  lemma StoreChangeKeeps(cfg: Config, s: State, command: Command)
    requires Inv(cfg, s)
    ensures Inv(cfg, Next(cfg, s, StoreChanges(command)))
  {
    hide WrapCommunity, Consistent, GenuineResponse, Answers, Apply, WellIssued, Copies;
    StoreStaysConsistent(cfg, s, StoreChanges(command));
    HistoryGrows(cfg, s, Next(cfg, s, StoreChanges(command)));
  }

  /** A late answer to an earlier request is not taken for the pending one, and no genuine answer is refused. */
  lemma ClientStepKeeps(cfg: Config, s: State, j: nat)
    requires Inv(cfg, s) && j < |s.toClient| && s.active.Some?
    ensures Inv(cfg, Next(cfg, s, ClientReceives(j)))
    ensures !D.Judge(cfg.community, s.active.value.issue.request.body.requestId, s.toClient[j].data).Reject?
  {
    hide D.Judge, WrapCommunity, EncodeMessage, Consistent, RepresentableBody, BuildResponse, NormalPdu, Copies;
    var issue := s.active.value.issue;
    var d := s.toClient[j];
    assert d in s.toClient;
    ResponseIsRead(cfg, s.issued, Stores(s), d, issue.request.body.requestId);
    var a := d.origin.answer;
    if a.issue.request.body.requestId == issue.request.body.requestId {
      SameIdSameRequest(s.issued, s.requestIds, a.issue, issue);
      IssueNormal(cfg, issue);
      assert IsAnswer(Stores(s), issue, NormalPdu(a.response), a);
    }
  }

  lemma IssueNormal(cfg: Config, issue: Issue)
    requires WrapCommunity(cfg.community, issue.request).Success?
    ensures NormalPdu(issue.request) == issue.request <==> RepresentableBody(issue.request.body)
  {
    hide EncodeMessage, NormalPdu, RepresentableBody, EncodableBody, DecodeMessage;
    NormalMessageIsRead(Message(V2C_VERSION, cfg.community, issue.request));
  }

  /** What the responder sends is its answer to an issued request, computed from the store it has. */
  lemma ServerStepKeeps(cfg: Config, s: State, k: nat, readings: Readings)
    requires Inv(cfg, s) && k < |s.toServer|
    ensures Inv(cfg, Next(cfg, s, ServerReceives(k, readings)))
  {
    hide WrapCommunity, EncodeMessage, DecodeMessage, Consistent, RepresentableBody, BuildResponse, Answers, WellIssued,
      NormalPdu, Copies;
    var d := s.toServer[k];
    assert d in s.toServer && d in s.sent;
    RequestIsRead(cfg, s.issued, Stores(s), d);
    assert Stores(s)[|s.held|] == s.store;
  }

  /** An expired wait sends one more copy, or ends the request after retries + 1. */
  lemma TimesKeeps(cfg: Config, s: State)
    requires Inv(cfg, s)
    ensures Inv(cfg, Next(cfg, s, Times))
  {
    hide D.Judge, WrapCommunity, Consistent, GenuineResponse, Answers, WellIssued, Copies;
    if s.active.Some? {
      var a := s.active.value;
      forall i: Issue
        ensures Copies(s.sent + [Datagram(a.data, RequestSent(a.issue))], i)
                == Copies(s.sent, i) + if i == a.issue then 1 else 0
      {
        CopiesOfNext(s.sent, Datagram(a.data, RequestSent(a.issue)), i);
      }
    }
  }

  lemma StepKeeps(cfg: Config, s: State, e: Event)
    requires Inv(cfg, s)
    ensures Inv(cfg, Next(cfg, s, e))
  {
    hide D.Judge, WrapCommunity, Consistent, GenuineRequest, GenuineResponse, Answers, Apply, HandleDatagram,
      WellIssued, Copies, ClientStep;
    match e
    case Begin(_, _, _, _) => BeginKeeps(cfg, s, e);
    case StoreChanges(command) => StoreChangeKeeps(cfg, s, command);
    case ServerReceives(k, readings) => if k < |s.toServer| { ServerStepKeeps(cfg, s, k, readings); }
    case ClientReceives(j) =>
      if j < |s.toClient| {
        if s.active.Some? {
          ClientStepKeeps(cfg, s, j);
        } else {
          IdleClient(cfg, s, D.Received(s.toClient[j].data));
        }
      }
    case Times => TimesKeeps(cfg, s);
    case Lose(net, i) => LoseKeeps(cfg, s, net, i);
  }

  lemma LoseKeeps(cfg: Config, s: State, net: bool, i: nat)
    requires Inv(cfg, s)
    ensures Inv(cfg, Next(cfg, s, Lose(net, i)))
  {
    hide WrapCommunity, Consistent, GenuineRequest, GenuineResponse, Answers, WellIssued, Copies;
    var s' := Next(cfg, s, Lose(net, i));
    assert forall d <- s'.toServer :: d in s.toServer;
    assert forall d <- s'.toClient :: d in s.toClient;
  }

  lemma IdleClient(cfg: Config, s: State, e: D.Event)
    requires s.active.None?
    ensures ClientStep(cfg, s, e) == s
  {
  }

  // The client of the machine is the dispatcher

  /** What the client does with a sequence of events, until its request is done. */
  function ClientRun(cfg: Config, s: State, inbox: seq<D.Event>): State
    decreases |inbox|
  {
    if inbox == [] || s.active.None? then s else ClientRun(cfg, ClientStep(cfg, s, inbox[0]), inbox[1..])
  }

  /** A request that is done has the outcome, and has cost the copies, of the dispatcher's `Await` on the same
      events, which is what `SendPreparedRequest` computes. */
  lemma {:induction false} ClientIsDispatcher(cfg: Config, s: State, inbox: seq<D.Event>)
    requires s.active.Some? && ClientRun(cfg, s, inbox).active.None?
    ensures var a := s.active.value;
            var done := ClientRun(cfg, s, inbox);
            var (r, n) := D.Await(cfg.community, cfg.retries, a.issue.request.body.requestId, a.sends, inbox);
            && a.sends <= n
            && done.sent == s.sent + seq(n - a.sends, _ => Datagram(a.data, RequestSent(a.issue)))
            && done.returned == (if r.Success? then s.returned + [(a.issue, r.value)] else s.returned)
            && done.timedOut == (if r == Failure(TimeoutError) then s.timedOut + [a.issue] else s.timedOut)
    decreases |inbox|
  {
    hide D.Judge;
    var a := s.active.value;
    var next := ClientStep(cfg, s, inbox[0]);
    if next.active.Some? {
      ClientIsDispatcher(cfg, next, inbox[1..]);
    } else {
      assert ClientRun(cfg, next, inbox[1..]) == next;
    }
  }

  /** In every reachable state, whatever the network does: every returned PDU is the responder's answer to the
      very request it was returned for, as the wire carries both, never a late answer to an earlier one, and
      computed from a store the responder had after that request was issued; every datagram handed to the
      network is the encoding of an issued request, at most retries + 1 of them for each; and exactly that
      many for each request that timed out. */
  lemma {:induction false} ExchangeIsSafe(cfg: Config, events: seq<Event>)
    ensures var s := Run(cfg, events);
            && Inv(cfg, s)
            && (forall r <- s.returned :: Answers(s.issued, Stores(s), r.0, r.1))
            && (forall d <- s.sent :: d.origin.RequestSent? && d.origin.issue in s.issued
                                      && WrapCommunity(cfg.community, d.origin.issue.request) == Success(d.data))
            && (forall issue <- s.issued :: 1 <= Copies(s.sent, issue) <= cfg.retries + 1)
            && (forall issue <- s.timedOut :: issue in s.issued && Copies(s.sent, issue) == cfg.retries + 1)
  {
    hide Next;
    if events != [] {
      ExchangeIsSafe(cfg, events[..|events| - 1]);
      StepKeeps(cfg, Run(cfg, events[..|events| - 1]), events[|events| - 1]);
    }
  }

  // An exchange completes when nothing is lost

  lemma RequestSentOut(cfg: Config, s: State, request: Pdu)
    requires s.active.None? && Consistent(s.store) && request.body.requestId == s.requestIds
    requires EncodableBody(request.body)
    ensures var encoded := WrapCommunity(cfg.community, request);
            var b := request.body;
            var s' := Next(cfg, s, Begin(request.pduType, b.errorStatus, b.errorIndex, b.varbinds));
            && encoded.Success?
            && var issue := Issue(request, |s.held|);
            && s'.active == Some(Active(issue, encoded.value, 1))
            && s'.toServer == Put(s.toServer, Datagram(encoded.value, RequestSent(issue)))
            && s'.toClient == s.toClient && s'.returned == s.returned && s'.store == s.store && s'.held == s.held
  {
    hide EncodeMessage, EncodableBody, Consistent, D.Advance, HandleDatagram, BuildResponse;
    NormalMessageIsRead(Message(V2C_VERSION, cfg.community, request));
  }

  /** The answer the responder gives now to a request of this client, and its octets. */
  ghost predicate AnswerIs(cfg: Config, s: State, request: Pdu, readings: Readings, response: Pdu, octets: Bytes)
    requires Consistent(s.store)
  {
    && BuildResponse(s.store, NormalPdu(request), readings) == Some(response)
    && EncodeMessage(Message(V2C_VERSION, cfg.community, response)) == Success(octets)
    && |octets| <= MAX_DATAGRAM
  }

  lemma RequestAnswered(cfg: Config, s: State, k: nat, issue: Issue, readings: Readings, response: Pdu, octets: Bytes)
    requires Consistent(s.store) && k < |s.toServer| && s.toServer[k].origin == RequestSent(issue)
    requires |s.toServer[k].data| <= MAX_DATAGRAM
    requires WrapCommunity(cfg.community, issue.request) == Success(s.toServer[k].data)
    requires cfg.communities.Some? ==> cfg.community in cfg.communities.value
    requires AnswerIs(cfg, s, issue.request, readings, response, octets)
    ensures var answer := Answered(issue, |s.held|, readings, response);
            Next(cfg, s, ServerReceives(k, readings))
            == s.(toClient := s.toClient + [Datagram(octets, ResponseSent(answer))])
  {
    hide EncodeMessage, DecodeMessage, Consistent, D.Advance, BuildResponse, NormalPdu, EncodableBody,
      RepresentableBody;
    SmallFits(|s.toServer[k].data|);
    NormalMessageIsRead(Message(V2C_VERSION, cfg.community, issue.request));
  }

  lemma AnswerTaken(cfg: Config, s: State, j: nat, issue: Issue, readings: Readings, response: Pdu, octets: Bytes)
    requires Consistent(s.store) && j < |s.toClient| && s.toClient[j].data == octets
    requires s.active.Some? && s.active.value.issue == issue
    requires AnswerIs(cfg, s, issue.request, readings, response, octets)
    ensures Next(cfg, s, ClientReceives(j))
            == s.(active := None, returned := s.returned + [(issue, NormalPdu(response))])
  {
    hide EncodeMessage, DecodeMessage, Consistent, Bulk, NextVarbinds, ExactVarbinds, NormalVarbinds, EncodableBody,
      RepresentableBody;
    SmallFits(|octets|);
    NormalMessageIsRead(Message(V2C_VERSION, cfg.community, response));
  }

  /** From an idle client: an encodable request of an allowed community, whose answer is encodable, is sent,
      answered and returned from, provided both fit a datagram. */
  lemma ExchangeCompletes(cfg: Config, s: State, request: Pdu, readings: Readings, response: Pdu, octets: Bytes)
    requires s.active.None? && Consistent(s.store) && request.body.requestId == s.requestIds
    requires cfg.communities.Some? ==> cfg.community in cfg.communities.value
    requires EncodableBody(request.body)
    requires var encoded := WrapCommunity(cfg.community, request);
             encoded.Success? ==> |encoded.value| <= MAX_DATAGRAM
    requires AnswerIs(cfg, s, request, readings, response, octets)
    ensures var b := request.body;
            var s1 := Next(cfg, s, Begin(request.pduType, b.errorStatus, b.errorIndex, b.varbinds));
            && s1.store == s.store
            && var s2 := Next(cfg, s1, ServerReceives(|s.toServer|, readings));
            && s2.store == s.store
            && var s3 := Next(cfg, s2, ClientReceives(|s.toClient|));
            s3.active.None? && s3.returned == s.returned + [(Issue(request, |s.held|), NormalPdu(response))]
  {
    hide Next, WrapCommunity, Consistent, NormalPdu, BuildResponse, EncodeMessage, EncodableBody;
    var issue := Issue(request, |s.held|);
    var b := request.body;
    RequestSentOut(cfg, s, request);
    var s1 := Next(cfg, s, Begin(request.pduType, b.errorStatus, b.errorIndex, b.varbinds));
    RequestAnswered(cfg, s1, |s.toServer|, issue, readings, response, octets);
    var s2 := Next(cfg, s1, ServerReceives(|s.toServer|, readings));
    AnswerTaken(cfg, s2, |s.toClient|, issue, readings, response, octets);
  }
}
