/** A walk whose requests and answers cross the network: trishul_snmp/manager/client.py over
    trishul_snmp/manager/walk.py and trishul_snmp/transport/dispatcher.py. */
module NetworkWalk {
  import opened Wrappers
  import opened Oids
  import opened Asn1
  import opened Pdus
  import opened Lex
  import opened Sources
  import opened Responder
  import opened Walk
  import E = Exchange

  /** The requests the client returned from, each with what it returned. */
  type Trace = seq<(E.Issue, Pdu)>

  /** The request of a walk that has come to `current`. */
  predicate IsWalkRequest(plan: Plan, current: Oid, request: Pdu) {
    && request.pduType == (if plan.bulk then GetBulkRequest else GetNextRequest)
    && request.body.errorStatus == 0
    && request.body.errorIndex == (if plan.bulk then plan.maxRepetitions else 0)
    && request.body.varbinds == [RawVarBind(current, NullValue)]
  }

  /** The walk's variables after these responses. */
  function Follow(plan: Plan, trace: Trace): Walker {
    if trace == [] then Start(plan.root)
    else
      var n := |trace| - 1;
      var w := Follow(plan, trace[..n]);
      var vbs := trace[n].1.body.varbinds;
      if vbs == [] then w.(stopped := true) else Consume(plan.root, w, vbs, n)
  }

  /** Each request was made by the walk, from where the responses before had brought it. */
  predicate IsWalk(plan: Plan, trace: Trace) {
    forall i :: 0 <= i < |trace| ==>
      var w := Follow(plan, trace[..i]);
      !w.stopped && IsWalkRequest(plan, w.current, trace[i].0.request)
  }

  /** OIDs as `parse_oid` lets them into the store and into a walk. */
  predicate NaturalOid(oid: Oid) {
    forall i :: 0 <= i < |oid| ==> oid[i] >= 0
  }

  predicate NaturalStore(s: Snapshot) {
    forall o <- s.values :: NaturalOid(o)
  }

  /** No negative arcs in the stores from the given one on. */
  predicate NaturalSince(stores: seq<Snapshot>, start: nat) {
    forall k :: start <= k < |stores| ==> NaturalStore(stores[k])
  }

  /** Every step is one the client returned from, and was issued since the walk began. */
  predicate ReturnedSince(s: E.State, trace: Trace, start: nat) {
    forall t <- trace :: t in s.returned && t.0.at >= start
  }

  // What the wire does to the walk

  /** The walk with its results as the wire carries them. */
  function NormalWalker(w: Walker): Walker {
    w.(results := NormalVarbinds(w.results))
  }

  lemma AcceptIsNormal(root: Oid, w: Walker, vb: RawVarBind, request: nat)
    requires NaturalOid(vb.oid)
    ensures Accept(root, NormalWalker(w), NormalVarbind(vb), request) == NormalWalker(Accept(root, w, vb, request))
  {
    hide NormalOid, NormalIp, Less, Within;
    NaturalOidSurvives(vb.oid);
    assert NormalVarbinds(w.results + [vb]) == NormalVarbinds(w.results) + [NormalVarbind(vb)];
  }

  lemma {:induction false} ConsumeIsNormal(root: Oid, w: Walker, vbs: seq<RawVarBind>, request: nat)
    requires forall i :: 0 <= i < |vbs| ==> NaturalOid(vbs[i].oid)
    ensures Consume(root, NormalWalker(w), NormalVarbinds(vbs), request) == NormalWalker(Consume(root, w, vbs, request))
    decreases |vbs|
  {
    hide Accept, NormalVarbind;
    if vbs != [] && !w.stopped {
      AcceptIsNormal(root, w, vbs[0], request);
      ConsumeIsNormal(root, Accept(root, w, vbs[0], request), vbs[1..], request);
      assert NormalVarbinds(vbs)[1..] == NormalVarbinds(vbs[1..]);
    }
  }

  lemma AnswerIsNatural(s: Snapshot, plan: Plan, current: Oid, readings: Readings)
    requires Consistent(s) && NaturalStore(s) && NaturalOid(current)
    ensures forall i :: 0 <= i < |Answer(s, plan, current, readings)| ==>
              NaturalOid(Answer(s, plan, current, readings)[i].oid)
  {
    hide Answer, NaturalOid, Rank, Less, Stop, Sorted;
    AnswerCells(s, plan, current, readings);
    forall i | 0 <= i < Cells(plan)
      ensures NaturalOid(NextVarbind(s, Reached(s, current, i), readings(i)).oid)
    {
      var p := CellIndex(s, current, i);
      assert p > Rank(s.oids, current) ==> s.oids[p - 1] in s.values;
      var r := Rank(s.oids, Reached(s, current, i));
      assert r < |s.oids| ==> s.oids[r] in s.values;
    }
  }

  /** The responder's answer to a walk's request is the answer of the walk's own model. */
  lemma AnswerToRequest(s: Snapshot, plan: Plan, current: Oid, request: Pdu, readings: Readings)
    requires Consistent(s) && NaturalOid(current) && IsWalkRequest(plan, current, request)
    ensures var response := BuildResponse(s, NormalPdu(request), readings);
            response.Some? && response.value.body.varbinds == Answer(s, plan, current, readings)
  {
    hide Bulk, NextVarbind, Consistent, NormalOid, NaturalOid;
    assert NormalOid(current) == current by { NaturalOidIsNormal(current); }
    var normal := NormalPdu(request);
    assert normal.body.varbinds[0].oid == current;
    assert RequestOids(normal) == [current];
  }

  lemma NaturalOidIsNormal(oid: Oid)
    requires NaturalOid(oid)
    ensures NormalOid(oid) == oid
  {
    NaturalOidSurvives(oid);
  }

  lemma CurrentIsNatural(plan: Plan, stores: seq<Snapshot>, readings: nat -> Readings)
    requires AllConsistent(stores) && NaturalOid(plan.root)
    requires forall i :: 0 <= i < |stores| ==> NaturalStore(stores[i])
    ensures NaturalOid(Run(plan, stores, readings).current)
  {
    hide Run, NaturalOid, Increasing, ReadsAs, StrictlyBelow, Consistent;
    WalkIsSound(plan, stores, readings);
  }

  /** The response is the normal form of what the responder answers to the request's normal form. */
  ghost predicate AnsweredFrom(s: Snapshot, readings: Readings, step: (E.Issue, Pdu)) {
    && Consistent(s)
    && var response := BuildResponse(s, NormalPdu(step.0.request), readings);
    response.Some? && step.1 == NormalPdu(response.value)
  }

  /** A walk over the network is the walk over the stores its answers came from, as the wire carries it. */
  lemma {:induction false} FollowIsRun(plan: Plan, trace: Trace, stores: seq<Snapshot>, readings: nat -> Readings)
    requires |stores| == |trace| && AllConsistent(stores) && NaturalOid(plan.root)
    requires forall i :: 0 <= i < |stores| ==> NaturalStore(stores[i])
    requires IsWalk(plan, trace)
    requires forall i :: 0 <= i < |trace| ==> AnsweredFrom(stores[i], readings(i), trace[i])
    ensures Follow(plan, trace) == NormalWalker(Run(plan, stores, readings))
    decreases |trace|
  {
    hide Consume, Answer, BuildResponse, NaturalOid, NaturalStore, IsWalkRequest, Consistent, NormalVarbind;
    if trace == [] {
      assert NormalVarbinds([]) == [];
    } else {
      var n := |trace| - 1;
      WalkSoFar(plan, trace);
      FollowIsRun(plan, trace[..n], stores[..n], readings);
      CurrentIsNatural(plan, stores[..n], readings);
      var w := Run(plan, stores[..n], readings);
      AnswerToRequest(stores[n], plan, w.current, trace[n].0.request, readings(n));
      AnswerIsNatural(stores[n], plan, w.current, readings(n));
      ConsumeIsNormal(plan.root, w, Answer(stores[n], plan, w.current, readings(n)), n);
    }
  }

  lemma WalkSoFar(plan: Plan, trace: Trace)
    requires IsWalk(plan, trace) && trace != []
    ensures IsWalk(plan, trace[..|trace| - 1])
    ensures var w := Follow(plan, trace[..|trace| - 1]);
            !w.stopped && IsWalkRequest(plan, w.current, trace[|trace| - 1].0.request)
  {
    hide Follow, IsWalkRequest;
    var front := trace[..|trace| - 1];
    forall i | 0 <= i < |front|
      ensures front[..i] == trace[..i]
    {
    }
  }

  // End to end

  /** What the responder computed the answers of the trace from. */
  lemma {:induction false} Witnesses(stores: seq<Snapshot>, issued: seq<E.Issue>, trace: Trace)
    returns (whens: seq<nat>, readings: seq<Readings>)
    requires forall i :: 0 <= i < |trace| ==> E.Answers(issued, stores, trace[i].0, trace[i].1)
    ensures |whens| == |readings| == |trace|
    ensures forall i :: 0 <= i < |trace| ==>
              trace[i].0.at <= whens[i] < |stores| && AnsweredFrom(stores[whens[i]], readings[i], trace[i])
    decreases |trace|
  {
    hide BuildResponse, NormalPdu, Consistent, RepresentableBody;
    whens, readings := [], [];
    if trace != [] {
      var n := |trace| - 1;
      whens, readings := Witnesses(stores, issued, trace[..n]);
      assert E.Answers(issued, stores, trace[n].0, trace[n].1);
      var a: E.Answered :| E.IsAnswer(stores, trace[n].0, trace[n].1, a);
      whens, readings := whens + [a.when], readings + [a.readings];
    }
  }

  /** A result was stored, at a store the responder had since the request that yielded it was issued, and
      its value is the normal form of one that reading the stored object gives. */
  ghost predicate Provenance(stores: seq<Snapshot>, issue: E.Issue, vb: RawVarBind) {
    exists k :: issue.at <= k < |stores| && ReadFrom(stores[k], vb)
  }

  ghost predicate ReadFrom(s: Snapshot, vb: RawVarBind) {
    vb.oid in s.values && exists v: Value :: ReadsAs(s.values[vb.oid], v) && vb.value == NormalValue(v)
  }

  /** Below the root, and stored in every store the responder had since the walk began, no end-of-view
      marker being in the way. */
  ghost predicate StoredSince(root: Oid, stores: seq<Snapshot>, start: nat, o: Oid) {
    && StrictlyBelow(root, o)
    && forall k :: start <= k < |stores| ==> NoMarkerBelow(root, stores[k]) && o in stores[k].values
  }

  /** The end-to-end theorem. Whatever the network does and however the store changes, a walk returns
      strictly increasing OIDs strictly below its root, each of which was stored, with the value returned
      up to its normal form, after the request that yielded it was issued; and a walk that has finished has
      returned every OID that was stored ever since it began. */
  lemma WalkOverTheNetwork(cfg: E.Config, events: seq<E.Event>, plan: Plan, trace: Trace, start: nat)
    requires IsWalk(plan, trace) && NaturalOid(plan.root)
    requires var s := E.Run(cfg, events);
             ReturnedSince(s, trace, start) && NaturalSince(E.Stores(s), start)
    ensures var stores, w := E.Stores(E.Run(cfg, events)), Follow(plan, trace);
            && Increasing(w.results)
            && (forall i :: 0 <= i < |w.results| ==> StrictlyBelow(plan.root, w.results[i].oid))
            && |w.origins| == |w.results|
            && (forall i :: 0 <= i < |w.results| ==>
                  && w.origins[i] < |trace|
                  && Provenance(stores, trace[w.origins[i]].0, w.results[i]))
            && (w.stopped && Cells(plan) > 0 ==>
                  forall o: Oid :: StoredSince(plan.root, stores, start, o) ==> Lists(w.results, o))
  {
    hide *;
    var s := E.Run(cfg, events);
    var stores := E.Stores(s);
    TraceIsAnswered(cfg, events, trace, start);
    var whens, drawn := Witnesses(stores, s.issued, trace);
    WalkFromWitnesses(plan, trace, start, stores, whens, drawn);
  }

  predicate IssuedSince(trace: Trace, start: nat) {
    forall i :: 0 <= i < |trace| ==> trace[i].0.at >= start
  }

  lemma TraceIsAnswered(cfg: E.Config, events: seq<E.Event>, trace: Trace, start: nat)
    requires ReturnedSince(E.Run(cfg, events), trace, start)
    ensures var s := E.Run(cfg, events);
            && (forall i :: 0 <= i < |trace| ==> E.Answers(s.issued, E.Stores(s), trace[i].0, trace[i].1))
            && IssuedSince(trace, start)
  {
    hide E.Answers, E.Run, E.Inv;
    E.ExchangeIsSafe(cfg, events);
  }

  lemma WalkFromWitnesses(plan: Plan, trace: Trace, start: nat, stores: seq<Snapshot>, whens: seq<nat>,
                          drawn: seq<Readings>)
    requires IsWalk(plan, trace) && NaturalOid(plan.root)
    requires IssuedSince(trace, start) && NaturalSince(stores, start)
    requires |whens| == |drawn| == |trace|
    requires forall i :: 0 <= i < |trace| ==>
               trace[i].0.at <= whens[i] < |stores| && AnsweredFrom(stores[whens[i]], drawn[i], trace[i])
    ensures var w := Follow(plan, trace);
            && Increasing(w.results)
            && (forall i :: 0 <= i < |w.results| ==> StrictlyBelow(plan.root, w.results[i].oid))
            && |w.origins| == |w.results|
            && (forall i :: 0 <= i < |w.results| ==>
                  && w.origins[i] < |trace|
                  && Provenance(stores, trace[w.origins[i]].0, w.results[i]))
            && (w.stopped && Cells(plan) > 0 ==>
                  forall o: Oid :: StoredSince(plan.root, stores, start, o) ==> Lists(w.results, o))
  {
    hide Follow, Run, IsWalk, NaturalOid, NaturalStore, BuildResponse, NormalPdu, Consistent, Cells, Less, Within,
      NoMarkerBelow, NormalValue, ReadsAs;
    var chosen := seq(|trace|, i requires 0 <= i < |trace| => stores[whens[i]]);
    var readings: nat -> Readings := (i: nat) => if i < |drawn| then drawn[i] else _ => NullValue;
    FollowIsRun(plan, trace, chosen, readings);
    WalkIsSound(plan, chosen, readings);
    var run := Run(plan, chosen, readings);
    var w := Follow(plan, trace);
    forall i | 0 <= i < |run.results|
      ensures w.results[i].oid == run.results[i].oid
      ensures run.origins[i] < |trace| && Provenance(stores, trace[run.origins[i]].0, w.results[i])
    {
      var k := run.origins[i];
      var o := run.results[i].oid;
      assert o in chosen[k].values && ReadsAs(chosen[k].values[o], run.results[i].value);
      StoredIsNatural(chosen[k], o);
      assert ReadFrom(stores[whens[k]], w.results[i]);
    }
    if run.stopped && Cells(plan) > 0 {
      forall o: Oid | StoredSince(plan.root, stores, start, o)
        ensures Lists(w.results, o)
      {
        WalkIsComplete(plan, chosen, readings, o);
        var i :| 0 <= i < |run.results| && run.results[i].oid == o;
        assert w.results[i].oid == o;
      }
    }
  }

  lemma StoredIsNatural(s: Snapshot, o: Oid)
    requires NaturalStore(s) && o in s.values
    ensures NormalOid(o) == o
  {
    NaturalOidIsNormal(o);
  }
}
