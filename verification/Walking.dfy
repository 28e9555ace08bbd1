/** The walk as the program runs it, against a responder whose store is updated between requests. */
module Walking {
  import opened Wrappers
  import opened Oids
  import opened Asn1
  import opened Pdus
  import opened Lex
  import opened Sources
  import opened Responder
  import opened Walk
  import opened WalkExact

  /** A responder and the updates that reach its store: before its next answer the first batch of the
      script is applied; when the script is used up the store stays as it is. Any finished walk sees
      finitely many updates, so every finished walk is a walk against some script. */
  class UpdatedResponder {
    const source: InMemoryObjectSource
    const responder: V2cResponder
    const readings: nat -> Readings
    var script: seq<seq<Command>>
    var requests: nat
    ghost var answered: seq<Snapshot>

    constructor (source: InMemoryObjectSource, script: seq<seq<Command>>, readings: nat -> Readings)
      ensures this.source == source && this.script == script && this.readings == readings
      ensures responder.source == source && fresh(responder)
      ensures answered == [] && requests == 0
    {
      this.source, this.script, this.readings := source, script, readings;
      requests, answered := 0, [];
      responder := new V2cResponder(source);
    }

    ghost predicate Valid()
      reads this, source
    {
      responder.source == source && source.Valid() && AllConsistent(answered) && requests == |answered|
    }

    /** Applies one batch of updates to the store. */
    method Update(batch: seq<Command>)
      requires source.Valid()
      modifies source
      ensures source.Valid() && source.View() == ApplyAll(old(source.View()), batch)
    {
      ghost var before := source.View();
      for i := 0 to |batch|
        invariant source.Valid()
        invariant ApplyAll(source.View(), batch[i..]) == ApplyAll(before, batch)
      {
        assert batch[i..][0] == batch[i] && batch[i..][1..] == batch[i + 1..];
        match batch[i] {
          case SetCommand(oid, stored) => source.SetObject(oid, stored);
          case DeleteCommand(oid) =>
            var _ := source.DeleteObject(oid);
          case ClearCommand => source.Clear();
        }
      }
    }

    /** Answers one request of a walk. */
    method Request(plan: Plan, current: Oid) returns (varbinds: seq<RawVarBind>)
      requires Valid()
      modifies this, source
      ensures Valid()
      ensures answered == old(answered) + [source.View()]
      ensures source.View()
              == if old(script) == [] then old(source.View()) else ApplyAll(old(source.View()), old(script)[0])
      ensures script == if old(script) == [] then [] else old(script)[1..]
      ensures varbinds == Answer(source.View(), plan, current, readings(|old(answered)|))
    {
      if script != [] {
        Update(script[0]);
        script := script[1..];
      }
      answered := answered + [source.View()];
      var drawn := readings(requests);
      requests := requests + 1;
      if plan.bulk {
        varbinds := responder.BuildBulkVarbinds([current], 0, plan.maxRepetitions, drawn);
      } else {
        var vb := responder.LookupNextVarbind(current, drawn(0));
        varbinds := [vb];
      }
    }
  }

  /** The variables of the walk, its history forgotten. */
  predicate Agrees(w: Walker, current: Oid, lastOid: Option<Oid>, results: seq<RawVarBind>) {
    w.current == current && w.lastOid == lastOid && w.results == results
  }

  lemma LookupAdvances(root: Oid, w: Walker, s: Snapshot, reading: Reading, request: nat)
    requires Consistent(s)
    ensures var w' := Accept(root, w, NextVarbind(s, w.current, reading), request);
            w'.stopped || Rank(s.oids, w.current) < Rank(s.oids, w'.current)
  {
    hide Rank, Less, Within;
    var r := Rank(s.oids, w.current);
    if r < |s.oids| {
      RankOfElement(s.oids, r);
    }
  }

  lemma {:induction false} LookupsAdvance(root: Oid, w: Walker, s: Snapshot, readings: Readings, from: nat, count: nat,
                                          request: nat)
    requires Consistent(s)
    ensures var w' := Lookups(root, w, s, readings, from, count, request);
            w'.stopped || Rank(s.oids, w.current) + count <= Rank(s.oids, w'.current)
    decreases count
  {
    hide Rank, NextVarbind, Consistent, Accept;
    if count > 0 && !w.stopped {
      LookupAdvances(root, w, s, readings(from), request);
      LookupsAdvance(root, Accept(root, w, NextVarbind(s, w.current, readings(from)), request), s, readings, from + 1,
                     count - 1, request);
    }
  }

  /** An answer that does not end the walk moves it towards the end of the store. */
  lemma RankGrows(plan: Plan, w: Walker, s: Snapshot, readings: Readings, request: nat)
    requires Consistent(s) && !w.stopped && !Step(plan, w, s, readings, request).stopped
    ensures Rank(s.oids, w.current) < Rank(s.oids, Step(plan, w, s, readings, request).current)
  {
    hide Rank, Consistent, Answer, Cells;
    if Cells(plan) > 0 {
      StepIsLookups(plan, w, s, readings, request);
      LookupsAdvance(plan.root, w, s, readings, 0, Cells(plan), request);
    } else {
      EmptyAnswerStops(plan, w, s, readings, request, []);
    }
  }

  /** Below the root, and stored whenever a request was answered, no end-of-view marker being in the way. */
  ghost predicate StoredThroughout(root: Oid, stores: seq<Snapshot>, o: Oid) {
    && StrictlyBelow(root, o)
    && forall j :: 0 <= j < |stores| ==> NoMarkerBelow(root, stores[j]) && o in stores[j].values
  }

  /** What a finished walk has achieved, whatever happened to the store meanwhile. */
  lemma FinishedWalk(plan: Plan, stores: seq<Snapshot>, readings: nat -> Readings)
    requires AllConsistent(stores) && Run(plan, stores, readings).stopped
    ensures var results := Run(plan, stores, readings).results;
            && Increasing(results)
            && (forall i :: 0 <= i < |results| ==> StrictlyBelow(plan.root, results[i].oid))
            && (Cells(plan) > 0 ==> forall o: Oid :: StoredThroughout(plan.root, stores, o) ==> Lists(results, o))
  {
    hide Run, Cells, NoMarkerBelow, Consistent;
    WalkIsSound(plan, stores, readings);
    var w := Run(plan, stores, readings);
    if Cells(plan) > 0 {
      forall o: Oid | StoredThroughout(plan.root, stores, o)
        ensures Lists(w.results, o)
      {
        WalkIsComplete(plan, stores, readings, o);
        assert Returned(w, o);
      }
    }
  }

  /** `walk_subtree`: it terminates against every script of updates, and returns what the walk over the
      stores that answered its requests returns. */
  method WalkSubtree(agent: UpdatedResponder, plan: Plan) returns (results: seq<RawVarBind>)
    requires agent.Valid() && agent.answered == []
    modifies agent, agent.source
    ensures agent.Valid()
    ensures var w := Run(plan, agent.answered, agent.readings);
            && w.stopped && w.results == results
            && |agent.answered| > 0
            && !Run(plan, agent.answered[..|agent.answered| - 1], agent.readings).stopped
    ensures Increasing(results)
    ensures forall i :: 0 <= i < |results| ==> StrictlyBelow(plan.root, results[i].oid)
    ensures Cells(plan) > 0 ==> forall o: Oid :: StoredThroughout(plan.root, agent.answered, o) ==> Lists(results, o)
    ensures old(agent.script) == [] ==> Unchanged(agent.answered, old(agent.source.View()))
    ensures old(agent.script) == [] && Cells(plan) > 0 ==>
              |agent.answered| == Size(plan.root, old(agent.source.View())) / Cells(plan) + 1
  {
    hide Answer, Rank, Consistent, Cells, Increasing, StrictlyBelow, Lists, StoredThroughout, Size, Within, Less;
    var current := plan.root;
    results := [];
    var lastOid: Option<Oid> := None;
    ghost var w := Start(plan.root);
    ghost var first := agent.source.View();
    while true
      invariant agent.Valid()
      invariant w == Run(plan, agent.answered, agent.readings)
      invariant !w.stopped && Agrees(w, current, lastOid, results)
      invariant old(agent.script) == [] ==>
                  agent.script == [] && agent.source.View() == first && Unchanged(agent.answered, first)
      decreases |agent.script|, |agent.source.sortedOids| - Rank(agent.source.sortedOids, current)
    {
      ghost var before := agent.answered;
      ghost var scriptBefore, rankBefore :=
        |agent.script|, |agent.source.sortedOids| - Rank(agent.source.sortedOids, current);
      var varbinds := agent.Request(plan, current);
      ghost var s := agent.source.View();
      ghost var n := |before|;
      assert agent.answered[..n] == before && agent.answered[n] == s;
      ghost var w' := Step(plan, w, s, agent.readings(n), n);
      assert w' == Run(plan, agent.answered, agent.readings);
      ghost var start := w;
      if varbinds == [] {
        w := w';
        break;
      }
      assert w' == Consume(plan.root, w, varbinds, n);
      var stop := false;
      var i := 0;
      while i < |varbinds| && !stop
        invariant i <= |varbinds|
        invariant w.stopped == stop && Agrees(w, current, lastOid, results)
        invariant w' == Consume(plan.root, w, varbinds[i..], n)
        decreases |varbinds| - i, !stop
      {
        var varbind := varbinds[i];
        assert varbinds[i..][0] == varbind && varbinds[i..][1..] == varbinds[i + 1..];
        w := Accept(plan.root, w, varbind, n);
        if varbind.value == EndOfMibViewValue {
          stop := true;
        } else if !Within(plan.root, varbind.oid) {
          stop := true;
        } else if lastOid.Some? && !Less(lastOid.value, varbind.oid) {
          stop := true;
        } else {
          results := results + [varbind];
          lastOid := Some(varbind.oid);
          current := varbind.oid;
        }
        i := i + 1;
      }
      if stop {
        break;
      }
      assert w == w';
      RankGrows(plan, start, s, agent.readings(n), n);
    }
    FinishedWalk(plan, agent.answered, agent.readings);
    if old(agent.script) == [] && Cells(plan) > 0 {
      RequestCount(plan, first, agent.answered, agent.readings);
    }
  }
}
