/** Subtree walks over a responder whose store may change between requests: trishul_snmp/manager/walk.py
    against trishul_snmp/responder/server.py and sources.py. */
module Walk {
  import opened Wrappers
  import opened Oids
  import opened Asn1
  import opened Pdus
  import opened Lex
  import opened Sources
  import opened Responder

  /** The walk's variables. `origins` is history: the number of the request that yielded each result. */
  datatype Walker = Walker(current: Oid, lastOid: Option<Oid>, results: seq<RawVarBind>, origins: seq<nat>,
                           stopped: bool)

  /** What one walk is asked to do. */
  datatype Plan = Plan(root: Oid, bulk: bool, maxRepetitions: int)

  function Start(root: Oid): Walker {
    Walker(root, None, [], [], false)
  }

  /** What the responder answers to one GETNEXT or GETBULK request of the walk. */
  function Answer(s: Snapshot, plan: Plan, current: Oid, readings: Readings): seq<RawVarBind>
    requires Consistent(s)
  {
    if plan.bulk then Bulk(s, [current], 0, plan.maxRepetitions, readings)
    else [NextVarbind(s, current, readings(0))]
  }

  /** The walk ends at the end of the view, outside the subtree, and where the order does not advance. */
  predicate Ends(root: Oid, w: Walker, vb: RawVarBind) {
    || vb.value == EndOfMibViewValue
    || !Within(root, vb.oid)
    || (w.lastOid.Some? && !Less(w.lastOid.value, vb.oid))
  }

  function Accept(root: Oid, w: Walker, vb: RawVarBind, request: nat): Walker {
    if Ends(root, w, vb) then w.(stopped := true)
    else Walker(vb.oid, Some(vb.oid), w.results + [vb], w.origins + [request], false)
  }

  function Consume(root: Oid, w: Walker, vbs: seq<RawVarBind>, request: nat): Walker
    decreases |vbs|
  {
    if vbs == [] || w.stopped then w else Consume(root, Accept(root, w, vbs[0], request), vbs[1..], request)
  }

  function Step(plan: Plan, w: Walker, s: Snapshot, readings: Readings, request: nat): Walker
    requires Consistent(s)
  {
    var vbs := Answer(s, plan, w.current, readings);
    if vbs == [] then w.(stopped := true) else Consume(plan.root, w, vbs, request)
  }

  ghost predicate AllConsistent(stores: seq<Snapshot>) {
    forall i :: 0 <= i < |stores| ==> Consistent(stores[i])
  }

  /** The walk after one request to each of the stores, as long as it does not stop earlier. */
  function Run(plan: Plan, stores: seq<Snapshot>, readings: nat -> Readings): Walker
    requires AllConsistent(stores)
  {
    if stores == [] then Start(plan.root)
    else
      var n := |stores| - 1;
      var w := Run(plan, stores[..n], readings);
      if w.stopped then w else Step(plan, w, stores[n], readings(n), n)
  }

  /** How many varbinds an answer holds. */
  function Cells(plan: Plan): nat {
    if plan.bulk then Max(plan.maxRepetitions, 0) else 1
  }

  // An answer is consumed like that many single lookups

  function Lookups(root: Oid, w: Walker, s: Snapshot, readings: Readings, from: nat, count: nat, request: nat): Walker
    requires Consistent(s)
    decreases count
  {
    if count == 0 || w.stopped then w
    else
      var vb := NextVarbind(s, w.current, readings(from));
      Lookups(root, Accept(root, w, vb, request), s, readings, from + 1, count - 1, request)
  }

  lemma AnswerCells(s: Snapshot, plan: Plan, current: Oid, readings: Readings)
    requires Consistent(s)
    ensures |Answer(s, plan, current, readings)| == Cells(plan)
    ensures forall i :: 0 <= i < Cells(plan) ==>
              Answer(s, plan, current, readings)[i] == NextVarbind(s, Reached(s, current, i), readings(i))
  {
    hide Bulk, NextVarbind, Reached, BulkCell, Consistent;
    if plan.bulk {
      BulkClosedForm(s, [current], 0, plan.maxRepetitions, readings);
      forall i | 0 <= i < Cells(plan)
        ensures Answer(s, plan, current, readings)[i] == NextVarbind(s, Reached(s, current, i), readings(i))
      {
        assert CellAt(0, 1, i, 0) == i;
        ReachedStep(s, current, i, readings(i));
      }
    } else {
      ReachedZero(s, current);
    }
  }

  lemma {:induction false} ConsumeIsLookups(root: Oid, w: Walker, s: Snapshot, first: Oid, vbs: seq<RawVarBind>,
                                            readings: Readings, from: nat, request: nat)
    requires Consistent(s)
    requires !w.stopped ==> w.current == Reached(s, first, from)
    requires forall i :: 0 <= i < |vbs| ==> vbs[i] == NextVarbind(s, Reached(s, first, from + i), readings(from + i))
    ensures Consume(root, w, vbs, request) == Lookups(root, w, s, readings, from, |vbs|, request)
    decreases |vbs|
  {
    hide Consistent, NextVarbind, Reached, Ends;
    if vbs != [] && !w.stopped {
      var w' := Accept(root, w, vbs[0], request);
      ReachedStep(s, first, from, readings(from));
      EndsAtMarker(root, w, vbs[0]);
      forall i | 0 <= i < |vbs| - 1
        ensures vbs[1..][i] == NextVarbind(s, Reached(s, first, from + 1 + i), readings(from + 1 + i))
      {
        assert vbs[1..][i] == vbs[i + 1];
      }
      ConsumeIsLookups(root, w', s, first, vbs[1..], readings, from + 1, request);
    }
  }

  lemma EndsAtMarker(root: Oid, w: Walker, vb: RawVarBind)
    ensures vb.value == EndOfMibViewValue ==> Ends(root, w, vb)
  {
  }

  lemma StepIsLookups(plan: Plan, w: Walker, s: Snapshot, readings: Readings, request: nat)
    requires Consistent(s) && !w.stopped && Cells(plan) > 0
    ensures Step(plan, w, s, readings, request) == Lookups(plan.root, w, s, readings, 0, Cells(plan), request)
  {
    hide Consistent, NextVarbind, Reached, Answer, Cells;
    AnswerCells(s, plan, w.current, readings);
    ReachedZero(s, w.current);
    ConsumeIsLookups(plan.root, w, s, w.current, Answer(s, plan, w.current, readings), readings, 0, request);
  }

  // Invariants of the walk, whatever happens to the store

  predicate Increasing(vbs: seq<RawVarBind>) {
    forall i, j :: 0 <= i < j < |vbs| ==> Less(vbs[i].oid, vbs[j].oid)
  }

  predicate WalkInv(root: Oid, w: Walker) {
    && |w.origins| == |w.results|
    && (if w.results == [] then w.current == root && w.lastOid.None?
        else w.current == w.results[|w.results| - 1].oid && w.lastOid == Some(w.current))
    && Increasing(w.results)
    && forall i :: 0 <= i < |w.results| ==> StrictlyBelow(root, w.results[i].oid)
  }

  /** Every result was stored, with the value returned, when the request that yielded it was answered. */
  predicate Witnessed(stores: seq<Snapshot>, w: Walker) {
    |w.origins| == |w.results|
    && forall i :: 0 <= i < |w.results| ==>
         && w.origins[i] < |stores|
         && w.results[i].oid in stores[w.origins[i]].values
         && ReadsAs(stores[w.origins[i]].values[w.results[i].oid], w.results[i].value)
  }

  predicate Lists(results: seq<RawVarBind>, o: Oid) {
    exists i :: 0 <= i < |results| && results[i].oid == o
  }

  predicate Returned(w: Walker, o: Oid) {
    Lists(w.results, o)
  }

  /** The walk has returned `o` or can still reach it. */
  predicate NotMissed(w: Walker, o: Oid) {
    Returned(w, o) || (!w.stopped && Less(w.current, o))
  }

  /** No object strictly below the root stores an end-of-view marker. */
  predicate NoMarkerBelow(root: Oid, s: Snapshot) {
    forall o <- s.values :: StrictlyBelow(root, o) ==> s.values[o] != Fixed(EndOfMibViewValue)
  }

  lemma CurrentNotBeforeRoot(root: Oid, w: Walker)
    requires WalkInv(root, w)
    ensures w.current == root || Less(root, w.current)
  {
    if w.results != [] {
      BelowIsAfter(root, w.current);
    }
  }

  lemma NextVarbindProperties(s: Snapshot, oid: Oid, reading: Reading)
    requires Consistent(s)
    ensures var vb := NextVarbind(s, oid, reading);
            match Next(s, oid)
            case None => vb.value == EndOfMibViewValue && forall k <- s.values :: !Less(oid, k)
            case Some(n) => vb.oid == n && n in s.values && ReadsAs(s.values[n], vb.value) && Less(oid, n)
                            && forall k <- s.values :: Less(oid, k) ==> k == n || Less(n, k)
  {
    hide Next;
    NextIsLeastGreater(s, oid);
  }

  /** One lookup keeps the invariant. */
  lemma LookupKeepsInv(root: Oid, w: Walker, s: Snapshot, reading: Reading, request: nat)
    requires Consistent(s) && WalkInv(root, w) && !w.stopped
    ensures var w' := Accept(root, w, NextVarbind(s, w.current, reading), request);
            && WalkInv(root, w')
            && |w'.results| >= |w.results| && w'.results[..|w.results|] == w.results
            && (!w'.stopped ==>
                  && |w'.results| == |w.results| + 1 && w'.origins == w.origins + [request]
                  && var vb := w'.results[|w.results|];
                  && vb == NextVarbind(s, w.current, reading) && Next(s, w.current) == Some(vb.oid)
                  && vb.oid in s.values && ReadsAs(s.values[vb.oid], vb.value))
            && (w'.stopped ==> w' == w.(stopped := true))
  {
    hide NextVarbind, Next, Less, Within, ReadsAs;
    NextVarbindProperties(s, w.current, reading);
    CurrentNotBeforeRoot(root, w);
    var vb := NextVarbind(s, w.current, reading);
    var w' := Accept(root, w, vb, request);
    if !w'.stopped {
      if w.current != root {
        Transitive(root, w.current, vb.oid);
      }
      BelowIsAfter(root, vb.oid);
      forall i | 0 <= i < |w.results|
        ensures Less(w.results[i].oid, vb.oid)
      {
        if i < |w.results| - 1 {
          Transitive(w.results[i].oid, w.current, vb.oid);
        }
      }
    }
  }

  /** One lookup does not pass over an object that is stored below the root. */
  lemma LookupMissesNothing(root: Oid, w: Walker, s: Snapshot, reading: Reading, request: nat, o: Oid)
    requires Consistent(s) && WalkInv(root, w) && !w.stopped
    requires NoMarkerBelow(root, s) && o in s.values && StrictlyBelow(root, o)
    requires NotMissed(w, o)
    ensures NotMissed(Accept(root, w, NextVarbind(s, w.current, reading), request), o)
  {
    hide NextVarbind, Next, Less, Within;
    LookupKeepsInv(root, w, s, reading, request);
    var vb := NextVarbind(s, w.current, reading);
    var w' := Accept(root, w, vb, request);
    if Returned(w, o) {
      var i :| 0 <= i < |w.results| && w.results[i].oid == o;
      assert w'.results[..|w.results|][i] == w'.results[i];
    } else {
      NextVarbindProperties(s, w.current, reading);
      CurrentNotBeforeRoot(root, w);
      if w.current != root {
        Transitive(root, w.current, vb.oid);
      }
      if vb.oid != o {
        SubtreeIsConvex(root, vb.oid, o);
      }
      BelowIsAfter(root, vb.oid);
      assert !Ends(root, w, vb);
      assert w'.results[|w.results|].oid == vb.oid;
    }
  }

  /** One answer's lookups, all against the same store. */
  lemma {:induction false} LookupsKeep(root: Oid, w: Walker, stores: seq<Snapshot>, readings: Readings, from: nat,
                                       count: nat, request: nat)
    requires request < |stores| && Consistent(stores[request])
    requires WalkInv(root, w) && Witnessed(stores, w)
    ensures var w' := Lookups(root, w, stores[request], readings, from, count, request);
            WalkInv(root, w') && Witnessed(stores, w')
    decreases count
  {
    hide NextVarbind, Next, WalkInv, Consistent, ReadsAs, Accept;
    var s := stores[request];
    if count > 0 && !w.stopped {
      var w1 := Accept(root, w, NextVarbind(s, w.current, readings(from)), request);
      AcceptedIsWitnessed(root, w, stores, readings(from), request);
      LookupsKeep(root, w1, stores, readings, from + 1, count - 1, request);
    }
  }

  lemma AcceptedIsWitnessed(root: Oid, w: Walker, stores: seq<Snapshot>, reading: Reading, request: nat)
    requires request < |stores| && Consistent(stores[request])
    requires WalkInv(root, w) && Witnessed(stores, w) && !w.stopped
    ensures var w' := Accept(root, w, NextVarbind(stores[request], w.current, reading), request);
            WalkInv(root, w') && Witnessed(stores, w')
  {
    hide NextVarbind, Next, Consistent, ReadsAs, Accept, Increasing;
    LookupKeepsInv(root, w, stores[request], reading, request);
    var w' := Accept(root, w, NextVarbind(stores[request], w.current, reading), request);
    if !w'.stopped {
      forall i | 0 <= i < |w.results|
        ensures w'.results[i] == w.results[i]
      {
        assert w'.results[..|w.results|][i] == w'.results[i];
      }
    }
  }

  lemma {:induction false} LookupsMissNothing(root: Oid, w: Walker, s: Snapshot, readings: Readings, from: nat,
                                              count: nat, request: nat, o: Oid)
    requires Consistent(s) && WalkInv(root, w)
    requires NoMarkerBelow(root, s) && o in s.values && StrictlyBelow(root, o)
    requires NotMissed(w, o)
    ensures NotMissed(Lookups(root, w, s, readings, from, count, request), o)
    decreases count
  {
    hide NextVarbind, Next, WalkInv, Consistent, NotMissed, NoMarkerBelow, Accept;
    if count > 0 && !w.stopped {
      LookupKeepsInv(root, w, s, readings(from), request);
      LookupMissesNothing(root, w, s, readings(from), request, o);
      LookupsMissNothing(root, Accept(root, w, NextVarbind(s, w.current, readings(from)), request), s, readings,
                         from + 1, count - 1, request, o);
    }
  }

  lemma WitnessedLater(stores: seq<Snapshot>, more: seq<Snapshot>, w: Walker)
    requires Witnessed(stores, w)
    ensures Witnessed(stores + more, w)
  {
  }

  /** The walk over any sequence of stores returns strictly increasing OIDs strictly below the root,
      each with a value it had in the store that answered the request. */
  lemma {:induction false} WalkIsSound(plan: Plan, stores: seq<Snapshot>, readings: nat -> Readings)
    requires AllConsistent(stores)
    ensures WalkInv(plan.root, Run(plan, stores, readings))
    ensures Witnessed(stores, Run(plan, stores, readings))
    decreases |stores|
  {
    hide Lookups, Step, Witnessed, WalkInv, Cells, Consistent;
    if stores == [] {
      StartIsSound(plan.root);
    } else {
      var n := |stores| - 1;
      var before := stores[..n];
      WalkIsSound(plan, before, readings);
      var w := Run(plan, before, readings);
      assert stores == before + [stores[n]];
      WitnessedLater(before, [stores[n]], w);
      if !w.stopped {
        if Cells(plan) == 0 {
          EmptyAnswerStops(plan, w, stores[n], readings(n), n, stores);
        } else {
          StepIsLookups(plan, w, stores[n], readings(n), n);
          LookupsKeep(plan.root, w, stores, readings(n), 0, Cells(plan), n);
        }
      }
    }
  }

  lemma StartIsSound(root: Oid)
    ensures WalkInv(root, Start(root)) && Witnessed([], Start(root))
  {
  }

  /** A GETBULK walk that asks for no repetitions gets an empty answer and stops. */
  lemma EmptyAnswerStops(plan: Plan, w: Walker, s: Snapshot, readings: Readings, request: nat, stores: seq<Snapshot>)
    requires Consistent(s) && Cells(plan) == 0
    ensures Step(plan, w, s, readings, request) == w.(stopped := true)
    ensures WalkInv(plan.root, w) ==> WalkInv(plan.root, w.(stopped := true))
    ensures Witnessed(stores, w) ==> Witnessed(stores, w.(stopped := true))
  {
    hide NextVarbind, Reached, Answer, Cells, Consistent;
    AnswerCells(s, plan, w.current, readings);
  }

  /** A finished walk has returned every object that was stored below the root at every request. */
  lemma {:induction false} WalkIsComplete(plan: Plan, stores: seq<Snapshot>, readings: nat -> Readings, o: Oid)
    requires AllConsistent(stores) && Cells(plan) > 0 && StrictlyBelow(plan.root, o)
    requires forall i :: 0 <= i < |stores| ==> NoMarkerBelow(plan.root, stores[i]) && o in stores[i].values
    ensures NotMissed(Run(plan, stores, readings), o)
    ensures Run(plan, stores, readings).stopped ==> Returned(Run(plan, stores, readings), o)
    decreases |stores|
  {
    hide Lookups, Step, WalkInv, Cells, NoMarkerBelow, Consistent;
    if stores == [] {
      BelowIsAfter(plan.root, o);
    } else {
      var n := |stores| - 1;
      WalkIsComplete(plan, stores[..n], readings, o);
      WalkIsSound(plan, stores[..n], readings);
      var w := Run(plan, stores[..n], readings);
      if !w.stopped {
        StepIsLookups(plan, w, stores[n], readings(n), n);
        LookupsMissNothing(plan.root, w, stores[n], readings(n), 0, Cells(plan), n, o);
      }
    }
  }
}
